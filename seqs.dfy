/**
 * Selecting table rows by a key: what a `WHERE key = ?` or a `DELETE ... WHERE
 * key = ?` does to a table that is modelled as a sequence of rows.
 */
module Seqs {

  /** The rows whose key is `k`, in table order. */
  function Keep<T(!new), K(==)>(s: seq<T>, key: T -> K, k: K): (r: seq<T>)
    ensures |r| <= |s|
    ensures forall x :: x in r <==> x in s && key(x) == k
  {
    if s == [] then []
    else (if key(s[0]) == k then [s[0]] else []) + Keep(s[1..], key, k)
  }

  /** The rows whose key is not `k`, in table order. */
  function Drop<T(!new), K(==)>(s: seq<T>, key: T -> K, k: K): (r: seq<T>)
    ensures |r| <= |s|
    ensures forall x :: x in r <==> x in s && key(x) != k
  {
    if s == [] then []
    else (if key(s[0]) != k then [s[0]] else []) + Drop(s[1..], key, k)
  }

  /** The rows whose key lies outside `ks`. */
  function DropIn<T(!new), K(==)>(s: seq<T>, key: T -> K, ks: set<K>): (r: seq<T>)
    ensures |r| <= |s|
    ensures forall x :: x in r <==> x in s && key(x) !in ks
  {
    if s == [] then []
    else (if key(s[0]) !in ks then [s[0]] else []) + DropIn(s[1..], key, ks)
  }

  lemma {:induction false} KeepAppend<T(!new), K>(a: seq<T>, b: seq<T>, key: T -> K, k: K)
    ensures Keep(a + b, key, k) == Keep(a, key, k) + Keep(b, key, k)
  {
    if a != [] {
      assert (a + b)[1..] == a[1..] + b;
      KeepAppend(a[1..], b, key, k);
    } else {
      assert a + b == b;
    }
  }

  lemma {:induction false} DropAppend<T(!new), K>(a: seq<T>, b: seq<T>, key: T -> K, k: K)
    ensures Drop(a + b, key, k) == Drop(a, key, k) + Drop(b, key, k)
  {
    if a != [] {
      assert (a + b)[1..] == a[1..] + b;
      DropAppend(a[1..], b, key, k);
    } else {
      assert a + b == b;
    }
  }

  lemma {:induction false} DropInAppend<T(!new), K>(a: seq<T>, b: seq<T>, key: T -> K, ks: set<K>)
    ensures DropIn(a + b, key, ks) == DropIn(a, key, ks) + DropIn(b, key, ks)
  {
    if a != [] {
      assert (a + b)[1..] == a[1..] + b;
      DropInAppend(a[1..], b, key, ks);
    } else {
      assert a + b == b;
    }
  }

  /** Keeping `k` after dropping it leaves nothing. */
  lemma {:induction false} KeepDropped<T(!new), K>(s: seq<T>, key: T -> K, k: K)
    ensures Keep(Drop(s, key, k), key, k) == []
  {
    if s != [] {
      KeepDropped(s[1..], key, k);
      KeepAppend(if key(s[0]) != k then [s[0]] else [], Drop(s[1..], key, k), key, k);
    }
  }

  /** Dropping `k` twice is dropping it once. */
  lemma DropDrop<T(!new), K>(s: seq<T>, key: T -> K, k: K)
    ensures Drop(Drop(s, key, k), key, k) == Drop(s, key, k)
  {
    DropNone(Drop(s, key, k), key, k);
  }

  /** When every row of `s` has key `k`, keeping `k` keeps all of `s`. */
  lemma {:induction false} KeepAll<T(!new), K>(s: seq<T>, key: T -> K, k: K)
    requires forall x :: x in s ==> key(x) == k
    ensures Keep(s, key, k) == s
  {
    if s != [] {
      KeepAll(s[1..], key, k);
      assert s == [s[0]] + s[1..];
    }
  }

  /** When no row of `s` has key `k`, dropping `k` keeps all of `s`. */
  lemma {:induction false} DropNone<T(!new), K>(s: seq<T>, key: T -> K, k: K)
    requires forall x :: x in s ==> key(x) != k
    ensures Drop(s, key, k) == s
  {
    if s != [] {
      DropNone(s[1..], key, k);
      assert s == [s[0]] + s[1..];
    }
  }

  /** When no row of `s` has a key in `ks`, dropping `ks` keeps all of `s`. */
  lemma {:induction false} DropInNone<T(!new), K>(s: seq<T>, key: T -> K, ks: set<K>)
    requires forall x :: x in s ==> key(x) !in ks
    ensures DropIn(s, key, ks) == s
  {
    if s != [] {
      DropInNone(s[1..], key, ks);
      assert s == [s[0]] + s[1..];
    }
  }

  /** When no row of `s` has key `k`, keeping `k` keeps nothing. */
  lemma {:induction false} KeepNone<T(!new), K>(s: seq<T>, key: T -> K, k: K)
    requires forall x :: x in s ==> key(x) != k
    ensures Keep(s, key, k) == []
  {
    if s != [] {
      KeepNone(s[1..], key, k);
    }
  }

  /** Dropping one key does not change what another key selects. */
  lemma {:induction false} KeepOtherAfterDrop<T(!new), K>(s: seq<T>, key: T -> K, k: K, k': K)
    requires k != k'
    ensures Keep(Drop(s, key, k), key, k') == Keep(s, key, k')
  {
    if s != [] {
      KeepOtherAfterDrop(s[1..], key, k, k');
      KeepAppend(if key(s[0]) != k then [s[0]] else [], Drop(s[1..], key, k), key, k');
    }
  }

  /**
   * Deleting the rows of key `k` and inserting `rows`, all of key `k`: key `k`
   * then selects exactly `rows`, and every other key what it selected before.
   */
  lemma ReplaceSelects<T(!new), K>(s: seq<T>, rows: seq<T>, key: T -> K, k: K, k': K)
    requires forall x :: x in rows ==> key(x) == k
    ensures Keep(Drop(s, key, k) + rows, key, k) == rows
    ensures k' != k ==> Keep(Drop(s, key, k) + rows, key, k') == Keep(s, key, k')
  {
    KeepAppend(Drop(s, key, k), rows, key, k);
    KeepDropped(s, key, k);
    KeepAll(rows, key, k);
    if k' != k {
      KeepAppend(Drop(s, key, k), rows, key, k');
      KeepOtherAfterDrop(s, key, k, k');
      KeepNone(rows, key, k');
    }
  }

  /** No two elements of `s` share an identity. */
  ghost predicate Distinct<T, L>(s: seq<T>, id: T -> L) {
    forall i, j :: 0 <= i < j < |s| ==> id(s[i]) != id(s[j])
  }

  /** Deleting rows keeps identities distinct. */
  lemma {:induction false} DropKeepsDistinct<T(!new), K, L>(s: seq<T>, key: T -> K, k: K, id: T -> L)
    requires Distinct(s, id)
    ensures Distinct(Drop(s, key, k), id)
  {
    if s != [] {
      var rest := Drop(s[1..], key, k);
      assert Distinct(s[1..], id) by {
        assert forall i :: 0 <= i < |s| - 1 ==> s[1..][i] == s[i + 1];
      }
      DropKeepsDistinct(s[1..], key, k, id);
      forall x | x in rest
        ensures id(x) != id(s[0])
      {
        var j :| 0 <= j < |s[1..]| && s[1..][j] == x;
        assert s[j + 1] == x;
      }
    }
  }

  /** Deleting rows by a second key leaves a selection alone when none of the selected rows has a deleted key. */
  lemma {:induction false} KeepDropIn<T(!new), K, L>(s: seq<T>, f: T -> L, ks: set<L>, g: T -> K, k: K)
    requires forall x :: x in s && g(x) == k ==> f(x) !in ks
    ensures Keep(DropIn(s, f, ks), g, k) == Keep(s, g, k)
  {
    if s != [] {
      var head := if f(s[0]) !in ks then [s[0]] else [];
      assert DropIn(s, f, ks) == head + DropIn(s[1..], f, ks);
      KeepAppend(head, DropIn(s[1..], f, ks), g, k);
      assert Keep(head, g, k) == if g(s[0]) == k then [s[0]] else [];
      KeepDropIn(s[1..], f, ks, g, k);
    }
  }

  lemma {:induction false} DropInKeepsDistinct<T(!new), K, L>(s: seq<T>, key: T -> K, ks: set<K>, id: T -> L)
    requires Distinct(s, id)
    ensures Distinct(DropIn(s, key, ks), id)
  {
    if s != [] {
      var rest := DropIn(s[1..], key, ks);
      assert Distinct(s[1..], id) by {
        assert forall i :: 0 <= i < |s| - 1 ==> s[1..][i] == s[i + 1];
      }
      DropInKeepsDistinct(s[1..], key, ks, id);
      forall x | x in rest
        ensures id(x) != id(s[0])
      {
        var j :| 0 <= j < |s[1..]| && s[1..][j] == x;
        assert s[j + 1] == x;
      }
    }
  }
}
