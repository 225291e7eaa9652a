/**
 * The two string comparisons the DAO relies on: Java's `String.equalsIgnoreCase`,
 * character by character through `Character.toUpperCase` and
 * `Character.toLowerCase` (used for authentication types, the reserved identity-provider name, the
 * rename check and the client-type dispatch) and the blank test
 * `s.trim().length() == 0` used when claim mappings are read back.
 */
module Text {

  /**
   * `Character.toUpperCase` on one UTF-16 unit, for the basic Latin,
   * Latin-1, Latin Extended-A, basic Greek and basic Cyrillic letters;
   * every other character is left as it is.
   */
  function UpperChar(c: char): char {
    var n := c as int;
    if 0x61 <= n <= 0x7A then (n - 32) as char
    else if n == 0xB5 then 0x39C as char
    else if 0xE0 <= n <= 0xFE && n != 0xF7 then (n - 32) as char
    else if n == 0xFF then 0x178 as char
    else if n == 0x131 then 'I'
    else if n == 0x17F then 'S'
    else if (0x101 <= n <= 0x137 || 0x14B <= n <= 0x177) && n % 2 == 1 then (n - 1) as char
    else if (0x13A <= n <= 0x148 || 0x17A <= n <= 0x17E) && n % 2 == 0 then (n - 1) as char
    else if n == 0x3C2 then 0x3A3 as char
    else if 0x3B1 <= n <= 0x3C9 then (n - 32) as char
    else if 0x430 <= n <= 0x44F then (n - 32) as char
    else if 0x450 <= n <= 0x45F then (n - 80) as char
    else c
  }

  /** `Character.toLowerCase` on one UTF-16 unit, over the same letters and the Ohm, Kelvin and Angstrom signs. */
  function LowerChar(c: char): char {
    var n := c as int;
    if 0x41 <= n <= 0x5A then (n + 32) as char
    else if 0xC0 <= n <= 0xDE && n != 0xD7 then (n + 32) as char
    else if n == 0x130 then 'i'
    else if n == 0x178 then 0xFF as char
    else if (0x100 <= n <= 0x136 || 0x14A <= n <= 0x176) && n % 2 == 0 then (n + 1) as char
    else if (0x139 <= n <= 0x147 || 0x179 <= n <= 0x17D) && n % 2 == 1 then (n + 1) as char
    else if 0x391 <= n <= 0x3A9 && n != 0x3A2 then (n + 32) as char
    else if 0x410 <= n <= 0x42F then (n + 32) as char
    else if 0x400 <= n <= 0x40F then (n + 80) as char
    else if n == 0x2126 then 0x3C9 as char
    else if n == 0x212A then 'k'
    else if n == 0x212B then 0xE5 as char
    else c
  }

  /**
   * The per-character test of `regionMatches` with `ignoreCase`: equal units,
   * equal upper cases, or equal lower cases of the upper cases.
   */
  predicate CharEqualsIgnoreCase(a: char, b: char) {
    a == b || UpperChar(a) == UpperChar(b) || LowerChar(UpperChar(a)) == LowerChar(UpperChar(b))
  }

  predicate EqualsIgnoreCase(a: string, b: string) {
    |a| == |b| && forall i :: 0 <= i < |a| ==> CharEqualsIgnoreCase(a[i], b[i])
  }

  lemma EqualsIgnoreCaseSymmetric(a: string, b: string)
    ensures EqualsIgnoreCase(a, b) == EqualsIgnoreCase(b, a)
  {
  }

  /** Every string equals itself ignoring case. */
  lemma EqualsIgnoreCaseReflexive(a: string)
    ensures EqualsIgnoreCase(a, a)
  {
  }

  /** Latin-1 letters fold like ASCII ones: "café" equals "CAFÉ". */
  lemma AccentedLettersFoldExample()
    ensures EqualsIgnoreCase("caf\U{00e9}", "CAF\U{00c9}")
    ensures !EqualsIgnoreCase("caf\U{00e9}", "CAFE")
  {
    assert CharEqualsIgnoreCase('c', 'C') && CharEqualsIgnoreCase('a', 'A') && CharEqualsIgnoreCase('f', 'F');
    assert CharEqualsIgnoreCase('\U{00e9}', '\U{00c9}');
    assert !CharEqualsIgnoreCase("caf\U{00e9}"[3], "CAFE"[3]);
  }

  /** The long s, the dotless i, the dotted capital I and the Kelvin sign all match ASCII letters. */
  lemma AsciiLookalikesFoldExample()
    ensures CharEqualsIgnoreCase('\U{017f}', 's') && CharEqualsIgnoreCase('\U{0131}', 'i')
    ensures CharEqualsIgnoreCase('\U{0130}', 'i') && CharEqualsIgnoreCase('\U{212a}', 'k')
    ensures !CharEqualsIgnoreCase('\U{017f}', 't')
  {
  }

  /** `String.trim()`: drops every leading and trailing character whose code is at most ' '. */
  function Trim(s: string): string {
    TrimEnd(TrimStart(s))
  }

  function TrimStart(s: string): (r: string)
    ensures |r| <= |s|
    ensures r == [] || r[0] > ' '
    ensures r == s[|s| - |r|..]
  {
    if s != [] && s[0] <= ' ' then TrimStart(s[1..]) else s
  }

  function TrimEnd(s: string): (r: string)
    ensures |r| <= |s|
    ensures r == s[..|r|]
  {
    if s != [] && s[|s| - 1] <= ' ' then TrimEnd(s[..|s| - 1]) else s
  }

  /** `s.trim().length() == 0`. */
  predicate IsBlank(s: string) {
    |Trim(s)| == 0
  }

  predicate AllWhitespace(s: string) {
    forall i :: 0 <= i < |s| ==> s[i] <= ' '
  }

  lemma {:induction false} TrimStartEmpty(s: string)
    ensures TrimStart(s) == [] <==> AllWhitespace(s)
  {
    if s == [] {
    } else if s[0] > ' ' {
      assert TrimStart(s) == s;
    } else {
      var tail := s[1..];
      TrimStartEmpty(tail);
      assert TrimStart(s) == TrimStart(tail);
      if AllWhitespace(tail) {
        forall i | 0 <= i < |s| ensures s[i] <= ' ' {
          if i > 0 { assert s[i] == tail[i - 1]; }
        }
      } else {
        var j :| 0 <= j < |tail| && tail[j] > ' ';
        assert s[j + 1] == tail[j];
      }
    }
  }

  lemma {:induction false} TrimEndKeepsNonEmpty(s: string)
    requires s != [] && s[0] > ' '
    ensures TrimEnd(s) != []
  {
    if s[|s| - 1] <= ' ' {
      assert |s| > 1;
      TrimEndKeepsNonEmpty(s[..|s| - 1]);
    }
  }

  /** A string is blank exactly when every character of it is whitespace in Java's sense. */
  lemma BlankIffAllWhitespace(s: string)
    ensures IsBlank(s) <==> AllWhitespace(s)
  {
    TrimStartEmpty(s);
    var t := TrimStart(s);
    if t != [] {
      TrimEndKeepsNonEmpty(t);
    }
  }
}
