/**
 * JavaScript strings as the engine sees them: sequences of UTF-16 code units.
 * `.length`, `substring`, `includes` and the relational operators all work on
 * these units, so a character outside the Basic Multilingual Plane counts as
 * two of them, and compares by its leading surrogate.
 */
module JsStrings {
  /** A UTF-16 code unit. */
  newtype CodeUnit = x: int | 0 <= x < 0x1_0000

  /** `c` lies in the Basic Multilingual Plane and is written as one unit. */
  predicate IsBmp(c: char)
  {
    (c as int) < 0x1_0000
  }

  /** The UTF-16 encoding of one character: one unit, or a surrogate pair. */
  function Units(c: char): (r: seq<CodeUnit>)
    ensures IsBmp(c) ==> r == [c as int as CodeUnit]
    ensures !IsBmp(c) ==> |r| == 2 && 0xD800 <= r[0] < 0xDC00 && 0xDC00 <= r[1] < 0xE000
  {
    var n := c as int;
    if n < 0x1_0000 then [n as CodeUnit]
    else
      var v := n - 0x1_0000;
      [(0xD800 + v / 0x400) as CodeUnit, (0xDC00 + v % 0x400) as CodeUnit]
  }

  /** A surrogate pair decodes back to the character it encodes. */
  lemma UnitsDecode(c: char)
    requires !IsBmp(c)
    ensures var r := Units(c);
      0x1_0000 + (r[0] as int - 0xD800) * 0x400 + (r[1] as int - 0xDC00) == c as int
  {
  }

  /** A string's code units, character after character. */
  function Utf16(s: string): (r: seq<CodeUnit>)
    ensures |s| <= |r| <= 2 * |s|
    ensures |r| == |s| <==> forall i :: 0 <= i < |s| ==> IsBmp(s[i])
  {
    if s == [] then []
    else
      var r := Units(s[0]) + Utf16(s[1..]);
      assert (forall i :: 0 <= i < |s| ==> IsBmp(s[i])) <==>
        IsBmp(s[0]) && forall i :: 0 <= i < |s[1..]| ==> IsBmp(s[1..][i]) by {
        if forall i :: 0 <= i < |s[1..]| ==> IsBmp(s[1..][i]) {
          forall i | 1 <= i < |s| ensures IsBmp(s[i]) {
            assert s[i] == s[1..][i - 1];
          }
        }
      }
      r
  }

  /** `s.length`: the number of code units. */
  function JsLength(s: string): (n: nat)
    ensures |s| <= n <= 2 * |s|
    ensures n == 0 <==> s == ""
  {
    |Utf16(s)|
  }

  /** JavaScript's `a <= b` on strings: lexicographic on code units, a prefix first. */
  predicate LexLe(a: seq<CodeUnit>, b: seq<CodeUnit>)
  {
    if a == [] then true
    else if b == [] then false
    else if a[0] != b[0] then a[0] < b[0]
    else LexLe(a[1..], b[1..])
  }

  /** Any two strings are comparable. */
  lemma {:induction false} LexLeTotal(a: seq<CodeUnit>, b: seq<CodeUnit>)
    ensures LexLe(a, b) || LexLe(b, a)
  {
    if a != [] && b != [] && a[0] == b[0] {
      LexLeTotal(a[1..], b[1..]);
    }
  }

  /** The string order is transitive. */
  lemma {:induction false} LexLeTransitive(a: seq<CodeUnit>, b: seq<CodeUnit>, c: seq<CodeUnit>)
    requires LexLe(a, b) && LexLe(b, c)
    ensures LexLe(a, c)
  {
    if a != [] && b != [] && c != [] && a[0] == b[0] && b[0] == c[0] {
      LexLeTransitive(a[1..], b[1..], c[1..]);
    }
  }

  /**
   * Code-unit order is not code-point order: U+1F600 sorts before U+FF01,
   * because its leading surrogate 0xD83D is below 0xFF01.
   */
  lemma SurrogatesSortBelowHighBmp()
    ensures LexLe(Utf16("\U{1F600}"), Utf16("\U{FF01}"))
    ensures !LexLe(Utf16("\U{FF01}"), Utf16("\U{1F600}"))
    ensures '\U{1F600}' > '\U{FF01}'
  {
    assert Utf16("\U{1F600}") == Units('\U{1F600}');
    assert Utf16("\U{FF01}") == Units('\U{FF01}');
  }

  /** Characters outside the Basic Multilingual Plane count twice in `.length`. */
  lemma AstralLength(c1: char, c2: char)
    requires !IsBmp(c1) && !IsBmp(c2)
    ensures JsLength([c1, c2]) == 4
  {
    assert [c1, c2][1..] == [c2];
    assert Utf16([c2]) == Units(c2) + Utf16([]);
  }
}
