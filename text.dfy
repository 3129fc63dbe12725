/**
 * Character and string helpers: ASCII case mapping (as SQLite's built-in
 * `lower()` and Python's `str.capitalize` behave on ASCII text), substring
 * search, `", ".join`, lexicographic order and decimal rendering.
 */
module Text {

  function LowerChar(c: char): char {
    if 'A' <= c <= 'Z' then (c as int + 32) as char else c
  }

  function UpperChar(c: char): char {
    if 'a' <= c <= 'z' then (c as int - 32) as char else c
  }

  /** ASCII lower-casing; every other character is kept. */
  function Lower(s: string): string {
    seq(|s|, i requires 0 <= i < |s| => LowerChar(s[i]))
  }

  /** Text with no upper-case ASCII letter is its own lower-casing. */
  lemma LowerKeepsLower(s: string)
    requires forall i | 0 <= i < |s| :: !('A' <= s[i] <= 'Z')
    ensures Lower(s) == s
  { }

  /** Python's `str.capitalize` restricted to ASCII: first character upper, the rest lower. */
  function Capitalize(s: string): string {
    if s == [] then [] else [UpperChar(s[0])] + Lower(s[1..])
  }

  /** `pat` occurs in `text` starting at index `i`. */
  predicate OccursAt(pat: string, text: string, i: int) {
    0 <= i && i + |pat| <= |text| && text[i..i + |pat|] == pat
  }

  /** Substring test, as a scan over the start positions. */
  function Contains(pat: string, text: string): bool
    decreases |text|
  {
    if pat <= text then true
    else if text == [] then false
    else Contains(pat, text[1..])
  }

  /** `Contains` holds exactly when there is a position where `pat` occurs. */
  lemma {:induction false} ContainsIff(pat: string, text: string)
    ensures Contains(pat, text) <==> exists i :: OccursAt(pat, text, i)
    decreases |text|
  {
    if pat <= text {
      assert OccursAt(pat, text, 0);
    } else if text == [] {
      assert pat != [];
      forall i | OccursAt(pat, text, i) ensures false { }
    } else {
      ContainsIff(pat, text[1..]);
      if exists i :: OccursAt(pat, text[1..], i) {
        var i :| OccursAt(pat, text[1..], i);
        assert text[1..][i..i + |pat|] == text[i + 1..i + 1 + |pat|];
        assert OccursAt(pat, text, i + 1);
      }
      if exists i :: OccursAt(pat, text, i) {
        var i :| OccursAt(pat, text, i);
        assert i != 0;
        assert text[1..][i - 1..i - 1 + |pat|] == text[i..i + |pat|];
        assert OccursAt(pat, text[1..], i - 1);
      }
    }
  }

  /** Python's `sep.join(xs)`. */
  function Join(xs: seq<string>, sep: string): string
    decreases |xs|
  {
    if xs == [] then ""
    else if |xs| == 1 then xs[0]
    else xs[0] + sep + Join(xs[1..], sep)
  }

  /** Text found inside a string is found inside anything that string is embedded in. */
  lemma ContainsInContext(pat: string, pre: string, text: string, post: string)
    requires Contains(pat, text)
    ensures Contains(pat, pre + text + post)
  {
    ContainsIff(pat, text);
    var i :| OccursAt(pat, text, i);
    var all := pre + text + post;
    assert all[|pre| + i..|pre| + i + |pat|] == text[i..i + |pat|];
    assert OccursAt(pat, all, |pre| + i);
    ContainsIff(pat, all);
  }

  /** Every joined item can be found in the joined string. */
  lemma {:induction false} JoinContainsEach(xs: seq<string>, sep: string, k: int)
    requires 0 <= k < |xs|
    ensures Contains(xs[k], Join(xs, sep))
    decreases |xs|
  {
    var j := Join(xs, sep);
    if k == 0 {
      if |xs| > 1 {
        assert j == xs[0] + (sep + Join(xs[1..], sep));
      }
      assert j[0..|xs[0]|] == xs[0];
      assert OccursAt(xs[0], j, 0);
    } else {
      var rest := Join(xs[1..], sep);
      JoinContainsEach(xs[1..], sep, k - 1);
      ContainsIff(xs[k], rest);
      var i :| OccursAt(xs[k], rest, i);
      var head := xs[0] + sep;
      assert j == head + rest;
      var off := |head| + i;
      assert j[off..off + |xs[k]|] == rest[i..i + |xs[k]|];
      assert OccursAt(xs[k], j, off);
    }
    ContainsIff(xs[k], j);
  }

  /** Lexicographic order on strings (code-point comparison, as SQLite's BINARY collation). */
  predicate StrLe(a: string, b: string)
    decreases |a|
  {
    a == [] || (b != [] && (a[0] < b[0] || (a[0] == b[0] && StrLe(a[1..], b[1..]))))
  }

  lemma StrLeTotal(a: string, b: string)
    ensures StrLe(a, b) || StrLe(b, a)
  { }

  lemma StrLeTransitive(a: string, b: string, c: string)
    requires StrLe(a, b) && StrLe(b, c)
    ensures StrLe(a, c)
  { }

  function DigitChar(n: int): char
    requires 0 <= n <= 9
  {
    (48 + n) as char
  }

  predicate IsDigit(c: char) {
    '0' <= c <= '9'
  }

  function DigitValue(c: char): int {
    c as int - 48
  }

  /** Decimal rendering of a natural number, most significant digit first. */
  function NatToDecimal(n: nat): string
    decreases n
  {
    if n < 10 then [DigitChar(n)] else NatToDecimal(n / 10) + [DigitChar(n % 10)]
  }

  /** Decimal rendering of an integer, with a leading `-` for negative values. */
  function IntToDecimal(i: int): string {
    if i < 0 then "-" + NatToDecimal(-i) else NatToDecimal(i)
  }
}
