/** The few `java.lang.String` operations the modelled code relies on, over ASCII. */
module Text {

  /** `Character.toLowerCase` restricted to ASCII letters. */
  function Lower(c: char): char {
    if 'A' <= c <= 'Z' then (c as int + 32) as char else c
  }

  /** `String.toLowerCase(Locale.ROOT)` restricted to ASCII letters. */
  function ToLower(s: string): (r: string)
    ensures |r| == |s|
    ensures forall i :: 0 <= i < |s| ==> r[i] == Lower(s[i])
  {
    seq(|s|, i requires 0 <= i < |s| => Lower(s[i]))
  }

  /** `String.equalsIgnoreCase`: same length and equal character by character after case folding. */
  predicate EqualsIgnoreCase(a: string, b: string) {
    |a| == |b| && forall i :: 0 <= i < |a| ==> Lower(a[i]) == Lower(b[i])
  }

  /** `Math.min`. */
  function Min(a: int, b: int): int {
    if a <= b then a else b
  }

  /** `String.startsWith`. */
  predicate StartsWith(s: string, prefix: string) {
    prefix <= s
  }

  /** `part` occurs in `s` starting at offset `k`. */
  predicate OccursAt(s: string, part: string, k: int) {
    0 <= k <= |s| - |part| && s[k..k + |part|] == part
  }

  /** `String.contains`: `part` occurs at some offset of `s`. */
  predicate Contains(s: string, part: string) {
    exists k :: 0 <= k <= |s| && OccursAt(s, part, k)
  }

  /** `Character.isWhitespace`, as `String.isBlank` uses it. */
  predicate IsWhitespace(c: char) {
    || ('\t' <= c <= '\r')
    || ('\U{1C}' <= c <= ' ')
    || c == '\U{1680}' || ('\U{2000}' <= c <= '\U{2006}') || ('\U{2008}' <= c <= '\U{200A}')
    || c == '\U{2028}' || c == '\U{2029}' || c == '\U{205F}' || c == '\U{3000}'
  }

  /** `String.isBlank`: empty or only white space. */
  predicate IsBlank(s: string) {
    forall i :: 0 <= i < |s| ==> IsWhitespace(s[i])
  }

  /** `Integer.toString` for a non-negative value. */
  function DecimalText(n: nat): (r: string)
    ensures |r| > 0
    decreases n
  {
    var digit := ['0' + (n % 10) as char];
    if n < 10 then digit else DecimalText(n / 10) + digit
  }

  /** `Integer.toHexString` for a non-negative value (lower-case digits). */
  function HexText(n: nat): (r: string)
    ensures |r| > 0
    decreases n
  {
    var d := n % 16;
    var digit := [if d < 10 then '0' + d as char else 'a' + (d - 10) as char];
    if n < 16 then digit else HexText(n / 16) + digit
  }

  /** The elements of `parts` joined by `sep`. */
  function Join(parts: seq<string>, sep: char): string {
    if |parts| == 0 then ""
    else if |parts| == 1 then parts[0]
    else parts[0] + [sep] + Join(parts[1..], sep)
  }

  lemma JoinAppend(parts: seq<string>, last: string, sep: char)
    requires |parts| > 0
    ensures Join(parts + [last], sep) == Join(parts, sep) + [sep] + last
  {
    var whole := parts + [last];
    assert whole[0] == parts[0];
    if |parts| == 1 {
      assert whole[1..] == [last];
    } else {
      assert whole[1..] == parts[1..] + [last];
      JoinAppend(parts[1..], last, sep);
      assert Join(whole, sep) == parts[0] + [sep] + (Join(parts[1..], sep) + [sep] + last);
    }
  }

  /** The pieces of `s` between commas, empty pieces included. */
  function RawSplit(s: string): (r: seq<string>)
    ensures |r| > 0
    ensures Join(r, ',') == s
    ensures forall i :: 0 <= i < |r| ==> ',' !in r[i]
  {
    if |s| == 0 then [""]
    else
      var rest := RawSplit(s[1..]);
      if s[0] == ',' then [""] + rest
      else [[s[0]] + rest[0]] + rest[1..]
  }

  /** Drops trailing empty strings, as `String.split` with limit zero does. */
  function DropTrailingEmpty(parts: seq<string>): (r: seq<string>)
    ensures r <= parts
    ensures |r| == 0 || r[|r| - 1] != ""
    ensures forall i :: |r| <= i < |parts| ==> parts[i] == ""
  {
    if |parts| > 0 && parts[|parts| - 1] == "" then DropTrailingEmpty(parts[..|parts| - 1]) else parts
  }

  /**
   * Joining what `DropTrailingEmpty` kept gives a prefix of the full join, and the
   * rest of it is commas only.
   */
  lemma {:induction false} DropTrailingEmptyJoin(parts: seq<string>)
    requires |parts| > 0
    ensures Join(DropTrailingEmpty(parts), ',') <= Join(parts, ',')
    ensures forall i :: |Join(DropTrailingEmpty(parts), ',')| <= i < |Join(parts, ',')| ==> Join(parts, ',')[i] == ','
  {
    if parts[|parts| - 1] == "" && |parts| > 1 {
      var init := parts[..|parts| - 1];
      DropTrailingEmptyJoin(init);
      assert parts == init + [""];
      JoinAppend(init, "", ',');
    }
  }

  /**
   * `String.split(",")`: the pieces between commas with trailing empty pieces removed;
   * a string without any comma comes back whole, even when it is empty.
   */
  function SplitComma(s: string): (r: seq<string>)
    ensures forall i :: 0 <= i < |r| ==> ',' !in r[i]
    ensures s == "" ==> r == [""]
    ensures s != "" ==> |r| == 0 || r[|r| - 1] != ""
    ensures Join(r, ',') <= s
    ensures forall i :: |Join(r, ',')| <= i < |s| ==> s[i] == ','
  {
    if ',' !in s then [s]
    else
      var r := DropTrailingEmpty(RawSplit(s));
      DropTrailingEmptyJoin(RawSplit(s));
      r
  }
}
