/** String helpers shared by the model: Rust's `char::is_whitespace`,
    `str::trim`, ASCII lower-casing, decimal formatting of integers
    (`ToString` on `u32`/`i32`) and `join`. */
module Text {
  import opened Wrappers

  /** Rust's `char::is_whitespace`: the Unicode White_Space property. */
  predicate IsWhitespace(c: char) {
    || c == ' ' || ('\t' <= c <= '\r')
    || c == '\U{0085}' || c == '\U{00A0}' || c == '\U{1680}'
    || ('\U{2000}' <= c <= '\U{200A}')
    || c == '\U{2028}' || c == '\U{2029}' || c == '\U{202F}'
    || c == '\U{205F}' || c == '\U{3000}'
  }

  /** Rust's `char::is_ascii_whitespace` (note: no vertical tab). */
  predicate IsAsciiWhitespace(c: char) {
    c == ' ' || c == '\t' || c == '\n' || c == '\U{000C}' || c == '\r'
  }

  /** Rust's `char::is_ascii_graphic`: '!' ..= '~'. */
  predicate IsAsciiGraphic(c: char) {
    '!' <= c <= '~'
  }

  lemma GraphicNotWhitespace(c: char)
    requires IsAsciiGraphic(c)
    ensures !IsWhitespace(c)
  {
  }

  predicate IsAscii(s: string) {
    forall i :: 0 <= i < |s| ==> s[i] < '\U{0080}'
  }

  /** `str::trim_start`: drops the leading whitespace run. */
  function TrimStart(s: string): (r: string)
    ensures |r| <= |s| && r == s[|s| - |r|..]
    ensures forall i :: 0 <= i < |s| - |r| ==> IsWhitespace(s[i])
    ensures |r| > 0 ==> !IsWhitespace(r[0])
  {
    if |s| > 0 && IsWhitespace(s[0]) then TrimStart(s[1..]) else s
  }

  /** `str::trim_end`: drops the trailing whitespace run. */
  function TrimEnd(s: string): (r: string)
    ensures |r| <= |s| && r == s[..|r|]
    ensures forall i :: |r| <= i < |s| ==> IsWhitespace(s[i])
    ensures |r| > 0 ==> !IsWhitespace(r[|r| - 1])
  {
    if |s| > 0 && IsWhitespace(s[|s| - 1]) then TrimEnd(s[..|s| - 1]) else s
  }

  /** `str::trim`: the infix of `s` left once both whitespace runs are gone. */
  function Trim(s: string): (r: string)
    ensures |r| <= |s|
    ensures |r| > 0 ==> !IsWhitespace(r[0]) && !IsWhitespace(r[|r| - 1])
    ensures |s| - |TrimStart(s)| + |r| <= |s|
    ensures r == s[|s| - |TrimStart(s)|..|s| - |TrimStart(s)| + |r|]
  {
    var t := TrimStart(s);
    var r := TrimEnd(t);
    SliceOfSuffix(s, |s| - |t|, |r|);
    r
  }

  lemma SliceOfSuffix(s: string, a: nat, n: nat)
    requires a + n <= |s|
    ensures s[a..][..n] == s[a..a + n]
  {
  }

  lemma TrimOfUntrimmed(s: string)
    requires |s| > 0 && !IsWhitespace(s[0]) && !IsWhitespace(s[|s| - 1])
    ensures Trim(s) == s
  {
  }

  /** ASCII-only `to_lowercase`: 'A'..'Z' become 'a'..'z', every other
      character is kept. */
  function ToLowerAscii(s: string): (r: string)
    ensures |r| == |s|
    ensures forall i :: 0 <= i < |s| ==>
      r[i] == (if 'A' <= s[i] <= 'Z' then (s[i] as int + 32) as char else s[i])
  {
    if |s| == 0 then ""
    else [if 'A' <= s[0] <= 'Z' then (s[0] as int + 32) as char else s[0]] + ToLowerAscii(s[1..])
  }

  predicate IsDigits(s: string) {
    forall i :: 0 <= i < |s| ==> '0' <= s[i] <= '9'
  }

  function DigitChar(d: nat): (c: char)
    requires d < 10
    ensures '0' <= c <= '9' && c as int - '0' as int == d
  {
    (48 + d) as char
  }

  /** Decimal rendering of a non-negative integer (`to_string` on `u32`). */
  function NatToString(n: nat): (s: string)
    ensures |s| > 0 && IsDigits(s)
    ensures |s| > 1 ==> s[0] != '0'
    decreases n
  {
    if n < 10 then [DigitChar(n)] else NatToString(n / 10) + [DigitChar(n % 10)]
  }

  /** The value of a string of decimal digits: the partner of `NatToString`. */
  function DigitsValue(s: string): nat
    requires IsDigits(s)
  {
    if |s| == 0 then 0
    else DigitsValue(s[..|s| - 1]) * 10 + (s[|s| - 1] as int - '0' as int)
  }

  lemma {:induction false} NatToStringRoundTrip(n: nat)
    ensures DigitsValue(NatToString(n)) == n
    decreases n
  {
    if n >= 10 {
      var s := NatToString(n);
      assert s[..|s| - 1] == NatToString(n / 10);
      NatToStringRoundTrip(n / 10);
    }
  }

  lemma NatToStringInjective(a: nat, b: nat)
    requires NatToString(a) == NatToString(b)
    ensures a == b
  {
    NatToStringRoundTrip(a);
    NatToStringRoundTrip(b);
  }

  /** Decimal rendering of a signed integer (`to_string` on `i16`/`i32`). */
  function IntToString(i: int): (s: string)
    ensures IsAscii(s) && |s| > 0
    ensures i < 0 <==> s[0] == '-'
  {
    if i < 0 then "-" + NatToString(-i) else NatToString(i)
  }

  /** `Vec<String>::join(sep)`. */
  function Join(parts: seq<string>, sep: string): string {
    if |parts| == 0 then ""
    else if |parts| == 1 then parts[0]
    else parts[0] + sep + Join(parts[1..], sep)
  }

  lemma {:induction false} JoinAscii(parts: seq<string>, sep: string)
    requires IsAscii(sep)
    requires forall i :: 0 <= i < |parts| ==> IsAscii(parts[i])
    ensures IsAscii(Join(parts, sep))
  {
    if |parts| > 1 {
      JoinAscii(parts[1..], sep);
    }
  }

  lemma DigitsAscii(s: string)
    requires IsDigits(s)
    ensures IsAscii(s)
  {
  }

  predicate IsPrefix(p: string, s: string) {
    |p| <= |s| && s[..|p|] == p
  }

  predicate IsSuffix(p: string, s: string) {
    |p| <= |s| && s[|s| - |p|..] == p
  }

  /** `needle` occurs in `haystack` starting at index `i`. */
  predicate OccursAt(haystack: string, needle: string, i: int) {
    0 <= i <= |haystack| - |needle| && haystack[i..i + |needle|] == needle
  }

  /** `haystack.contains(needle)`. */
  predicate Contains(haystack: string, needle: string) {
    exists i | 0 <= i <= |haystack| - |needle| :: OccursAt(haystack, needle, i)
  }

  /** Index of the first occurrence of `c`. */
  function FirstIndexOf(s: string, c: char): (r: Option<nat>)
    ensures r.Some? ==> r.value < |s| && s[r.value] == c
    ensures r.Some? ==> forall k :: 0 <= k < r.value ==> s[k] != c
    ensures r.None? ==> forall k :: 0 <= k < |s| ==> s[k] != c
  {
    if |s| == 0 then None
    else if s[0] == c then Some(0)
    else match FirstIndexOf(s[1..], c)
      case None => None
      case Some(i) => Some(i + 1)
  }

  /** Splits a `", "`-joined list back into its items: the partner of
      `Join(_, ", ")` for items without commas. */
  function SplitList(s: string): seq<string>
    decreases |s|
  {
    match FirstIndexOf(s, ',')
    case None => [s]
    case Some(i) => [s[..i]] + SplitList(if i + 2 <= |s| then s[i + 2..] else "")
  }

  lemma {:induction false} SplitJoinList(parts: seq<string>)
    requires |parts| > 0
    requires forall i :: 0 <= i < |parts| ==> ',' !in parts[i]
    ensures SplitList(Join(parts, ", ")) == parts
  {
    if |parts| > 1 {
      var p := parts[0];
      var rest := Join(parts[1..], ", ");
      assert Join(parts, ", ") == p + ", " + rest;
      SplitListStep(p, rest);
      SplitJoinList(parts[1..]);
      assert parts == [p] + parts[1..];
    } else {
      assert FirstIndexOf(parts[0], ',') == None;
    }
  }

  /** An item free of commas, then `", "`, splits off first. */
  lemma SplitListStep(p: string, rest: string)
    requires ',' !in p
    ensures SplitList(p + ", " + rest) == [p] + SplitList(rest)
  {
    var s := p + ", " + rest;
    assert s[|p|] == ',';
    assert forall k :: 0 <= k < |p| ==> s[k] == p[k];
    assert FirstIndexOf(s, ',') == Some(|p|);
    assert s[..|p|] == p;
    assert s[|p| + 2..] == rest;
  }

}
