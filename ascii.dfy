/** The string primitives the booking manager relies on (`str.isspace`, `str.isdigit`,
    `str.upper`, `str.lower`, `str.strip`, `int(...)` and `str(...)`), restricted to ASCII. */
module Ascii {

  /** Python's whitespace within ASCII: tab, line feed, vertical tab, form feed,
      carriage return, the separators 0x1C to 0x1F, and space. */
  predicate IsSpace(c: char) {
    9 <= c as int <= 13 || 28 <= c as int <= 32
  }

  predicate IsDigit(c: char) {
    '0' <= c <= '9'
  }

  predicate AllDigits(s: string) {
    forall i :: 0 <= i < |s| ==> IsDigit(s[i])
  }

  /** `s.isdigit()`: false on the empty string. */
  predicate IsDigits(s: string) {
    |s| > 0 && AllDigits(s)
  }

  function UpperChar(c: char): char {
    if 'a' <= c <= 'z' then (c as int - 32) as char else c
  }

  function LowerChar(c: char): char {
    if 'A' <= c <= 'Z' then (c as int + 32) as char else c
  }

  /** The string obtained by applying `f` to every character of `s`. */
  function MapChars(s: string, f: char -> char): string {
    seq(|s|, i requires 0 <= i < |s| => f(s[i]))
  }

  /** `s.upper()` */
  function Upper(s: string): string {
    MapChars(s, UpperChar)
  }

  /** `s.lower()` */
  function Lower(s: string): string {
    MapChars(s, LowerChar)
  }

  lemma UpperIdempotent(s: string)
    ensures Upper(Upper(s)) == Upper(s)
  {
    assert forall i :: 0 <= i < |s| ==> UpperChar(UpperChar(s[i])) == UpperChar(s[i]);
  }

  lemma LowerIdempotent(s: string)
    ensures Lower(Lower(s)) == Lower(s)
  {
    assert forall i :: 0 <= i < |s| ==> LowerChar(LowerChar(s[i])) == LowerChar(s[i]);
  }

  /** `s.lstrip()`: the longest suffix of `s` that does not start with whitespace. */
  function TrimStart(s: string): (r: string)
    ensures |r| <= |s| && r == s[|s| - |r|..]
    ensures forall i :: 0 <= i < |s| - |r| ==> IsSpace(s[i])
    ensures r == [] || !IsSpace(r[0])
  {
    if |s| > 0 && IsSpace(s[0]) then TrimStart(s[1..]) else s
  }

  /** `s.rstrip()`: the longest prefix of `s` that does not end with whitespace. */
  function TrimEnd(s: string): (r: string)
    ensures |r| <= |s| && r == s[..|r|]
    ensures forall i :: |r| <= i < |s| ==> IsSpace(s[i])
    ensures r == [] || !IsSpace(r[|r| - 1])
  {
    if |s| > 0 && IsSpace(s[|s| - 1]) then TrimEnd(s[..|s| - 1]) else s
  }

  /** `r` is the slice of `s` starting at `lo`, and only whitespace of `s` lies outside it. */
  predicate TrimmedAt(s: string, r: string, lo: nat) {
    lo + |r| <= |s| && r == s[lo..lo + |r|]
    && (forall i :: 0 <= i < lo ==> IsSpace(s[i]))
    && (forall i :: lo + |r| <= i < |s| ==> IsSpace(s[i]))
  }

  /** `s.strip()`: `s` without its leading and trailing whitespace. */
  function Strip(s: string): (r: string)
    ensures |r| <= |s|
    ensures r == [] || (!IsSpace(r[0]) && !IsSpace(r[|r| - 1]))
  {
    TrimEnd(TrimStart(s))
  }

  /** What `Strip` removes is whitespace at the two ends and nothing else. */
  lemma StripTrimmed(s: string)
    ensures exists lo :: TrimmedAt(s, Strip(s), lo)
  {
    var t := TrimStart(s);
    var r := TrimEnd(t);
    var lo := |s| - |t|;
    assert t == s[lo..];
    assert r == t[..|r|];
    assert r == s[lo..lo + |r|];
    forall i | lo + |r| <= i < |s|
      ensures IsSpace(s[i])
    {
      assert s[i] == t[i - lo];
    }
    assert r == Strip(s);
    assert TrimmedAt(s, r, lo);
  }

  /** Trimming commutes with a character map that neither creates nor removes whitespace. */
  lemma {:induction false} TrimStartMap(s: string, f: char -> char)
    requires forall c :: IsSpace(f(c)) <==> IsSpace(c)
    ensures TrimStart(MapChars(s, f)) == MapChars(TrimStart(s), f)
  {
    if |s| > 0 && IsSpace(s[0]) {
      assert MapChars(s, f)[1..] == MapChars(s[1..], f);
      TrimStartMap(s[1..], f);
    }
  }

  lemma {:induction false} TrimEndMap(s: string, f: char -> char)
    requires forall c :: IsSpace(f(c)) <==> IsSpace(c)
    ensures TrimEnd(MapChars(s, f)) == MapChars(TrimEnd(s), f)
  {
    if |s| > 0 && IsSpace(s[|s| - 1]) {
      assert MapChars(s, f)[..|s| - 1] == MapChars(s[..|s| - 1], f);
      TrimEndMap(s[..|s| - 1], f);
    }
  }

  /** `s.upper().strip() == s.strip().upper()`. */
  lemma StripUpper(s: string)
    ensures Strip(Upper(s)) == Upper(Strip(s))
  {
    TrimStartMap(s, UpperChar);
    TrimEndMap(TrimStart(s), UpperChar);
  }

  /** `s.lower().strip() == s.strip().lower()`. */
  lemma StripLower(s: string)
    ensures Strip(Lower(s)) == Lower(Strip(s))
  {
    TrimStartMap(s, LowerChar);
    TrimEndMap(TrimStart(s), LowerChar);
  }

  function DigitValue(c: char): nat
    requires IsDigit(c)
  {
    c as int - '0' as int
  }

  function DigitChar(d: nat): (c: char)
    requires d < 10
    ensures IsDigit(c) && DigitValue(c) == d
  {
    ('0' as int + d) as char
  }

  /** `int(s)` for a string of ASCII digits. */
  function DigitsValue(s: string): nat
    requires AllDigits(s)
  {
    if s == [] then 0 else 10 * DigitsValue(s[..|s| - 1]) + DigitValue(s[|s| - 1])
  }

  /** `str(n)`: decimal digits without leading zeros. */
  function NatToString(n: nat): (r: string)
    ensures IsDigits(r)
    ensures r[0] == '0' ==> r == "0"
  {
    if n < 10 then [DigitChar(n)] else NatToString(n / 10) + [DigitChar(n % 10)]
  }

  /** `int(str(n)) == n` */
  lemma {:induction false} NatToStringRoundTrip(n: nat)
    ensures DigitsValue(NatToString(n)) == n
  {
    if n >= 10 {
      var r := NatToString(n);
      assert r[..|r| - 1] == NatToString(n / 10);
      NatToStringRoundTrip(n / 10);
    }
  }

  /** `str` is injective, so `str(int(a)) == str(int(b))` exactly when the numbers agree. */
  lemma NatToStringInjective(a: nat, b: nat)
    ensures NatToString(a) == NatToString(b) <==> a == b
  {
    if NatToString(a) == NatToString(b) {
      NatToStringRoundTrip(a);
      NatToStringRoundTrip(b);
    }
  }
}
