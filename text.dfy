/** Character-level helpers of the simulator: the whitespace strip applied to each
    trace line, hexadecimal parsing as int(s, 16) does it for plain digit strings,
    and the upper-case hexadecimal formatting of f"{n:X}". */
module Text {
  import opened Results

  /** The ASCII characters str.strip() removes: space, tab, line feed, vertical tab, form
      feed, carriage return and the four separators U+001C to U+001F. */
  predicate IsSpace(c: char) {
    c == ' ' || '\t' <= c <= '\r' || '\U{1C}' <= c <= '\U{1F}'
  }

  /** Drops leading whitespace: the result is a suffix of s that does not start with a space. */
  function TrimLeft(s: string): (r: string)
    ensures |r| <= |s| && r == s[|s| - |r|..]
    ensures forall k :: 0 <= k < |s| - |r| ==> IsSpace(s[k])
    ensures r == [] || !IsSpace(r[0])
  {
    if s != [] && IsSpace(s[0]) then TrimLeft(s[1..]) else s
  }

  /** Drops trailing whitespace: the result is a prefix of s that does not end with a space. */
  function TrimRight(s: string): (r: string)
    ensures |r| <= |s| && r == s[..|r|]
    ensures forall k :: |r| <= k < |s| ==> IsSpace(s[k])
    ensures r == [] || !IsSpace(r[|r| - 1])
  {
    if s != [] && IsSpace(s[|s| - 1]) then TrimRight(s[..|s| - 1]) else s
  }

  /** str.strip(): TrimLeft, then TrimRight. */
  function Strip(s: string): (r: string)
    ensures |r| <= |s|
    ensures r == [] || (!IsSpace(r[0]) && !IsSpace(r[|r| - 1]))
  {
    TrimRight(TrimLeft(s))
  }

  /** Strip keeps the slice s[i..i + |Strip(s)|] where i counts the leading whitespace,
      and everything it drops on either side is whitespace. */
  lemma StripIsSlice(s: string)
    ensures var i, r := |s| - |TrimLeft(s)|, Strip(s);
      && i + |r| <= |s| && r == s[i..i + |r|]
      && (forall k :: 0 <= k < i ==> IsSpace(s[k]))
      && (forall k :: i + |r| <= k < |s| ==> IsSpace(s[k]))
  {
    var left := TrimLeft(s);
    var r := TrimRight(left);
    var i := |s| - |left|;
    assert left == s[i..];
    forall k | i + |r| <= k < |s| ensures IsSpace(s[k]) {
      assert s[k] == left[k - i];
    }
  }

  predicate IsHexDigit(c: char) {
    '0' <= c <= '9' || 'a' <= c <= 'f' || 'A' <= c <= 'F'
  }

  /** The digits f"{n:X}" produces. */
  predicate IsUpperHexDigit(c: char) {
    '0' <= c <= '9' || 'A' <= c <= 'F'
  }

  predicate AllHex(s: string) {
    forall k :: 0 <= k < |s| ==> IsHexDigit(s[k])
  }

  function DigitValue(c: char): (d: nat)
    requires IsHexDigit(c)
    ensures d < 16
  {
    if '0' <= c <= '9' then c as int - '0' as int
    else if 'a' <= c <= 'f' then c as int - 'a' as int + 10
    else c as int - 'A' as int + 10
  }

  /** The value of a string of hexadecimal digits, most significant digit first. */
  function HexValue(s: string): nat
    requires AllHex(s)
  {
    if s == [] then 0 else HexValue(s[..|s| - 1]) * 16 + DigitValue(s[|s| - 1])
  }

  /** int(s, 16) on plain digit strings: a non-empty string of hexadecimal digits in
      either case is accepted; anything else raises ValueError. */
  function ParseHex(s: string): (r: Result<nat>)
    ensures r.Ok? <==> s != [] && AllHex(s)
    ensures r.Err? ==> r.error == InvalidHexLiteral
  {
    if s != [] && AllHex(s) then Ok(HexValue(s)) else Err(InvalidHexLiteral)
  }

  /** The upper-case digit for a value below 16; DigitValue undoes it. */
  function UpperDigit(d: nat): (c: char)
    requires d < 16
    ensures IsUpperHexDigit(c) && IsHexDigit(c) && DigitValue(c) == d
  {
    if d < 10 then ('0' as int + d) as char else ('A' as int + d - 10) as char
  }

  /** f"{n:X}": upper-case hexadecimal, no leading zeros, "0" for zero. */
  function ToHex(n: nat): (s: string)
    ensures s != [] && AllHex(s)
    ensures forall k :: 0 <= k < |s| ==> IsUpperHexDigit(s[k])
    ensures s[0] == '0' <==> n == 0
    ensures n == 0 ==> s == "0"
  {
    if n < 16 then [UpperDigit(n)] else ToHex(n / 16) + [UpperDigit(n % 16)]
  }

  /** Parsing what ToHex prints gives back the number. */
  lemma {:induction false} HexRoundTrip(n: nat)
    ensures ParseHex(ToHex(n)) == Ok(n)
    ensures HexValue(ToHex(n)) == n
  {
    var s := ToHex(n);
    if n < 16 {
      assert s[..|s| - 1] == [] && s[|s| - 1] == UpperDigit(n);
      assert HexValue(s) == DigitValue(UpperDigit(n));
    } else {
      HexRoundTrip(n / 16);
      assert s[..|s| - 1] == ToHex(n / 16);
    }
  }

  /** A non-empty digit string whose first digit is not zero has a positive value. */
  lemma {:induction false} LeadingDigitPositive(s: string)
    requires s != [] && AllHex(s) && s[0] != '0'
    ensures HexValue(s) > 0
  {
    if |s| > 1 {
      LeadingDigitPositive(s[..|s| - 1]);
    } else {
      assert s[0] == s[|s| - 1];
    }
  }

  /** The other direction: an upper-case digit string without leading zeros is exactly
      what ToHex prints for its value, so f"{n:X}" is the canonical spelling of n. */
  lemma {:induction false} CanonicalRoundTrip(s: string)
    requires s != [] && (forall k :: 0 <= k < |s| ==> IsUpperHexDigit(s[k]))
    requires s[0] == '0' ==> |s| == 1
    ensures AllHex(s) && ToHex(HexValue(s)) == s
  {
    var n := HexValue(s);
    var c := s[|s| - 1];
    var d := DigitValue(c);
    if |s| == 1 {
      assert s[..|s| - 1] == [];
    } else {
      var init := s[..|s| - 1];
      CanonicalRoundTrip(init);
      LeadingDigitPositive(init);
      assert n / 16 == HexValue(init) && n % 16 == d;
      assert ToHex(n) == ToHex(n / 16) + [UpperDigit(d)];
      assert s == init + [c];
    }
  }
}
