/**
 * `RefLike::percent_encode`: the UTF-8 bytes of the name, with every byte of the path
 * percent-encode set of the WHATWG URL Standard (section 1.3) and every non-ASCII byte written as
 * `%` and two upper-case hexadecimal digits.
 */
module Percent {
  import opened Wrappers
  import opened Name
  import U8 = Utf8

  /** `percent_encoding::CONTROLS`: C0 controls and DEL. */
  predicate InControls(b: U8.byte) {
    b < 0x20 || b == 0x7F
  }

  /** The fragment percent-encode set: controls, space, `"`, `<`, `>` and the backquote. */
  predicate InFragmentSet(b: U8.byte) {
    InControls(b) || b == 0x20 || b == 0x22 || b == 0x3C || b == 0x3E || b == 0x60
  }

  /** The path percent-encode set: the fragment set, `#`, `?`, `{` and `}`. */
  predicate InPathSet(b: U8.byte) {
    InFragmentSet(b) || b == 0x23 || b == 0x3F || b == 0x7B || b == 0x7D
  }

  /** `utf8_percent_encode` encodes a byte when it is not ASCII or is in the set. */
  predicate ShouldEncode(b: U8.byte) {
    b >= 0x80 || InPathSet(b)
  }

  predicate IsAscii(s: string) {
    forall i :: 0 <= i < |s| ==> s[i] as int < 0x80
  }

  function HexDigit(n: int): (c: char)
    requires 0 <= n < 16
    ensures '0' <= c <= '9' || 'A' <= c <= 'F'
  {
    "0123456789ABCDEF"[n]
  }

  /** The value of a hexadecimal digit of either case, as `percent_decode` reads it. */
  function HexValue(c: char): (v: Option<int>)
    ensures v.Some? ==> 0 <= v.value < 16
  {
    if '0' <= c <= '9' then Some(c as int - '0' as int)
    else if 'A' <= c <= 'F' then Some(c as int - 'A' as int + 10)
    else if 'a' <= c <= 'f' then Some(c as int - 'a' as int + 10)
    else None
  }

  lemma HexValueOfDigit(n: int)
    requires 0 <= n < 16
    ensures HexValue(HexDigit(n)) == Some(n)
  {
  }

  /** Every character of the output is ASCII outside the encode set. */
  predicate UrlSafe(s: string) {
    forall i :: 0 <= i < |s| ==> s[i] as int < 0x80 && !InPathSet(s[i] as int)
  }

  /** One byte of output: itself, or `%XY`. */
  function EncodeByte(b: U8.byte): (s: string)
    ensures ShouldEncode(b) ==> |s| == 3 && s[0] == '%' && HexValue(s[1]) == Some(b / 16) && HexValue(s[2]) == Some(b % 16)
    ensures ShouldEncode(b) ==> ('0' <= s[1] <= '9' || 'A' <= s[1] <= 'F') && ('0' <= s[2] <= '9' || 'A' <= s[2] <= 'F')
    ensures !ShouldEncode(b) ==> s == [b as char]
  {
    HexValueOfDigit(b / 16);
    HexValueOfDigit(b % 16);
    if ShouldEncode(b) then ['%', HexDigit(b / 16), HexDigit(b % 16)] else [b as char]
  }

  lemma EncodeByteSafe(b: U8.byte)
    ensures UrlSafe(EncodeByte(b))
  {
    var s := EncodeByte(b);
    if ShouldEncode(b) {
    }
  }

  function EncodeBytes(bs: seq<U8.byte>): (s: string)
    ensures UrlSafe(s)
    ensures |s| >= |bs|
  {
    if bs == [] then []
    else
      EncodeByteSafe(bs[0]);
      EncodeByte(bs[0]) + EncodeBytes(bs[1..])
  }

  /** `RefLike::percent_encode`, rendered as text. */
  function PercentEncode(r: RefLike): (s: string)
    ensures UrlSafe(s)
  {
    EncodeBytes(U8.Encode(r.path))
  }

  /** `percent_decode` of an ASCII text: each `%` followed by two hexadecimal digits is one byte,
      every other character stands for itself. */
  function PercentDecode(s: string): seq<U8.byte>
    requires IsAscii(s)
  {
    if s == [] then []
    else if |s| >= 3 && s[0] == '%' && HexValue(s[1]).Some? && HexValue(s[2]).Some? then
      [HexValue(s[1]).value * 16 + HexValue(s[2]).value] + PercentDecode(s[3..])
    else
      [s[0] as int] + PercentDecode(s[1..])
  }

  /** Decoding undoes encoding for bytes without `%`. */
  lemma {:induction false} DecodeEncodeBytes(bs: seq<U8.byte>)
    requires 0x25 !in bs
    ensures PercentDecode(EncodeBytes(bs)) == bs
  {
    if bs != [] {
      var b := bs[0];
      var head, tail := EncodeByte(b), EncodeBytes(bs[1..]);
      var s := head + tail;
      DecodeEncodeBytes(bs[1..]);
      if ShouldEncode(b) {
        assert s[3..] == tail;
      } else {
        assert s[0] == b as char;
        assert s[1..] == tail;
      }
      assert bs == [b] + bs[1..];
    }
  }

  /** Only `%` itself encodes to the byte of `%`. */
  lemma {:induction false} EncodeNoPercent(s: string)
    requires '%' !in s
    ensures 0x25 !in U8.Encode(s)
  {
    if s != [] {
      EncodeNoPercent(s[1..]);
      var head := U8.EncodeChar(s[0]);
      assert forall k :: 0 <= k < |head| ==> head[k] != 0x25;
    }
  }

  /** A name without `%` can be recovered from its encoding. */
  lemma PercentRoundTrip(r: RefLike)
    requires '%' !in r.path
    ensures PercentDecode(PercentEncode(r)) == U8.Encode(r.path)
  {
    EncodeNoPercent(r.path);
    DecodeEncodeBytes(U8.Encode(r.path));
  }

  /** Text made only of characters outside the encode set is left as it is. */
  lemma {:induction false} EncodeSafeUnchanged(s: string)
    requires UrlSafe(s)
    ensures EncodeBytes(U8.Encode(s)) == s
  {
    if s != [] {
      EncodeSafeUnchanged(s[1..]);
      assert U8.Encode(s) == [s[0] as int] + U8.Encode(s[1..]);
      assert U8.Encode(s)[1..] == U8.Encode(s[1..]);
      assert s == [s[0]] + s[1..];
    }
  }

  /** Encoding is idempotent: its output is already safe. */
  lemma PercentEncodeIdempotent(r: RefLike)
    ensures PercentEncode(RefLike(PercentEncode(r))) == PercentEncode(r)
  {
    EncodeSafeUnchanged(PercentEncode(r));
  }

  lemma EncodeBytesCons(b: U8.byte, rest: seq<U8.byte>)
    ensures EncodeBytes([b] + rest) == EncodeByte(b) + EncodeBytes(rest)
  {
    assert ([b] + rest)[1..] == rest;
  }

  lemma EncodeHashByte(pct: string)
    requires pct == "%23"
    ensures EncodeByte(0x23) == pct
  {
    assert HexDigit(2) == '2' && HexDigit(3) == '3';
  }

  lemma EncodePlainByte(b: U8.byte, c: char)
    requires !ShouldEncode(b) && c as int == b
    ensures EncodeByte(b) == [c]
  {
  }

  /** `#` is encoded. */
  lemma PercentEncodeHash(r: RefLike)
    requires r.path == "x#1"
    ensures PercentEncode(r) == "x%231"
  {
    var x, h, one := 'x', '#', '1';
    var bs: seq<U8.byte> := [0x78] + ([0x23] + ([0x31] + []));
    assert U8.Encode(r.path) == bs by {
      assert r.path == [x, h, one];
      U8.EncodeAscii(r.path);
    }
    EncodeBytesCons(0x31, []);
    EncodeBytesCons(0x23, [0x31] + []);
    EncodeBytesCons(0x78, [0x23] + ([0x31] + []));
    var pct := "%23";
    EncodeHashByte(pct);
    EncodePlainByte(0x78, x);
    EncodePlainByte(0x31, one);
    assert EncodeBytes(bs) == [x] + (pct + ([one] + []));
  }

  /** A non-ASCII scalar value is encoded byte by byte. */
  lemma PercentEncodeNonAscii()
    ensures PercentEncode(RefLike("é")) == "%C3%A9"
  {
    var e := "é";
    assert U8.EncodeChar(e[0]) == [0xC3, 0xA9];
    assert U8.Encode(e) == [0xC3, 0xA9];
    EncodeTwoHighBytes();
  }

  lemma EncodeTwoHighBytes()
    ensures EncodeBytes([0xC3, 0xA9]) == "%C3%A9"
  {
    var bs: seq<U8.byte> := [0xC3, 0xA9];
    assert EncodeByte(0xA9) == "%A9";
    assert EncodeByte(0xC3) == "%C3";
    assert EncodeBytes(bs[1..]) == "%A9";
    assert EncodeBytes(bs) == "%C3" + "%A9";
  }

  /** Since `%` passes through, two valid names can share an encoding. */
  lemma PercentEncodeNotInjective(r: RefLike, s: RefLike)
    requires r.path == "x%231" && s.path == "x#1"
    ensures r != s && PercentEncode(r) == PercentEncode(s)
  {
    PercentEncodeHash(s);
    assert UrlSafe(r.path);
    EncodeSafeUnchanged(r.path);
  }
}
