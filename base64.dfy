/**
  Base64 with the standard alphabet of RFC 4648 (section 4, Table 1).

  `EncodeNoPad` is the `STANDARD_NO_PAD` engine of the `base64` crate: the
  final quantum is left short instead of being filled with `=` (RFC 4648,
  section 3.2 allows this when the length is known). `Encode` is the padded
  `STANDARD` engine, which cosmwasm's `Binary` uses for its text form.
  `Decode` is `Binary::from_base64`: standard alphabet, the padding either
  complete or absent, and the unused low bits of a short final quantum zero.
 */
module Base64 {
  import opened Wrappers
  import opened Bytes

  /** The 64 characters of the standard alphabet (RFC 4648, Table 1: `A`-`Z`,
      `a`-`z`, `0`-`9`, `+`, `/`). The pad character `=` is not among them. */
  predicate IsStandardChar(c: char) {
    ('A' <= c <= 'Z') || ('a' <= c <= 'z') || ('0' <= c <= '9') || c == '+' || c == '/'
  }

  predicate IsStandardText(s: string) {
    forall i | 0 <= i < |s| :: IsStandardChar(s[i])
  }

  /** The character that encodes a 6-bit value. */
  function SextetChar(v: nat): (c: char)
    requires v < 64
    ensures IsStandardChar(c)
  {
    if v < 26 then ('A' as int + v) as char
    else if v < 52 then ('a' as int + (v - 26)) as char
    else if v < 62 then ('0' as int + (v - 52)) as char
    else if v == 62 then '+'
    else '/'
  }

  /** The 6-bit value a character of the alphabet encodes. */
  function SextetValue(c: char): (v: nat)
    requires IsStandardChar(c)
    ensures v < 64
    ensures SextetChar(v) == c
  {
    if 'A' <= c <= 'Z' then c as int - 'A' as int
    else if 'a' <= c <= 'z' then c as int - 'a' as int + 26
    else if '0' <= c <= '9' then c as int - '0' as int + 52
    else if c == '+' then 62
    else 63
  }

  lemma SextetValueOfChar(v: nat)
    requires v < 64
    ensures SextetValue(SextetChar(v)) == v
  {
  }

  /** Length of the unpadded encoding of n bytes: four characters per whole
      group of three bytes, and one more than the leftover byte count. */
  function UnpaddedLength(n: nat): nat {
    4 * (n / 3) + (if n % 3 == 0 then 0 else n % 3 + 1)
  }

  /** Three bytes become four characters, most significant bits first. */
  function EncodeQuantum(b0: byte, b1: byte, b2: byte): (s: string)
    ensures |s| == 4 && IsStandardText(s)
  {
    var x0, x1, x2 := b0 as int, b1 as int, b2 as int;
    [SextetChar(x0 / 4), SextetChar(x0 % 4 * 16 + x1 / 16),
     SextetChar(x1 % 16 * 4 + x2 / 64), SextetChar(x2 % 64)]
  }

  /** The short final quantum: one or two bytes, low bits filled with zero. */
  function EncodeTail(b: seq<byte>): (s: string)
    requires 1 <= |b| <= 2
    ensures |s| == |b| + 1 && IsStandardText(s)
  {
    var x0 := b[0] as int;
    if |b| == 1 then
      [SextetChar(x0 / 4), SextetChar(x0 % 4 * 16)]
    else
      var x1 := b[1] as int;
      [SextetChar(x0 / 4), SextetChar(x0 % 4 * 16 + x1 / 16), SextetChar(x1 % 16 * 4)]
  }

  /** `STANDARD_NO_PAD.encode`. */
  function EncodeNoPad(b: seq<byte>): (s: string)
    ensures |s| == UnpaddedLength(|b|)
    ensures IsStandardText(s)
    decreases |b|
  {
    if |b| == 0 then []
    else if |b| < 3 then EncodeTail(b)
    else EncodeQuantum(b[0], b[1], b[2]) + EncodeNoPad(b[3..])
  }

  /** The `=` characters that complete the last quantum of n bytes. */
  function Padding(n: nat): string {
    if n % 3 == 1 then "==" else if n % 3 == 2 then "=" else ""
  }

  /** `STANDARD.encode`: the unpadded text, completed with `=` to a multiple of four. */
  function Encode(b: seq<byte>): (s: string)
    ensures |s| == 4 * ((|b| + 2) / 3)
    ensures |s| % 4 == 0
  {
    PaddedLength(|b|);
    EncodeNoPad(b) + Padding(|b|)
  }

  lemma PaddedLength(n: nat)
    ensures UnpaddedLength(n) + |Padding(n)| == 4 * ((n + 2) / 3)
  {
    var q, r := n / 3, n % 3;
    assert n == 3 * q + r;
    if r == 0 {
      assert (n + 2) / 3 == q;
    } else {
      assert (n + 2) / 3 == q + 1;
    }
  }

  /** Decodes four characters into three bytes. */
  function DecodeQuantum(s: string): (r: Option<seq<byte>>)
    requires |s| == 4
    ensures r.Some? <==> IsStandardText(s)
    ensures r.Some? ==> |r.value| == 3
  {
    if !IsStandardText(s) then None
    else
      var v0, v1, v2, v3 := SextetValue(s[0]), SextetValue(s[1]), SextetValue(s[2]), SextetValue(s[3]);
      Some([(v0 * 4 + v1 / 16) as byte, (v1 % 16 * 16 + v2 / 4) as byte, (v2 % 4 * 64 + v3) as byte])
  }

  /** Decodes a short final quantum of two or three characters. A single
      character carries less than a byte, and unused low bits must be zero. */
  function DecodeTail(s: string): (r: Option<seq<byte>>)
    requires 1 <= |s| <= 3
    ensures r.Some? ==> |s| >= 2 && |r.value| == |s| - 1 && IsStandardText(s)
  {
    if |s| == 1 || !IsStandardText(s) then None
    else
      var v0, v1 := SextetValue(s[0]), SextetValue(s[1]);
      if |s| == 2 then
        if v1 % 16 != 0 then None else Some([(v0 * 4 + v1 / 16) as byte])
      else
        var v2 := SextetValue(s[2]);
        if v2 % 4 != 0 then None else Some([(v0 * 4 + v1 / 16) as byte, (v1 % 16 * 16 + v2 / 4) as byte])
  }

  /** Decodes text without padding. */
  function DecodeUnpadded(s: string): (r: Option<seq<byte>>)
    ensures r.Some? ==> IsStandardText(s) && UnpaddedLength(|r.value|) == |s|
    decreases |s|
  {
    if |s| == 0 then Some([])
    else if |s| < 4 then DecodeTail(s)
    else
      var head, rest := DecodeQuantum(s[..4]), DecodeUnpadded(s[4..]);
      if head.None? || rest.None? then None
      else
        assert forall i | 4 <= i < |s| :: s[i] == s[4..][i - 4];
        Some(head.value + rest.value)
  }

  /** Number of trailing `=` characters, counting at most two. */
  function PaddingCount(s: string): (p: nat)
    ensures p <= 2 && p <= |s|
    ensures forall i | |s| - p <= i < |s| :: s[i] == '='
  {
    if |s| >= 1 && s[|s| - 1] == '=' then
      (if |s| >= 2 && s[|s| - 2] == '=' then 2 else 1)
    else 0
  }

  /** `Binary::from_base64`: accepts standard base64 with complete padding or none. */
  function Decode(s: string): (r: Option<seq<byte>>)
    ensures r.Some? ==> IsStandardText(s[..|s| - PaddingCount(s)])
    ensures r.Some? ==> UnpaddedLength(|r.value|) == |s| - PaddingCount(s)
    ensures r.Some? && PaddingCount(s) > 0 ==> |s| % 4 == 0
  {
    var p := PaddingCount(s);
    if p > 0 && |s| % 4 != 0 then None
    else DecodeUnpadded(s[..|s| - p])
  }

  // ---- Round trips ----

  /** Splitting `hi * k + lo` at the radix k of a sextet boundary. */
  lemma DivMod(hi: int, lo: int, k: int)
    requires k == 4 || k == 16 || k == 64
    requires 0 <= lo < k
    ensures (hi * k + lo) / k == hi && (hi * k + lo) % k == lo
  {
    if k == 4 {} else if k == 16 {} else {}
  }

  lemma DecodeQuantumOfEncode(b0: byte, b1: byte, b2: byte)
    ensures DecodeQuantum(EncodeQuantum(b0, b1, b2)) == Some([b0, b1, b2])
  {
    var x0, x1, x2 := b0 as int, b1 as int, b2 as int;
    var v0, v1, v2, v3 := x0 / 4, x0 % 4 * 16 + x1 / 16, x1 % 16 * 4 + x2 / 64, x2 % 64;
    SextetValueOfChar(v0);
    SextetValueOfChar(v1);
    SextetValueOfChar(v2);
    SextetValueOfChar(v3);
    DivMod(x0 % 4, x1 / 16, 16);
    DivMod(x1 % 16, x2 / 64, 4);
    var s := EncodeQuantum(b0, b1, b2);
    assert s == [SextetChar(v0), SextetChar(v1), SextetChar(v2), SextetChar(v3)];
    assert DecodeQuantum(s).value == [(v0 * 4 + v1 / 16) as byte, (v1 % 16 * 16 + v2 / 4) as byte, (v2 % 4 * 64 + v3) as byte];
  }

  lemma DecodeTailOfEncode(b: seq<byte>)
    requires 1 <= |b| <= 2
    ensures DecodeTail(EncodeTail(b)) == Some(b)
  {
    var x0 := b[0] as int;
    SextetValueOfChar(x0 / 4);
    if |b| == 1 {
      SextetValueOfChar(x0 % 4 * 16);
      DivMod(x0 % 4, 0, 16);
      assert b == [b[0]];
    } else {
      var x1 := b[1] as int;
      SextetValueOfChar(x0 % 4 * 16 + x1 / 16);
      SextetValueOfChar(x1 % 16 * 4);
      DivMod(x0 % 4, x1 / 16, 16);
      DivMod(x1 % 16, 0, 4);
      assert b == [b[0], b[1]];
    }
  }

  /** Every byte string survives unpadded encoding followed by decoding. */
  lemma {:induction false} DecodeUnpaddedOfEncode(b: seq<byte>)
    ensures DecodeUnpadded(EncodeNoPad(b)) == Some(b)
    decreases |b|
  {
    if |b| == 0 {
    } else if |b| < 3 {
      DecodeTailOfEncode(b);
    } else {
      var s := EncodeNoPad(b);
      DecodeQuantumOfEncode(b[0], b[1], b[2]);
      DecodeUnpaddedOfEncode(b[3..]);
      assert s[..4] == EncodeQuantum(b[0], b[1], b[2]);
      assert s[4..] == EncodeNoPad(b[3..]);
      assert b == [b[0], b[1], b[2]] + b[3..];
    }
  }

  lemma EncodeQuantumOfDecode(s: string)
    requires |s| == 4 && DecodeQuantum(s).Some?
    ensures var b := DecodeQuantum(s).value; EncodeQuantum(b[0], b[1], b[2]) == s
  {
    var v0, v1, v2, v3 := SextetValue(s[0]), SextetValue(s[1]), SextetValue(s[2]), SextetValue(s[3]);
    var x0, x1, x2 := v0 * 4 + v1 / 16, v1 % 16 * 16 + v2 / 4, v2 % 4 * 64 + v3;
    var b := DecodeQuantum(s).value;
    assert b[0] as int == x0 && b[1] as int == x1 && b[2] as int == x2;
    DivMod(v0, v1 / 16, 4);
    DivMod(v1 % 16, v2 / 4, 16);
    DivMod(v2 % 4, v3, 64);
    assert x0 / 4 == v0 && x0 % 4 * 16 + x1 / 16 == v1 && x1 % 16 * 4 + x2 / 64 == v2 && x2 % 64 == v3;
    assert EncodeQuantum(b[0], b[1], b[2]) == [SextetChar(v0), SextetChar(v1), SextetChar(v2), SextetChar(v3)];
  }

  lemma EncodeTailOfDecode(s: string)
    requires 1 <= |s| <= 3 && DecodeTail(s).Some?
    ensures EncodeTail(DecodeTail(s).value) == s
  {
    var b := DecodeTail(s).value;
    var v0, v1 := SextetValue(s[0]), SextetValue(s[1]);
    var x0 := v0 * 4 + v1 / 16;
    assert b[0] as int == x0;
    DivMod(v0, v1 / 16, 4);
    if |s| == 2 {
      assert x0 / 4 == v0 && x0 % 4 * 16 == v1;
      assert EncodeTail(b) == [SextetChar(v0), SextetChar(v1)];
    } else {
      var v2 := SextetValue(s[2]);
      var x1 := v1 % 16 * 16 + v2 / 4;
      assert b[1] as int == x1;
      DivMod(v1 % 16, v2 / 4, 16);
      assert x0 / 4 == v0 && x0 % 4 * 16 + x1 / 16 == v1 && x1 % 16 * 4 == v2;
      assert EncodeTail(b) == [SextetChar(v0), SextetChar(v1), SextetChar(v2)];
    }
  }

  /** Decoding accepts only canonical text: re-encoding what it returns gives back the input. */
  lemma {:induction false} EncodeOfDecodeUnpadded(s: string)
    requires DecodeUnpadded(s).Some?
    ensures EncodeNoPad(DecodeUnpadded(s).value) == s
    decreases |s|
  {
    if |s| == 0 {
    } else if |s| < 4 {
      EncodeTailOfDecode(s);
    } else {
      var head, rest := DecodeQuantum(s[..4]).value, DecodeUnpadded(s[4..]).value;
      var b := head + rest;
      assert DecodeUnpadded(s).value == b;
      EncodeQuantumOfDecode(s[..4]);
      EncodeOfDecodeUnpadded(s[4..]);
      assert b[3..] == rest;
      assert s == s[..4] + s[4..];
    }
  }

  /** The unpadded text produced by `STANDARD_NO_PAD` is accepted by
      `Binary::from_base64` and yields exactly the encoded bytes. */
  lemma DecodeOfEncodeNoPad(b: seq<byte>)
    ensures Decode(EncodeNoPad(b)) == Some(b)
  {
    var s := EncodeNoPad(b);
    PaddingCountOf(s, 0);
    assert s + Padding(0) == s;
    assert s[..|s|] == s;
    DecodeUnpaddedOfEncode(b);
    assert Decode(s) == DecodeUnpadded(s);
  }

  /** Standard text followed by its padding: `PaddingCount` finds exactly the padding. */
  lemma PaddingCountOf(body: string, n: nat)
    requires IsStandardText(body)
    ensures PaddingCount(body + Padding(n)) == |Padding(n)|
  {
    var s := body + Padding(n);
    if |body| > 0 {
      assert IsStandardChar(body[|body| - 1]);
    }
    if n % 3 == 1 {
      assert s[|s| - 1] == '=' && s[|s| - 2] == '=';
    } else if n % 3 == 2 {
      assert s[|s| - 1] == '=';
      if |body| > 0 {
        assert s[|s| - 2] == body[|body| - 1];
      }
    } else {
      assert s == body;
    }
  }

  /** The padded text of `STANDARD` decodes to exactly the encoded bytes. */
  lemma DecodeOfEncode(b: seq<byte>)
    ensures Decode(Encode(b)) == Some(b)
  {
    var body, pad := EncodeNoPad(b), Padding(|b|);
    var s := body + pad;
    assert s == Encode(b);
    PaddingCountOf(body, |b|);
    assert s[..|s| - |pad|] == body;
    DecodeUnpaddedOfEncode(b);
    assert Decode(s) == DecodeUnpadded(body);
  }

  /** Whatever `Decode` accepts is the padded or the unpadded encoding of its result. */
  lemma EncodeOfDecode(s: string)
    requires Decode(s).Some?
    ensures s == EncodeNoPad(Decode(s).value) || s == Encode(Decode(s).value)
  {
    var p := PaddingCount(s);
    var body := s[..|s| - p];
    assert Decode(s) == DecodeUnpadded(body);
    var b := Decode(s).value;
    EncodeOfDecodeUnpadded(body);
    assert EncodeNoPad(b) == body;
    if p == 0 {
      assert s == body;
    } else {
      assert |s| % 4 == 0 && |s| == |body| + p;
      assert |body| == UnpaddedLength(|b|);
      PaddingCompletes(|b|, p);
      if p == 1 {
        assert s[|s| - 1..] == "=";
      } else {
        assert s[|s| - 2..] == "==";
      }
      assert s == body + Padding(|b|);
    }
  }

  /** Padding text that completes the last quantum of an unpadded encoding is `Padding`. */
  lemma PaddingCompletes(n: nat, p: nat)
    requires 1 <= p <= 2 && (UnpaddedLength(n) + p) % 4 == 0
    ensures |Padding(n)| == p
  {
  }

  /** Exactly two texts decode to a given byte string: its unpadded and its
      padded encoding (the same text when the length is a multiple of three). */
  lemma DecodeExactly(s: string, b: seq<byte>)
    ensures Decode(s) == Some(b) <==> (s == EncodeNoPad(b) || s == Encode(b))
  {
    if Decode(s) == Some(b) {
      EncodeOfDecode(s);
    }
    if s == EncodeNoPad(b) {
      DecodeOfEncodeNoPad(b);
    }
    if s == Encode(b) {
      DecodeOfEncode(b);
    }
  }
}
