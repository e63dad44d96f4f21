/** The UTF-8 validator against the definition of UTF-8 in section 3 of RFC 3629. */
module Utf8 {
  import opened Bytes

  // ---- The definition ----

  /** A Unicode scalar value: a code point that is not a surrogate. */
  predicate IsScalar(cp: int) {
    0 <= cp <= 0x10FFFF && !(0xD800 <= cp <= 0xDFFF)
  }

  /** The one encoding of a scalar value. */
  function Encode(cp: int): (bs: seq<byte>)
    requires IsScalar(cp)
  {
    if cp <= 0x7F then [cp]
    else if cp <= 0x7FF then [0xC0 + cp / 64, 0x80 + cp % 64]
    else if cp <= 0xFFFF then [0xE0 + cp / 64 / 64, 0x80 + cp / 64 % 64, 0x80 + cp % 64]
    else [0xF0 + cp / 64 / 64 / 64, 0x80 + cp / 64 / 64 % 64, 0x80 + cp / 64 % 64, 0x80 + cp % 64]
  }

  ghost predicate AllScalar(cps: seq<int>) {
    forall cp | cp in cps :: IsScalar(cp)
  }

  ghost function EncodeAll(cps: seq<int>): seq<byte>
    requires AllScalar(cps)
  {
    if cps == [] then [] else Encode(cps[0]) + EncodeAll(cps[1..])
  }

  ghost predicate WellFormed(s: seq<byte>) {
    exists cps :: AllScalar(cps) && EncodeAll(cps) == s
  }

  // ---- The validator ----

  predicate IsUTF8TrailByte(t: byte) {
    0x80 <= t <= 0xBF
  }

  /** The length of the character the validator recognises at the front of `s`; 0 for none. */
  function CharLength(s: seq<byte>): (n: nat)
    requires s != []
    ensures n <= |s|
  {
    var lead := s[0];
    if lead <= 0x7F then 1
    else if lead < 0xC2 then 0
    else if lead <= 0xDF && |s| >= 2 && IsUTF8TrailByte(s[1]) then 2
    else if 0xE0 <= lead <= 0xEF && |s| >= 3 && IsUTF8TrailByte(s[1]) && IsUTF8TrailByte(s[2])
            && (lead != 0xE0 || s[1] >= 0xA0) && (lead != 0xED || s[1] < 0xA0) then 3
    else if 0xF0 <= lead <= 0xF4 && |s| >= 4 && IsUTF8TrailByte(s[1]) && IsUTF8TrailByte(s[2]) && IsUTF8TrailByte(s[3])
            && (lead != 0xF0 || s[1] >= 0x90) && (lead != 0xF4 || s[1] < 0x90) then 4
    else 0
  }

  function Decode(s: seq<byte>): int
    requires s != [] && CharLength(s) > 0
  {
    var n := CharLength(s);
    if n == 1 then s[0]
    else if n == 2 then Six(s[0] - 0xC0, s[1])
    else if n == 3 then Six(Six(s[0] - 0xE0, s[1]), s[2])
    else Six(Six(Six(s[0] - 0xF0, s[1]), s[2]), s[3])
  }

  /** Six more bits from a trail byte. */
  function Six(high: int, trail: byte): int {
    high * 64 + (trail - 0x80)
  }

  lemma SixSplits(high: int, trail: byte)
    requires IsUTF8TrailByte(trail)
    ensures Six(high, trail) / 64 == high && Six(high, trail) % 64 == trail - 0x80
  {
  }

  /** What the validator recognises is the encoding of a scalar value: no overlong form, no
      surrogate, nothing above U+10FFFF. */
  lemma RecognisedIsEncoded(s: seq<byte>)
    requires s != [] && CharLength(s) > 0
    ensures IsScalar(Decode(s)) && Encode(Decode(s)) == s[..CharLength(s)]
  {
    var n := CharLength(s);
    if n == 2 {
      SixSplits(s[0] - 0xC0, s[1]);
    } else if n == 3 {
      SixSplits(s[0] - 0xE0, s[1]);
      SixSplits(Six(s[0] - 0xE0, s[1]), s[2]);
    } else if n == 4 {
      SixSplits(s[0] - 0xF0, s[1]);
      SixSplits(Six(s[0] - 0xF0, s[1]), s[2]);
      SixSplits(Six(Six(s[0] - 0xF0, s[1]), s[2]), s[3]);
    }
  }

  /** Every encoding is recognised, at its full length and as itself, whatever follows it. */
  lemma EncodedIsRecognised(cp: int, rest: seq<byte>)
    requires IsScalar(cp)
    ensures Encode(cp) + rest != []
    ensures CharLength(Encode(cp) + rest) == |Encode(cp)|
    ensures Decode(Encode(cp) + rest) == cp
  {
    var s := Encode(cp) + rest;
    var q1 := cp / 64;
    var q2 := q1 / 64;
    assert cp == q1 * 64 + cp % 64 && q1 == q2 * 64 + q1 % 64;
    if cp > 0xFFFF {
      assert s[0] == 0xF0 + q2 / 64 && s[1] == 0x80 + q2 % 64 && s[2] == 0x80 + q1 % 64 && s[3] == 0x80 + cp % 64;
    } else if cp > 0x7FF {
      assert s[0] == 0xE0 + q2 && s[1] == 0x80 + q1 % 64 && s[2] == 0x80 + cp % 64;
    } else if cp > 0x7F {
      assert s[0] == 0xC0 + q1 && s[1] == 0x80 + cp % 64;
    } else {
      assert s[0] == cp;
    }
  }

  predicate Valid(s: seq<byte>)
    decreases |s|
  {
    s == [] || (CharLength(s) > 0 && Valid(s[CharLength(s)..]))
  }

  function DecodeAll(s: seq<byte>): seq<int>
    requires Valid(s)
    decreases |s|
  {
    if s == [] then [] else [Decode(s)] + DecodeAll(s[CharLength(s)..])
  }

  lemma EncodeAllCons(cp: int, cps: seq<int>)
    requires IsScalar(cp) && AllScalar(cps)
    ensures AllScalar([cp] + cps) && EncodeAll([cp] + cps) == Encode(cp) + EncodeAll(cps)
  {
  }

  lemma {:induction false} ValidDecodes(s: seq<byte>)
    requires Valid(s)
    ensures AllScalar(DecodeAll(s)) && EncodeAll(DecodeAll(s)) == s
    decreases |s|
  {
    if s != [] {
      var first, rest := FirstScalar(s);
      ValidDecodes(rest);
      EncodeAllCons(first, DecodeAll(rest));
    }
  }

  lemma FirstScalar(s: seq<byte>) returns (first: int, rest: seq<byte>)
    requires Valid(s) && s != []
    ensures IsScalar(first) && s == Encode(first) + rest
    ensures |rest| < |s| && Valid(rest) && DecodeAll(s) == [first] + DecodeAll(rest)
  {
    var n := CharLength(s);
    RecognisedIsEncoded(s);
    first, rest := Decode(s), s[n..];
    assert s == s[..n] + s[n..];
  }

  /** The decoding is unique: a text is recovered from its bytes. */
  lemma {:induction false} DecodeRoundTrip(cps: seq<int>)
    requires AllScalar(cps)
    ensures Valid(EncodeAll(cps)) && DecodeAll(EncodeAll(cps)) == cps
  {
    if cps != [] {
      var first, rest := Encode(cps[0]), EncodeAll(cps[1..]);
      DecodeRoundTrip(cps[1..]);
      EncodedIsRecognised(cps[0], rest);
      assert (first + rest)[|first|..] == rest;
    }
  }

  lemma ValidIsWellFormed(s: seq<byte>)
    ensures Valid(s) <==> WellFormed(s)
  {
    if Valid(s) {
      ValidDecodes(s);
    }
    if WellFormed(s) {
      var cps :| AllScalar(cps) && EncodeAll(cps) == s;
      DecodeRoundTrip(cps);
    }
  }

  /** Accepts exactly the concatenations of encoded scalar values; every index it reads is within
      the text. */
  method IsValidUTF8(s: seq<byte>) returns (valid: bool)
    ensures valid <==> WellFormed(s)
  {
    ValidIsWellFormed(s);
    var length := |s|;
    var i := 0;
    while i < length
      invariant 0 <= i <= length
      invariant Valid(s) <==> Valid(s[i..])
      decreases length - i
    {
      ghost var at := i;
      var lead := s[i];
      i := i + 1;
      if lead <= 0x7F {
        assert CharLength(s[at..]) == 1 && s[at..][1..] == s[i..];
        continue;
      }
      if lead < 0xC2 {
        return false;
      } else if lead <= 0xDF && i + 1 <= length && IsUTF8TrailByte(s[i]) {
        i := i + 1;
      } else if 0xE0 <= lead && lead <= 0xEF && i + 2 <= length
                && IsUTF8TrailByte(s[i]) && IsUTF8TrailByte(s[i + 1])
                && (lead != 0xE0 || s[i] >= 0xA0) && (lead != 0xED || s[i] < 0xA0) {
        i := i + 2;
      } else if 0xF0 <= lead && lead <= 0xF4 && i + 3 <= length
                && IsUTF8TrailByte(s[i]) && IsUTF8TrailByte(s[i + 1]) && IsUTF8TrailByte(s[i + 2])
                && (lead != 0xF0 || s[i] >= 0x90) && (lead != 0xF4 || s[i] < 0x90) {
        i := i + 3;
      } else {
        assert CharLength(s[at..]) == 0;
        return false;
      }
      assert CharLength(s[at..]) == i - at && s[at..][i - at..] == s[i..];
    }
    return true;
  }
}
