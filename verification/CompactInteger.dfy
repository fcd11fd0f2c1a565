/** The four modes of compact integers (libcodec/scale/ScaleEncoderStream.cpp,
    ScaleDecoderStream.cpp and Common.h), after "Length and Compact Encoding"
    in the SCALE codec of the Polkadot Protocol Specification. */
module CompactInteger {
  import opened Wrappers
  import opened Bytes

  const MIN_UINT16: nat := 64
  const MIN_UINT32: nat := 16384
  const MIN_BIG_INTEGER: nat := 0x4000_0000
  const MAX_BIG_BYTES: nat := 67

  /** How many bytes `v` needs; zero needs one. */
  function ByteCount(v: nat): (n: nat)
    ensures n >= 1
  {
    if v < 256 then 1 else 1 + ByteCount(v / 256)
  }

  lemma {:induction false} ByteCountBounds(v: nat)
    ensures v < Pow256(ByteCount(v))
    ensures v >= 256 ==> Pow256(ByteCount(v) - 1) <= v
  {
    if v >= 256 {
      ByteCountBounds(v / 256);
      if v / 256 < 256 {
        assert ByteCount(v) == 2;
      }
    }
  }

  /** A number fits `n` bytes exactly when its byte count is at most `n`. */
  lemma FitsIff(v: nat, n: nat)
    requires n >= 1
    ensures v < Pow256(n) <==> ByteCount(v) <= n
  {
    ByteCountBounds(v);
    if ByteCount(v) <= n {
      Pow256Mono(ByteCount(v), n);
    } else if v >= 256 {
      Pow256Mono(n, ByteCount(v) - 1);
    }
  }

  lemma BigNeedsFour(v: nat)
    requires v >= MIN_BIG_INTEGER
    ensures ByteCount(v) >= 4
  {
    FitsIff(v, 3);
    Pow256Small();
  }

  /** encodeCompactInteger; None stands for the two exceptions it throws. */
  function EncodeCompact(v: int): Option<Bytes> {
    if v < 0 then None
    else if v < MIN_UINT16 then Some([v * 4])
    else if v < MIN_UINT32 then
      var w := v * 4 + 1;
      Some([w % 256, w / 256])
    else if v < MIN_BIG_INTEGER then Some(LeBytes(v * 4 + 2, 4))
    else
      var n := ByteCount(v);
      if n > MAX_BIG_BYTES then None
      else
        BigNeedsFour(v);
        Some([(n - 4) * 4 + 3] + LeBytes(v, n))
  }

  /** decodeCompactInteger: the value and what is left of the stream; None
      when the stream is too short. */
  function DecodeCompact(s: Bytes): Option<(nat, Bytes)> {
    if s == [] then None
    else
      var first: int := s[0];
      match first % 4
      case 0 => Some((first / 4, s[1..]))
      case 1 =>
        if |s| < 2 then None
        else
          var second: int := s[1];
          Some(((first - first % 4 + second * 256) / 4, s[2..]))
      case 2 =>
        if |s| < 4 then None
        else Some((LeValue(s[..4]) / 4, s[4..]))
      case _ =>
        var n := first / 4 + 4;
        if |s| < 1 + n then None
        else Some((LeValue(s[1..1 + n]), s[1 + n..]))
  }

  /** The encoder throws exactly outside 0 <= v < 2^536. */
  lemma EncodableIff(v: int)
    ensures EncodeCompact(v).Some? <==> 0 <= v < Pow256(MAX_BIG_BYTES)
  {
    if v >= 0 {
      FitsIff(v, MAX_BIG_BYTES);
      if v < MIN_BIG_INTEGER {
        Pow256Small();
        FitsIff(v, 4);
      }
    }
  }

  /** Decoding an encoded integer gives it back and stops at what follows. */
  lemma RoundTrip(v: int, rest: Bytes)
    requires EncodeCompact(v).Some?
    ensures v >= 0
    ensures DecodeCompact(EncodeCompact(v).value + rest) == Some((v, rest))
  {
    var e := EncodeCompact(v).value;
    assert (e + rest)[|e|..] == rest;
    if MIN_UINT32 <= v < MIN_BIG_INTEGER {
      RoundTripFour(v, rest);
    } else if v >= MIN_BIG_INTEGER {
      BigNeedsFour(v);
      RoundTripBig(v, rest);
    }
  }

  lemma RoundTripFour(v: nat, rest: Bytes)
    requires v < MIN_BIG_INTEGER
    ensures DecodeCompact(LeBytes(v * 4 + 2, 4) + rest) == Some((v, rest))
  {
    var w := v * 4 + 2;
    var e := LeBytes(w, 4);
    assert w < Pow256(4) by { Pow256Small(); }
    LeValueOfBytes(w, 4);
    var s := e + rest;
    assert s[..4] == e && s[4..] == rest;
    assert s[0] == w % 256;
    assert w % 256 % 4 == 2;
  }

  lemma RoundTripBig(v: nat, rest: Bytes)
    requires 4 <= ByteCount(v) <= MAX_BIG_BYTES
    ensures var n := ByteCount(v);
            DecodeCompact([(n - 4) * 4 + 3] + LeBytes(v, n) + rest) == Some((v, rest))
  {
    var n := ByteCount(v);
    var e := LeBytes(v, n);
    ByteCountBounds(v);
    LeValueOfBytes(v, n);
    var s := [(n - 4) * 4 + 3] + e + rest;
    assert s[1..1 + n] == e && s[1 + n..] == rest;
  }

  /** What a string that the decoder consumes whole looks like. */
  lemma FullDecode(s: Bytes, v: nat)
    requires DecodeCompact(s) == Some((v, []))
    ensures |s| == 1 ==> v < MIN_UINT16 && s == [v * 4]
    ensures |s| == 2 ==> v < MIN_UINT32 && s == [(v * 4 + 1) % 256, (v * 4 + 1) / 256]
    ensures |s| == 4 ==> v < MIN_BIG_INTEGER && s == LeBytes(v * 4 + 2, 4)
    ensures |s| != 1 && |s| != 2 && |s| != 4 ==>
              5 <= |s| <= 1 + MAX_BIG_BYTES && s[0] == (|s| - 5) * 4 + 3 &&
              v < Pow256(|s| - 1) && s[1..] == LeBytes(v, |s| - 1)
  {
    var first: int := s[0];
    match first % 4
    case 0 => assert |s| == 1;
    case 1 =>
      assert |s| == 2;
      FullDecodeTwo(s, v);
    case 2 =>
      assert |s| == 4 && s[..4] == s;
      FullDecodeFour(s, v);
    case _ =>
      FullDecodeBig(s, v);
  }

  lemma FullDecodeBig(s: Bytes, v: nat)
    requires s != [] && s[0] % 4 == 3 && DecodeCompact(s) == Some((v, []))
    ensures 5 <= |s| <= 1 + MAX_BIG_BYTES && s[0] == (|s| - 5) * 4 + 3
    ensures v < Pow256(|s| - 1) && s[1..] == LeBytes(v, |s| - 1)
  {
    hide Pow256, LeBytes, LeValue, DecodeCompact;
    FullDecodeLength(s, v);
    LeBytesOfValue(s[1..]);
    LeValueBound(s[1..]);
  }

  lemma FullDecodeLength(s: Bytes, v: nat)
    requires s != [] && s[0] % 4 == 3 && DecodeCompact(s) == Some((v, []))
    ensures 5 <= |s| <= 1 + MAX_BIG_BYTES && s[0] == (|s| - 5) * 4 + 3 && v == LeValue(s[1..])
  {
    hide LeValue;
    var first: int := s[0];
    var n := first / 4 + 4;
    assert s[1 + n..] == [];
    assert s[1..1 + n] == s[1..];
  }

  lemma FullDecodeTwo(s: Bytes, v: nat)
    requires |s| == 2 && s[0] % 4 == 1
    requires var first: int, second: int := s[0], s[1]; v == (first - 1 + second * 256) / 4
    ensures v < MIN_UINT32 && s == [(v * 4 + 1) % 256, (v * 4 + 1) / 256]
  {
  }

  lemma FullDecodeFour(s: Bytes, v: nat)
    requires |s| == 4 && s[0] % 4 == 2 && v == LeValue(s) / 4
    ensures v < MIN_BIG_INTEGER && s == LeBytes(v * 4 + 2, 4)
  {
    LeValueBound(s);
    Pow256Small();
    LeBytesOfValue(s);
    assert LeValue(s) == s[0] + 256 * LeValue(s[1..]);
    assert LeValue(s) == v * 4 + 2;
  }

  /** The encoder's output is the one shortest string that the decoder
      consumes whole and maps to `v`. */
  lemma UniqueShortest(v: nat, s: Bytes)
    requires DecodeCompact(s) == Some((v, []))
    ensures EncodeCompact(v).Some?
    ensures |EncodeCompact(v).value| <= |s|
    ensures |EncodeCompact(v).value| == |s| ==> EncodeCompact(v).value == s
  {
    hide DecodeCompact, Pow256, LeBytes, ByteCount;
    FullDecode(s, v);
    if |s| >= 5 {
      UniqueBig(v, s);
    }
  }

  lemma UniqueBig(v: nat, s: Bytes)
    requires 5 <= |s| <= 1 + MAX_BIG_BYTES && s[0] == (|s| - 5) * 4 + 3
    requires v < Pow256(|s| - 1) && s[1..] == LeBytes(v, |s| - 1)
    ensures EncodeCompact(v).Some? && |EncodeCompact(v).value| <= |s|
    ensures |EncodeCompact(v).value| == |s| ==> EncodeCompact(v).value == s
  {
    hide Pow256, LeBytes, ByteCount;
    if v >= MIN_BIG_INTEGER {
      BigNeedsFour(v);
      FitsIff(v, |s| - 1);
      assert s == [s[0]] + s[1..];
    }
  }

  // ---- Which of the accepted forms the encoder writes ----

  /** The mode is the smallest that can hold the value, and the multi-byte mode
      has no zero byte on top. */
  predicate Shortest(s: Bytes)
    requires DecodeCompact(s).Some?
  {
    var v := DecodeCompact(s).value.0;
    var first: int := s[0];
    match first % 4
    case 0 => true
    case 1 => v >= MIN_UINT16
    case 2 => v >= MIN_UINT32
    case _ => v >= MIN_BIG_INTEGER && s[first / 4 + 4] != 0
  }

  /** Encoding a decoded number again gives the bytes it was read from exactly
      if they were the shortest form. */
  lemma ShortestIff(s: Bytes)
    requires DecodeCompact(s).Some?
    ensures var (v, rest) := DecodeCompact(s).value;
            EncodeCompact(v).Some? && (EncodeCompact(v).value + rest == s <==> Shortest(s))
  {
    hide Pow256, LeBytes, ByteCount;
    var (v, rest) := DecodeCompact(s).value;
    var e := Consumed(s);
    UniqueShortest(v, e);
    var f := EncodeCompact(v).value;
    assert f + rest == s <==> |f| == |e| by {
      if f + rest == s {
        assert |f| + |rest| == |e| + |rest|;
      }
    }
    SameLengthIff(s, e, v);
  }

  /** The decoder looks at the bytes it consumes only. */
  lemma Consumed(s: Bytes) returns (e: Bytes)
    requires DecodeCompact(s).Some?
    ensures var (v, rest) := DecodeCompact(s).value;
            && e != [] && s == e + rest && DecodeCompact(e) == Some((v, [])) && s[0] == e[0]
            && (Shortest(e) <==> Shortest(s))
  {
    hide LeValue;
    var (v, rest) := DecodeCompact(s).value;
    var n := |s| - |rest|;
    e := s[..n];
    assert e[n..] == [] && s == e + rest;
    var first: int := s[0];
    if first % 4 == 2 {
      assert e[..4] == s[..4];
    } else if first % 4 == 3 {
      assert e[1..n] == s[1..n];
    }
  }

  lemma SameLengthIff(s: Bytes, e: Bytes, v: nat)
    requires e != [] && DecodeCompact(e) == Some((v, [])) && EncodeCompact(v).Some?
    requires DecodeCompact(s).Some? && (Shortest(e) <==> Shortest(s))
    ensures |EncodeCompact(v).value| == |e| <==> Shortest(s)
  {
    hide Pow256, LeBytes, LeValue, ByteCount;
    FullDecode(e, v);
    var first: int := e[0];
    if first % 4 == 3 {
      FullDecodeLength(e, v);
      TopByte(e, v);
    }
  }

  lemma TopByte(e: Bytes, v: nat)
    requires |e| >= 5 && v == LeValue(e[1..])
    ensures v >= MIN_BIG_INTEGER ==> (ByteCount(v) == |e| - 1 <==> e[|e| - 1] != 0)
  {
    hide Pow256, LeValue, ByteCount;
    var x := e[1..];
    var n := |x|;
    LeValueBound(x);
    FitsIff(v, n);
    FitsIff(v, n - 1);
    var low, top: int := x[..n - 1], x[n - 1];
    LeValueBound(low);
    assert x == low + [x[n - 1]];
    LeValueAppend(low, x[n - 1]);
    TopDigit(LeValue(low), Pow256(n - 1), top);
  }

  lemma TopDigit(low: nat, p: nat, top: nat)
    requires low < p
    ensures low + p * top >= p <==> top != 0
  {
    if top >= 1 {
      assert p * top == p + p * (top - 1);
    }
  }

  /** countBytes: a do-while loop that shifts the value out. */
  method CountBytes(value: nat) returns (counter: nat)
    ensures counter == ByteCount(value)
  {
    counter := 1;
    var v: nat := value / 256;
    while v != 0
      invariant counter >= 1
      invariant ByteCount(value) == if v == 0 then counter else counter + ByteCount(v)
      decreases v
    {
      counter := counter + 1;
      v := v / 256;
    }
  }
}
