/** What the contract ABI codec writes and reads, as functions
    (libcodec/abi/ContractABICodec.h and .cpp). */
module AbiCodec {
  import opened Wrappers
  import opened Bytes
  import opened AbiTypes

  const WORD: nat := 32

  /** h256 of a number: one big-endian word. */
  function Word(n: int): (w: Bytes)
    ensures |w| == 32
  {
    BeBytes(n % TWO256, 32)
  }

  function Zeros(n: nat): (s: Bytes)
    ensures |s| == n
  {
    seq(n, _ => 0)
  }

  function RoundUp(n: nat): (r: nat)
    ensures n <= r < n + 32 && r % 32 == 0
  {
    (n + 31) / 32 * 32
  }

  // ---- Encoding ----

  function Serialise(t: AbiType, v: AbiValue): Bytes
    requires HasType(t, v)
    decreases v
  {
    match t
    case Uint => Word(v.i)
    case Int => Word(v.i)
    case Bool => Word(if v.b then 1 else 0)
    case Address => Zeros(12) + v.s
    case Bytes32 => v.s
    case DynBytes => Word(|v.s|) + v.s + Zeros(RoundUp(|v.s|) - |v.s|)
    case Str => Word(|v.s|) + v.s + Zeros(RoundUp(|v.s|) - |v.s|)
    case Fixed(e, n) => Body(Repeat(e, n), v.vs)
    case Vector(e) => Word(|v.vs|) + Body(Repeat(e, |v.vs|), v.vs)
    case Tuple(ts) => Body(ts, v.vs)
  }

  /** Members of an array or a tuple: a head that the code takes to be one word
      per member, then the dynamic contents. */
  function Body(ts: seq<AbiType>, vs: seq<AbiValue>): Bytes
    requires HaveTypes(ts, vs)
    decreases vs
  {
    Head(ts, vs, WORD * |ts|) + Tail(ts, vs)
  }

  /** Static members in place, dynamic ones as offsets counting from `start`. */
  function Head(ts: seq<AbiType>, vs: seq<AbiValue>, start: nat): Bytes
    requires HaveTypes(ts, vs)
    decreases vs, 0
  {
    if ts == [] then []
    else
      var out := Serialise(ts[0], vs[0]);
      if IsDynamic(ts[0]) then Word(start) + Head(ts[1..], vs[1..], start + |out|)
      else out + Head(ts[1..], vs[1..], start)
  }

  function Tail(ts: seq<AbiType>, vs: seq<AbiValue>): Bytes
    requires HaveTypes(ts, vs)
    decreases vs, 0
  {
    if ts == [] then []
    else
      (if IsDynamic(ts[0]) then Serialise(ts[0], vs[0]) else []) + Tail(ts[1..], vs[1..])
  }

  /** abiIn without a signature: here the head size is the summed Offset. */
  function AbiIn(ts: seq<AbiType>, vs: seq<AbiValue>): Bytes
    requires HaveTypes(ts, vs)
  {
    Head(ts, vs, WORD * SumWords(ts)) + Tail(ts, vs)
  }

  // ---- Decoding ----

  /** A std::size_t holds what is left modulo 2^64. */
  function Size(n: nat): (r: nat)
    ensures n < TWO64 ==> r == n
  {
    n % TWO64
  }

  /** getCroppedData: nothing at all when the range does not fit. */
  function Crop(data: Bytes, start: nat, count: nat): (r: Bytes)
    ensures |r| <= count
  {
    if start + count <= |data| then data[start..start + count] else []
  }

  /** A word at an offset; None stands for the exception of validOffset. */
  function ReadWord(data: Bytes, offset: nat): Option<nat> {
    if Size(offset + 31) >= |data| then None else Some(BeValue(Crop(data, offset, 32)))
  }

  /** The threshold is 0x8fff...f, not 0x7fff...f. */
  const THRESHOLD: int := TWO256 / 16 * 9 - 1

  function Signed(u: nat): int {
    if u > THRESHOLD then u - TWO256 else u
  }

  /** populate: what is missing becomes zero. */
  function FillTo(s: Bytes, n: nat): (r: Bytes)
    requires |s| <= n
    ensures |r| == n
  {
    s + Zeros(n - |s|)
  }

  function DecodeBlob(data: Bytes, offset: nat): Option<Bytes> {
    var len :- ReadWord(data, offset);
    if Size(offset + 31 + Size(len)) >= |data| then None
    else Some(Crop(data, Size(offset + 32), Size(len)))
  }

  function Decode(t: AbiType, data: Bytes, offset: nat): Option<AbiValue>
    decreases Depth(t)
  {
    match t
    case Uint =>
      var u :- ReadWord(data, offset);
      Some(Num(u))
    case Int =>
      var u :- ReadWord(data, offset);
      Some(Num(Signed(u)))
    case Bool =>
      var u :- ReadWord(data, offset);
      Some(Flag(u > 0))
    case Address =>
      var u :- ReadWord(data, offset);
      Some(Blob(FillTo(Crop(data, Size(offset + 12), 20), 20)))
    case Bytes32 =>
      var u :- ReadWord(data, offset);
      Some(Blob(FillTo(Crop(data, offset, 32), 32)))
    case DynBytes =>
      var s :- DecodeBlob(data, offset);
      Some(Blob(s))
    case Str =>
      var s :- DecodeBlob(data, offset);
      Some(Blob(s))
    case Fixed(e, n) =>
      RepeatDepth(e, n);
      var vs :- DecodeMembers(Repeat(e, n), data, offset, 0);
      Some(List(vs))
    case Vector(e) =>
      var len :- ReadWord(data, offset);
      RepeatDepth(e, Size(len));
      var vs :- DecodeMembers(Repeat(e, Size(len)), data, Size(offset + 32), 0);
      Some(List(vs))
    case Tuple(ts) =>
      var vs :- DecodeMembers(ts, data, offset, 0);
      Some(List(vs))
  }

  /** Members whose head starts at `offset`, from position `at` in the head on. */
  function DecodeMembers(ts: seq<AbiType>, data: Bytes, offset: nat, at: nat): Option<seq<AbiValue>>
    decreases MaxDepth(ts) + 1, |ts|
  {
    if ts == [] then Some([])
    else
      var head :- DecodeMember(ts[0], data, offset, at);
      var tail :- DecodeMembers(ts[1..], data, offset, at + WORD * Words(ts[0]));
      Some([head] + tail)
  }

  function DecodeMember(t: AbiType, data: Bytes, offset: nat, at: nat): Option<AbiValue>
    decreases Depth(t) + 1, 0
  {
    if IsDynamic(t) then
      var w :- ReadWord(data, Size(offset + at));
      Decode(t, data, Size(offset + Size(w)))
    else Decode(t, data, Size(offset + at))
  }

  /** abiOut: offsets count from the beginning of the data. */
  function AbiOut(ts: seq<AbiType>, data: Bytes): Option<seq<AbiValue>> {
    DecodeMembers(ts, data, 0, 0)
  }
}
