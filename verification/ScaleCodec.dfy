/** What the SCALE streams write and read, as functions
    (libcodec/scale/ScaleEncoderStream.h, ScaleDecoderStream.h,
    FixedWidthIntegerCodec.h). */
module ScaleCodec {
  import opened Wrappers
  import opened Bytes
  import CI = CompactInteger

  /** The C++ types the streams have overloads for. `Str` stands for
      std::string and for a vector of bytes, which share one encoding. */
  datatype ScaleType =
    | Integer(size: nat, signed: bool)
    | Boolean
    | Compact
    | U256
    | S256
    | FixedBytes(length: nat)
    | Str
    | Vector(elem: ScaleType)
    | Array(elem: ScaleType, count: nat)
    | Map(key: ScaleType, val: ScaleType)
    | Optional(elem: ScaleType)
    | Variant(alts: seq<ScaleType>)
    | Tuple(members: seq<ScaleType>)

  /** A map value lists its entries in key order, as std::map iterates them. */
  datatype ScaleValue =
    | Int(i: int)
    | Bool(b: bool)
    | Blob(s: Bytes)
    | Seq(vs: seq<ScaleValue>)
    | Assoc(entries: seq<Entry>)
    | Opt(o: Option<ScaleValue>)
    | Case(which: nat, inner: ScaleValue)

  datatype Entry = Entry(k: ScaleValue, v: ScaleValue)

  // ---- The order std::map keeps its keys in ----

  predicate Less(a: ScaleValue, b: ScaleValue) {
    Compare(a, b) < 0
  }

  /** Negative, zero or positive, as `a` comes before, with or after `b`. */
  function Compare(a: ScaleValue, b: ScaleValue): int {
    match (a, b)
    case (Int(x), Int(y)) => x - y
    case (Bool(x), Bool(y)) => if x == y then 0 else if y then -1 else 1
    case (Blob(x), Blob(y)) => CompareBytes(x, y)
    case (Seq(x), Seq(y)) => CompareSeq(x, y)
    case (Opt(x), Opt(y)) =>
      if x.None? then (if y.None? then 0 else -1)
      else if y.None? then 1
      else Compare(x.value, y.value)
    case (Case(i, x), Case(j, y)) => if i == j then Compare(x, y) else i - j
    case (Assoc(x), Assoc(y)) => CompareEntries(x, y)
    case _ => 0
  }

  function CompareBytes(x: Bytes, y: Bytes): int {
    if x == [] then (if y == [] then 0 else -1)
    else if y == [] then 1
    else if x[0] == y[0] then CompareBytes(x[1..], y[1..])
    else x[0] as int - y[0] as int
  }

  function CompareSeq(x: seq<ScaleValue>, y: seq<ScaleValue>): int {
    if x == [] then (if y == [] then 0 else -1)
    else if y == [] then 1
    else
      var c := Compare(x[0], y[0]);
      if c == 0 then CompareSeq(x[1..], y[1..]) else c
  }

  function CompareEntry(x: Entry, y: Entry): int {
    var c := Compare(x.k, y.k);
    if c == 0 then Compare(x.v, y.v) else c
  }

  function CompareEntries(x: seq<Entry>, y: seq<Entry>): int {
    if x == [] then (if y == [] then 0 else -1)
    else if y == [] then 1
    else
      var c := CompareEntry(x[0], y[0]);
      if c == 0 then CompareEntries(x[1..], y[1..]) else c
  }

  predicate Ordered(es: seq<Entry>) {
    forall i, j :: 0 <= i < j < |es| ==> Less(es[i].k, es[j].k)
  }

  // ---- Typing ----

  predicate IsWidth(size: nat) {
    size == 1 || size == 2 || size == 4 || size == 8
  }

  predicate InRange(size: nat, signed: bool, i: int) {
    if signed then 0 <= 2 * i + Pow256(size) && 2 * i < Pow256(size) else 0 <= i < Pow256(size)
  }

  /** The values of a C++ type. A variant is told apart by the type it holds,
      so by the first alternative of that type. */
  predicate HasType(t: ScaleType, v: ScaleValue)
    decreases t
  {
    match t
    case Integer(size, signed) => IsWidth(size) && v.Int? && InRange(size, signed, v.i)
    case Boolean => v.Bool?
    case Compact => v.Int?
    case U256 => v.Int? && 0 <= v.i < TWO256
    case S256 => v.Int? && -TWO256 <= 2 * v.i < TWO256
    case FixedBytes(n) => v.Blob? && |v.s| == n < TWO64
    case Str => v.Blob? && |v.s| < TWO64
    case Vector(e) => v.Seq? && |v.vs| < TWO64 && forall i :: 0 <= i < |v.vs| ==> HasType(e, v.vs[i])
    case Array(e, n) => v.Seq? && |v.vs| == n && forall i :: 0 <= i < |v.vs| ==> HasType(e, v.vs[i])
    case Map(k, e) =>
      v.Assoc? && |v.entries| < TWO64 && Ordered(v.entries) &&
      forall i :: 0 <= i < |v.entries| ==> HasType(k, v.entries[i].k) && HasType(e, v.entries[i].v)
    case Optional(e) => v.Opt? && (v.o.Some? ==> HasType(e, v.o.value))
    case Variant(alts) =>
      v.Case? && v.which < |alts| <= 255 && alts[v.which] !in alts[..v.which] &&
      HasType(alts[v.which], v.inner)
    case Tuple(ts) => v.Seq? && |v.vs| == |ts| && forall i :: 0 <= i < |ts| ==> HasType(ts[i], v.vs[i])
  }

  // ---- Fixed-width integers ----

  /** The two's complement bits of `i` as an unsigned number of `size` bytes. */
  function Unsigned(size: nat, i: int): (u: nat)
    requires InRange(size, true, i) || InRange(size, false, i)
    ensures u < Pow256(size)
  {
    if i < 0 then i + Pow256(size) else i
  }

  /** decodeInteger's last step: reinterpret `u` in the target type. */
  function Reinterpret(size: nat, signed: bool, u: nat): int
    requires u < Pow256(size)
  {
    if signed && 2 * u >= Pow256(size) then u - Pow256(size) else u
  }

  /** s2u and u2s, on 256-bit sign-and-magnitude numbers. */
  function S2u(x: int): nat
    requires -TWO256 < x < TWO256
  {
    if x >= 0 then x else TWO256 + x
  }

  function U2s(u: nat): int
    requires u < TWO256
  {
    if 2 * u >= TWO256 then -(TWO256 - u) else u
  }

  /** The pair is an identity exactly on the two's complement range. */
  lemma S256IdentityIff(x: int)
    requires -TWO256 < x < TWO256
    ensures U2s(S2u(x)) == x <==> -TWO256 <= 2 * x < TWO256
  {
  }

  // ---- Encoding ----

  /** The bytes `<<` appends, or None when the encoder throws. */
  function Encode(t: ScaleType, v: ScaleValue): Option<Bytes>
    requires HasType(t, v)
    decreases t
  {
    match t
    case Integer(size, signed) => Some(LeBytes(Unsigned(size, v.i), size))
    case Boolean => Some([if v.b then 1 else 0])
    case Compact => CI.EncodeCompact(v.i)
    case U256 => Some(BeBytes(v.i, 32))
    case S256 => Some(BeBytes(S2u(v.i), 32))
    case FixedBytes(n) => EncodeBlob(v.s)
    case Str => EncodeBlob(v.s)
    case Vector(e) =>
      var size :- CI.EncodeCompact(|v.vs|);
      var body :- EncodeEach(t, v.vs);
      Some(size + body)
    case Array(e, n) => EncodeEach(t, v.vs)
    case Map(_, _) =>
      var size :- CI.EncodeCompact(|v.entries|);
      var body :- EncodeEntries(t, v.entries);
      Some(size + body)
    case Optional(e) =>
      if e == Boolean then
        Some([if v.o.None? then 0 else if v.o.value.b then 1 else 2])
      else if v.o.None? then Some([0])
      else
        var body :- Encode(e, v.o.value);
        Some([1] + body)
    case Variant(alts) =>
      var body :- Encode(alts[v.which], v.inner);
      Some([v.which] + body)
    case Tuple(ts) => EncodeMembers(ts, v.vs)
  }

  function EncodeBlob(s: Bytes): Option<Bytes> {
    var size :- CI.EncodeCompact(|s|);
    Some(size + s)
  }

  function EncodeEach(t: ScaleType, vs: seq<ScaleValue>): Option<Bytes>
    requires t.Vector? || t.Array?
    requires forall i :: 0 <= i < |vs| ==> HasType(t.elem, vs[i])
    decreases t, |vs|
  {
    if vs == [] then Some([])
    else
      var head :- Encode(t.elem, vs[0]);
      var tail :- EncodeEach(t, vs[1..]);
      Some(head + tail)
  }

  function EncodeEntries(t: ScaleType, es: seq<Entry>): Option<Bytes>
    requires t.Map?
    requires forall i :: 0 <= i < |es| ==> HasType(t.key, es[i].k) && HasType(t.val, es[i].v)
    decreases t, |es|
  {
    if es == [] then Some([])
    else
      var k :- Encode(t.key, es[0].k);
      var v :- Encode(t.val, es[0].v);
      var tail :- EncodeEntries(t, es[1..]);
      Some(k + v + tail)
  }

  function EncodeMembers(ts: seq<ScaleType>, vs: seq<ScaleValue>): Option<Bytes>
    requires |ts| == |vs|
    requires forall i :: 0 <= i < |ts| ==> HasType(ts[i], vs[i])
    decreases ts
  {
    if ts == [] then Some([])
    else
      var head :- Encode(ts[0], vs[0]);
      var tail :- EncodeMembers(ts[1..], vs[1..]);
      Some(head + tail)
  }

  // ---- Decoding ----

  /** Element types of one byte: a vector of these is decoded by copying bytes. */
  predicate OneByte(t: ScaleType) {
    match t
    case Integer(size, _) => size == 1
    case Boolean => true
    case FixedBytes(n) => n == 1
    case Tuple(ts) => |ts| == 1 && OneByte(ts[0])
    case _ => false
  }

  /** What a byte converts to; for a boolean, whether it is not zero. */
  function FromByte(t: ScaleType, b: Byte): ScaleValue
    requires OneByte(t)
  {
    match t
    case Integer(_, signed) => BytePow(); Int(Reinterpret(1, signed, b))
    case Boolean => Bool(b != 0)
    case FixedBytes(_) => Blob([b])
    case Tuple(ts) => Seq([FromByte(ts[0], b)])
  }

  lemma BytePow()
    ensures Pow256(1) == 256
  {
  }

  function FromBytes(t: ScaleType, s: Bytes): (vs: seq<ScaleValue>)
    requires OneByte(t)
    ensures |vs| == |s|
  {
    seq(|s|, i requires 0 <= i < |s| => FromByte(t, s[i]))
  }

  /** The value `>>` reads and what is left of the stream, or None when the
      decoder throws or runs past the end. */
  function Decode(t: ScaleType, s: Bytes): Option<(ScaleValue, Bytes)>
    decreases t
  {
    match t
    case Integer(size, signed) =>
      if |s| < size then None
      else
        LeValueBound(s[..size]);
        Some((Int(Reinterpret(size, signed, LeValue(s[..size]))), s[size..]))
    case Boolean =>
      if s == [] || s[0] > 1 then None else Some((Bool(s[0] == 1), s[1..]))
    case Compact =>
      var r :- CI.DecodeCompact(s);
      Some((Int(r.0), r.1))
    case U256 =>
      if |s| < 32 then None else Some((Int(BeValue(s[..32])), s[32..]))
    case S256 =>
      if |s| < 32 then None
      else
        WordBound(s[..32]);
        Some((Int(U2s(BeValue(s[..32]))), s[32..]))
    case FixedBytes(n) =>
      var r :- DecodeBlob(s);
      if |r.0| < n then None else Some((Blob(r.0[..n]), r.1))
    case Str =>
      var r :- DecodeBlob(s);
      Some((Blob(r.0), r.1))
    case Vector(e) =>
      var r :- CI.DecodeCompact(s);
      var n := r.0 % TWO64;
      if OneByte(e) then
        if |r.1| < n then None else Some((Seq(FromBytes(e, r.1[..n])), r.1[n..]))
      else
        var body :- DecodeEach(t, n, r.1);
        Some((Seq(body.0), body.1))
    case Array(e, n) =>
      var body :- DecodeEach(t, n, s);
      Some((Seq(body.0), body.1))
    case Map(_, _) =>
      var r :- CI.DecodeCompact(s);
      var body :- DecodeEntries(t, r.0 % TWO64, r.1, []);
      Some((Assoc(body.0), body.1))
    case Optional(e) =>
      if e == Boolean then
        if s == [] || s[0] > 2 then None
        else Some((Opt(if s[0] == 0 then None else Some(Bool(s[0] == 1))), s[1..]))
      else if s == [] || s[0] > 1 then None
      else if s[0] == 0 then Some((Opt(None), s[1..]))
      else
        var r :- Decode(e, s[1..]);
        Some((Opt(Some(r.0)), r.1))
    case Variant(alts) =>
      if s == [] || s[0] >= |alts| then None
      else
        var r :- Decode(alts[s[0]], s[1..]);
        Some((Case(s[0], r.0), r.1))
    case Tuple(ts) =>
      var body :- DecodeMembers(ts, s);
      Some((Seq(body.0), body.1))
  }

  lemma WordBound(s: Bytes)
    requires |s| == 32
    ensures BeValue(s) < TWO256
  {
    BeValueBound(s);
    Pow256Wide();
  }

  function DecodeBlob(s: Bytes): Option<(Bytes, Bytes)> {
    var r :- CI.DecodeCompact(s);
    var n := r.0 % TWO64;
    if |r.1| < n then None else Some((r.1[..n], r.1[n..]))
  }

  function DecodeEach(t: ScaleType, n: nat, s: Bytes): Option<(seq<ScaleValue>, Bytes)>
    requires t.Vector? || t.Array?
    decreases t, n
  {
    if n == 0 then Some(([], s))
    else
      var head :- Decode(t.elem, s);
      var tail :- DecodeEach(t, n - 1, head.1);
      Some(([head.0] + tail.0, tail.1))
  }

  /** std::map::emplace: an entry whose key is already there is dropped. */
  function Emplace(es: seq<Entry>, e: Entry): seq<Entry> {
    if es == [] then [e]
    else if Less(es[0].k, e.k) then [es[0]] + Emplace(es[1..], e)
    else if Less(e.k, es[0].k) then [e] + es
    else es
  }

  function DecodeEntries(t: ScaleType, n: nat, s: Bytes, acc: seq<Entry>): Option<(seq<Entry>, Bytes)>
    requires t.Map?
    decreases t, n
  {
    if n == 0 then Some((acc, s))
    else
      var k :- Decode(t.key, s);
      var v :- Decode(t.val, k.1);
      DecodeEntries(t, n - 1, v.1, Emplace(acc, Entry(k.0, v.0)))
  }

  function DecodeMembers(ts: seq<ScaleType>, s: Bytes): Option<(seq<ScaleValue>, Bytes)>
    decreases ts
  {
    if ts == [] then Some(([], s))
    else
      var head :- Decode(ts[0], s);
      var tail :- DecodeMembers(ts[1..], head.1);
      Some(([head.0] + tail.0, tail.1))
  }
}
