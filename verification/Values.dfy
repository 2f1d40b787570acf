/** Go values: what the encoder is given and what the decoder returns. */
module Values {
  import opened Bytes
  import opened Signature

  type Int16 = x: int | -0x8000 <= x < 0x8000
  type Int32 = x: int | -0x8000_0000 <= x < 0x8000_0000
  type Int64 = x: int | -0x8000_0000_0000_0000 <= x < 0x8000_0000_0000_0000
  type Uint16 = x: int | 0 <= x < TWO_TO_THE_16
  type Uint32 = x: int | 0 <= x < TWO_TO_THE_32
  type Uint64 = x: int | 0 <= x < TWO_TO_THE_64

  /** Scalars and strings. A float64 is its 64-bit pattern. */
  datatype Scalar =
    | VUint8(u8: Byte) | VBool(flag: bool)
    | VInt16(i16: Int16) | VUint16(u16: Uint16)
    | VInt32(i32: Int32) | VUint32(u32: Uint32)
    | VInt64(i64: Int64) | VUint64(u64: Uint64)
    | VFloat64(bits: Uint64)
    | VString(s: Str)

  /** The slice shapes toAnySlice accepts; a struct accepts []any only. */
  datatype SliceKind = AnySlice | StringSlice | ByteSlice

  /** A value handed to the encoder. A map is listed in the order in which the
      encoder's range loop happens to visit it; Opaque is any other Go type. */
  datatype Arg =
    | Prim(p: Scalar)
    | Slice(kind: SliceKind, items: seq<Arg>)
    | Dict(entries: seq<Entry>)
    | Variant(sig: Str, inner: Arg)
    | Opaque
  datatype Entry = Entry(key: Str, val: Arg)

  /** A decoded value. */
  datatype Value =
    | Leaf(p: Scalar)
    | List(items: seq<Value>)
    | Map(m: map<Str, Value>)
    | Boxed(sig: Str, inner: Value)
    | Unknown

  /** The Go value that `x` enumerates, forgetting slice shapes and map order. */
  function Abs(x: Arg): Value {
    match x
    case Prim(p) => Leaf(p)
    case Slice(_, items) => List(AbsAll(items))
    case Dict(entries) => Map(AbsEntries(map[], entries))
    case Variant(sig, inner) => Boxed(sig, Abs(inner))
    case Opaque => Unknown
  }

  function AbsAll(items: seq<Arg>): (r: seq<Value>)
    ensures |r| == |items|
    ensures forall i :: 0 <= i < |items| ==> r[i] == Abs(items[i])
  {
    if items == [] then [] else [Abs(items[0])] + AbsAll(items[1..])
  }

  /** Assigning the entries to `m` in order. */
  function AbsEntries(m: map<Str, Value>, entries: seq<Entry>): map<Str, Value>
    decreases entries
  {
    if entries == [] then m
    else AbsEntries(m[entries[0].key := Abs(entries[0].val)], entries[1..])
  }

  function Keys(entries: seq<Entry>): set<Str> {
    set e | e in entries :: e.key
  }

  predicate DistinctKeys(entries: seq<Entry>) {
    forall i, j :: 0 <= i < j < |entries| ==> entries[i].key != entries[j].key
  }

  /** A value of the shapes the decoder itself builds: []any slices and real maps. */
  predicate Plain(x: Arg) {
    match x
    case Prim(_) => true
    case Slice(kind, items) => kind == AnySlice && forall i :: 0 <= i < |items| ==> Plain(items[i])
    case Dict(entries) => DistinctKeys(entries) && forall i :: 0 <= i < |entries| ==> Plain(entries[i].val)
    case Variant(_, inner) => Plain(inner)
    case Opaque => true
  }

  /** Maps have distinct keys, at every depth, as Go's have. */
  predicate RealMaps(x: Arg) {
    match x
    case Slice(_, items) => forall i :: 0 <= i < |items| ==> RealMaps(items[i])
    case Dict(entries) => DistinctKeys(entries) && forall i :: 0 <= i < |entries| ==> RealMaps(entries[i].val)
    case Variant(_, inner) => RealMaps(inner)
    case _ => true
  }

  lemma {:induction false} PlainIsReal(x: Arg)
    requires Plain(x)
    ensures RealMaps(x)
  {
    match x
    case Slice(_, items) =>
      forall i | 0 <= i < |items|
        ensures RealMaps(items[i])
      {
        PlainIsReal(items[i]);
      }
    case Dict(entries) =>
      forall i | 0 <= i < |entries|
        ensures RealMaps(entries[i].val)
      {
        PlainIsReal(entries[i].val);
      }
    case Variant(_, inner) => PlainIsReal(inner);
    case _ =>
  }

  /** What assigning entries with distinct keys to a map amounts to, in whatever order. */
  lemma {:induction false} EntriesAssigned(m: map<Str, Value>, entries: seq<Entry>)
    requires DistinctKeys(entries)
    ensures var r := AbsEntries(m, entries);
      && r.Keys == m.Keys + Keys(entries)
      && (forall e :: e in entries ==> r[e.key] == Abs(e.val))
      && (forall k :: k in m && k !in Keys(entries) ==> r[k] == m[k])
    decreases entries
  {
    if entries != [] {
      var e, rest := entries[0], entries[1..];
      EntriesAssigned(m[e.key := Abs(e.val)], rest);
      assert entries == [e] + rest;
      assert e.key !in Keys(rest);
    }
  }

  predicate HasType(b: Basic, p: Scalar) {
    match b
    case Y => p.VUint8? case B => p.VBool? case N => p.VInt16? case Q => p.VUint16?
    case I => p.VInt32? case U => p.VUint32? case X => p.VInt64? case T => p.VUint64?
    case D => p.VFloat64? case S => p.VString? case O => p.VString? case G => p.VString?
  }

  /** The word written for a scalar; a string's word is its length. */
  function Word(p: Scalar): nat {
    match p
    case VUint8(v) => v
    case VBool(v) => if v then 1 else 0
    case VInt16(v) => v % TWO_TO_THE_16
    case VUint16(v) => v
    case VInt32(v) => v % TWO_TO_THE_32
    case VUint32(v) => v
    case VInt64(v) => v % TWO_TO_THE_64
    case VUint64(v) => v
    case VFloat64(v) => v
    case VString(s) => |s|
  }

  /** The scalar read from a word; the signed conversions reinterpret the top bit. */
  function FromWord(b: Basic, u: nat): (p: Scalar)
    requires u < Limit(WidthOf(b)) && !IsText(b)
    ensures HasType(b, p)
  {
    LimitValues();
    match b
    case Y => VUint8(u)
    case B => VBool(u != 0)
    case N => VInt16(if u < 0x8000 then u else u - TWO_TO_THE_16)
    case Q => VUint16(u)
    case I => VInt32(if u < 0x8000_0000 then u else u - TWO_TO_THE_32)
    case U => VUint32(u)
    case X => VInt64(if u < 0x8000_0000_0000_0000 then u else u - TWO_TO_THE_64)
    case T => VUint64(u)
    case D => VFloat64(u)
  }

  /** Every scalar except a string fits its word and is recovered from it. */
  lemma {:induction false} WordInverse(b: Basic, p: Scalar)
    requires HasType(b, p) && !IsText(b)
    ensures Word(p) < Limit(WidthOf(b)) && FromWord(b, Word(p)) == p
  {
    LimitValues();
  }

  /** `x` can be encoded as a `t` with nothing dropped. */
  ghost predicate Accepts(t: Ty, x: Arg)
    decreases x
  {
    match t
    case TBasic(b) => x.Prim? && HasType(b, x.p)
    case TVariant => x.Variant? && Complete(x.sig) && Accepts(TypeOf(x.sig), x.inner)
    case TArray(e) => x.Slice? && AcceptsItems(e, x.items)
    case TDict(_, v) => x.Dict? && AcceptsEntries(v, x.entries)
    case TStruct(ms) => x.Slice? && x.kind == AnySlice && AcceptsMembers(ms, x.items)
  }

  ghost predicate AcceptsItems(e: Ty, items: seq<Arg>)
    decreases items
  {
    items == [] || (Accepts(e, items[0]) && AcceptsItems(e, items[1..]))
  }

  ghost predicate AcceptsMembers(ms: seq<Ty>, items: seq<Arg>)
    decreases items
  {
    if ms == [] || items == [] then ms == [] && items == []
    else Accepts(ms[0], items[0]) && AcceptsMembers(ms[1..], items[1..])
  }

  ghost predicate AcceptsEntries(v: Ty, entries: seq<Entry>)
    decreases entries
  {
    entries == [] || (Accepts(v, entries[0].val) && AcceptsEntries(v, entries[1..]))
  }

  /** A supported type together with a value it accepts. */
  ghost predicate Encodable(t: Ty, x: Arg) { Good(t) && Accepts(t, x) }

  /** `v` has exactly the shape that signature `Print(t)` describes. */
  ghost predicate WellTyped(t: Ty, v: Value)
    decreases v
  {
    match t
    case TBasic(b) => v.Leaf? && HasType(b, v.p)
    case TVariant => v.Boxed? && Complete(v.sig) && WellTyped(TypeOf(v.sig), v.inner)
    case TArray(e) => v.List? && forall i :: 0 <= i < |v.items| ==> WellTyped(e, v.items[i])
    case TDict(_, u) => v.Map? && forall k :: k in v.m ==> WellTyped(u, v.m[k])
    case TStruct(ms) =>
      && v.List? && |v.items| == |ms|
      && forall i :: 0 <= i < |ms| ==> WellTyped(ms[i], v.items[i])
  }
}
