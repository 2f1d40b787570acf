/** The codec as functions of a position, a signature string and a value or buffer.
    They are total: every panic, endless loop and error of the code is an outcome. */
module Wire {
  import opened Wrappers
  import opened Bytes
  import opened Signature
  import opened Values
  import opened Safety

  /** A failure-compatible result: `:-` passes any outcome but Ok on. */
  datatype Outcome<+T> =
    | Ok(value: T)
    | Err      // the code returns an error
    | Panic    // an index or slice expression is out of range
    | Hang     // a loop that never ends
    | BadSig   // only with a check: an inline signature does not pass it
  {
    predicate IsFailure() { !Ok? }

    function PropagateFailure<U>(): Outcome<U>
      requires !Ok?
    {
      if Err? then Err else if Panic? then Panic else if Hang? then Hang else BadSig
    }

    function Extract(): T
      requires Ok?
    {
      value
    }
  }

  /** Encoded bytes; `exact` when no length conversion dropped bits. */
  datatype Piece = Piece(bytes: Str, exact: bool)

  function Cat(a: Piece, b: Piece): Piece {
    Piece(a.bytes + b.bytes, a.exact && b.exact)
  }

  const EMPTY := Piece([], true)

  function Size(r: Outcome<Piece>): nat { if r.Ok? then |r.value.bytes| else 0 }

  // ---- encoding at offset `pos` ----

  function EncWord(pos: nat, w: Width, v: nat): Str {
    Zeros(Pad(pos, w)) + LE(w, v)
  }

  function EncScalar(pos: nat, b: Basic, p: Scalar): Outcome<Piece> {
    if !HasType(b, p) then Err
    else
      Ok(Piece(EncWord(pos, WidthOf(b), Word(p)) + (if IsText(b) then p.s + [0] else []),
               Word(p) < Limit(WidthOf(b))))
  }

  function EncSignature(sig: Str): Piece {
    Piece(LE(1, |sig|) + sig + [0], |sig| < Limit(1))
  }

  function EncValue(pos: nat, sig: Str, x: Arg): Outcome<Piece>
    decreases x, 1
  {
    if sig == [] then Panic
    else if BasicOf(sig[0]).Some? then
      if x.Prim? then EncScalar(pos, BasicOf(sig[0]).value, x.p) else Err
    else if sig[0] == VARIANT then
      if x.Variant? then EncVariant(pos, x) else Err
    else if sig[0] == ARRAY then
      if |sig| == 1 then Panic else EncArray(pos, sig[1..], x)
    else if sig[0] == OPEN_STRUCT then
      if !x.Slice? || x.kind != AnySlice then Err
      else if |sig| == 1 then Panic
      else EncStruct(pos, sig[1..|sig| - 1], x)
    else Err
  }

  function EncVariant(pos: nat, x: Arg): Outcome<Piece>
    requires x.Variant?
    decreases x, 0
  {
    var s := EncSignature(x.sig);
    var v :- EncValue(pos + |s.bytes|, x.sig, x.inner);
    Ok(Cat(s, v))
  }

  function EncArray(pos: nat, elem: Str, x: Arg): Outcome<Piece>
    requires elem != []
    decreases x, 0
  {
    var d :- EncElements(ArrayStart(pos, elem[0]), elem, x);
    Ok(Piece(ArrayHead(pos, elem[0], |d.bytes|) + d.bytes, d.exact && |d.bytes| < Limit(4)))
  }

  function EncStruct(pos: nat, members: Str, x: Arg): Outcome<Piece>
    requires x.Slice?
    decreases x, 0
  {
    var pad := Piece(Zeros(Pad(pos, 8)), true);
    var ms :- EncMembers(pos + |pad.bytes|, members, x.items);
    Ok(Cat(pad, ms))
  }

  /** Where an array's first element goes: after the length word and the element padding. */
  function ArrayStart(pos: nat, c: Byte): (start: nat)
    ensures start >= pos + 4
  {
    var p := pos + Pad(pos, 4) + 4;
    p + Pad(p, AlignmentOf(c))
  }

  /** Padding, length word, and the padding before the first element, which the length excludes. */
  function ArrayHead(pos: nat, c: Byte, length: nat): (h: Str)
    ensures |h| == ArrayStart(pos, c) - pos
  {
    EncWord(pos, 4, length) + Zeros(Pad(pos + Pad(pos, 4) + 4, AlignmentOf(c)))
  }

  function EncElements(pos: nat, elem: Str, x: Arg): Outcome<Piece>
    requires elem != []
    decreases x, -1
  {
    if elem[0] == OPEN_DICT then
      match SplitDictEntry(elem)
      case None => Err
      case Some((ks, vs)) => if x.Dict? then EncEntries(pos, ks, vs, x.entries) else Err
    else if x.Slice? then EncItems(pos, elem, x.items)
    else Err
  }

  function EncItems(pos: nat, elem: Str, items: seq<Arg>): Outcome<Piece>
    decreases items, 0
  {
    if items == [] then Ok(EMPTY)
    else
      var a :- EncValue(pos, elem, items[0]);
      var b :- EncItems(pos + |a.bytes|, elem, items[1..]);
      Ok(Cat(a, b))
  }

  function EncMembers(pos: nat, rest: Str, items: seq<Arg>): Outcome<Piece>
    decreases items, 0
  {
    if rest == [] then Ok(EMPTY)
    else
      match SplitSig(rest)
      case None => Err
      case Some((first, r)) =>
        if items == [] then Err
        else
          var a :- EncValue(pos, first, items[0]);
          var b :- EncMembers(pos + |a.bytes|, r, items[1..]);
          Ok(Cat(a, b))
  }

  function EncEntries(pos: nat, ks: Str, vs: Str, entries: seq<Entry>): Outcome<Piece>
    requires ks != []
    decreases entries, 0
  {
    if entries == [] then Ok(EMPTY)
    else
      var a :- EncEntry(pos, ks, vs, entries[0]);
      var b :- EncEntries(pos + |a.bytes|, ks, vs, entries[1..]);
      Ok(Cat(a, b))
  }

  function EncEntry(pos: nat, ks: Str, vs: Str, e: Entry): Outcome<Piece>
    requires ks != []
    decreases e, 3
  {
    var pad := Piece(Zeros(Pad(pos, 8)), true);
    var kv :- EncPair(pos + |pad.bytes|, ks, vs, e);
    Ok(Cat(pad, kv))
  }

  function EncPair(pos: nat, ks: Str, vs: Str, e: Entry): Outcome<Piece>
    requires ks != []
    decreases e, 2
  {
    var k :- EncKey(pos, ks, e.key);
    var v :- EncValue(pos + |k.bytes|, vs, e.val);
    Ok(Cat(k, v))
  }

  /** A string under signature `ks`: only the text codes take one. */
  function EncKey(pos: nat, ks: Str, k: Str): Outcome<Piece>
    requires ks != []
  {
    if ks == [ARRAY] then Panic
    else
      match BasicOf(ks[0])
      case Some(b) => EncScalar(pos, b, VString(k))
      case None => Err
  }

  // ---- decoding `buf` from offset `pos` ----

  /** Which inline signatures are decoded by: any at all, as the code does it, or only
      those at which decoding always returns, or only single complete supported types. */
  datatype Check = AsIs | SafeOnly | WholeOnly

  ghost predicate Passes(check: Check, sig: Str) {
    match check
    case AsIs => true
    case SafeOnly => Safe(SafeSignatures, sig)
    case WholeOnly => Complete(sig)
  }

  datatype Got<+T> = Got(v: T, pos: nat)

  predicate Ends<T>(r: Outcome<Got<T>>, buf: Str, pos: nat) {
    r.Ok? ==> pos <= r.value.pos <= |buf|
  }

  predicate Advances<T>(r: Outcome<Got<T>>, buf: Str, pos: nat) {
    r.Ok? ==> pos < r.value.pos <= |buf|
  }

  function DecAlign(buf: Str, pos: nat, w: Width): Outcome<nat> {
    if pos + Pad(pos, w) <= |buf| then Ok(pos + Pad(pos, w)) else Err
  }

  function DecWord(buf: Str, pos: nat, w: Width): (r: Outcome<Got<nat>>)
    ensures r.Ok? || r.Err?
    ensures Advances(r, buf, pos)
    ensures r.Ok? ==> r.value.v < Limit(w)
  {
    var a := pos + Pad(pos, w);
    if a + w <= |buf| then Ok(Got(UnLE(buf[a..a + w]), a + w)) else Err
  }

  /** A length word of width `w`, that many bytes, and a skipped terminator. */
  function DecText(buf: Str, pos: nat, w: Width): (r: Outcome<Got<Str>>)
    ensures r.Ok? || r.Err?
    ensures Advances(r, buf, pos)
  {
    var Got(n, p) :- DecWord(buf, pos, w);
    if p + n + 1 <= |buf| then Ok(Got(buf[p..p + n], p + n + 1)) else Err
  }

  function DecScalar(buf: Str, pos: nat, b: Basic): (r: Outcome<Got<Scalar>>)
    ensures r.Ok? || r.Err?
    ensures Advances(r, buf, pos)
    ensures r.Ok? ==> HasType(b, r.value.v)
  {
    if IsText(b) then
      var Got(s, p) :- DecText(buf, pos, WidthOf(b));
      Ok(Got(VString(s), p))
    else
      var Got(u, p) :- DecWord(buf, pos, WidthOf(b));
      Ok(Got(FromWord(b, u), p))
  }

  /** decodeValue. An inline signature that does not pass the check is reported as BadSig. */
  ghost function DecValue(check: Check, buf: Str, pos: nat, sig: Str): (r: Outcome<Got<Value>>)
    requires pos <= |buf|
    ensures Ends(r, buf, pos)
    ensures r.Ok? && r.value.v.Leaf? ==> pos < r.value.pos
    decreases |buf| - pos, |sig|, 2
  {
    if sig == [] then Panic
    else if BasicOf(sig[0]).Some? then
      var Got(p, q) :- DecScalar(buf, pos, BasicOf(sig[0]).value);
      Ok(Got(Leaf(p), q))
    else if sig[0] == VARIANT then DecVariant(check, buf, pos)
    else if sig[0] == ARRAY then DecArray(check, buf, pos, sig[1..])
    else if sig[0] == OPEN_STRUCT then
      var p :- DecAlign(buf, pos, 8);
      if |sig| == 1 then Panic else DecStruct(check, buf, pos, sig[1..|sig| - 1])
    else Err
  }

  ghost function DecStruct(check: Check, buf: Str, pos: nat, members: Str): (r: Outcome<Got<Value>>)
    requires pos <= |buf|
    ensures Ends(r, buf, pos)
    ensures r.Ok? ==> r.value.v.List?
    decreases |buf| - pos, |members|, 4
  {
    var p :- DecAlign(buf, pos, 8);
    var Got(vs, q) :- DecMembers(check, buf, p, members);
    Ok(Got(List(vs), q))
  }

  ghost function DecVariant(check: Check, buf: Str, pos: nat): (r: Outcome<Got<Value>>)
    requires pos <= |buf|
    ensures Advances(r, buf, pos)
    ensures r.Ok? ==> r.value.v.Boxed?
    decreases |buf| - pos, 0, 1
  {
    var Got(s, p) :- DecText(buf, pos, 1);
    if !Passes(check, s) then BadSig
    else
      var Got(v, q) :- DecValue(check, buf, p, s);
      Ok(Got(Boxed(s, v), q))
  }

  ghost function DecArray(check: Check, buf: Str, pos: nat, elem: Str): (r: Outcome<Got<Value>>)
    requires pos <= |buf|
    ensures Advances(r, buf, pos)
    ensures r.Ok? ==> !r.value.v.Leaf?
    decreases |buf| - pos, |elem|, 1
  {
    var Got(n, p) :- DecWord(buf, pos, 4);
    if elem == [] then Panic
    else
      var q :- DecAlign(buf, p, AlignmentOf(elem[0]));
      if q + n <= |buf| then DecElements(check, buf, q, elem, q + n) else Err
  }

  ghost function DecElements(check: Check, buf: Str, pos: nat, elem: Str, end: nat): (r: Outcome<Got<Value>>)
    requires pos <= |buf| && elem != []
    ensures Ends(r, buf, pos)
    ensures r.Ok? ==> !r.value.v.Leaf?
    decreases |buf| - pos, |elem|, 6
  {
    if elem[0] == OPEN_DICT then
      match SplitDictEntry(elem)
      case None => Err
      case Some((ks, vs)) => DecEntries(check, buf, pos, ks, vs, end, map[])
    else
      var Got(vs, q) :- DecItems(check, buf, pos, elem, end);
      Ok(Got(List(vs), q))
  }

  /** The elements until `end` is reached; an element that takes no bytes repeats for ever. */
  ghost function DecItems(check: Check, buf: Str, pos: nat, elem: Str, end: nat): (r: Outcome<Got<seq<Value>>>)
    requires pos <= |buf|
    ensures Ends(r, buf, pos)
    decreases |buf| - pos, |elem|, 3
  {
    if pos >= end then Ok(Got([], pos))
    else
      var Got(v, p) :- DecValue(check, buf, pos, elem);
      if p == pos then Hang
      else
        var Got(vs, q) :- DecItems(check, buf, p, elem, end);
        Ok(Got([v] + vs, q))
  }

  ghost function DecMembers(check: Check, buf: Str, pos: nat, rest: Str): (r: Outcome<Got<seq<Value>>>)
    requires pos <= |buf|
    ensures Ends(r, buf, pos)
    decreases |buf| - pos, |rest|, 3
  {
    if rest == [] then Ok(Got([], pos))
    else
      match SplitSig(rest)
      case None => Err
      case Some((first, r)) =>
        var Got(v, p) :- DecValue(check, buf, pos, first);
        var Got(vs, q) :- DecMembers(check, buf, p, r);
        Ok(Got([v] + vs, q))
  }

  ghost function DecEntries(check: Check, buf: Str, pos: nat, ks: Str, vs: Str, end: nat, m: map<Str, Value>)
    : (r: Outcome<Got<Value>>)
    requires pos <= |buf|
    ensures Ends(r, buf, pos)
    ensures r.Ok? ==> r.value.v.Map?
    decreases |buf| - pos, |ks| + |vs|, 5
  {
    if pos >= end then Ok(Got(Map(m), pos))
    else
      var Got(kv, p) :- DecEntry(check, buf, pos, ks, vs);
      DecEntries(check, buf, p, ks, vs, end, m[kv.0 := kv.1])
  }

  ghost function DecEntry(check: Check, buf: Str, pos: nat, ks: Str, vs: Str): (r: Outcome<Got<(Str, Value)>>)
    requires pos <= |buf|
    ensures Advances(r, buf, pos)
    decreases |buf| - pos, |ks| + |vs|, 4
  {
    var a :- DecAlign(buf, pos, 8);
    DecPair(check, buf, a, ks, vs)
  }

  ghost function DecPair(check: Check, buf: Str, pos: nat, ks: Str, vs: Str): (r: Outcome<Got<(Str, Value)>>)
    requires pos <= |buf|
    ensures Advances(r, buf, pos)
    decreases |buf| - pos, |ks| + |vs|, 3
  {
    var Got(k, p) :- DecValue(check, buf, pos, ks);
    if !k.Leaf? || !k.p.VString? then Err
    else
      var Got(v, q) :- DecValue(check, buf, p, vs);
      Ok(Got((k.p.s, v), q))
  }

  // One unfolding of the codec at each kind of printed type.

  lemma {:induction false} BasicStep(check: Check, buf: Str, pos: nat, b: Basic)
    requires pos <= |buf|
    ensures DecValue(check, buf, pos, [Code(b)])
         == var r := DecScalar(buf, pos, b); if r.Ok? then Ok(Got(Leaf(r.value.v), r.value.pos)) else Err
  {
    BasicOfCode(b);
  }

  lemma {:induction false} CompletePasses(check: Check, sig: Str)
    requires Complete(sig)
    ensures Passes(check, sig)
  {
    GoodIsSafe(TypeOf(sig));
  }

  lemma {:induction false} VariantStep(check: Check, buf: Str, pos: nat, x: Arg)
    ensures x.Variant? ==> EncValue(pos, [VARIANT], x) == EncVariant(pos, x)
    ensures pos <= |buf| ==> DecValue(check, buf, pos, [VARIANT]) == DecVariant(check, buf, pos)
  {
    assert BasicOf(VARIANT) == None;
  }

  lemma {:induction false} ArrayStep(check: Check, buf: Str, pos: nat, elem: Str, x: Arg)
    requires elem != []
    ensures EncValue(pos, [ARRAY] + elem, x) == EncArray(pos, elem, x)
    ensures pos <= |buf| ==> DecValue(check, buf, pos, [ARRAY] + elem) == DecArray(check, buf, pos, elem)
  {
    assert ([ARRAY] + elem)[1..] == elem && BasicOf(ARRAY) == None;
  }

  lemma {:induction false} StructStep(check: Check, buf: Str, pos: nat, inner: Str, x: Arg)
    ensures x.Slice? && x.kind == AnySlice ==>
      EncValue(pos, [OPEN_STRUCT] + inner + [CLOSE_STRUCT], x) == EncStruct(pos, inner, x)
    ensures pos <= |buf| ==>
      DecValue(check, buf, pos, [OPEN_STRUCT] + inner + [CLOSE_STRUCT]) == DecStruct(check, buf, pos, inner)
  {
    var sig := [OPEN_STRUCT] + inner + [CLOSE_STRUCT];
    assert sig[1..|sig| - 1] == inner && BasicOf(OPEN_STRUCT) == None;
  }

  lemma {:induction false} MembersStep(pos: nat, ms: seq<Ty>, items: seq<Arg>)
    requires ms != [] && items != []
    ensures var a := EncValue(pos, Print(ms[0]), items[0]);
      a.Ok? ==>
        EncMembers(pos, PrintAll(ms), items)
        == var b := EncMembers(pos + |a.value.bytes|, PrintAll(ms[1..]), items[1..]);
           if b.Ok? then Ok(Cat(a.value, b.value)) else b
  {
    hide EncValue, EncMembers, Print, SplitSig;
    SplitPrint(ms[0], PrintAll(ms[1..]));
    assert PrintAll(ms) == Print(ms[0]) + PrintAll(ms[1..]);
    MembersUnfold(pos, Print(ms[0]), PrintAll(ms[1..]), items);
  }

  lemma {:induction false} MembersUnfold(pos: nat, first: Str, rest: Str, items: seq<Arg>)
    requires items != [] && SplitSig(first + rest) == Some((first, rest))
    ensures var a := EncValue(pos, first, items[0]);
      a.Ok? ==>
        EncMembers(pos, first + rest, items)
        == var b := EncMembers(pos + |a.value.bytes|, rest, items[1..]);
           if b.Ok? then Ok(Cat(a.value, b.value)) else b
  {
    assert first + rest != [];
    hide EncValue, SplitSig;
  }

  /** A decoded head followed by a decoded tail. */
  function Cons(a: Outcome<Got<Value>>, b: Outcome<Got<seq<Value>>>): Outcome<Got<seq<Value>>> {
    if !a.Ok? then a.PropagateFailure()
    else if !b.Ok? then b
    else Ok(Got([a.value.v] + b.value.v, b.value.pos))
  }

  lemma {:induction false} DecMembersUnfold(check: Check, buf: Str, pos: nat, first: Str, rest: Str)
    requires pos <= |buf| && SplitSig(first + rest) == Some((first, rest))
    ensures var a := DecValue(check, buf, pos, first);
      DecMembers(check, buf, pos, first + rest)
      == Cons(a, if a.Ok? then DecMembers(check, buf, a.value.pos, rest) else Err)
  {
    assert first + rest != [];
    hide DecValue, SplitSig;
  }

  lemma {:induction false} CatParts(buf: Str, pos: nat, a: Piece, b: Piece)
    requires At(buf, pos, Cat(a, b).bytes)
    ensures At(buf, pos, a.bytes) && At(buf, pos + |a.bytes|, b.bytes)
  {
    AtSplit(buf, pos, a.bytes, b.bytes);
  }
}
