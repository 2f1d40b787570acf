/** The wire format told letter by letter, with every code, width and byte written out. */
module Letters {
  import opened Wrappers
  import opened Bytes
  import opened Signature
  import opened Values
  import opened Wire
  import opened Conformance

  // ---- words ----

  function Two(v: nat): (b: Str)
    ensures |b| == 2
  {
    [v % 0x100, v / 0x100 % 0x100]
  }

  function Four(v: nat): (b: Str)
    ensures |b| == 4
  {
    Two(v) + Two(v / 0x1_0000)
  }

  function Eight(v: nat): (b: Str)
    ensures |b| == 8
  {
    Four(v) + Four(v / 0x1_0000_0000)
  }

  lemma {:induction false} TwoIs(v: nat)
    ensures LE(2, v) == Two(v)
  {
  }

  lemma {:induction false} FourIs(v: nat)
    ensures LE(4, v) == Four(v)
  {
    assert v / 0x100 / 0x100 == v / 0x1_0000;
    TwoIs(v / 0x1_0000);
  }

  lemma {:induction false} EightIs(v: nat)
    ensures LE(8, v) == Eight(v)
  {
    var w := v / 0x100 / 0x100 / 0x100 / 0x100;
    assert w == v / 0x1_0000_0000;
    FourIs(v);
    FourIs(w);
    Unrolled(v);
  }

  lemma {:induction false} Unrolled(v: nat)
    ensures LE(8, v) == LE(4, v) + LE(4, v / 0x100 / 0x100 / 0x100 / 0x100)
  {
    var a := v / 0x100;
    var b := a / 0x100;
    var c := b / 0x100;
    LEStep(7, v);
    LEStep(6, a);
    LEStep(5, b);
    LEStep(4, c);
    LEStep(3, v);
    LEStep(2, a);
    LEStep(1, b);
    LEStep(0, c);
    hide LE;
  }

  lemma {:induction false} LEStep(w: nat, v: nat)
    ensures LE(w + 1, v) == [v % 0x100] + LE(w, v / 0x100)
    ensures LE(0, v) == []
  {
  }

  /** The number that the two, four or eight bytes at `a` hold, lowest first. */
  function NumberAt(buf: Str, a: nat, w: Width): nat
    requires a + w <= |buf|
    decreases w
  {
    if w == 1 then buf[a]
    else if w == 2 then buf[a] + 0x100 * buf[a + 1]
    else if w == 4 then NumberAt(buf, a, 2) + 0x1_0000 * NumberAt(buf, a + 2, 2)
    else NumberAt(buf, a, 4) + 0x1_0000_0000 * NumberAt(buf, a + 4, 4)
  }

  lemma {:induction false} NumberRead(buf: Str, a: nat, w: Width)
    requires a + w <= |buf|
    ensures UnLE(buf[a..a + w]) == NumberAt(buf, a, w)
    decreases w
  {
    if w == 1 {
      assert buf[a..a + 1] == [buf[a]] && UnLE([buf[a]]) == buf[a];
    } else if w == 2 {
      assert buf[a..a + 2] == [buf[a], buf[a + 1]] && [buf[a], buf[a + 1]][1..] == [buf[a + 1]];
      assert UnLE([buf[a + 1]]) == buf[a + 1];
    } else {
      var h := w / 2;
      NumberRead(buf, a, h);
      NumberRead(buf, a + h, h);
      assert buf[a..a + w] == buf[a..a + h] + buf[a + h..a + w];
      Halves(buf[a..a + h], buf[a + h..a + w]);
      LimitValues();
    }
  }

  lemma {:induction false} Halves(a: Str, b: Str)
    ensures UnLE(a + b) == UnLE(a) + Limit(|a|) * UnLE(b)
  {
    if a == [] {
      assert a + b == b;
    } else {
      assert (a + b)[1..] == a[1..] + b;
      Halves(a[1..], b);
      var l, u := Limit(|a| - 1), UnLE(b);
      HeadFirst(a, b);
      HeadFirst(a, []);
      assert a + [] == a;
      Regroup(u, l);
      hide UnLE, Limit;
    }
  }

  lemma {:induction false} HeadFirst(a: Str, b: Str)
    requires a != []
    ensures UnLE(a + b) == a[0] + 0x100 * UnLE(a[1..] + b) && Limit(|a|) == 0x100 * Limit(|a| - 1)
  {
    assert (a + b)[1..] == a[1..] + b;
  }

  // ---- one scalar ----

  /** What stands at `pos` for a Go value at the letter `c`, and whether its length fits;
      None where the value has another Go type. */
  function WireForm(c: char, pos: nat, p: Scalar): Option<(Str, bool)> {
    match (c, p)
    case ('y', VUint8(v)) => Some(([v], true))
    case ('b', VBool(v)) => Some((Zeros(Pad(pos, 4)) + (if v then [1, 0, 0, 0] else [0, 0, 0, 0]), true))
    case ('n', VInt16(v)) => Some((Zeros(Pad(pos, 2)) + Two(if v < 0 then v + 0x1_0000 else v), true))
    case ('q', VUint16(v)) => Some((Zeros(Pad(pos, 2)) + Two(v), true))
    case ('i', VInt32(v)) => Some((Zeros(Pad(pos, 4)) + Four(if v < 0 then v + 0x1_0000_0000 else v), true))
    case ('u', VUint32(v)) => Some((Zeros(Pad(pos, 4)) + Four(v), true))
    case ('x', VInt64(v)) =>
      Some((Zeros(Pad(pos, 8)) + Eight(if v < 0 then v + 0x1_0000_0000_0000_0000 else v), true))
    case ('t', VUint64(v)) => Some((Zeros(Pad(pos, 8)) + Eight(v), true))
    case ('d', VFloat64(v)) => Some((Zeros(Pad(pos, 8)) + Eight(v), true))
    case ('s', VString(s)) => Some((Zeros(Pad(pos, 4)) + Four(|s|) + s + [0], |s| < 0x1_0000_0000))
    case ('o', VString(s)) => Some((Zeros(Pad(pos, 4)) + Four(|s|) + s + [0], |s| < 0x1_0000_0000))
    case ('g', VString(s)) => Some(([|s| % 0x100] + s + [0], |s| < 0x100))
    case _ => None
  }

  const LETTERS := "ybnqiuxtdsog"

  /** At every letter, every position: the value of its Go type as its bytes, and any other
      value, of whatever type, an error. */
  lemma {:induction false} EncodesByLetter(pos: nat, c: char, rest: Str, x: Arg)
    requires c in LETTERS
    ensures EncValue(pos, [c as int] + rest, x)
         == match (if x.Prim? then WireForm(c, pos, x.p) else None)
            case Some((bytes, exact)) => Ok(Piece(bytes, exact))
            case None => Err
  {
    LetterOf(c);
    var b := BasicOf(c as int).value;
    assert ([c as int] + rest)[0] == c as int;
    if x.Prim? { ScalarByLetter(pos, c, b, x.p); }
  }

  /** Which letter is which, and how wide. */
  lemma {:induction false} LetterOf(c: char)
    requires c in LETTERS
    ensures BasicOf(c as int) == Some(
      match c
      case 'y' => Y case 'b' => B case 'n' => N case 'q' => Q case 'i' => I case 'u' => U
      case 'x' => X case 't' => T case 'd' => D case 's' => S case 'o' => O case _ => G)
  {
  }

  lemma {:induction false} ScalarByLetter(pos: nat, c: char, b: Basic, p: Scalar)
    requires c in LETTERS && BasicOf(c as int) == Some(b)
    ensures EncScalar(pos, b, p)
         == match WireForm(c, pos, p)
            case Some((bytes, exact)) => Ok(Piece(bytes, exact))
            case None => Err
  {
    LetterOf(c);
    if HasType(b, p) {
      if IsText(b) { TextByLetter(pos, c, b, p.s); } else { WordByLetter(pos, c, b, p); }
    }
  }

  lemma {:induction false} TextByLetter(pos: nat, c: char, b: Basic, s: Str)
    requires c in LETTERS && BasicOf(c as int) == Some(b) && IsText(b)
    ensures WireForm(c, pos, VString(s)).Some?
    ensures EncScalar(pos, b, VString(s))
         == var (bytes, exact) := WireForm(c, pos, VString(s)).value; Ok(Piece(bytes, exact))
  {
    LetterOf(c);
    LimitValues();
    ByteIs(|s|);
    FourIs(|s|);
    hide LE, Limit, Pad, Four;
    var z, f := Zeros(Pad(pos, 4)), Four(|s|);
    assert z + f + (s + [0]) == z + f + s + [0];
    assert Zeros(Pad(pos, 1)) + [|s| % 0x100] + (s + [0]) == [|s| % 0x100] + s + [0] by { NoPad(pos); }
  }

  lemma {:induction false} NoPad(pos: nat)
    ensures Zeros(Pad(pos, 1)) == []
  {
  }

  lemma {:induction false} ByteIs(v: nat)
    ensures LE(1, v) == [v % 0x100]
  {
  }

  lemma {:induction false} FlagBytes()
    ensures Four(1) == [1, 0, 0, 0] && Four(0) == [0, 0, 0, 0]
  {
  }

  lemma {:induction false} WordByLetter(pos: nat, c: char, b: Basic, p: Scalar)
    requires c in LETTERS && BasicOf(c as int) == Some(b) && HasType(b, p) && !IsText(b)
    ensures WireForm(c, pos, p).Some?
    ensures EncScalar(pos, b, p) == var (bytes, exact) := WireForm(c, pos, p).value; Ok(Piece(bytes, exact))
  {
    hide LE, Limit, Pad, Zeros, Two, Four, Eight;
    LetterOf(c);
    WordInverse(b, p);
    var v := Word(p);
    ByteIs(v);
    TwoIs(v);
    FourIs(v);
    EightIs(v);
    WordByType(p);
    NoPad(pos);
    FlagBytes();
    assert EncWord(pos, WidthOf(b), v) + [] == EncWord(pos, WidthOf(b), v);
    if c == 'y' { assert [] + [v] == [v]; }
  }

  /** Two's complement, with the numbers written out. */
  lemma {:induction false} WordByType(p: Scalar)
    ensures p.VInt16? ==> Word(p) == if p.i16 < 0 then p.i16 + 0x1_0000 else p.i16
    ensures p.VInt32? ==> Word(p) == if p.i32 < 0 then p.i32 + 0x1_0000_0000 else p.i32
    ensures p.VInt64? ==> Word(p) == if p.i64 < 0 then p.i64 + 0x1_0000_0000_0000_0000 else p.i64
  {
  }

  /** A letter that stands for nothing is an error. */
  lemma {:induction false} OtherLetters(check: Check, buf: Str, pos: nat, c: Byte, rest: Str, x: Arg)
    requires pos <= |buf| && forall l :: l in LETTERS + "va(" ==> c != l as int
    ensures EncValue(pos, [c] + rest, x) == Err && DecValue(check, buf, pos, [c] + rest) == Err
  {
    NoLetter(c);
    assert ([c] + rest)[0] == c;
    hide BasicOf;
  }

  lemma {:induction false} NoLetter(c: Byte)
    requires forall l :: l in LETTERS + "va(" ==> c != l as int
    ensures BasicOf(c) == None && c != VARIANT && c != ARRAY && c != OPEN_STRUCT
  {
    var ls := LETTERS + "va(";
    assert forall i :: 0 <= i < |ls| ==> ls[i] in ls;
    assert ls[0] == 'y' && ls[1] == 'b' && ls[2] == 'n' && ls[3] == 'q' && ls[4] == 'i' && ls[5] == 'u';
    assert ls[6] == 'x' && ls[7] == 't' && ls[8] == 'd' && ls[9] == 's' && ls[10] == 'o' && ls[11] == 'g';
    assert ls[12] == 'v' && ls[13] == 'a' && ls[14] == '(';
  }

  function WidthAt(c: char): Width {
    if c == 'y' || c == 'g' then 1
    else if c == 'n' || c == 'q' then 2
    else if c == 'b' || c == 'i' || c == 'u' || c == 's' || c == 'o' then 4
    else 8
  }

  /** What is read at `pos` for the letter `c`, and where the cursor is then; None where the bytes run out. */
  function ReadForm(c: char, buf: Str, pos: nat): Option<(Scalar, nat)> {
    var w := WidthAt(c);
    var a := pos + Pad(pos, w);
    if a + w > |buf| then None
    else
      var u, end := NumberAt(buf, a, w), a + w;
      if c == 's' || c == 'o' || c == 'g' then
        if end + u + 1 <= |buf| then Some((VString(buf[end..end + u]), end + u + 1)) else None
      else Some((ScalarOf(c, u), end))
  }

  /** The number as the type below `limit` has it. */
  function Low(u: nat, limit: nat): (v: nat)
    requires limit > 0
    ensures v < limit
  {
    if u < limit then u else 0
  }

  /** The number whose two's complement, with a sign bit worth `half`, is `u`. */
  function Signed(u: nat, half: int): (v: int)
    requires half > 0
    ensures -half <= v < half
  {
    if u < half then u else if u < half + half then u - half - half else 0
  }

  lemma {:induction false} NumberBound(buf: Str, a: nat, w: Width)
    requires a + w <= |buf|
    ensures NumberAt(buf, a, w) < Limit(w)
  {
    NumberRead(buf, a, w);
  }

  /** At every letter, on any bytes: the value of its Go type that they hold. */
  lemma {:induction false} DecodesByLetter(check: Check, buf: Str, pos: nat, c: char, rest: Str)
    requires c in LETTERS && pos <= |buf|
    ensures DecValue(check, buf, pos, [c as int] + rest)
         == match ReadForm(c, buf, pos)
            case Some((p, end)) => Ok(Got(Leaf(p), end))
            case None => Err
  {
    LetterOf(c);
    var b := BasicOf(c as int).value;
    assert ([c as int] + rest)[0] == c as int;
    ScalarReadByLetter(buf, pos, c, b);
    hide DecScalar;
  }

  lemma {:induction false} ScalarReadByLetter(buf: Str, pos: nat, c: char, b: Basic)
    requires c in LETTERS && BasicOf(c as int) == Some(b)
    ensures DecScalar(buf, pos, b)
         == match ReadForm(c, buf, pos)
            case Some((p, end)) => Ok(Got(p, end))
            case None => Err
  {
    hide LE, UnLE, Limit, Pad, FromWord, NumberAt, BasicOf, WidthOf, WidthAt, IsText;
    WidthsAgree(c, b);
    var w := WidthOf(b);
    var a := pos + Pad(pos, w);
    if a + w <= |buf| {
      NumberRead(buf, a, w);
      NumberBound(buf, a, w);
      if !IsText(b) { Reinterpreted(c, b, NumberAt(buf, a, w)); }
    }
  }

  lemma {:induction false} WidthsAgree(c: char, b: Basic)
    requires c in LETTERS && BasicOf(c as int) == Some(b)
    ensures WidthOf(b) == WidthAt(c) && (IsText(b) <==> c == 's' || c == 'o' || c == 'g')
  {
    LetterOf(c);
  }

  /** The number as the letter's Go type has it. */
  function ScalarOf(c: char, u: nat): Scalar {
    match c
    case 'y' => VUint8(Low(u, 0x100))
    case 'b' => VBool(u != 0)
    case 'n' => VInt16(Signed(u, 0x8000))
    case 'q' => VUint16(Low(u, 0x1_0000))
    case 'i' => VInt32(Signed(u, 0x8000_0000))
    case 'u' => VUint32(Low(u, 0x1_0000_0000))
    case 'x' => VInt64(Signed(u, 0x8000_0000_0000_0000))
    case 't' => VUint64(Low(u, 0x1_0000_0000_0000_0000))
    case _ => VFloat64(Low(u, 0x1_0000_0000_0000_0000))
  }

  lemma {:induction false} Reinterpreted(c: char, b: Basic, u: nat)
    requires c in LETTERS && BasicOf(c as int) == Some(b) && !IsText(b) && u < Limit(WidthOf(b))
    ensures FromWord(b, u) == ScalarOf(c, u)
  {
    LetterOf(c);
    LimitValues();
  }

  // ---- containers ----

  /** The signature of every type, letter by letter. */
  lemma {:induction false} PrintedLetters(t: Ty)
    ensures Print(t) == match t
      case TBasic(Y) => ['y' as int] case TBasic(B) => ['b' as int] case TBasic(N) => ['n' as int]
      case TBasic(Q) => ['q' as int] case TBasic(I) => ['i' as int] case TBasic(U) => ['u' as int]
      case TBasic(X) => ['x' as int] case TBasic(T) => ['t' as int] case TBasic(D) => ['d' as int]
      case TBasic(S) => ['s' as int] case TBasic(O) => ['o' as int] case TBasic(G) => ['g' as int]
      case TVariant => ['v' as int]
      case TArray(e) => ['a' as int] + Print(e)
      case TDict(k, v) => ['a' as int, '{' as int] + Print(TBasic(k)) + Print(v) + ['}' as int]
      case TStruct(ms) => ['(' as int] + PrintAll(ms) + [')' as int]
  {
  }

  /** The alignment of every type, by the first letter of its signature. */
  lemma {:induction false} AlignmentByLetter(c: char)
    requires c in LETTERS + "va({"
    ensures AlignmentOf(c as int) == if c == 'a' then 4 else WidthAt(c)
  {
    if c in LETTERS { LetterOf(c); }
  }

  /** The specification's alignments. */
  lemma {:induction false} SpecAlignmentByLetter(t: Ty)
    ensures SpecAlignment(t) == match t
      case TBasic(b) =>
        if b in {Y, G} then 1 else if b in {N, Q} then 2 else if b in {B, I, U, S, O} then 4 else 8
      case TVariant => 1
      case TArray(_) => 4
      case TDict(_, _) => 4
      case TStruct(_) => 8
  {
  }

  // ---- values that do not fit the type ----

  /** A value of another Go shape than the signature's is an error. */
  lemma {:induction false} WrongShape(pos: nat, t: Ty, x: Arg)
    requires match t
      case TBasic(_) => !x.Prim?
      case TVariant => !x.Variant?
      case TArray(_) => !x.Slice?
      case TDict(_, _) => !x.Dict?
      case TStruct(_) => !x.Slice? || x.kind != AnySlice
    ensures EncValue(pos, Print(t), x) == Err
  {
    match t
    case TBasic(b) => BasicOfCode(b);
    case TVariant =>
    case TArray(e) =>
      PrintStart(e);
      ArrayStep(AsIs, [], pos, Print(e), x);
    case TDict(k, v) =>
      SplitDictEntryPrint(k, v);
      ArrayStep(AsIs, [], pos, PrintEntry(k, v), x);
    case TStruct(_) =>
  }

  /** A struct, or a call, with fewer items than its signature has types is never encoded. */
  lemma {:induction false} TooFewItems(pos: nat, ms: seq<Ty>, items: seq<Arg>)
    requires |items| < |ms|
    ensures !EncMembers(pos, PrintAll(ms), items).Ok?
    decreases |ms|
  {
    hide EncValue, Print, SplitSig;
    SplitPrint(ms[0], PrintAll(ms[1..]));
    if items != [] {
      var a := EncValue(pos, Print(ms[0]), items[0]);
      if a.Ok? { TooFewItems(pos + |a.value.bytes|, ms[1..], items[1..]); }
    }
  }
}
