/** Type signatures: the grammar of complete types, its printer, and splitSig.
    A signature is the byte string it is on the wire. */
module Signature {
  import opened Wrappers
  import opened Bytes

  /** The type codes encoded by one word, optionally followed by text. */
  datatype Basic = Y | B | N | Q | I | U | X | T | D | S | O | G

  /** A complete type. TDict is the whole "a{kv}": a dict entry exists only as an array element. */
  datatype Ty =
    | TBasic(b: Basic)
    | TVariant
    | TArray(elem: Ty)
    | TDict(key: Basic, val: Ty)
    | TStruct(members: seq<Ty>)

  const VARIANT: Byte := 'v' as int
  const ARRAY: Byte := 'a' as int
  const OPEN_STRUCT: Byte := '(' as int
  const CLOSE_STRUCT: Byte := ')' as int
  const OPEN_DICT: Byte := '{' as int
  const CLOSE_DICT: Byte := '}' as int

  function Code(b: Basic): Byte {
    match b
    case Y => 'y' as int case B => 'b' as int case N => 'n' as int case Q => 'q' as int
    case I => 'i' as int case U => 'u' as int case X => 'x' as int case T => 't' as int
    case D => 'd' as int case S => 's' as int case O => 'o' as int case G => 'g' as int
  }

  function BasicOf(c: Byte): (r: Option<Basic>)
    ensures r.Some? ==> Code(r.value) == c
  {
    if c == Code(Y) then Some(Y) else if c == Code(B) then Some(B) else if c == Code(N) then Some(N)
    else if c == Code(Q) then Some(Q) else if c == Code(I) then Some(I) else if c == Code(U) then Some(U)
    else if c == Code(X) then Some(X) else if c == Code(T) then Some(T) else if c == Code(D) then Some(D)
    else if c == Code(S) then Some(S) else if c == Code(O) then Some(O) else if c == Code(G) then Some(G)
    else None
  }

  lemma {:induction false} BasicOfCode(b: Basic)
    ensures BasicOf(Code(b)) == Some(b)
    ensures Code(b) !in [VARIANT, ARRAY, OPEN_STRUCT, CLOSE_STRUCT, OPEN_DICT, CLOSE_DICT]
  {
  }

  function WidthOf(b: Basic): Width {
    match b
    case Y | G => 1
    case N | Q => 2
    case B | I | U | S | O => 4
    case X | T | D => 8
  }

  predicate IsText(b: Basic) { b == S || b == O || b == G }

  /** alignmentOf, by the first byte of a signature. */
  function AlignmentOf(c: Byte): Width {
    match BasicOf(c)
    case Some(b) => WidthOf(b)
    case None =>
      if c == ARRAY then 4
      else if c == OPEN_STRUCT || c == OPEN_DICT || c == VARIANT then 8
      else 1
  }

  function Print(t: Ty): (s: Str)
    ensures |s| > 0
    decreases t, 0
  {
    match t
    case TBasic(b) => [Code(b)]
    case TVariant => [VARIANT]
    case TArray(e) => [ARRAY] + Print(e)
    case TDict(k, v) => [ARRAY] + PrintEntry(k, v)
    case TStruct(ms) => [OPEN_STRUCT] + PrintAll(ms) + [CLOSE_STRUCT]
  }

  function PrintEntry(k: Basic, v: Ty): Str
    decreases v, 1
  {
    [OPEN_DICT, Code(k)] + Print(v) + [CLOSE_DICT]
  }

  function PrintAll(ts: seq<Ty>): Str
    decreases ts, 0
  {
    if ts == [] then [] else Print(ts[0]) + PrintAll(ts[1..])
  }

  /** What this codec supports: no empty structs, and text dict keys only. */
  predicate Good(t: Ty) {
    match t
    case TBasic(_) => true
    case TVariant => true
    case TArray(e) => Good(e)
    case TDict(k, v) => IsText(k) && Good(v)
    case TStruct(ms) => ms != [] && GoodAll(ms)
  }

  predicate GoodAll(ts: seq<Ty>) {
    ts == [] || (Good(ts[0]) && GoodAll(ts[1..]))
  }

  /** The signature is exactly one complete, supported type. */
  ghost predicate Complete(sig: Str) {
    exists t :: Good(t) && Print(t) == sig
  }

  ghost function TypeOf(sig: Str): (t: Ty)
    requires Complete(sig)
    ensures Good(t) && Print(t) == sig
  {
    var t :| Good(t) && Print(t) == sig; t
  }

  /** Number of bytes of `s` read until `depth` opened brackets are all closed. */
  function Scan(s: Str, depth: nat, open: Byte, close: Byte): (n: Option<nat>)
    ensures n.Some? ==> n.value <= |s|
    ensures n.Some? && depth > 0 ==> n.value > 0
  {
    if depth == 0 then Some(0)
    else if s == [] then None
    else
      Plus(1, Scan(s[1..], if s[0] == open then depth + 1 else if s[0] == close then depth - 1 else depth, open, close))
  }

  function Plus(k: nat, n: Option<nat>): Option<nat> {
    match n case None => None case Some(m) => Some(k + m)
  }

  /** The first complete type of `sig` and the remainder, or None where the code reports an error. */
  function SplitSig(sig: Str): (r: Option<(Str, Str)>)
    ensures r.Some? ==> |r.value.0| > 0 && r.value.0 + r.value.1 == sig
  {
    if sig == [] then None
    else if sig[0] == ARRAY then
      match SplitSig(sig[1..])
      case None => None
      case Some((inner, rest)) => Some(([ARRAY] + inner, rest))
    else if sig[0] == OPEN_STRUCT then SplitBracket(sig, OPEN_STRUCT, CLOSE_STRUCT)
    else if sig[0] == OPEN_DICT then SplitBracket(sig, OPEN_DICT, CLOSE_DICT)
    else Some((sig[..1], sig[1..]))
  }

  function SplitBracket(sig: Str, open: Byte, close: Byte): (r: Option<(Str, Str)>)
    requires sig != []
    ensures r.Some? ==> |r.value.0| > 0 && r.value.0 + r.value.1 == sig
  {
    match Scan(sig[1..], 1, open, close)
    case None => None
    case Some(n) => Some((sig[..n + 1], sig[n + 1..]))
  }

  /** Key and value signatures of a dict entry that starts `sig`; what follows the value is ignored. */
  function SplitDictEntry(sig: Str): (r: Option<(Str, Str)>)
    ensures r.Some? ==> 0 < |r.value.0| && 0 < |r.value.1| && |r.value.0| + |r.value.1| < |sig|
  {
    if |sig| < 2 || sig[0] != OPEN_DICT then None
    else
      match SplitSig(sig[1..|sig| - 1])
      case None => None
      case Some((k, rest)) =>
        match SplitSig(rest)
        case None => None
        case Some((v, _)) => Some((k, v))
  }

  predicate IsPair(open: Byte, close: Byte) {
    || (open == OPEN_STRUCT && close == CLOSE_STRUCT)
    || (open == OPEN_DICT && close == CLOSE_DICT)
  }

  ghost predicate NeutralAt(m: Str, r: Str, depth: nat, open: Byte, close: Byte) {
    depth > 0 && IsPair(open, close) ==>
      Scan(m + r, depth, open, close) == Plus(|m|, Scan(r, depth, open, close))
  }

  /** `m` leaves the bracket depth as it found it, for either kind of bracket. */
  ghost predicate Neutral(m: Str) {
    forall r: Str, depth: nat, open: Byte, close: Byte :: NeutralAt(m, r, depth, open, close)
  }

  lemma {:induction false} ScanStep(c: Byte, r: Str, depth: nat, open: Byte, close: Byte)
    requires depth > 0
    ensures Scan([c] + r, depth, open, close)
         == Plus(1, Scan(r, if c == open then depth + 1 else if c == close then depth - 1 else depth, open, close))
  {
    assert ([c] + r)[1..] == r;
  }

  lemma {:induction false} NeutralByte(c: Byte)
    requires c !in [OPEN_STRUCT, CLOSE_STRUCT, OPEN_DICT, CLOSE_DICT]
    ensures Neutral([c])
  {
    forall r: Str, depth: nat, open: Byte, close: Byte
      ensures NeutralAt([c], r, depth, open, close)
    {
      if depth > 0 { ScanStep(c, r, depth, open, close); }
    }
  }

  lemma {:induction false} NeutralConcat(a: Str, b: Str)
    requires Neutral(a) && Neutral(b)
    ensures Neutral(a + b)
  {
    forall r: Str, depth: nat, open: Byte, close: Byte
      ensures NeutralAt(a + b, r, depth, open, close)
    {
      assert a + b + r == a + (b + r);
      assert NeutralAt(a, b + r, depth, open, close) && NeutralAt(b, r, depth, open, close);
    }
  }

  lemma {:induction false} NeutralWrap(o: Byte, m: Str, c: Byte)
    requires IsPair(o, c) && Neutral(m)
    ensures Neutral([o] + m + [c])
  {
    forall r: Str, depth: nat, open: Byte, close: Byte
      ensures NeutralAt([o] + m + [c], r, depth, open, close)
    {
      if depth > 0 && IsPair(open, close) { NeutralWrapAt(o, m, c, r, depth, open, close); }
    }
  }

  lemma {:induction false} NeutralWrapAt(o: Byte, m: Str, c: Byte, r: Str, depth: nat, open: Byte, close: Byte)
    requires IsPair(o, c) && Neutral(m) && depth > 0 && IsPair(open, close)
    ensures Scan([o] + m + [c] + r, depth, open, close) == Plus(|m| + 2, Scan(r, depth, open, close))
  {
    var inside := if open == o then depth + 1 else depth;
    var tail := [c] + r;
    assert [o] + m + [c] + r == [o] + (m + tail);
    ScanStep(o, m + tail, depth, open, close);
    ScanStep(c, r, inside, open, close);
    assert NeutralAt(m, tail, inside, open, close);
    hide Scan;
  }

  /** Every printed type is neutral, although each scan looks at one kind of bracket only. */
  lemma {:induction false} NeutralPrint(t: Ty)
    ensures Neutral(Print(t))
    decreases t
  {
    match t
    case TBasic(b) =>
      BasicOfCode(b);
      NeutralByte(Code(b));
    case TVariant =>
      NeutralByte(VARIANT);
    case TArray(e) =>
      NeutralByte(ARRAY);
      NeutralPrint(e);
      NeutralConcat([ARRAY], Print(e));
    case TDict(k, v) =>
      NeutralPrint(v);
      NeutralEntry(k, v);
      NeutralByte(ARRAY);
      NeutralConcat([ARRAY], PrintEntry(k, v));
    case TStruct(ms) =>
      NeutralPrintAll(ms);
      NeutralWrap(OPEN_STRUCT, PrintAll(ms), CLOSE_STRUCT);
  }

  lemma {:induction false} NeutralPrintAll(ts: seq<Ty>)
    ensures Neutral(PrintAll(ts))
    decreases ts
  {
    if ts == [] {
      forall r: Str, depth: nat, open: Byte, close: Byte
        ensures NeutralAt([], r, depth, open, close)
      {
        assert [] + r == r;
      }
    } else {
      NeutralPrint(ts[0]);
      NeutralPrintAll(ts[1..]);
      NeutralConcat(Print(ts[0]), PrintAll(ts[1..]));
    }
  }

  lemma {:induction false} NeutralEntry(k: Basic, v: Ty)
    requires Neutral(Print(v))
    ensures Neutral([Code(k)] + Print(v))
    ensures Neutral(PrintEntry(k, v))
  {
    BasicOfCode(k);
    NeutralByte(Code(k));
    NeutralConcat([Code(k)], Print(v));
    NeutralWrap(OPEN_DICT, [Code(k)] + Print(v), CLOSE_DICT);
    assert PrintEntry(k, v) == [OPEN_DICT] + ([Code(k)] + Print(v)) + [CLOSE_DICT];
  }

  /** A bracket that wraps a neutral body comes off whole. */
  lemma {:induction false} SplitWrapped(o: Byte, m: Str, c: Byte, r: Str)
    requires IsPair(o, c) && Neutral(m)
    ensures SplitSig([o] + m + [c] + r) == Some(([o] + m + [c], r))
  {
    var w := [o] + m + [c];
    var s := w + r;
    assert s[1..] == m + ([c] + r);
    assert NeutralAt(m, [c] + r, 1, o, c);
    ScanStep(c, r, 1, o, c);
    assert s[..|w|] == w && s[|w|..] == r;
  }

  /** Splitting undoes printing: the first complete type comes off exactly, whatever follows it. */
  lemma {:induction false} SplitPrint(t: Ty, r: Str)
    ensures SplitSig(Print(t) + r) == Some((Print(t), r))
    decreases t
  {
    var s := Print(t) + r;
    match t
    case TBasic(b) =>
      BasicOfCode(b);
      assert s[..1] == Print(t) && s[1..] == r;
    case TVariant =>
      assert s[..1] == Print(t) && s[1..] == r;
    case TArray(e) =>
      assert s[1..] == Print(e) + r;
      SplitPrint(e, r);
    case TDict(k, v) =>
      assert s[1..] == PrintEntry(k, v) + r;
      SplitEntry(k, v, r);
    case TStruct(ms) =>
      NeutralPrintAll(ms);
      SplitWrapped(OPEN_STRUCT, PrintAll(ms), CLOSE_STRUCT, r);
  }

  lemma {:induction false} SplitEntry(k: Basic, v: Ty, r: Str)
    ensures SplitSig(PrintEntry(k, v) + r) == Some((PrintEntry(k, v), r))
  {
    NeutralPrint(v);
    NeutralEntry(k, v);
    SplitWrapped(OPEN_DICT, [Code(k)] + Print(v), CLOSE_DICT, r);
    assert PrintEntry(k, v) == [OPEN_DICT] + ([Code(k)] + Print(v)) + [CLOSE_DICT];
  }

  lemma {:induction false} SplitDictEntryPrint(k: Basic, v: Ty)
    ensures SplitDictEntry(PrintEntry(k, v)) == Some(([Code(k)], Print(v)))
  {
    var e := PrintEntry(k, v);
    assert e[1..|e| - 1] == Print(TBasic(k)) + Print(v);
    SplitPrint(TBasic(k), Print(v));
    SplitPrint(v, []);
    assert Print(v) + [] == Print(v);
  }

  /** No printed type begins with a dict entry. */
  lemma {:induction false} PrintStart(t: Ty)
    ensures Print(t)[0] != OPEN_DICT
  {
    if t.TBasic? { BasicOfCode(t.b); }
  }

  /** The types that repeated splitting takes off `sig`, as the loops over a signature do. */
  function SplitAll(sig: Str): Option<seq<Str>>
    decreases |sig|
  {
    if sig == [] then Some([])
    else
      match SplitSig(sig)
      case None => None
      case Some((first, rest)) =>
        match SplitAll(rest)
        case None => None
        case Some(fs) => Some([first] + fs)
  }

  function PrintEach(ts: seq<Ty>): seq<Str> {
    if ts == [] then [] else [Print(ts[0])] + PrintEach(ts[1..])
  }

  /** Printing a list of complete types and splitting it again recovers exactly that list. */
  lemma {:induction false} SplitAllPrint(ts: seq<Ty>)
    ensures SplitAll(PrintAll(ts)) == Some(PrintEach(ts))
  {
    if ts != [] {
      SplitPrint(ts[0], PrintAll(ts[1..]));
      SplitAllPrint(ts[1..]);
    }
  }

  /** What follows the 'a' of an array is not a brace. */
  lemma {:induction false} NotADict(t: Ty)
    ensures t.TArray? ==> |Print(t)| > 1 && Print(t)[1] != OPEN_DICT
  {
    if t.TArray? { PrintStart(t.elem); }
  }

  /** The printed form determines the type. */
  lemma {:induction false} PrintInjective(t: Ty, u: Ty)
    requires Print(t) == Print(u)
    ensures t == u
    decreases t
  {
    FirstByte(t);
    FirstByte(u);
    match t
    case TBasic(b) => BasicOfCode(b);
    case TVariant =>
    case TArray(e) =>
      PrintStart(e);
      assert Print(t)[1..] == Print(e);
      assert u.TArray? by { assert Print(u)[1] == Print(e)[0]; }
      assert Print(u)[1..] == Print(u.elem);
      PrintInjective(e, u.elem);
    case TDict(k, v) =>
      assert Print(t)[1] == OPEN_DICT;
      NotADict(u);
      assert Print(t)[2] == Code(k) && Print(u)[2] == Code(u.key);
      BasicOfCode(k);
      BasicOfCode(u.key);
      assert Print(t)[3..|Print(t)| - 1] == Print(v);
      assert Print(u)[3..|Print(u)| - 1] == Print(u.val);
      PrintInjective(v, u.val);
    case TStruct(ms) =>
      assert Print(t)[1..|Print(t)| - 1] == PrintAll(ms);
      assert Print(u)[1..|Print(u)| - 1] == PrintAll(u.members);
      PrintAllInjective(ms, u.members);
  }

  lemma {:induction false} PrintAllInjective(ts: seq<Ty>, us: seq<Ty>)
    requires PrintAll(ts) == PrintAll(us)
    ensures ts == us
    decreases ts
  {
    if ts == [] || us == [] {
      assert PrintAll([]) == [];
    } else {
      SplitPrint(ts[0], PrintAll(ts[1..]));
      SplitPrint(us[0], PrintAll(us[1..]));
      PrintInjective(ts[0], us[0]);
      PrintAllInjective(ts[1..], us[1..]);
    }
  }

  /** The first byte tells the kinds of type apart, but for arrays and dicts. */
  lemma {:induction false} FirstByte(t: Ty)
    ensures Print(t)[0] == match t
      case TBasic(b) => Code(b)
      case TVariant => VARIANT
      case TArray(_) => ARRAY
      case TDict(_, _) => ARRAY
      case TStruct(_) => OPEN_STRUCT
    ensures t.TBasic? ==> BasicOf(Print(t)[0]) == Some(t.b)
    ensures !t.TBasic? ==> BasicOf(Print(t)[0]) == None
  {
    if t.TBasic? { BasicOfCode(t.b); }
  }

  lemma {:induction false} TypeOfPrint(t: Ty)
    requires Good(t)
    ensures Complete(Print(t)) && TypeOf(Print(t)) == t
  {
    PrintInjective(TypeOf(Print(t)), t);
  }

  lemma {:induction false} ScanIndex(sig: Str, i: nat, depth: nat, open: Byte, close: Byte)
    requires depth > 0 && i < |sig|
    ensures var inside := if sig[i] == open then depth + 1 else if sig[i] == close then depth - 1 else depth;
      Scan(sig[i..], depth, open, close) == Plus(1, Scan(sig[i + 1..], inside, open, close))
  {
    assert sig[i..] == [sig[i]] + sig[i + 1..];
    ScanStep(sig[i], sig[i + 1..], depth, open, close);
  }

  lemma {:induction false} ScanStop(s: Str, depth: nat, open: Byte, close: Byte)
    ensures depth == 0 ==> Scan(s, depth, open, close) == Some(0)
    ensures depth > 0 && s == [] ==> Scan(s, depth, open, close) == None
  {
  }

  /** The depth-counting loop: the index just after the bracket that closes sig[0]. */
  method ScanBracket(sig: Str, open: Byte, close: Byte) returns (r: Option<nat>)
    requires sig != []
    ensures r == Plus(1, Scan(sig[1..], 1, open, close))
  {
    hide Scan;
    var depth: nat := 1;
    var i := 1;
    while i < |sig| && depth > 0
      invariant 1 <= i <= |sig|
      invariant Scan(sig[1..], 1, open, close) == Plus(i - 1, Scan(sig[i..], depth, open, close))
    {
      ScanIndex(sig, i, depth, open, close);
      if sig[i] == open {
        depth := depth + 1;
      } else if sig[i] == close {
        depth := depth - 1;
      }
      i := i + 1;
    }
    ScanStop(sig[i..], depth, open, close);
    return if depth != 0 then None else Some(i);
  }

  /** splitSig as written: recursion past 'a', and a depth-counting scan for brackets. */
  method SplitSignature(sig: Str) returns (r: Option<(Str, Str)>)
    ensures r == SplitSig(sig)
    decreases |sig|
  {
    if sig == [] { return None; }
    if sig[0] == ARRAY {
      var inner := SplitSignature(sig[1..]);
      if inner.None? { return None; }
      return Some(([ARRAY] + inner.value.0, inner.value.1));
    }
    if sig[0] != OPEN_STRUCT && sig[0] != OPEN_DICT {
      return Some((sig[..1], sig[1..]));
    }
    var i := ScanBracket(sig, sig[0], if sig[0] == OPEN_STRUCT then CLOSE_STRUCT else CLOSE_DICT);
    if i.None? { return None; }
    return Some((sig[..i.value], sig[i.value..]));
  }
}
