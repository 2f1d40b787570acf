/** Strict expansion of ${NAME} and $NAME references, left to right, in one pass. */
module Template {
  import opened Wrappers

  predicate IsStart(c: char) { 'A' <= c <= 'Z' || 'a' <= c <= 'z' || c == '_' }

  predicate IsPart(c: char) { IsStart(c) || '0' <= c <= '9' }

  predicate AllParts(s: string) { forall i :: 0 <= i < |s| ==> IsPart(s[i]) }

  predicate IsName(s: string) { s != "" && IsStart(s[0]) && AllParts(s) }

  const CAPITALS := "ABCDEFGHIJKLMNOPQRSTUVWXYZ"
  const SMALL := "abcdefghijklmnopqrstuvwxyz"
  const DIGITS := "0123456789"

  /** A name is made of letters, digits and underscores, and does not begin with a digit. */
  lemma {:induction false} NameCharacters(c: char)
    ensures IsStart(c) <==> c in CAPITALS || c in SMALL || c == '_'
    ensures IsPart(c) <==> c in CAPITALS || c in SMALL || c == '_' || c in DIGITS
  {
    Listed(c);
  }

  lemma {:induction false} Listed(c: char)
    ensures c in CAPITALS <==> 'A' <= c <= 'Z'
    ensures c in SMALL <==> 'a' <= c <= 'z'
    ensures c in DIGITS <==> '0' <= c <= '9'
  {
    InOrderFrom(CAPITALS, 'A', c);
    InOrderFrom(SMALL, 'a', c);
    InOrderFrom(DIGITS, '0', c);
    hide CAPITALS, SMALL, DIGITS;
  }

  lemma {:induction false} InOrderFrom(s: string, first: char, c: char)
    requires forall i :: 0 <= i < |s| ==> s[i] as int == first as int + i
    ensures c in s <==> first as int <= c as int < first as int + |s|
  {
    if first as int <= c as int < first as int + |s| { assert s[c as int - first as int] == c; }
  }

  /** Length of the longest run of name characters at the front of `s`. */
  function RunLength(s: string): (n: nat)
    ensures n <= |s| && AllParts(s[..n]) && (n < |s| ==> !IsPart(s[n]))
  {
    if s == "" || !IsPart(s[0]) then 0 else 1 + RunLength(s[1..])
  }

  /** The reference that `s` begins with, if any: its name and its length in the text. */
  function Ref(s: string): (r: Option<(string, nat)>)
    ensures r.Some? ==> IsName(r.value.0) && 0 < r.value.1 <= |s|
  {
    if |s| < 2 || s[0] != '$' then None
    else if s[1] == '{' then
      var tail := s[2..];
      var n := RunLength(tail);
      if n > 0 && IsStart(tail[0]) && n < |tail| && tail[n] == '}' then Some((tail[..n], n + 3)) else None
    else if IsStart(s[1]) then
      var n := RunLength(s[1..]);
      Some((s[1..][..n], n + 1))
    else None
  }

  /** The text with every bound reference replaced and every other one left as it
      stands, and the names of the latter in order. */
  function Expand(text: string, vars: map<string, string>): (string, seq<string>)
    decreases |text|
  {
    if text == "" then ("", [])
    else
      match Ref(text)
      case Some((name, n)) =>
        var (out, missing) := Expand(text[n..], vars);
        if name in vars then (vars[name] + out, missing) else (text[..n] + out, [name] + missing)
      case None =>
        var (out, missing) := Expand(text[1..], vars);
        ([text[0]] + out, missing)
  }

  datatype Expansion = Expanded(text: string) | Undefined(names: seq<string>)

  function StrictExpansion(text: string, vars: map<string, string>): Expansion {
    var (out, missing) := Expand(text, vars);
    if missing == [] then Expanded(out) else Undefined(missing)
  }

  // ---- templates as their authors mean them ----

  /** Literal text, the two forms of reference, and a dollar sign that starts neither. */
  datatype Piece = Lit(s: string) | Braced(name: string) | Bare(name: string) | Stray

  function PrintPiece(p: Piece): string {
    match p
    case Lit(s) => s
    case Braced(name) => "${" + name + "}"
    case Bare(name) => "$" + name
    case Stray => "$"
  }

  function Print(ps: seq<Piece>): string
    decreases |ps|
  {
    if ps == [] then "" else PrintPiece(ps[0]) + Print(ps[1..])
  }

  /** Literals hold no '$', names are names, a bare name is not run on by what
      follows, and a stray '$' with what follows is no reference. */
  predicate WellFormed(ps: seq<Piece>)
    decreases |ps|
  {
    ps == [] ||
    var rest := Print(ps[1..]);
    && WellFormed(ps[1..])
    && match ps[0]
       case Lit(s) => '$' !in s
       case Braced(name) => IsName(name)
       case Bare(name) => IsName(name) && (rest == "" || !IsPart(rest[0]))
       case Stray => Ref("$" + rest) == None
  }

  /** In-order concatenation of literals and values. */
  function Subst(ps: seq<Piece>, vars: map<string, string>): string
    decreases |ps|
  {
    if ps == [] then ""
    else
      (match ps[0]
       case Lit(s) => s
       case Braced(name) => if name in vars then vars[name] else PrintPiece(ps[0])
       case Bare(name) => if name in vars then vars[name] else PrintPiece(ps[0])
       case Stray => "$")
      + Subst(ps[1..], vars)
  }

  /** The unbound names, in order of occurrence, repetitions included. */
  function Missing(ps: seq<Piece>, vars: map<string, string>): seq<string>
    decreases |ps|
  {
    if ps == [] then []
    else if (ps[0].Braced? || ps[0].Bare?) && ps[0].name !in vars then [ps[0].name] + Missing(ps[1..], vars)
    else Missing(ps[1..], vars)
  }

  lemma {:induction false} RunOfName(name: string, rest: string)
    requires AllParts(name) && (rest == "" || !IsPart(rest[0]))
    ensures RunLength(name + rest) == |name|
    decreases |name|
  {
    if name == "" {
      assert name + rest == rest;
    } else {
      assert (name + rest)[1..] == name[1..] + rest;
      RunOfName(name[1..], rest);
    }
  }

  lemma {:induction false} RefBraced(name: string, rest: string)
    requires IsName(name)
    ensures Ref("${" + name + "}" + rest) == Some((name, |name| + 3))
  {
    var s := "${" + name + "}" + rest;
    assert s[2..] == name + ("}" + rest);
    RunOfName(name, "}" + rest);
    assert s[2..][..|name|] == name;
  }

  lemma {:induction false} RefBare(name: string, rest: string)
    requires IsName(name) && (rest == "" || !IsPart(rest[0]))
    ensures Ref("$" + name + rest) == Some((name, |name| + 1))
  {
    var s := "$" + name + rest;
    assert s[1..] == name + rest;
    RunOfName(name, rest);
    assert s[1..][..|name|] == name;
  }

  lemma {:induction false} ExpandLit(s: string, rest: string, vars: map<string, string>)
    requires '$' !in s
    ensures var (out, missing) := Expand(rest, vars);
      Expand(s + rest, vars) == (s + out, missing)
    decreases |s|
  {
    if s == "" {
      assert s + rest == rest && s + Expand(rest, vars).0 == Expand(rest, vars).0;
    } else {
      assert (s + rest)[1..] == s[1..] + rest;
      ExpandLit(s[1..], rest, vars);
      assert [s[0]] + (s[1..] + Expand(rest, vars).0) == s + Expand(rest, vars).0;
    }
  }

  /** Expansion of a well-formed template is its in-order substitution; substituted
      values are never looked at again. */
  lemma {:induction false} ExpandIsSubst(ps: seq<Piece>, vars: map<string, string>)
    requires WellFormed(ps)
    ensures Expand(Print(ps), vars) == (Subst(ps, vars), Missing(ps, vars))
    decreases |ps|
  {
    if ps != [] {
      ExpandIsSubst(ps[1..], vars);
      var rest := Print(ps[1..]);
      var text := PrintPiece(ps[0]) + rest;
      match ps[0]
      case Lit(s) => ExpandLit(s, rest, vars);
      case Braced(name) =>
        RefBraced(name, rest);
        assert text[|name| + 3..] == rest && text[..|name| + 3] == PrintPiece(ps[0]);
      case Bare(name) =>
        RefBare(name, rest);
        assert text[|name| + 1..] == rest && text[..|name| + 1] == PrintPiece(ps[0]);
      case Stray =>
        assert text[1..] == rest;
    }
  }

  /** It succeeds if and only if every name is bound, and then with the substitution;
      otherwise it fails with the unbound names in order. */
  lemma {:induction false} StrictOnTemplates(ps: seq<Piece>, vars: map<string, string>)
    requires WellFormed(ps)
    ensures var allBound := forall p :: p in ps && (p.Braced? || p.Bare?) ==> p.name in vars;
      StrictExpansion(Print(ps), vars) == if allBound then Expanded(Subst(ps, vars)) else Undefined(Missing(ps, vars))
  {
    ExpandIsSubst(ps, vars);
    MissingNone(ps, vars);
  }

  lemma {:induction false} MissingNone(ps: seq<Piece>, vars: map<string, string>)
    ensures Missing(ps, vars) == [] <==> forall p :: p in ps && (p.Braced? || p.Bare?) ==> p.name in vars
    decreases |ps|
  {
    if ps != [] {
      MissingNone(ps[1..], vars);
      assert ps == [ps[0]] + ps[1..];
    }
  }

  /** The pieces any text is made of. */
  function Tokens(text: string): seq<Piece>
    decreases |text|
  {
    if text == "" then []
    else
      match Ref(text)
      case Some((name, n)) => [if text[1] == '{' then Braced(name) else Bare(name)] + Tokens(text[n..])
      case None => [if text[0] == '$' then Stray else Lit([text[0]])] + Tokens(text[1..])
  }

  lemma {:induction false} RefIsPrinted(text: string)
    requires Ref(text).Some?
    ensures var (name, n) := Ref(text).value;
      var p := if text[1] == '{' then Braced(name) else Bare(name);
      text[..n] == PrintPiece(p) && (p.Bare? ==> text[n..] == "" || !IsPart(text[n]))
  {
    var (name, n) := Ref(text).value;
    if text[1] == '{' {
      assert text[..n] == "${" + text[2..][..|name|] + "}";
    } else {
      assert text[..n] == "$" + text[1..][..|name|];
      if n < |text| { assert text[n] == text[1..][|name|]; }
    }
  }

  /** So the above covers every text: each is the print of a well-formed template. */
  lemma {:induction false} EveryTextIsATemplate(text: string)
    ensures Print(Tokens(text)) == text && WellFormed(Tokens(text))
    decreases |text|
  {
    hide Ref, IsName, IsPart;
    if text != "" {
      var r := Ref(text);
      var n := if r.Some? then r.value.1 else 1;
      EveryTextIsATemplate(text[n..]);
      TokensStep(text, n);
      hide Tokens;
      assert text == text[..n] + text[n..];
      if r.Some? {
        RefIsPrinted(text);
      } else if text[0] == '$' {
        assert "$" + text[1..] == text;
      }
    }
  }

  lemma {:induction false} TokensStep(text: string, n: nat)
    requires text != "" && n == if Ref(text).Some? then Ref(text).value.1 else 1
    ensures var t := Tokens(text);
      && t != [] && t[1..] == Tokens(text[n..])
      && t[0] == match Ref(text)
                 case Some((name, _)) => (if text[1] == '{' then Braced(name) else Bare(name))
                 case None => if text[0] == '$' then Stray else Lit([text[0]])
  {
    hide Ref;
  }

  lemma {:induction false} NothingToExpand(vars: map<string, string>)
    ensures Expand("", vars) == ("", [])
  {
  }

  lemma {:induction false} ExpandStep(text: string, vars: map<string, string>)
    requires text != ""
    ensures Expand(text, vars)
         == match Ref(text)
            case Some((name, n)) =>
              var (out, missing) := Expand(text[n..], vars);
              (if name in vars then (vars[name] + out, missing) else (text[..n] + out, [name] + missing))
            case None =>
              var (out, missing) := Expand(text[1..], vars);
              ([text[0]] + out, missing)
  {
    hide Ref;
  }

  /** strictExpand as written: the replace callback appends to `missing` as it goes. */
  method StrictExpand(text: string, vars: map<string, string>) returns (r: Expansion)
    ensures r == StrictExpansion(text, vars)
  {
    hide Ref, IsName, Expand;
    NothingToExpand(vars);
    var out, missing := "", [];
    var i := 0;
    ghost var (all, names) := Expand(text, vars);
    assert text[0..] == text && "" + all == all && [] + names == names;
    while i < |text|
      invariant 0 <= i <= |text|
      invariant all == out + Expand(text[i..], vars).0
      invariant names == missing + Expand(text[i..], vars).1
    {
      var rest := text[i..];
      var ref := Ref(rest);
      var n := if ref.Some? then ref.value.1 else 1;
      ghost var later := Expand(text[i + n..], vars);
      assert rest[n..] == text[i + n..];
      ExpandStep(rest, vars);
      var step := if ref.None? then [rest[0]] else if ref.value.0 in vars then vars[ref.value.0] else rest[..n];
      if ref.Some? && ref.value.0 !in vars {
        assert missing + ([ref.value.0] + later.1) == missing + [ref.value.0] + later.1;
        missing := missing + [ref.value.0];
      }
      assert out + (step + later.0) == out + step + later.0;
      out := out + step;
      i := i + n;
    }
    assert text[i..] == "" && out + "" == out && missing + [] == missing;
    return if missing == [] then Expanded(out) else Undefined(missing);
  }

  // ---- against Python's string.Template ----

  /** Template.substitute: "$$" stands for '$', any other '$' that begins no reference is an
      error, and so is an unbound name. */
  function Substitute(text: string, vars: map<string, string>): Option<string>
    decreases |text|
  {
    if text == "" then Some("")
    else
      match Ref(text)
      case Some((name, n)) => if name in vars then Prefixed(vars[name], Substitute(text[n..], vars)) else None
      case None =>
        if text[0] != '$' then Prefixed([text[0]], Substitute(text[1..], vars))
        else if |text| > 1 && text[1] == '$' then Prefixed("$", Substitute(text[2..], vars))
        else None
  }

  function Prefixed(s: string, rest: Option<string>): Option<string> {
    if rest.Some? then Some(s + rest.value) else None
  }

  /** The two give the same text, or both fail. */
  predicate Agree(text: string, vars: map<string, string>) {
    match StrictExpansion(text, vars)
    case Expanded(t) => Substitute(text, vars) == Some(t)
    case Undefined(_) => Substitute(text, vars) == None
  }

  lemma {:induction false} WithoutStray(text: string, vars: map<string, string>)
    requires Stray !in Tokens(text)
    ensures Agree(text, vars)
    decreases |text|
  {
    hide Ref;
    if text != "" {
      var r := Ref(text);
      var n := if r.Some? then r.value.1 else 1;
      TokensStep(text, n);
      assert Tokens(text)[0] in Tokens(text);
      assert forall p :: p in Tokens(text)[1..] ==> p in Tokens(text);
      WithoutStray(text[n..], vars);
    }
  }

  /** What the code does with a '$' that begins no reference: it stays. */
  lemma {:induction false} TwoDollars(vars: map<string, string>)
    ensures StrictExpansion("$$", vars) == Expanded("$$") && Substitute("$$", vars) == Some("$")
  {
    assert "$$"[1..] == "$" && "$"[1..] == "" && "$$"[2..] == "";
    assert Expand("", vars) == ("", []) && ['$'] + "" == "$" && ['$'] + "$" == "$$";
    assert Ref("$") == None && Ref("$$") == None;
    assert Expand("$", vars) == ("$", []);
    assert Expand("$$", vars) == ("$$", []);
    assert Substitute("", vars) == Some("");
  }

  /** With such a '$' the two can still happen to give the same text. */
  lemma {:induction false} AgreeByChance()
    ensures Stray in Tokens("$$x") && Agree("$$x", map["x" := "x"])
  {
    var vars := map["x" := "x"];
    var text := "$$x";
    assert text[1..] == "$x" && text[2..] == "x" && "$x"[2..] == "" && "x"[1..] == "";
    assert Ref(text) == None;
    RefBare("x", "");
    assert "$" + "x" + "" == "$x";
    assert Expand("", vars) == ("", []);
    assert Ref("$x") == Some(("x", 2)) && vars["x"] + "" == "x" && ['$'] + "x" == "$x";
    assert Expand("$x", vars) == ("x", []);
    assert Expand(text, vars) == ("$x", []);
    assert Substitute("", vars) == Some("");
    assert Ref("x") == None;
    assert Substitute("x", vars) == Some("x");
    assert Substitute(text, vars) == Some("$x");
    assert Tokens(text)[0] == Stray;
  }

  /** All names of the text have values, none shorter than `n`. */
  ghost predicate LongValues(text: string, vars: map<string, string>, n: nat) {
    && (forall p :: p in Tokens(text) && (p.Braced? || p.Bare?) ==> p.name in vars)
    && (forall name :: name in vars ==> |vars[name]| >= n)
  }

  lemma {:induction false} LongValuesStep(text: string, vars: map<string, string>, n: nat)
    requires text != "" && LongValues(text, vars, n)
    ensures var r := Ref(text);
      && LongValues(text[if r.Some? then r.value.1 else 1..], vars, n)
      && (r.Some? ==> r.value.0 in vars)
  {
    var r := Ref(text);
    TokensStep(text, if r.Some? then r.value.1 else 1);
    hide Ref, Tokens;
    var ts := Tokens(text);
    assert ts[0] in ts && forall p :: p in ts[1..] ==> p in ts;
  }

  function Out(text: string, vars: map<string, string>): string { Expand(text, vars).0 }

  /** A '$' in front makes the expansion longer, whether it begins a reference or not. */
  lemma {:induction false} DollarLengthens(text: string, vars: map<string, string>, n: nat)
    requires text != "" && text[0] == '$' && LongValues(text, vars, n) && |text| <= n
    ensures |Out(text, vars)| > |Out(text[1..], vars)|
  {
    LongValuesStep(text, vars, n);
    if Ref(text).Some? {
      var (name, k) := Ref(text).value;
      RefIsPrinted(text);
      var p := if text[1] == '{' then Braced(name) else Bare(name);
      var inside := text[1..k];
      assert text[..k] == PrintPiece(p);
      NoDollarInside(p);
      assert inside == PrintPiece(p)[1..];
      assert text[1..] == inside + text[k..];
      ExpandLit(inside, text[k..], vars);
    }
  }

  lemma {:induction false} NoDollarInside(p: Piece)
    requires (p.Braced? || p.Bare?) && IsName(p.name)
    ensures '$' !in PrintPiece(p)[1..]
  {
    assert forall i :: 0 <= i < |p.name| ==> p.name[i] != '$';
    if p.Bare? { assert PrintPiece(p)[1..] == p.name; } else { assert PrintPiece(p)[1..] == "{" + p.name + "}"; }
  }

  lemma {:induction false} LongValuesLit(s: string, rest: string, vars: map<string, string>, n: nat)
    requires '$' !in s && LongValues(rest, vars, n)
    ensures LongValues(s + rest, vars, n)
    decreases |s|
  {
    if s == "" {
      assert s + rest == rest;
    } else {
      var text := s + rest;
      assert text[1..] == s[1..] + rest;
      LongValuesLit(s[1..], rest, vars, n);
      TokensStep(text, 1);
      assert Tokens(text) == [Tokens(text)[0]] + Tokens(text[1..]);
    }
  }

  /** What follows a '$' has no names of its own. */
  lemma {:induction false} LongValuesOfRest(text: string, vars: map<string, string>, n: nat)
    requires text != "" && text[0] == '$' && LongValues(text, vars, n)
    ensures LongValues(text[1..], vars, n)
  {
    LongValuesStep(text, vars, n);
    if Ref(text).Some? {
      var (name, k) := Ref(text).value;
      RefIsPrinted(text);
      var p := if text[1] == '{' then Braced(name) else Bare(name);
      NoDollarInside(p);
      assert text[1..k] == PrintPiece(p)[1..];
      assert text[1..] == text[1..k] + text[k..];
      LongValuesLit(text[1..k], text[k..], vars, n);
    }
  }

  /** With values as long as the text the code's result is the longer one. */
  lemma {:induction false} StrayLengthens(text: string, vars: map<string, string>, n: nat)
    requires LongValues(text, vars, n) && |text| <= n && Substitute(text, vars).Some?
    ensures |Out(text, vars)| >= |Substitute(text, vars).value|
    ensures Stray in Tokens(text) ==> |Out(text, vars)| > |Substitute(text, vars).value|
    decreases |text|
  {
    if text != "" {
      var r := Ref(text);
      var k := if r.Some? then r.value.1 else 1;
      LongValuesStep(text, vars, n);
      TokensStep(text, k);
      assert Tokens(text) == [Tokens(text)[0]] + Tokens(text[k..]);
      hide Ref, Tokens;
      if r.None? && text[0] == '$' {
        assert text[1..][1..] == text[2..];
        LongValuesOfRest(text[1..], vars, n);
        assert LongValues(text[2..], vars, n);
        DollarLengthens(text[1..], vars, n);
        StrayLengthens(text[2..], vars, n);
      } else {
        StrayLengthens(text[k..], vars, n);
      }
    }
  }

  /** The names of a text, each with the same value. */
  ghost function Everywhere(text: string, value: string): map<string, string> {
    map p | p in Tokens(text) && (p.Braced? || p.Bare?) :: p.name := value
  }

  /** Where a '$' begins no reference there are values for all the names with which the two differ. */
  lemma {:induction false} WithStray(text: string) returns (vars: map<string, string>)
    requires Stray in Tokens(text)
    ensures forall p :: p in Tokens(text) && (p.Braced? || p.Bare?) ==> p.name in vars
    ensures !Agree(text, vars)
  {
    vars := Everywhere(text, text);
    EveryTextIsATemplate(text);
    StrictOnTemplates(Tokens(text), vars);
    ExpandIsSubst(Tokens(text), vars);
    hide Expand, Subst, Substitute, Tokens;
    if Substitute(text, vars).Some? { StrayLengthens(text, vars, |text|); }
  }

  /** The code does what Template.substitute does, whatever the values, if and only if every
      '$' of the text begins a reference. */
  lemma {:induction false} AgreeIff(text: string)
    ensures (forall vars :: Agree(text, vars)) <==> Stray !in Tokens(text)
  {
    hide Agree, Tokens;
    if Stray in Tokens(text) {
      var vars := WithStray(text);
      assert !Agree(text, vars);
    } else {
      forall vars
        ensures Agree(text, vars)
      {
        WithoutStray(text, vars);
      }
    }
  }
}
