/** Choosing the root and the bulk disk, keeping away from the medium the installer runs from. */
module Disks {
  import opened Wrappers

  datatype Device = Device(name: string, path: string, size: int, kind: string,
                           rotational: bool, readOnly: bool, parent: string)

  datatype Choice = Chosen(root: string, bulk: string) | TooFew(found: nat) | OutOfRange

  predicate Usable(d: Device) { d.kind == "disk" && d.size > 0 && !d.readOnly }

  predicate Candidate(d: Device, exclude: string) { Usable(d) && (exclude == "" || d.name != exclude) }

  /** The conditions under which the code's loops append a device. */
  datatype Rule = Wanted(exclude: string) | NotSpinning | NotAt(path: string)

  predicate Keeps(rule: Rule, d: Device) {
    match rule
    case Wanted(exclude) => Candidate(d, exclude)
    case NotSpinning => !d.rotational
    case NotAt(path) => d.path != path
  }

  function Filter(ds: seq<Device>, rule: Rule): seq<Device> {
    if ds == [] then [] else (if Keeps(rule, ds[0]) then [ds[0]] else []) + Filter(ds[1..], rule)
  }

  lemma {:induction false} FilterCounts(ds: seq<Device>, rule: Rule, d: Device)
    ensures multiset(Filter(ds, rule))[d] == if Keeps(rule, d) then multiset(ds)[d] else 0
  {
    hide Keeps;
    if ds != [] {
      FilterCounts(ds[1..], rule, d);
      assert ds == [ds[0]] + ds[1..];
    }
  }

  lemma {:induction false} FilterIn(ds: seq<Device>, rule: Rule)
    ensures forall d :: d in Filter(ds, rule) <==> d in ds && Keeps(rule, d)
  {
    forall d
      ensures d in Filter(ds, rule) <==> d in ds && Keeps(rule, d)
    {
      FilterCounts(ds, rule, d);
      assert d in multiset(ds) <==> d in ds;
      assert d in multiset(Filter(ds, rule)) <==> d in Filter(ds, rule);
    }
  }

  // ---- what a choice is ----

  function Candidates(all: seq<Device>, exclude: string): seq<Device> {
    Filter(all, Wanted(exclude))
  }

  /** Those devices, as often as they are listed, that are disks, not empty, writable and not
      the one to leave out. */
  lemma {:induction false} CandidatesAre(all: seq<Device>, exclude: string, d: Device)
    ensures multiset(Candidates(all, exclude))[d]
         == if d.kind == "disk" && d.size > 0 && !d.readOnly && (exclude == "" || d.name != exclude)
            then multiset(all)[d] else 0
  {
    FilterCounts(all, Wanted(exclude), d);
  }

  function NonRotational(ds: seq<Device>): seq<Device> { Filter(ds, NotSpinning) }

  /** Where the root disk is looked for. */
  function Pool(ds: seq<Device>): seq<Device> {
    var fast := NonRotational(ds);
    if fast != [] then fast else ds
  }

  function Others(ds: seq<Device>, root: string): seq<Device> { Filter(ds, NotAt(root)) }

  ghost predicate Smallest(ds: seq<Device>, d: Device) { d in ds && forall e :: e in ds ==> d.size <= e.size }

  ghost predicate Largest(ds: seq<Device>, d: Device) { d in ds && forall e :: e in ds ==> e.size <= d.size }

  /** `r` is one of the outcomes the code may have. There can be several where sizes are
      equal, since its sort is not stable. */
  ghost predicate Selects(all: seq<Device>, exclude: string, r: Choice) {
    var cs := Candidates(all, exclude);
    if |cs| < 2 then r == TooFew(|cs|)
    else exists root :: Smallest(Pool(cs), root) && SelectsBulk(Others(cs, root.path), root.path, r)
  }

  ghost predicate SelectsBulk(others: seq<Device>, root: string, r: Choice) {
    if others == [] then r == OutOfRange
    else exists bulk :: Largest(others, bulk) && r == Chosen(root, bulk.path)
  }

  // ---- as written ----

  /** A slice; two variables that hold one share its elements. */
  class Slice {
    var items: seq<Device>

    constructor ()
      ensures items == []
    {
      items := [];
    }

    method Append(d: Device)
      modifies this
      ensures items == old(items) + [d]
    {
      items := items + [d];
    }

    /** Sorts in place. Callers may not rely on where devices of one size end up. */
    method SortBySize(ascending: bool)
      modifies this
      ensures Sorted(items, ascending) && multiset(items) == multiset(old(items))
    {
      var sorted := [];
      for i := 0 to |items|
        invariant items == old(items)
        invariant Sorted(sorted, ascending) && multiset(sorted) == multiset(items[..i])
      {
        assert items[..i + 1] == items[..i] + [items[i]];
        InsertAdds(sorted, items[i], ascending);
        InsertSorts(sorted, items[i], ascending);
        sorted := Insert(sorted, items[i], ascending);
      }
      assert items[..|items|] == items;
      items := sorted;
    }
  }

  predicate InOrder(d: Device, e: Device, ascending: bool) {
    if ascending then d.size <= e.size else d.size >= e.size
  }

  predicate Sorted(ds: seq<Device>, ascending: bool) {
    ds == [] || ((forall e :: e in ds[1..] ==> InOrder(ds[0], e, ascending)) && Sorted(ds[1..], ascending))
  }

  function Insert(ds: seq<Device>, d: Device, ascending: bool): seq<Device> {
    if ds == [] || InOrder(d, ds[0], ascending) then [d] + ds
    else [ds[0]] + Insert(ds[1..], d, ascending)
  }

  lemma {:induction false} InsertAdds(ds: seq<Device>, d: Device, ascending: bool)
    ensures multiset(Insert(ds, d, ascending)) == multiset(ds) + multiset{d}
  {
    if ds != [] {
      assert ds == [ds[0]] + ds[1..];
      InsertAdds(ds[1..], d, ascending);
    }
  }

  lemma {:induction false} InsertIn(ds: seq<Device>, d: Device, ascending: bool, e: Device)
    ensures e in Insert(ds, d, ascending) ==> e == d || e in ds
  {
    if ds != [] && e in Insert(ds, d, ascending) { InsertIn(ds[1..], d, ascending, e); }
  }

  lemma {:induction false} InsertSorts(ds: seq<Device>, d: Device, ascending: bool)
    requires Sorted(ds, ascending)
    ensures Sorted(Insert(ds, d, ascending), ascending)
  {
    var r := Insert(ds, d, ascending);
    if ds == [] || InOrder(d, ds[0], ascending) {
      assert r[1..] == ds;
      forall e | e in ds
        ensures InOrder(d, e, ascending)
      {
        assert e == ds[0] || e in ds[1..];
      }
    } else {
      InsertSorts(ds[1..], d, ascending);
      assert r[1..] == Insert(ds[1..], d, ascending);
      forall e | e in r[1..]
        ensures InOrder(r[0], e, ascending)
      {
        InsertIn(ds[1..], d, ascending, e);
      }
    }
  }

  lemma {:induction false} FirstOfSorted(ds: seq<Device>, was: seq<Device>, ascending: bool)
    requires Sorted(ds, ascending) && multiset(ds) == multiset(was) && ds != []
    ensures if ascending then Smallest(was, ds[0]) else Largest(was, ds[0])
  {
    SameElements(ds, was);
    assert ds == [ds[0]] + ds[1..];
  }

  ghost predicate SameDevices(ds: seq<Device>, was: seq<Device>) {
    |ds| == |was| && forall e :: e in ds <==> e in was
  }

  lemma {:induction false} SameElements(ds: seq<Device>, was: seq<Device>)
    requires multiset(ds) == multiset(was)
    ensures SameDevices(ds, was)
  {
    assert |multiset(ds)| == |multiset(was)|;
    forall e
      ensures e in ds <==> e in was
    {
      assert e in multiset(ds) <==> e in multiset(was);
    }
  }

  lemma {:induction false} FilterStep(all: seq<Device>, rule: Rule, i: nat, kept: seq<Device>)
    requires i < |all| && kept + Filter(all[i..], rule) == Filter(all, rule)
    ensures (if Keeps(rule, all[i]) then kept + [all[i]] else kept) + Filter(all[i + 1..], rule) == Filter(all, rule)
  {
    assert all[i..][1..] == all[i + 1..];
  }

  lemma {:induction false} SameFiltered(ds: seq<Device>, was: seq<Device>, rule: Rule)
    requires multiset(ds) == multiset(was)
    ensures SameDevices(Filter(ds, rule), Filter(was, rule))
  {
    forall d: Device
      ensures multiset(Filter(ds, rule))[d] == multiset(Filter(was, rule))[d]
    {
      FilterCounts(ds, rule, d);
      FilterCounts(was, rule, d);
    }
    SameElements(Filter(ds, rule), Filter(was, rule));
  }

  lemma {:induction false} SameBulk(others: seq<Device>, was: seq<Device>, root: string, r: Choice)
    requires SelectsBulk(others, root, r) && SameDevices(others, was)
    ensures SelectsBulk(was, root, r)
  {
    if others != [] {
      assert others[0] in was;
      var bulk :| Largest(others, bulk) && r == Chosen(root, bulk.path);
      assert Largest(was, bulk);
    }
  }

  /** A loop that appends the devices a rule keeps to a new slice. */
  method Gather(ds: seq<Device>, rule: Rule) returns (s: Slice)
    ensures fresh(s) && s.items == Filter(ds, rule)
  {
    s := new Slice();
    for i := 0 to |ds|
      invariant fresh(s) && s.items + Filter(ds[i..], rule) == Filter(ds, rule)
    {
      FilterStep(ds, rule, i, s.items);
      if Keeps(rule, ds[i]) { s.Append(ds[i]); }
    }
  }

  /** Where nothing else is left, `pool` is the slice of candidates itself, and sorting it
      reorders what the last loop goes through. */
  method SelectDisksFrom(all: seq<Device>, exclude: string) returns (r: Choice)
    ensures Selects(all, exclude, r)
  {
    var candidates := Gather(all, Wanted(exclude));
    ghost var cs := candidates.items;
    if |candidates.items| < 2 { return TooFew(|candidates.items|); }

    var nonRotational := Gather(candidates.items, NotSpinning);
    var pool := candidates;
    if |nonRotational.items| > 0 { pool := nonRotational; }
    pool.SortBySize(true);
    SameElements(candidates.items, cs);
    SameElements(pool.items, Pool(cs));
    FirstOfSorted(pool.items, Pool(cs), true);
    ghost var first := pool.items[0];
    var root := pool.items[0].path;

    r := SelectBulk(candidates, root);
    SameFiltered(candidates.items, cs, NotAt(root));
    SameBulk(Others(candidates.items, root), Others(cs, root), root, r);
    assert Smallest(Pool(cs), first) && first.path == root;
  }

  method SelectBulk(candidates: Slice, root: string) returns (r: Choice)
    ensures SelectsBulk(Others(candidates.items, root), root, r)
  {
    var others := Gather(candidates.items, NotAt(root));
    ghost var ds := others.items;
    others.SortBySize(false);
    SameElements(others.items, ds);
    if |others.items| == 0 { return OutOfRange; }
    FirstOfSorted(others.items, ds, false);
    r := Chosen(root, others.items[0].path);
  }

  // ---- keeping away from the boot device ----

  /** The name to exclude, by the first device with the name that carries the label. */
  function Excluded(all: seq<Device>, boot: string): Option<string> {
    if all == [] then None
    else if all[0].name != boot then Excluded(all[1..], boot)
    else if all[0].kind == "disk" then Some(all[0].name)
    else Some(all[0].parent)
  }

  method BootDiskName(all: seq<Device>, boot: string) returns (r: Option<string>)
    ensures r == Excluded(all, boot)
  {
    for i := 0 to |all|
      invariant Excluded(all, boot) == Excluded(all[i..], boot)
    {
      assert all[i..][1..] == all[i + 1..];
      if all[i].name == boot {
        return Some(if all[i].kind == "disk" then all[i].name else all[i].parent);
      }
    }
    r := None;
  }

  ghost predicate UniqueNames(all: seq<Device>) {
    forall i, j :: 0 <= i < j < |all| ==> all[i].name != all[j].name
  }

  ghost predicate UniquePaths(all: seq<Device>) {
    forall i, j :: 0 <= i < j < |all| ==> all[i].path != all[j].path
  }

  lemma {:induction false} ExcludedIs(all: seq<Device>, b: Device)
    requires b in all && UniqueNames(all)
    ensures Excluded(all, b.name) == Some(if b.kind == "disk" then b.name else b.parent)
  {
    if all[0] == b || all[0].name == b.name {
      var k :| 0 <= k < |all| && all[k] == b;
      assert k == 0;
    } else {
      ExcludedIs(all[1..], b);
    }
  }

  /** Selection is refused exactly where no device of the listing has the name. */
  lemma {:induction false} ExcludedNoneIff(all: seq<Device>, boot: string)
    ensures Excluded(all, boot).None? <==> forall d :: d in all ==> d.name != boot
  {
    if all != [] {
      assert all[0] in all;
      ExcludedNoneIff(all[1..], boot);
      assert forall d :: d in all <==> d == all[0] || d in all[1..];
    }
  }

  /** With the boot device left out no candidate is that device; and one is its parent
      only where the label sits on a device that is itself a disk. */
  lemma {:induction false} BootExclusion(all: seq<Device>, b: Device, p: Device)
    requires UniqueNames(all) && b in all && b.name != "" && p in all && p != b
    requires p.name == b.parent && b.parent != ""
    ensures var exclude := Excluded(all, b.name);
      && exclude.Some?
      && b !in Candidates(all, exclude.value)
      && (p in Candidates(all, exclude.value) <==>
            p.kind == "disk" && p.size > 0 && !p.readOnly && b.kind == "disk")
  {
    ExcludedIs(all, b);
    var exclude := Excluded(all, b.name).value;
    FilterIn(all, Wanted(exclude));
    assert p.name != b.name by {
      var i, j :| 0 <= i < |all| && 0 <= j < |all| && all[i] == p && all[j] == b;
      assert i < j || j < i;
    }
  }

  // ---- what a choice promises ----

  /** There is always an outcome. */
  lemma {:induction false} SomeOutcome(all: seq<Device>, exclude: string) returns (r: Choice)
    ensures Selects(all, exclude, r)
  {
    var cs := Candidates(all, exclude);
    if |cs| < 2 { return TooFew(|cs|); }
    var root := Extreme(Pool(cs), true);
    var others := Others(cs, root.path);
    if others == [] {
      r := OutOfRange;
    } else {
      var bulk := Extreme(others, false);
      r := Chosen(root.path, bulk.path);
    }
    assert SelectsBulk(others, root.path, r);
  }

  lemma {:induction false} Extreme(ds: seq<Device>, ascending: bool) returns (d: Device)
    requires ds != []
    ensures if ascending then Smallest(ds, d) else Largest(ds, d)
  {
    d := ds[0];
    if |ds| > 1 {
      var e := Extreme(ds[1..], ascending);
      if !InOrder(d, e, ascending) { d := e; }
      assert forall x :: x in ds <==> x == ds[0] || x in ds[1..];
    }
  }

  /** The index runs out of range exactly where there are two or more candidates and
      all of them have one path. */
  lemma {:induction false} OutOfRangeIff(all: seq<Device>, exclude: string, r: Choice)
    requires Selects(all, exclude, r)
    ensures var cs := Candidates(all, exclude);
      r.OutOfRange? <==> |cs| >= 2 && forall d, e :: d in cs && e in cs ==> d.path == e.path
  {
    var cs := Candidates(all, exclude);
    if |cs| >= 2 {
      var root :| Smallest(Pool(cs), root) && SelectsBulk(Others(cs, root.path), root.path, r);
      FilterIn(cs, NotSpinning);
      FilterIn(cs, NotAt(root.path));
      if r.Chosen? {
        assert Others(cs, root.path)[0] in Others(cs, root.path);
      } else {
        assert forall d :: d in cs ==> d !in Others(cs, root.path);
      }
    }
  }

  lemma {:induction false} TwoApart(all: seq<Device>, exclude: string)
    requires UniquePaths(all) && |Candidates(all, exclude)| >= 2
    ensures var cs := Candidates(all, exclude); cs[0].path != cs[1].path
  {
    CandidatesApart(all, exclude);
  }

  lemma {:induction false} CandidatesApart(all: seq<Device>, exclude: string)
    requires UniquePaths(all)
    ensures UniquePaths(Candidates(all, exclude))
  {
    if all != [] {
      var rest := Candidates(all[1..], exclude);
      CandidatesApart(all[1..], exclude);
      FilterIn(all[1..], Wanted(exclude));
      assert forall d :: d in rest ==> d.path != all[0].path by {
        forall d | d in rest
          ensures d.path != all[0].path
        {
          var k :| 0 <= k < |all[1..]| && all[1..][k] == d;
        }
      }
    }
  }

  /** A listing with unique paths: two disks come out just where there are two candidates,
      and otherwise the failure tells how many there were. */
  lemma {:induction false} ChosenIff(all: seq<Device>, exclude: string, r: Choice)
    requires UniquePaths(all) && Selects(all, exclude, r)
    ensures var n := |Candidates(all, exclude)|;
      if n >= 2 then r.Chosen? else r == TooFew(n)
  {
    OutOfRangeIff(all, exclude, r);
    if |Candidates(all, exclude)| >= 2 { TwoApart(all, exclude); }
  }

  /** The root disk is the smallest that does not spin, or the smallest where all do. */
  ghost predicate BestRoot(cs: seq<Device>, root: Device) {
    && root in cs
    && forall d :: d in cs ==>
         if d.rotational == root.rotational then root.size <= d.size else !root.rotational
  }

  /** The bulk disk is the largest of the rest. */
  ghost predicate BestBulk(cs: seq<Device>, root: Device, bulk: Device) {
    && bulk in cs && bulk.path != root.path
    && forall d :: d in cs && d.path != root.path ==> d.size <= bulk.size
  }

  ghost predicate BestPair(cs: seq<Device>, root: string, bulk: string, d: Device, e: Device) {
    d.path == root && e.path == bulk && BestRoot(cs, d) && BestBulk(cs, d, e)
  }

  /** The disks come out exactly when they are the best there are. */
  lemma {:induction false} BestChoiceIff(all: seq<Device>, exclude: string, root: string, bulk: string)
    ensures Selects(all, exclude, Chosen(root, bulk))
       <==> var cs := Candidates(all, exclude);
            |cs| >= 2 && exists d, e :: BestPair(cs, root, bulk, d, e)
  {
    var cs := Candidates(all, exclude);
    FilterIn(cs, NotSpinning);
    forall d: Device
      ensures Smallest(Pool(cs), d) <==> BestRoot(cs, d)
    {
      if NonRotational(cs) != [] { assert NonRotational(cs)[0] in NonRotational(cs); }
    }
    FilterIn(cs, NotAt(root));
    if Selects(all, exclude, Chosen(root, bulk)) && |cs| >= 2 {
      var d :| Smallest(Pool(cs), d) && SelectsBulk(Others(cs, d.path), d.path, Chosen(root, bulk));
      var e :| Largest(Others(cs, root), e) && e.path == bulk;
      assert BestPair(cs, root, bulk, d, e);
    }
    if |cs| >= 2 && exists d, e :: BestPair(cs, root, bulk, d, e) {
      var d, e :| BestPair(cs, root, bulk, d, e);
      assert Largest(Others(cs, root), e);
      assert SelectsBulk(Others(cs, root), root, Chosen(root, bulk));
    }
  }

  /** A choice made with the boot device left out gives two different disks of the
      listing, writable and not empty, neither the device with the label nor, where that is not a
      disk itself, its parent. */
  lemma {:induction false} SafeChoice(all: seq<Device>, b: Device, r: Choice)
    requires UniqueNames(all) && UniquePaths(all) && b in all && b.name != ""
    requires Excluded(all, b.name).Some? && Selects(all, Excluded(all, b.name).value, r) && r.Chosen?
    ensures exists d, e :: d in all && e in all && d.path == r.root && e.path == r.bulk && SafePair(b, d, e)
    ensures forall d :: d in all && (d.path == r.root || d.path == r.bulk) ==>
        d.kind == "disk" && d.size > 0 && !d.readOnly && d != b
  {
    ExcludedIs(all, b);
    var exclude := Excluded(all, b.name).value;
    var cs := Candidates(all, exclude);
    FilterIn(all, Wanted(exclude));
    BestChoiceIff(all, exclude, r.root, r.bulk);
    var d, e :| BestPair(cs, r.root, r.bulk, d, e);
    assert d in all && e in all && SafePair(b, d, e);
    forall x | x in all && (x.path == r.root || x.path == r.bulk)
      ensures Usable(x) && x != b
    {
      SamePath(all, x, if x.path == r.root then d else e);
    }
  }

  predicate SafePair(b: Device, d: Device, e: Device) {
    && d.kind == e.kind == "disk" && d.size > 0 && e.size > 0 && !d.readOnly && !e.readOnly
    && d != e && d.path != e.path
    && d.name != b.name && e.name != b.name
    && (b.kind != "disk" && b.parent != "" ==> d.name != b.parent && e.name != b.parent)
  }

  lemma {:induction false} SamePath(all: seq<Device>, d: Device, e: Device)
    requires UniquePaths(all) && d in all && e in all && d.path == e.path
    ensures d == e
  {
    var i, j :| 0 <= i < |all| && 0 <= j < |all| && all[i] == d && all[j] == e;
    assert !(i < j) && !(j < i);
  }

  lemma {:induction false} FilterCons(d: Device, ds: seq<Device>, rule: Rule)
    ensures Filter([d] + ds, rule) == (if Keeps(rule, d) then [d] else []) + Filter(ds, rule)
  {
    assert ([d] + ds)[1..] == ds;
  }

  lemma {:induction false} FilterNone(rule: Rule)
    ensures Filter([], rule) == []
  {
  }

  /** A disk that carries the label and has a parent of its own: the parent can be chosen. */
  lemma {:induction false} ParentOfLabelledDisk()
    ensures var p := Device("p", "/dev/p", 1, "disk", false, false, "");
      var b := Device("b", "/dev/b", 9, "disk", false, false, "p");
      var q := Device("q", "/dev/q", 2, "disk", false, false, "");
      var all := [p, b, q];
      UniqueNames(all) && UniquePaths(all) && Excluded(all, b.name) == Some(b.name)
      && Selects(all, b.name, Chosen(p.path, q.path))
  {
    hide Selects, Filter, Excluded;
    var p := Device("p", "/dev/p", 1, "disk", false, false, "");
    var b := Device("b", "/dev/b", 9, "disk", false, false, "p");
    var q := Device("q", "/dev/q", 2, "disk", false, false, "");
    var all := [p, b, q];
    ExcludedIs(all, b);
    assert Candidates(all, "b") == [p, q] by {
      FilterCons(q, [], Wanted("b"));
      FilterCons(b, [q], Wanted("b"));
      FilterCons(p, [b, q], Wanted("b"));
      FilterNone(Wanted("b"));
      assert all == [p] + [b, q] && [b, q] == [b] + [q] && [q] == [q] + [];
    }
    assert BestPair([p, q], "/dev/p", "/dev/q", p, q);
    BestChoiceIff(all, "b", "/dev/p", "/dev/q");
  }

  /** The order of the listing does not matter: nor, then, does it that sorting the pool
      reorders the candidates where the two are one slice. */
  lemma {:induction false} OrderIrrelevant(all: seq<Device>, other: seq<Device>, exclude: string, r: Choice)
    requires multiset(all) == multiset(other)
    ensures Selects(all, exclude, r) <==> Selects(other, exclude, r)
  {
    if Selects(all, exclude, r) { SelectsReordered(all, other, exclude, r); }
    if Selects(other, exclude, r) { SelectsReordered(other, all, exclude, r); }
  }

  lemma {:induction false} SelectsReordered(all: seq<Device>, other: seq<Device>, exclude: string, r: Choice)
    requires multiset(all) == multiset(other) && Selects(all, exclude, r)
    ensures Selects(other, exclude, r)
  {
    var cs, ds := Candidates(all, exclude), Candidates(other, exclude);
    SameFiltered(all, other, Wanted(exclude));
    if |cs| >= 2 {
      OutOfRangeIff(all, exclude, r);
      if r.Chosen? {
        BestChoiceIff(all, exclude, r.root, r.bulk);
        var d, e :| BestPair(cs, r.root, r.bulk, d, e);
        assert BestPair(ds, r.root, r.bulk, d, e);
        BestChoiceIff(other, exclude, r.root, r.bulk);
      } else {
        var s := SomeOutcome(other, exclude);
        OutOfRangeIff(other, exclude, s);
      }
    }
  }

  /** Where no two candidates have the same size, there is one outcome only. */
  lemma {:induction false} OneOutcome(all: seq<Device>, exclude: string, r: Choice, s: Choice)
    requires Selects(all, exclude, r) && Selects(all, exclude, s)
    requires var cs := Candidates(all, exclude);
      forall d, e :: d in cs && e in cs && d.size == e.size ==> d == e
    ensures r == s
  {
    hide Filter;
    OutOfRangeIff(all, exclude, r);
    OutOfRangeIff(all, exclude, s);
    if r.Chosen? && s.Chosen? { OneChoice(all, exclude, r, s); }
  }

  lemma {:induction false} OneChoice(all: seq<Device>, exclude: string, r: Choice, s: Choice)
    requires Selects(all, exclude, r) && Selects(all, exclude, s) && r.Chosen? && s.Chosen?
    requires var cs := Candidates(all, exclude);
      forall d, e :: d in cs && e in cs && d.size == e.size ==> d == e
    ensures r == s
  {
    hide Candidates, Selects;
    var cs := Candidates(all, exclude);
    BestChoiceIff(all, exclude, r.root, r.bulk);
    BestChoiceIff(all, exclude, s.root, s.bulk);
    var d, e :| BestPair(cs, r.root, r.bulk, d, e);
    var f, g :| BestPair(cs, s.root, s.bulk, f, g);
    assert d == f && e == g;
  }

  // ---- from the listing and the label to the two disks ----

  method SelectDisks(all: seq<Device>, boot: Option<string>) returns (r: Option<Choice>)
    ensures r == None <==> boot.None? || Excluded(all, boot.value).None?
    ensures r.Some? ==> Selects(all, Excluded(all, boot.value).value, r.value)
  {
    if boot.None? { return None; }
    var exclude := BootDiskName(all, boot.value);
    if exclude.None? { return None; }
    var choice := SelectDisksFrom(all, exclude.value);
    r := Some(choice);
  }
}
