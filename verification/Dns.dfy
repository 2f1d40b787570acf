/** Reconciling a DNS zone with the appliance's records against one snapshot read up front. */
module Dns {
  import opened Wrappers

  datatype Kind = A | MX | TXT | OtherKind(code: string)

  /** A record as the code writes it; its id is the server's to give. */
  datatype Desired = Desired(kind: Kind, name: string, content: string, proxied: bool, priority: Option<int>) {
    function Key(): (Kind, string, Option<int>) { (kind, name, priority) }
  }

  datatype Record = Record(id: nat, ttl: int, rec: Desired)

  /** The zone as the server holds it. Ids below `nextId` have been given out. */
  datatype Zone = Zone(records: seq<Record>, nextId: nat)

  ghost predicate Valid(z: Zone) {
    && (forall i :: 0 <= i < |z.records| ==> z.records[i].id < z.nextId)
    && (forall i, j :: 0 <= i < j < |z.records| ==> z.records[i].id != z.records[j].id)
  }

  // ---- the server ----

  /** PUT replaces the record with that id, keeping the id and its place. */
  function Put(records: seq<Record>, id: nat, d: Desired): (r: seq<Record>)
    ensures |r| == |records|
    ensures forall i :: 0 <= i < |r| ==> r[i] == if records[i].id == id then Record(id, 1, d) else records[i]
  {
    if records == [] then []
    else [if records[0].id == id then Record(id, 1, d) else records[0]] + Put(records[1..], id, d)
  }

  /** POST adds a record under a new id. */
  function Post(z: Zone, d: Desired): Zone {
    Zone(z.records + [Record(z.nextId, 1, d)], z.nextId + 1)
  }

  // ---- one upsert ----

  /** Index of the first record with the key of `d`, or |records|. */
  function Find(records: seq<Record>, d: Desired): (i: nat)
    ensures i <= |records|
  {
    if records == [] || records[0].rec.Key() == d.Key() then 0 else 1 + Find(records[1..], d)
  }

  lemma {:induction false} FindIs(records: seq<Record>, d: Desired)
    ensures var i := Find(records, d);
      && (i < |records| ==> records[i].rec.Key() == d.Key())
      && forall j :: 0 <= j < i ==> records[j].rec.Key() != d.Key()
  {
    if records != [] && records[0].rec.Key() != d.Key() { FindIs(records[1..], d); }
  }

  lemma {:induction false} FindUnique(records: seq<Record>, d: Desired, i: nat)
    requires i <= |records| && (i < |records| ==> records[i].rec.Key() == d.Key())
    requires forall j :: 0 <= j < i ==> records[j].rec.Key() != d.Key()
    ensures Find(records, d) == i
  {
    FindIs(records, d);
  }

  predicate Satisfies(r: Record, d: Desired) { r.rec.content == d.content && r.rec.proxied == d.proxied }

  /** upsert: decide by the snapshot, act on the zone. */
  function Upserted(snapshot: seq<Record>, z: Zone, d: Desired): Zone {
    var i := Find(snapshot, d);
    if i == |snapshot| then Post(z, d)
    else if Satisfies(snapshot[i], d) then z
    else z.(records := Put(z.records, snapshot[i].id, d))
  }

  /** Sync's calls of upsert, in order, all with the one snapshot. */
  function Upserts(snapshot: seq<Record>, z: Zone, ds: seq<Desired>): Zone
    decreases |ds|
  {
    if ds == [] then z else Upserts(snapshot, Upserted(snapshot, z, ds[0]), ds[1..])
  }

  function Synced(z: Zone, ds: seq<Desired>): Zone { Upserts(z.records, z, ds) }

  /** The same, reading the zone again before each upsert. */
  function SyncRereading(z: Zone, ds: seq<Desired>): Zone
    decreases |ds|
  {
    if ds == [] then z else SyncRereading(Upserted(z.records, z, ds[0]), ds[1..])
  }

  /** The requests that change the zone. */
  function Writes(snapshot: seq<Record>, ds: seq<Desired>): nat
    decreases |ds|
  {
    if ds == [] then 0
    else
      var i := Find(snapshot, ds[0]);
      (if i < |snapshot| && Satisfies(snapshot[i], ds[0]) then 0 else 1) + Writes(snapshot, ds[1..])
  }

  ghost predicate DistinctKeys(ds: seq<Desired>) {
    forall i, j :: 0 <= i < j < |ds| ==> ds[i].Key() != ds[j].Key()
  }

  /** The zone has `d`: its first record of that key has the content and proxied flag. */
  predicate Has(z: Zone, d: Desired) {
    var i := Find(z.records, d);
    i < |z.records| && Satisfies(z.records[i], d)
  }

  // ---- one upsert on a zone just read ----

  lemma {:induction false} UpsertMeans(z: Zone, d: Desired)
    requires Valid(z)
    ensures var i := Find(z.records, d);
      var u := Upserted(z.records, z, d);
      && Valid(u)
      && (i == |z.records| ==> u.records == z.records + [Record(z.nextId, 1, d)])
      && (i < |z.records| && Satisfies(z.records[i], d) ==> u == z)
      && (i < |z.records| && !Satisfies(z.records[i], d) ==>
            u.nextId == z.nextId && u.records == z.records[i := Record(z.records[i].id, 1, d)])
  {
  }

  /** Afterwards the zone has the record, and nothing else about it has changed:
      other keys find the same record in the same place. */
  lemma {:induction false} UpsertEffect(z: Zone, d: Desired, e: Desired)
    requires Valid(z)
    ensures var u := Upserted(z.records, z, d);
      && Has(u, d)
      && |z.records| <= |u.records|
      && (forall j :: 0 <= j < |z.records| && j != Find(z.records, d) ==> u.records[j] == z.records[j])
      && (e.Key() != d.Key() ==>
            var i := Find(z.records, e);
            if i < |z.records| then Find(u.records, e) == i && u.records[i] == z.records[i]
            else Find(u.records, e) == |u.records|)
  {
    UpsertMeans(z, d);
    FindIs(z.records, d);
    FindIs(z.records, e);
    var u := Upserted(z.records, z, d);
    FindUnique(u.records, d, Find(z.records, d));
    if e.Key() != d.Key() {
      var i := Find(z.records, e);
      FindUnique(u.records, e, if i < |z.records| then i else |u.records|);
    }
  }

  /** What the snapshot says about `e` is still so. */
  predicate Current(snapshot: seq<Record>, z: Zone, e: Desired) {
    var i, j := Find(snapshot, e), Find(z.records, e);
    if i < |snapshot| then j < |z.records| && z.records[j] == snapshot[i] else j == |z.records|
  }

  /** One stale snapshot is as good as reading the zone before every upsert. */
  lemma {:induction false} StaleIsFresh(snapshot: seq<Record>, z: Zone, ds: seq<Desired>)
    requires Valid(z) && DistinctKeys(ds)
    requires forall e :: e in ds ==> Current(snapshot, z, e)
    ensures Upserts(snapshot, z, ds) == SyncRereading(z, ds)
    decreases |ds|
  {
    if ds != [] {
      var d, rest := ds[0], ds[1..];
      var u := Upserted(z.records, z, d);
      assert Current(snapshot, z, d);
      assert Upserted(snapshot, z, d) == u;
      UpsertMeans(z, d);
      forall e | e in rest
        ensures Current(snapshot, u, e)
      {
        var k :| 0 <= k < |rest| && rest[k] == e;
        assert ds[k + 1] == e;
        assert Current(snapshot, z, e);
        UpsertEffect(z, d, e);
      }
      StaleIsFresh(snapshot, u, rest);
    }
  }

  lemma {:induction false} SyncIsRereading(z: Zone, ds: seq<Desired>)
    requires Valid(z) && DistinctKeys(ds)
    ensures Synced(z, ds) == SyncRereading(z, ds)
  {
    StaleIsFresh(z.records, z, ds);
  }

  // ---- a whole run ----

  lemma {:induction false} OthersKept(z: Zone, ds: seq<Desired>, e: Desired)
    requires Valid(z) && forall d :: d in ds ==> d.Key() != e.Key()
    ensures var u := SyncRereading(z, ds);
      Valid(u) && |z.records| <= |u.records| && Current(z.records, u, e)
    decreases |ds|
  {
    if ds != [] {
      assert ds[0] in ds;
      UpsertMeans(z, ds[0]);
      UpsertEffect(z, ds[0], e);
      OthersKept(Upserted(z.records, z, ds[0]), ds[1..], e);
    }
  }

  /** After a run the zone has every desired record. */
  lemma {:induction false} Converges(z: Zone, ds: seq<Desired>)
    requires Valid(z) && DistinctKeys(ds)
    ensures var u := Synced(z, ds);
      Valid(u) && forall d :: d in ds ==> Has(u, d)
    decreases |ds|
  {
    SyncIsRereading(z, ds);
    if ds != [] {
      var d, rest := ds[0], ds[1..];
      var u := Upserted(z.records, z, d);
      UpsertMeans(z, d);
      UpsertEffect(z, d, d);
      Converges(u, rest);
      SyncIsRereading(u, rest);
      OthersKept(u, rest, d);
    }
  }

  /** A record that is not the first of a desired key keeps its place, its id and all
      it holds: records of other keys, and later duplicates. */
  lemma {:induction false} OthersUnchanged(z: Zone, ds: seq<Desired>, j: nat)
    requires Valid(z) && DistinctKeys(ds)
    requires j < |z.records| && forall d :: d in ds ==> Find(z.records, d) != j
    ensures var u := Synced(z, ds);
      j < |u.records| && u.records[j] == z.records[j]
    decreases |ds|
  {
    SyncIsRereading(z, ds);
    if ds != [] {
      var d, rest := ds[0], ds[1..];
      var u := Upserted(z.records, z, d);
      assert d in ds;
      UpsertMeans(z, d);
      UpsertEffect(z, d, d);
      forall e | e in rest
        ensures Find(u.records, e) != j
      {
        var k :| 0 <= k < |rest| && rest[k] == e;
        assert ds[k + 1] == e;
        UpsertEffect(z, d, e);
      }
      OthersUnchanged(u, rest, j);
      SyncIsRereading(u, rest);
    }
  }

  /** What a run adds are desired records whose key the zone did not have. */
  lemma {:induction false} OnlyMissingAdded(z: Zone, ds: seq<Desired>, j: nat)
    requires Valid(z) && DistinctKeys(ds) && |z.records| <= j < |Synced(z, ds).records|
    ensures exists d :: d in ds && Find(z.records, d) == |z.records| && Synced(z, ds).records[j].rec == d
    decreases |ds|
  {
    hide Upserts, Upserted, Put, Find, Satisfies;
    SyncIsRereading(z, ds);
    if ds != [] {
      var d, rest := ds[0], ds[1..];
      var u := Upserted(z.records, z, d);
      UpsertMeans(z, d);
      UpsertEffect(z, d, d);
      SyncIsRereading(u, rest);
      if j < |u.records| {
        assert d in ds && u.records[j].rec == d;
        forall e | e in rest
          ensures Find(u.records, e) != j
        {
          FindIs(u.records, e);
        }
        OthersUnchanged(u, rest, j);
      } else {
        OnlyMissingAdded(u, rest, j);
        var e :| e in rest && Find(u.records, e) == |u.records| && Synced(u, rest).records[j].rec == e;
        var k :| 0 <= k < |rest| && rest[k] == e;
        assert ds[k + 1] == e;
        UpsertEffect(z, d, e);
      }
    }
  }

  /** Where every record is already there, a run changes nothing and sends no write. */
  lemma {:induction false} NothingToDo(z: Zone, ds: seq<Desired>)
    requires forall d :: d in ds ==> Has(z, d)
    ensures Upserts(z.records, z, ds) == z && Writes(z.records, ds) == 0
    decreases |ds|
  {
    if ds != [] {
      assert ds[0] in ds;
      NothingToDo(z, ds[1..]);
    }
  }

  /** A second run right after the first sends no write and leaves the zone alone. */
  lemma {:induction false} SecondRunIdle(z: Zone, ds: seq<Desired>)
    requires Valid(z) && DistinctKeys(ds)
    ensures var u := Synced(z, ds);
      Synced(u, ds) == u && Writes(u.records, ds) == 0
  {
    Converges(z, ds);
    NothingToDo(Synced(z, ds), ds);
  }

  lemma {:induction false} RereadingAppend(z: Zone, a: seq<Desired>, b: seq<Desired>)
    ensures SyncRereading(z, a + b) == SyncRereading(SyncRereading(z, a), b)
    decreases |a|
  {
    if a == [] {
      assert a + b == b;
    } else {
      assert (a + b)[1..] == a[1..] + b;
      RereadingAppend(Upserted(z.records, z, a[0]), a[1..], b);
    }
  }

  /** A run that stopped after any number of upserts, completed by a later run, ends in
      the same zone, ids included, as one run that was never interrupted. */
  lemma {:induction false} ResumesAfterStop(z: Zone, ds: seq<Desired>, k: nat)
    requires Valid(z) && DistinctKeys(ds) && k <= |ds|
    ensures Synced(Synced(z, ds[..k]), ds) == Synced(z, ds)
  {
    var done, todo := ds[..k], ds[k..];
    assert done + todo == ds;
    Converges(z, done);
    var u := Synced(z, done);
    SyncIsRereading(z, ds);
    SyncIsRereading(z, done);
    SyncIsRereading(u, ds);
    NothingToDo(u, done);
    SyncIsRereading(u, done);
    RereadingAppend(u, done, todo);
    RereadingAppend(z, done, todo);
  }

  /** The zone after runs that stopped after these numbers of upserts. */
  function AfterStops(z: Zone, ds: seq<Desired>, ks: seq<nat>): Zone
    requires forall i :: 0 <= i < |ks| ==> ks[i] <= |ds|
    decreases |ks|
  {
    if ks == [] then z else AfterStops(Synced(z, ds[..ks[0]]), ds, ks[1..])
  }

  /** Any number of stopped runs and then one that completes: the same zone again. */
  lemma {:induction false} ResumesAfterStops(z: Zone, ds: seq<Desired>, ks: seq<nat>)
    requires Valid(z) && DistinctKeys(ds) && forall i :: 0 <= i < |ks| ==> ks[i] <= |ds|
    ensures Synced(AfterStops(z, ds, ks), ds) == Synced(z, ds)
    decreases |ks|
  {
    if ks != [] {
      Converges(z, ds[..ks[0]]);
      ResumesAfterStops(Synced(z, ds[..ks[0]]), ds, ks[1..]);
      ResumesAfterStop(z, ds, ks[0]);
    }
  }

  // ---- the same, field by field ----

  /** Type, name and priority, by which a record is recognised. */
  predicate Alike(a: Desired, b: Desired) { a.kind == b.kind && a.name == b.name && a.priority == b.priority }

  /** The `i`-th record is the first of that type, name and priority; or, at the end, there is none. */
  predicate FirstAlike(records: seq<Record>, d: Desired, i: nat) {
    && i <= |records| && (i < |records| ==> Alike(records[i].rec, d))
    && forall j :: 0 <= j < i ==> !Alike(records[j].rec, d)
  }

  lemma {:induction false} FindFirstAlike(records: seq<Record>, d: Desired)
    ensures FirstAlike(records, d, Find(records, d))
  {
    FindIs(records, d);
  }

  /** One upsert: a record that is missing is added under a new id; the first of its type,
      name and priority is left alone where content and proxied flag are right, and otherwise
      replaced in its place and under its id; and that takes one write, none, or one. */
  lemma {:induction false} UpsertByField(z: Zone, d: Desired, i: nat)
    requires Valid(z) && FirstAlike(z.records, d, i)
    ensures var u, writes := Upserted(z.records, z, d), Writes(z.records, [d]);
      if i == |z.records| then u == Zone(z.records + [Record(z.nextId, 1, d)], z.nextId + 1) && writes == 1
      else
        var r := z.records[i];
        if r.rec.content == d.content && r.rec.proxied == d.proxied then u == z && writes == 0
        else u == Zone(z.records[i := Record(r.id, 1, d)], z.nextId) && writes == 1
  {
    FindUnique(z.records, d, i);
    UpsertMeans(z, d);
    assert [d][1..] == [];
  }

  /** After a run the first record of a desired one's type, name and priority has its content
      and its proxied flag. */
  lemma {:induction false} ConvergesByField(z: Zone, ds: seq<Desired>, d: Desired) returns (i: nat)
    requires Valid(z) && d in ds
    requires forall j, k :: 0 <= j < k < |ds| ==> !Alike(ds[j], ds[k])
    ensures var records := Synced(z, ds).records;
      && i < |records| && FirstAlike(records, d, i)
      && records[i].rec.content == d.content && records[i].rec.proxied == d.proxied
  {
    Converges(z, ds);
    var u := Synced(z, ds);
    assert Has(u, d);
    i := Find(u.records, d);
    FindFirstAlike(u.records, d);
  }

  /** A record that differs from every desired one in type, name or priority, or is not the
      first of its kind, keeps its place and all it holds. */
  lemma {:induction false} UntouchedByField(z: Zone, ds: seq<Desired>, j: nat)
    requires Valid(z) && forall h, k :: 0 <= h < k < |ds| ==> !Alike(ds[h], ds[k])
    requires j < |z.records| && forall d :: d in ds ==> !FirstAlike(z.records, d, j)
    ensures var records := Synced(z, ds).records;
      j < |records| && records[j] == z.records[j]
  {
    forall d | d in ds
      ensures Find(z.records, d) != j
    {
      FindFirstAlike(z.records, d);
    }
    OthersUnchanged(z, ds, j);
  }

  /** So an exchanger of another priority, say, is not touched. */
  lemma {:induction false} OtherPriorityKept(z: Zone, ds: seq<Desired>, j: nat)
    requires Valid(z) && forall h, k :: 0 <= h < k < |ds| ==> !Alike(ds[h], ds[k])
    requires j < |z.records| && forall d :: d in ds ==> d.priority != z.records[j].rec.priority
    ensures var records := Synced(z, ds).records;
      j < |records| && records[j] == z.records[j]
  {
    UntouchedByField(z, ds, j);
  }

  // ---- the appliance's records ----

  const SUBDOMAINS := ["mail", "vault", "photos", "auth", "locker", "api"]

  function SubdomainRecord(sub: string, domain: string, ip: string): Desired {
    Desired(A, sub + "." + domain, ip, true, None)
  }

  function FixedRecords(domain: string, ip: string): seq<Desired> {
    [ Desired(A, "smtp." + domain, ip, false, None),
      Desired(MX, domain, "smtp." + domain, false, Some(10)),
      Desired(TXT, domain, "v=spf1 mx ~all", false, None) ]
  }

  function DmarcRecords(domain: string, alertEmail: string): seq<Desired> {
    if alertEmail == "" then []
    else [Desired(TXT, "_dmarc." + domain, "v=DMARC1; p=quarantine; rua=mailto:" + alertEmail, false, None)]
  }

  function SubdomainRecords(domain: string, ip: string): (r: seq<Desired>)
    ensures |r| == |SUBDOMAINS|
  {
    seq(|SUBDOMAINS|, i requires 0 <= i < |SUBDOMAINS| => SubdomainRecord(SUBDOMAINS[i], domain, ip))
  }

  function Records(domain: string, ip: string, alertEmail: string): seq<Desired> {
    SubdomainRecords(domain, ip) + FixedRecords(domain, ip) + DmarcRecords(domain, alertEmail)
  }

  /** One by one: addresses behind the proxy for six hosts, one that is not for mail, the
      mail exchanger, the sender policy, and reports where there is an address for them. */
  lemma {:induction false} RecordsAre(domain: string, ip: string, alertEmail: string)
    ensures Records(domain, ip, alertEmail)
         == [ Desired(A, "mail." + domain, ip, true, None), Desired(A, "vault." + domain, ip, true, None),
              Desired(A, "photos." + domain, ip, true, None), Desired(A, "auth." + domain, ip, true, None),
              Desired(A, "locker." + domain, ip, true, None), Desired(A, "api." + domain, ip, true, None),
              Desired(A, "smtp." + domain, ip, false, None),
              Desired(MX, domain, "smtp." + domain, false, Some(10)),
              Desired(TXT, domain, "v=spf1 mx ~all", false, None) ]
            + if alertEmail == "" then []
              else [ Desired(TXT, "_dmarc." + domain, "v=DMARC1; p=quarantine; rua=mailto:" + alertEmail, false, None) ]
  {
    SubdomainIs(0, "mail.", domain, ip);
    SubdomainIs(1, "vault.", domain, ip);
    SubdomainIs(2, "photos.", domain, ip);
    SubdomainIs(3, "auth.", domain, ip);
    SubdomainIs(4, "locker.", domain, ip);
    SubdomainIs(5, "api.", domain, ip);
    hide SubdomainRecords;
    var rs := SubdomainRecords(domain, ip);
    assert rs == [rs[0], rs[1], rs[2], rs[3], rs[4], rs[5]];
  }

  lemma {:induction false} SubdomainIs(i: nat, host: string, domain: string, ip: string)
    requires i < |SUBDOMAINS| && host == SUBDOMAINS[i] + "."
    ensures SubdomainRecords(domain, ip)[i] == Desired(A, host + domain, ip, true, None)
  {
  }

  lemma {:induction false} PrefixesDiffer(a: string, b: string, domain: string)
    requires a != b
    ensures a + domain != b + domain
  {
    assert (a + domain)[..|a|] == a;
    assert (b + domain)[..|b|] == b;
    assert |a + domain| == |a| + |domain| && |b + domain| == |b| + |domain|;
  }

  /** Whatever the domain, no two of the appliance's records share a key. */
  lemma {:induction false} RecordsDistinct(domain: string, ip: string, alertEmail: string)
    ensures DistinctKeys(Records(domain, ip, alertEmail))
  {
    var ds := Records(domain, ip, alertEmail);
    forall i, j | 0 <= i < j < |ds|
      ensures ds[i].Key() != ds[j].Key()
    {
      if j <= 6 {
        var names := ["mail.", "vault.", "photos.", "auth.", "locker.", "api.", "smtp."];
        NameOf(domain, ip, alertEmail, i);
        NameOf(domain, ip, alertEmail, j);
        PrefixesDiffer(names[i], names[j], domain);
      }
    }
  }

  lemma {:induction false} NameOf(domain: string, ip: string, alertEmail: string, i: nat)
    requires i <= 6
    ensures Records(domain, ip, alertEmail)[i].name
         == ["mail.", "vault.", "photos.", "auth.", "locker.", "api.", "smtp."][i] + domain
  {
    if i < 6 {
      var name := SUBDOMAINS[i] + "." + domain;
      assert name == (SUBDOMAINS[i] + ".") + domain;
      assert Records(domain, ip, alertEmail)[i] == SubdomainRecord(SUBDOMAINS[i], domain, ip);
    }
  }

  // ---- as written: requests one at a time, any of which may fail ----

  class Server {
    var zone: Zone
    var writes: nat
    ghost var failures: nat

    constructor (zone: Zone)
      ensures this.zone == zone && writes == 0 && failures == 0
    {
      this.zone := zone;
      writes := 0;
      failures := 0;
    }

    /** A write that may be lost before it is applied, or applied and its answer lost. */
    method Request(effect: Zone) returns (ok: bool)
      modifies this
      ensures writes == old(writes) + 1
      ensures zone == effect || (!ok && zone == old(zone))
      ensures failures == if ok then old(failures) else old(failures) + 1
    {
      writes := writes + 1;
      var applied: bool := *;
      var answered: bool := *;
      if applied { zone := effect; }
      ok := applied && answered;
      if !ok { failures := failures + 1; }
    }

    method Upsert(existing: seq<Record>, d: Desired) returns (ok: bool)
      modifies this
      ensures zone == Upserted(existing, old(zone), d) || (!ok && zone == old(zone))
      ensures writes == old(writes) + Writes(existing, [d])
      ensures failures == if ok then old(failures) else old(failures) + 1
    {
      for i := 0 to |existing|
        invariant forall j :: 0 <= j < i ==> existing[j].rec.Key() != d.Key()
        invariant zone == old(zone) && writes == old(writes) && failures == old(failures)
      {
        if existing[i].rec.Key() == d.Key() {
          FindUnique(existing, d, i);
          if Satisfies(existing[i], d) { return true; }
          ok := Request(zone.(records := Put(zone.records, existing[i].id, d)));
          return;
        }
      }
      FindUnique(existing, d, |existing|);
      ok := Request(Post(zone, d));
    }

    /** Sync from the snapshot on: a loop over the subdomains, then the rest one by one,
        giving up at the first failure. `tried` upserts were made, and all of them, or all
        but the last, took effect: `k`. */
    method Sync(domain: string, ip: string, alertEmail: string) returns (ok: bool, ghost k: nat, ghost tried: nat)
      modifies this
      ensures var ds := Records(domain, ip, alertEmail);
        && k <= tried <= |ds| && tried <= k + 1
        && zone == Synced(old(zone), ds[..k])
        && writes == old(writes) + Writes(old(zone).records, ds[..tried])
        && (ok ==> k == tried == |ds|)
      ensures failures == if ok then old(failures) else old(failures) + 1
    {
      hide Writes, Upserts, Upserted;
      ghost var ds := Records(domain, ip, alertEmail);
      var existing := zone.records;
      NothingYet(zone, ds);
      k, tried := 0, 0;
      for i := 0 to |SUBDOMAINS|
        invariant k == tried == i && zone == Synced(old(zone), ds[..k])
        invariant writes == old(writes) + Writes(existing, ds[..tried]) && failures == old(failures)
      {
        ok := Upsert(existing, SubdomainRecord(SUBDOMAINS[i], domain, ip));
        OneMore(old(zone), existing, ds, k);
        tried := tried + 1;
        if zone == Synced(old(zone), ds[..k + 1]) { k := k + 1; }
        if !ok { return; }
      }
      var others := FixedRecords(domain, ip) + DmarcRecords(domain, alertEmail);
      for i := 0 to |others|
        invariant k == tried == |SUBDOMAINS| + i && zone == Synced(old(zone), ds[..k])
        invariant writes == old(writes) + Writes(existing, ds[..tried]) && failures == old(failures)
      {
        ok := Upsert(existing, others[i]);
        OneMore(old(zone), existing, ds, k);
        tried := tried + 1;
        if zone == Synced(old(zone), ds[..k + 1]) { k := k + 1; }
        if !ok { return; }
      }
      ok := true;
    }
  }

  lemma {:induction false} NothingYet(z: Zone, ds: seq<Desired>)
    ensures Synced(z, ds[..0]) == z && Writes(z.records, ds[..0]) == 0
  {
  }

  lemma {:induction false} OneMore(z: Zone, existing: seq<Record>, ds: seq<Desired>, k: nat)
    requires k < |ds| && existing == z.records
    ensures Synced(z, ds[..k + 1]) == Upserted(existing, Synced(z, ds[..k]), ds[k])
    ensures Writes(existing, ds[..k + 1]) == Writes(existing, ds[..k]) + Writes(existing, [ds[k]])
  {
    assert ds[..k + 1] == ds[..k] + [ds[k]];
    UpsertsAppend(existing, z, ds[..k], ds[k]);
    WritesAppend(existing, ds[..k], ds[k]);
  }

  lemma {:induction false} UpsertsAppend(snapshot: seq<Record>, z: Zone, ds: seq<Desired>, d: Desired)
    ensures Upserts(snapshot, z, ds + [d]) == Upserted(snapshot, Upserts(snapshot, z, ds), d)
    decreases |ds|
  {
    if ds == [] {
      assert ds + [d] == [d];
    } else {
      assert (ds + [d])[1..] == ds[1..] + [d];
      UpsertsAppend(snapshot, Upserted(snapshot, z, ds[0]), ds[1..], d);
    }
  }

  lemma {:induction false} WritesAppend(snapshot: seq<Record>, ds: seq<Desired>, d: Desired)
    ensures Writes(snapshot, ds + [d]) == Writes(snapshot, ds) + Writes(snapshot, [d])
    decreases |ds|
  {
    if ds == [] {
      assert ds + [d] == [d];
    } else {
      assert (ds + [d])[1..] == ds[1..] + [d];
      WritesAppend(snapshot, ds[1..], d);
    }
  }
}
