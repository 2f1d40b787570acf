/** `slfhst setup`, run any number of times, each run failing at any step or none: capturing
    the configuration once, and making podman secrets out of it. */
module Setup {
  import opened Wrappers
  import opened Config
  import Dns
  import Template

  // ---- the state that outlives a run ----

  datatype State = State(file: File, secrets: map<string, string>, stage1: bool, stage2: bool)

  const SECRET_KEYS: seq<Key> :=
    [VaultwardenAdminToken, PostgresPassword, GarageRpcSecret, GarageAdminToken, StalwartAdminPassword]

  const FILE_SECRET_KEYS: seq<Key> := [EnteEncryptionKey, EnteEncryptionHashKey, EnteJwtSecret]

  predicate IsSecret(key: Key) {
    match key
    case VaultwardenAdminToken | PostgresPassword | GarageRpcSecret | GarageAdminToken | StalwartAdminPassword => true
    case _ => false
  }

  predicate IsFileSecret(key: Key) {
    key.EnteEncryptionKey? || key.EnteEncryptionHashKey? || key.EnteJwtSecret?
  }

  lemma {:induction false} KeysListed(key: Key)
    ensures IsSecret(key) <==> exists i :: 0 <= i < |SECRET_KEYS| && SECRET_KEYS[i] == key
    ensures IsFileSecret(key) <==> exists i :: 0 <= i < |FILE_SECRET_KEYS| && FILE_SECRET_KEYS[i] == key
  {
    var ks, fs := SECRET_KEYS, FILE_SECRET_KEYS;
    assert key == ks[0] || key == ks[1] || key == ks[2] || key == ks[3] || key == ks[4] || !IsSecret(key);
    assert key == fs[0] || key == fs[1] || key == fs[2] || !IsFileSecret(key);
  }

  /** The entries that have a podman secret. */
  const PODMAN_KEYS: set<Key> :=
    {CloudflareToken, VaultwardenAdminToken, PostgresPassword, GarageRpcSecret, GarageAdminToken, StalwartAdminPassword}

  function SecretName(key: Key): string {
    match key
    case CloudflareToken => "cf_api_token"
    case VaultwardenAdminToken => "vaultwarden_admin_token"
    case PostgresPassword => "postgres_password"
    case GarageRpcSecret => "garage_rpc_secret"
    case GarageAdminToken => "garage_admin_token"
    case StalwartAdminPassword => "stalwart_recovery_admin"
    case _ => ""
  }

  lemma {:induction false} NamesDistinct(k: Key, l: Key)
    requires k in PODMAN_KEYS && l in PODMAN_KEYS && SecretName(k) == SecretName(l)
    ensures k == l
  {
    var n, m := SecretName(k), SecretName(l);
    assert |n| == |m| && n[0] == m[0] && n[7] == m[7];
  }

  /** Stalwart wants its recovery account as "user:password". */
  function Transform(key: Key, value: string): string {
    if key == StalwartAdminPassword then "admin:" + value else value
  }

  lemma {:induction false} TransformSaved(key: Key, value: string)
    ensures Saved(Transform(key, value)) == Transform(key, Saved(value))
  {
    SavedAfterAscii("admin:", value);
  }

  /** The secrets made for `keys` out of `cfg`. */
  function Made(cfg: Cfg, keys: set<Key>): map<string, string>
    requires keys <= PODMAN_KEYS
  {
    NamesAllDistinct();
    map key | key in keys && Get(cfg, key) != "" :: SecretName(key) := Transform(key, Get(cfg, key))
  }

  lemma {:induction false} NamesAllDistinct()
    ensures forall k, l :: k in PODMAN_KEYS && l in PODMAN_KEYS && SecretName(k) == SecretName(l) ==> k == l
  {
    forall k, l | k in PODMAN_KEYS && l in PODMAN_KEYS && SecretName(k) == SecretName(l)
      ensures k == l
    {
      NamesDistinct(k, l);
    }
  }

  // ---- what a run may do ----

  predicate AskedFirst(key: Key) { key.Domain? || key.AlertEmail? || key.CloudflareToken? }

  predicate Same(before: Cfg, after: Cfg, key: Key) {
    (key in after <==> key in before) && (key in after ==> after[key] == before[key])
  }

  /** `typed` is `before` with everything the wizard asks for or generates. */
  ghost predicate Captured(before: Cfg, typed: Cfg) {
    forall key: Key ::
      if key.OtherKey? then Same(before, typed, key)
      else if IsFileSecret(key) && key in before then Same(before, typed, key)
      else Get(typed, key) != ""
  }

  datatype Step =
    | Wizard | Firewall | UpdateCheck | Secrets | Render | Deploy | Backing | DnsRecords | HealthCheck | Mark

  const STEPS: seq<Step> :=
    [Wizard, Firewall, UpdateCheck, Secrets, Render, Deploy, Backing, DnsRecords, HealthCheck, Mark]

  /** The steps that a run attempted, and how each went. */
  type Log = seq<(Step, bool)>

  /** One run: the configuration it tried to save, if it came to that; the one the
      wizard gave back, if it did; the keys whose secrets it saw to; its log and result. */
  datatype Trace = Trace(typed: Option<Cfg>, cfg: Option<Cfg>, keys: set<Key>, log: Log, ok: bool)

  const REFUSED := Trace(None, None, {}, [], false)

  /** A failed update check is the only failure that does not end a run. */
  predicate GoesOn(entry: (Step, bool)) { entry.1 || entry.0 == UpdateCheck }

  /** The first steps, in order, none of which ended the run. */
  predicate Going(log: Log) {
    |log| <= |STEPS| && forall i :: 0 <= i < |log| ==> log[i].0 == STEPS[i] && GoesOn(log[i])
  }

  /** The log of a run that is over: all the steps, or those up to the one that ended it. */
  predicate Over(log: Log, ok: bool) {
    && log != []
    && var last := |log| - 1;
       && Going(log[..last]) && last < |STEPS| && log[last].0 == STEPS[last]
       && (ok ==> |log| == |STEPS|) && ok == GoesOn(log[last])
  }

  /** The wizard, from file `f` to file `g`: it gives back `r`, having tried to save `typed`. */
  ghost predicate WizardStep(f: File, g: File, r: Option<Cfg>, typed: Option<Cfg>) {
    if f.Torn? || Get(Loaded(f).value, Domain) != "" then
      && g == f && typed.None?
      && (r.Some? ==> Loaded(f) == r)
    else match typed
      case None => g == f && r.None?
      case Some(cfg) =>
        && Captured(Loaded(f).value, cfg)
        && (g == f || g == Torn || g == Holds(SavedCfg(cfg)))
        && (r.Some? ==> r == typed && g == Holds(SavedCfg(cfg)))
  }

  ghost predicate RunStep(s: State, run: Trace, t: State) {
    && t.stage1 == s.stage1
    && run.keys <= PODMAN_KEYS
    && (!s.stage1 ==> t == s && run == REFUSED)
    && (s.stage1 ==> WizardStep(s.file, t.file, run.cfg, run.typed) && Over(run.log, run.ok))
    && (s.stage1 ==> run.cfg.Some? == run.log[0].1)
    && (run.keys != {} ==> |run.log| >= 4)
    && (|run.log| > 4 ==> run.keys == PODMAN_KEYS)
    && (run.cfg.None? ==> run.keys == {} && t.secrets == s.secrets)
    && (run.cfg.Some? ==> t.secrets == Made(run.cfg.value, run.keys) + s.secrets)
    && (s.stage2 ==> t.stage2)
    && (t.stage2 && !s.stage2 ==> |run.log| == |STEPS|)
    && (run.ok ==> t.stage2)
  }

  /** States before and after each of the runs, in order. */
  ghost predicate History(states: seq<State>, runs: seq<Trace>) {
    && |states| == |runs| + 1
    && forall i :: 0 <= i < |runs| ==> RunStep(states[i], runs[i], states[i + 1])
  }

  // ---- what holds between runs ----

  predicate HasDomain(f: File) { f.Holds? && Get(f.cfg, Domain) != "" }

  ghost predicate Complete(cfg: Cfg) {
    forall key: Key :: !key.OtherKey? ==> Get(cfg, key) != ""
  }

  /** Every secret there is would be read back from the file as the configuration has it. */
  predicate FromConfig(secrets: map<string, string>, cfg: Cfg) {
    forall key :: key in PODMAN_KEYS && SecretName(key) in secrets ==>
      Saved(secrets[SecretName(key)]) == Transform(key, Get(cfg, key))
  }

  predicate NoSecrets(secrets: map<string, string>) {
    forall key :: key in PODMAN_KEYS ==> SecretName(key) !in secrets
  }

  predicate AllSecrets(secrets: map<string, string>) {
    forall key :: key in PODMAN_KEYS ==> SecretName(key) in secrets
  }

  ghost predicate NoFileSecrets(f: File) {
    f.Holds? ==> forall key :: key in f.cfg ==> !IsFileSecret(key)
  }

  /** As the installer leaves the machine. */
  ghost predicate Fresh(s: State) {
    !HasDomain(s.file) && NoFileSecrets(s.file) && NoSecrets(s.secrets) && !s.stage2
  }

  ghost predicate Consistent(s: State) {
    && (s.stage2 ==> s.stage1 && HasDomain(s.file) && AllSecrets(s.secrets))
    && if HasDomain(s.file) then Complete(s.file.cfg) && FromConfig(s.secrets, s.file.cfg) else Fresh(s)
  }

  // ---- one run ----

  lemma {:induction false} CapturedIsComplete(before: Cfg, typed: Cfg)
    requires Captured(before, typed) && forall key :: key in before ==> !IsFileSecret(key)
    ensures Complete(typed) && Complete(SavedCfg(typed))
  {
    forall key
      ensures Get(typed, key) != "" ==> Get(SavedCfg(typed), key) != ""
    {
      GetSaved(typed, key);
      SavedIs(Get(typed, key));
    }
  }

  /** Without a fresh start: the file's own secrets come out nonempty exactly where each was
      missing from the configuration or a nonempty string in it already. */
  lemma {:induction false} FileSecretsIff(before: Cfg, typed: Cfg)
    requires Captured(before, typed)
    ensures Complete(typed)
       <==> forall key :: key in before && IsFileSecret(key) ==> Get(before, key) != ""
  {
    assert forall key :: IsFileSecret(key) && key in before ==> Get(typed, key) == Get(before, key);
  }

  lemma {:induction false} SecretsAfter(s: State, run: Trace, t: State, key: Key)
    requires RunStep(s, run, t) && key in PODMAN_KEYS
    ensures var name := SecretName(key);
      && (name in t.secrets <==>
            name in s.secrets || (run.cfg.Some? && key in run.keys && Get(run.cfg.value, key) != ""))
      && (name in s.secrets ==> t.secrets[name] == s.secrets[name])
      && (name in t.secrets && name !in s.secrets ==> t.secrets[name] == Transform(key, Get(run.cfg.value, key)))
  {
    NamesAllDistinct();
    var name := SecretName(key);
    if run.cfg.Some? {
      var made := Made(run.cfg.value, run.keys);
      assert key in run.keys && Get(run.cfg.value, key) != "" ==> name in made;
    }
  }

  /** A run that got past a step had the wizard's configuration. */
  lemma {:induction false} PastWizard(s: State, run: Trace, t: State)
    requires RunStep(s, run, t) && |run.log| > 1
    ensures run.cfg.Some?
  {
    var log := run.log;
    assert GoesOn(log[..|log| - 1][0]);
  }

  /** What the wizard gave back is what the file holds, up to the writing. */
  lemma {:induction false} GivenBack(s: State, run: Trace, t: State)
    requires Consistent(s) && RunStep(s, run, t) && run.cfg.Some?
    ensures HasDomain(t.file) && Complete(t.file.cfg) && Complete(run.cfg.value)
    ensures if HasDomain(s.file) then run.cfg.value == t.file.cfg && t.file == s.file
            else run.cfg == run.typed && t.file.cfg == SavedCfg(run.cfg.value)
  {
    if !HasDomain(s.file) { CapturedIsComplete(Loaded(s.file).value, run.typed.value); }
  }

  /** Secrets come from what the wizard gave back, and so from what the file holds. */
  lemma {:induction false} SecretFromConfig(s: State, run: Trace, t: State, key: Key)
    requires Consistent(s) && RunStep(s, run, t) && ConfigIsSaved(s)
    requires HasDomain(t.file) && key in PODMAN_KEYS && SecretName(key) in t.secrets
    ensures Saved(t.secrets[SecretName(key)]) == Transform(key, Get(t.file.cfg, key))
  {
    SecretsAfter(s, run, t, key);
    if SecretName(key) !in s.secrets {
      GivenBack(s, run, t);
      var value := Get(run.cfg.value, key);
      TransformSaved(key, value);
      GetSaved(run.cfg.value, key);
      SavedIs(Get(t.file.cfg, key));
    }
  }

  /** A configuration that was read back from a file. */
  ghost predicate ConfigIsSaved(s: State) {
    s.file.Holds? ==> forall key :: IsUtf8(Get(s.file.cfg, key))
  }

  lemma {:induction false} ConfigStaysSaved(s: State, run: Trace, t: State)
    requires ConfigIsSaved(s) && RunStep(s, run, t)
    ensures ConfigIsSaved(t)
  {
    if t.file != s.file && t.file.Holds? {
      forall key
        ensures IsUtf8(Get(t.file.cfg, key))
      {
        GetSaved(run.typed.value, key);
        SavedIs(Get(run.typed.value, key));
      }
    }
  }

  lemma {:induction false} CompleteAfter(s: State, run: Trace, t: State)
    requires Consistent(s) && RunStep(s, run, t)
    ensures if HasDomain(t.file) then Complete(t.file.cfg) else Fresh(t)
  {
    if run.cfg.Some? {
      GivenBack(s, run, t);
    } else if HasDomain(t.file) && !HasDomain(s.file) {
      CapturedIsComplete(Loaded(s.file).value, run.typed.value);
    } else if !HasDomain(t.file) && run.typed.Some? && t.file.Holds? && t.file != s.file {
      CapturedIsComplete(Loaded(s.file).value, run.typed.value);
    }
  }

  lemma {:induction false} FromConfigAfter(s: State, run: Trace, t: State)
    requires Consistent(s) && ConfigIsSaved(s) && RunStep(s, run, t) && HasDomain(t.file)
    ensures FromConfig(t.secrets, t.file.cfg)
  {
    hide RunStep, Consistent, ConfigIsSaved;
    forall key | key in PODMAN_KEYS && SecretName(key) in t.secrets
      ensures Saved(t.secrets[SecretName(key)]) == Transform(key, Get(t.file.cfg, key))
    {
      SecretFromConfig(s, run, t, key);
    }
  }

  lemma {:induction false} DoneAfter(s: State, run: Trace, t: State)
    requires Consistent(s) && RunStep(s, run, t)
    ensures t.stage2 ==> t.stage1 && HasDomain(t.file) && AllSecrets(t.secrets)
  {
    if !t.stage2 { return; }
    hide Complete, WizardStep, FromConfig, Fresh;
    RunKeeps(s, run, t);
    if !s.stage2 { PastWizard(s, run, t); }
    if run.cfg.Some? { GivenBack(s, run, t); }
    forall key | key in PODMAN_KEYS
      ensures SecretName(key) in t.secrets
    {
      SecretsAfter(s, run, t, key);
      if !s.stage2 { CompleteGet(run.cfg.value, key); }
    }
  }

  /** Every run, however it ends, keeps the state consistent. */
  lemma {:induction false} RunKeepsConsistent(s: State, run: Trace, t: State)
    requires Consistent(s) && ConfigIsSaved(s) && RunStep(s, run, t)
    ensures Consistent(t) && ConfigIsSaved(t)
  {
    hide RunStep, FromConfig, AllSecrets, Complete, Fresh;
    ConfigStaysSaved(s, run, t);
    CompleteAfter(s, run, t);
    if HasDomain(t.file) { FromConfigAfter(s, run, t); }
    DoneAfter(s, run, t);
  }

  /** Once captured, the configuration stays; and what is done stays done. */
  lemma {:induction false} RunKeeps(s: State, run: Trace, t: State)
    requires RunStep(s, run, t)
    ensures HasDomain(s.file) || s.file.Torn? ==> t.file == s.file
    ensures s.stage2 ==> t.stage2
    ensures t.stage1 == s.stage1
  {
  }

  /** After a run that succeeded, nothing a later run does changes anything. */
  lemma {:induction false} NothingLeftToDo(s: State, run: Trace, t: State)
    requires Consistent(s) && s.stage2 && RunStep(s, run, t)
    ensures t == s
  {
    hide Complete, FromConfig, WizardStep, Captured;
    RunKeeps(s, run, t);
    if run.cfg.Some? {
      var made := Made(run.cfg.value, run.keys);
      assert forall name :: name in made ==> name in s.secrets;
      assert made + s.secrets == s.secrets;
    }
  }

  /** From a file that was cut off while it was written no run gets anywhere. */
  lemma {:induction false} TornForEver(s: State, run: Trace, t: State)
    requires s.file.Torn? && !s.stage2 && RunStep(s, run, t)
    ensures t == s && !run.ok
  {
    if |run.log| > 1 { PastWizard(s, run, t); }
  }

  // ---- any number of runs ----

  lemma {:induction false} Always(states: seq<State>, runs: seq<Trace>, i: nat)
    requires History(states, runs) && Fresh(states[0]) && ConfigIsSaved(states[0]) && i <= |runs|
    ensures Consistent(states[i]) && ConfigIsSaved(states[i])
  {
    if i > 0 {
      Always(states, runs, i - 1);
      RunKeepsConsistent(states[i - 1], runs[i - 1], states[i]);
    }
  }

  /** From a fresh install: a domain means that no secret is missing, and stage2 that stage1
      was done, the configuration captured and every podman secret made. */
  lemma {:induction false} DomainMeansComplete(states: seq<State>, runs: seq<Trace>, i: nat)
    requires History(states, runs) && Fresh(states[0]) && ConfigIsSaved(states[0]) && i <= |runs|
    ensures var s := states[i];
      && (HasDomain(s.file) ==> Complete(s.file.cfg))
      && (!HasDomain(s.file) ==> NoSecrets(s.secrets))
      && (s.stage2 ==> s.stage1 && HasDomain(s.file) && AllSecrets(s.secrets))
  {
    Always(states, runs, i);
  }

  /** The marker of the second stage is there only if some run attempted every step and
      none but the update check, or at last the marking itself, failed. */
  lemma {:induction false} DoneMeansAllSteps(states: seq<State>, runs: seq<Trace>, i: nat) returns (j: nat)
    requires History(states, runs) && !states[0].stage2 && i <= |runs| && states[i].stage2
    ensures j < i && |runs[j].log| == |STEPS| && Going(runs[j].log[..|STEPS| - 1])
  {
    j := i - 1;
    if states[j].stage2 {
      j := DoneMeansAllSteps(states, runs, j);
    } else {
      assert RunStep(states[j], runs[j], states[i]);
    }
  }

  /** No later run changes a captured configuration or a secret that has been made. */
  lemma {:induction false} NeverChanges(states: seq<State>, runs: seq<Trace>, i: nat, j: nat, key: Key)
    requires History(states, runs) && i <= j <= |runs| && key in PODMAN_KEYS
    ensures HasDomain(states[i].file) ==> states[j].file == states[i].file
    ensures var name := SecretName(key);
      name in states[i].secrets ==> name in states[j].secrets && states[j].secrets[name] == states[i].secrets[name]
  {
    if i < j {
      NeverChanges(states, runs, i, j - 1, key);
      SecretsAfter(states[j - 1], runs[j - 1], states[j], key);
    }
  }

  lemma {:induction false} TransformInjective(key: Key, v: string, w: string)
    ensures Transform(key, v) == Transform(key, w) <==> v == w
  {
    var prefix := "admin:";
    assert (prefix + v)[|prefix|..] == v && (prefix + w)[|prefix|..] == w;
  }

  /** A secret made in a run equals what the configuration then says if and only if that was
      captured before the run, or what the operator typed is valid UTF-8. */
  lemma {:induction false} NewSecretMatchesIff(s: State, run: Trace, t: State, key: Key)
    requires Consistent(s) && ConfigIsSaved(s) && RunStep(s, run, t) && key in PODMAN_KEYS
    requires SecretName(key) in t.secrets && SecretName(key) !in s.secrets
    ensures HasDomain(t.file) && (HasDomain(s.file) || run.typed.Some?)
    ensures t.secrets[SecretName(key)] == Transform(key, Get(t.file.cfg, key))
       <==> HasDomain(s.file) || IsUtf8(Get(run.typed.value, key))
  {
    SecretsAfter(s, run, t, key);
    GivenBack(s, run, t);
    var value := Get(run.cfg.value, key);
    GetSaved(run.cfg.value, key);
    SavedIs(value);
    TransformInjective(key, value, Get(t.file.cfg, key));
  }

  /** Every secret there is was made in some run. */
  lemma {:induction false} MadeInSomeRun(states: seq<State>, runs: seq<Trace>, i: nat, key: Key) returns (j: nat)
    requires History(states, runs) && NoSecrets(states[0].secrets) && i <= |runs|
    requires key in PODMAN_KEYS && SecretName(key) in states[i].secrets
    ensures j < i && SecretName(key) !in states[j].secrets && SecretName(key) in states[j + 1].secrets
  {
    j := i - 1;
    if SecretName(key) in states[j].secrets { j := MadeInSomeRun(states, runs, j, key); }
  }

  /** And so after any further runs: a secret made in the j-th run equals what the
      configuration now says if and only if that was captured before the j-th run, or what
      the operator typed in it is valid UTF-8. */
  lemma {:induction false} SecretMatchesIff(states: seq<State>, runs: seq<Trace>, j: nat, i: nat, key: Key)
    requires History(states, runs) && Fresh(states[0]) && ConfigIsSaved(states[0]) && j < i <= |runs|
    requires key in PODMAN_KEYS
    requires SecretName(key) !in states[j].secrets && SecretName(key) in states[j + 1].secrets
    ensures HasDomain(states[i].file) && SecretName(key) in states[i].secrets
    ensures HasDomain(states[j].file) || runs[j].typed.Some?
    ensures states[i].secrets[SecretName(key)] == Transform(key, Get(states[i].file.cfg, key))
       <==> HasDomain(states[j].file) || IsUtf8(Get(runs[j].typed.value, key))
  {
    hide RunStep, Consistent, ConfigIsSaved;
    Always(states, runs, j);
    NewSecretMatchesIff(states[j], runs[j], states[j + 1], key);
    NeverChanges(states, runs, j + 1, i, key);
  }

  predicate TypedUtf8(run: Trace) {
    run.typed.Some? ==> forall key :: key in PODMAN_KEYS ==> IsUtf8(Get(run.typed.value, key))
  }

  predicate Matches(s: State) {
    HasDomain(s.file) ==>
      forall key :: key in PODMAN_KEYS && SecretName(key) in s.secrets ==>
        s.secrets[SecretName(key)] == Transform(key, Get(s.file.cfg, key))
  }

  lemma {:induction false} SecretMatches(s: State, run: Trace, t: State, key: Key)
    requires Consistent(s) && ConfigIsSaved(s) && RunStep(s, run, t) && Matches(s) && TypedUtf8(run)
    requires HasDomain(t.file) && key in PODMAN_KEYS && SecretName(key) in t.secrets
    ensures t.secrets[SecretName(key)] == Transform(key, Get(t.file.cfg, key))
  {
    SecretsAfter(s, run, t, key);
    if SecretName(key) !in s.secrets {
      GivenBack(s, run, t);
      GetSaved(run.cfg.value, key);
      SavedIs(Get(run.cfg.value, key));
    } else {
      RunKeeps(s, run, t);
    }
  }

  /** Where the operator types valid UTF-8, every secret there is equals what the
      configuration says, after any runs, whatever the order the secrets were made in. */
  lemma {:induction false} SecretsMatch(states: seq<State>, runs: seq<Trace>, i: nat)
    requires History(states, runs) && Fresh(states[0]) && ConfigIsSaved(states[0]) && i <= |runs|
    requires forall j :: 0 <= j < i ==> TypedUtf8(runs[j])
    ensures Matches(states[i])
  {
    hide Consistent, ConfigIsSaved, RunStep;
    if i > 0 {
      SecretsMatch(states, runs, i - 1);
      Always(states, runs, i - 1);
      var s, run, t := states[i - 1], runs[i - 1], states[i];
      forall key | HasDomain(t.file) && key in PODMAN_KEYS && SecretName(key) in t.secrets
        ensures t.secrets[SecretName(key)] == Transform(key, Get(t.file.cfg, key))
      {
        SecretMatches(s, run, t, key);
      }
    }
  }

  /** So the secrets of a finished setup are a function of the captured configuration:
      which runs failed, and where, leaves no trace. */
  lemma {:induction false} FinishedSecrets(states: seq<State>, runs: seq<Trace>, i: nat, key: Key)
    requires History(states, runs) && Fresh(states[0]) && ConfigIsSaved(states[0]) && i <= |runs|
    requires (forall j :: 0 <= j < i ==> TypedUtf8(runs[j])) && states[i].stage2 && key in PODMAN_KEYS
    ensures HasDomain(states[i].file)
    ensures var name, made := SecretName(key), Made(states[i].file.cfg, PODMAN_KEYS);
      name in made && name in states[i].secrets && states[i].secrets[name] == made[name]
  {
    hide Captured, Complete, FromConfig, RunStep;
    SecretsMatch(states, runs, i);
    Always(states, runs, i);
    var cfg := states[i].file.cfg;
    assert Get(cfg, key) != "" by { CompleteGet(cfg, key); }
    MadeAt(cfg, PODMAN_KEYS, key);
  }

  lemma {:induction false} CompleteGet(cfg: Cfg, key: Key)
    requires Complete(cfg) && key in PODMAN_KEYS
    ensures Get(cfg, key) != ""
  {
  }

  lemma {:induction false} MadeAt(cfg: Cfg, keys: set<Key>, key: Key)
    requires key in keys && keys <= PODMAN_KEYS && Get(cfg, key) != ""
    ensures SecretName(key) in Made(cfg, keys) && Made(cfg, keys)[SecretName(key)] == Transform(key, Get(cfg, key))
  {
    NamesAllDistinct();
  }

  // ---- the secrets by their names ----

  const SECRET_NAMES: set<string> :=
    { "cf_api_token", "vaultwarden_admin_token", "postgres_password", "garage_rpc_secret", "garage_admin_token",
      "stalwart_recovery_admin" }

  /** The entry is there exactly where it is wanted, with that value. */
  predicate Holding(secrets: map<string, string>, name: string, wanted: bool, value: string) {
    (name in secrets <==> wanted) && (wanted ==> secrets[name] == value)
  }

  /** What is made is made under these names, and is what the configuration has; but
      Stalwart's is an account and a password. */
  lemma {:induction false} MadeByName(cfg: Cfg, keys: set<Key>)
    requires keys <= PODMAN_KEYS
    ensures var m := Made(cfg, keys);
      && m.Keys <= SECRET_NAMES
      && Holding(m, "cf_api_token", CloudflareToken in keys && Get(cfg, CloudflareToken) != "",
                 Get(cfg, CloudflareToken))
      && Holding(m, "vaultwarden_admin_token", VaultwardenAdminToken in keys && Get(cfg, VaultwardenAdminToken) != "",
                 Get(cfg, VaultwardenAdminToken))
      && Holding(m, "postgres_password", PostgresPassword in keys && Get(cfg, PostgresPassword) != "",
                 Get(cfg, PostgresPassword))
      && Holding(m, "garage_rpc_secret", GarageRpcSecret in keys && Get(cfg, GarageRpcSecret) != "",
                 Get(cfg, GarageRpcSecret))
      && Holding(m, "garage_admin_token", GarageAdminToken in keys && Get(cfg, GarageAdminToken) != "",
                 Get(cfg, GarageAdminToken))
      && Holding(m, "stalwart_recovery_admin", StalwartAdminPassword in keys && Get(cfg, StalwartAdminPassword) != "",
                 "admin:" + Get(cfg, StalwartAdminPassword))
  {
    hide Get, Made, Holding;
    MadeHolds(cfg, keys, CloudflareToken);
    MadeHolds(cfg, keys, VaultwardenAdminToken);
    MadeHolds(cfg, keys, PostgresPassword);
    MadeHolds(cfg, keys, GarageRpcSecret);
    MadeHolds(cfg, keys, GarageAdminToken);
    MadeHolds(cfg, keys, StalwartAdminPassword);
    MadeNames(cfg, keys);
  }

  lemma {:induction false} MadeHolds(cfg: Cfg, keys: set<Key>, key: Key)
    requires keys <= PODMAN_KEYS && key in PODMAN_KEYS
    ensures Holding(Made(cfg, keys), SecretName(key), key in keys && Get(cfg, key) != "", Transform(key, Get(cfg, key)))
  {
    NamesAllDistinct();
    if key in keys && Get(cfg, key) != "" { MadeAt(cfg, keys, key); }
    hide Get, Transform, SecretName, PODMAN_KEYS;
  }

  lemma {:induction false} MadeNames(cfg: Cfg, keys: set<Key>)
    requires keys <= PODMAN_KEYS
    ensures Made(cfg, keys).Keys <= SECRET_NAMES
  {
    assert forall key :: key in PODMAN_KEYS ==> SecretName(key) in SECRET_NAMES;
    hide Get, Transform, SecretName, PODMAN_KEYS;
  }

  /** A finished setup, whatever runs it took: the six secrets that the services ask for,
      each with its entry of the captured configuration, and no others but those that
      were there before. */
  lemma {:induction false} SecretsByName(states: seq<State>, runs: seq<Trace>, i: nat)
    requires History(states, runs) && Fresh(states[0]) && ConfigIsSaved(states[0]) && i <= |runs|
    requires (forall j :: 0 <= j < i ==> TypedUtf8(runs[j])) && states[i].stage2
    ensures HasDomain(states[i].file)
    ensures var cfg, secrets := states[i].file.cfg, states[i].secrets;
      && secrets.Keys == SECRET_NAMES + states[0].secrets.Keys
      && HasText(cfg, CloudflareToken, secrets["cf_api_token"])
      && HasText(cfg, VaultwardenAdminToken, secrets["vaultwarden_admin_token"])
      && HasText(cfg, PostgresPassword, secrets["postgres_password"])
      && HasText(cfg, GarageRpcSecret, secrets["garage_rpc_secret"])
      && HasText(cfg, GarageAdminToken, secrets["garage_admin_token"])
      && HasText(cfg, StalwartAdminPassword, Get(cfg, StalwartAdminPassword))
      && secrets["stalwart_recovery_admin"] == "admin:" + Get(cfg, StalwartAdminPassword)
  {
    hide RunStep, Fresh, ConfigIsSaved, TypedUtf8, Made, Get;
    FinishedSecrets(states, runs, i, CloudflareToken);
    FinishedSecrets(states, runs, i, VaultwardenAdminToken);
    FinishedSecrets(states, runs, i, PostgresPassword);
    FinishedSecrets(states, runs, i, GarageRpcSecret);
    FinishedSecrets(states, runs, i, GarageAdminToken);
    FinishedSecrets(states, runs, i, StalwartAdminPassword);
    OnlyThese(states, runs, i);
    DomainMeansComplete(states, runs, i);
    MadeByName(states[i].file.cfg, PODMAN_KEYS);
    AllText(states[i].file.cfg);
  }

  predicate HasText(cfg: Cfg, key: Key, s: string) { key in cfg && cfg[key] == Text(s) }

  lemma {:induction false} AllText(cfg: Cfg)
    requires Complete(cfg)
    ensures forall key: Key :: !key.OtherKey? ==> Get(cfg, key) != "" && HasText(cfg, key, Get(cfg, key))
  {
  }

  lemma {:induction false} OnlyThese(states: seq<State>, runs: seq<Trace>, i: nat)
    requires History(states, runs) && i <= |runs|
    ensures states[0].secrets.Keys <= states[i].secrets.Keys <= SECRET_NAMES + states[0].secrets.Keys
  {
    if i > 0 {
      OnlyThese(states, runs, i - 1);
      var run := runs[i - 1];
      assert RunStep(states[i - 1], run, states[i]);
      if run.cfg.Some? { MadeNames(run.cfg.value, run.keys); }
      hide Made, WizardStep, Over;
    }
  }

  /** Answers whose token has a byte that is no part of a character. */
  function StrayAnswers(): Cfg {
    map[
      Domain := Text("a.co"), AlertEmail := Text("b@a.co"), CloudflareToken := Text([0xFF as char]),
      VaultwardenAdminToken := Text("v"), PostgresPassword := Text("p"), GarageRpcSecret := Text("r"),
      GarageAdminToken := Text("g"), StalwartAdminPassword := Text("s"),
      EnteEncryptionKey := Text("k"), EnteEncryptionHashKey := Text("h"), EnteJwtSecret := Text("j")]
  }

  lemma {:induction false} StrayAnswersAre()
    ensures Captured(map[], StrayAnswers())
    ensures Get(StrayAnswers(), Domain) == "a.co" && Get(StrayAnswers(), CloudflareToken) == [0xFF as char]
  {
  }

  /** Such a file is left by a run whose save stopped half way, and counts as consistent. */
  lemma {:induction false} TornReached() returns (s: State, run: Trace, t: State)
    ensures Fresh(s) && RunStep(s, run, t) && t.file.Torn? && Consistent(t) && t.stage1
  {
    hide StrayAnswers, Captured, Get;
    StrayAnswersAre();
    EmptyCfg();
    s := State(Absent, map[], true, false);
    run := Trace(Some(StrayAnswers()), None, {}, [(Wizard, false)], false);
    t := State(Torn, map[], true, false);
    assert run.log[..0] == [];
  }

  /** A token typed with a stray byte: what podman holds is not what the file holds. */
  lemma {:induction false} StrayByteDiffers() returns (s: State, run: Trace, t: State)
    ensures Fresh(s) && ConfigIsSaved(s) && RunStep(s, run, t) && run.ok && HasDomain(t.file)
    ensures "cf_api_token" in t.secrets && t.secrets["cf_api_token"] != Get(t.file.cfg, CloudflareToken)
  {
    hide StrayAnswers, Captured, Made, SavedCfg, Get;
    StrayAnswersAre();
    var typed := StrayAnswers();
    s := State(Absent, map[], true, false);
    var log := seq(|STEPS|, i requires 0 <= i < |STEPS| => (STEPS[i], true));
    run := Trace(Some(typed), Some(typed), PODMAN_KEYS, log, true);
    t := State(Holds(SavedCfg(typed)), Made(typed, PODMAN_KEYS), true, true);
    EmptyCfg();
    assert t.secrets + s.secrets == t.secrets;
    GetSaved(typed, Domain);
    SavedIs("a.co");
    GetSaved(typed, CloudflareToken);
    SavedIs([0xFF as char]);
    assert !IsUtf8([0xFF as char]);
    MadeAt(typed, PODMAN_KEYS, CloudflareToken);
  }

  lemma {:induction false} EmptyCfg()
    ensures Get(map[], Domain) == ""
  {
  }

  // ---- what the templates are given ----

  function TemplateVars(cfg: Cfg): Option<map<string, string>> {
    var domain := Get(cfg, Domain);
    if domain == "" then None
    else Some(map[
      "DOMAIN" := domain,
      "MAIL_HOST" := "mail." + domain,
      "VAULT_HOST" := "vault." + domain,
      "PHOTOS_HOST" := "photos." + domain,
      "AUTH_HOST" := "auth." + domain,
      "LOCKER_HOST" := "locker." + domain,
      "API_HOST" := "api." + domain,
      "ALERT_EMAIL" := Get(cfg, AlertEmail),
      "POSTGRES_PASSWORD" := Get(cfg, PostgresPassword),
      "GARAGE_ADMIN_TOKEN" := Get(cfg, GarageAdminToken),
      "GARAGE_RPC_SECRET" := Get(cfg, GarageRpcSecret),
      "ENTE_ENCRYPTION_KEY" := Get(cfg, EnteEncryptionKey),
      "ENTE_ENCRYPTION_HASH_KEY" := Get(cfg, EnteEncryptionHashKey),
      "ENTE_JWT_SECRET" := Get(cfg, EnteJwtSecret)])
  }

  const TEMPLATE_NAMES: set<string> :=
    { "DOMAIN", "MAIL_HOST", "VAULT_HOST", "PHOTOS_HOST", "AUTH_HOST", "LOCKER_HOST", "API_HOST", "ALERT_EMAIL",
      "POSTGRES_PASSWORD", "GARAGE_ADMIN_TOKEN", "GARAGE_RPC_SECRET",
      "ENTE_ENCRYPTION_KEY", "ENTE_ENCRYPTION_HASH_KEY", "ENTE_JWT_SECRET" }

  /** Rendering in a run that has got past the wizard: every variable has a nonempty value,
      and a template that uses no other name expands. */
  lemma {:induction false} RenderingSucceeds(s: State, run: Trace, t: State, ps: seq<Template.Piece>)
    requires Consistent(s) && RunStep(s, run, t) && run.cfg.Some? && Template.WellFormed(ps)
    requires forall p :: p in ps && (p.Braced? || p.Bare?) ==> p.name in TEMPLATE_NAMES
    ensures var vars := TemplateVars(run.cfg.value);
      && vars.Some?
      && (forall name :: name in vars.value ==> vars.value[name] != "")
      && Template.StrictExpansion(Template.Print(ps), vars.value) == Template.Expanded(Template.Subst(ps, vars.value))
  {
    GivenBack(s, run, t);
    VarsAre(run.cfg.value);
    Template.StrictOnTemplates(ps, TemplateVars(run.cfg.value).value);
  }

  lemma {:induction false} VarsAre(cfg: Cfg)
    requires Complete(cfg)
    ensures var vars := TemplateVars(cfg);
      vars.Some? && vars.value.Keys == TEMPLATE_NAMES && forall name :: name in vars.value ==> vars.value[name] != ""
  {
    hide TemplateVars, TEMPLATE_NAMES;
    VarNames(cfg);
    VarValues(cfg);
    var vars := TemplateVars(cfg).value;
    assert forall name :: name in vars ==> vars[name] in vars.Values;
  }

  lemma {:induction false} VarValues(cfg: Cfg)
    requires Get(cfg, Domain) != "" && Get(cfg, AlertEmail) != "" && Get(cfg, PostgresPassword) != ""
    requires Get(cfg, GarageAdminToken) != "" && Get(cfg, GarageRpcSecret) != ""
    requires Get(cfg, EnteEncryptionKey) != "" && Get(cfg, EnteEncryptionHashKey) != "" && Get(cfg, EnteJwtSecret) != ""
    ensures forall value :: value in TemplateVars(cfg).value.Values ==> value != ""
  {
    hide Get;
  }

  lemma {:induction false} VarNames(cfg: Cfg)
    requires Get(cfg, Domain) != ""
    ensures TemplateVars(cfg).Some? && TemplateVars(cfg).value.Keys == TEMPLATE_NAMES
  {
    hide Get;
  }

  /** Every name that a template can use is a name to the expander, in either form. */
  lemma {:induction false} NamesAreNames(rest: string)
    ensures forall name :: name in TEMPLATE_NAMES ==>
      Template.IsName(name) && Template.Ref("${" + name + "}" + rest) == Some((name, |name| + 3))
  {
    forall name | name in TEMPLATE_NAMES
      ensures Template.IsName(name) && Template.Ref("${" + name + "}" + rest) == Some((name, |name| + 3))
    {
      Template.RefBraced(name, rest);
    }
  }

  /** The entries that a template is given as they are. */
  lemma {:induction false} EntriesGiven(cfg: Cfg)
    requires Get(cfg, Domain) != ""
    ensures var vars := TemplateVars(cfg).value;
      && vars["DOMAIN"] == Get(cfg, Domain)
      && vars["ALERT_EMAIL"] == Get(cfg, AlertEmail)
      && vars["POSTGRES_PASSWORD"] == Get(cfg, PostgresPassword)
      && vars["GARAGE_ADMIN_TOKEN"] == Get(cfg, GarageAdminToken)
      && vars["GARAGE_RPC_SECRET"] == Get(cfg, GarageRpcSecret)
      && vars["ENTE_ENCRYPTION_KEY"] == Get(cfg, EnteEncryptionKey)
      && vars["ENTE_ENCRYPTION_HASH_KEY"] == Get(cfg, EnteEncryptionHashKey)
      && vars["ENTE_JWT_SECRET"] == Get(cfg, EnteJwtSecret)
  {
    hide Get;
  }

  /** The names of hosts, and the part that each adds to the domain. */
  const HOSTS: seq<(string, string)> :=
    [("MAIL_HOST", "mail."), ("VAULT_HOST", "vault."), ("PHOTOS_HOST", "photos."), ("AUTH_HOST", "auth."),
     ("LOCKER_HOST", "locker."), ("API_HOST", "api.")]

  /** Every host that a template names is an address record of the zone that setup leaves. */
  lemma {:induction false} HostsHaveRecords(cfg: Cfg, z: Dns.Zone, u: Dns.Zone, ip: string, i: nat) returns (j: nat)
    requires Dns.Valid(z) && SyncedTo(z, u, cfg, ip) && i < |HOSTS|
    ensures TemplateVars(cfg).Some? && HOSTS[i].0 in TemplateVars(cfg).value
    ensures j < |u.records|
    ensures var d := u.records[j].rec;
      && d.kind == Dns.A && d.name == TemplateVars(cfg).value[HOSTS[i].0] == HOSTS[i].1 + Get(cfg, Domain)
      && d.content == ip && d.proxied
  {
    hide Get;
    var domain, email := Get(cfg, Domain), Get(cfg, AlertEmail);
    var ds := Dns.Records(domain, ip, email);
    Dns.RecordsDistinct(domain, ip, email);
    Dns.Converges(z, ds);
    Dns.NameOf(domain, ip, email, i);
    assert ds[i] in ds && Dns.Has(u, ds[i]);
    j := Dns.Find(u.records, ds[i]);
    Dns.FindIs(u.records, ds[i]);
    HostIs(cfg, i);
  }

  lemma {:induction false} HostIs(cfg: Cfg, i: nat)
    requires Get(cfg, Domain) != "" && i < |HOSTS|
    ensures var vars := TemplateVars(cfg).value;
      HOSTS[i].0 in vars && vars[HOSTS[i].0] == HOSTS[i].1 + Get(cfg, Domain)
  {
    hide Get;
  }

  // ---- lines ----

  predicate IsBlank(c: char) { c == ' ' || 9 <= c as int <= 13 }

  function TrimLeft(s: string): string { if s != "" && IsBlank(s[0]) then TrimLeft(s[1..]) else s }

  function TrimRight(s: string): string {
    if s != "" && IsBlank(s[|s| - 1]) then TrimRight(s[..|s| - 1]) else s
  }

  /** A typed answer: blanks at both ends are not part of it. */
  function TrimSpace(s: string): string { TrimRight(TrimLeft(s)) }

  /** A secret keeps its blanks; only the line end goes. */
  function TrimNewline(s: string): string {
    if s != "" && (s[|s| - 1] == '\n' || s[|s| - 1] == '\r') then TrimNewline(s[..|s| - 1]) else s
  }

  /** Blanks are the space, tab, line feed, vertical tab, form feed and carriage return. */
  predicate AllBlank(s: string) { forall i :: 0 <= i < |s| ==> s[i] in [' ', '\t', '\n', 11 as char, 12 as char, '\r'] }

  predicate AllLineEnd(s: string) { forall i :: 0 <= i < |s| ==> s[i] in ['\n', '\r'] }

  /** What is between the blanks, and that alone, is the answer. */
  lemma {:induction false} TrimSpaceIs(a: string, s: string, b: string)
    requires AllBlank(a) && AllBlank(b) && (s != "" ==> !AllBlank([s[0]]) && !AllBlank([s[|s| - 1]]))
    ensures TrimSpace(a + s + b) == s
  {
    TrimLeftIs(a, s, b);
    assert s == "" ==> TrimRight("") == "";
    if s != "" { TrimRightIs(s, b); }
  }

  lemma {:induction false} TrimLeftIs(a: string, s: string, b: string)
    requires AllBlank(a) && AllBlank(b) && (s != "" ==> !AllBlank([s[0]]))
    ensures TrimLeft(a + s + b) == if s == "" then "" else s + b
    decreases |a| + |b|
  {
    if a != "" {
      assert (a + s + b)[1..] == a[1..] + s + b;
      TrimLeftIs(a[1..], s, b);
    } else if s == "" && b != "" {
      assert a + s + b == b && (b)[1..] == a + s + b[1..];
      TrimLeftIs(a, s, b[1..]);
    } else if s != "" {
      assert a + s + b == s + b && (s + b)[0] == s[0] && AllBlank([s[0]]) == IsBlank(s[0]);
    }
  }

  lemma {:induction false} TrimRightIs(s: string, b: string)
    requires AllBlank(b) && s != "" && !AllBlank([s[|s| - 1]])
    ensures TrimRight(s + b) == s
    decreases |b|
  {
    if b == "" {
      assert s + b == s && AllBlank([s[|s| - 1]]) == IsBlank(s[|s| - 1]);
    } else {
      assert (s + b)[..|s + b| - 1] == s + b[..|b| - 1];
      TrimRightIs(s, b[..|b| - 1]);
    }
  }

  /** What is before the line end, blanks included, is the secret. */
  lemma {:induction false} TrimNewlineIs(s: string, end: string)
    requires AllLineEnd(end) && (s != "" ==> !AllLineEnd([s[|s| - 1]]))
    ensures TrimNewline(s + end) == s
    decreases |end|
  {
    if end == "" {
      assert s + end == s && (s != "" ==> AllLineEnd([s[|s| - 1]]) == (s[|s| - 1] in ['\n', '\r']));
    } else {
      assert (s + end)[..|s + end| - 1] == s + end[..|end| - 1];
      TrimNewlineIs(s, end[..|end| - 1]);
    }
  }

  // ---- what the steps need of each other ----

  /** What the DNS step cannot or will not work with. */
  predicate LacksAccess(f: File) {
    f.Torn? || Get(Loaded(f).value, Domain) == "" || Get(Loaded(f).value, CloudflareToken) == ""
  }

  lemma {:induction false} HasAccess(s: State, run: Trace, t: State)
    requires Consistent(s) && RunStep(s, run, t) && run.cfg.Some?
    ensures !LacksAccess(t.file)
  {
    GivenBack(s, run, t);
  }

  lemma {:induction false} OneMoreStep(log: Log, step: Step, ok: bool)
    requires Going(log) && |log| < |STEPS| && step == STEPS[|log|]
    ensures var more := log + [(step, ok)];
      && (ok || step == UpdateCheck ==> Going(more))
      && (!ok && step != UpdateCheck ==> Over(more, false))
      && (ok && |more| == |STEPS| ==> Over(more, true))
  {
    hide STEPS;
    assert (log + [(step, ok)])[..|log|] == log;
  }

  lemma {:induction false} TornGivesNothing(g: File, r: Option<Cfg>, typed: Option<Cfg>)
    requires WizardStep(Torn, g, r, typed)
    ensures r.None?
  {
  }

  lemma {:induction false} NoneGoing()
    ensures Going([])
  {
  }

  lemma {:induction false} GivenBackHasDomain(f: File, g: File, r: Option<Cfg>, typed: Option<Cfg>)
    requires WizardStep(f, g, r, typed) && r.Some?
    ensures Get(r.value, Domain) != ""
  {
  }

  /** The zone went from `z` to `u` as a reconciliation with `cfg` takes it. */
  predicate SyncedTo(z: Dns.Zone, u: Dns.Zone, cfg: Cfg, ip: string) {
    && Get(cfg, Domain) != ""
    && u == Dns.Synced(z, Dns.Records(Get(cfg, Domain), ip, Get(cfg, AlertEmail)))
  }

  predicate FileSecretDone(before: Cfg, after: Cfg, key: Key) {
    if key in before then Same(before, after, key) else Get(after, key) != ""
  }

  lemma {:induction false} CaptureDone(before: Cfg, asked: Cfg, told: Cfg, cfg: Cfg)
    requires forall key :: if AskedFirst(key) then Get(asked, key) != "" else Same(before, asked, key)
    requires forall j :: 0 <= j < |SECRET_KEYS| ==> Get(told, SECRET_KEYS[j]) != ""
    requires forall key :: !IsSecret(key) ==> Same(asked, told, key)
    requires forall j :: 0 <= j < |FILE_SECRET_KEYS| ==> FileSecretDone(told, cfg, FILE_SECRET_KEYS[j])
    requires forall key :: !IsFileSecret(key) ==> Same(told, cfg, key)
    ensures Captured(before, cfg)
  {
    forall key: Key
      ensures if key.OtherKey? then Same(before, cfg, key)
              else if IsFileSecret(key) && key in before then Same(before, cfg, key)
              else Get(cfg, key) != ""
    {
      KeysListed(key);
      assert AskedFirst(key) || Same(before, asked, key);
      assert IsSecret(key) || Same(asked, told, key);
      assert IsFileSecret(key) || Same(told, cfg, key);
    }
  }

  lemma {:induction false} LineTyped(all: seq<string>, before: seq<string>, after: seq<string>, value: string)
    requires Taken(all, before) && Taken(before, after) && |after| < |before|
    requires value == TrimSpace(LastTaken(before, after))
    ensures SecretAsTyped(all, value) && Taken(all, after)
  {
    var i := |all| - |after| - 1;
    assert all[i] == LastTaken(before, after);
  }

  lemma {:induction false} GeneratedTyped(all: seq<string>, value: string)
    requires |value| == GENERATED
    ensures SecretAsTyped(all, value)
  {
  }

  lemma {:induction false} TypedDone(all: seq<string>, rest: seq<string>, account: (string, string, string),
                                     asked: Cfg, told: Cfg, cfg: Cfg)
    requires Taken(all, rest) && AccountTyped(all, account)
    requires account == (Get(asked, Domain), Get(asked, AlertEmail), Get(asked, CloudflareToken))
    requires forall h :: 0 <= h < |SECRET_KEYS| ==> SecretAsTyped(rest, Get(told, SECRET_KEYS[h]))
    requires forall key :: !IsSecret(key) ==> Same(asked, told, key)
    requires forall key :: !IsFileSecret(key) ==> Same(told, cfg, key)
    ensures AsTyped(all, cfg)
  {
    hide SecretAsTyped, AccountTyped;
    assert Same(asked, told, Domain) && Same(asked, told, AlertEmail) && Same(asked, told, CloudflareToken);
    assert Same(told, cfg, Domain) && Same(told, cfg, AlertEmail) && Same(told, cfg, CloudflareToken);
    forall key | IsSecret(key)
      ensures SecretAsTyped(all, Get(cfg, key))
    {
      KeysListed(key);
      assert Same(told, cfg, key);
      TypedInRest(all, rest, Get(cfg, key));
    }
  }

  lemma {:induction false} TypedInRest(all: seq<string>, rest: seq<string>, value: string)
    requires Taken(all, rest) && SecretAsTyped(rest, value)
    ensures SecretAsTyped(all, value)
  {
    hide TrimSpace;
    if |value| != GENERATED {
      var i :| 0 <= i < |rest| && value == TrimSpace(rest[i]);
      assert rest[i] == all[|all| - |rest| + i];
    }
  }

  lemma {:induction false} NoneMade(cfg: Cfg, had: map<string, string>)
    ensures Made(cfg, {}) + had == had
  {
  }

  lemma {:induction false} OneMoreMade(cfg: Cfg, keys: set<Key>, key: Key, had: map<string, string>)
    requires keys <= PODMAN_KEYS && key in PODMAN_KEYS
    ensures var made, more, name := Made(cfg, keys) + had, Made(cfg, keys + {key}) + had, SecretName(key);
      more == if Get(cfg, key) == "" || name in made then made else made[name := Transform(key, Get(cfg, key))]
  {
    hide PODMAN_KEYS, Get, Transform, SecretName;
    MadeGrows(cfg, keys, key);
    if Get(cfg, key) != "" && key in keys { MadeAt(cfg, keys, key); }
  }

  lemma {:induction false} MadeGrows(cfg: Cfg, keys: set<Key>, key: Key)
    requires keys <= PODMAN_KEYS && key in PODMAN_KEYS
    ensures Made(cfg, keys + {key})
         == if Get(cfg, key) == "" then Made(cfg, keys)
            else Made(cfg, keys)[SecretName(key) := Transform(key, Get(cfg, key))]
  {
    hide PODMAN_KEYS, Get, Transform, SecretName;
    NamesAllDistinct();
  }

  /** Some lines have been taken from the front. */
  predicate Taken(before: seq<string>, after: seq<string>) {
    |after| <= |before| && after == before[|before| - |after|..]
  }

  function LastTaken(before: seq<string>, after: seq<string>): string
    requires |after| < |before|
  {
    before[|before| - |after| - 1]
  }

  /** The entries asked for are lines of the operator, in order, the secrets lines or generated. */
  ghost predicate AsTyped(lines: seq<string>, typed: Cfg) {
    && AccountTyped(lines, (Get(typed, Domain), Get(typed, AlertEmail), Get(typed, CloudflareToken)))
    && forall key :: IsSecret(key) ==> SecretAsTyped(lines, Get(typed, key))
  }

  /** Domain, address and token. */
  ghost predicate AccountTyped(lines: seq<string>, account: (string, string, string)) {
    exists i, j, k :: 0 <= i < j < k < |lines|
      && account == (TrimSpace(lines[i]), TrimSpace(lines[j]), TrimNewline(lines[k]))
  }

  ghost predicate SecretAsTyped(lines: seq<string>, value: string) {
    |value| == GENERATED || exists i :: 0 <= i < |lines| && value == TrimSpace(lines[i])
  }

  /** Characters of a generated secret. */
  const GENERATED := 32

  // ---- as written: effects one at a time, any of which may fail ----

  class Box {
    var file: File
    var secrets: map<string, string>
    var stage1: bool
    var stage2: bool
    /** Lines still to come from the operator, line ends included. */
    var lines: seq<string>
    /** The current run's log, and how often something outside the code has failed. */
    ghost var log: Log
    ghost var faults: nat
    const ip: string
    const server: Dns.Server

    function Now(): State
      reads this
    {
      State(file, secrets, stage1, stage2)
    }

    constructor (s: State, lines: seq<string>, ip: string, server: Dns.Server)
      ensures Now() == s && this.lines == lines && this.server == server && this.ip == ip
    {
      file, secrets, stage1, stage2 := s.file, s.secrets, s.stage1, s.stage2;
      this.lines, this.ip, this.server := lines, ip, server;
      log, faults := [], 0;
    }

    method Load() returns (r: Option<Cfg>)
      modifies this`faults
      ensures r.Some? ==> r == Loaded(file) && faults == old(faults)
      ensures r.None? ==> faults == old(faults) + 1 || (file.Torn? && faults == old(faults))
    {
      var readable: bool := *;
      if !readable {
        faults := faults + 1;
        return None;
      }
      r := Loaded(file);
    }

    /** Writing can fail before it starts, half way, or afterwards, when the mode is set. */
    method Save(cfg: Cfg) returns (ok: bool)
      modifies this`file, this`faults
      ensures file == old(file) || file == Torn || file == Holds(SavedCfg(cfg))
      ensures ok ==> file == Holds(SavedCfg(cfg))
      ensures faults == if ok then old(faults) else old(faults) + 1
    {
      var opens: bool, written: bool := *, *;
      ok := *;
      ok := ok && opens && written;
      if opens { file := if written then Holds(SavedCfg(cfg)) else Torn; }
      if !ok { faults := faults + 1; }
    }

    /** Asks until a line is acceptable, giving up when there are no more. */
    method Ask(optional: bool) returns (r: Option<string>)
      modifies this`lines, this`faults
      ensures r.Some? && !optional ==> r.value != ""
      ensures Taken(old(lines), lines)
      ensures r.Some? ==> |lines| < |old(lines)| && r.value == TrimSpace(LastTaken(old(lines), lines))
      ensures faults == if r.None? then old(faults) + 1 else old(faults)
    {
      while lines != []
        invariant faults == old(faults) && Taken(old(lines), lines)
        decreases |lines|
      {
        var value := TrimSpace(lines[0]);
        lines := lines[1..];
        if value == "" {
          if optional { return Some(""); }
        } else {
          var valid: bool := *;
          if valid { return Some(value); }
        }
      }
      faults := faults + 1;
      r := None;
    }

    method AskSecret() returns (r: Option<string>)
      modifies this`lines, this`faults
      ensures r.Some? ==> old(lines) != [] && r.value == TrimNewline(old(lines)[0]) && lines == old(lines)[1..]
      ensures r.None? ==> lines == old(lines)
      ensures faults == if r.None? then old(faults) + 1 else old(faults)
    {
      if lines == [] {
        faults := faults + 1;
        return None;
      }
      r := Some(TrimNewline(lines[0]));
      lines := lines[1..];
    }

    /** 24 random bytes in base64. */
    method GenSecret() returns (r: Option<string>)
      modifies this`faults
      ensures r.Some? ==> |r.value| == 32 && IsUtf8(r.value)
      ensures faults == if r.None? then old(faults) + 1 else old(faults)
    {
      var random: bool := *;
      if !random {
        faults := faults + 1;
        return None;
      }
      var s := "";
      while |s| < GENERATED
        invariant |s| <= GENERATED && forall i :: 0 <= i < |s| ==> s[i] as int <= 0x7F
      {
        var c: char := *;
        s := s + [if c as int <= 0x7F then c else '_'];
      }
      SavedAfterAscii(s, "");
      assert s + "" == s && s + Saved("") == s;
      SavedIs(s);
      r := Some(s);
    }

    /** The questions that must be answered: three lines, in order. */
    method AskAccount() returns (r: Option<(string, string, string)>)
      modifies this`lines, this`faults
      ensures r.Some? ==> r.value.0 != "" && r.value.1 != "" && r.value.2 != "" && AccountTyped(old(lines), r.value)
      ensures Taken(old(lines), lines)
      ensures faults == if r.None? then old(faults) + 1 else old(faults)
    {
      hide TrimSpace, TrimNewline;
      ghost var all := lines;
      var domain := Ask(false);
      if domain.None? { return None; }
      ghost var i := |all| - |lines| - 1;
      var alertEmail := Ask(false);
      if alertEmail.None? { return None; }
      ghost var j := |all| - |lines| - 1;
      var token := "";
      while token == ""
        invariant faults == old(faults) && Taken(all, lines) && |lines| < |all| - j
        invariant token != "" ==> |lines| + 1 < |all| - j && token == TrimNewline(LastTaken(all, lines))
        decreases token == "", |lines|
      {
        var answer := AskSecret();
        if answer.None? { return None; }
        token := answer.value;
      }
      ghost var k := |all| - |lines| - 1;
      r := Some((domain.value, alertEmail.value, token));
      assert i < j < k < |all| && domain.value == TrimSpace(all[i]);
    }

    /** The first loop of the wizard. */
    method AskSecrets(asked: Cfg) returns (r: Option<Cfg>)
      modifies this`lines, this`faults
      ensures r.Some? ==> forall key :: !IsSecret(key) ==> Same(asked, r.value, key)
      ensures r.Some? ==> forall j :: 0 <= j < |SECRET_KEYS| ==>
          Get(r.value, SECRET_KEYS[j]) != "" && SecretAsTyped(old(lines), Get(r.value, SECRET_KEYS[j]))
      ensures faults == if r.None? then old(faults) + 1 else old(faults)
    {
      hide TrimSpace, SecretAsTyped;
      var cfg := asked;
      for i := 0 to |SECRET_KEYS|
        invariant faults == old(faults) && Taken(old(lines), lines)
        invariant forall j :: 0 <= j < i ==>
            Get(cfg, SECRET_KEYS[j]) != "" && SecretAsTyped(old(lines), Get(cfg, SECRET_KEYS[j]))
        invariant forall key :: !IsSecret(key) ==> Same(asked, cfg, key)
      {
        ghost var before := lines;
        var value := Ask(true);
        if value.Some? {
          LineTyped(old(lines), before, lines, value.value);
          if value.value == "" {
            value := GenSecret();
            if value.Some? { GeneratedTyped(old(lines), value.value); }
          }
        }
        if value.None? { return None; }
        cfg := cfg[SECRET_KEYS[i] := Text(value.value)];
      }
      r := Some(cfg);
    }

    /** RunPostBoot, from the configuration it has loaded to the one it saves. */
    method Capture(before: Cfg) returns (typed: Option<Cfg>)
      modifies this`lines, this`faults
      ensures typed.Some? ==> Captured(before, typed.value) && AsTyped(old(lines), typed.value)
      ensures faults == if typed.None? then old(faults) + 1 else old(faults)
    {
      hide Captured, AsTyped, SecretAsTyped, AccountTyped;
      var account := AskAccount();
      if account.None? { return None; }
      var (domain, alertEmail, token) := account.value;
      var asked := before[Domain := Text(domain)][AlertEmail := Text(alertEmail)][CloudflareToken := Text(token)];
      ghost var rest := lines;
      var told := AskSecrets(asked);
      if told.None? { return None; }
      typed := AddFileSecrets(told.value);
      if typed.Some? {
        CaptureDone(before, asked, told.value, typed.value);
        TypedDone(old(lines), rest, account.value, asked, told.value, typed.value);
      }
    }

    /** The last loop of the wizard. */
    method AddFileSecrets(told: Cfg) returns (r: Option<Cfg>)
      modifies this`faults
      ensures faults == if r.None? then old(faults) + 1 else old(faults)
      ensures r.Some? ==>
        && (forall j :: 0 <= j < |FILE_SECRET_KEYS| ==> FileSecretDone(told, r.value, FILE_SECRET_KEYS[j]))
        && (forall key :: !IsFileSecret(key) ==> Same(told, r.value, key))
    {
      var cfg := told;
      for i := 0 to |FILE_SECRET_KEYS|
        invariant faults == old(faults)
        invariant forall j :: 0 <= j < i ==> FileSecretDone(told, cfg, FILE_SECRET_KEYS[j])
        invariant forall j :: i <= j < |FILE_SECRET_KEYS| ==> Same(told, cfg, FILE_SECRET_KEYS[j])
        invariant forall key :: !IsFileSecret(key) ==> Same(told, cfg, key)
      {
        var key := FILE_SECRET_KEYS[i];
        if key !in cfg {
          var value := GenSecret();
          if value.None? { return None; }
          cfg := cfg[key := Text(value.value)];
        }
      }
      r := Some(cfg);
    }

    /** `typed` is what the run tried to save, if it came to that. */
    method RunPostBoot() returns (r: Option<Cfg>, ghost typed: Option<Cfg>)
      modifies this`file, this`lines, this`faults
      ensures WizardStep(old(file), file, r, typed)
      ensures r.Some? ==> faults == old(faults)
      ensures r.None? ==> faults == old(faults) + 1 || (old(file).Torn? && faults == old(faults))
    {
      typed, r := None, None;
      var cfg := Load();
      if cfg.Some? {
        if Get(cfg.value, Domain) != "" {
          r := cfg;
        } else {
          var captured := Capture(cfg.value);
          if captured.Some? {
            typed := captured;
            var ok := Save(captured.value);
            if ok { r := captured; }
          }
        }
      }
    }

    /** 0 means that podman knows the secret; other answers can also mean that it failed. */
    method Inspect(name: string) returns (code: Option<int>)
      modifies this`faults
      ensures code == Some(0) ==> name in secrets
      ensures faults == if code.None? || (code != Some(0) && name in secrets) then old(faults) + 1 else old(faults)
    {
      var ran: bool, n: int := *, *;
      code := if !ran then None else if n == 0 && name !in secrets then Some(1) else Some(n);
      if code.None? || (code != Some(0) && name in secrets) { faults := faults + 1; }
    }

    /** A name that exists is refused. A failure may come after the secret was made. */
    method Create(name: string, value: string) returns (ok: bool)
      modifies this`secrets, this`faults
      ensures faults == if ok || name in old(secrets) then old(faults) else old(faults) + 1
      ensures secrets == old(secrets) || (name !in old(secrets) && secrets == old(secrets)[name := value])
      ensures ok ==> name !in old(secrets) && secrets == old(secrets)[name := value]
    {
      if name in secrets { return false; }
      var made: bool := *;
      if made { secrets := secrets[name := value]; }
      ok := *;
      ok := ok && made;
      if !ok { faults := faults + 1; }
    }

    /** Goes through the entries in any order. `seen` are those whose secrets it saw to. */
    method EnsureSecrets(cfg: Cfg) returns (ok: bool, ghost seen: set<Key>)
      modifies this`secrets, this`faults
      ensures seen <= PODMAN_KEYS && secrets == Made(cfg, seen) + old(secrets)
      ensures if ok then seen == PODMAN_KEYS && faults == old(faults) else faults == old(faults) + 1
    {
      var todo := PODMAN_KEYS;
      seen := {};
      NoneMade(cfg, secrets);
      while todo != {}
        invariant seen == PODMAN_KEYS - todo && todo <= PODMAN_KEYS && faults == old(faults)
        invariant secrets == Made(cfg, seen) + old(secrets)
        decreases |todo|
      {
        var key :| key in todo;
        todo := todo - {key};
        var value := Get(cfg, key);
        OneMoreMade(cfg, seen, key, old(secrets));
        if value == "" { seen := seen + {key}; continue; }
        value := Transform(key, value);
        var code := Inspect(SecretName(key));
        if code.None? { return false, seen; }
        if code.value == 0 { seen := seen + {key}; continue; }
        ghost var was := secrets;
        var made := Create(SecretName(key), value);
        if secrets != was || made { seen := seen + {key}; }
        if !made { return false, seen; }
      }
      ok := true;
    }

    /** Loads the configuration again and reconciles the zone with it. */
    method SyncDns() returns (ok: bool)
      modifies server, this`faults
      ensures ok ==> Loaded(file).Some? && SyncedTo(old(server.zone), server.zone, Loaded(file).value, ip)
      ensures faults >= old(faults)
      ensures !ok && faults == old(faults) ==> LacksAccess(file)
    {
      var cfg := Load();
      if cfg.None? || Get(cfg.value, Domain) == "" || Get(cfg.value, CloudflareToken) == "" { return false; }
      ghost var k, tried;
      ok, k, tried := server.Sync(Get(cfg.value, Domain), ip, Get(cfg.value, AlertEmail));
      if !ok { faults := faults + 1; }
      ghost var ds := Dns.Records(Get(cfg.value, Domain), ip, Get(cfg.value, AlertEmail));
      assert ds[..|ds|] == ds;
    }

    method MarkDone() returns (ok: bool)
      modifies this`stage2, this`faults
      ensures old(stage2) || ok ==> stage2
      ensures faults == if ok then old(faults) else old(faults) + 1
    {
      var made: bool := *;
      if made { stage2 := true; }
      ok := *;
      ok := ok && made;
      if !ok { faults := faults + 1; }
    }

    ghost method Note(step: Step, ok: bool)
      requires Going(log) && |log| < |STEPS| && step == STEPS[|log|]
      modifies this`log
      ensures log == old(log) + [(step, ok)]
      ensures ok || step == UpdateCheck ==> Going(log)
      ensures !ok && step != UpdateCheck ==> Over(log, false)
      ensures ok && |log| == |STEPS| ==> Over(log, true)
    {
      hide Going, Over;
      OneMoreStep(log, step, ok);
      log := log + [(step, ok)];
    }

    /** A step that concerns none of the fields. */
    method Elsewhere(step: Step) returns (ok: bool)
      requires Going(log) && |log| < |STEPS| && step == STEPS[|log|]
      modifies this`log, this`faults
      ensures |log| == |old(log)| + 1 && (old(log) != [] ==> log[0] == old(log)[0])
      ensures log[|log| - 1] == (step, ok)
      ensures ok || step == UpdateCheck ==> Going(log)
      ensures !ok && step != UpdateCheck ==> Over(log, false)
      ensures faults == if ok then old(faults) else old(faults) + 1
    {
      ok := *;
      Note(step, ok);
      if !ok { faults := faults + 1; }
    }

    /** setup.Run from the rendering on. */
    method Publish() returns (ok: bool)
      requires Going(log) && |log| == 4
      modifies this`log, this`faults, this`stage2, server
      ensures Over(log, ok) && |log| > 4 && log[0] == old(log)[0]
      ensures (old(stage2) || ok ==> stage2) && (stage2 && !old(stage2) ==> |log| == |STEPS|)
      ensures ok ==> Loaded(file).Some? && SyncedTo(old(server.zone), server.zone, Loaded(file).value, ip)
      ensures faults >= old(faults)
      ensures !ok && faults == old(faults) ==> LacksAccess(file)
    {
      hide SyncedTo, Going, Over, LacksAccess, Loaded;
      ok := Elsewhere(Render);
      if !ok { return; }
      ok := Elsewhere(Deploy);
      if !ok { return; }
      ok := Elsewhere(Backing);
      if !ok { return; }
      ok := SyncDns();
      Note(DnsRecords, ok);
      if !ok { return; }
      ok := Elsewhere(HealthCheck);
      if !ok { return; }
      ok := MarkDone();
      Note(Mark, ok);
    }

    /** setup.Run after the wizard. */
    method Proceed(cfg: Cfg) returns (ok: bool, ghost seen: set<Key>)
      requires log == [(Wizard, true)] && Going(log) && Get(cfg, Domain) != ""
      modifies this`log, this`faults, this`secrets, this`stage2, server
      ensures Over(log, ok) && log[0] == (Wizard, true)
      ensures seen <= PODMAN_KEYS && secrets == Made(cfg, seen) + old(secrets)
      ensures (seen != {} ==> |log| >= 4) && (|log| > 4 ==> seen == PODMAN_KEYS)
      ensures (old(stage2) || ok ==> stage2) && (stage2 && !old(stage2) ==> |log| == |STEPS|)
      ensures ok ==> Loaded(file).Some? && SyncedTo(old(server.zone), server.zone, Loaded(file).value, ip)
      ensures faults >= old(faults)
      ensures !ok && faults == old(faults) ==> LacksAccess(file)
    {
      hide Made, SyncedTo, Going, Over, LacksAccess, PODMAN_KEYS;
      seen := {};
      NoneMade(cfg, secrets);
      ok := Elsewhere(Firewall);
      if !ok { return; }
      var checked := Elsewhere(UpdateCheck);
      ok, seen := EnsureSecrets(cfg);
      Note(Secrets, ok);
      if !ok { return; }
      var vars := TemplateVars(cfg);
      if vars.None? { assert false; }
      ok := Publish();
    }

    /** setup.Run. A run that succeeds also leaves the zone as the configuration asks; one
        on a consistent machine during which nothing outside fails succeeds if and only if
        the configuration file is not torn. */
    method Run() returns (ok: bool, ghost run: Trace)
      modifies this, server
      ensures RunStep(old(Now()), run, Now()) && run.ok == ok
      ensures stage1 ==> run.log == log
      ensures ok ==> Loaded(file).Some? && SyncedTo(old(server.zone), server.zone, Loaded(file).value, ip)
      ensures faults >= old(faults)
      ensures Consistent(old(Now())) && stage1 && faults == old(faults) ==> (ok <==> !old(file).Torn?)
    {
      hide WizardStep, Made, SyncedTo, Going, Over, Consistent, LacksAccess, PODMAN_KEYS;
      if !stage1 { return false, REFUSED; }
      log := [];
      NoneGoing();

      ghost var typed: Option<Cfg>;
      ghost var seen: set<Key> := {};
      var cfg: Option<Cfg>;
      cfg, typed := RunPostBoot();
      Note(Wizard, cfg.Some?);
      if cfg.None? { return false, Trace(typed, cfg, {}, log, false); }
      GivenBackHasDomain(old(file), file, cfg, typed);
      ok, seen := Proceed(cfg.value);
      run := Trace(typed, cfg, seen, log, ok);
      if Consistent(old(Now())) { HasAccess(old(Now()), run, Now()); }
      if old(file).Torn? { TornGivesNothing(file, cfg, typed); }
    }
  }
}
