/** One managed service on one host, as `ServiceManager` and `NovaServiceManager` of
    services/clients.py drive it. Every remote command may fail, with or without effect. */
module ServiceHost {
  import opened PyText

  // ---------- the configuration file ----------

  datatype Key = Key(section: string, option: string)

  type Config = map<Key, string>

  /** A (section, option, value) tuple; None deletes the option. */
  datatype Opt = Opt(key: Key, value: Option<string>)

  function At(file: Config, k: Key): Option<string> { if k in file then Some(file[k]) else None }

  function Put(file: Config, o: Opt): (file': Config)
    ensures forall k :: At(file', k) == if k == o.key then o.value else At(file, k)
  {
    if o.value.Some? then file[o.key := o.value.value] else file - {o.key}
  }

  function PutAll(file: Config, opts: seq<Opt>): Config
  {
    if opts == [] then file else Put(PutAll(file, opts[..|opts| - 1]), opts[|opts| - 1])
  }

  /** The position of the last setting of k, or -1. */
  function LastIndex(opts: seq<Opt>, k: Key): (i: int)
    ensures -1 <= i < |opts|
    ensures i >= 0 ==> opts[i].key == k
    ensures forall j :: i < j < |opts| ==> opts[j].key != k
  {
    if opts == [] then -1
    else if opts[|opts| - 1].key == k then |opts| - 1
    else LastIndex(opts[..|opts| - 1], k)
  }

  lemma {:induction false} PutAllAt(file: Config, opts: seq<Opt>, k: Key)
    ensures var i := LastIndex(opts, k);
      At(PutAll(file, opts), k) == if i < 0 then At(file, k) else opts[i].value
  {
    if opts != [] {
      PutAllAt(file, opts[..|opts| - 1], k);
    }
  }

  /** What `config_options` remembers: each option's value just before it is set. */
  function SavedOf(file: Config, opts: seq<Opt>): (saved: seq<Opt>)
    ensures |saved| == |opts|
    ensures forall i :: 0 <= i < |opts| ==>
      saved[i] == Opt(opts[i].key, At(PutAll(file, opts[..i]), opts[i].key))
  {
    seq(|opts|, i requires 0 <= i < |opts| => Opt(opts[i].key, At(PutAll(file, opts[..i]), opts[i].key)))
  }

  lemma SavedSnoc(file: Config, opts: seq<Opt>, o: Opt)
    ensures SavedOf(file, opts + [o]) == SavedOf(file, opts) + [Opt(o.key, At(PutAll(file, opts), o.key))]
  {
    assert (opts + [o])[..|opts|] == opts;
    assert forall i :: 0 <= i < |opts| ==> (opts + [o])[..i] == opts[..i];
  }

  lemma {:induction false} SameKeysLastIndex(a: seq<Opt>, b: seq<Opt>, k: Key)
    requires |a| == |b| && forall i :: 0 <= i < |a| ==> a[i].key == b[i].key
    ensures LastIndex(a, k) == LastIndex(b, k)
  {
    if a != [] {
      SameKeysLastIndex(a[..|a| - 1], b[..|b| - 1], k);
    }
  }

  ghost predicate Listed(opts: seq<Opt>, k: Key) { exists i :: 0 <= i < |opts| && opts[i].key == k }

  ghost predicate ListedOnce(opts: seq<Opt>, k: Key)
  {
    forall i, j :: 0 <= i < j < |opts| && opts[i].key == k ==> opts[j].key != k
  }

  /** What an option is worth after a block that started from `file` and whose body left `body`: the
      body's value when the option was not listed, the original when it was listed once, and
      otherwise the value of its second-to-last setting. */
  function ValueAfter(file: Config, body: Config, opts: seq<Opt>, k: Key): Option<string>
  {
    var i := LastIndex(opts, k);
    if i < 0 then At(body, k) else
      var j := LastIndex(opts[..i], k);
      if j < 0 then At(file, k) else opts[j].value
  }

  /** The forward-order restore leaves exactly that. So a listed option is restored if and only if it
      is listed once or its second-to-last setting repeats the original. */
  lemma RestoredValue(file: Config, body: Config, opts: seq<Opt>, k: Key)
    ensures At(PutAll(body, SavedOf(file, opts)), k) == ValueAfter(file, body, opts, k)
    ensures var i := LastIndex(opts, k);
      i >= 0 ==> var j := LastIndex(opts[..i], k);
        ValueAfter(file, body, opts, k) == At(file, k) <==> j < 0 || opts[j].value == At(file, k)
  {
    var saved := SavedOf(file, opts);
    PutAllAt(body, saved, k);
    SameKeysLastIndex(saved, opts, k);
    var i := LastIndex(opts, k);
    if i >= 0 {
      PutAllAt(file, opts[..i], k);
    }
  }

  /** A key listed at most once: restored if it was listed, untouched if not. */
  lemma RestoredOnce(file: Config, body: Config, opts: seq<Opt>, k: Key)
    requires ListedOnce(opts, k)
    ensures ValueAfter(file, body, opts, k) == if Listed(opts, k) then At(file, k) else At(body, k)
  {
    var i := LastIndex(opts, k);
    assert i >= 0 ==> LastIndex(opts[..i], k) < 0;
  }

  // ---------- the service ----------

  /** What becomes of a command: carried out and reported so, lost without effect, or carried
      out but reported as failed. */
  datatype Fate = Done | Lost | Late

  /** A plain ServiceManager, with or without mask and unmask commands, or one of its two
      subclasses, which never mask but poll the compute API after each start and stop. */
  datatype Manager = Plain(mask: bool, unmask: bool) | Polling

  datatype Command = Get | Edit(opt: Opt) | Start | Stop | Mask | Unmask | Absent | Await

  /** `fate` is what will happen to this host's commands, in order; `step` counts those issued.
      `maskedStart` remembers whether a start was ever issued to a masked unit. */
  datatype Host = Host(manager: Manager, fate: nat -> Fate, step: nat, file: Config,
                       loaded: Config, running: bool, masked: bool, maskedStart: bool)

  datatype Res = Res(host: Host, ok: bool)

  ghost predicate Later(h: Host, h': Host)
  {
    h'.manager == h.manager && h'.fate == h.fate && h'.step >= h.step
  }

  /** Starting a unit that already runs does not make it read its file again. */
  function Effect(h: Host, c: Command): Host
  {
    match c
    case Edit(opt) => h.(file := Put(h.file, opt))
    case Start => if h.masked || h.running then h else h.(running := true, loaded := h.file)
    case Stop => h.(running := false)
    case Mask => h.(masked := true)
    case Unmask => h.(masked := false)
    case _ => h
  }

  predicate Refused(h: Host, c: Command) { c == Absent || (c == Start && h.masked) }

  /** `execute` of one command line. */
  function Issue(h: Host, c: Command): (r: Res)
    ensures Later(h, r.host) && r.host.step == h.step + 1
    ensures r.ok ==> h.fate(h.step) == Done
  {
    var fate := h.fate(h.step);
    var h1 := h.(step := h.step + 1, maskedStart := h.maskedStart || (c == Start && h.masked));
    Res(if fate == Lost then h1 else Effect(h1, c), fate == Done && !Refused(h, c))
  }

  function Then(r: Res, c: Command): Res { if r.ok then Issue(r.host, c) else r }

  function StartService(h: Host): (r: Res)
    ensures Later(h, r.host)
  {
    match h.manager
    case Plain(_, unmask) => if unmask then Then(Issue(h, Unmask), Start) else Issue(h, Start)
    case Polling => Then(Issue(h, Start), Await)
  }

  /** The mask command is issued when the unmask command is set, whether or not it is set itself. */
  function StopService(h: Host): (r: Res)
    ensures Later(h, r.host)
  {
    var r := Issue(h, Stop);
    match h.manager
    case Plain(mask, unmask) => if unmask then Then(r, if mask then Mask else Absent) else r
    case Polling => Then(r, Await)
  }

  function Restart(h: Host): (r: Res)
    ensures Later(h, r.host)
  {
    var r := StopService(h);
    if r.ok then StartService(r.host) else r
  }

  // ---------- config_options ----------

  datatype Entered = Entered(host: Host, saved: seq<Opt>, ok: bool)

  /** One turn of the loop before the yield: remember the option, then set it. */
  function SaveTurn(e: Entered, o: Opt): (e': Entered)
    ensures Later(e.host, e'.host)
  {
    if !e.ok then e else
      var got := Issue(e.host, Get);
      if !got.ok then Entered(got.host, e.saved, false) else
        var put := Issue(got.host, Edit(o));
        Entered(put.host, e.saved + [Opt(o.key, At(got.host.file, o.key))], put.ok)
  }

  /** The loop over all options, or as far as the first failure. */
  function SaveAndSet(h: Host, opts: seq<Opt>): (e: Entered)
    ensures Later(h, e.host)
  {
    if opts == [] then Entered(h, [], true) else SaveTurn(SaveAndSet(h, opts[..|opts| - 1]), opts[|opts| - 1])
  }

  function EnterConfig(h: Host, opts: seq<Opt>): (e: Entered)
    ensures Later(h, e.host)
  {
    var e := SaveAndSet(h, opts);
    if !e.ok then e else
      var r := Restart(e.host);
      Entered(r.host, e.saved, r.ok)
  }

  /** The restoring loop, over all saved options or as far as the first failure. */
  function SetAll(h: Host, opts: seq<Opt>): (r: Res)
    ensures Later(h, r.host)
  {
    if opts == [] then Res(h, true) else
      var r := SetAll(h, opts[..|opts| - 1]);
      Then(r, Edit(opts[|opts| - 1]))
  }

  function ExitConfig(h: Host, saved: seq<Opt>): (r: Res)
    ensures Later(h, r.host)
  {
    var r := SetAll(h, saved);
    if r.ok then Restart(r.host) else r
  }

  lemma StopEffect(h: Host)
    ensures StopService(h).host.file == h.file
    ensures StopService(h).ok ==> !StopService(h).host.running
    ensures StopService(h).ok ==>
      StopService(h).host.masked == (h.masked || (h.manager.Plain? && h.manager.unmask))
  {
    var r := Issue(h, Stop);
    assert r.host.file == h.file && r.host.masked == h.masked && (r.ok ==> !r.host.running);
  }

  lemma StartEffect(h: Host)
    ensures StartService(h).host.file == h.file
    ensures StartService(h).ok && !h.running ==>
      var h' := StartService(h).host; h'.running && !h'.masked && h'.loaded == h.file
  {
    match h.manager
    case Plain(_, unmask) =>
      if unmask {
        var r := Issue(h, Unmask);
        IssueStart(r.host);
        assert r.host.file == h.file && r.host.running == h.running;
      } else {
        IssueStart(h);
      }
    case Polling =>
      IssueStart(h);
  }

  lemma IssueStart(h: Host)
    ensures var r := Issue(h, Start);
      && r.host.file == h.file
      && (r.ok ==> r.host.running && !r.host.masked && r.host.loaded == if h.running then h.loaded else h.file)
  {}

  /** After a restart that reports success the service runs, unmasked, on the file as it is. */
  lemma RestartLoads(h: Host)
    ensures Restart(h).host.file == h.file
    ensures Restart(h).ok ==> var h' := Restart(h).host; h'.running && !h'.masked && h'.loaded == h.file
  {
    StopEffect(h);
    StartEffect(StopService(h).host);
  }

  lemma {:induction false} SaveAndSetFile(h: Host, opts: seq<Opt>)
    requires SaveAndSet(h, opts).ok
    ensures var e := SaveAndSet(h, opts);
      e.host.file == PutAll(h.file, opts) && e.saved == SavedOf(h.file, opts)
  {
    if opts != [] {
      var init := opts[..|opts| - 1];
      SaveAndSetFile(h, init);
      SavedSnoc(h.file, init, opts[|opts| - 1]);
      assert opts == init + [opts[|opts| - 1]];
    }
  }

  lemma {:induction false} SetAllFile(h: Host, opts: seq<Opt>)
    requires SetAll(h, opts).ok
    ensures SetAll(h, opts).host.file == PutAll(h.file, opts)
  {
    if opts != [] {
      SetAllFile(h, opts[..|opts| - 1]);
    }
  }

  /** Single-host restore. Once entered, and whatever state `body` the body left behind, an exit
      that reports success leaves the service running, unmasked, on a file that holds `ValueAfter`
      of every option: for an option listed once its original value or absence, for an unlisted one
      the body's value. */
  lemma RestoreTheorem(h: Host, opts: seq<Opt>, body: Host)
    requires EnterConfig(h, opts).ok && ExitConfig(body, EnterConfig(h, opts).saved).ok
    ensures var entered, final := EnterConfig(h, opts).host, ExitConfig(body, EnterConfig(h, opts).saved).host;
      && entered.file == entered.loaded == PutAll(h.file, opts) && entered.running
      && final.running && !final.masked && final.loaded == final.file
      && (forall k :: At(final.file, k) == ValueAfter(h.file, body.file, opts, k))
      && (forall k :: ListedOnce(opts, k) ==>
           At(final.file, k) == if Listed(opts, k) then At(h.file, k) else At(body.file, k))
  {
    SaveAndSetFile(h, opts);
    RestartLoads(SaveAndSet(h, opts).host);
    var saved := SavedOf(h.file, opts);
    SetAllFile(body, saved);
    RestartLoads(SetAll(body, saved).host);
    forall k ensures At(PutAll(body.file, saved), k) == ValueAfter(h.file, body.file, opts, k) {
      RestoredValue(h.file, body.file, opts, k);
    }
    forall k | ListedOnce(opts, k)
      ensures ValueAfter(h.file, body.file, opts, k) ==
              if Listed(opts, k) then At(h.file, k) else At(body.file, k)
    {
      RestoredOnce(h.file, body.file, opts, k);
    }
  }

  /** Listed twice, an option is left with the first of its two values, whatever it was before. */
  lemma DuplicateLeaks(h: Host, k: Key, a: string, b: string, body: Host)
    requires EnterConfig(h, [Opt(k, Some(a)), Opt(k, Some(b))]).ok
    requires ExitConfig(body, EnterConfig(h, [Opt(k, Some(a)), Opt(k, Some(b))]).saved).ok
    ensures var e := EnterConfig(h, [Opt(k, Some(a)), Opt(k, Some(b))]);
      At(ExitConfig(body, e.saved).host.file, k) == Some(a)
  {
    hide EnterConfig, ExitConfig;
    var opts := [Opt(k, Some(a)), Opt(k, Some(b))];
    RestoreTheorem(h, opts, body);
    assert opts[..1] == [Opt(k, Some(a))];
    assert LastIndex(opts, k) == 1 && LastIndex(opts[..1], k) == 0;
  }

  // ---------- entries and exits that fail ----------

  ghost predicate AllDone(h: Host, count: nat) { forall n :: h.step <= n < h.step + count ==> h.fate(n) == Done }

  /** The entry loop gets and sets each option in turn. Setting number i takes effect when every
      command before it was carried out and it was not lost itself. */
  ghost predicate EntrySets(h: Host, i: nat) { AllDone(h, 2 * i + 1) && h.fate(h.step + 2 * i + 1) != Lost }

  /** How many of the first n settings take effect. */
  ghost function EntryReach(h: Host, n: nat): (r: nat)
    ensures r <= n
    ensures forall i: nat :: i < n ==> (i < r <==> EntrySets(h, i))
  {
    if n == 0 then 0 else
      var r := EntryReach(h, n - 1);
      if r == n - 1 && EntrySets(h, n - 1) then n else
        assert EntrySets(h, n - 1) && n > 1 ==> EntrySets(h, n - 2);
        r
  }

  /** However the entry loop ends, the file holds exactly those settings. */
  lemma {:induction false} PartialEntry(h: Host, opts: seq<Opt>)
    ensures var e := SaveAndSet(h, opts);
      && e.host.file == PutAll(h.file, opts[..EntryReach(h, |opts|)])
      && (e.ok <==> AllDone(h, 2 * |opts|)) && (e.ok ==> e.host.step == h.step + 2 * |opts|)
  {
    hide SaveTurn, EntryReach;
    if opts == [] {
      assert opts[..EntryReach(h, 0)] == [];
    } else {
      PartialEntry(h, opts[..|opts| - 1]);
      EntryTurn(SaveAndSet(h, opts[..|opts| - 1]), opts[|opts| - 1]);
      EntryReachTurn(h, opts);
    }
  }

  lemma EntryTurn(e: Entered, o: Opt)
    ensures var e' := SaveTurn(e, o);
      if !e.ok then e' == e else
        var get, put := e.host.fate(e.host.step), e.host.fate(e.host.step + 1);
        && (e'.ok <==> get == put == Done) && (e'.ok ==> e'.host.step == e.host.step + 2)
        && e'.host.file == if get == Done && put != Lost then Put(e.host.file, o) else e.host.file
  {
    hide Issue;
    EntryStep(e.host, o);
  }

  lemma EntryReachTurn(h: Host, opts: seq<Opt>)
    requires opts != []
    ensures var init, n := opts[..|opts| - 1], |opts| - 1;
      && init[..EntryReach(h, n)] == opts[..EntryReach(h, n)] && PutAll(h.file, opts[..|opts|]) ==
           Put(PutAll(h.file, init), opts[n])
      && (AllDone(h, 2 * n) ==> EntryReach(h, n) == n && init[..n] == init)
      && EntryReach(h, |opts|) == if EntrySets(h, n) then n + 1 else EntryReach(h, n)
  {
    var n := |opts| - 1;
    assert opts[..|opts|] == opts;
    assert AllDone(h, 2 * n) && n > 0 ==> EntrySets(h, n - 1);
    assert EntrySets(h, n) ==> AllDone(h, 2 * n);
  }

  lemma EditStep(h: Host, o: Opt)
    ensures var put := Issue(h, Edit(o));
      && (put.ok <==> h.fate(h.step) == Done) && put.host.step == h.step + 1
      && put.host.file == if h.fate(h.step) == Lost then h.file else Put(h.file, o)
  {}

  /** One turn of the entry loop. */
  lemma EntryStep(h: Host, o: Opt)
    ensures var got := Issue(h, Get);
      && (got.ok <==> h.fate(h.step) == Done) && got.host.file == h.file && got.host.step == h.step + 1
      && var put := Issue(got.host, Edit(o));
         && (put.ok <==> h.fate(h.step + 1) == Done) && put.host.step == h.step + 2
         && put.host.file == if h.fate(h.step + 1) == Lost then h.file else Put(h.file, o)
  {
    EditStep(Issue(h, Get).host, o);
  }

  /** The restoring loop only sets. */
  ghost predicate ExitSets(h: Host, i: nat) { AllDone(h, i) && h.fate(h.step + i) != Lost }

  ghost function ExitReach(h: Host, n: nat): (r: nat)
    ensures r <= n
    ensures forall i: nat :: i < n ==> (i < r <==> ExitSets(h, i))
  {
    if n == 0 then 0 else
      var r := ExitReach(h, n - 1);
      if r == n - 1 && ExitSets(h, n - 1) then n else
        assert ExitSets(h, n - 1) && n > 1 ==> ExitSets(h, n - 2);
        r
  }

  /** However the restoring loop ends, the file holds exactly the settings that took effect. */
  lemma {:induction false} PartialExit(h: Host, opts: seq<Opt>)
    ensures var r := SetAll(h, opts);
      && r.host.file == PutAll(h.file, opts[..ExitReach(h, |opts|)])
      && (r.ok <==> AllDone(h, |opts|)) && (r.ok ==> r.host.step == h.step + |opts|)
  {
    hide Issue;
    if opts != [] {
      var init, last, n := opts[..|opts| - 1], opts[|opts| - 1], |opts| - 1;
      PartialExit(h, init);
      var r, k := SetAll(h, init), ExitReach(h, n);
      assert init[..k] == opts[..k] && opts[..n] == init && opts[..|opts|] == opts;
      if r.ok {
        assert n > 0 ==> ExitSets(h, n - 1);
        EditStep(r.host, last);
      } else {
        assert !ExitSets(h, n);
      }
    }
  }

  /** A failed entry is not undone: an option set before the service refused to stop stays set. */
  lemma FailedEntryLeaks(h: Host, o: Opt)
    requires h.fate(h.step) == h.fate(h.step + 1) == Done && h.fate(h.step + 2) == Lost
    ensures !EnterConfig(h, [o]).ok && EnterConfig(h, [o]).host.file == Put(h.file, o)
  {
    PartialEntry(h, [o]);
    assert EntrySets(h, 0) && [o][..1] == [o] && [o][..0] == [];
    assert PutAll(h.file, [o]) == Put(h.file, o);
    var e := SaveAndSet(h, [o]);
    StopWorksIff(e.host);
    RestartLoads(e.host);
  }

  /** The file a failed entry leaves behind is the one it found. */
  ghost predicate HarmlessUnder(h: Host, opts: seq<Opt>, fate: nat -> Fate)
  {
    var e := EnterConfig(h.(fate := fate), opts);
    !e.ok ==> e.host.file == h.file
  }

  ghost predicate AlreadySet(file: Config, opts: seq<Opt>)
  {
    forall i :: 0 <= i < |opts| ==> opts[i].value == At(file, opts[i].key)
  }

  /** It leaves the file as it was, whatever commands fail, if and only
      if every listed option already has the value asked for. */
  lemma FailedEntryHarmlessIff(h: Host, opts: seq<Opt>)
    ensures (forall fate :: HarmlessUnder(h, opts, fate)) <==> AlreadySet(h.file, opts)
  {
    if AlreadySet(h.file, opts) {
      forall fate ensures HarmlessUnder(h, opts, fate) {
        NoChangeHarmless(h, opts, fate);
      }
    } else {
      var i := FirstChange(h.file, opts);
      LateSetHarms(h, opts, i);
    }
  }

  lemma {:induction false} PutNothingNew(file: Config, opts: seq<Opt>)
    requires AlreadySet(file, opts)
    ensures PutAll(file, opts) == file
  {
    if opts != [] {
      PutNothingNew(file, opts[..|opts| - 1]);
      assert Put(file, opts[|opts| - 1]) == file;
    }
  }

  lemma NoChangeHarmless(h: Host, opts: seq<Opt>, fate: nat -> Fate)
    requires AlreadySet(h.file, opts)
    ensures HarmlessUnder(h, opts, fate)
  {
    var h' := h.(fate := fate);
    PartialEntry(h', opts);
    PutNothingNew(h.file, opts[..EntryReach(h', |opts|)]);
    RestartLoads(SaveAndSet(h', opts).host);
  }

  lemma {:induction false} FirstChange(file: Config, opts: seq<Opt>) returns (i: nat)
    requires !AlreadySet(file, opts)
    ensures i < |opts| && opts[i].value != At(file, opts[i].key) && AlreadySet(file, opts[..i])
  {
    var init := opts[..|opts| - 1];
    if AlreadySet(file, init) {
      i := |opts| - 1;
    } else {
      i := FirstChange(file, init);
      assert init[..i] == opts[..i];
    }
  }

  /** Every command works up to the setting of option i, which takes effect but reports failure. */
  lemma LateSetHarms(h: Host, opts: seq<Opt>, i: nat)
    requires i < |opts| && opts[i].value != At(h.file, opts[i].key) && AlreadySet(h.file, opts[..i])
    ensures exists fate :: !HarmlessUnder(h, opts, fate)
  {
    var at := h.step + 2 * i + 1;
    var fate := (n: nat) => if n == at then Late else Done;
    var h' := h.(fate := fate);
    PartialEntry(h', opts);
    assert fate(at) == Late;
    assert EntrySets(h', i) && (i + 1 < |opts| ==> !EntrySets(h', i + 1));
    assert EntryReach(h', |opts|) == i + 1;
    assert opts[..i + 1][..i] == opts[..i];
    PutNothingNew(h.file, opts[..i]);
    assert At(PutAll(h.file, opts[..i + 1]), opts[i].key) == opts[i].value;
    assert !HarmlessUnder(h, opts, fate);
  }

  /** When no command fails the entry and exit cannot fail either, unless the unmask command
      is configured without a mask command. */
  ghost predicate Reliable(h: Host)
  {
    && (forall n :: n >= h.step ==> h.fate(n) == Done)
    && (h.masked ==> h.manager.Plain? && h.manager.unmask)
    && (h.manager.Plain? && h.manager.unmask ==> h.manager.mask)
  }

  lemma ReliableIssue(h: Host, c: Command)
    requires Reliable(h) && !Refused(h, c)
    requires c == Mask ==> h.manager.Plain? && h.manager.unmask
    ensures Issue(h, c).ok && Reliable(Issue(h, c).host)
  {}

  lemma ReliableStop(h: Host)
    requires Reliable(h)
    ensures var r := StopService(h); r.ok && Reliable(r.host) && !r.host.running && r.host.file == h.file
  {
    var r := Issue(h, Stop);
    ReliableIssue(h, Stop);
    match h.manager
    case Plain(_, unmask) => if unmask { ReliableIssue(r.host, Mask); }
    case Polling => ReliableIssue(r.host, Await);
    StopEffect(h);
  }

  lemma ReliableStart(h: Host)
    requires Reliable(h)
    ensures var r := StartService(h);
      && r.ok && Reliable(r.host) && r.host.running && r.host.file == h.file
      && r.host.loaded == if h.running then h.loaded else h.file
  {
    var h' := h;
    if h.manager.Plain? && h.manager.unmask {
      ReliableIssue(h, Unmask);
      h' := Issue(h, Unmask).host;
      assert !h'.masked && h'.running == h.running && h'.file == h.file && h'.loaded == h.loaded;
    }
    ReliableIssue(h', Start);
    IssueStart(h');
    if h.manager.Polling? {
      ReliableIssue(Issue(h', Start).host, Await);
    }
  }

  lemma ReliableRestart(h: Host)
    requires Reliable(h)
    ensures Restart(h).ok && Reliable(Restart(h).host)
  {
    ReliableStop(h);
    ReliableStart(StopService(h).host);
  }

  lemma {:induction false} ReliableSave(h: Host, opts: seq<Opt>)
    requires Reliable(h)
    ensures SaveAndSet(h, opts).ok && Reliable(SaveAndSet(h, opts).host)
  {
    if opts != [] {
      ReliableSave(h, opts[..|opts| - 1]);
    }
  }

  lemma {:induction false} ReliableSetAll(h: Host, opts: seq<Opt>)
    requires Reliable(h)
    ensures SetAll(h, opts).ok && Reliable(SetAll(h, opts).host)
  {
    if opts != [] {
      ReliableSetAll(h, opts[..|opts| - 1]);
    }
  }

  lemma ReliableConfig(h: Host, opts: seq<Opt>)
    requires Reliable(h)
    ensures EnterConfig(h, opts).ok && Reliable(EnterConfig(h, opts).host)
    ensures ExitConfig(h, opts).ok && Reliable(ExitConfig(h, opts).host)
  {
    ReliableSave(h, opts);
    ReliableRestart(SaveAndSet(h, opts).host);
    ReliableSetAll(h, opts);
    ReliableRestart(SetAll(h, opts).host);
  }

  /** How many commands a complete restart takes, half of them to stop. */
  function RestartLength(m: Manager): nat { if m.Polling? || m.unmask then 4 else 2 }

  /** The one setting of the four that cannot work: unmask set, mask unset. */
  predicate MaskMissing(m: Manager) { m.Plain? && m.unmask && !m.mask }

  /** A unit somebody masked stays masked under a manager that does not unmask. */
  predicate StaysMasked(h: Host) { h.masked && !(h.manager.Plain? && h.manager.unmask) }

  lemma StopWorksIff(h: Host)
    ensures var r, n := StopService(h), RestartLength(h.manager) / 2;
      && (r.ok <==> AllDone(h, n) && !MaskMissing(h.manager))
      && (r.ok ==> r.host.step == h.step + n && StaysMasked(r.host) == StaysMasked(h))
  {
    var r := Issue(h, Stop);
    assert r.ok <==> h.fate(h.step) == Done;
  }

  lemma StartWorksIff(h: Host)
    ensures var r, n := StartService(h), RestartLength(h.manager) / 2;
      && (r.ok <==> AllDone(h, n) && !StaysMasked(h))
      && (r.ok ==> r.host.step == h.step + n)
  {
    if h.manager.Plain? && h.manager.unmask {
      var r := Issue(h, Unmask);
      assert r.ok <==> h.fate(h.step) == Done;
      assert r.ok ==> !r.host.masked;
    } else {
      var r := Issue(h, Start);
      assert r.ok <==> h.fate(h.step) == Done && !h.masked;
    }
  }

  /** A restart succeeds if and only if each of its commands is carried out (masking and unmasking, or
      the subclasses' two waits, included), it is not the case that unmask is set and mask is not, and
      the unit is not masked under a manager that does not unmask. */
  lemma RestartWorksIff(h: Host)
    ensures var n := RestartLength(h.manager);
      && (Restart(h).ok <==> AllDone(h, n) && !MaskMissing(h.manager) && !StaysMasked(h))
      && (Restart(h).ok ==> Restart(h).host.step == h.step + n)
  {
    StopWorksIff(h);
    var stopped := StopService(h).host;
    if StopService(h).ok {
      StartWorksIff(stopped);
      var half := RestartLength(h.manager) / 2;
      assert AllDone(h, 2 * half) <==> AllDone(h, half) && AllDone(stopped, half);
    }
  }

  // ---------- nothing is issued after a failure ----------

  /** Every command but the last one issued was carried out, and on success the last one too. */
  ghost predicate StopsAtFailure(h: Host, h': Host, ok: bool)
  {
    && Later(h, h')
    && (forall n :: h.step <= n < h'.step - 1 ==> h.fate(n) == Done)
    && (ok ==> forall n :: h.step <= n < h'.step ==> h.fate(n) == Done)
  }

  lemma ThenStops(h: Host, h': Host, h'': Host, ok: bool)
    requires StopsAtFailure(h, h', true) && StopsAtFailure(h', h'', ok)
    ensures StopsAtFailure(h, h'', ok)
  {}

  lemma ServiceStopsAtFailure(h: Host)
    ensures StopsAtFailure(h, StartService(h).host, StartService(h).ok)
    ensures StopsAtFailure(h, StopService(h).host, StopService(h).ok)
  {
    forall h: Host, c ensures StopsAtFailure(h, Issue(h, c).host, Issue(h, c).ok) {}
  }

  /** A restart issues nothing after a command that fails; in particular no start after a failed stop,
      not even when the stop fails for want of a mask command. */
  lemma RestartStopsAtFailure(h: Host)
    ensures StopsAtFailure(h, Restart(h).host, Restart(h).ok)
    ensures MaskMissing(h.manager) ==> Restart(h).host.step <= h.step + 2 && !Restart(h).ok
  {
    hide StartService, StopService;
    ServiceStopsAtFailure(h);
    StopWorksIff(h);
    var r := StopService(h);
    if r.ok {
      ServiceStopsAtFailure(r.host);
      ThenStops(h, r.host, StartService(r.host).host, StartService(r.host).ok);
    }
    MissingMaskStops(h);
  }

  lemma MissingMaskStops(h: Host)
    ensures MaskMissing(h.manager) ==> StopService(h).host.step <= h.step + 2
  {}

  /** The two configuration loops touch the file and nothing else, and stop at a failure. */
  lemma {:induction false} EntryLoopKeepsService(h: Host, opts: seq<Opt>)
    ensures var e := SaveAndSet(h, opts);
      e.host == h.(file := e.host.file, step := e.host.step) && StopsAtFailure(h, e.host, e.ok)
  {
    hide Issue;
    if opts != [] {
      var e, o := SaveAndSet(h, opts[..|opts| - 1]), opts[|opts| - 1];
      EntryLoopKeepsService(h, opts[..|opts| - 1]);
      EditOnly(e.host, o);
      EditOnly(Issue(e.host, Get).host, o);
    }
  }

  lemma EditOnly(h: Host, o: Opt)
    ensures forall c :: c in {Get, Edit(o)} ==> var r := Issue(h, c);
      r.host == h.(file := r.host.file, step := h.step + 1) && (r.ok <==> h.fate(h.step) == Done)
  {}

  lemma {:induction false} ExitLoopKeepsService(h: Host, opts: seq<Opt>)
    ensures var r := SetAll(h, opts);
      r.host == h.(file := r.host.file, step := r.host.step) && StopsAtFailure(h, r.host, r.ok)
  {
    hide Issue;
    if opts != [] {
      ExitLoopKeepsService(h, opts[..|opts| - 1]);
      EditOnly(SetAll(h, opts[..|opts| - 1]).host, opts[|opts| - 1]);
    }
  }

  /** So entry and exit issue nothing after a failure, and when the loop fails the service is not
      restarted: only the file and the count of commands have changed. */
  lemma FailedLoopNoRestart(h: Host, opts: seq<Opt>)
    ensures StopsAtFailure(h, EnterConfig(h, opts).host, EnterConfig(h, opts).ok)
    ensures StopsAtFailure(h, ExitConfig(h, opts).host, ExitConfig(h, opts).ok)
    ensures !AllDone(h, 2 * |opts|) ==> var e := EnterConfig(h, opts);
      !e.ok && e.host == h.(file := e.host.file, step := e.host.step)
    ensures !AllDone(h, |opts|) ==> var r := ExitConfig(h, opts);
      !r.ok && r.host == h.(file := r.host.file, step := r.host.step)
  {
    hide Restart, SaveAndSet, SetAll;
    EntryLoopKeepsService(h, opts);
    PartialEntry(h, opts);
    var e := SaveAndSet(h, opts);
    RestartStopsAtFailure(e.host);
    if e.ok {
      ThenStops(h, e.host, Restart(e.host).host, Restart(e.host).ok);
    }
    ExitLoopKeepsService(h, opts);
    PartialExit(h, opts);
    var r := SetAll(h, opts);
    RestartStopsAtFailure(r.host);
    if r.ok {
      ThenStops(h, r.host, Restart(r.host).host, Restart(r.host).ok);
    }
  }

  // ---------- what every command keeps ----------

  /** No start has reached a masked unit, a masked unit does not run, and only a manager that
      unmasks has masked it. */
  ghost predicate Safe(h: Host)
  {
    !h.maskedStart && (h.masked ==> !h.running && h.manager.Plain? && h.manager.unmask)
  }

  /** `maskedStart` is set by a start issued to a masked unit, by nothing else, and for good; and such
      a start never works. */
  lemma MaskedStartRecorded(h: Host, c: Command)
    ensures Issue(h, c).host.maskedStart <==> h.maskedStart || (c == Start && h.masked)
    ensures c == Start && h.masked ==> !Issue(h, c).ok && Issue(h, c).host.running == h.running
  {}

  lemma SafeIssue(h: Host, c: Command)
    requires Safe(h) && (c == Start ==> !h.masked)
    requires c == Mask ==> !h.running && h.manager.Plain? && h.manager.unmask
    ensures Safe(Issue(h, c).host)
  {}

  lemma SafeStart(h: Host)
    requires Safe(h)
    ensures Safe(StartService(h).host)
  {
    if h.manager.Plain? && h.manager.unmask {
      var r := Issue(h, Unmask);
      SafeIssue(h, Unmask);
      assert r.ok ==> !r.host.masked;
      if r.ok {
        SafeIssue(r.host, Start);
      }
    } else {
      SafeIssue(h, Start);
      SafeIssue(Issue(h, Start).host, Await);
    }
  }

  lemma SafeStop(h: Host)
    requires Safe(h)
    ensures Safe(StopService(h).host)
  {
    var r := Issue(h, Stop);
    SafeIssue(h, Stop);
    SafeIssue(r.host, Await);
    SafeIssue(r.host, Absent);
    if r.ok && h.manager.Plain? && h.manager.unmask {
      assert !r.host.running;
      SafeIssue(r.host, Mask);
    }
  }

  lemma SafeRestart(h: Host)
    requires Safe(h)
    ensures Safe(Restart(h).host)
  {
    SafeStop(h);
    SafeStart(StopService(h).host);
  }

  lemma {:induction false} SafeSave(h: Host, opts: seq<Opt>)
    requires Safe(h)
    ensures Safe(SaveAndSet(h, opts).host)
  {
    if opts != [] {
      var e := SaveAndSet(h, opts[..|opts| - 1]);
      SafeSave(h, opts[..|opts| - 1]);
      SafeIssue(e.host, Get);
      SafeIssue(Issue(e.host, Get).host, Edit(opts[|opts| - 1]));
    }
  }

  lemma {:induction false} SafeSetAll(h: Host, opts: seq<Opt>)
    requires Safe(h)
    ensures Safe(SetAll(h, opts).host)
  {
    if opts != [] {
      var r := SetAll(h, opts[..|opts| - 1]);
      SafeSetAll(h, opts[..|opts| - 1]);
      SafeIssue(r.host, Edit(opts[|opts| - 1]));
    }
  }

  lemma SafeConfig(h: Host, opts: seq<Opt>)
    requires Safe(h)
    ensures Safe(EnterConfig(h, opts).host) && Safe(ExitConfig(h, opts).host)
  {
    SafeSave(h, opts);
    SafeRestart(SaveAndSet(h, opts).host);
    SafeSetAll(h, opts);
    SafeRestart(SetAll(h, opts).host);
  }
}
