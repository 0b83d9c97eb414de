/** The managers as objects whose methods change their host step by step, each method proved
    against the functions of `ServiceHost`. */
module Managers {
  import opened ServiceHost

  class ServiceManager {
    const kind: Manager
    const fate: nat -> Fate
    var step: nat
    var file: Config
    var loaded: Config
    var running: bool
    var masked: bool
    var maskedStart: bool

    ghost function State(): Host
      reads this
    {
      Host(kind, fate, step, file, loaded, running, masked, maskedStart)
    }

    constructor (kind: Manager, fate: nat -> Fate, file: Config)
      ensures State() == Host(kind, fate, 0, file, file, true, false, false)
    {
      this.kind, this.fate, this.step := kind, fate, 0;
      this.file, this.loaded := file, file;
      running, masked, maskedStart := true, false, false;
    }

    /** Carry a command out on the host, as far as its fate allows. */
    method Execute(c: Command) returns (ok: bool)
      modifies this
      ensures Res(State(), ok) == Issue(old(State()), c)
      ensures step == old(step) + 1 && (ok ==> fate(old(step)) == Done)
      ensures file == if c.Edit? && fate(old(step)) != Lost then Put(old(file), c.opt) else old(file)
      ensures ok && c == Start ==> running && !masked
      ensures ok && c == Stop ==> !running
    {
      IssueFacts(State(), c);
      var f := fate(step);
      step := step + 1;
      if c == Start && masked {
        maskedStart := true;
      }
      ok := f == Done && c != Absent && !(c == Start && masked);
      if f != Lost {
        match c
        case Edit(opt) => file := Put(file, opt);
        case Start => if !masked && !running { running, loaded := true, file; }
        case Stop => running := false;
        case Mask => masked := true;
        case Unmask => masked := false;
        case _ =>
      }
    }

    method StartUnit() returns (ok: bool)
      modifies this
      ensures Res(State(), ok) == StartService(old(State()))
      ensures file == old(file)
      ensures ok && !old(running) ==> running && !masked && loaded == file
      ensures Safe(old(State())) ==> Safe(State())
    {
      StartEffect(State());
      if Safe(State()) { SafeStart(State()); }
      if kind.Polling? {
        ok := Execute(Start);
        if ok {
          ok := Execute(Await);
        }
      } else {
        if kind.unmask {
          ok := Execute(Unmask);
          if !ok { return; }
        }
        ok := Execute(Start);
      }
    }

    method StopUnit() returns (ok: bool)
      modifies this
      ensures Res(State(), ok) == StopService(old(State()))
      ensures file == old(file) && (ok ==> !running)
      ensures Safe(old(State())) ==> Safe(State())
    {
      StopEffect(State());
      if Safe(State()) { SafeStop(State()); }
      ok := Execute(Stop);
      if !ok { return; }
      if kind.Polling? {
        ok := Execute(Await);
      } else if kind.unmask {
        ok := Execute(if kind.mask then Mask else Absent);
      }
    }

    method RestartUnit() returns (ok: bool)
      modifies this
      ensures Res(State(), ok) == Restart(old(State()))
      ensures file == old(file) && (ok ==> running && !masked && loaded == file)
      ensures Safe(old(State())) ==> Safe(State())
    {
      RestartLoads(State());
      ok := StopUnit();
      if ok {
        ok := StartUnit();
      }
    }

    /** `config_options` up to its yield. */
    method EnterConfigOptions(opts: seq<Opt>) returns (initial: seq<Opt>, ok: bool)
      modifies this
      ensures Entered(State(), initial, ok) == EnterConfig(old(State()), opts)
      ensures ok ==> running && !masked && loaded == file == PutAll(old(file), opts)
      ensures ok ==> initial == SavedOf(old(file), opts)
      ensures Safe(old(State())) ==> Safe(State())
    {
      if Safe(State()) { SafeConfig(State(), opts); }
      initial, ok := [], true;
      for k := 0 to |opts|
        invariant Entered(State(), initial, ok) == SaveAndSet(old(State()), opts[..k]) && ok
      {
        ghost var sofar := opts[..k + 1];
        assert sofar[..k] == opts[..k] && sofar[k] == opts[k];
        ok := Execute(Get);
        if ok {
          var value := At(file, opts[k].key);
          initial := initial + [Opt(opts[k].key, value)];
          ok := Execute(Edit(opts[k]));
        }
        if !ok {
          assert Entered(State(), initial, ok) == SaveAndSet(old(State()), sofar);
          SaveStopsAt(old(State()), opts, k + 1);
          return;
        }
      }
      assert opts[..|opts|] == opts;
      SaveAndSetFile(old(State()), opts);
      ok := RestartUnit();
    }

    /** `config_options` after its yield. */
    method ExitConfigOptions(initial: seq<Opt>) returns (ok: bool)
      modifies this
      ensures Res(State(), ok) == ExitConfig(old(State()), initial)
      ensures ok ==> running && !masked && loaded == file == PutAll(old(file), initial)
      ensures Safe(old(State())) ==> Safe(State())
    {
      if Safe(State()) { SafeConfig(State(), initial); }
      ok := true;
      for k := 0 to |initial|
        invariant Res(State(), ok) == SetAll(old(State()), initial[..k]) && ok
      {
        ghost var sofar := initial[..k + 1];
        assert sofar[..k] == initial[..k] && sofar[k] == initial[k];
        ok := Execute(Edit(initial[k]));
        if !ok {
          SetStopsAt(old(State()), initial, k + 1);
          return;
        }
      }
      assert initial[..|initial|] == initial;
      SetAllFile(old(State()), initial);
      ok := RestartUnit();
    }
  }

  lemma IssueFacts(h: Host, c: Command)
    ensures var r := Issue(h, c);
      && r.host.file == (if c.Edit? && h.fate(h.step) != Lost then Put(h.file, c.opt) else h.file)
      && (r.ok && c == Start ==> r.host.running && !r.host.masked)
      && (r.ok && c == Stop ==> !r.host.running)
  {}

  lemma {:induction false} SaveStopsAt(h: Host, opts: seq<Opt>, k: nat)
    requires k <= |opts| && !SaveAndSet(h, opts[..k]).ok
    ensures SaveAndSet(h, opts) == SaveAndSet(h, opts[..k])
    decreases |opts|
  {
    if k == |opts| {
      assert opts[..k] == opts;
    } else {
      var init := opts[..|opts| - 1];
      assert init[..k] == opts[..k];
      SaveStopsAt(h, init, k);
    }
  }

  lemma {:induction false} SetStopsAt(h: Host, opts: seq<Opt>, k: nat)
    requires k <= |opts| && !SetAll(h, opts[..k]).ok
    ensures SetAll(h, opts) == SetAll(h, opts[..k])
    decreases |opts|
  {
    if k == |opts| {
      assert opts[..k] == opts;
    } else {
      var init := opts[..|opts| - 1];
      assert init[..k] == opts[..k];
      SetStopsAt(h, init, k);
    }
  }

  // ---------- config_all_computes ----------

  ghost predicate Distinct(mgrs: seq<ServiceManager>)
  {
    forall i, j :: 0 <= i < j < |mgrs| ==> mgrs[i] != mgrs[j]
  }

  /** `config_all_computes` up to its yield. On success every manager has entered; on failure at
      manager n the managers before n have entered and exited again, n is where its own failed
      entry left it, and those after n are as they were. */
  method EnterAllComputes(mgrs: seq<ServiceManager>, opts: seq<Opt>) returns (saved: seq<seq<Opt>>, ok: bool)
    requires Distinct(mgrs)
    modifies mgrs
    ensures |saved| <= |mgrs| && (ok <==> |saved| == |mgrs|)
    ensures forall i :: 0 <= i < |saved| ==> var e := EnterConfig(old(mgrs[i].State()), opts);
      && e.ok && e.saved == saved[i]
      && mgrs[i].State() == if ok then e.host else ExitConfig(e.host, e.saved).host
    ensures !ok ==> var e := EnterConfig(old(mgrs[|saved|].State()), opts);
      !e.ok && mgrs[|saved|].State() == e.host
    ensures forall i :: |saved| < i < |mgrs| ==> mgrs[i].State() == old(mgrs[i].State())
  {
    hide EnterConfig, ExitConfig;
    saved, ok := [], true;
    while |saved| < |mgrs| && ok
      invariant |saved| <= |mgrs|
      invariant forall i :: 0 <= i < |saved| ==>
        EnterConfig(old(mgrs[i].State()), opts) == Entered(mgrs[i].State(), saved[i], true)
      invariant if ok then forall i :: |saved| <= i < |mgrs| ==> mgrs[i].State() == old(mgrs[i].State())
        else
          && |saved| < |mgrs|
          && EnterConfig(old(mgrs[|saved|].State()), opts).host == mgrs[|saved|].State()
          && !EnterConfig(old(mgrs[|saved|].State()), opts).ok
          && forall i :: |saved| < i < |mgrs| ==> mgrs[i].State() == old(mgrs[i].State())
      decreases |mgrs| - |saved|, ok
    {
      var initial;
      initial, ok := mgrs[|saved|].EnterConfigOptions(opts);
      if ok {
        saved := saved + [initial];
      }
    }
    if !ok {
      var all := ExitAllComputes(mgrs[..|saved|], saved);
    }
  }

  /** The unwinding: the last manager first, going on whatever an exit reports. */
  method ExitAllComputes(mgrs: seq<ServiceManager>, saved: seq<seq<Opt>>) returns (ok: bool)
    requires Distinct(mgrs) && |saved| == |mgrs|
    modifies mgrs
    ensures forall i :: 0 <= i < |mgrs| ==> mgrs[i].State() == ExitConfig(old(mgrs[i].State()), saved[i]).host
    ensures ok <==> forall i :: 0 <= i < |mgrs| ==> ExitConfig(old(mgrs[i].State()), saved[i]).ok
  {
    hide EnterConfig, ExitConfig;
    ok := true;
    var n := |mgrs|;
    while n > 0
      invariant 0 <= n <= |mgrs|
      invariant forall i :: 0 <= i < n ==> mgrs[i].State() == old(mgrs[i].State())
      invariant forall i :: n <= i < |mgrs| ==> mgrs[i].State() == ExitConfig(old(mgrs[i].State()), saved[i]).host
      invariant ok <==> forall i :: n <= i < |mgrs| ==> ExitConfig(old(mgrs[i].State()), saved[i]).ok
    {
      n := n - 1;
      var done := mgrs[n].ExitConfigOptions(saved[n]);
      ok := ok && done;
    }
  }
}
