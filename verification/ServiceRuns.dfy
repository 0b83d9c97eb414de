/** Whole runs over many hosts: bodies nested in `config_options`, `stopped`, `multicontext` and
    `config_all_computes` blocks, with any commands failing on any host. */
module ServiceRuns {
  import opened PyText
  import opened ServiceHost

  datatype Context = Config(host: nat, opts: seq<Opt>) | Stopped(host: nat)

  /** A context that has been entered and must be exited. */
  datatype Frame = ConfigFrame(host: nat, saved: seq<Opt>) | StoppedFrame(host: nat)

  /** What a test does: the bodies are arbitrary. `Attempt` catches whatever its body raises. `With`
      enters all its contexts on one ExitStack; a single `config_options` or `stopped` block is a
      stack of one. */
  datatype Prog =
    | Skip
    | Raise
    | Read(host: nat)
    | Write(host: nat, opt: Opt)
    | Launch(host: nat)
    | Halt(host: nat)
    | Bounce(host: nat)
    | Seq(first: Prog, second: Prog)
    | Attempt(body: Prog)
    | With(contexts: seq<Context>, body: Prog)

  /** `exits` records the hosts in the order in which their contexts were exited. */
  datatype World = World(hosts: seq<Host>, exits: seq<nat>)

  datatype Outcome = Outcome(world: World, ok: bool)

  ghost predicate Fits(p: Prog, n: nat)
  {
    match p
    case Skip => true
    case Raise => true
    case Read(h) => h < n
    case Write(h, _) => h < n
    case Launch(h) => h < n
    case Halt(h) => h < n
    case Bounce(h) => h < n
    case Seq(a, b) => Fits(a, n) && Fits(b, n)
    case Attempt(body) => Fits(body, n)
    case With(cs, body) => AllFit(cs, n) && Fits(body, n)
  }

  ghost predicate AllFit(cs: seq<Context>, n: nat) { forall i :: 0 <= i < |cs| ==> cs[i].host < n }

  ghost predicate FramesFit(fs: seq<Frame>, n: nat) { forall i :: 0 <= i < |fs| ==> fs[i].host < n }

  // ---------- one context on one host ----------

  /** `__enter__`: the new host state and, unless it raised, the frame. */
  function EnterHost(h: Host, c: Context): (r: (Host, Option<Frame>))
    ensures r.1.Some? ==> r.1.value.host == c.host
  {
    match c
    case Config(i, opts) =>
      var e := EnterConfig(h, opts);
      (e.host, if e.ok then Some(ConfigFrame(i, e.saved)) else None)
    case Stopped(i) =>
      var r := StopService(h);
      (r.host, if r.ok then Some(StoppedFrame(i)) else None)
  }

  function ExitHost(h: Host, f: Frame): Res
  {
    match f
    case ConfigFrame(_, saved) => ExitConfig(h, saved)
    case StoppedFrame(_) => StartService(h)
  }

  function Update(w: World, i: nat, r: Res): Outcome
    requires i < |w.hosts|
  {
    Outcome(w.(hosts := w.hosts[i := r.host]), r.ok)
  }

  function ExitFrame(w: World, f: Frame): Outcome
    requires f.host < |w.hosts|
  {
    var o := Update(w, f.host, ExitHost(w.hosts[f.host], f));
    o.(world := o.world.(exits := o.world.exits + [f.host]))
  }

  // ---------- ExitStack ----------

  datatype Stacked = Stacked(world: World, frames: seq<Frame>, ok: bool)

  /** Enter the contexts in order, as far as the first that raises. */
  function EnterAll(w: World, cs: seq<Context>): (s: Stacked)
    requires AllFit(cs, |w.hosts|)
    ensures |s.world.hosts| == |w.hosts| && FramesFit(s.frames, |w.hosts|)
    decreases |cs|
  {
    if cs == [] then Stacked(w, [], true) else
      var (h, f) := EnterHost(w.hosts[cs[0].host], cs[0]);
      var w' := w.(hosts := w.hosts[cs[0].host := h]);
      if f.None? then Stacked(w', [], false) else
        var s := EnterAll(w', cs[1..]);
        s.(frames := [f.value] + s.frames)
  }

  /** Pop every frame, whatever the exits raise. */
  function Unwind(w: World, fs: seq<Frame>): (o: Outcome)
    requires FramesFit(fs, |w.hosts|)
    ensures |o.world.hosts| == |w.hosts|
    decreases |fs|
  {
    if fs == [] then Outcome(w, true) else
      var x := ExitFrame(w, fs[|fs| - 1]);
      var rest := Unwind(x.world, fs[..|fs| - 1]);
      Outcome(rest.world, x.ok && rest.ok)
  }

  function Run(p: Prog, w: World): (o: Outcome)
    requires Fits(p, |w.hosts|)
    ensures |o.world.hosts| == |w.hosts|
    decreases p
  {
    match p
    case Skip => Outcome(w, true)
    case Raise => Outcome(w, false)
    case Read(i) => Update(w, i, Issue(w.hosts[i], Get))
    case Write(i, opt) => Update(w, i, Issue(w.hosts[i], Edit(opt)))
    case Launch(i) => Update(w, i, StartService(w.hosts[i]))
    case Halt(i) => Update(w, i, StopService(w.hosts[i]))
    case Bounce(i) => Update(w, i, Restart(w.hosts[i]))
    case Seq(a, b) =>
      var o := Run(a, w);
      if o.ok then Run(b, o.world) else o
    case Attempt(body) => Outcome(Run(body, w).world, true)
    case With(cs, body) =>
      var s := EnterAll(w, cs);
      var o := if s.ok then Run(body, s.world) else Outcome(s.world, false);
      var x := Unwind(o.world, s.frames);
      Outcome(x.world, o.ok && x.ok)
  }

  /** The same blocks written as nested `with` statements, without a stack. */
  function Nested(cs: seq<Context>, body: Prog, w: World): (o: Outcome)
    requires AllFit(cs, |w.hosts|) && Fits(body, |w.hosts|)
    ensures |o.world.hosts| == |w.hosts|
    decreases |cs|
  {
    if cs == [] then Run(body, w) else
      var (h, f) := EnterHost(w.hosts[cs[0].host], cs[0]);
      var w' := w.(hosts := w.hosts[cs[0].host := h]);
      if f.None? then Outcome(w', false) else
        var o := Nested(cs[1..], body, w');
        var x := ExitFrame(o.world, f.value);
        Outcome(x.world, o.ok && x.ok)
  }

  lemma {:induction false} UnwindCons(w: World, f: Frame, fs: seq<Frame>)
    requires f.host < |w.hosts| && FramesFit(fs, |w.hosts|)
    ensures FramesFit([f] + fs, |w.hosts|)
    ensures var r := Unwind(w, fs);
      var x := ExitFrame(r.world, f);
      Unwind(w, [f] + fs) == Outcome(x.world, r.ok && x.ok)
    decreases |fs|
  {
    hide EnterHost, ExitHost;
    var all := [f] + fs;
    if fs == [] {
      assert all == [f] && all[..0] == [];
    } else {
      var last := fs[|fs| - 1];
      assert all[|all| - 1] == last && all[..|all| - 1] == [f] + fs[..|fs| - 1];
      UnwindCons(ExitFrame(w, last).world, f, fs[..|fs| - 1]);
    }
  }

  /** An ExitStack does exactly what the nested `with` statements would do, failures and exit
      order included. */
  lemma {:induction false} StackIsNested(cs: seq<Context>, body: Prog, w: World)
    requires AllFit(cs, |w.hosts|) && Fits(body, |w.hosts|)
    ensures Run(With(cs, body), w) == Nested(cs, body, w)
    decreases |cs|
  {
    hide EnterHost, ExitHost;
    if cs != [] {
      var (h, f) := EnterHost(w.hosts[cs[0].host], cs[0]);
      var w' := w.(hosts := w.hosts[cs[0].host := h]);
      if f.Some? {
        StackIsNested(cs[1..], body, w');
        var s := EnterAll(w', cs[1..]);
        var o := if s.ok then Run(body, s.world) else Outcome(s.world, false);
        UnwindCons(o.world, f.value, s.frames);
      }
    }
  }

  // ---------- safety of every run ----------

  ghost predicate AllSafe(w: World) { forall i :: 0 <= i < |w.hosts| ==> Safe(w.hosts[i]) }

  lemma SafeContext(h: Host, c: Context, f: Frame)
    requires Safe(h)
    ensures Safe(EnterHost(h, c).0) && Safe(ExitHost(h, f).host)
  {
    match c {
      case Config(_, opts) => SafeConfig(h, opts);
      case Stopped(_) => SafeStop(h);
    }
    match f {
      case ConfigFrame(_, saved) => SafeConfig(h, saved);
      case StoppedFrame(_) => SafeStart(h);
    }
  }

  /** Whatever the run, whatever fails, and however the mask and unmask commands are set: no
      start is ever issued to a masked unit, and no masked unit is running. */
  lemma {:induction false} EveryRunIsSafe(p: Prog, w: World)
    requires Fits(p, |w.hosts|) && AllSafe(w)
    ensures AllSafe(Run(p, w).world)
    decreases p, 1
  {
    match p {
      case Skip =>
      case Raise =>
      case Read(i) => SafeIssue(w.hosts[i], Get);
      case Write(i, opt) => SafeIssue(w.hosts[i], Edit(opt));
      case Launch(i) => SafeStart(w.hosts[i]);
      case Halt(i) => SafeStop(w.hosts[i]);
      case Bounce(i) => SafeRestart(w.hosts[i]);
      case Seq(a, b) =>
        EveryRunIsSafe(a, w);
        if Run(a, w).ok {
          EveryRunIsSafe(b, Run(a, w).world);
        }
      case Attempt(body) => EveryRunIsSafe(body, w);
      case With(cs, body) =>
        StackIsNested(cs, body, w);
        NestedIsSafe(cs, body, w);
    }
  }

  lemma {:induction false} NestedIsSafe(cs: seq<Context>, body: Prog, w: World)
    requires AllFit(cs, |w.hosts|) && Fits(body, |w.hosts|) && AllSafe(w)
    ensures AllSafe(Nested(cs, body, w).world)
    decreases body, 2, |cs|
  {
    hide EnterHost, ExitHost;
    if cs == [] {
      EveryRunIsSafe(body, w);
    } else {
      var (h, f) := EnterHost(w.hosts[cs[0].host], cs[0]);
      SafeContext(w.hosts[cs[0].host], cs[0], StoppedFrame(0));
      if f.Some? {
        var w' := w.(hosts := w.hosts[cs[0].host := h]);
        NestedIsSafe(cs[1..], body, w');
        var o := Nested(cs[1..], body, w');
        SafeContext(o.world.hosts[f.value.host], cs[0], f.value);
      }
    }
  }

  // ---------- a reliable host among unreliable ones ----------

  /** Nothing in the program writes option k of host i directly, and no block lists it twice. */
  ghost predicate Spares(p: Prog, i: nat, k: Key)
  {
    match p
    case Write(j, opt) => j != i || opt.key != k
    case Seq(a, b) => Spares(a, i, k) && Spares(b, i, k)
    case Attempt(body) => Spares(body, i, k)
    case With(cs, body) => SparedBy(cs, i, k) && Spares(body, i, k)
    case _ => true
  }

  ghost predicate SparedBy(cs: seq<Context>, i: nat, k: Key)
  {
    forall n :: 0 <= n < |cs| && cs[n].Config? && cs[n].host == i ==> ListedOnce(cs[n].opts, k)
  }

  lemma ReliableEnter(h: Host, c: Context)
    requires Reliable(h)
    ensures EnterHost(h, c).1.Some? && Reliable(EnterHost(h, c).0)
  {
    match c {
      case Config(_, opts) => ReliableConfig(h, opts);
      case Stopped(_) => ReliableStop(h);
    }
  }

  lemma ReliableExit(h: Host, f: Frame)
    requires Reliable(h)
    ensures ExitHost(h, f).ok && Reliable(ExitHost(h, f).host)
  {
    match f {
      case ConfigFrame(_, saved) => ReliableConfig(h, saved);
      case StoppedFrame(_) => ReliableStart(h);
    }
  }

  /** A block undoes itself on option k if its body leaves k as it found it. */
  lemma BracketRestores(h: Host, c: Context, body: Host, k: Key)
    requires Reliable(h) && Reliable(body)
    requires c.Config? ==> ListedOnce(c.opts, k)
    requires At(body.file, k) == At(EnterHost(h, c).0.file, k)
    ensures EnterHost(h, c).1.Some?
    ensures At(ExitHost(body, EnterHost(h, c).1.value).host.file, k) == At(h.file, k)
  {
    ReliableEnter(h, c);
    match c {
      case Config(_, opts) =>
        ReliableSave(h, opts);
        SaveAndSetFile(h, opts);
        RestartLoads(SaveAndSet(h, opts).host);
        var saved := SavedOf(h.file, opts);
        ReliableSetAll(body, saved);
        SetAllFile(body, saved);
        RestartLoads(SetAll(body, saved).host);
        RestoredValue(h.file, body.file, opts, k);
        RestoredOnce(h.file, body.file, opts, k);
        PutAllAt(h.file, opts, k);
      case Stopped(_) =>
        StopEffect(h);
        StartEffect(body);
    }
  }

  /** On a host none of whose commands fails, every option that is not written directly keeps its
      value through any run, however deep the blocks nest, whether bodies return or raise, and
      whatever fails on the other hosts. */
  lemma {:induction false} OptionsReturn(p: Prog, w: World, i: nat, k: Key)
    requires Fits(p, |w.hosts|) && i < |w.hosts|
    requires Reliable(w.hosts[i]) && Spares(p, i, k)
    ensures var h' := Run(p, w).world.hosts[i]; Reliable(h') && At(h'.file, k) == At(w.hosts[i].file, k)
    decreases p, 1
  {
    var h := w.hosts[i];
    match p {
      case Skip =>
      case Raise =>
      case Read(j) => ReliableIssue(h, Get);
      case Write(j, opt) => ReliableIssue(h, Edit(opt));
      case Launch(j) => ReliableStart(h);
      case Halt(j) => ReliableStop(h);
      case Bounce(j) =>
        ReliableRestart(h);
        RestartLoads(h);
      case Seq(a, b) =>
        OptionsReturn(a, w, i, k);
        if Run(a, w).ok {
          OptionsReturn(b, Run(a, w).world, i, k);
        }
      case Attempt(body) => OptionsReturn(body, w, i, k);
      case With(cs, body) =>
        StackIsNested(cs, body, w);
        NestedReturn(cs, body, w, i, k);
    }
  }

  lemma {:induction false} NestedReturn(cs: seq<Context>, body: Prog, w: World, i: nat, k: Key)
    requires AllFit(cs, |w.hosts|) && Fits(body, |w.hosts|) && i < |w.hosts|
    requires Reliable(w.hosts[i]) && SparedBy(cs, i, k) && Spares(body, i, k)
    ensures var h' := Nested(cs, body, w).world.hosts[i];
      Reliable(h') && At(h'.file, k) == At(w.hosts[i].file, k)
    decreases body, 2, |cs|
  {
    hide EnterHost, ExitHost;
    if cs == [] {
      OptionsReturn(body, w, i, k);
    } else {
      var c := cs[0];
      var (h, f) := EnterHost(w.hosts[c.host], c);
      var w' := w.(hosts := w.hosts[c.host := h]);
      if c.host == i {
        ReliableEnter(w.hosts[i], c);
      }
      if f.Some? {
        NestedReturn(cs[1..], body, w', i, k);
        var left := Nested(cs[1..], body, w').world.hosts[i];
        if c.host == i {
          BracketRestores(w.hosts[i], c, left, k);
          ReliableExit(left, f.value);
        }
      }
    }
  }

  /** Nothing in the program writes host i's file directly, and no block lists one of its options
      twice. Direct starts and stops are allowed. */
  ghost predicate Writeless(p: Prog, i: nat)
  {
    match p
    case Write(j, _) => j != i
    case Seq(a, b) => Writeless(a, i) && Writeless(b, i)
    case Attempt(body) => Writeless(body, i)
    case With(cs, body) => (forall k :: SparedBy(cs, i, k)) && Writeless(body, i)
    case _ => true
  }

  lemma {:induction false} WritelessSpares(p: Prog, i: nat, k: Key)
    requires Writeless(p, i)
    ensures Spares(p, i, k)
  {
    match p {
      case Seq(a, b) =>
        WritelessSpares(a, i, k);
        WritelessSpares(b, i, k);
      case Attempt(body) => WritelessSpares(body, i, k);
      case With(cs, body) =>
        WritelessSpares(body, i, k);
        assert SparedBy(cs, i, k);
      case _ =>
    }
  }

  /** A running service runs on the file as it is. */
  ghost predicate Synced(h: Host) { h.running ==> h.loaded == h.file }

  /** What can be said of the service on host i from the program text alone: whether it surely runs
      when the program returns, and whether it surely runs when the program raises. */
  datatype Upkeep = Upkeep(returned: bool, raised: bool)

  /** `up` is whether it surely runs at the start. On the host itself nothing fails; anything done to
      another host may raise. */
  ghost function UpAfter(p: Prog, i: nat, up: bool): Upkeep
    decreases p, 0
  {
    match p
    case Skip => Upkeep(up, true)
    case Raise => Upkeep(true, up)
    case Read(j) => Upkeep(up, j == i || up)
    case Write(j, _) => Upkeep(up, j == i || up)
    case Launch(j) => if j == i then Upkeep(true, true) else Upkeep(up, up)
    case Halt(j) => if j == i then Upkeep(false, true) else Upkeep(up, up)
    case Bounce(j) => if j == i then Upkeep(true, true) else Upkeep(up, up)
    case Seq(a, b) =>
      var u := UpAfter(a, i, up);
      var v := UpAfter(b, i, u.returned);
      Upkeep(v.returned, u.raised && v.raised)
    case Attempt(body) =>
      var u := UpAfter(body, i, up);
      Upkeep(u.returned && u.raised, true)
    case With(cs, body) => UpAfterNested(cs, body, i, up)
  }

  /** A block on host i leaves the service running however its body ends; a block on another host may
      raise on entry, and on exit after its body returned. */
  ghost function UpAfterNested(cs: seq<Context>, body: Prog, i: nat, up: bool): Upkeep
    decreases body, |cs| + 1
  {
    if cs == [] then UpAfter(body, i, up)
    else if cs[0].host == i then Upkeep(true, true)
    else
      var u := UpAfterNested(cs[1..], body, i, up);
      Upkeep(u.returned, up && u.raised && u.returned)
  }

  ghost predicate Kept(u: Upkeep, o: Outcome, i: nat)
    requires i < |o.world.hosts|
  {
    var h := o.world.hosts[i];
    Reliable(h) && Synced(h) && ((if o.ok then u.returned else u.raised) ==> h.running)
  }

  lemma {:induction false} ServiceReturns(p: Prog, w: World, i: nat, up: bool)
    requires Fits(p, |w.hosts|) && i < |w.hosts| && Writeless(p, i)
    requires Reliable(w.hosts[i]) && Synced(w.hosts[i]) && (up ==> w.hosts[i].running)
    ensures Kept(UpAfter(p, i, up), Run(p, w), i)
    decreases p, 1
  {
    var h := w.hosts[i];
    match p {
      case Skip =>
      case Raise =>
      case Read(j) => ReliableIssue(h, Get);
      case Write(j, opt) =>
      case Launch(j) => ReliableStart(h);
      case Halt(j) => ReliableStop(h);
      case Bounce(j) =>
        ReliableRestart(h);
        RestartLoads(h);
      case Seq(a, b) =>
        ServiceReturns(a, w, i, up);
        if Run(a, w).ok {
          ServiceReturns(b, Run(a, w).world, i, UpAfter(a, i, up).returned);
        }
      case Attempt(body) => ServiceReturns(body, w, i, up);
      case With(cs, body) =>
        StackIsNested(cs, body, w);
        NestedService(cs, body, w, i, up);
    }
  }

  lemma BracketService(h: Host, c: Context)
    requires Reliable(h)
    ensures EnterHost(h, c).1.Some? && Reliable(EnterHost(h, c).0) && Synced(EnterHost(h, c).0)
  {
    ReliableEnter(h, c);
    if c.Config? {
      RestartLoads(SaveAndSet(h, c.opts).host);
    } else {
      StopEffect(h);
    }
  }

  lemma ExitService(h: Host, f: Frame)
    requires Reliable(h) && Synced(h)
    ensures var r := ExitHost(h, f); r.ok && Reliable(r.host) && Synced(r.host) && r.host.running
  {
    ReliableExit(h, f);
    match f {
      case ConfigFrame(_, saved) => RestartLoads(SetAll(h, saved).host);
      case StoppedFrame(_) => ReliableStart(h);
    }
  }

  lemma {:induction false} NestedService(cs: seq<Context>, body: Prog, w: World, i: nat, up: bool)
    requires AllFit(cs, |w.hosts|) && Fits(body, |w.hosts|) && i < |w.hosts| && Writeless(body, i)
    requires Reliable(w.hosts[i]) && Synced(w.hosts[i]) && (up ==> w.hosts[i].running)
    ensures Kept(UpAfterNested(cs, body, i, up), Nested(cs, body, w), i)
    decreases body, 2, |cs|
  {
    hide EnterHost, ExitHost;
    if cs == [] {
      ServiceReturns(body, w, i, up);
    } else {
      var c := cs[0];
      var (h, f) := EnterHost(w.hosts[c.host], c);
      var w' := w.(hosts := w.hosts[c.host := h]);
      if c.host == i {
        BracketService(w.hosts[i], c);
        NestedService(cs[1..], body, w', i, false);
        ExitService(Nested(cs[1..], body, w').world.hosts[i], f.value);
      } else if f.Some? {
        NestedService(cs[1..], body, w', i, up);
      }
    }
  }

  /** A run without direct writes returns a reliable host to its file, whatever it starts and stops and
      whatever fails elsewhere; and if the service runs at the end, it runs unmasked on that file. */
  lemma RunReturnsHost(p: Prog, w: World, i: nat)
    requires Fits(p, |w.hosts|) && AllSafe(w) && i < |w.hosts|
    requires Reliable(w.hosts[i]) && Synced(w.hosts[i]) && Writeless(p, i)
    ensures var h, h' := w.hosts[i], Run(p, w).world.hosts[i];
      h'.file == h.file && !h'.maskedStart && (h'.running ==> h'.loaded == h.file && !h'.masked)
  {
    var h, h' := w.hosts[i], Run(p, w).world.hosts[i];
    ServiceReturns(p, w, i, false);
    EveryRunIsSafe(p, w);
    forall k ensures At(h'.file, k) == At(h.file, k) {
      WritelessSpares(p, i, k);
      OptionsReturn(p, w, i, k);
    }
    SameConfig(h'.file, h.file);
  }

  /** From a running service, the program surely ends with it running, whether it returns or raises:
      every stop is made good by a later start or restart, or by the exit of a surrounding block. */
  ghost predicate Balanced(p: Prog, i: nat)
  {
    Writeless(p, i) && UpAfter(p, i, true) == Upkeep(true, true)
  }

  /** A balanced run returns a reliable host to where it was: same file, service running,
      unmasked, on that file. Other hosts may fail at any point. */
  lemma BalancedRunIsIdentity(p: Prog, w: World, i: nat)
    requires Fits(p, |w.hosts|) && AllSafe(w) && i < |w.hosts|
    requires var h := w.hosts[i]; Reliable(h) && h.running && h.loaded == h.file
    requires Balanced(p, i)
    ensures var h, h' := w.hosts[i], Run(p, w).world.hosts[i];
      h'.file == h.file && h'.loaded == h.loaded && h'.running && !h'.masked && !h'.maskedStart
  {
    RunReturnsHost(p, w, i);
    ServiceReturns(p, w, i, true);
  }

  /** Stopping and starting again is balanced, and so is any stop inside a `config_options` body. */
  lemma BalancedStops(i: nat, opts: seq<Opt>)
    requires forall k :: ListedOnce(opts, k)
    ensures Balanced(Seq(Halt(i), Launch(i)), i)
    ensures Balanced(With([Config(i, opts)], Seq(Halt(i), Raise)), i)
    ensures !Balanced(Halt(i), i) && !Balanced(Seq(Halt(i), Seq(Raise, Launch(i))), i)
  {
    assert UpAfter(Seq(Raise, Launch(i)), i, false) == Upkeep(true, false);
    assert UpAfter(Halt(i), i, true) == Upkeep(false, true);
  }

  lemma SameConfig(a: Config, b: Config)
    requires forall k :: At(a, k) == At(b, k)
    ensures a == b
  {
    assert forall k :: k in a <==> At(a, k).Some?;
    assert forall k :: k in b <==> At(b, k).Some?;
    assert forall k :: k in a ==> At(a, k) == At(b, k);
  }

  // ---------- many hosts on one stack ----------

  ghost predicate DistinctHosts(cs: seq<Context>)
  {
    forall i, j :: 0 <= i < j < |cs| ==> cs[i].host != cs[j].host
  }

  ghost predicate DistinctFrames(fs: seq<Frame>)
  {
    forall i, j :: 0 <= i < j < |fs| ==> fs[i].host != fs[j].host
  }

  lemma {:induction false} EnterLeavesOthers(w: World, cs: seq<Context>, j: nat)
    requires AllFit(cs, |w.hosts|) && j < |w.hosts|
    requires forall i :: 0 <= i < |cs| ==> cs[i].host != j
    ensures EnterAll(w, cs).world.hosts[j] == w.hosts[j]
    decreases |cs|
  {
    hide EnterHost, ExitHost;
    if cs != [] {
      var (h, f) := EnterHost(w.hosts[cs[0].host], cs[0]);
      if f.Some? {
        EnterLeavesOthers(w.(hosts := w.hosts[cs[0].host := h]), cs[1..], j);
      }
    }
  }

  lemma {:induction false} EnterCount(w: World, cs: seq<Context>)
    requires AllFit(cs, |w.hosts|)
    ensures var s := EnterAll(w, cs);
      s.world.exits == w.exits && |s.frames| <= |cs| && (s.ok <==> |s.frames| == |cs|)
    decreases |cs|
  {
    hide EnterHost, ExitHost;
    if cs != [] {
      var (h, f) := EnterHost(w.hosts[cs[0].host], cs[0]);
      if f.Some? {
        EnterCount(w.(hosts := w.hosts[cs[0].host := h]), cs[1..]);
      }
    }
  }

  /** Entering, seen from the host of context i: a context before the failing one left its frame,
      the failing one left its host half way, and a host after it is untouched. */
  lemma {:induction false} EnterAllAt(w: World, cs: seq<Context>, i: nat)
    requires AllFit(cs, |w.hosts|) && DistinctHosts(cs) && i < |cs|
    ensures var s, h := EnterAll(w, cs), w.hosts[cs[i].host];
      var n, h' := |s.frames|, s.world.hosts[cs[i].host];
      if i < n then EnterHost(h, cs[i]) == (h', Some(s.frames[i]))
      else if i == n then EnterHost(h, cs[i]) == (h', None)
      else h' == h
    decreases |cs|
  {
    hide EnterHost;
    var c := cs[0];
    var (h, f) := EnterHost(w.hosts[c.host], c);
    var w' := w.(hosts := w.hosts[c.host := h]);
    if f.Some? {
      if i == 0 {
        EnterLeavesOthers(w', cs[1..], c.host);
      } else {
        EnterAllAt(w', cs[1..], i - 1);
      }
    }
  }

  function Hosts(fs: seq<Frame>): (hs: seq<nat>)
    ensures |hs| == |fs| && forall i :: 0 <= i < |fs| ==> hs[i] == fs[i].host
  {
    seq(|fs|, i requires 0 <= i < |fs| => fs[i].host)
  }

  function Reverse(s: seq<nat>): (r: seq<nat>)
    ensures |r| == |s| && forall i :: 0 <= i < |s| ==> r[i] == s[|s| - 1 - i]
  {
    if s == [] then [] else [s[|s| - 1]] + Reverse(s[..|s| - 1])
  }

  lemma {:induction false} UnwindLeavesOthers(w: World, fs: seq<Frame>, j: nat)
    requires FramesFit(fs, |w.hosts|) && j < |w.hosts|
    requires forall i :: 0 <= i < |fs| ==> fs[i].host != j
    ensures Unwind(w, fs).world.hosts[j] == w.hosts[j]
    decreases |fs|
  {
    hide EnterHost, ExitHost;
    if fs != [] {
      UnwindLeavesOthers(ExitFrame(w, fs[|fs| - 1]).world, fs[..|fs| - 1], j);
    }
  }

  /** The host a context leaves to the body. */
  ghost predicate ReadyFor(before: Host, c: Context, h: Host)
  {
    match c
    case Stopped(_) =>
      && !h.running && h.file == before.file
      && h.masked == (before.masked || (before.manager.Plain? && before.manager.unmask))
    case Config(_, opts) => h.running && !h.masked && h.file == h.loaded == PutAll(before.file, opts)
  }

  lemma EnterReadies(h: Host, c: Context)
    ensures EnterHost(h, c).1.Some? ==> ReadyFor(h, c, EnterHost(h, c).0)
  {
    match c {
      case Stopped(_) => StopEffect(h);
      case Config(_, opts) =>
        if EnterConfig(h, opts).ok {
          SaveAndSetFile(h, opts);
          RestartLoads(SaveAndSet(h, opts).host);
        }
    }
  }

  lemma {:induction false} EnterAllSplit(w: World, cs: seq<Context>, n: nat)
    requires AllFit(cs, |w.hosts|) && n <= |cs| && EnterAll(w, cs).ok
    ensures EnterAll(w, cs[..n]).ok && EnterAll(EnterAll(w, cs[..n]).world, cs[n..]).ok
    ensures EnterAll(w, cs).world == EnterAll(EnterAll(w, cs[..n]).world, cs[n..]).world
    decreases |cs|
  {
    hide EnterHost;
    if n == 0 {
      assert cs[..0] == [] && cs[0..] == cs;
    } else {
      var (h, f) := EnterHost(w.hosts[cs[0].host], cs[0]);
      assert cs[..n][1..] == cs[1..][..n - 1] && cs[n..] == cs[1..][n - 1..];
      EnterAllSplit(w.(hosts := w.hosts[cs[0].host := h]), cs[1..], n - 1);
    }
  }

  /** When the body of a block starts, the host of every context that no later context touches is as
      that context promises: stopped (and masked, if the manager masks) on an unchanged file for
      `stopped`, running on the new file for `config_options`. In particular the host of the last
      context. */
  lemma BodyStartsReady(cs: seq<Context>, w: World, n: nat)
    requires AllFit(cs, |w.hosts|) && n < |cs| && EnterAll(w, cs).ok
    requires forall m :: n < m < |cs| ==> cs[m].host != cs[n].host
    ensures ReadyFor(EnterAll(w, cs[..n]).world.hosts[cs[n].host], cs[n], EnterAll(w, cs).world.hosts[cs[n].host])
  {
    hide EnterHost;
    EnterAllSplit(w, cs, n);
    var w1, c := EnterAll(w, cs[..n]).world, cs[n];
    var (h, f) := EnterHost(w1.hosts[c.host], c);
    assert cs[n..][0] == c && cs[n..][1..] == cs[n + 1..];
    EnterReadies(w1.hosts[c.host], c);
    EnterLeavesOthers(w1.(hosts := w1.hosts[c.host := h]), cs[n + 1..], c.host);
  }

  /** Leaving a `stopped` block keeps the file and gets the unit running and unmasked: one the body left
      stopped loads the file as it is, one the body started again is left alone. */
  lemma StoppedExit(h: Host, i: nat)
    ensures var r := ExitHost(h, StoppedFrame(i));
      && r.host.file == h.file
      && (r.ok && !h.running ==> r.host.running && !r.host.masked && r.host.loaded == h.file)
      && (Safe(h) && h.running ==> r.host.running && !r.host.masked && r.host.loaded == h.loaded)
  {
    StartEffect(h);
    if Safe(h) && h.running {
      StartOfRunning(h);
    }
  }

  lemma StartOfRunning(h: Host)
    requires h.running && !h.masked
    ensures var h' := StartService(h).host; h'.running && !h'.masked && h'.loaded == h.loaded
  {
    if h.manager.Plain? && h.manager.unmask {
      var r := Issue(h, Unmask);
      assert r.host.running && !r.host.masked && r.host.loaded == h.loaded;
    }
  }

  /** The single commands of a body leave the other hosts alone. */
  lemma CommandLeavesOthers(p: Prog, w: World, j: nat)
    requires (p.Read? || p.Write? || p.Launch? || p.Halt? || p.Bounce?) && Fits(p, |w.hosts|)
    requires j < |w.hosts| && p.host != j
    ensures Run(p, w).world.hosts[j] == w.hosts[j]
  {}

  /** A read changes nothing but the count of commands, a write only the option written. */
  lemma ReadAndWrite(w: World, i: nat, opt: Opt)
    requires i < |w.hosts|
    ensures var h := w.hosts[i]; Run(Read(i), w).world.hosts[i] == h.(step := h.step + 1)
    ensures var h, o := w.hosts[i], Run(Write(i, opt), w);
      o.ok ==> o.world.hosts[i] == h.(file := Put(h.file, opt), step := h.step + 1)
  {}

  /** What a body's own start, stop and restart do to their host. */
  lemma StartStopRestart(w: World, i: nat)
    requires i < |w.hosts|
    ensures var h, o := w.hosts[i], Run(Launch(i), w);
      && o.world.hosts[i].file == h.file
      && (o.ok && !h.running ==> o.world.hosts[i].running && o.world.hosts[i].loaded == h.file)
      && (h.running && !h.masked ==> o.world.hosts[i].loaded == h.loaded)
    ensures var h, o := w.hosts[i], Run(Halt(i), w);
      o.world.hosts[i].file == h.file && (o.ok ==> !o.world.hosts[i].running)
    ensures var h, o := w.hosts[i], Run(Bounce(i), w);
      && o.world.hosts[i].file == h.file
      && (o.ok ==> o.world.hosts[i].running && o.world.hosts[i].loaded == h.file)
  {
    hide StartService, StopService, Restart;
    var h := w.hosts[i];
    StartEffect(h);
    StopEffect(h);
    RestartLoads(h);
    if h.running && !h.masked {
      StartOfRunning(h);
    }
  }

  /** Last entered, first exited. */
  lemma {:induction false} UnwindOrder(w: World, fs: seq<Frame>)
    requires FramesFit(fs, |w.hosts|)
    ensures Unwind(w, fs).world.exits == w.exits + Reverse(Hosts(fs))
    decreases |fs|
  {
    hide EnterHost, ExitHost;
    if fs != [] {
      UnwindOrder(ExitFrame(w, fs[|fs| - 1]).world, fs[..|fs| - 1]);
      assert Hosts(fs)[..|fs| - 1] == Hosts(fs[..|fs| - 1]);
    }
  }

  /** Unwinding, seen from the host of frame i: it gets its own exit, from the state the body left
      it in and no matter how the other exits end. */
  lemma {:induction false} UnwindAt(w: World, fs: seq<Frame>, i: nat)
    requires FramesFit(fs, |w.hosts|) && DistinctFrames(fs) && i < |fs|
    ensures Unwind(w, fs).world.hosts[fs[i].host] == ExitHost(w.hosts[fs[i].host], fs[i]).host
    decreases |fs|
  {
    hide EnterHost, ExitHost;
    var last, init := fs[|fs| - 1], fs[..|fs| - 1];
    var w' := ExitFrame(w, last).world;
    if i == |fs| - 1 {
      UnwindLeavesOthers(w', init, last.host);
    } else {
      UnwindAt(w', init, i);
    }
  }

  lemma {:induction false} UnwindOk(w: World, fs: seq<Frame>)
    requires FramesFit(fs, |w.hosts|) && DistinctFrames(fs)
    ensures Unwind(w, fs).ok <==> forall i :: 0 <= i < |fs| ==> ExitHost(w.hosts[fs[i].host], fs[i]).ok
    decreases |fs|
  {
    hide EnterHost, ExitHost;
    if fs != [] {
      var last, init := fs[|fs| - 1], fs[..|fs| - 1];
      var w' := ExitFrame(w, last).world;
      UnwindOk(w', init);
      assert forall i :: 0 <= i < |init| ==> init[i] == fs[i] && w'.hosts[fs[i].host] == w.hosts[fs[i].host];
    }
  }

  /** `config_all_computes`, or any `multicontext` over distinct hosts. If entering context n
      fails, the hosts before it are all exited, the hosts after it are never touched, the host
      itself stays as its failed entry left it, and the block raises without running the body. */
  lemma FailedEntryUnwinds(cs: seq<Context>, body: Prog, w: World)
    requires AllFit(cs, |w.hosts|) && Fits(body, |w.hosts|) && DistinctHosts(cs)
    requires !EnterAll(w, cs).ok
    ensures var o, n := Run(With(cs, body), w), |EnterAll(w, cs).frames|;
      && n < |cs| && !o.ok
      && (forall i :: 0 <= i < n ==> var (h, f) := EnterHost(w.hosts[cs[i].host], cs[i]);
           f.Some? && o.world.hosts[cs[i].host] == ExitHost(h, f.value).host)
      && EnterHost(w.hosts[cs[n].host], cs[n]) == (o.world.hosts[cs[n].host], None)
      && (forall i :: n < i < |cs| ==> o.world.hosts[cs[i].host] == w.hosts[cs[i].host])
      && (forall j :: 0 <= j < |w.hosts| && (forall i :: 0 <= i < |cs| ==> cs[i].host != j) ==>
           o.world.hosts[j] == w.hosts[j])
      && o.world.exits == w.exits + Reverse(Hosts(EnterAll(w, cs).frames))
  {
    hide EnterHost, ExitHost, EnterAll, Unwind;
    var s := EnterAll(w, cs);
    EnterCount(w, cs);
    FrameHosts(w, cs);
    UnwindOrder(s.world, s.frames);
    forall j | 0 <= j < |w.hosts| && (forall i :: 0 <= i < |cs| ==> cs[i].host != j)
      ensures Unwind(s.world, s.frames).world.hosts[j] == w.hosts[j]
    {
      EnterLeavesOthers(w, cs, j);
      UnwindLeavesOthers(s.world, s.frames, j);
    }
    forall i | 0 <= i < |cs|
      ensures Unwind(s.world, s.frames).world.hosts[cs[i].host] ==
        if i < |s.frames| then ExitHost(s.world.hosts[cs[i].host], s.frames[i]).host
        else s.world.hosts[cs[i].host]
    {
      if i < |s.frames| {
        UnwindAt(s.world, s.frames, i);
      } else {
        UnwindLeavesOthers(s.world, s.frames, cs[i].host);
      }
    }
    forall i | 0 <= i < |cs|
      ensures var h, h', n := w.hosts[cs[i].host], s.world.hosts[cs[i].host], |s.frames|;
      if i < n then EnterHost(h, cs[i]) == (h', Some(s.frames[i]))
      else if i == n then EnterHost(h, cs[i]) == (h', None)
      else h' == h
    {
      EnterAllAt(w, cs, i);
    }
  }

  lemma FrameHosts(w: World, cs: seq<Context>)
    requires AllFit(cs, |w.hosts|) && DistinctHosts(cs)
    ensures var s := EnterAll(w, cs);
      && |s.frames| <= |cs| && DistinctFrames(s.frames)
      && forall i :: 0 <= i < |s.frames| ==> s.frames[i].host == cs[i].host
  {
    EnterCount(w, cs);
    var s := EnterAll(w, cs);
    forall i | 0 <= i < |s.frames| ensures s.frames[i].host == cs[i].host {
      EnterAllAt(w, cs, i);
      assert EnterHost(w.hosts[cs[i].host], cs[i]).1 == Some(s.frames[i]);
    }
  }

  /** Once all are entered, the body runs, and then, whether it returned or raised and whatever
      the other exits do, every host's own exit runs, in reverse order of entry. */
  lemma EveryHostIsExited(cs: seq<Context>, body: Prog, w: World)
    requires AllFit(cs, |w.hosts|) && Fits(body, |w.hosts|) && DistinctHosts(cs)
    requires EnterAll(w, cs).ok
    ensures var s, o := EnterAll(w, cs), Run(With(cs, body), w);
      var b := Run(body, s.world);
      && |s.frames| == |cs|
      && (forall i :: 0 <= i < |cs| ==> s.frames[i].host == cs[i].host && cs[i].host < |b.world.hosts|)
      && (forall i :: 0 <= i < |cs| ==>
           o.world.hosts[cs[i].host] == ExitHost(b.world.hosts[cs[i].host], s.frames[i]).host)
      && o.world.exits == b.world.exits + Reverse(Hosts(s.frames))
      && (o.ok <==> b.ok && forall i :: 0 <= i < |cs| ==>
           ExitHost(b.world.hosts[cs[i].host], s.frames[i]).ok)
      && (forall j :: 0 <= j < |w.hosts| && (forall i :: 0 <= i < |cs| ==> cs[i].host != j) ==>
           o.world.hosts[j] == b.world.hosts[j])
  {
    hide EnterHost, ExitHost, EnterAll, Unwind;
    EnterCount(w, cs);
    FrameHosts(w, cs);
    var s := EnterAll(w, cs);
    var b := Run(body, s.world);
    UnwindOrder(b.world, s.frames);
    UnwindOk(b.world, s.frames);
    forall j | 0 <= j < |w.hosts| && (forall i :: 0 <= i < |cs| ==> cs[i].host != j)
      ensures Unwind(b.world, s.frames).world.hosts[j] == b.world.hosts[j]
    {
      UnwindLeavesOthers(b.world, s.frames, j);
    }
    forall i | 0 <= i < |cs|
      ensures Unwind(b.world, s.frames).world.hosts[cs[i].host] == ExitHost(b.world.hosts[cs[i].host], s.frames[i]).host
    {
      UnwindAt(b.world, s.frames, i);
    }
  }

  /** The hosts before a failing entry are not just exited: as soon as its own exit succeeds, each runs
      on a file in which every option has `ValueAfter` of its original value, so that options listed
      at most once are back where they were. */
  lemma EarlierHostRestored(cs: seq<Context>, body: Prog, w: World, i: nat)
    requires AllFit(cs, |w.hosts|) && Fits(body, |w.hosts|) && DistinctHosts(cs)
    requires !EnterAll(w, cs).ok && i < |EnterAll(w, cs).frames| && i < |cs| && cs[i].Config?
    requires var e := EnterConfig(w.hosts[cs[i].host], cs[i].opts); ExitConfig(e.host, e.saved).ok
    ensures var h, h' := w.hosts[cs[i].host], Run(With(cs, body), w).world.hosts[cs[i].host];
      var opts := cs[i].opts;
      && h'.running && !h'.masked && h'.loaded == h'.file
      && (forall k :: At(h'.file, k) == ValueAfter(h.file, h.file, opts, k))
      && (forall k :: ListedOnce(opts, k) ==> At(h'.file, k) == At(h.file, k))
      && ((forall k :: ListedOnce(opts, k)) ==> h'.file == h.file)
  {
    FailedEntryUnwinds(cs, body, w);
    BareBracket(w.hosts[cs[i].host], cs[i].opts);
  }

  lemma BareBracket(h: Host, opts: seq<Opt>)
    requires var e := EnterConfig(h, opts); e.ok && ExitConfig(e.host, e.saved).ok
    ensures var e := EnterConfig(h, opts);
      var h' := ExitConfig(e.host, e.saved).host;
      && h'.running && !h'.masked && h'.loaded == h'.file
      && (forall k :: At(h'.file, k) == ValueAfter(h.file, h.file, opts, k))
      && (forall k :: ListedOnce(opts, k) ==> At(h'.file, k) == At(h.file, k))
      && ((forall k :: ListedOnce(opts, k)) ==> h'.file == h.file)
  {
    hide EnterConfig, ExitConfig;
    var e := EnterConfig(h, opts);
    var file := ExitConfig(e.host, e.saved).host.file;
    RestoreTheorem(h, opts, e.host);
    forall k ensures At(file, k) == ValueAfter(h.file, h.file, opts, k) {
      PutAllAt(h.file, opts, k);
    }
    forall k | ListedOnce(opts, k) ensures At(file, k) == At(h.file, k) {
      RestoredOnce(h.file, h.file, opts, k);
    }
    if forall k :: ListedOnce(opts, k) {
      forall k ensures At(file, k) == At(h.file, k) {
        assert ListedOnce(opts, k);
      }
      SameConfig(file, h.file);
    }
  }

  /** Once all are entered, a host whose own exit succeeds ends up running on a file that holds
      `ValueAfter` of every option, whether the body returned or raised and whatever became of the
      other hosts. */
  lemma EachHostRestored(cs: seq<Context>, body: Prog, w: World, i: nat)
    requires AllFit(cs, |w.hosts|) && Fits(body, |w.hosts|) && DistinctHosts(cs)
    requires EnterAll(w, cs).ok && i < |cs| && cs[i].Config?
    requires var left := Run(body, EnterAll(w, cs).world).world.hosts[cs[i].host];
      ExitConfig(left, EnterConfig(w.hosts[cs[i].host], cs[i].opts).saved).ok
    ensures var h, opts := w.hosts[cs[i].host], cs[i].opts;
      var left, h' := Run(body, EnterAll(w, cs).world).world.hosts[cs[i].host],
                      Run(With(cs, body), w).world.hosts[cs[i].host];
      && h'.running && !h'.masked && h'.loaded == h'.file
      && (forall k :: At(h'.file, k) == ValueAfter(h.file, left.file, opts, k))
      && (forall k :: ListedOnce(opts, k) ==>
           At(h'.file, k) == if Listed(opts, k) then At(h.file, k) else At(left.file, k))
  {
    hide EnterConfig, ExitConfig, EnterAll, Run;
    EveryHostIsExited(cs, body, w);
    EnterCount(w, cs);
    EnterAllAt(w, cs, i);
    RestoreTheorem(w.hosts[cs[i].host], cs[i].opts, Run(body, EnterAll(w, cs).world).world.hosts[cs[i].host]);
  }
}
