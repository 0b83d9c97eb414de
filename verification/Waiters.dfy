/** The polling loops of common/waiters.py, api/compute/base.py and api/compute/test_sriov.py.
    A run is given by what poll number i sees and by what reading number i of `int(time.time())`
    shows; reading 0 is the start time. Sleeping is the clock's business: it shows in how far
    apart the readings are. */
module Waiters {
  import opened PyText

  /** What one poll tells: nothing yet, success, a failed migration, or an empty list where the
      code indexes its first or last entry. */
  datatype Sight = Pending | Good | Bad | Empty

  /** How a wait ends: it returns, raises MigrationException or raises IndexError at that poll, or
      raises TimeoutException after that many polls. */
  datatype Wait = Returned(at: nat) | Failed(at: nat) | Crashed(at: nat) | TimedOut(polls: nat)

  function Polls(r: Wait): nat { if r.TimedOut? then r.polls else r.at + 1 }

  /** The end a decisive sight makes at poll i. */
  function EndOf(sight: Sight, i: nat): (r: Wait)
    requires sight != Pending
    ensures !r.TimedOut? && r.at == i
  {
    match sight
    case Good => Returned(i)
    case Bad => Failed(i)
    case Empty => Crashed(i)
  }

  function Elapsed(clock: nat -> int, i: nat): int { clock(i) - clock(0) }

  // ---------- three kinds of loop ----------

  ghost predicate FirstAt(sight: nat -> Sight, i: nat)
  {
    sight(i) != Pending && forall j: nat :: j < i ==> sight(j) == Pending
  }

  /** The wait ends at its first decisive poll, in the way that poll says. */
  ghost predicate EndsAtFirst(sight: nat -> Sight, r: Wait)
  {
    !r.TimedOut? && FirstAt(sight, r.at) && r == EndOf(sight(r.at), r.at)
  }

  ghost predicate NoneBefore(sight: nat -> Sight, n: nat) { forall j: nat :: j < n ==> sight(j) == Pending }

  /** Poll; then, while pending: sleep, check the time, poll again. */
  ghost predicate CheckThenPoll(sight: nat -> Sight, clock: nat -> int, timeout: int, r: Wait)
  {
    match r
    case TimedOut(n) =>
      && n >= 1 && NoneBefore(sight, n) && Elapsed(clock, n) >= timeout
      && forall j: nat :: 1 <= j < n ==> Elapsed(clock, j) < timeout
    case _ => EndsAtFirst(sight, r) && forall j: nat :: 1 <= j <= r.at ==> Elapsed(clock, j) < timeout
  }

  /** Poll; then, while pending: sleep, poll again, check the time. */
  ghost predicate PollThenCheck(sight: nat -> Sight, clock: nat -> int, timeout: int, r: Wait)
  {
    match r
    case TimedOut(n) =>
      && n >= 2 && NoneBefore(sight, n) && Elapsed(clock, n - 1) >= timeout
      && forall j: nat :: 1 <= j < n - 1 ==> Elapsed(clock, j) < timeout
    case _ => EndsAtFirst(sight, r) && forall j: nat :: 1 <= j < r.at ==> Elapsed(clock, j) < timeout
  }

  /** While there is time: poll, sleep. Poll number i comes after reading number i + 1. */
  ghost predicate CheckFirst(sight: nat -> Sight, clock: nat -> int, timeout: int, r: Wait)
  {
    match r
    case TimedOut(n) =>
      && NoneBefore(sight, n) && Elapsed(clock, n + 1) > timeout
      && forall j: nat :: 1 <= j <= n ==> Elapsed(clock, j) <= timeout
    case _ => EndsAtFirst(sight, r) && forall j: nat :: 1 <= j <= r.at + 1 ==> Elapsed(clock, j) <= timeout
  }

  // ---------- the loops ----------

  function ServiceSight(states: seq<string>, state: string): Sight
  {
    if states == [] then Empty else if states[0] == state then Good else Pending
  }

  /** `wait_for_nova_service_state`. Reading `late` is one that is past the deadline. */
  method WaitForNovaServiceState(services: nat -> seq<string>, clock: nat -> int, timeout: int,
                                 state: string, ghost late: nat) returns (r: Wait)
    requires late >= 1 && Elapsed(clock, late) >= timeout
    ensures CheckThenPoll((i: nat) => ServiceSight(services(i), state), clock, timeout, r)
  {
    var start := clock(0);
    var i: nat := 0;
    var listed := services(0);
    if |listed| == 0 { return Crashed(0); }
    var service := listed[0];
    while service != state
      invariant |services(i)| > 0 && service == services(i)[0] && i < late
      invariant forall j: nat :: j < i ==> ServiceSight(services(j), state) == Pending
      invariant forall j: nat :: 1 <= j <= i ==> Elapsed(clock, j) < timeout
      decreases late - i
    {
      var timedOut := clock(i + 1) - start >= timeout;
      if timedOut {
        return TimedOut(i + 1);
      }
      assert Elapsed(clock, i + 1) < timeout;
      i := i + 1;
      listed := services(i);
      if |listed| == 0 { return Crashed(i); }
      service := listed[0];
    }
    return Returned(i);
  }

  /** An unset or empty device id means the port is detached. */
  function PortSight(deviceId: Option<string>): Sight
  {
    if deviceId.None? || deviceId.value == "" then Good else Pending
  }

  /** `wait_for_port_detach`. */
  method WaitForPortDetach(deviceIds: nat -> Option<string>, clock: nat -> int, timeout: int,
                           ghost late: nat) returns (r: Wait)
    requires late >= 1 && Elapsed(clock, late) >= timeout
    ensures PollThenCheck((i: nat) => PortSight(deviceIds(i)), clock, timeout, r)
  {
    var deviceId := deviceIds(0);
    var start := clock(0);
    var i: nat := 0;
    while PortSight(deviceId) == Pending
      invariant deviceId == deviceIds(i) && i <= late
      invariant i == late ==> PortSight(deviceId) != Pending
      invariant forall j: nat :: j < i ==> PortSight(deviceIds(j)) == Pending
      invariant forall j: nat :: 1 <= j < i ==> Elapsed(clock, j) < timeout
      invariant PortSight(deviceId) == Pending && i >= 1 ==> Elapsed(clock, i) < timeout
      decreases late - i
    {
      i := i + 1;
      deviceId := deviceIds(i);
      var timedOut := clock(i) - start >= timeout;
      if PortSight(deviceId) == Pending && timedOut {
        assert Elapsed(clock, i) >= timeout;
        return TimedOut(i + 1);
      }
      assert PortSight(deviceId) == Pending ==> Elapsed(clock, i) < timeout;
    }
    return Returned(i);
  }

  /** Only the last migration of the list counts. */
  function MigrationSight(statuses: seq<string>): Sight
  {
    if statuses == [] then Empty else
      var status := statuses[|statuses| - 1];
      if status == "done" || status == "completed" then Good
      else if status == "error" || status == "failed" then Bad
      else Pending
  }

  /** `wait_for_server_migration_complete`. */
  method WaitForMigrationComplete(migrations: nat -> seq<string>, clock: nat -> int, timeout: int,
                                  ghost late: nat) returns (r: Wait)
    requires late >= 1 && Elapsed(clock, late) > timeout
    ensures CheckFirst((i: nat) => MigrationSight(migrations(i)), clock, timeout, r)
  {
    var start := clock(0);
    var i: nat := 0;
    while clock(i + 1) - start <= timeout
      invariant i < late
      invariant forall j: nat :: j < i ==> MigrationSight(migrations(j)) == Pending
      invariant forall j: nat :: 1 <= j <= i ==> Elapsed(clock, j) <= timeout
      decreases late - i
    {
      assert Elapsed(clock, i + 1) <= timeout;
      var listed := migrations(i);
      if |listed| == 0 { return Crashed(i); }
      var status := listed[|listed| - 1];
      if status == "done" || status == "completed" {
        return Returned(i);
      } else if status == "error" || status == "failed" {
        return Failed(i);
      }
      i := i + 1;
    }
    assert Elapsed(clock, i + 1) > timeout;
    return TimedOut(i);
  }

  function PciSight(count: int): Sight { if count == 1 then Good else Pending }

  /** `_validate_pci_allocation`. `last` is the variable its timeout message prints; when no poll
      was made it is still unset and printing it is an error of its own. */
  method ValidatePciAllocation(counts: nat -> int, clock: nat -> int, timeout: int, ghost late: nat)
    returns (r: Wait, last: Option<int>)
    requires late >= 1 && Elapsed(clock, late) > timeout
    ensures CheckFirst((i: nat) => PciSight(counts(i)), clock, timeout, r)
    ensures last == if Polls(r) == 0 then None else Some(counts(Polls(r) - 1))
    ensures last.None? <==> Elapsed(clock, 1) > timeout
  {
    var start := clock(0);
    var i: nat := 0;
    last := None;
    while clock(i + 1) - start <= timeout
      invariant i < late
      invariant last == if i == 0 then None else Some(counts(i - 1))
      invariant forall j: nat :: j < i ==> PciSight(counts(j)) == Pending
      invariant forall j: nat :: 1 <= j <= i ==> Elapsed(clock, j) <= timeout
      decreases late - i
    {
      assert Elapsed(clock, i + 1) <= timeout;
      last := Some(counts(i));
      if counts(i) == 1 {
        return Returned(i), last;
      }
      i := i + 1;
    }
    assert Elapsed(clock, i + 1) > timeout;
    return TimedOut(i), last;
  }

  /** `_wait_for_domain_shutdown`: the loop skips its own sleep by continuing. `listed(i)` is
      whether the domain name occurs in what poll i printed. */
  method WaitForDomainShutdown(listed: nat -> bool, clock: nat -> int, timeout: int, ghost late: nat)
    returns (r: Wait)
    requires late >= 1 && Elapsed(clock, late) > timeout
    ensures CheckFirst((i: nat) => if listed(i) then Pending else Good, clock, timeout, r)
  {
    var start := clock(0);
    var i: nat := 0;
    while clock(i + 1) - start <= timeout
      invariant i < late
      invariant forall j: nat :: j < i ==> listed(j)
      invariant forall j: nat :: 1 <= j <= i ==> Elapsed(clock, j) <= timeout
      decreases late - i
    {
      assert Elapsed(clock, i + 1) <= timeout;
      if listed(i) {
        i := i + 1;
        continue;
      } else {
        return Returned(i);
      }
    }
    assert Elapsed(clock, i + 1) > timeout;
    return TimedOut(i);
  }

  // ---------- each trace has one outcome ----------

  lemma OneOutcome(sight: nat -> Sight, clock: nat -> int, timeout: int, r: Wait, q: Wait)
    ensures CheckThenPoll(sight, clock, timeout, r) && CheckThenPoll(sight, clock, timeout, q) ==> r == q
    ensures PollThenCheck(sight, clock, timeout, r) && PollThenCheck(sight, clock, timeout, q) ==> r == q
    ensures CheckFirst(sight, clock, timeout, r) && CheckFirst(sight, clock, timeout, q) ==> r == q
  {}

  /** The service waiter against the port waiter on the same trace. When the first ends, so does
      the second, at the same poll. When the first gives up, the second makes one poll more, and
      the two differ exactly when the target shows at that poll. */
  lemma WaitersCompared(sight: nat -> Sight, clock: nat -> int, timeout: int, nova: Wait, port: Wait)
    requires CheckThenPoll(sight, clock, timeout, nova) && PollThenCheck(sight, clock, timeout, port)
    ensures !nova.TimedOut? ==> port == nova
    ensures nova.TimedOut? ==> var n := nova.polls;
      port == if sight(n) != Pending then EndOf(sight(n), n) else TimedOut(n + 1)
  {
    var expected :=
      if !nova.TimedOut? then nova
      else if sight(nova.polls) != Pending then EndOf(sight(nova.polls), nova.polls)
      else TimedOut(nova.polls + 1);
    assert PollThenCheck(sight, clock, timeout, expected);
    OneOutcome(sight, clock, timeout, port, expected);
  }

  ghost predicate NonDecreasing(clock: nat -> int) { forall i: nat, j: nat :: i <= j ==> clock(i) <= clock(j) }

  ghost predicate LastIn(statuses: seq<string>, some: set<string>)
  {
    statuses != [] && statuses[|statuses| - 1] in some
  }

  /** The list is empty or its last status is a terminal one. */
  ghost predicate Decisive(statuses: seq<string>)
  {
    statuses == [] || LastIn(statuses, {"done", "completed", "error", "failed"})
  }

  /** Poll i is the first decisive one, and it began within the deadline. */
  ghost predicate DecidedAt(migrations: nat -> seq<string>, clock: nat -> int, timeout: int, i: nat)
  {
    && Decisive(migrations(i)) && Elapsed(clock, i + 1) <= timeout
    && forall j: nat :: j < i ==> !Decisive(migrations(j))
  }

  /** The migration waiter, status by status: it returns at poll i if and only if i is the first
      decisive poll, begun in time, and shows done or completed; raises MigrationException if and only
      if that poll shows error or failed; raises IndexError if and only if that poll lists nothing; and
      times out if and only if there is no such poll. */
  lemma MigrationOutcome(migrations: nat -> seq<string>, clock: nat -> int, timeout: int, r: Wait)
    requires NonDecreasing(clock)
    requires CheckFirst((i: nat) => MigrationSight(migrations(i)), clock, timeout, r)
    ensures forall i: nat :: r == Returned(i) <==>
      DecidedAt(migrations, clock, timeout, i) && LastIn(migrations(i), {"done", "completed"})
    ensures forall i: nat :: r == Failed(i) <==>
      DecidedAt(migrations, clock, timeout, i) && LastIn(migrations(i), {"error", "failed"})
    ensures forall i: nat :: r == Crashed(i) <==>
      DecidedAt(migrations, clock, timeout, i) && migrations(i) == []
    ensures r.TimedOut? <==> forall i: nat :: !DecidedAt(migrations, clock, timeout, i)
  {
    var sight := (i: nat) => MigrationSight(migrations(i));
    assert forall i: nat :: sight(i) != Pending <==> Decisive(migrations(i));
    forall i: nat
      ensures DecidedAt(migrations, clock, timeout, i) ==> !r.TimedOut? && r.at == i
      ensures !r.TimedOut? && r.at == i ==> DecidedAt(migrations, clock, timeout, i)
    {
      MigrationDecided(migrations, clock, timeout, r, sight, i);
    }
  }

  lemma MigrationDecided(migrations: nat -> seq<string>, clock: nat -> int, timeout: int, r: Wait,
                         sight: nat -> Sight, i: nat)
    requires NonDecreasing(clock) && CheckFirst(sight, clock, timeout, r)
    requires forall i: nat :: sight(i) != Pending <==> Decisive(migrations(i))
    ensures DecidedAt(migrations, clock, timeout, i) <==> !r.TimedOut? && r.at == i
  {
    if DecidedAt(migrations, clock, timeout, i) {
      assert sight(i) != Pending;
      assert !r.TimedOut?;
      assert sight(r.at) != Pending;
    }
  }

  /** The list is empty or its first entry is in the wanted state. */
  ghost predicate ServiceDecisive(states: seq<string>, state: string) { states == [] || states[0] == state }

  /** Poll i is the first decisive one, and no reading before it was late. */
  ghost predicate ServiceDecidedAt(services: nat -> seq<string>, state: string, clock: nat -> int, timeout: int,
                                   i: nat)
  {
    && ServiceDecisive(services(i), state) && (forall j: nat :: j < i ==> !ServiceDecisive(services(j), state))
    && forall j: nat :: 1 <= j <= i ==> clock(j) - clock(0) < timeout
  }

  /** The service waiter: it returns at poll i if and only if i is the first decisive poll, begun in time,
      and its first entry is in the wanted state; raises IndexError if and only if that poll lists
      nothing; and times out if and only if there is no such poll. */
  lemma ServiceOutcome(services: nat -> seq<string>, state: string, clock: nat -> int, timeout: int, r: Wait)
    requires CheckThenPoll((i: nat) => ServiceSight(services(i), state), clock, timeout, r)
    ensures forall i: nat :: r == Returned(i) <==>
      ServiceDecidedAt(services, state, clock, timeout, i) && services(i) != [] && services(i)[0] == state
    ensures forall i: nat :: r == Crashed(i) <==>
      ServiceDecidedAt(services, state, clock, timeout, i) && services(i) == []
    ensures r.TimedOut? <==> forall i: nat :: !ServiceDecidedAt(services, state, clock, timeout, i)
    ensures !r.Failed?
  {
    var sight := (i: nat) => ServiceSight(services(i), state);
    assert forall i: nat :: sight(i) != Pending <==> ServiceDecisive(services(i), state);
    forall i: nat ensures ServiceDecidedAt(services, state, clock, timeout, i) <==> !r.TimedOut? && r.at == i {
      ServiceDecided(services, state, clock, timeout, r, sight, i);
    }
  }

  lemma ServiceDecided(services: nat -> seq<string>, state: string, clock: nat -> int, timeout: int, r: Wait,
                       sight: nat -> Sight, i: nat)
    requires CheckThenPoll(sight, clock, timeout, r)
    requires forall i: nat :: sight(i) != Pending <==> ServiceDecisive(services(i), state)
    ensures ServiceDecidedAt(services, state, clock, timeout, i) <==> !r.TimedOut? && r.at == i
  {
    if !r.TimedOut? && r.at == i {
      forall j: nat | 1 <= j <= i ensures clock(j) - clock(0) < timeout {
        assert Elapsed(clock, j) < timeout;
      }
    }
    if ServiceDecidedAt(services, state, clock, timeout, i) {
      assert sight(i) != Pending;
      assert !r.TimedOut?;
      assert sight(r.at) != Pending;
    }
  }

  /** The device id is unset or empty. */
  ghost predicate Detached(deviceId: Option<string>) { deviceId == None || deviceId == Some("") }

  /** The port waiter: it returns at poll i if and only if that is the first to see the port detached and
      no reading before the last of them was late; otherwise it times out. */
  lemma PortOutcome(deviceIds: nat -> Option<string>, clock: nat -> int, timeout: int, r: Wait)
    requires PollThenCheck((i: nat) => PortSight(deviceIds(i)), clock, timeout, r)
    ensures r.Returned? || r.TimedOut?
    ensures r.Returned? ==> var i := r.at;
      && Detached(deviceIds(i)) && (forall j: nat :: j < i ==> !Detached(deviceIds(j)))
      && forall j: nat :: 1 <= j < i ==> clock(j) - clock(0) < timeout
    ensures r.TimedOut? ==> var n := r.polls;
      && n >= 2 && (forall j: nat :: j < n ==> !Detached(deviceIds(j)))
      && clock(n - 1) - clock(0) >= timeout && forall j: nat :: 1 <= j < n - 1 ==> clock(j) - clock(0) < timeout
  {
    var sight := (i: nat) => PortSight(deviceIds(i));
    assert forall i: nat :: sight(i) != Pending <==> Detached(deviceIds(i));
    if r.TimedOut? {
      assert Elapsed(clock, r.polls - 1) >= timeout;
      forall j: nat | 1 <= j < r.polls - 1 ensures clock(j) - clock(0) < timeout {
        assert Elapsed(clock, j) < timeout;
      }
    } else {
      forall j: nat | 1 <= j < r.at ensures clock(j) - clock(0) < timeout {
        assert Elapsed(clock, j) < timeout;
      }
    }
  }

  /** The PCI waiter: it returns at the first poll that counts exactly one device, if it began in time,
      and times out exactly when there is none. */
  lemma PciOutcome(counts: nat -> int, clock: nat -> int, timeout: int, r: Wait)
    requires NonDecreasing(clock)
    requires CheckFirst((i: nat) => PciSight(counts(i)), clock, timeout, r)
    ensures r.Returned? || r.TimedOut?
    ensures r.Returned? ==> var i := r.at;
      && counts(i) == 1 && (forall j: nat :: j < i ==> counts(j) != 1) && clock(i + 1) - clock(0) <= timeout
    ensures r.TimedOut? <==> forall i: nat :: counts(i) == 1 ==> clock(i + 1) - clock(0) > timeout
  {
    var sight := (i: nat) => PciSight(counts(i));
    assert forall i: nat :: sight(i) != Pending <==> counts(i) == 1;
    if r.TimedOut? {
      assert Elapsed(clock, r.polls + 1) > timeout;
      forall i: nat | counts(i) == 1 ensures clock(i + 1) - clock(0) > timeout {
        assert sight(i) != Pending;
        assert clock(r.polls + 1) <= clock(i + 1);
      }
    } else {
      assert sight(r.at) != Pending && Elapsed(clock, r.at + 1) <= timeout;
    }
  }

  // ---------- how often they poll ----------

  /** Each reading is at least `interval` after the one before it, from reading `from` on. */
  ghost predicate Spaced(clock: nat -> int, from: nat, interval: int)
  {
    forall i: nat :: i >= from ==> clock(i + 1) >= clock(i) + interval
  }

  lemma {:induction false} SpacedGrowth(clock: nat -> int, from: nat, interval: int, n: nat)
    requires Spaced(clock, from, interval)
    ensures clock(from + n) >= clock(from) + n * interval
  {
    if n > 0 {
      SpacedGrowth(clock, from, interval, n - 1);
      assert clock(from + n) >= clock(from + n - 1) + interval by {
        var i := from + n - 1;
        assert clock(i + 1) >= clock(i) + interval;
      }
      assert n * interval == (n - 1) * interval + interval;
    }
  }

  function CeilDiv(a: int, b: int): int
    requires b > 0
  {
    (a + b - 1) / b
  }

  lemma MulLe(a: int, b: int, c: int)
    requires a <= b && c >= 0
    ensures a * c <= b * c
  {}

  lemma BelowCeil(j: nat, interval: int, timeout: int)
    requires interval >= 1 && j * interval < timeout
    ensures j + 1 <= CeilDiv(timeout, interval)
  {
    var q := CeilDiv(timeout, interval);
    assert timeout + interval - 1 == q * interval + (timeout + interval - 1) % interval;
    assert q * interval >= timeout;
    if q <= j {
      MulLe(q, j, interval);
      assert false;
    }
  }

  lemma BelowFloor(j: nat, interval: int, timeout: int)
    requires interval >= 1 && j * interval <= timeout
    ensures j <= timeout / interval
  {
    var q := timeout / interval;
    assert timeout < (q + 1) * interval;
    if q + 1 <= j {
      MulLe(q + 1, j, interval);
      assert false;
    }
  }

  function Max(a: int, b: int): int { if a < b then b else a }

  /** If sleeping takes at least its length, the service waiter polls at most
      ceil(timeout / interval) times, and the port waiter once more. */
  lemma PollBound(sight: nat -> Sight, clock: nat -> int, timeout: int, interval: int, r: Wait)
    requires interval >= 1 && Spaced(clock, 0, interval)
    ensures CheckThenPoll(sight, clock, timeout, r) ==> Polls(r) <= Max(1, CeilDiv(timeout, interval))
    ensures PollThenCheck(sight, clock, timeout, r) ==> Polls(r) <= Max(1, CeilDiv(timeout, interval)) + 1
  {
    if CheckThenPoll(sight, clock, timeout, r) && Polls(r) >= 2 {
      LastInTime(clock, timeout, interval, Polls(r) - 1);
    }
    if PollThenCheck(sight, clock, timeout, r) && Polls(r) >= 3 {
      LastInTime(clock, timeout, interval, Polls(r) - 2);
    }
  }

  lemma LastInTime(clock: nat -> int, timeout: int, interval: int, j: nat)
    requires interval >= 1 && Spaced(clock, 0, interval) && Elapsed(clock, j) < timeout
    ensures j + 1 <= CeilDiv(timeout, interval)
  {
    SpacedGrowth(clock, 0, interval, j);
    BelowCeil(j, interval, timeout);
  }

  /** The migration and PCI waiters sleep one second more than the configured interval, so their
      bound holds for any interval from 0 on. */
  lemma PollBoundCheckFirst(sight: nat -> Sight, clock: nat -> int, timeout: int, buildInterval: nat, r: Wait)
    requires clock(0) <= clock(1) && Spaced(clock, 1, buildInterval + 1)
    requires CheckFirst(sight, clock, timeout, r)
    ensures timeout < 0 ==> Polls(r) == 0
    ensures timeout >= 0 ==> Polls(r) <= timeout / (buildInterval + 1) + 1
  {
    var n := Polls(r);
    if n >= 1 {
      assert Elapsed(clock, n) <= timeout;
      LastBegun(clock, timeout, buildInterval + 1, n);
    }
  }

  lemma LastBegun(clock: nat -> int, timeout: int, interval: int, n: nat)
    requires clock(0) <= clock(1) && interval >= 1 && Spaced(clock, 1, interval)
    requires n >= 1 && Elapsed(clock, n) <= timeout
    ensures timeout >= 0 && n <= timeout / interval + 1
  {
    SpacedGrowth(clock, 1, interval, n - 1);
    MulLe(0, n - 1, interval);
    BelowFloor(n - 1, interval, timeout);
  }

  /** Both bounds are reached by a clock that sleeping moves by exactly its length. */
  lemma CheckThenPollBoundReached(timeout: nat, interval: int)
    requires interval >= 1
    ensures CheckThenPoll((i: nat) => Pending, (i: nat) => i * interval, timeout,
                          TimedOut(Max(1, CeilDiv(timeout, interval))))
  {
    var clock := (i: nat) => i * interval;
    var n := Max(1, CeilDiv(timeout, interval));
    forall j: nat | 1 <= j < n ensures Elapsed(clock, j) < timeout {
      if j * interval >= timeout {
        CeilAtMost(timeout, interval, j);
      }
      assert clock(0) == 0 * interval == 0;
    }
    CeilCovers(timeout, interval);
    assert clock(0) == 0 * interval == 0 && clock(n) == n * interval;
    assert Elapsed(clock, n) >= timeout;
  }

  lemma CheckFirstBoundReached(timeout: nat, interval: int)
    requires interval >= 1
    ensures CheckFirst((i: nat) => Pending, (i: nat) => if i == 0 then 0 else (i - 1) * interval, timeout,
                       TimedOut(timeout / interval + 1))
  {
    var clock := (i: nat) => if i == 0 then 0 else (i - 1) * interval;
    var m := timeout / interval;
    DivBounds(timeout, interval);
    forall j: nat | 1 <= j <= m + 1 ensures Elapsed(clock, j) <= timeout {
      MulLe(j - 1, m, interval);
      assert Elapsed(clock, j) == (j - 1) * interval;
    }
    assert Elapsed(clock, m + 2) == (m + 1) * interval;
  }

  lemma DivBounds(a: nat, b: int)
    requires b >= 1
    ensures a / b >= 0 && (a / b) * b <= a < (a / b + 1) * b
  {
    assert a == (a / b) * b + a % b;
  }

  lemma CeilCovers(a: nat, b: int)
    requires b >= 1
    ensures CeilDiv(a, b) * b >= a && Max(1, CeilDiv(a, b)) * b >= a
  {
    var q := CeilDiv(a, b);
    assert a + b - 1 == q * b + (a + b - 1) % b;
    assert q * b >= a;
    if q < 1 {
      assert q * b <= 0;
    }
  }

  lemma CeilAtMost(a: nat, b: int, j: nat)
    requires b >= 1 && j * b >= a
    ensures CeilDiv(a, b) <= j
  {
    var q := CeilDiv(a, b);
    assert q * b <= a + b - 1;
    if q >= j + 1 {
      MulLe(j + 1, q, b);
      assert false;
    }
  }

  /** The shutdown loop has no such bound: for every number of polls there is a clock that never
      runs backwards and makes it poll that often. */
  lemma ShutdownPollsUnbounded(timeout: nat, n: nat)
    ensures exists clock :: NonDecreasing(clock) && CheckFirst((i: nat) => Pending, clock, timeout, TimedOut(n))
  {
    var clock := (i: nat) => if i <= n then 0 else timeout + 1;
    assert NonDecreasing(clock);
    assert Elapsed(clock, n + 1) > timeout;
    assert CheckFirst((i: nat) => Pending, clock, timeout, TimedOut(n));
  }
}
