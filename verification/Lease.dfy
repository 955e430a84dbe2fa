/** The lease manager of server/discovery/discovery_less.go as a timed state machine. */
module Lease {

  type Key = string

  const SECOND := 1_000_000_000   // time.Second, in nanoseconds
  const TTL := 15

  /** Two's-complement reduction to int64, the type behind time.Duration. */
  function Wrap64(x: int): (r: int)
    ensures -0x8000_0000_0000_0000 <= r < 0x8000_0000_0000_0000
    ensures -0x8000_0000_0000_0000 <= x < 0x8000_0000_0000_0000 ==> r == x
    ensures (x - r) % 0x1_0000_0000_0000_0000 == 0
  {
    (x + 0x8000_0000_0000_0000) % 0x1_0000_0000_0000_0000 - 0x8000_0000_0000_0000
  }

  /** time.Duration(15 + now) * time.Second; now is in milliseconds. */
  function GrantDeadline(now: int): int {
    Wrap64((TTL + now) * SECOND)
  }

  // ---- Steps ----------------------------------------------------------------------------

  datatype Event =
    | Grant(key: Key, now: int)
    | Renew(key: Key)
    | Revoke(key: Key)
    | Check(key: Key, now: int)   // a pending timer task of key runs

  datatype Report = Report(key: Key, at: int)

  /** lessRep, the tasks in the time wheel, and the sends on expireKeys. */
  datatype State = State(deadlines: map<Key, int>, pending: multiset<Key>, reports: seq<Report>)

  const INIT := State(map[], multiset{}, [])

  predicate Enabled(s: State, e: Event) {
    e.Check? ==> e.key in s.pending
  }

  function Step(s: State, e: Event): State {
    match e
    case Grant(k, now) => s.(deadlines := s.deadlines[k := GrantDeadline(now)], pending := s.pending + multiset{k})
    case Renew(k) =>
      if k in s.deadlines then s.(deadlines := s.deadlines[k := Wrap64(TTL * SECOND + s.deadlines[k])]) else s
    case Revoke(k) => s.(deadlines := s.deadlines - {k})
    case Check(k, now) =>
      if k !in s.deadlines then s.(pending := s.pending - multiset{k})
      else if s.deadlines[k] <= now then
        s.(pending := s.pending - multiset{k}, reports := s.reports + [Report(k, now)])
      else s
  }

  function After(run: seq<Event>): State {
    if run == [] then INIT else Step(After(run[..|run| - 1]), run[|run| - 1])
  }

  predicate Legal(run: seq<Event>) {
    run == [] || (Legal(run[..|run| - 1]) && Enabled(After(run[..|run| - 1]), run[|run| - 1]))
  }

  lemma AfterStep(run: seq<Event>, e: Event)
    ensures After(run + [e]) == Step(After(run), e)
    ensures Legal(run + [e]) <==> Legal(run) && Enabled(After(run), e)
  {
  }

  // ---- What the history says --------------------------------------------------------------

  /** The grant at i is the last word on k but for renewals and checks. */
  ghost predicate GrantedAt(run: seq<Event>, i: int, k: Key) {
    && 0 <= i < |run| && run[i].Grant? && run[i].key == k
    && forall j :: i < j < |run| && run[j].key == k ==> run[j].Renew? || run[j].Check?
  }

  /** The number of renewals of k from position i on. */
  function Renewals(run: seq<Event>, i: nat, k: Key): nat {
    if |run| <= i then 0
    else Renewals(run[..|run| - 1], i, k) + if run[|run| - 1] == Renew(k) then 1 else 0
  }

  /** The deadline the history dictates for the grant at i. */
  function DueTime(run: seq<Event>, i: nat): int
    requires i < |run| && run[i].Grant?
  {
    Wrap64((TTL + run[i].now) * SECOND + Renewals(run, i, run[i].key) * TTL * SECOND)
  }

  lemma WrapAdd(a: int, b: int)
    ensures Wrap64(a + Wrap64(b)) == Wrap64(a + b)
  {
  }

  // How one more event changes which grant is in force.
  lemma GrantedExtend(run: seq<Event>, e: Event, i: int, k: Key)
    ensures GrantedAt(run + [e], i, k) <==>
              if i == |run| then e.Grant? && e.key == k
              else GrantedAt(run, i, k) && (e.key == k ==> e.Renew? || e.Check?)
  {
    var run' := run + [e];
    assert run'[|run|] == e;
    assert forall j :: 0 <= j < |run| ==> run'[j] == run[j];
  }

  lemma DueTimeExtend(run: seq<Event>, e: Event, i: nat)
    requires i < |run| && run[i].Grant?
    ensures DueTime(run + [e], i)
         == if e == Renew(run[i].key) then Wrap64(TTL * SECOND + DueTime(run, i)) else DueTime(run, i)
  {
    var k := run[i].key;
    assert (run + [e])[..|run|] == run;
    if e == Renew(k) {
      WrapAdd(TTL * SECOND, (TTL + run[i].now) * SECOND + Renewals(run, i, k) * TTL * SECOND);
    }
  }

  lemma DueTimeNew(run: seq<Event>, k: Key, now: int)
    ensures DueTime(run + [Grant(k, now)], |run|) == GrantDeadline(now)
  {
    assert (run + [Grant(k, now)])[..|run|] == run;
    assert Renewals(run, |run|, k) == 0;
  }

  /** The lease of k and its deadline are what the history dictates. */
  ghost predicate MatchesHistory(run: seq<Event>, k: Key) {
    && (k in After(run).deadlines <==> exists i :: GrantedAt(run, i, k))
    && forall i :: GrantedAt(run, i, k) ==> k in After(run).deadlines && After(run).deadlines[k] == DueTime(run, i)
  }

  /**
   In every run: a key is leased exactly when some grant of it was not revoked since, and its
   stored deadline is that grant's deadline plus 15 seconds for each renewal since.
   */
  lemma {:induction false} DeadlineFromHistory(run: seq<Event>, k: Key)
    ensures MatchesHistory(run, k)
  {
    if run != [] {
      DeadlineFromHistory(run[..|run| - 1], k);
      assert run == run[..|run| - 1] + [run[|run| - 1]];
      HistoryStep(run[..|run| - 1], run[|run| - 1], k);
    }
  }

  lemma HistoryStep(run: seq<Event>, e: Event, k: Key)
    requires MatchesHistory(run, k)
    ensures MatchesHistory(run + [e], k)
  {
    var run' := run + [e];
    assert run'[..|run|] == run && run'[|run|] == e;
    assert After(run') == Step(After(run), e);
    if e.Grant? && e.key == k {
      GrantedExtend(run, e, |run|, k);
      DueTimeNew(run, k, e.now);
    }
    forall i ensures GrantedAt(run', i, k) ==> k in After(run').deadlines && After(run').deadlines[k] == DueTime(run', i) {
      GrantedExtend(run, e, i, k);
      if GrantedAt(run', i, k) && i < |run| { DueTimeExtend(run, e, i); }
    }
    if i :| GrantedAt(run, i, k) { GrantedExtend(run, e, i, k); }
  }

  /** A check of k at time t at position j, when the lease was in force and overdue. */
  ghost predicate DueCheck(run: seq<Event>, j: int, k: Key, t: int) {
    && 0 <= j < |run| && run[j] == Check(k, t)
    && exists i :: GrantedAt(run[..j], i, k) && DueTime(run[..j], i) <= t
  }

  lemma DueCheckIsOverdue(run: seq<Event>, j: nat, k: Key, t: int)
    requires j < |run| && run[j] == Check(k, t)
    ensures DueCheck(run, j, k, t) <==> k in After(run[..j]).deadlines && After(run[..j]).deadlines[k] <= t
  {
    DeadlineFromHistory(run[..j], k);
  }

  /**
   In every run a key is reported expired at time t exactly when a check of it ran at t, at or
   after its deadline, with no revoke since the grant in force.
   */
  lemma {:induction false} ReportsExactly(run: seq<Event>, k: Key, t: int)
    ensures Report(k, t) in After(run).reports <==> exists j :: DueCheck(run, j, k, t)
  {
    if run != [] {
      var n := |run| - 1;
      var run' := run[..n];
      ReportsExactly(run', k, t);
      ReportStep(run, k, t);
      if j :| DueCheck(run, j, k, t) {
        if j < n { PrefixDue(run, j, k, t); }
      }
      if j :| DueCheck(run', j, k, t) { PrefixDue(run, j, k, t); }
    }
  }

  lemma ReportStep(run: seq<Event>, k: Key, t: int)
    requires run != []
    ensures var n := |run| - 1;
            Report(k, t) in After(run).reports <==> Report(k, t) in After(run[..n]).reports || DueCheck(run, n, k, t)
  {
    var n := |run| - 1;
    if run[n] == Check(k, t) {
      DueCheckIsOverdue(run, n, k, t);
    }
  }

  lemma PrefixDue(run: seq<Event>, j: nat, k: Key, t: int)
    requires j < |run| - 1
    ensures DueCheck(run, j, k, t) <==> DueCheck(run[..|run| - 1], j, k, t)
  {
    assert run[..|run| - 1][..j] == run[..j];
  }

  /** The number of due checks of k at t. */
  ghost function DueChecks(run: seq<Event>, k: Key, t: int): nat {
    if run == [] then 0 else DueChecks(run[..|run| - 1], k, t) + if DueCheck(run, |run| - 1, k, t) then 1 else 0
  }

  /** Every due check sends one report, and nothing else does. */
  lemma {:induction false} ReportsCounted(run: seq<Event>, k: Key, t: int)
    ensures multiset(After(run).reports)[Report(k, t)] == DueChecks(run, k, t)
  {
    if run != [] {
      var n := |run| - 1;
      ReportsCounted(run[..n], k, t);
      if run[n] == Check(k, t) { DueCheckIsOverdue(run, n, k, t); }
    }
  }

  /** Reports are sent one after the other: what was sent stays sent, in its order. */
  lemma {:induction false} ReportsInOrder(run: seq<Event>, i: nat)
    requires i <= |run|
    ensures After(run[..i]).reports <= After(run).reports
  {
    if i == |run| {
      assert run[..i] == run;
    } else {
      var before, e := run[..|run| - 1], run[|run| - 1];
      ReportsInOrder(before, i);
      assert before[..i] == run[..i];
      ReportsGrow(After(before), e);
      PrefixTransitive(After(run[..i]).reports, After(before).reports, After(run).reports);
    }
  }

  lemma ReportsGrow(s: State, e: Event)
    ensures s.reports <= Step(s, e).reports
  {
  }

  lemma PrefixTransitive(a: seq<Report>, b: seq<Report>, c: seq<Report>)
    requires a <= b && b <= c
    ensures a <= c
  {
  }

  /** Reported since position i. */
  ghost predicate ReportedSince(run: seq<Event>, i: int, k: Key) {
    exists j, t :: i < j && DueCheck(run, j, k, t)
  }

  /** No lease is forgotten: each has a timer check pending or was reported since its grant. */
  lemma {:induction false} LeasesAreWatched(run: seq<Event>, i: int, k: Key)
    requires Legal(run) && GrantedAt(run, i, k)
    ensures k in After(run).pending || ReportedSince(run, i, k)
  {
    var n := |run| - 1;
    var run', e := run[..n], run[n];
    assert run == run' + [e];
    GrantedExtend(run', e, i, k);
    if i < n {
      LeasesAreWatched(run', i, k);
      WatchedStep(run', e, i, k);
    }
  }

  lemma WatchedStep(run: seq<Event>, e: Event, i: int, k: Key)
    requires GrantedAt(run, i, k) && i < |run| && (k in After(run).pending || ReportedSince(run, i, k))
    ensures k in After(run + [e]).pending || ReportedSince(run + [e], i, k)
  {
    var run' := run + [e];
    AfterStep(run, e);
    assert run'[..|run|] == run && run'[|run|] == e;
    if ReportedSince(run, i, k) {
      var j, t :| i < j && DueCheck(run, j, k, t);
      PrefixDue(run', j, k, t);
    } else if e.Check? && e.key == k {
      DeadlineFromHistory(run, k);
      DueCheckIsOverdue(run', |run|, k, e.now);
    }
  }

  function Grants(run: seq<Event>, k: Key): nat {
    if run == [] then 0
    else Grants(run[..|run| - 1], k) + if run[|run| - 1].Grant? && run[|run| - 1].key == k then 1 else 0
  }

  /** Checks of k that did not go back into the wheel: reported, or found no lease. */
  ghost function Retired(run: seq<Event>, k: Key): nat {
    if run == [] then 0
    else
      var e, s := run[|run| - 1], After(run[..|run| - 1]);
      Retired(run[..|run| - 1], k)
      + if e.Check? && e.key == k && (k in s.deadlines ==> s.deadlines[k] <= e.now) then 1 else 0
  }

  /** Tasks are conserved: pending checks of a key are its grants less its retired checks. */
  lemma {:induction false} ChecksConserved(run: seq<Event>, k: Key)
    requires Legal(run)
    ensures After(run).pending[k] + Retired(run, k) == Grants(run, k)
  {
    if run != [] { ChecksConserved(run[..|run| - 1], k); }
  }

  // ---- Units --------------------------------------------------------------------------------

  /** The only int64 clock at which a lease runs for 15 seconds. */
  const FIFTEEN_SECOND_CLOCK := -4_742_946_173_363_311_768

  lemma WrapParts(x: int) returns (k: int)
    ensures Wrap64(x) == x - k * 0x1_0000_0000_0000_0000
  {
    k := (x + 0x8000_0000_0000_0000) / 0x1_0000_0000_0000_0000;
  }

  // 10^9 - 1 is odd, so the congruence for the clock has one solution modulo 2^64; the first
  // factor of d is the inverse of 10^9 - 1.
  lemma OneClock(now: int, k: int)
    requires -0x8000_0000_0000_0000 <= now < 0x8000_0000_0000_0000
    requires (TTL + now) * SECOND - k * 0x1_0000_0000_0000_0000 == now + 1000 * TTL
    ensures now == FIFTEEN_SECOND_CLOCK
  {
    var d := 9_340_617_356_365_346_303 * k - 506_355_881 * now - 7_595_330_627;
    assert now - FIFTEEN_SECOND_CLOCK == d * 0x1_0000_0000_0000_0000;
    assert -1 < d < 1;
  }

  /** The stored deadline is 15 seconds after the clock at that clock only. */
  lemma ClockCongruence(now: int)
    requires -0x8000_0000_0000_0000 <= now < 0x8000_0000_0000_0000
    ensures GrantDeadline(now) == now + 1000 * TTL <==> now == FIFTEEN_SECOND_CLOCK
  {
    if now == FIFTEEN_SECOND_CLOCK {
      assert GrantDeadline(FIFTEEN_SECOND_CLOCK) == FIFTEEN_SECOND_CLOCK + 1000 * TTL;
    } else {
      var k := WrapParts((TTL + now) * SECOND);
      if GrantDeadline(now) == now + 1000 * TTL { OneClock(now, k); }
    }
  }

  /**
   The grant reads a clock in milliseconds as seconds and stores nanoseconds, and the check
   compares that with milliseconds. Of all int64 clocks one gives a lease of 15 seconds, and it
   is negative. Where nothing overflows the lease outlasts its 15 seconds by far; at the clock of
   13 September 2020 it overflows to a negative deadline, which any check at all would report.
   */
  lemma UnitsMixed(now: int)
    requires -0x8000_0000_0000_0000 <= now < 0x8000_0000_0000_0000
    ensures LastsFifteenSeconds(now) <==> now == FIFTEEN_SECOND_CLOCK
    ensures now >= 0 ==> !LastsFifteenSeconds(now)
    ensures now >= 0 && (TTL + now) * SECOND < 0x8000_0000_0000_0000 ==> GrantDeadline(now) > now + 1000 * TTL
    ensures GrantDeadline(1_600_000_000_000) < 0
  {
    ClockCongruence(now);
    if LastsFifteenSeconds(now) {
      assert Overdue(now, now + 1000 * TTL);
      assert !Overdue(now, now + 1000 * TTL - 1);
    }
  }

  /** Checks of a lease granted at now report it from 15 seconds after the grant on, and not before. */
  ghost predicate LastsFifteenSeconds(now: int) {
    forall t :: t >= now ==> (Overdue(now, t) <==> now + 1000 * TTL <= t)
  }

  /**
   A renewal never buys 15 seconds: where nothing overflows it buys 15 * 10^9 milliseconds, and
   otherwise the deadline jumps into the past.
   */
  lemma RenewalUnits(s: State, k: Key)
    requires k in s.deadlines && -0x8000_0000_0000_0000 <= s.deadlines[k] < 0x8000_0000_0000_0000
    ensures var was, now := s.deadlines[k], Step(s, Renew(k)).deadlines[k];
            && now != was + 1000 * TTL
            && (was + TTL * SECOND < 0x8000_0000_0000_0000 ==> now == was + 1_000_000 * (1000 * TTL))
            && (was + TTL * SECOND >= 0x8000_0000_0000_0000 ==> now < 0 <= was)
  {
  }

  /** A check at t reports a lease granted at now and not renewed. */
  predicate Overdue(now: int, t: int) {
    GrantDeadline(now) <= t
  }

  // ---- The object -----------------------------------------------------------------------------

  class Lessor {
    var lessRep: map<Key, int>
    var wheel: multiset<Key>
    var reports: seq<Report>
    ghost var run: seq<Event>

    ghost predicate Valid()
      reads this
    {
      Legal(run) && After(run) == State(lessRep, wheel, reports)
    }

    constructor ()
      ensures Valid() && run == []
    {
      lessRep, wheel, reports, run := map[], multiset{}, [], [];
    }

    // Instance.GetKey panics on an instance without a key.
    method GrantLess(key: Key, now: int) returns (panicked: bool)
      requires Valid()
      modifies this
      ensures Valid() && panicked == (key == "")
      ensures run == if panicked then old(run) else old(run) + [Grant(key, now)]
    {
      panicked := key == "";
      if !panicked {
        var expire := GrantDeadline(now);
        lessRep := lessRep[key := expire];
        wheel := wheel + multiset{key};
        run := run + [Grant(key, now)];
        AfterStep(old(run), Grant(key, now));
      }
    }

    method RenewLess(key: Key) returns (panicked: bool)
      requires Valid()
      modifies this
      ensures Valid() && panicked == (key == "")
      ensures run == if panicked then old(run) else old(run) + [Renew(key)]
    {
      panicked := key == "";
      if !panicked {
        if key in lessRep {
          lessRep := lessRep[key := Wrap64(TTL * SECOND + lessRep[key])];
        }
        run := run + [Renew(key)];
        AfterStep(old(run), Renew(key));
      }
    }

    method RevokeLess(key: Key) returns (panicked: bool)
      requires Valid()
      modifies this
      ensures Valid() && panicked == (key == "")
      ensures run == if panicked then old(run) else old(run) + [Revoke(key)]
    {
      panicked := key == "";
      if !panicked {
        lessRep := lessRep - {key};
        run := run + [Revoke(key)];
        AfterStep(old(run), Revoke(key));
      }
    }

    /** less.Run, called by the wheel for one of its tasks. */
    method RunTask(key: Key, now: int)
      requires Valid() && key in wheel
      modifies this
      ensures Valid() && run == old(run) + [Check(key, now)]
    {
      AfterStep(run, Check(key, now));
      PutBack(wheel, key);
      var taken := wheel - multiset{key};
      if key in lessRep {
        if lessRep[key] <= now {
          wheel, reports := taken, reports + [Report(key, now)];
        } else {
          wheel := taken + multiset{key};
        }
      } else {
        wheel := taken;
      }
      run := run + [Check(key, now)];
    }
  }

  lemma PutBack(wheel: multiset<Key>, key: Key)
    requires key in wheel
    ensures wheel - multiset{key} + multiset{key} == wheel
  {
  }
}
