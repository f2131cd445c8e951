/**
 The single-row lease that elects one box to sweep, and one pass of its worker.

 Times are those of the database clock, which does not run backwards.
 */
module SweepLease {
  import opened Wrappers

  type Box = string

  /** The row of sweep_lease with id 1. */
  datatype Lease = Lease(owner: Box, heartbeat: int, lastDiscovery: Option<int>)

  /** The WHERE clause that lets an acquire go through. */
  predicate MayTake(row: Option<Lease>, box: Box, ttl: nat, now: int) {
    row.None? || row.value.owner == box || row.value.heartbeat < now - ttl
  }

  function AfterAcquire(row: Option<Lease>, box: Box, ttl: nat, now: int): Option<Lease> {
    if !MayTake(row, box, ttl, now) then row
    else Some(Lease(box, now, if row.Some? then row.value.lastDiscovery else None))
  }

  function AfterRelease(row: Option<Lease>, box: Box): Option<Lease> {
    if row.Some? && row.value.owner == box then None else row
  }

  function AfterStamp(row: Option<Lease>, box: Box, at: int): Option<Lease> {
    if row.Some? && row.value.owner == box then Some(row.value.(lastDiscovery := Some(at))) else row
  }

  // ---- all boxes together ----

  datatype Step =
    | Tick(elapsed: nat)
    | Acquire(box: Box)
    | Release(box: Box)
    | Stamp(box: Box, at: int)

  /** `granted` remembers when each box was last granted the lease, until the box releases it. */
  datatype State = State(now: int, row: Option<Lease>, granted: map<Box, int>)

  function After(ttl: nat, s: State, step: Step): State {
    match step
    case Tick(elapsed) => s.(now := s.now + elapsed)
    case Acquire(box) =>
      if MayTake(s.row, box, ttl, s.now)
      then s.(row := AfterAcquire(s.row, box, ttl, s.now), granted := s.granted[box := s.now])
      else s.(row := AfterAcquire(s.row, box, ttl, s.now))
    case Release(box) => s.(row := AfterRelease(s.row, box), granted := s.granted - {box})
    case Stamp(box, at) => s.(row := AfterStamp(s.row, box, at))
  }

  function Run(ttl: nat, s: State, steps: seq<Step>): State {
    if steps == [] then s else After(ttl, Run(ttl, s, steps[..|steps| - 1]), steps[|steps| - 1])
  }

  function Initial(now: int): State { State(now, None, map[]) }

  predicate Unexpired(ttl: nat, s: State, box: Box) {
    box in s.granted && s.now <= s.granted[box] + ttl
  }

  predicate Owns(s: State, box: Box) {
    s.row.Some? && s.row.value.owner == box
  }

  ghost predicate Inv(ttl: nat, s: State) {
    && (forall box :: box in s.granted ==> s.granted[box] <= s.now)
    && (forall box :: Unexpired(ttl, s, box) ==> Owns(s, box))
    && (s.row.Some? ==> s.row.value.owner in s.granted && s.row.value.heartbeat == s.granted[s.row.value.owner])
  }

  lemma StepKeepsInv(ttl: nat, s: State, step: Step)
    requires Inv(ttl, s)
    ensures Inv(ttl, After(ttl, s, step))
  {
    var s' := After(ttl, s, step);
    forall box | Unexpired(ttl, s', box) ensures Owns(s', box) {
      if box in s.granted && s'.granted[box] == s.granted[box] {
        assert Unexpired(ttl, s, box);
      }
    }
  }

  lemma {:induction false} RunKeepsInv(ttl: nat, now: int, steps: seq<Step>)
    ensures Inv(ttl, Run(ttl, Initial(now), steps))
  {
    if steps != [] {
      var before := steps[..|steps| - 1];
      RunKeepsInv(ttl, now, before);
      StepKeepsInv(ttl, Run(ttl, Initial(now), before), steps[|steps| - 1]);
    }
  }

  /** Two boxes never hold unexpired grants together, and the one that does owns the row. */
  lemma GrantsExclude(ttl: nat, now: int, steps: seq<Step>, a: Box, b: Box)
    requires var s := Run(ttl, Initial(now), steps); Unexpired(ttl, s, a) && Unexpired(ttl, s, b)
    ensures a == b && Owns(Run(ttl, Initial(now), steps), a)
  {
    RunKeepsInv(ttl, now, steps);
  }

  lemma {:induction false} GrantIsKept(ttl: nat, s: State, box: Box, t: int, steps: seq<Step>)
    requires box in s.granted && t <= s.granted[box] <= s.now
    requires Release(box) !in steps
    ensures var s' := Run(ttl, s, steps); box in s'.granted && t <= s'.granted[box] <= s'.now
  {
    if steps != [] {
      var before := steps[..|steps| - 1];
      assert forall x :: x in before ==> x in steps;
      GrantIsKept(ttl, s, box, t, before);
      assert steps[|steps| - 1] in steps;
    }
  }

  lemma {:induction false} RunInTwo(ttl: nat, s: State, first: seq<Step>, second: seq<Step>)
    ensures Run(ttl, s, first + second) == Run(ttl, Run(ttl, s, first), second)
  {
    if second == [] {
      assert first + second == first;
    } else {
      var n := |second| - 1;
      RunInTwo(ttl, s, first, second[..n]);
      assert (first + second)[..|first + second| - 1] == first + second[..n];
    }
  }

  /**
   A box granted the lease at time t that has not released it is the owner at
   every time up to t + ttl, whatever all boxes do in between.
   */
  lemma GrantedBoxOwnsUntilTtl(ttl: nat, now: int, before: seq<Step>, box: Box, later: seq<Step>)
    requires var s := Run(ttl, Initial(now), before); MayTake(s.row, box, ttl, s.now)
    requires Release(box) !in later
    ensures var t := Run(ttl, Initial(now), before).now;
            var s := Run(ttl, Initial(now), before + [Acquire(box)] + later);
            s.now <= t + ttl ==> Owns(s, box)
  {
    var s0 := Run(ttl, Initial(now), before);
    var steps := before + [Acquire(box)];
    assert steps[..|steps| - 1] == before;
    var s1 := Run(ttl, Initial(now), steps);
    assert s1 == After(ttl, s0, Acquire(box));
    GrantIsKept(ttl, s1, box, s0.now, later);
    RunInTwo(ttl, Initial(now), steps, later);
    RunKeepsInv(ttl, now, steps + later);
    var s := Run(ttl, Initial(now), steps + later);
    assert s.now <= s0.now + ttl ==> Unexpired(ttl, s, box);
  }

  /** A silent box is replaced: once more than the ttl has passed, whoever asks next owns the lease. */
  lemma {:induction false} SilentBoxIsReplaced(ttl: nat, now: int, steps: seq<Step>, silence: nat, box: Box)
    requires silence > ttl
    ensures var s := After(ttl, After(ttl, Run(ttl, Initial(now), steps), Tick(silence)), Acquire(box));
            Owns(s, box) && Unexpired(ttl, s, box)
  {
    RunKeepsInv(ttl, now, steps);
  }

  /** The i-th step stamped or deleted the row, because its box owned the row at that moment. */
  predicate SetsCadence(ttl: nat, now: int, steps: seq<Step>, i: nat)
    requires i < |steps|
  {
    match steps[i]
    case Stamp(box, _) => Owns(Run(ttl, Initial(now), steps[..i]), box)
    case Release(box) => Owns(Run(ttl, Initial(now), steps[..i]), box)
    case _ => false
  }

  ghost predicate LastStampIs(ttl: nat, now: int, steps: seq<Step>, at: int) {
    exists i :: 0 <= i < |steps| && SetsCadence(ttl, now, steps, i)
      && steps[i].Stamp? && steps[i].at == at
      && forall j :: i < j < |steps| ==> !SetsCadence(ttl, now, steps, j)
  }

  lemma LastStampExtends(ttl: nat, now: int, before: seq<Step>, step: Step, at: int)
    ensures var steps := before + [step];
            LastStampIs(ttl, now, steps, at) <==>
              if SetsCadence(ttl, now, steps, |before|) then step.Stamp? && step.at == at
              else LastStampIs(ttl, now, before, at)
  {
    hide Run;
    var steps := before + [step];
    var n := |before|;
    assert forall k :: 0 <= k <= n ==> steps[..k] == before[..k];
    assert forall k :: 0 <= k < n ==> (SetsCadence(ttl, now, steps, k) <==> SetsCadence(ttl, now, before, k));
    assert steps[n] == step;
    if LastStampIs(ttl, now, before, at) && !SetsCadence(ttl, now, steps, n) {
      var i :| (0 <= i < n && SetsCadence(ttl, now, before, i) && before[i].Stamp? && before[i].at == at
                && forall j :: i < j < n ==> !SetsCadence(ttl, now, before, j));
      assert steps[i] == before[i] && SetsCadence(ttl, now, steps, i);
    }
  }

  /**
   After any run of any boxes the row carries the discovery time `at` if and only
   if the last stamp or release by a box that owned the row at that moment was a
   stamp with `at`: renewals, steals and the calls of other boxes leave it alone.
   */
  lemma {:induction false} CadenceBelongsToTheOwner(ttl: nat, now: int, steps: seq<Step>, at: int)
    ensures var s := Run(ttl, Initial(now), steps);
            s.row.Some? && s.row.value.lastDiscovery == Some(at) <==> LastStampIs(ttl, now, steps, at)
  {
    if steps != [] {
      var n := |steps| - 1;
      CadenceBelongsToTheOwner(ttl, now, steps[..n], at);
      LastStampExtends(ttl, now, steps[..n], steps[n], at);
      assert steps == steps[..n] + [steps[n]];
    }
  }

  // ---- one pass of a worker ----

  const CHRONO_MAX_MS: nat := 0x7fff_ffff_ffff_ffff

  /** An interval too long for the clock's arithmetic counts as the longest one that fits. */
  predicate DiscoveryDue(last: Option<int>, interval: nat, now: int) {
    last.None? || now - last.value >= if interval <= CHRONO_MAX_MS then interval else CHRONO_MAX_MS
  }

  /** Discovery is due at once when it never ran, else one interval after it last ran. */
  lemma DiscoveryDueIff(at: int, interval: nat, now: int)
    ensures DiscoveryDue(None, interval, now)
    ensures interval <= 0x7fff_ffff_ffff_ffff ==> (DiscoveryDue(Some(at), interval, now) <==> at + interval <= now)
    ensures interval > 0x7fff_ffff_ffff_ffff ==>
              (DiscoveryDue(Some(at), interval, now) <==> at + 0x7fff_ffff_ffff_ffff <= now)
  {}

  /** What the other boxes can have done while this one waited. */
  predicate OthersMayReach(me: Box, ttl: nat, row: Option<Lease>, now: int, row': Option<Lease>, now': int) {
    && now <= now'
    && (row.Some? && row.value.owner == me ==>
          || row' == row
          || (row.value.heartbeat < now' - ttl && !(row'.Some? && row'.value.owner == me)))
    && (!(row.Some? && row.value.owner == me) ==> !(row'.Some? && row'.value.owner == me))
  }

  predicate ByOther(me: Box, step: Step) {
    match step
    case Tick(_) => true
    case Acquire(box) => box != me
    case Release(box) => box != me
    case Stamp(box, _) => box != me
  }

  /** Indeed, no run of the other boxes reaches anything else. */
  lemma {:induction false} OthersReach(me: Box, ttl: nat, s: State, steps: seq<Step>)
    requires forall i :: 0 <= i < |steps| ==> ByOther(me, steps[i])
    ensures var s' := Run(ttl, s, steps); OthersMayReach(me, ttl, s.row, s.now, s'.row, s'.now)
  {
    if steps != [] {
      OthersReach(me, ttl, s, steps[..|steps| - 1]);
    }
  }

  /** A pause of the renew task, and whether the renewal after it went through: a failed one is ignored. */
  datatype Beat = Beat(wait: nat, renewed: bool)

  function Elapsed(beats: seq<Beat>): nat {
    if beats == [] then 0 else Elapsed(beats[..|beats| - 1]) + beats[|beats| - 1].wait
  }

  /** The age of the heartbeat after some beats. */
  function AgeAfter(age: nat, beats: seq<Beat>): nat {
    if beats == [] then age
    else if beats[|beats| - 1].renewed then 0
    else AgeAfter(age, beats[..|beats| - 1]) + beats[|beats| - 1].wait
  }

  /** The heartbeat is never older than the ttl. */
  predicate KeepsUp(age: nat, beats: seq<Beat>, ttl: nat) {
    beats == [] ||
    (KeepsUp(age, beats[..|beats| - 1], ttl) && AgeAfter(age, beats[..|beats| - 1]) + beats[|beats| - 1].wait <= ttl)
  }

  function TrailingMisses(beats: seq<Beat>): nat {
    if beats == [] || beats[|beats| - 1].renewed then 0 else 1 + TrailingMisses(beats[..|beats| - 1])
  }

  /** With pauses of at most `gap`, the lease survives every m missed renewals in a row for which (m + 1) gaps fit. */
  lemma {:induction false} MissedRenewalsAreTolerated(age: nat, beats: seq<Beat>, gap: nat, m: nat, ttl: nat)
    requires forall i :: 0 <= i < |beats| ==> beats[i].wait <= gap
    requires forall k :: 0 <= k < |beats| ==> TrailingMisses(beats[..k]) <= m
    requires age + (m + 1) * gap <= ttl
    ensures KeepsUp(age, beats, ttl) && AgeAfter(age, beats) <= age + TrailingMisses(beats) * gap
  {
    if beats != [] {
      var n := |beats| - 1;
      var before := beats[..n];
      assert forall k :: 0 <= k < n ==> before[..k] == beats[..k];
      MissedRenewalsAreTolerated(age, before, gap, m, ttl);
      Scale(TrailingMisses(before), m, gap);
    }
  }

  /** The renew task pauses for a third of the ttl, so two missed renewals in a row are survived. */
  lemma TwoMissesAreTolerated(beats: seq<Beat>, ttl: nat)
    requires forall i :: 0 <= i < |beats| ==> beats[i].wait <= ttl / 3
    requires forall k :: 0 <= k < |beats| ==> TrailingMisses(beats[..k]) <= 2
    ensures KeepsUp(0, beats, ttl)
  {
    MissedRenewalsAreTolerated(0, beats, ttl / 3, 2, ttl);
  }

  lemma Scale(a: nat, b: nat, c: nat)
    requires a <= b
    ensures a * c <= b * c && (a + 1) * c == a * c + c && (b + 1) * c == b * c + c
  {}

  lemma {:induction false} BeatsInTwo(age: nat, first: seq<Beat>, second: seq<Beat>, ttl: nat)
    ensures Elapsed(first + second) == Elapsed(first) + Elapsed(second)
    ensures AgeAfter(age, first + second) == AgeAfter(AgeAfter(age, first), second)
    ensures KeepsUp(age, first + second, ttl) <==>
            KeepsUp(age, first, ttl) && KeepsUp(AgeAfter(age, first), second, ttl)
  {
    if second == [] {
      assert first + second == first;
    } else {
      var n := |second| - 1;
      BeatsInTwo(age, first, second[..n], ttl);
      assert (first + second)[..|first + second| - 1] == first + second[..n];
    }
  }

  /** A pause between two statements, with no renewal. */
  function Pause(wait: nat): Beat {
    Beat(wait, false)
  }

  datatype Pauses = Pauses(beforeDrain: nat, beforeCadence: nat, beforeStamp: nat)

  /** From the drain to the stamp. */
  function CadenceBeats(pauses: Pauses, discovery: seq<Beat>): seq<Beat> {
    [Pause(pauses.beforeCadence)] + discovery + [Pause(pauses.beforeStamp)]
  }

  lemma OneBeat(wait: nat)
    ensures Elapsed([Pause(wait)]) == wait
  {
    assert [Pause(wait)][..0] == [];
  }

  /** What a pass did. */
  datatype PassReport = PassReport(elected: bool, drained: bool, discovered: bool)

  /** The statements of a pass. */
  datatype Statement = AskLease | AskEligible | ReadCadence | StampCadence

  /** Who runs a job of this box: jobs started by hand share the flags. */
  datatype Holder = Nobody | ThisPass | AnotherTask

  predicate OthersMayTake(flag: Holder, flag': Holder) {
    flag.ThisPass? <==> flag'.ThisPass?
  }

  class Worker {
    const me: Box
    const ttl: nat
    var row: Option<Lease>
    var now: int
    var drainFlag: Holder
    var importFlag: Holder

    constructor (me: Box, ttl: nat, row: Option<Lease>, now: int, drainBusy: bool, importBusy: bool)
      ensures this.me == me && this.ttl == ttl && this.row == row && this.now == now && Idle()
    {
      this.me, this.ttl, this.row, this.now := me, ttl, row, now;
      drainFlag := if drainBusy then AnotherTask else Nobody;
      importFlag := if importBusy then AnotherTask else Nobody;
    }

    /** No pass of this worker holds a flag. */
    predicate Idle()
      reads this
    {
      !drainFlag.ThisPass? && !importFlag.ThisPass?
    }

    ghost predicate Mine()
      reads this
    {
      row.Some? && row.value.owner == me
    }

    /** This box owns the row, with a heartbeat of this age. */
    ghost predicate HeldFor(age: nat)
      reads this
    {
      Mine() && row.value.heartbeat == now - age
    }

    /** INSERT ... ON CONFLICT DO UPDATE ... WHERE ... RETURNING. */
    method AcquireOrRenew() returns (granted: bool)
      modifies this`row
      ensures row == AfterAcquire(old(row), me, ttl, now)
      ensures granted <==> MayTake(old(row), me, ttl, now)
      ensures granted <==> Mine()
    {
      granted := true;
      if row.None? {
        row := Some(Lease(me, now, None));
      } else if row.value.owner == me || row.value.heartbeat < now - ttl {
        row := Some(row.value.(owner := me, heartbeat := now));
      } else {
        granted := false;
      }
    }

    method ReleaseLease()
      modifies this`row
      ensures row == AfterRelease(old(row), me) && !Mine()
    {
      if row.Some? && row.value.owner == me {
        row := None;
      }
    }

    method SetLastDiscoveryAt(at: int)
      modifies this`row
      ensures row == AfterStamp(old(row), me, at)
    {
      if row.Some? && row.value.owner == me {
        row := Some(row.value.(lastDiscovery := Some(at)));
      }
    }

    /** Time passes; other boxes act on the row as the lease allows them, and other tasks on free flags. */
    method Await(wait: nat)
      modifies this`row, this`now, this`drainFlag, this`importFlag
      ensures now == old(now) + wait
      ensures OthersMayReach(me, ttl, old(row), old(now), row, now)
      ensures OthersMayTake(old(drainFlag), drainFlag) && OthersMayTake(old(importFlag), importFlag)
    {
      var row', later, drain, imports := *, now + wait, *, *;
      if OthersMayReach(me, ttl, row, now, row', later) {
        row := row';
      }
      if OthersMayTake(drainFlag, drain) { drainFlag := drain; }
      if OthersMayTake(importFlag, imports) { importFlag := imports; }
      now := later;
    }

    /** A long job, with renewals beside it.  While they keep up, the lease stays this box's. */
    method RunWithHeartbeat(beats: seq<Beat>, ghost age: nat)
      modifies this`row, this`now, this`drainFlag, this`importFlag
      ensures now == old(now) + Elapsed(beats)
      ensures OthersMayTake(old(drainFlag), drainFlag) && OthersMayTake(old(importFlag), importFlag)
      ensures old(HeldFor(age)) && KeepsUp(age, beats, ttl) ==>
                HeldFor(AgeAfter(age, beats)) && row.value.lastDiscovery == old(row).value.lastDiscovery
    {
      var i := 0;
      assert beats[..0] == [];
      while i < |beats|
        invariant 0 <= i <= |beats|
        invariant now == old(now) + Elapsed(beats[..i])
        invariant OthersMayTake(old(drainFlag), drainFlag) && OthersMayTake(old(importFlag), importFlag)
        invariant old(HeldFor(age)) && KeepsUp(age, beats[..i], ttl) ==>
                    && HeldFor(AgeAfter(age, beats[..i]))
                    && row.value.lastDiscovery == old(row).value.lastDiscovery
      {
        assert beats[..i + 1][..i] == beats[..i];
        Await(beats[i].wait);
        if beats[i].renewed {
          var renewed := AcquireOrRenew();
        }
        i := i + 1;
      }
      assert beats[..i] == beats;
    }

    /** Drain, if there is work and no other task of this box drains (`busy`) when the pass asks. */
    method DrainIfFree(eligible: bool, busy: bool, pause: nat, drainBeats: seq<Beat>) returns (drained: bool)
      requires Idle()
      modifies this`row, this`now, this`drainFlag, this`importFlag
      ensures Idle() && (drained <==> eligible && !busy)
      ensures var beats := [Pause(pause)] + if drained then drainBeats else [];
              && now == old(now) + Elapsed(beats)
              && (old(HeldFor(0)) && KeepsUp(0, beats, ttl) ==>
                    HeldFor(AgeAfter(0, beats)) && row.value.lastDiscovery == old(row).value.lastDiscovery)
    {
      hide KeepsUp, AgeAfter, Elapsed, OthersMayReach;
      ghost var paused := [Pause(pause)];
      RunWithHeartbeat([Pause(pause)], 0);
      drainFlag := if busy then AnotherTask else Nobody;
      drained := eligible && drainFlag.Nobody?;
      if drained {
        drainFlag := ThisPass;
        RunWithHeartbeat(drainBeats, AgeAfter(0, paused));
        drainFlag := Nobody;
        BeatsInTwo(0, paused, drainBeats, ttl);
      } else {
        assert paused + [] == paused;
      }
    }

    /**
     Read the cadence, discover if it is due and no other task of this box imports
     (`busy`) then, and stamp it.  It is due an interval after the stamp, and without one.
     */
    method DiscoverIfDue(busy: bool, pauses: Pauses, interval: nat, discoveryBeats: seq<Beat>,
                         fails: Statement -> bool, ghost age: nat)
      returns (ok: bool, discovered: bool)
      requires Idle()
      modifies this`row, this`now, this`drainFlag, this`importFlag
      ensures Idle() && (discovered ==> !busy && !fails(ReadCadence))
      ensures ok <==> !fails(ReadCadence) && (discovered ==> !fails(StampCadence))
      ensures old(HeldFor(age)) && KeepsUp(age, CadenceBeats(pauses, discoveryBeats), ttl) ==>
                var last, asked := old(row).value.lastDiscovery, old(now) + pauses.beforeCadence;
                && Mine()
                && (discovered <==> !fails(ReadCadence) && !busy && DiscoveryDue(last, interval, asked))
                && (discovered && interval <= 0x7fff_ffff_ffff_ffff ==> last.None? || last.value + interval <= asked)
                && (ok && !busy && (last.None? || last.value + interval <= asked) ==> discovered)
                && row.value.lastDiscovery == if ok && discovered then Some(asked + Elapsed(discoveryBeats)) else last
    {
      hide KeepsUp, AgeAfter, OthersMayReach, Elapsed;
      ghost var first, second := [Pause(pauses.beforeCadence)], [Pause(pauses.beforeStamp)];
      OneBeat(pauses.beforeCadence);
      BeatsInTwo(age, first, discoveryBeats, ttl);
      BeatsInTwo(age, first + discoveryBeats, second, ttl);
      ok, discovered := !fails(ReadCadence), false;
      if !ok { return; }
      RunWithHeartbeat([Pause(pauses.beforeCadence)], age);
      var last := if row.Some? then row.value.lastDiscovery else None;
      importFlag := if busy then AnotherTask else Nobody;
      if DiscoveryDue(last, interval, now) && importFlag.Nobody? {
        importFlag := ThisPass;
        RunWithHeartbeat(discoveryBeats, AgeAfter(age, first));
        importFlag := Nobody;
        discovered := true;
        ok := !fails(StampCadence);
        if !ok { return; }
        var at := now;
        RunWithHeartbeat([Pause(pauses.beforeStamp)], AgeAfter(age, first + discoveryBeats));
        SetLastDiscoveryAt(at);
      }
    }

    /**
     Elect, drain if there is work, discover if it is due, and stamp the cadence
     only if discovery ran.  Time passes between the pass's own statements too:
     before the drain, before the cadence is read, and before it is stamped.  A SQL
     error in one of the statements, and nothing else, ends the pass (`ok` is false).
     */
    method RunOnePass(eligible: bool, drainBusy: bool, importBusy: bool, pauses: Pauses,
                      drainBeats: seq<Beat>, interval: nat, discoveryBeats: seq<Beat>, fails: Statement -> bool)
      returns (ok: bool, report: PassReport)
      requires Idle()
      modifies this
      ensures Idle()
      ensures report.elected <==> !fails(AskLease) && MayTake(old(row), me, ttl, old(now))
      ensures !report.elected ==> report == PassReport(false, false, false) && row == old(row) && now == old(now)
      ensures ok <==>
              && !fails(AskLease)
              && (report.elected ==> !fails(AskEligible) && !fails(ReadCadence))
              && (report.discovered ==> !fails(StampCadence))
      ensures report.drained <==> report.elected && !fails(AskEligible) && eligible && !drainBusy
      ensures report.discovered ==> report.elected && !importBusy
      ensures var drain := [Pause(pauses.beforeDrain)] + if report.drained then drainBeats else [];
              report.elected && KeepsUp(0, drain + CadenceBeats(pauses, discoveryBeats), ttl) ==>
                var last := if old(row).Some? then old(row).value.lastDiscovery else None;
                var asked := old(now) + Elapsed(drain) + pauses.beforeCadence;
                && Mine()
                && (report.discovered ==> DiscoveryDue(last, interval, asked))
                && (ok && !importBusy && DiscoveryDue(last, interval, asked) ==> report.discovered)
                && (report.discovered && interval <= 0x7fff_ffff_ffff_ffff ==>
                      last.None? || last.value + interval <= asked)
                && (ok && !importBusy && (last.None? || last.value + interval <= asked) ==> report.discovered)
                && row.value.lastDiscovery ==
                   if ok && report.discovered then Some(asked + Elapsed(discoveryBeats)) else last
    {
      hide KeepsUp, AgeAfter, OthersMayReach, Elapsed, CadenceBeats;
      report := PassReport(false, false, false);
      if fails(AskLease) { return false, report; }
      var granted := AcquireOrRenew();
      if !granted { return true, report; }
      report := report.(elected := true);
      if fails(AskEligible) { return false, report; }

      var drained, discovered;
      drained := DrainIfFree(eligible, drainBusy, pauses.beforeDrain, drainBeats);
      report := report.(drained := drained);
      ghost var drain := [Pause(pauses.beforeDrain)] + if drained then drainBeats else [];
      BeatsInTwo(0, drain, CadenceBeats(pauses, discoveryBeats), ttl);
      ok, discovered := DiscoverIfDue(importBusy, pauses, interval, discoveryBeats, fails, AgeAfter(0, drain));
      report := report.(discovered := discovered);
    }
  }
}
