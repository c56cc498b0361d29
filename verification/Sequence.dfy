/** Leased sequences (internal/database/sequence.go).

    A sequence hands out numbers from memory and stores a lease, the last number it
    may hand out without storing again. After a crash it resumes from the lease.
  */
module Sequence {

  import opened Prelude
  import opened IntegerArithmetic

  datatype Info = Info(step: Int64, min: Int64, max: Int64, start: Int64, cache: Cache, cycle: bool)

  /** CACHE is read as an int64 and stored as a uint64. */
  type Cache = c: int | 0 <= c <= 0x7FFF_FFFF_FFFF_FFFF

  /** `current` and `cached` live in memory, `lease` in the sequence table. */
  datatype State = State(current: Option<Int64>, cached: nat, lease: Option<Int64>)

  const CREATED := State(None, 0, None)

  // ------------------------------------------------------------- operations

  /** The candidate value, before the bounds are looked at. */
  function Candidate(info: Info, st: State): Int64 {
    if st.current.None? then info.start else WrapSum(st.current.value + info.step)
  }

  /** The value Next hands out, or None when a bound of a non-cycling sequence is passed. */
  function Bounded(info: Info, raw: Int64): Option<Int64> {
    if raw < info.min && !info.cycle then None
    else
      var v := if raw < info.min then info.max else raw;
      if v > info.max && !info.cycle then None
      else Some(if v > info.max then info.min else v)
  }

  function NewLease(info: Info, v: Int64): Int64 {
    if info.step > 0 then
      var l := WrapSum(v + info.cache - 1); if l > info.max then info.max else l
    else
      var l := WrapSum(v - info.cache + 1); if l < info.min then info.min else l
  }

  function Next(info: Info, st: State): (State, Option<Int64>) {
    var out := Bounded(info, Candidate(info, st));
    if out.None? then (st, None)
    else if st.current.Some? && st.cached + 1 <= info.cache then
      (State(out, st.cached + 1, st.lease), out)
    else
      (State(out, if st.current.Some? then 1 else st.cached + 1, Some(NewLease(info, out.value))), out)
  }

  function Release(info: Info, st: State): State {
    if st.current.None? then st else State(st.current, info.cache, st.current)
  }

  /** A crash loses what is in memory; NewSequence reloads from the stored lease. */
  function Reload(info: Info, lease: Option<Int64>): State {
    State(lease, if lease.Some? then info.cache else 0, lease)
  }

  /** The sequence as the program holds it, tied to the functions above. */
  class LeasedSequence {
    const info: Info
    var currentValue: Option<Int64>
    var cached: nat
    var storedLease: Option<Int64>

    ghost function Abs(): State
      reads this
    {
      State(currentValue, cached, storedLease)
    }

    constructor (info: Info, lease: Option<Int64>)
      ensures this.info == info && Abs() == Reload(info, lease)
    {
      this.info := info;
      currentValue, storedLease := lease, lease;
      cached := if lease.Some? then info.cache else 0;
    }

    method NextValue() returns (out: Option<Int64>)
      modifies this
      ensures (Abs(), out) == Next(info, old(Abs()))
    {
      var newValue := if currentValue.None? then info.start else WrapSum(currentValue.value + info.step);
      if newValue < info.min {
        if !info.cycle {
          return None;
        }
        newValue := info.max;
      }
      if newValue > info.max {
        if !info.cycle {
          return None;
        }
        newValue := info.min;
      }
      assert Some(newValue) == Bounded(info, Candidate(info, old(Abs())));
      cached := cached + 1;
      if currentValue.Some? && cached <= info.cache {
        currentValue := Some(newValue);
        return Some(newValue);
      }
      if currentValue.Some? {
        cached := 1;
      }
      var newLease := LeaseFor(newValue);
      storedLease := Some(newLease);
      currentValue := Some(newValue);
      return Some(newValue);
    }

    /** The new lease, depending on the direction of the sequence. */
    method LeaseFor(newValue: Int64) returns (newLease: Int64)
      ensures newLease == NewLease(info, newValue)
    {
      if info.step > 0 {
        newLease := WrapSum(newValue + info.cache - 1);
        if newLease > info.max {
          newLease := info.max;
        }
      } else {
        newLease := WrapSum(newValue - info.cache + 1);
        if newLease < info.min {
          newLease := info.min;
        }
      }
    }

    method ReleaseLease()
      modifies this
      ensures Abs() == Release(info, old(Abs()))
    {
      if currentValue.Some? {
        storedLease := currentValue;
        cached := info.cache;
      }
    }
  }

  // ------------------------------------------------------------------- runs

  datatype Event = Take | Crash | GiveBack

  function Step(info: Info, st: State, e: Event): (State, seq<int>) {
    match e
    case Take =>
      var (st', out) := Next(info, st); (st', if out.Some? then [out.value] else [])
    case Crash => (Reload(info, st.lease), [])
    case GiveBack => (Release(info, st), [])
  }

  /** A run: what happened since the sequence was created, latest event outermost. */
  datatype History = Created | After(before: History, e: Event)

  function Now(info: Info, h: History): State {
    match h
    case Created => CREATED
    case After(before, e) => Step(info, Now(info, before), e).0
  }

  /** Everything handed out in a run, in order. */
  function Emitted(info: Info, h: History): seq<int> {
    match h
    case Created => []
    case After(before, e) => Emitted(info, before) + Step(info, Now(info, before), e).1
  }

  // -------------------------------------------------------------- direction

  function Size(info: Info): int { if info.step > 0 then info.step else 0 - info.step }

  /** Numbers read in the direction of the sequence, so that it always ascends. */
  function Fwd(info: Info, x: int): int { if info.step > 0 then x else 0 - x }

  function Bottom(info: Info): int { if info.step > 0 then info.min else 0 - info.max }

  function Top(info: Info): int { if info.step > 0 then info.max else 0 - info.min }

  /** A wrapped candidate or lease cannot come back inside the bounds: either
      nothing wraps, or what wraps lands before the first bound. The default bounds
      (1 to the largest int64, or the smallest int64 to -1) are of the second kind. */
  predicate NoWrapHazard(info: Info) {
    || Top(info) + Size(info) + info.cache <= 0x7FFF_FFFF_FFFF_FFFF
    || -0x7FFF_FFFF_FFFF_FFFF + Size(info) + info.cache <= Bottom(info)
  }

  /** A lease reaches past every value handed out under it, whatever the bounds. */
  predicate LeaseCovers(info: Info) {
    info.cache <= 2 || info.step == 1 || info.step == -1
  }

  /** Some value of the first lease, within the bounds, is at or past the value that
      follows the lease. */
  predicate Overtaken(info: Info) {
    && Bottom(info) <= Fwd(info, info.start) <= Top(info)
    && exists k: nat :: k < info.cache && Overtakes(info, k)
  }

  predicate Overtakes(info: Info, k: nat) {
    Fwd(info, info.start) + Reach(info, k) <= Top(info) && Reach(info, k) >= info.cache - 1 + Size(info)
  }

  /** How far n steps go. */
  function Reach(info: Info, n: nat): nat {
    if n == 0 then 0 else Reach(info, n - 1) + Size(info)
  }

  lemma {:induction false} ReachCovered(info: Info, n: nat)
    requires LeaseCovers(info) && n < info.cache
    ensures Reach(info, n) < n + Size(info) || info.step == 0
  {
    if n > 0 {
      ReachCovered(info, n - 1);
    }
  }

  lemma {:induction false} ReachUncovered(info: Info, n: nat)
    requires info.step != 0 && !LeaseCovers(info) && n >= 2
    ensures Reach(info, n) >= n + Size(info)
  {
    if n == 2 {
      assert Reach(info, 1) == Size(info);
    } else {
      ReachUncovered(info, n - 1);
    }
  }

  predicate Sound(info: Info) {
    info.step != 0 && info.cache >= 1 && !info.cycle && NoWrapHazard(info)
  }

  // -------------------------------------------------------------- invariant

  /** Resuming from x can only hand out something beyond `last`, or nothing. */
  predicate ResumesBeyond(info: Info, x: int, last: Int64) {
    || (Fwd(info, x) <= Top(info) && Fwd(info, x) + Size(info) > Fwd(info, last))
    || Exhausted(info, x)
  }

  /** A wrapped lease: the next candidate is still before the first bound. */
  predicate Exhausted(info: Info, x: int) {
    Fits(x + info.step) && Fwd(info, x) + Size(info) < Bottom(info)
  }

  /** The stored lease still covers what may be handed out before it is renewed. */
  ghost predicate LeaseAhead(info: Info, lease: Int64, last: Int64, left: nat) {
    || Fwd(info, lease) == Top(info)
    || Exhausted(info, lease)
    || (Fwd(info, lease) <= Top(info) && Covers(info, lease, last, left))
  }

  /** The value after the lease is past every value of the bounds that up to `left`
      steps can reach. */
  ghost predicate Covers(info: Info, lease: Int64, last: Int64, left: nat) {
    forall k: nat :: k <= left && Fwd(info, last) + Reach(info, k) <= Top(info) ==>
      Fwd(info, lease) + Size(info) > Fwd(info, last) + Reach(info, k)
  }

  ghost predicate Inv(info: Info, st: State, emitted: seq<int>) {
    if emitted == [] then st == CREATED
    else
      var last := emitted[|emitted| - 1];
      && st.current.Some? && st.lease.Some? && st.cached <= info.cache
      && Bottom(info) <= Fwd(info, last) <= Top(info)
      && Fwd(info, info.start) <= Fwd(info, last) && Bottom(info) <= Fwd(info, info.start)
      && (|| (st.current.value == last && LeaseAhead(info, st.lease.value, last, info.cache - st.cached))
          || (st.cached == info.cache && st.current == st.lease && ResumesBeyond(info, st.lease.value, last)))
  }

  ghost predicate Monotone(info: Info, emitted: seq<int>) {
    forall i, j :: 0 <= i < j < |emitted| ==> Fwd(info, emitted[i]) < Fwd(info, emitted[j])
  }

  ghost predicate InBounds(info: Info, emitted: seq<int>) {
    forall i :: 0 <= i < |emitted| ==> info.min <= emitted[i] <= info.max
  }

  // ----------------------------------------------------------------- proofs

  /** A candidate computed from c is either c plus the step or out of bounds. */
  lemma CandidateIsNextOrOut(info: Info, c: Int64)
    requires Sound(info) && Fwd(info, c) <= Top(info)
    ensures var raw := WrapSum(c + info.step);
            Bounded(info, raw).Some? ==> raw == c + info.step
  {
  }

  lemma NewLeaseAhead(info: Info, v: Int64)
    requires Sound(info) && !Overtaken(info)
    requires Bottom(info) <= Fwd(info, info.start) <= Fwd(info, v) <= Top(info)
    ensures LeaseAhead(info, NewLease(info, v), v, info.cache - 1)
  {
    var raw := if info.step > 0 then v + info.cache - 1 else v - info.cache + 1;
    if !Fits(raw) {
      assert Exhausted(info, WrapSum(raw));
    } else if Fwd(info, raw) <= Top(info) {
      forall k: nat | k <= info.cache - 1 && Fwd(info, v) + Reach(info, k) <= Top(info)
        ensures Fwd(info, raw) + Size(info) > Fwd(info, v) + Reach(info, k)
      {
        assert !Overtakes(info, k);
      }
    }
  }

  lemma LeaseAheadResumes(info: Info, lease: Int64, last: Int64, left: nat)
    requires Sound(info) && Fwd(info, last) <= Top(info)
    requires LeaseAhead(info, lease, last, left)
    ensures ResumesBeyond(info, lease, last)
  {
    assert Reach(info, 0) == 0;
  }

  /** What one successful Next does to the invariant: v is the value handed out. */
  ghost predicate TakenBeyond(info: Info, st: State, emitted: seq<int>) {
    var out := Next(info, st).1;
    out.Some? ==>
      && Inv(info, Next(info, st).0, emitted + [out.value])
      && info.min <= out.value <= info.max
      && (emitted != [] ==> Fwd(info, emitted[|emitted| - 1]) < Fwd(info, out.value))
  }

  lemma LeaseRunsOn(info: Info, lease: Int64, last: Int64, next: Int64, left: nat)
    requires Sound(info) && next == last + info.step && Fwd(info, next) <= Top(info) && left > 0
    requires LeaseAhead(info, lease, last, left)
    ensures LeaseAhead(info, lease, next, left - 1)
  {
    if Fwd(info, lease) <= Top(info) && Covers(info, lease, last, left) {
      forall k: nat | k <= left - 1 && Fwd(info, next) + Reach(info, k) <= Top(info)
        ensures Fwd(info, lease) + Size(info) > Fwd(info, next) + Reach(info, k)
      {
        assert Reach(info, k + 1) == Reach(info, k) + Size(info);
        assert k + 1 <= left;
      }
    }
  }

  /** The lease runs on, or has just been used up. */
  lemma TakeAfterLast(info: Info, st: State, emitted: seq<int>)
    requires Sound(info) && !Overtaken(info) && Inv(info, st, emitted) && emitted != []
    requires st.current == Some(emitted[|emitted| - 1])
    requires LeaseAhead(info, st.lease.value, st.current.value, info.cache - st.cached)
    ensures TakenBeyond(info, st, emitted)
  {
    CandidateIsNextOrOut(info, st.current.value);
    var out := Next(info, st).1;
    if out.Some? {
      if st.cached + 1 <= info.cache {
        LeaseRunsOn(info, st.lease.value, st.current.value, out.value, info.cache - st.cached);
      } else {
        NewLeaseAhead(info, out.value);
      }
    }
  }

  /** The sequence resumes from its stored lease. */
  lemma TakeAfterReloaded(info: Info, st: State, emitted: seq<int>)
    requires Sound(info) && !Overtaken(info) && Inv(info, st, emitted) && emitted != []
    requires st.cached == info.cache && st.current == st.lease
    requires ResumesBeyond(info, st.lease.value, emitted[|emitted| - 1])
    ensures TakenBeyond(info, st, emitted)
  {
    if Fwd(info, st.current.value) <= Top(info) {
      CandidateIsNextOrOut(info, st.current.value);
    }
    var out := Next(info, st).1;
    if out.Some? {
      NewLeaseAhead(info, out.value);
    }
  }

  lemma TakeKeepsInv(info: Info, st: State, emitted: seq<int>)
    requires Sound(info) && !Overtaken(info) && Inv(info, st, emitted)
    ensures TakenBeyond(info, st, emitted)
  {
    if emitted == [] {
      var out := Next(info, st).1;
      if out.Some? {
        NewLeaseAhead(info, out.value);
      }
    } else if st.cached == info.cache && st.current == st.lease && ResumesBeyond(info, st.lease.value, emitted[|emitted| - 1]) {
      TakeAfterReloaded(info, st, emitted);
    } else {
      TakeAfterLast(info, st, emitted);
    }
  }

  lemma OtherKeepsInv(info: Info, st: State, emitted: seq<int>, e: Event)
    requires Sound(info) && Inv(info, st, emitted) && e != Take
    ensures Inv(info, Step(info, st, e).0, emitted) && Step(info, st, e).1 == []
  {
    if emitted != [] {
      var last := emitted[|emitted| - 1];
      if e == Crash && LeaseAhead(info, st.lease.value, last, info.cache - st.cached) {
        LeaseAheadResumes(info, st.lease.value, last, info.cache - st.cached);
      }
    }
  }

  ghost predicate Good(info: Info, st: State, emitted: seq<int>) {
    Monotone(info, emitted) && InBounds(info, emitted) && Inv(info, st, emitted)
  }

  lemma StepKeepsGood(info: Info, st: State, emitted: seq<int>, e: Event)
    requires Sound(info) && !Overtaken(info) && Good(info, st, emitted)
    ensures var (st', more) := Step(info, st, e); Good(info, st', emitted + more)
  {
    if e == Take {
      TakeKeepsInv(info, st, emitted);
    } else {
      OtherKeepsInv(info, st, emitted, e);
    }
    assert emitted + [] == emitted;
  }

  /** Over every interleaving of Next, crash with reload, and Release, the values
      handed out are strictly monotone and within the bounds. */
  lemma {:induction false} NeverTwice(info: Info, h: History)
    requires Sound(info) && !Overtaken(info)
    ensures Good(info, Now(info, h), Emitted(info, h))
  {
    match h
    case Created =>
    case After(before, e) =>
      NeverTwice(info, before);
      StepKeepsGood(info, Now(info, before), Emitted(info, before), e);
  }

  // ------------------------------------------- when the lease is too short

  /** The value i steps after the start. */
  function Nth(info: Info, i: nat): int {
    if i == 0 then info.start else Nth(info, i - 1) + info.step
  }

  lemma {:induction false} NthReach(info: Info, i: nat)
    ensures Fwd(info, Nth(info, i)) == Fwd(info, info.start) + Reach(info, i)
  {
    if i > 0 {
      NthReach(info, i - 1);
    }
  }

  lemma {:induction false} NthBetween(info: Info, i: nat, n: nat)
    requires i <= n && info.step != 0
    ensures Fwd(info, info.start) <= Fwd(info, Nth(info, i)) <= Fwd(info, Nth(info, n))
    decreases n
  {
    if i < n {
      NthBetween(info, i, n - 1);
    } else if n > 0 {
      NthBetween(info, n - 1, n - 1);
    }
  }

  function Takes(n: nat): History { if n == 0 then Created else After(Takes(n - 1), Take) }

  /** A value taken under a running lease. */
  lemma TakeUnderLease(info: Info, c: Int64, cached: nat, lease: Int64)
    requires cached < info.cache && info.min <= c + info.step <= info.max
    ensures var c' := c + info.step;
            Step(info, State(Some(c), cached, Some(lease)), Take) == (State(Some(c'), cached + 1, Some(lease)), [c'])
  {
  }

  lemma TakeFirst(info: Info)
    requires info.min <= info.start <= info.max
    ensures Step(info, CREATED, Take) == (State(Some(info.start), 1, Some(NewLease(info, info.start))), [info.start])
  {
  }

  /** The state after taking n values of a fresh lease. */
  function UnderFirstLease(info: Info, n: nat): State
    requires n >= 1 && Fits(Nth(info, n - 1))
  {
    State(Some(Nth(info, n - 1)), n, Some(NewLease(info, info.start)))
  }

  lemma {:induction false} TakesFrom(info: Info, n: nat)
    requires info.step != 0 && 1 <= n <= info.cache
    requires info.min <= info.start <= info.max && info.min <= Nth(info, n - 1) <= info.max
    ensures Now(info, Takes(n)) == UnderFirstLease(info, n)
    ensures var emitted := Emitted(info, Takes(n)); emitted != [] && emitted[|emitted| - 1] == Nth(info, n - 1)
  {
    if n == 1 {
      TakeFirst(info);
    } else {
      NthBetween(info, n - 2, n - 1);
      TakesFrom(info, n - 1);
      TakesOneMore(info, n);
    }
  }

  lemma TakesOneMore(info: Info, n: nat)
    requires 2 <= n <= info.cache && Fits(Nth(info, n - 2)) && info.min <= Nth(info, n - 1) <= info.max
    requires Now(info, Takes(n - 1)) == UnderFirstLease(info, n - 1)
    ensures Now(info, Takes(n)) == UnderFirstLease(info, n)
    ensures Emitted(info, Takes(n)) == Emitted(info, Takes(n - 1)) + [Nth(info, n - 1)]
  {
    TakeUnderLease(info, Nth(info, n - 2), n - 1, NewLease(info, info.start));
  }

  lemma NotMonotone(info: Info, emitted: seq<int>, v: Int64)
    requires emitted != [] && Fwd(info, v) <= Fwd(info, emitted[|emitted| - 1])
    ensures !Monotone(info, emitted + [v])
  {
    var all := emitted + [v];
    assert all[|emitted| - 1] == emitted[|emitted| - 1] && all[|emitted|] == v;
  }

  lemma TakeAfterReload(info: Info, lease: Int64) returns (st: State)
    requires info.min <= lease + info.step <= info.max
    ensures Step(info, Reload(info, Some(lease)), Take) == (st, [lease + info.step])
  {
    st := Step(info, Reload(info, Some(lease)), Take).0;
  }

  /** The first lease of a sequence that overtakes it: the value after it is in bounds. */
  lemma ShortLease(info: Info, k: nat) returns (lease: Int64)
    requires Sound(info) && Bottom(info) <= Fwd(info, info.start) <= Top(info) && Overtakes(info, k)
    ensures lease == NewLease(info, info.start)
    ensures info.min <= lease + info.step <= info.max
    ensures Fwd(info, lease + info.step) <= Fwd(info, Nth(info, k))
  {
    lease := NewLease(info, info.start);
    NthReach(info, k);
    assert Fwd(info, lease) == Fwd(info, info.start) + info.cache - 1;
  }

  lemma FirstLeaseTaken(info: Info, n: nat)
    requires info.step != 0 && 1 <= n <= info.cache
    requires info.min <= info.start <= info.max && info.min <= Nth(info, n - 1) <= info.max
    ensures Now(info, Takes(n)).lease == Some(NewLease(info, info.start))
    ensures var emitted := Emitted(info, Takes(n)); emitted != [] && emitted[|emitted| - 1] == Nth(info, n - 1)
  {
    TakesFrom(info, n);
  }

  lemma GoesBack(info: Info, h: History, lease: Int64)
    requires Now(info, h).lease == Some(lease) && info.min <= lease + info.step <= info.max
    requires var emitted := Emitted(info, h);
             emitted != [] && Fwd(info, lease + info.step) <= Fwd(info, emitted[|emitted| - 1])
    ensures !Monotone(info, Emitted(info, After(After(h, Crash), Take)))
  {
    var emitted := Emitted(info, h);
    var st := TakeAfterReload(info, lease);
    assert emitted + [] == emitted;
    NotMonotone(info, emitted, lease + info.step);
  }

  /** A sequence that overtakes its lease: taking values up to that one, crashing and
      asking again goes back behind values already handed out. */
  lemma ShortLeaseGoesBack(info: Info, k: nat)
    requires Sound(info) && Bottom(info) <= Fwd(info, info.start) <= Top(info) && k < info.cache && Overtakes(info, k)
    ensures !Monotone(info, Emitted(info, After(After(Takes(k + 1), Crash), Take)))
  {
    var lease := ShortLease(info, k);
    NthReach(info, k);
    FirstLeaseTaken(info, k + 1);
    GoesBack(info, Takes(k + 1), lease);
  }

  /** What makes a non-cycling sequence safe, exactly: none of the values its first lease
      leaves room for is at or past the value after the lease. */
  lemma SafeIff(info: Info)
    requires Sound(info)
    ensures (forall h :: Monotone(info, Emitted(info, h))) <==> !Overtaken(info)
  {
    if Overtaken(info) {
      var k: nat :| k < info.cache && Overtakes(info, k);
      ShortLeaseGoesBack(info, k);
    } else {
      forall h ensures Monotone(info, Emitted(info, h)) {
        NeverTwice(info, h);
      }
    }
  }

  /** There is room for a whole lease of values between start and the far bound. */
  predicate Roomy(info: Info) {
    && info.cache >= 1
    && info.min <= info.start <= info.max
    && info.min <= Nth(info, info.cache - 1) <= info.max
  }

  /** With a cache of at most 2, or a step of 1 or -1, no sequence is overtaken; any
      other one is, given room for a whole lease. */
  lemma CoversIff(info: Info)
    requires info.step != 0 && info.cache >= 1
    ensures LeaseCovers(info) ==> !Overtaken(info)
    ensures Roomy(info) && !LeaseCovers(info) ==> Overtaken(info)
  {
    if LeaseCovers(info) {
      forall k: nat | k < info.cache ensures !Overtakes(info, k) { ReachCovered(info, k); }
    } else if Roomy(info) {
      ReachUncovered(info, info.cache - 1);
      NthReach(info, info.cache - 1);
      assert Overtakes(info, info.cache - 1);
    }
  }

  // ------------------------------------------------ when a value comes twice

  /** How far a crash right after a new lease moves on. */
  function Leap(info: Info): int { info.cache - 1 + Size(info) }

  /** Some value of the first lease, within the bounds, is a whole number of leaps from the
      start. */
  predicate Repeats(info: Info) {
    && Bottom(info) <= Fwd(info, info.start) <= Top(info)
    && Leap(info) > 0
    && exists a: nat :: 1 <= a < info.cache && RepeatsAt(info, a)
  }

  predicate RepeatsAt(info: Info, a: nat)
    requires Leap(info) > 0
  {
    Fwd(info, info.start) + a * Size(info) <= Top(info) && a * Size(info) % Leap(info) == 0
  }

  ghost predicate Once(emitted: seq<int>) {
    forall i, j :: 0 <= i < j < |emitted| ==> emitted[i] != emitted[j]
  }

  /** What can be handed out from a number on, read in the direction of the sequence: any
      steps and leaps further. */
  ghost predicate Ahead(info: Info, base: int, x: int) {
    exists i: nat, j: nat :: FurtherBy(info, base, x, i, j)
  }

  predicate FurtherBy(info: Info, base: int, x: int, i: nat, j: nat) {
    x == base + i * Size(info) + j * Leap(info)
  }

  lemma AheadAfter(info: Info, base: int, x: int)
    requires info.step != 0 && info.cache >= 1
    ensures Ahead(info, base, x) ==> base <= x
    ensures Ahead(info, base + Size(info), x) ==> Ahead(info, base, x)
    ensures Ahead(info, base + Leap(info), x) ==> Ahead(info, base, x)
  {
    if i: nat, j: nat :| FurtherBy(info, base, x, i, j) {
      Nonnegative(i, Size(info));
      Nonnegative(j, Leap(info));
    }
    var stepped, leapt := base + Size(info), base + Leap(info);
    if i: nat, j: nat :| FurtherBy(info, stepped, x, i, j) {
      OneMore(i, Size(info));
      assert FurtherBy(info, base, x, i + 1, j);
    }
    if i: nat, j: nat :| FurtherBy(info, leapt, x, i, j) {
      OneMore(j, Leap(info));
      assert FurtherBy(info, base, x, i, j + 1);
    }
  }

  lemma Nonnegative(k: nat, u: int)
    requires u >= 0
    ensures k * u >= 0
  {
  }

  lemma OneMore(k: nat, u: int)
    ensures (k + 1) * u == k * u + u
  {
  }

  /** A value of a lease that can come again after a crash makes the sequence repeat. */
  lemma ReachedAgain(info: Info, v: int, m: nat, x: int)
    requires Sound(info) && Bottom(info) <= Fwd(info, info.start) <= v && m < info.cache
    requires x == v + m * Size(info) <= Top(info) && Ahead(info, v + Leap(info), x)
    ensures Repeats(info)
  {
    var i: nat, j: nat :| FurtherBy(info, v + Leap(info), x, i, j);
    var s, l := Size(info), Leap(info);
    OneMore(j, l);
    Nonnegative(j, l);
    assert m * s == i * s + (j + 1) * l;
    LessTimes(i, m, s);
    var a := m - i;
    assert a * s == m * s - i * s;
    Nonnegative(i, s);
    MultipleModulo(a * s, j + 1, l);
    Nonnegative(m, s);
    assert RepeatsAt(info, a);
  }

  lemma LessTimes(i: nat, m: nat, s: int)
    requires s > 0 && i * s < m * s
    ensures i < m
  {
    var d := i - m;
    assert d * s == i * s - m * s;
    if d >= 0 {
      Nonnegative(d, s);
    }
  }

  lemma MultipleModulo(x: int, q: nat, u: int)
    requires u > 0 && x == q * u
    ensures x % u == 0
  {
    QuotientUnique(x, u, q, 0);
  }

  /** Nothing handed out so far is ahead of a number to resume from. */
  ghost predicate Clear(info: Info, y: Int64, emitted: seq<int>) {
    || Exhausted(info, y)
    || (&& Fwd(info, info.start) <= Fwd(info, y) + Size(info)
        && Fwd(info, y) <= Top(info)
        && NoneAhead(info, Fwd(info, y) + Size(info), emitted))
  }

  ghost predicate NoneAhead(info: Info, base: int, emitted: seq<int>) {
    forall k :: 0 <= k < |emitted| ==> !Ahead(info, base, Fwd(info, emitted[k]))
  }

  /** The lease that is running began at v, in the direction of the sequence. */
  predicate BeganAt(info: Info, st: State, v: int)
    requires st.current.Some? && st.lease.Some?
  {
    && Fwd(info, info.start) <= v && st.cached >= 1
    && Fwd(info, st.current.value) == v + (st.cached - 1) * Size(info)
    && (|| Exhausted(info, st.lease.value)
        || Fwd(info, st.lease.value) == Top(info)
        || Fwd(info, st.lease.value) == v + info.cache - 1)
  }

  /** Nothing handed out can come again, from memory or from the stored lease. */
  ghost predicate Fresh(info: Info, st: State, emitted: seq<int>) {
    if st.current.None? then st == CREATED && emitted == []
    else
      && st.lease.Some? && st.cached <= info.cache
      && Bottom(info) <= Fwd(info, info.start)
      && Clear(info, st.current.value, emitted) && Clear(info, st.lease.value, emitted)
      && (st.cached < info.cache ==> exists v :: BeganAt(info, st, v))
  }

  lemma NoneAheadStep(info: Info, base: int, further: int, emitted: seq<int>, x: int)
    requires info.step != 0 && info.cache >= 1
    requires NoneAhead(info, base, emitted) && (further == base + Size(info) || further == base + Leap(info))
    requires Fwd(info, x) < further
    ensures NoneAhead(info, further, emitted + [x])
  {
    forall k | 0 <= k < |emitted + [x]| ensures !Ahead(info, further, Fwd(info, (emitted + [x])[k])) {
      if k < |emitted| {
        AheadAfter(info, base, Fwd(info, emitted[k]));
      } else {
        AheadAfter(info, further, Fwd(info, x));
      }
    }
  }

  lemma NoneAheadMore(info: Info, base: int, emitted: seq<int>, x: int)
    requires NoneAhead(info, base, emitted) && !Ahead(info, base, Fwd(info, x))
    ensures NoneAhead(info, base, emitted + [x])
  {
    forall k | 0 <= k < |emitted + [x]| ensures !Ahead(info, base, Fwd(info, (emitted + [x])[k])) {
      assert k < |emitted| ==> (emitted + [x])[k] == emitted[k];
    }
  }

  /** A value handed out under a lease that is running is not ahead of that lease. */
  lemma LeaseStaysClear(info: Info, st: State, v: int, emitted: seq<int>, x: Int64)
    requires Sound(info) && !Repeats(info) && Bottom(info) <= Fwd(info, info.start)
    requires st.current.Some? && st.lease.Some? && BeganAt(info, st, v) && st.cached < info.cache
    requires Clear(info, st.lease.value, emitted)
    requires Fwd(info, x) == Fwd(info, st.current.value) + Size(info) <= Top(info)
    ensures Clear(info, st.lease.value, emitted + [x])
  {
    var base := Fwd(info, st.lease.value) + Size(info);
    if !Exhausted(info, st.lease.value) {
      if Ahead(info, base, Fwd(info, x)) {
        AheadAfter(info, base, Fwd(info, x));
        OneMore(st.cached - 1, Size(info));
        ReachedAgain(info, v, st.cached, Fwd(info, x));
      }
      NoneAheadMore(info, base, emitted, x);
    }
  }

  /** The current value after a value is handed out. */
  lemma CurrentStaysClear(info: Info, c: Int64, emitted: seq<int>, x: Int64)
    requires Sound(info) && Clear(info, c, emitted) && !Exhausted(info, c)
    requires Fwd(info, x) == Fwd(info, c) + Size(info) <= Top(info)
    ensures Clear(info, x, emitted + [x])
  {
    NoneAheadStep(info, Fwd(info, x), Fwd(info, x) + Size(info), emitted, x);
  }

  /** A lease stored for x. */
  lemma NewLeaseIs(info: Info, x: Int64)
    requires Sound(info) && Bottom(info) <= Fwd(info, x) <= Top(info)
    ensures var lease := NewLease(info, x);
            || Exhausted(info, lease)
            || Fwd(info, lease) == Top(info)
            || (Fwd(info, lease) == Fwd(info, x) + info.cache - 1 && Fwd(info, lease) <= Top(info))
  {
  }

  lemma NewLeaseClear(info: Info, emitted: seq<int>, x: Int64)
    requires Sound(info) && Bottom(info) <= Fwd(info, info.start) <= Fwd(info, x) <= Top(info)
    requires NoneAhead(info, Fwd(info, x), emitted)
    requires forall k :: 0 <= k < |emitted| ==> Fwd(info, emitted[k]) <= Top(info)
    ensures Clear(info, NewLease(info, x), emitted + [x])
  {
    var lease := NewLease(info, x);
    NewLeaseIs(info, x);
    var base := Fwd(info, lease) + Size(info);
    if !Exhausted(info, lease) {
      if Fwd(info, lease) == Top(info) {
        forall k | 0 <= k < |emitted + [x]| ensures !Ahead(info, base, Fwd(info, (emitted + [x])[k])) {
          AheadAfter(info, base, Fwd(info, (emitted + [x])[k]));
        }
      } else {
        NoneAheadStep(info, Fwd(info, x), base, emitted, x);
      }
    }
  }

  ghost predicate BelowTop(info: Info, emitted: seq<int>) {
    forall k :: 0 <= k < |emitted| ==> Fwd(info, emitted[k]) <= Top(info)
  }

  ghost predicate Distinct(info: Info, st: State, emitted: seq<int>) {
    Once(emitted) && BelowTop(info, emitted) && Fresh(info, st, emitted)
  }

  lemma FirstTakeFresh(info: Info)
    requires Sound(info) && Next(info, CREATED).1.Some?
    ensures var (st, out) := Next(info, CREATED); Distinct(info, st, [out.value])
  {
    var x := Next(info, CREATED).1.value;
    NewLeaseClear(info, [], x);
    assert [] + [x] == [x];
    NoneAheadStep(info, Fwd(info, x), Fwd(info, x) + Size(info), [], x);
    assert BeganAt(info, Next(info, CREATED).0, Fwd(info, x));
  }

  /** The next value of a sequence that has begun: one step on, and new. */
  lemma NextIsNew(info: Info, st: State, emitted: seq<int>)
    requires Sound(info) && Distinct(info, st, emitted) && st.current.Some? && Next(info, st).1.Some?
    ensures var x := Next(info, st).1.value;
            && !Exhausted(info, st.current.value) && x == st.current.value + info.step
            && Fwd(info, info.start) <= Fwd(info, x) <= Top(info)
            && Once(emitted + [x]) && BelowTop(info, emitted + [x])
  {
    CandidateIsNextOrOut(info, st.current.value);
    var x := Next(info, st).1.value;
    assert Ahead(info, Fwd(info, x), Fwd(info, x)) by {
      assert FurtherBy(info, Fwd(info, x), Fwd(info, x), 0, 0);
    }
    assert x !in emitted;
  }

  /** A value taken under the running lease. */
  lemma StaysFreshUnderLease(info: Info, st: State, v: int, emitted: seq<int>)
    requires Sound(info) && !Repeats(info)
    requires Distinct(info, st, emitted) && st.current.Some? && Next(info, st).1.Some?
    requires st.cached < info.cache && BeganAt(info, st, v)
    ensures var (st', out) := Next(info, st); Distinct(info, st', emitted + [out.value])
  {
    NextIsNew(info, st, emitted);
    var (st', out) := Next(info, st);
    CurrentStaysClear(info, st.current.value, emitted, out.value);
    LeaseStaysClear(info, st, v, emitted, out.value);
    OneMore(st.cached - 1, Size(info));
    assert BeganAt(info, st', v);
  }

  /** A value for which a new lease is stored. */
  lemma StaysFreshUnderNewLease(info: Info, st: State, emitted: seq<int>)
    requires Sound(info)
    requires Distinct(info, st, emitted) && st.current.Some? && Next(info, st).1.Some?
    requires st.cached == info.cache
    ensures var (st', out) := Next(info, st); Distinct(info, st', emitted + [out.value])
  {
    NextIsNew(info, st, emitted);
    var (st', out) := Next(info, st);
    CurrentStaysClear(info, st.current.value, emitted, out.value);
    NewLeaseClear(info, emitted, out.value);
    NewLeaseIs(info, out.value);
    assert BeganAt(info, st', Fwd(info, out.value));
  }

  lemma TakeStaysFresh(info: Info, st: State, emitted: seq<int>)
    requires Sound(info) && !Repeats(info)
    requires Distinct(info, st, emitted) && st.current.Some? && Next(info, st).1.Some?
    ensures var (st', out) := Next(info, st); Distinct(info, st', emitted + [out.value])
  {
    if st.cached < info.cache {
      var v :| BeganAt(info, st, v);
      StaysFreshUnderLease(info, st, v, emitted);
    } else {
      StaysFreshUnderNewLease(info, st, emitted);
    }
  }

  /** In a sequence that does not repeat, nothing is handed out twice: over every
      interleaving of Next, crash with reload, and Release, even where values go back. */
  lemma {:induction false} HandedOutOnce(info: Info, h: History)
    requires Sound(info) && !Repeats(info)
    ensures Distinct(info, Now(info, h), Emitted(info, h))
  {
    match h
    case Created =>
    case After(before, e) =>
      HandedOutOnce(info, before);
      var st, emitted := Now(info, before), Emitted(info, before);
      assert emitted + [] == emitted;
      if e == Take && Next(info, st).1.Some? {
        if st.current.None? {
          FirstTakeFresh(info);
          assert [] + [Next(info, st).1.value] == [Next(info, st).1.value];
        } else {
          TakeStaysFresh(info, st, emitted);
        }
      }
  }

  /** The start and j leaps. */
  function Leapt(info: Info, j: nat): int {
    if j == 0 then info.start else Leapt(info, j - 1) + if info.step > 0 then Leap(info) else 0 - Leap(info)
  }

  lemma {:induction false} LeaptIs(info: Info, j: nat)
    ensures Fwd(info, Leapt(info, j)) == Fwd(info, info.start) + j * Leap(info)
  {
    if j > 0 {
      LeaptIs(info, j - 1);
      OneMore(j - 1, Leap(info));
    }
  }

  lemma {:induction false} ReachIs(info: Info, n: nat)
    ensures Reach(info, n) == n * Size(info)
  {
    if n > 0 {
      ReachIs(info, n - 1);
      OneMore(n - 1, Size(info));
    }
  }

  /** A crash and a value taken, j times. */
  function CrashTakes(h: History, j: nat): History {
    if j == 0 then h else After(After(CrashTakes(h, j - 1), Crash), Take)
  }

  /** The value after the lease that began at v: a leap further, if there is room for that. */
  lemma ResumedAfter(info: Info, v: Int64, next: Int64)
    requires Sound(info) && Bottom(info) <= Fwd(info, v)
    requires Fwd(info, next) == Fwd(info, v) + Leap(info) <= Top(info)
    ensures Next(info, Reload(info, Some(NewLease(info, v)))) ==
            (State(Some(next), 1, Some(NewLease(info, next))), Some(next))
  {
    assert Fwd(info, NewLease(info, v)) == Fwd(info, v) + info.cache - 1;
    assert Candidate(info, Reload(info, Some(NewLease(info, v)))) == next;
  }

  /** One crash and one value. */
  lemma CrashTake(info: Info, h: History, v: Int64, next: Int64)
    requires Sound(info) && Bottom(info) <= Fwd(info, v)
    requires Fwd(info, next) == Fwd(info, v) + Leap(info) <= Top(info)
    requires Now(info, h).lease == Some(NewLease(info, v))
    ensures var h' := After(After(h, Crash), Take);
            Now(info, h').lease == Some(NewLease(info, next)) && Emitted(info, h') == Emitted(info, h) + [next]
  {
    ResumedAfter(info, v, next);
    assert Emitted(info, After(h, Crash)) == Emitted(info, h);
  }

  lemma LeaptBetween(info: Info, j: nat)
    requires Sound(info) && j >= 1
    ensures Fwd(info, info.start) <= Fwd(info, Leapt(info, j - 1))
    ensures Fwd(info, Leapt(info, j)) == Fwd(info, Leapt(info, j - 1)) + Leap(info)
  {
    LeaptIs(info, j - 1);
    Nonnegative(j - 1, Leap(info));
  }

  /** What j crashes and takes add, from a state whose lease is the first one. */
  ghost predicate Added(info: Info, h: History, j: nat) {
    var emitted, all := Emitted(info, h), Emitted(info, CrashTakes(h, j));
    && Fits(Leapt(info, j)) && Now(info, CrashTakes(h, j)).lease == Some(NewLease(info, Leapt(info, j)))
    && emitted <= all
    && (j > 0 ==> |emitted| < |all| && all[|all| - 1] == Leapt(info, j))
  }

  lemma {:induction false} CrashTakesFrom(info: Info, h: History, j: nat)
    requires Sound(info) && Bottom(info) <= Fwd(info, info.start) && Fwd(info, Leapt(info, j)) <= Top(info)
    requires Now(info, h).lease == Some(NewLease(info, info.start))
    ensures Added(info, h, j)
  {
    if j > 0 {
      LeaptBetween(info, j);
      CrashTakesFrom(info, h, j - 1);
      CrashTake(info, CrashTakes(h, j - 1), Leapt(info, j - 1), Leapt(info, j));
    }
  }

  lemma NotOnce(first: seq<int>, all: seq<int>)
    requires first != [] && first <= all && |first| < |all| && first[|first| - 1] == all[|all| - 1]
    ensures !Once(all)
  {
    assert all[|first| - 1] == first[|first| - 1];
  }

  lemma ComesAgain(info: Info, h: History, b: nat)
    requires Sound(info) && Bottom(info) <= Fwd(info, info.start) && Fwd(info, Leapt(info, b)) <= Top(info) && b >= 1
    requires Now(info, h).lease == Some(NewLease(info, info.start))
    requires Emitted(info, h) != [] && Emitted(info, h)[|Emitted(info, h)| - 1] == Leapt(info, b)
    ensures !Once(Emitted(info, CrashTakes(h, b)))
  {
    CrashTakesFrom(info, h, b);
    AddedTwice(info, h, b);
  }

  lemma AddedTwice(info: Info, h: History, b: nat)
    requires b >= 1 && Added(info, h, b)
    requires Emitted(info, h) != [] && Emitted(info, h)[|Emitted(info, h)| - 1] == Leapt(info, b)
    ensures !Once(Emitted(info, CrashTakes(h, b)))
  {
    NotOnce(Emitted(info, h), Emitted(info, CrashTakes(h, b)));
  }

  /** A value of the first lease that is b leaps from the start comes again after b crashes. */
  lemma HandedOutTwice(info: Info, a: nat, b: nat)
    requires Sound(info) && info.min <= info.start <= info.max && 1 <= a < info.cache && b >= 1
    requires info.min <= Nth(info, a) <= info.max && Nth(info, a) == Leapt(info, b)
    ensures !Once(Emitted(info, CrashTakes(Takes(a + 1), b)))
  {
    FirstLeaseTaken(info, a + 1);
    ComesAgain(info, Takes(a + 1), b);
  }

  lemma Quotient(x: int, u: int)
    requires x > 0 && u > 0 && x % u == 0
    ensures x / u >= 1 && x / u * u == x
  {
  }

  /** The value that repeats, as a number of steps and as a number of leaps. */
  lemma RepeatedValue(info: Info, a: nat) returns (b: nat)
    requires Sound(info) && info.min <= info.start <= info.max && 1 <= a < info.cache && RepeatsAt(info, a)
    ensures b >= 1 && Nth(info, a) == Leapt(info, b) && info.min <= Nth(info, a) <= info.max
  {
    var far := a * Size(info);
    OneMore(a - 1, Size(info));
    Nonnegative(a - 1, Size(info));
    Quotient(far, Leap(info));
    b := far / Leap(info);
    NthReach(info, a);
    ReachIs(info, a);
    LeaptIs(info, b);
  }

  /** A sequence hands some value out twice, in some run, exactly when a value of its first
      lease, within the bounds, is a whole number of leaps from the start. */
  lemma RepeatsIff(info: Info)
    requires Sound(info)
    ensures (exists h :: !Once(Emitted(info, h))) <==> Repeats(info)
  {
    if Repeats(info) {
      var a: nat :| 1 <= a < info.cache && RepeatsAt(info, a);
      var b := RepeatedValue(info, a);
      HandedOutTwice(info, a, b);
    } else {
      forall h ensures Once(Emitted(info, h)) {
        HandedOutOnce(info, h);
      }
    }
  }

  lemma ThreeByThree(info: Info)
    requires info == Info(3, 1, 100, 1, 3, false)
    ensures Sound(info) && Overtaken(info) && !Repeats(info)
  {
    assert Reach(info, 1) == 3;
    assert Overtakes(info, 2);
    assert !RepeatsAt(info, 1) && !RepeatsAt(info, 2);
  }

  /** Going back is not repeating: this sequence hands out 1, 4, 7 and, after a crash, 6,
      and yet none of its values comes twice in any run. */
  lemma BackWithoutRepeating(info: Info)
    requires info == Info(3, 1, 100, 1, 3, false)
    ensures exists h :: !Monotone(info, Emitted(info, h))
    ensures forall h :: Once(Emitted(info, h))
  {
    ThreeByThree(info);
    SafeIff(info);
    RepeatsIff(info);
  }

  // --------------------------------------------------------------- releasing

  lemma {:induction false} NothingYet(info: Info, h: History)
    ensures Now(info, h).current.None? ==> Now(info, h).lease.None?
  {
    match h
    case Created =>
    case After(before, e) => NothingYet(info, before);
  }

  /** After Release a crash loses nothing: the next value is the one that would have come,
      in any sequence and after any run. */
  lemma ReleaseLosesNothing(info: Info, h: History)
    ensures Emitted(info, After(After(After(h, GiveBack), Crash), Take)) == Emitted(info, After(h, Take))
  {
    NothingYet(info, h);
    var st, given := Now(info, h), After(h, GiveBack);
    var crashed := After(given, Crash);
    assert Now(info, crashed) == Reload(info, Release(info, st).lease);
    assert Candidate(info, Now(info, crashed)) == Candidate(info, st);
    assert Emitted(info, given) == Emitted(info, h) && Emitted(info, crashed) == Emitted(info, given);
  }

  // ----------------------------------------------------------------- cycling

  /** Whatever wraps, crashes or is given back, every value is within the bounds, and a
      cycling sequence always has a next one. */
  lemma {:induction false} AlwaysInBounds(info: Info, h: History)
    requires info.min <= info.max
    ensures InBounds(info, Emitted(info, h))
    ensures info.cycle ==> Next(info, Now(info, h)).1.Some?
  {
    match h
    case Created =>
    case After(before, e) =>
      AlwaysInBounds(info, before);
      var more := Step(info, Now(info, before), e).1;
      assert forall i :: 0 <= i < |more| ==> info.min <= more[i] <= info.max;
  }

  /** One step further or, past the last bound, the first one again. */
  function Around(info: Info, c: int): int {
    if info.min <= c + info.step <= info.max then c + info.step
    else if info.step > 0 then info.min else info.max
  }

  /** A cycling sequence goes around exactly where the step stays within int64, or the
      wrapped number happens to be that bound, or there is one number only. */
  lemma CyclesIff(info: Info, st: State)
    requires info.cycle && info.step != 0 && st.current.Some? && info.min <= st.current.value <= info.max
    ensures var next := st.current.value + info.step;
            Next(info, st).1 == Some(Around(info, st.current.value)) <==>
            Fits(next) || info.min == info.max || WrapSum(next) == (if info.step > 0 then info.min else info.max)
  {
  }

  /** With the largest int64 as its bound, which is the default, a cycling sequence never
      comes around: it hands out that bound for ever. */
  lemma {:induction false} StuckAtTheTop(info: Info, st: State, n: nat)
    requires info.cycle && info.step > 0 && info.max == 0x7FFF_FFFF_FFFF_FFFF && info.min >= MIN_INT64 + info.step
    requires st.current == Some(info.max)
    ensures Next(info, AfterTakes(info, st, n)).1 == Some(info.max)
  {
    AfterTakesAtTop(info, st, n);
  }

  function AfterTakes(info: Info, st: State, n: nat): State {
    if n == 0 then st else Next(info, AfterTakes(info, st, n - 1)).0
  }

  lemma {:induction false} AfterTakesAtTop(info: Info, st: State, n: nat)
    requires info.cycle && info.step > 0 && info.max == 0x7FFF_FFFF_FFFF_FFFF && info.min >= MIN_INT64 + info.step
    requires st.current == Some(info.max)
    ensures AfterTakes(info, st, n).current == Some(info.max)
  {
    if n > 0 { AfterTakesAtTop(info, st, n - 1); }
  }
}
