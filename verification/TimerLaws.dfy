/** What the timer queue guarantees, whatever the callbacks do. */
module TimerLaws {
  import opened TimerQueue
  import Division

  // ---- an event leaves nothing due, and fires in order ------------------------------------------------------------

  /** Every queued timer is due at `d` or later. */
  predicate NotBefore(q: TQ, d: nat)
    requires Known(q.timers, q.queue)
  {
    forall x | x in q.queue :: q.timers[x].deadline >= d
  }

  lemma StartNotBefore(q: TQ, busy: nat, id: nat, itv: nat, irt: nat, now: nat, d: nat)
    requires Valid(q, {busy}) && NotBefore(q, d) && q.timers[busy].deadline >= d && d <= now && id in q.timers
    ensures var r := StartTimer(q, id, itv, irt, now);
      Valid(r, {busy}) && NotBefore(r, d) && r.timers[busy].deadline >= d
  {
    StartKeeps(q, {busy}, id, itv, irt, now);
    UnlinkMembers(q.timers, q.queue, id);
  }

  lemma StopNotBefore(q: TQ, busy: nat, id: nat, d: nat)
    requires Valid(q, {busy}) && NotBefore(q, d) && q.timers[busy].deadline >= d && id in q.timers
    ensures var r := StopTimer(q, id); Valid(r, {busy}) && NotBefore(r, d) && r.timers[busy].deadline >= d
  {
    StopKeeps(q, {busy}, id);
    UnlinkMembers(q.timers, q.queue, id);
  }

  lemma DeleteNotBefore(q: TQ, busy: nat, id: nat, d: nat)
    requires Valid(q, {busy}) && NotBefore(q, d) && q.timers[busy].deadline >= d && id in q.timers
    ensures var r := DeleteTimer(q, id); Valid(r, {busy}) && NotBefore(r, d) && r.timers[busy].deadline >= d
  {
    DeleteKeeps(q, {busy}, id);
    UnlinkMembers(q.timers, q.queue, id);
  }

  lemma ApplyNotBefore(q: TQ, busy: nat, c: Call, d: nat, curr: nat)
    requires Valid(q, {busy}) && NotBefore(q, d) && q.timers[busy].deadline >= d && d <= curr
    ensures var r := Apply(q, c, curr);
      Valid(r, {busy}) && NotBefore(r, d) && r.timers[busy].deadline >= d
  {
    var r := Apply(q, c, curr);
    if c.tid in q.timers {
      if c.Start? {
        StartNotBefore(q, busy, c.tid, c.itv, c.irt, curr + c.late, d);
        assert r == StartTimer(q, c.tid, c.itv, c.irt, curr + c.late);
      } else if c.Stop? {
        StopNotBefore(q, busy, c.tid, d);
        assert r == StopTimer(q, c.tid);
      } else {
        DeleteNotBefore(q, busy, c.tid, d);
        assert r == DeleteTimer(q, c.tid);
      }
    }
  }

  lemma {:induction false} ApplyAllNotBefore(q: TQ, busy: nat, cs: seq<Call>, d: nat, curr: nat)
    requires Valid(q, {busy}) && NotBefore(q, d) && q.timers[busy].deadline >= d && d <= curr
    ensures var r := ApplyAll(q, {busy}, cs, curr);
      NotBefore(r, d) && r.timers[busy].deadline >= d
    decreases |cs|
  {
    if cs != [] {
      ApplyNotBefore(q, busy, cs[0], d, curr);
      ApplyAllNotBefore(Apply(q, cs[0], curr), busy, cs[1..], d, curr);
    }
  }

  lemma HeadFirst(q: TQ)
    requires Valid(q, {}) && q.queue != []
    ensures NotBefore(q, q.timers[q.queue[0]].deadline)
  {
    forall x | x in q.queue
      ensures q.timers[x].deadline >= q.timers[q.queue[0]].deadline
    {
      var i :| 0 <= i < |q.queue| && q.queue[i] == x;
      assert i > 0 ==> Before(q.timers, q.queue[0], q.queue[i]);
    }
  }

  lemma FireNotBefore(q: TQ, cs: seq<Call>, curr: nat)
    requires Valid(q, {}) && q.queue != [] && q.timers[q.queue[0]].deadline <= curr
    ensures NotBefore(Fire(q, cs, curr), q.timers[q.queue[0]].deadline)
  {
    HeadFirst(q);
    var id, d := q.queue[0], q.timers[q.queue[0]].deadline;
    ApplyAllNotBefore(Begin(q), id, cs, d, curr);
    SettleNotBefore(ApplyAll(Begin(q), {id}, cs, curr), id, d);
  }

  lemma SettleNotBefore(q: TQ, id: nat, d: nat)
    requires Valid(q, {id}) && NotBefore(q, d) && q.timers[id].deadline >= d
    ensures NotBefore(Settle(q, id), d)
  {
    if !Resting(q.timers[id]) {
      SettleRequeues(q, id);
      InsertMembers(q.(timers := q.timers[id := Renewed(q.timers[id])]), id);
    }
  }

  predicate Ordered(fired: seq<Firing>, from: nat, to: nat) {
    && (forall i | 0 <= i < |fired| :: from <= fired[i].deadline <= to)
    && (forall i, j | 0 <= i < j < |fired| :: fired[i].deadline <= fired[j].deadline)
  }

  lemma OrderedCons(f: Firing, rest: seq<Firing>, from: nat, to: nat)
    requires from <= f.deadline <= to && Ordered(rest, f.deadline, to)
    ensures Ordered([f] + rest, from, to)
  {
  }

  /** After an event every queued timer is due later, the alarm is set for the first of them (or is 0), and the
      timers fired were all due and fired in deadline order. */
  lemma {:induction false} EventLeavesNothingDue<E(!new)>(q: TQ, env: E, curr: nat, from: nat,
                                                          cb: (E, nat) -> (E, seq<Call>))
    requires Valid(q, {}) && NotBefore(q, from) && forall e: E, id: nat :: Positive(cb(e, id).1)
    ensures var (r, _, fired) := Drain(q, env, curr, cb);
      && Valid(r, {}) && NotBefore(r, curr + 1)
      && (if r.queue == [] then r.alarm == 0 else r.alarm == r.timers[r.queue[0]].deadline)
      && Ordered(fired, from, curr)
    decreases Work(q.timers, q.queue, curr)
  {
    if q.queue != [] {
      HeadFirst(q);
      var id := q.queue[0];
      var d := q.timers[id].deadline;
      if d <= curr {
        var (e, cs) := cb(env, id);
        FireNotBefore(q, cs, curr);
        FireWork(q, cs, curr);
        EventLeavesNothingDue(Fire(q, cs, curr), e, curr, d, cb);
        OrderedCons(Firing(id, d), Drain(Fire(q, cs, curr), e, curr, cb).2, from, curr);
      }
    }
  }

  /** `inv` holds after one more turn of the loop. */
  ghost predicate TurnKeeps<E(!new)>(cb: (E, nat) -> (E, seq<Call>), curr: nat,
                                     inv: (TQ, E, seq<Firing>) -> bool, q: TQ, e: E, fired: seq<Firing>) {
    && Valid(q, {}) && q.queue != [] && q.timers[q.queue[0]].deadline <= curr && inv(q, e, fired)
    ==>
    var id := q.queue[0];
    inv(Fire(q, cb(e, id).1, curr), cb(e, id).0, fired + [Firing(id, q.timers[id].deadline)])
  }

  /** What every turn of the loop keeps, and the alarm does not matter to, an event keeps. */
  lemma {:induction false} EventKeeps<E(!new)>(q: TQ, env: E, curr: nat, cb: (E, nat) -> (E, seq<Call>),
                                               fired: seq<Firing>, inv: (TQ, E, seq<Firing>) -> bool)
    requires Valid(q, {}) && forall e: E, id: nat :: Positive(cb(e, id).1)
    requires inv(q, env, fired)
    requires forall q: TQ, e: E, f: seq<Firing> :: TurnKeeps(cb, curr, inv, q, e, f)
    requires forall q: TQ, e: E, f: seq<Firing>, a: nat :: inv(q, e, f) ==> inv(q.(alarm := a), e, f)
    ensures var (q', env', more) := Drain(q, env, curr, cb); inv(q', env', fired + more)
    decreases Work(q.timers, q.queue, curr)
  {
    if q.queue == [] || q.timers[q.queue[0]].deadline > curr {
      assert fired + [] == fired;
    } else {
      var id := q.queue[0];
      var f, step := Firing(id, q.timers[id].deadline), cb(env, id);
      FireWork(q, step.1, curr);
      assert TurnKeeps(cb, curr, inv, q, env, fired);
      EventKeeps(Fire(q, step.1, curr), step.0, curr, cb, fired + [f], inv);
      var rest := Drain(Fire(q, step.1, curr), step.0, curr, cb).2;
      assert fired + [f] + rest == fired + ([f] + rest);
    }
  }

  // ---- what a callback does to its own timer ----------------------------------------------------------------------

  predicate Deletes(cs: seq<Call>, id: nat) {
    Call.Delete(id) in cs
  }

  predicate Stops(cs: seq<Call>, id: nat) {
    Call.Stop(id) in cs
  }

  predicate Starts(cs: seq<Call>, id: nat) {
    exists c | c in cs :: c.Start? && c.tid == id
  }

  /** The intervals of all starts of `id`, added up. */
  function Advance(cs: seq<Call>, id: nat): nat {
    if cs == [] then 0 else (if cs[0].Start? && cs[0].tid == id then cs[0].itv else 0) + Advance(cs[1..], id)
  }

  /** The repeat interval the last start of `id` sets. */
  function LastRepeat(cs: seq<Call>, id: nat, irt: nat): nat {
    if cs == [] then irt
    else LastRepeat(cs[1..], id, if cs[0].Start? && cs[0].tid == id then cs[0].irt else irt)
  }

  lemma CallMarks(q: TQ, id: nat, c: Call, curr: nat)
    requires Valid(q, {id})
    ensures var r := Apply(q, c, curr);
      Valid(r, {id}) &&
      var t, t' := q.timers[id], r.timers[id];
      && (t'.deleted <==> t.deleted || c == Call.Delete(id))
      && (t'.stopped <==> t.stopped || c == Call.Stop(id))
      && (t'.restart <==> t.restart || (c.Start? && c.tid == id))
      && t'.deadline == t.deadline + (if c.Start? && c.tid == id then c.itv else 0)
      && t'.repeat == if c.Start? && c.tid == id then c.irt else t.repeat
  {
    ApplyKeeps(q, {id}, c, curr);
  }

  /** The calls of a callback leave their marks on its timer; no other timer's calls touch it. */
  lemma {:induction false} CallsMark(q: TQ, id: nat, cs: seq<Call>, curr: nat)
    requires Valid(q, {id})
    ensures var t, t' := q.timers[id], ApplyAll(q, {id}, cs, curr).timers[id];
      && (t'.deleted <==> t.deleted || Deletes(cs, id))
      && (t'.stopped <==> t.stopped || Stops(cs, id))
      && (t'.restart <==> t.restart || Starts(cs, id))
      && t'.deadline == t.deadline + Advance(cs, id)
      && t'.repeat == LastRepeat(cs, id, t.repeat)
    decreases |cs|
  {
    if cs != [] {
      CallMarks(q, id, cs[0], curr);
      CallsMark(Apply(q, cs[0], curr), id, cs[1..], curr);
      MarksCons(cs, id);
    }
  }

  lemma MarksCons(cs: seq<Call>, id: nat)
    requires cs != []
    ensures Deletes(cs, id) <==> cs[0] == Call.Delete(id) || Deletes(cs[1..], id)
    ensures Stops(cs, id) <==> cs[0] == Call.Stop(id) || Stops(cs[1..], id)
    ensures Starts(cs, id) <==> (cs[0].Start? && cs[0].tid == id) || Starts(cs[1..], id)
  {
    assert cs == [cs[0]] + cs[1..];
  }

  /** The outcome of a callback, for any mix of calls on any timers in any order: deleted if it deleted itself, else
      idle if it stopped itself (even if it started itself later), else queued at its old deadline plus the
      intervals it asked for, else queued one repeat later, else idle. */
  lemma CallbackOutcome(q: TQ, cs: seq<Call>, curr: nat)
    requires Valid(q, {}) && q.queue != []
    ensures var id := q.queue[0];
      var t, r := q.timers[id], Fire(q, cs, curr);
      if Deletes(cs, id) then id !in r.timers && id !in r.queue
      else if Stops(cs, id) then id in r.timers && Clear(r.timers[id]) && id !in r.queue
      else if Starts(cs, id) then
        && id in r.queue && r.timers[id].deadline == t.deadline + Advance(cs, id)
        && r.timers[id].repeat == LastRepeat(cs, id, t.repeat)
      else if t.repeat != 0 then
        id in r.queue && r.timers[id].deadline == t.deadline + t.repeat && r.timers[id].repeat == t.repeat
      else id in r.timers && Clear(r.timers[id]) && id !in r.queue
  {
    var id := q.queue[0];
    CallsMark(Begin(q), id, cs, curr);
    if !Starts(cs, id) {
      NoStart(cs, id, q.timers[id].repeat);
    }
  }

  lemma {:induction false} NoStart(cs: seq<Call>, id: nat, irt: nat)
    requires !Starts(cs, id)
    ensures Advance(cs, id) == 0 && LastRepeat(cs, id, irt) == irt
  {
    if cs != [] {
      assert cs[0] in cs;
      assert forall c | c in cs[1..] :: c in cs;
      NoStart(cs[1..], id, irt);
    }
  }

  // ---- periodic timers --------------------------------------------------------------------------------------------

  predicate Silent(cs: seq<Call>, id: nat) {
    forall c | c in cs :: c.tid != id
  }

  /** A queued timer nobody calls about stays queued as it is. */
  predicate Waits(q: TQ, id: nat, d: nat, r: nat) {
    id in q.queue && id in q.timers && q.timers[id].deadline == d && q.timers[id].repeat == r
  }

  /** A call leaves every other timer as it is. */
  lemma ApplyWaits(q: TQ, busy: set<nat>, c: Call, curr: nat, id: nat, d: nat, r: nat)
    requires Valid(q, busy) && Waits(q, id, d, r) && c.tid != id
    ensures Waits(Apply(q, c, curr), id, d, r)
  {
    if c.tid in q.timers {
      UnlinkKeeps(q.timers, q.queue, c.tid);
    }
  }

  lemma {:induction false} ApplyAllWaits(q: TQ, busy: nat, cs: seq<Call>, curr: nat, id: nat, d: nat, r: nat)
    requires Valid(q, {busy}) && Waits(q, id, d, r) && Silent(cs, id)
    ensures Waits(ApplyAll(q, {busy}, cs, curr), id, d, r)
    decreases |cs|
  {
    if cs != [] {
      assert cs[0] in cs;
      ApplyKeeps(q, {busy}, cs[0], curr);
      ApplyWaits(q, {busy}, cs[0], curr, id, d, r);
      assert forall x | x in cs[1..] :: x in cs;
      ApplyAllWaits(Apply(q, cs[0], curr), busy, cs[1..], curr, id, d, r);
    }
  }

  /** One turn of the loop for a timer no callback calls about: it repeats if it is the head, else it waits. */
  lemma FirePeriodic(q: TQ, cs: seq<Call>, curr: nat, id: nat, d: nat, r: nat)
    requires Valid(q, {}) && Waits(q, id, d, r) && Silent(cs, id) && r >= 1
    ensures Waits(Fire(q, cs, curr), id, if q.queue[0] == id then d + r else d, r)
  {
    if q.queue[0] == id {
      assert !Deletes(cs, id) && !Stops(cs, id) && !Starts(cs, id);
      CallbackOutcome(q, cs, curr);
    } else {
      var b := q.queue[0];
      ApplyAllWaits(Begin(q), b, cs, curr, id, d, r);
      SettleWaits(ApplyAll(Begin(q), {b}, cs, curr), b, id, d, r);
    }
  }

  lemma SettleWaits(q: TQ, b: nat, id: nat, d: nat, r: nat)
    requires Valid(q, {b}) && Waits(q, id, d, r) && id != b
    ensures Waits(Settle(q, b), id, d, r)
  {
  }

  function CountOf(fired: seq<Firing>, id: nat): nat {
    if fired == [] then 0 else (if fired[0].tid == id then 1 else 0) + CountOf(fired[1..], id)
  }

  /** How often a timer with deadline `d` and repeat `r` is due by `curr`. */
  function DueTimes(curr: nat, d: nat, r: nat): nat
    requires r >= 1
  {
    if d > curr then 0 else (curr - d) / r + 1
  }

  /** The `m`-th point of the grid `d`, `d + r`, `d + 2r`, ..., counting from 0. */
  function At(d: nat, r: nat, m: nat): nat {
    d + m * r
  }

  lemma DueAgain(curr: nat, d: nat, r: nat)
    requires r >= 1 && d <= curr
    ensures DueTimes(curr, d, r) == 1 + DueTimes(curr, d + r, r)
    ensures At(d, r, DueTimes(curr, d, r)) == At(d + r, r, DueTimes(curr, d + r, r))
  {
    var x := curr - d;
    if x < r {
      Division.Unique(x, r, 0, x);
    } else {
      OneMore(x, r);
    }
    Distribute(DueTimes(curr, d + r, r), r);
  }

  lemma Distribute(n: nat, r: nat)
    ensures (n + 1) * r == n * r + r
  {
  }

  lemma OneMore(x: nat, r: nat)
    requires 1 <= r <= x
    ensures x / r == (x - r) / r + 1
  {
    var k, m := (x - r) / r, (x - r) % r;
    assert x - r == k * r + m;
    Distribute(k, r);
    Division.Unique(x, r, k + 1, m);
  }

  /** Catch-up is exact and does not drift: a periodic timer that no callback calls about fires exactly
      `floor((curr - d) / r) + 1` times, and is then queued on its own grid, `d` plus a multiple of `r`. */
  lemma {:induction false} PeriodicCatchUp<E(!new)>(q: TQ, env: E, curr: nat, cb: (E, nat) -> (E, seq<Call>),
                                                    id: nat, d: nat, r: nat)
    requires Valid(q, {}) && forall e: E, x: nat :: Positive(cb(e, x).1)
    requires Waits(q, id, d, r) && r >= 1 && forall e: E, x: nat :: Silent(cb(e, x).1, id)
    ensures var (q', _, fired) := Drain(q, env, curr, cb);
      && CountOf(fired, id) == DueTimes(curr, d, r)
      && Waits(q', id, At(d, r, DueTimes(curr, d, r)), r)
    decreases Work(q.timers, q.queue, curr)
  {
    HeadFirst(q);
    var head := q.queue[0];
    if q.timers[head].deadline <= curr {
      var (e, cs) := cb(env, head);
      FirePeriodic(q, cs, curr, id, d, r);
      FireWork(q, cs, curr);
      if head == id {
        DueAgain(curr, d, r);
      }
      PeriodicCatchUp(Fire(q, cs, curr), e, curr, cb, id, if head == id then d + r else d, r);
    }
  }

  // ---- whole histories --------------------------------------------------------------------------------------------

  /** Something done to the queue from outside a callback: a node allocated, a call, or an event, whose `k`-th
      callback makes the calls `script(k)`. */
  datatype Op = Create(id: nat) | Do(call: Call, now: nat) | Event(curr: nat, script: nat -> seq<Call>)

  ghost predicate Allowed(q: TQ, op: Op) {
    match op
    case Create(id) => id !in q.timers
    case Do(_, _) => true
    case Event(_, script) => forall k: nat :: Positive(script(k))
  }

  function Scripted(script: nat -> seq<Call>): (nat, nat) -> (nat, seq<Call>) {
    (k, id) => (k + 1, script(k))
  }

  ghost function Perform(q: TQ, op: Op): (r: TQ)
    requires Valid(q, {}) && Allowed(q, op)
  {
    match op
    case Create(id) => q.(timers := q.timers[id := Timer(0, 0, false, false, false, false, 0)])
    case Do(c, now) => Apply(q, c, now)
    case Event(curr, script) => Drain(q, 0, curr, Scripted(script)).0
  }

  ghost predicate History(qs: seq<TQ>, ops: seq<Op>) {
    && |qs| == |ops| + 1 && qs[0] == TQ([], map[], 0, 0)
    && forall i | 0 <= i < |ops| ::
         Allowed(qs[i], ops[i]) && (Valid(qs[i], {}) ==> qs[i + 1] == Perform(qs[i], ops[i]))
  }

  lemma CallKeeps(q: TQ, c: Call, now: nat)
    requires Valid(q, {}) && AlarmSet(q)
    ensures var r := Apply(q, c, now); Valid(r, {}) && AlarmSet(r)
  {
    var r := Apply(q, c, now);
    if c.tid in q.timers {
      if c.Start? {
        StartKeeps(q, {}, c.tid, c.itv, c.irt, now + c.late);
        assert r == StartTimer(q, c.tid, c.itv, c.irt, now + c.late);
      } else if c.Stop? {
        StopKeeps(q, {}, c.tid);
        assert r == StopTimer(q, c.tid);
      } else {
        DeleteKeeps(q, {}, c.tid);
        assert r == DeleteTimer(q, c.tid);
      }
    }
  }

  lemma PerformKeeps(q: TQ, op: Op)
    requires Valid(q, {}) && AlarmSet(q) && Allowed(q, op)
    ensures Valid(Perform(q, op), {}) && AlarmSet(Perform(q, op))
  {
    match op
    case Create(id) =>
    case Do(c, now) => CallKeeps(q, c, now);
    case Event(curr, script) => EventLeavesNothingDue(q, 0, curr, 0, Scripted(script));
  }

  /** Over every history the queue is in deadline order, equal deadlines in insertion order, holds no freed timer,
      and the alarm is set for its head. */
  lemma {:induction false} AlwaysInOrder(qs: seq<TQ>, ops: seq<Op>, i: nat)
    requires History(qs, ops) && i < |qs|
    ensures Valid(qs[i], {}) && AlarmSet(qs[i])
  {
    if i > 0 {
      AlwaysInOrder(qs, ops, i - 1);
      PerformKeeps(qs[i - 1], ops[i - 1]);
    }
  }
}
