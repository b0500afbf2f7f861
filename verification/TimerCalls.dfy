/** What starting, stopping and deleting a timer from outside its callback achieves, up to when it fires. */
module TimerCalls {
  import opened TimerQueue
  import opened TimerLaws

  /** Every other timer that waits in `q` waits in `r` too. */
  ghost predicate OthersWait(q: TQ, r: TQ, id: nat) {
    forall x, d, p | x != id && Waits(q, x, d, p) :: Waits(r, x, d, p)
  }

  /** Started at `now`, queued or not before, a timer waits `itv` with the repeat interval asked for, with no flag set;
      the alarm is set for whichever timer is due first. */
  lemma StartWaits(q: TQ, id: nat, itv: nat, irt: nat, now: nat)
    requires Valid(q, {}) && id in q.timers
    ensures var r := StartTimer(q, id, itv, irt, now);
      && Valid(r, {}) && AlarmSet(r) && Waits(r, id, now + itv, irt) && OthersWait(q, r, id)
      && r.timers.Keys == q.timers.Keys && (forall x | x != id :: x in r.queue <==> x in q.queue)
  {
    StartKeeps(q, {}, id, itv, irt, now);
    UnlinkMembers(q.timers, q.queue, id);
    var renewed := Timer(now + itv, irt, false, false, false, false, q.timers[id].serial);
    var unlinked := q.(queue := Unlink(q.queue, id), timers := q.timers[id := renewed]);
    InsertMembers(unlinked, id);
  }

  /** Stopped, it is not queued but still there. */
  lemma StopRests(q: TQ, id: nat)
    requires Valid(q, {}) && id in q.timers
    ensures var r := StopTimer(q, id);
      && Valid(r, {}) && id !in r.queue && OthersWait(q, r, id)
      && r.timers.Keys == q.timers.Keys && (forall x | x != id :: x in r.queue <==> x in q.queue)
  {
    StopKeeps(q, {}, id);
    UnlinkKeeps(q.timers, q.queue, id);
  }

  /** Deleted, it is gone. */
  lemma DeleteFrees(q: TQ, id: nat)
    requires Valid(q, {}) && id in q.timers
    ensures var r := DeleteTimer(q, id);
      && Valid(r, {}) && id !in r.queue && OthersWait(q, r, id)
      && r.timers.Keys == q.timers.Keys - {id} && (forall x | x != id :: x in r.queue <==> x in q.queue)
  {
    DeleteKeeps(q, {}, id);
    UnlinkMembers(q.timers, q.queue, id);
  }

  // ---- from starting to firing ------------------------------------------------------------------------------------

  /** A repeating timer started at `now`, that no callback calls about, fires in the first event, at `curr`, exactly
      as often as `now + itv`, `now + itv + irt`, ... are due by then, and stays queued for the next of them. */
  lemma StartedPeriodic<E(!new)>(q: TQ, id: nat, itv: nat, irt: nat, now: nat, r: TQ,
                                 env: E, curr: nat, cb: (E, nat) -> (E, seq<Call>))
    requires Valid(q, {}) && id in q.timers && irt >= 1 && r == StartTimer(q, id, itv, irt, now)
    requires forall e: E, x: nat :: Positive(cb(e, x).1)
    requires forall e: E, x: nat :: Silent(cb(e, x).1, id)
    ensures Valid(r, {})
    ensures CountOf(Drain(r, env, curr, cb).2, id) == DueTimes(curr, now + itv, irt)
    ensures Waits(Drain(r, env, curr, cb).0, id, At(now + itv, irt, DueTimes(curr, now + itv, irt)), irt)
  {
    StartWaits(q, id, itv, irt, now);
    PeriodicCatchUp(r, env, curr, cb, id, now + itv, irt);
  }

  /** A timer that is not queued and that no callback calls about. */
  ghost predicate Rests(q: TQ, id: nat) {
    id !in q.queue && id in q.timers
  }

  lemma ApplyRests(q: TQ, busy: set<nat>, c: Call, curr: nat, id: nat)
    requires Valid(q, busy) && Rests(q, id) && c.tid != id
    ensures Rests(Apply(q, c, curr), id)
  {
    if c.tid in q.timers {
      UnlinkKeeps(q.timers, q.queue, c.tid);
    }
  }

  lemma {:induction false} ApplyAllRests(q: TQ, busy: nat, cs: seq<Call>, curr: nat, id: nat)
    requires Valid(q, {busy}) && Rests(q, id) && Silent(cs, id)
    ensures Rests(ApplyAll(q, {busy}, cs, curr), id)
    decreases |cs|
  {
    if cs != [] {
      assert cs[0] in cs;
      ApplyKeeps(q, {busy}, cs[0], curr);
      ApplyRests(q, {busy}, cs[0], curr, id);
      assert forall x | x in cs[1..] :: x in cs;
      ApplyAllRests(Apply(q, cs[0], curr), busy, cs[1..], curr, id);
    }
  }

  lemma SettleRests(q: TQ, b: nat, id: nat)
    requires Valid(q, {b}) && Rests(q, id) && b != id
    ensures Rests(Settle(q, b), id)
  {
    if !Resting(q.timers[b]) {
      SettleRequeues(q, b);
      InsertMembers(q.(timers := q.timers[b := Renewed(q.timers[b])]), b);
    }
  }

  lemma FireRests(q: TQ, cs: seq<Call>, curr: nat, id: nat)
    requires Valid(q, {}) && q.queue != [] && Rests(q, id) && Silent(cs, id)
    ensures Rests(Fire(q, cs, curr), id)
  {
    var b := q.queue[0];
    ApplyAllRests(Begin(q), b, cs, curr, id);
    SettleRests(ApplyAll(Begin(q), {b}, cs, curr), b, id);
  }

  /** It stays that way and does not fire. */
  lemma {:induction false} RestingNeverFires<E(!new)>(q: TQ, env: E, curr: nat, cb: (E, nat) -> (E, seq<Call>), id: nat)
    requires Valid(q, {}) && Rests(q, id)
    requires forall e: E, x: nat :: Positive(cb(e, x).1)
    requires forall e: E, x: nat :: Silent(cb(e, x).1, id)
    ensures var out := Drain(q, env, curr, cb); CountOf(out.2, id) == 0 && Rests(out.0, id)
    decreases Work(q.timers, q.queue, curr)
  {
    if q.queue != [] && q.timers[q.queue[0]].deadline <= curr {
      var (e, cs) := cb(env, q.queue[0]);
      FireRests(q, cs, curr, id);
      FireWork(q, cs, curr);
      RestingNeverFires(Fire(q, cs, curr), e, curr, cb, id);
    }
  }

  /** A timer without repeat that nobody calls about fires once when it is due, and then rests. */
  lemma {:induction false} OneShot<E(!new)>(q: TQ, env: E, curr: nat, cb: (E, nat) -> (E, seq<Call>), id: nat, d: nat)
    requires Valid(q, {}) && Waits(q, id, d, 0)
    requires forall e: E, x: nat :: Positive(cb(e, x).1)
    requires forall e: E, x: nat :: Silent(cb(e, x).1, id)
    ensures var out := Drain(q, env, curr, cb);
      if d <= curr then CountOf(out.2, id) == 1 && Rests(out.0, id)
      else CountOf(out.2, id) == 0 && Waits(out.0, id, d, 0)
    decreases Work(q.timers, q.queue, curr)
  {
    HeadFirst(q);
    var head := q.queue[0];
    if q.timers[head].deadline <= curr {
      var (e, cs) := cb(env, head);
      FireWork(q, cs, curr);
      if head == id {
        assert !Deletes(cs, id) && !Stops(cs, id) && !Starts(cs, id);
        CallbackOutcome(q, cs, curr);
        RestingNeverFires(Fire(q, cs, curr), e, curr, cb, id);
      } else {
        ApplyAllWaits(Begin(q), head, cs, curr, id, d, 0);
        SettleWaits(ApplyAll(Begin(q), {head}, cs, curr), head, id, d, 0);
        OneShot(Fire(q, cs, curr), e, curr, cb, id, d);
      }
    }
  }

  lemma StartedOneShot<E(!new)>(q: TQ, id: nat, itv: nat, now: nat, r: TQ,
                                env: E, curr: nat, cb: (E, nat) -> (E, seq<Call>))
    requires Valid(q, {}) && id in q.timers && r == StartTimer(q, id, itv, 0, now)
    requires forall e: E, x: nat :: Positive(cb(e, x).1)
    requires forall e: E, x: nat :: Silent(cb(e, x).1, id)
    ensures Valid(r, {})
    ensures var out := Drain(r, env, curr, cb);
      if now + itv <= curr then CountOf(out.2, id) == 1 && Rests(out.0, id)
      else CountOf(out.2, id) == 0 && Waits(out.0, id, now + itv, 0)
  {
    StartWaits(q, id, itv, 0, now);
    OneShot(r, env, curr, cb, id, now + itv);
  }

  /** A stopped timer does not fire. */
  lemma StoppedNeverFires<E(!new)>(q: TQ, id: nat, r: TQ, env: E, curr: nat, cb: (E, nat) -> (E, seq<Call>))
    requires Valid(q, {}) && id in q.timers && r == StopTimer(q, id)
    requires forall e: E, x: nat :: Positive(cb(e, x).1)
    requires forall e: E, x: nat :: Silent(cb(e, x).1, id)
    ensures Valid(r, {}) && CountOf(Drain(r, env, curr, cb).2, id) == 0
  {
    StopRests(q, id);
    RestingNeverFires(r, env, curr, cb, id);
  }
}
