/** Whole runs of the RPC client: requests sent and answered, other timers created and called, and timer events. */
module RpcClientRuns {
  import opened TimerQueue
  import opened TimerLaws
  import opened TimerCalls
  import opened RpcClient
  import opened RpcClientLaws

  /** The queue, the client, and everything fired so far. */
  datatype System = System(q: TQ, c: Client, fired: seq<Firing>)

  /** What can happen on the client's thread. `CreateOp` and `CallOp` are about timers that are not requests'. */
  datatype Op =
    | SendOp(id: nat, r: Request, now: nat)
    | AnswerOp(id: nat, done: bool)
    | CreateOp(id: nat)
    | CallOp(call: Call, now: nat)
    | TickOp(curr: nat)

  ghost const Idle: System := System(TQ([], map[], 0, 0), Client(map[], [], [], [], 0), [])

  /** One operation; `ids` are the request timers. Its result is known if the queue is in order and, for an answer,
      the request's timer is allocated. */
  ghost predicate Does(s: System, op: Op, t: System, w: World, ids: set<nat>)
    requires Sane(w)
  {
    match op
    case SendOp(id, r, now) =>
      && id in ids && id !in s.q.timers
      && (Valid(s.q, {}) ==> var (q, c) := Send(s.q, s.c, id, r, now); t == System(q, c, s.fired))
    case AnswerOp(id, done) =>
      && id in s.c.reqs
      && (Valid(s.q, {}) && id in s.q.timers ==>
            var (q, c) := Respond(s.q, s.c, id, done); t == System(q, c, s.fired))
    case CreateOp(id) =>
      && id !in ids && id !in s.q.timers
      && t == s.(q := s.q.(timers := s.q.timers[id := Timer(0, 0, false, false, false, false, 0)]))
    case CallOp(call, now) =>
      call.tid !in ids && (Valid(s.q, {}) ==> t == s.(q := Apply(s.q, call, now)))
    case TickOp(curr) =>
      Valid(s.q, {}) ==> var (q, c, more) := Tick(s.q, s.c, curr, w); t == System(q, c, s.fired + more)
  }

  ghost predicate Run(ss: seq<System>, ops: seq<Op>, w: World, ids: set<nat>)
    requires Sane(w)
  {
    && |ss| == |ops| + 1 && ss[0] == Idle
    && forall k | 0 <= k < |ops| :: Does(ss[k], ops[k], ss[k + 1], w, ids)
  }

  // ---- every listed request has a live timer ----------------------------------------------------------------------

  ghost predicate Inv(s: System, ids: set<nat>) {
    Valid(s.q, {}) && Linked(s.q, s.c) && s.c.reqs.Keys <= ids
  }

  lemma CallKeepsLinked(q: TQ, c: Client, call: Call, now: nat)
    requires Valid(q, {}) && Linked(q, c) && call.tid !in c.reqs
    ensures Valid(Apply(q, call, now), {}) && Linked(Apply(q, call, now), c)
  {
    ApplyKeeps(q, {}, call, now);
    forall id | id in c.reqs
      ensures Waits(Apply(q, call, now), id, q.timers[id].deadline, 0)
    {
      ApplyWaits(q, {}, call, now, id, q.timers[id].deadline, 0);
    }
  }

  lemma DoesKeeps(s: System, op: Op, t: System, w: World, ids: set<nat>)
    requires KeepsOff(w, ids) && Inv(s, ids) && Does(s, op, t, w, ids)
    ensures Inv(t, ids)
  {
    match op
    case SendOp(id, r, now) => SendLinked(s.q, s.c, id, r, now);
    case AnswerOp(id, done) => RespondLinked(s.q, s.c, id, done);
    case CreateOp(id) =>
    case CallOp(call, now) => CallKeepsLinked(s.q, s.c, call, now);
    case TickOp(curr) => TickLinked(s.q, s.c, curr, w, ids);
  }

  /** In every run each listed request has a live, queued timer that does not repeat by itself. */
  lemma {:induction false} AlwaysLinked(ss: seq<System>, ops: seq<Op>, w: World, ids: set<nat>, i: nat)
    requires KeepsOff(w, ids) && Run(ss, ops, w, ids) && i < |ss|
    ensures Inv(ss[i], ids)
  {
    if i > 0 {
      AlwaysLinked(ss, ops, w, ids, i - 1);
      assert Does(ss[i - 1], ops[i - 1], ss[i], w, ids);
      DoesKeeps(ss[i - 1], ops[i - 1], ss[i], w, ids);
    }
  }

  // ---- a request is deleted at most once --------------------------------------------------------------------------

  /** How often a request was sent with this timer. */
  function Opened(ops: seq<Op>, id: nat): nat {
    if ops == [] then 0
    else
      var n := |ops| - 1;
      Opened(ops[..n], id) + if ops[n].SendOp? && ops[n].id == id then 1 else 0
  }

  /** Deletions so far, and one more if the request is still listed. */
  function Closed(c: Client, id: nat): nat {
    Count(c.dropped, id) + if id in c.reqs then 1 else 0
  }

  lemma TurnKeepsClosed(c: Client, w: World, head: nat, id: nat)
    ensures Closed(OnTimer(w)(c, head).0, id) == Closed(c, id)
  {
  }

  lemma TickKeepsClosed(q: TQ, c: Client, curr: nat, w: World, id: nat)
    requires Valid(q, {}) && Sane(w)
    ensures Closed(Tick(q, c, curr, w).1, id) == Closed(c, id)
  {
    var n := Closed(c, id);
    var inv := (q: TQ, c: Client, f: seq<Firing>) => Closed(c, id) == n;
    forall q: TQ, c: Client, f: seq<Firing>
      ensures TurnKeeps(OnTimer(w), curr, inv, q, c, f)
    {
      if Valid(q, {}) && q.queue != [] && Closed(c, id) == n {
        TurnKeepsClosed(c, w, q.queue[0], id);
      }
    }
    OnTimerUsable(w);
    EventKeeps(q, c, curr, OnTimer(w), [], inv);
  }

  /** Every request sent is listed or has been deleted, exactly once: over every run, whichever of time-outs and
      answers come, the deletions of a timer's requests and the one listed, if any, are as many as were sent. */
  lemma {:induction false} DeletedExactlyOnce(ss: seq<System>, ops: seq<Op>, w: World, ids: set<nat>, i: nat, id: nat)
    requires KeepsOff(w, ids) && Run(ss, ops, w, ids) && i < |ss|
    ensures Closed(ss[i].c, id) == Opened(ops[..i], id)
  {
    if i > 0 {
      var k := i - 1;
      DeletedExactlyOnce(ss, ops, w, ids, k, id);
      AlwaysLinked(ss, ops, w, ids, k);
      assert ops[..i][..k] == ops[..k];
      assert Does(ss[k], ops[k], ss[i], w, ids);
      if ops[k].TickOp? {
        TickKeepsClosed(ss[k].q, ss[k].c, ops[k].curr, w, id);
      }
    }
  }

  /** How often a request with this timer was completed by an answer. */
  function Answered(ops: seq<Op>, id: nat): nat {
    if ops == [] then 0
    else
      var n := |ops| - 1;
      Answered(ops[..n], id) + if ops[n].AnswerOp? && ops[n].id == id && ops[n].done then 1 else 0
  }

  predicate NullsTell(c: Client, id: nat, n: nat) {
    Count(c.dropped, id) == Count(c.nulls, id) + n
  }

  lemma TurnKeepsNulls(c: Client, w: World, head: nat, id: nat, n: nat)
    requires NullsTell(c, id, n)
    ensures NullsTell(OnTimer(w)(c, head).0, id, n)
  {
  }

  lemma TickKeepsNulls(q: TQ, c: Client, curr: nat, w: World, id: nat, n: nat)
    requires Valid(q, {}) && Sane(w) && NullsTell(c, id, n)
    ensures NullsTell(Tick(q, c, curr, w).1, id, n)
  {
    var inv := (q: TQ, c: Client, f: seq<Firing>) => NullsTell(c, id, n);
    forall q: TQ, c: Client, f: seq<Firing>
      ensures TurnKeeps(OnTimer(w), curr, inv, q, c, f)
    {
      if Valid(q, {}) && q.queue != [] && NullsTell(c, id, n) {
        TurnKeepsNulls(c, w, q.queue[0], id, n);
      }
    }
    OnTimerUsable(w);
    EventKeeps(q, c, curr, OnTimer(w), [], inv);
  }

  /** Nobody is left in the dark and nobody is told twice: over every run, whether transmissions succeed or not, each
      deletion is either that of an answered request or goes with one NULL to the callback. */
  lemma {:induction false} NullOrAnswer(ss: seq<System>, ops: seq<Op>, w: World, ids: set<nat>, i: nat, id: nat)
    requires KeepsOff(w, ids) && Run(ss, ops, w, ids) && i < |ss|
    ensures Count(ss[i].c.dropped, id) == Count(ss[i].c.nulls, id) + Answered(ops[..i], id)
  {
    if i > 0 {
      var k := i - 1;
      NullOrAnswer(ss, ops, w, ids, k, id);
      AlwaysLinked(ss, ops, w, ids, k);
      assert ops[..i][..k] == ops[..k];
      assert Does(ss[k], ops[k], ss[k + 1], w, ids);
      if ops[k].TickOp? {
        TickKeepsNulls(ss[k].q, ss[k].c, ops[k].curr, w, id, Answered(ops[..k], id));
      }
    }
  }

  // ---- an unanswered request --------------------------------------------------------------------------------------

  /** The operation neither sends with this timer nor completes its request. */
  predicate LeavesAlone(op: Op, id: nat) {
    && (op.SendOp? ==> op.id != id)
    && (op.AnswerOp? ==> op.id != id || !op.done)
  }

  /** The clock at the events from operation `j` on never goes back. */
  predicate ClockAdvances(ops: seq<Op>, j: nat) {
    forall k, l | j <= k < l < |ops| && ops[k].TickOp? && ops[l].TickOp? :: ops[k].curr <= ops[l].curr
  }

  /** A timer that neither an operation nor anything it does is about. */
  lemma Untouched(q: TQ, q': TQ, c: Client, c': Client, fired: seq<Firing>,
                  id: nat, d: nat, t: nat, left: nat, b: Client, sure: bool)
    requires OnSchedule(q, c, fired, id, d, t, left, b, sure)
    requires forall x, p | Waits(q, id, x, p) :: Waits(q', id, x, p)
    requires id !in q.timers ==> id !in q'.timers
    requires id in c.reqs <==> id in c'.reqs
    requires id in c.reqs ==> c'.reqs[id] == c.reqs[id]
    requires Count(c'.sent, id) == Count(c.sent, id) && Count(c'.nulls, id) == Count(c.nulls, id)
    ensures OnSchedule(q', c', fired, id, d, t, left, b, sure)
  {
  }

  /** Everything but an event leaves a request as it is. */
  lemma OtherOp(s: System, op: Op, s': System, w: World, ids: set<nat>, log: seq<Firing>,
                id: nat, d: nat, t: nat, left: nat, b: Client, sure: bool)
    requires KeepsOff(w, ids) && Inv(s, ids) && Does(s, op, s', w, ids)
    requires id in ids && LeavesAlone(op, id) && !op.TickOp? && OnSchedule(s.q, s.c, log, id, d, t, left, b, sure)
    ensures OnSchedule(s'.q, s'.c, log, id, d, t, left, b, sure) && s'.fired == s.fired
  {
    match op
    case SendOp(o, r, now) => SendQueues(s.q, s.c, o, r, now);
    case AnswerOp(o, done) =>
      if done {
        DeleteFrees(s.q, o);
      }
    case CreateOp(o) =>
    case CallOp(call, now) =>
      forall x, p | Waits(s.q, id, x, p)
        ensures Waits(s'.q, id, x, p)
      {
        ApplyWaits(s.q, {}, call, now, id, x, p);
      }
    Untouched(s.q, s'.q, s.c, s'.c, log, id, d, t, left, b, sure);
  }

  /** Every operation keeps a request on schedule; `from` is how much had fired when it was sent. */
  lemma StepOnSchedule(s: System, op: Op, s': System, w: World, ids: set<nat>, from: nat,
                       id: nat, d: nat, t: nat, left: nat, b: Client, sure: bool)
    requires KeepsOff(w, ids) && (sure ==> AllSent(w)) && Inv(s, ids) && Does(s, op, s', w, ids)
    requires id in ids && LeavesAlone(op, id)
    requires from <= |s.fired| && OnSchedule(s.q, s.c, s.fired[from..], id, d, t, left, b, sure)
    ensures from <= |s'.fired| && OnSchedule(s'.q, s'.c, s'.fired[from..], id, d, t, left, b, sure)
  {
    if op.TickOp? {
      TickStep(s, op.curr, s', w, ids, from, id, d, t, left, b, sure);
    } else {
      OtherOp(s, op, s', w, ids, s.fired[from..], id, d, t, left, b, sure);
    }
  }

  lemma TickStep(s: System, curr: nat, s': System, w: World, ids: set<nat>, from: nat,
                 id: nat, d: nat, t: nat, left: nat, b: Client, sure: bool)
    requires KeepsOff(w, ids) && (sure ==> AllSent(w)) && id in ids
    requires Valid(s.q, {}) && Does(s, TickOp(curr), s', w, ids)
    requires from <= |s.fired| && OnSchedule(s.q, s.c, s.fired[from..], id, d, t, left, b, sure)
    ensures from <= |s'.fired| && OnSchedule(s'.q, s'.c, s'.fired[from..], id, d, t, left, b, sure)
  {
    var out := Tick(s.q, s.c, curr, w);
    TickOnSchedule(s.q, s.c, s.fired[from..], curr, w, id, d, t, left, b, sure);
    LogMore(s, s', out, from, id, d, t, left, b, sure);
  }

  lemma LogMore(s: System, s': System, out: (TQ, Client, seq<Firing>), from: nat,
                id: nat, d: nat, t: nat, left: nat, b: Client, sure: bool)
    requires from <= |s.fired| && s' == System(out.0, out.1, s.fired + out.2)
    requires OnSchedule(out.0, out.1, s.fired[from..] + out.2, id, d, t, left, b, sure)
    ensures from <= |s'.fired| && OnSchedule(s'.q, s'.c, s'.fired[from..], id, d, t, left, b, sure)
  {
    assert s'.fired[from..] == s.fired[from..] + out.2;
  }

  /** Sending puts the request on schedule, with nothing fired yet. */
  lemma SendStarts(s: System, id: nat, r: Request, now: nat, s': System, w: World, ids: set<nat>,
                   sure: bool)
    requires Sane(w) && Valid(s.q, {}) && Does(s, SendOp(id, r, now), s', w, ids)
    ensures s'.fired == s.fired && id in ids
    ensures OnSchedule(s'.q, s'.c, s'.fired[|s.fired|..], id, now + r.tmout, r.tmout, Tries(r.retry), s.c, sure)
  {
    SendOnSchedule(s.q, s.c, id, r, now, s'.q, s'.c, sure);
  }

  /** From its sending on a request is on schedule. */
  lemma {:induction false} RunOnSchedule(ss: seq<System>, ops: seq<Op>, w: World, ids: set<nat>, j: nat, i: nat,
                                         id: nat, r: Request, now: nat, sure: bool)
    requires KeepsOff(w, ids) && (sure ==> AllSent(w)) && Run(ss, ops, w, ids)
    requires j < i <= |ops| && ops[j] == SendOp(id, r, now) && forall k | j < k < i :: LeavesAlone(ops[k], id)
    ensures id in ids && |ss[j].fired| <= |ss[i].fired|
    ensures OnSchedule(ss[i].q, ss[i].c, ss[i].fired[|ss[j].fired|..],
                       id, now + r.tmout, r.tmout, Tries(r.retry), ss[j].c, sure)
  {
    var k, from := i - 1, |ss[j].fired|;
    AlwaysLinked(ss, ops, w, ids, k);
    assert Does(ss[k], ops[k], ss[k + 1], w, ids);
    if k == j {
      SendStarts(ss[j], id, r, now, ss[i], w, ids, sure);
    } else {
      RunOnSchedule(ss, ops, w, ids, j, k, id, r, now, sure);
      StepOnSchedule(ss[k], ops[k], ss[i], w, ids, from, id, now + r.tmout, r.tmout, Tries(r.retry), ss[j].c, sure);
    }
  }

  predicate FiredBy(fired: seq<Firing>, clock: nat) {
    forall i | 0 <= i < |fired| :: fired[i].deadline <= clock
  }

  /** An event fires only what is due, and leaves nothing due. */
  lemma NothingDue(s: System, curr: nat, s': System, w: World, ids: set<nat>) returns (more: seq<Firing>)
    requires Sane(w) && Inv(s, ids) && Does(s, TickOp(curr), s', w, ids)
    ensures Valid(s'.q, {}) && NotBefore(s'.q, curr + 1)
    ensures s'.fired == s.fired + more && FiredBy(more, curr)
  {
    OnTimerUsable(w);
    EventLeavesNothingDue(s.q, s.c, curr, 0, OnTimer(w));
    more := Tick(s.q, s.c, curr, w).2;
  }

  lemma FiredByMore(fired: seq<Firing>, more: seq<Firing>, from: nat, clock: nat)
    requires from <= |fired| && FiredBy(fired[from..], clock) && FiredBy(more, clock)
    ensures FiredBy((fired + more)[from..], clock)
  {
    assert (fired + more)[from..] == fired[from..] + more;
  }

  lemma StepNothingEarly(s: System, op: Op, s': System, w: World, ids: set<nat>, from: nat, clock: nat)
    requires Sane(w) && Inv(s, ids) && Does(s, op, s', w, ids)
    requires from <= |s.fired| && FiredBy(s.fired[from..], clock) && (op.TickOp? ==> op.curr <= clock)
    ensures from <= |s'.fired| && FiredBy(s'.fired[from..], clock)
  {
    if op.TickOp? {
      var more := NothingDue(s, op.curr, s', w, ids);
      FiredByMore(s.fired, more, from, clock);
    } else {
      assert s'.fired == s.fired;
    }
  }

  /** Nothing fires before it is due. */
  lemma {:induction false} NothingEarly(ss: seq<System>, ops: seq<Op>, w: World, ids: set<nat>,
                                        j: nat, i: nat, clock: nat)
    requires KeepsOff(w, ids) && Run(ss, ops, w, ids) && j <= i <= |ops|
    requires forall k | j <= k < i && ops[k].TickOp? :: ops[k].curr <= clock
    ensures |ss[j].fired| <= |ss[i].fired| && FiredBy(ss[i].fired[|ss[j].fired|..], clock)
  {
    if i > j {
      var k := i - 1;
      NothingEarly(ss, ops, w, ids, j, k, clock);
      AlwaysLinked(ss, ops, w, ids, k);
      assert Does(ss[k], ops[k], ss[k + 1], w, ids);
      StepNothingEarly(ss[k], ops[k], ss[i], w, ids, |ss[j].fired|, clock);
    }
  }

  /** A request sent at `now` with timeout `t` and `left` retries, when the clock shows `clock` and all that is due has
      fired; `b` is the client before it was sent, `log` what has fired since. Its timer has fired at `now + t`,
      `now + 2 t` and so on. While it is listed, its timer has fired for all of these that are due, it has been
      transmitted once more than that, and its callback has not seen NULL. Once it is gone, it has been transmitted once
      for each firing, the first transmission included and the last firing not, its callback has seen NULL exactly once,
      and its timer is gone too. If all transmissions succeed it is listed exactly before `now + (left + 1) t`, and
      then has been transmitted exactly `left + 1` times. */
  ghost predicate Stands(s: System, b: Client, log: seq<Firing>, id: nat, now: nat, t: pos, left: nat, clock: nat,
                         sure: bool) {
    var m := |TimesOf(log, id)|;
    && TimesOf(log, id) == Grid(now + t, t, m) && m <= DueTimes(clock, now + t, t)
    && (sure ==> (id in s.c.reqs <==> clock < At(now, t, left + 1)))
    && if id in s.c.reqs then
         m == DueTimes(clock, now + t, t) && clock < At(now, t, left + 1) && Since(b, s.c, id, m + 1, 0)
       else
         1 <= m <= left + 1 && Gone(s.q, s.c, id) && Since(b, s.c, id, m, 1) && (sure ==> m == left + 1)
  }

  /** The life of an unanswered request, in every run: other requests are sent, answered and given up meanwhile, other
      timers come, go and fire, transmissions may fail, and the clock does not go back. After every event it stands as
      it should. */
  lemma UnansweredRequest(ss: seq<System>, ops: seq<Op>, w: World, ids: set<nat>, j: nat, i: nat,
                          id: nat, r: Request, now: nat) returns (log: seq<Firing>)
    requires KeepsOff(w, ids) && Run(ss, ops, w, ids)
    requires j < i < |ops| && ops[j] == SendOp(id, r, now) && ops[i].TickOp? && ClockAdvances(ops, j)
    requires forall k | j < k < i :: LeavesAlone(ops[k], id)
    ensures |ss[j].fired| <= |ss[i + 1].fired| && log == ss[i + 1].fired[|ss[j].fired|..]
    ensures Stands(ss[i + 1], ss[j].c, log, id, now, r.tmout, Tries(r.retry), ops[i].curr, AllSent(w))
  {
    var sure := AllSent(w);
    RunOnSchedule(ss, ops, w, ids, j, i + 1, id, r, now, sure);
    log := ss[i + 1].fired[|ss[j].fired|..];
    assert Valid(ss[i + 1].q, {}) && NotBefore(ss[i + 1].q, ops[i].curr + 1) by {
      AlwaysLinked(ss, ops, w, ids, i);
      assert Does(ss[i], ops[i], ss[i + 1], w, ids);
      var _ := NothingDue(ss[i], ops[i].curr, ss[i + 1], w, ids);
    }
    assert FiredBy(log, ops[i].curr) by {
      NothingEarly(ss, ops, w, ids, j, i + 1, ops[i].curr);
    }
    Concluding(ss[i + 1], ss[j].c, log, id, now, r.tmout, Tries(r.retry), ops[i].curr, sure);
  }

  lemma {:induction false} TimesFiredBy(fired: seq<Firing>, id: nat, clock: nat)
    requires FiredBy(fired, clock)
    ensures forall i | 0 <= i < |TimesOf(fired, id)| :: TimesOf(fired, id)[i] <= clock
  {
    if fired != [] {
      TimesFiredBy(fired[..|fired| - 1], id, clock);
    }
  }

  /** The number of grid points up to a clock reading. */
  lemma PointsUpTo(d: nat, t: pos, m: nat, clock: nat)
    requires m > 0 ==> At(d, t, m - 1) <= clock
    ensures m <= DueTimes(clock, d, t)
    ensures clock < At(d, t, m) ==> m == DueTimes(clock, d, t)
  {
    if d <= clock {
      var k := (clock - d) / t;
      assert clock - d == k * t + (clock - d) % t;
      Distribute(k, t);
      if m > k + 1 {
        Monotone(k + 1, m - 1, t);
      } else if m <= k {
        Monotone(m, k, t);
      }
    }
  }

  lemma Monotone(a: nat, b: nat, t: nat)
    requires a <= b
    ensures a * t <= b * t
  {
    assert (b - a) * t >= 0;
  }

  /** With nothing due and nothing fired early, the schedule says where the request stands. */
  lemma Concluding(s: System, b: Client, log: seq<Firing>, id: nat, now: nat, t: pos, left: nat, clock: nat,
                   sure: bool)
    requires Valid(s.q, {}) && OnSchedule(s.q, s.c, log, id, now + t, t, left, b, sure)
    requires NotBefore(s.q, clock + 1) && FiredBy(log, clock)
    ensures Stands(s, b, log, id, now, t, left, clock, sure)
  {
    var d, n := now + t, |TimesOf(log, id)|;
    TimesFiredBy(log, id, clock);
    assert n > 0 ==> Grid(d, t, n)[n - 1] == At(d, t, n - 1);
    PointsUpTo(d, t, n, clock);
    Distribute(left, t);
    assert At(now, t, left + 1) == At(d, t, left);
    if n <= left {
      Monotone(n, left, t);
    }
  }
}
