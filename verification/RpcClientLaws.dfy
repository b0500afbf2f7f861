/** The retry schedule of a request, and the tie between the request list and the timers. */
module RpcClientLaws {
  import opened TimerQueue
  import opened TimerLaws
  import opened TimerCalls
  import opened RpcClient

  /** Callbacks of timers that are not requests' use intervals of at least 1. */
  ghost predicate Sane(w: World) {
    forall k: nat :: Positive(w.others(k))
  }

  /** They also make no calls on the timers in `ids`. */
  ghost predicate KeepsOff(w: World, ids: set<nat>) {
    Sane(w) && forall k: nat, id | id in ids :: Silent(w.others(k), id)
  }

  ghost predicate Usable(cb: (Client, nat) -> (Client, seq<Call>)) {
    forall c: Client, id: nat :: Positive(cb(c, id).1)
  }

  lemma OnTimerUsable(w: World)
    requires Sane(w)
    ensures Usable(OnTimer(w))
  {
    forall c: Client, id: nat
      ensures Positive(OnTimer(w)(c, id).1)
    {
      if id in c.reqs {
        TimeoutPositive(c, id, w.sends(c.turn));
      } else {
        assert Positive(w.others(c.turn));
      }
    }
  }

  lemma TimeoutPositive(c: Client, id: nat, ok: bool)
    requires id in c.reqs
    ensures Positive(Timeout(c, id, ok).1)
  {
  }

  /** One event of the client's thread. */
  ghost function Tick(q: TQ, c: Client, curr: nat, w: World): (TQ, Client, seq<Firing>)
    requires Valid(q, {}) && Sane(w)
  {
    OnTimerUsable(w);
    Drain(q, c, curr, OnTimer(w))
  }

  /** A timer that is not the head and that no callback calls about waits. */
  lemma FireWaits(q: TQ, cs: seq<Call>, curr: nat, id: nat, d: nat, r: nat)
    requires Valid(q, {}) && Waits(q, id, d, r) && Silent(cs, id) && q.queue[0] != id
    ensures Waits(Fire(q, cs, curr), id, d, r)
  {
    var b := q.queue[0];
    ApplyAllWaits(Begin(q), b, cs, curr, id, d, r);
    SettleWaits(ApplyAll(Begin(q), {b}, cs, curr), b, id, d, r);
  }

  // ---- every listed request has a live timer ----------------------------------------------------------------------

  /** Each request's timer is queued, and does not repeat by itself. */
  ghost predicate Linked(q: TQ, c: Client) {
    forall id | id in c.reqs :: id in q.queue && id in q.timers && q.timers[id].repeat == 0
  }

  /** A timer's callback makes no calls on another request's timer. */
  lemma TurnSilent(w: World, c: Client, head: nat, id: nat)
    requires KeepsOff(w, {id}) && head != id
    ensures Silent(OnTimer(w)(c, head).1, id)
  {
    if head !in c.reqs {
      assert Silent(w.others(c.turn), id);
    }
  }

  /** The head restarts itself: it waits one timeout after the deadline it fired for. */
  lemma SelfRestart(q: TQ, curr: nat, t: nat)
    requires Valid(q, {}) && q.queue != []
    ensures var id := q.queue[0];
      Waits(Fire(q, [Call.Start(id, t, 0, 0)], curr), id, q.timers[id].deadline + t, 0)
  {
    var id := q.queue[0];
    var c := Call.Start(id, t, 0, 0);
    var cs := [c];
    assert c in cs && cs[1..] == [];
    assert Advance(cs, id) == t + Advance(cs[1..], id) == t;
    assert LastRepeat(cs, id, q.timers[id].repeat) == LastRepeat(cs[1..], id, 0) == 0;
    assert Starts(cs, id) && !Stops(cs, id) && !Deletes(cs, id);
    CallbackOutcome(q, cs, curr);
  }

  /** The head deletes itself. */
  lemma SelfDelete(q: TQ, curr: nat)
    requires Valid(q, {}) && q.queue != []
    ensures var id := q.queue[0]; id !in Fire(q, [Call.Delete(id)], curr).timers
  {
    var id := q.queue[0];
    assert Call.Delete(id) in [Call.Delete(id)];
    CallbackOutcome(q, [Call.Delete(id)], curr);
  }

  /** One turn of the loop keeps the link: a request leaves the list together with its timer. */
  lemma FireLinked(q: TQ, c: Client, curr: nat, w: World, ids: set<nat>)
    requires Valid(q, {}) && Linked(q, c) && q.queue != [] && KeepsOff(w, ids) && c.reqs.Keys <= ids
    ensures var (c', cs) := OnTimer(w)(c, q.queue[0]);
      Linked(Fire(q, cs, curr), c') && c'.reqs.Keys <= c.reqs.Keys
  {
    var head := q.queue[0];
    var (c', cs) := OnTimer(w)(c, head);
    forall id | id in c'.reqs
      ensures var r := Fire(q, cs, curr); id in r.queue && id in r.timers && r.timers[id].repeat == 0
    {
      if id == head {
        SelfRestart(q, curr, c.reqs[id].tmout);
      } else {
        TurnSilent(w, c, head, id);
        FireWaits(q, cs, curr, id, q.timers[id].deadline, 0);
      }
    }
  }

  lemma {:induction false} TickLinked(q: TQ, c: Client, curr: nat, w: World, ids: set<nat>)
    requires Valid(q, {}) && Linked(q, c) && KeepsOff(w, ids) && c.reqs.Keys <= ids
    ensures var (q', c', _) := Tick(q, c, curr, w);
      Valid(q', {}) && Linked(q', c') && c'.reqs.Keys <= c.reqs.Keys
    decreases Work(q.timers, q.queue, curr)
  {
    OnTimerUsable(w);
    if q.queue != [] && q.timers[q.queue[0]].deadline <= curr {
      var (c', cs) := OnTimer(w)(c, q.queue[0]);
      FireLinked(q, c, curr, w, ids);
      FireWork(q, cs, curr);
      TickLinked(Fire(q, cs, curr), c', curr, w, ids);
    }
  }

  // ---- the schedule of one request --------------------------------------------------------------------------------

  function Count(s: seq<nat>, id: nat): nat {
    multiset(s)[id]
  }

  /** The deadlines a timer fired for, in order. */
  function TimesOf(fired: seq<Firing>, id: nat): seq<nat> {
    if fired == [] then []
    else
      var n := |fired| - 1;
      TimesOf(fired[..n], id) + if fired[n].tid == id then [fired[n].deadline] else []
  }

  /** `d`, `d + t`, `d + 2t`, ...: `n` of them. */
  function Grid(d: nat, t: nat, n: nat): (s: seq<nat>)
    ensures |s| == n
  {
    if n == 0 then [] else Grid(d, t, n - 1) + [At(d, t, n - 1)]
  }

  lemma AtNext(d: nat, t: nat, m: nat)
    ensures At(d, t, m + 1) == At(d, t, m) + t
  {
    Distribute(m, t);
  }

  /** A negative number of retries is as good as none. */
  function Tries(retry: int): nat {
    if retry < 0 then 0 else retry
  }

  /** The request is listed with `left` retries and its timer will fire at `d`. */
  ghost predicate Pending(q: TQ, c: Client, id: nat, d: nat, t: nat, left: nat) {
    Waits(q, id, d, 0) && id in c.reqs && Tries(c.reqs[id].retry) == left && c.reqs[id].tmout == t
  }

  /** The request is off the list and its timer freed. */
  ghost predicate Gone(q: TQ, c: Client, id: nat) {
    id !in c.reqs && id !in q.timers
  }

  ghost predicate AllSent(w: World) {
    forall k: nat :: w.sends(k)
  }

  /** `n` transmissions and `m` NULL callbacks of a request since the client was `b`. */
  predicate Since(b: Client, c: Client, id: nat, n: nat, m: nat) {
    Count(c.sent, id) == Count(b.sent, id) + n && Count(c.nulls, id) == Count(b.nulls, id) + m
  }

  /** A request sent once since the client was `b`, with `left` retries and first due at `d`, after any number of
      turns of the loop: its timer has fired for the first points of its grid. While it is listed it has been sent once
      more than that, at most `left` times again, and waits for the next point; once it is gone its callback has seen
      NULL once, at the last firing, which sent nothing. If `sure`, that was firing `left + 1`. */
  ghost predicate OnSchedule(q: TQ, c: Client, fired: seq<Firing>, id: nat, d: nat, t: nat, left: nat,
                             b: Client, sure: bool) {
    var m := |TimesOf(fired, id)|;
    && TimesOf(fired, id) == Grid(d, t, m)
    && if id in c.reqs then m <= left && Pending(q, c, id, At(d, t, m), t, left - m) && Since(b, c, id, m + 1, 0)
       else 1 <= m <= left + 1 && Gone(q, c, id) && Since(b, c, id, m, 1) && (sure ==> m == left + 1)
  }

  lemma FireGone(q: TQ, cs: seq<Call>, curr: nat, id: nat)
    requires Valid(q, {}) && q.queue != [] && id !in q.timers
    ensures id !in Fire(q, cs, curr).timers
  {
    ApplyAllGone(Begin(q), q.queue[0], cs, curr, id);
  }

  lemma {:induction false} ApplyAllGone(q: TQ, busy: nat, cs: seq<Call>, curr: nat, id: nat)
    requires Valid(q, {busy}) && id !in q.timers
    ensures id !in ApplyAll(q, {busy}, cs, curr).timers
    decreases |cs|
  {
    if cs != [] {
      ApplyKeeps(q, {busy}, cs[0], curr);
      ApplyAllGone(Apply(q, cs[0], curr), busy, cs[1..], curr, id);
    }
  }

  /** The timer of a request fires: it is sent again, or given up if no retry is left or sending fails. */
  lemma OwnTurn(q: TQ, c: Client, curr: nat, w: World, id: nat, d: nat, t: nat, left: nat)
    requires Valid(q, {}) && Pending(q, c, id, d, t, left) && q.queue[0] == id
    ensures var (c', cs) := OnTimer(w)(c, id);
      var q' := Fire(q, cs, curr);
      if left == 0 || !w.sends(c.turn) then
        Gone(q', c', id) && c'.nulls == c.nulls + [id] && c'.sent == c.sent
      else
        Pending(q', c', id, d + t, t, left - 1) && c'.sent == c.sent + [id] && c'.nulls == c.nulls
  {
    if left > 0 && w.sends(c.turn) {
      SelfRestart(q, curr, t);
    } else {
      SelfDelete(q, curr);
    }
  }

  /** Another timer fires: the request is untouched. */
  lemma OtherTurn(q: TQ, c: Client, curr: nat, w: World, id: nat, d: nat, t: nat, left: nat)
    requires Valid(q, {}) && Pending(q, c, id, d, t, left) && q.queue[0] != id && KeepsOff(w, {id})
    ensures var (c', cs) := OnTimer(w)(c, q.queue[0]);
      && Pending(Fire(q, cs, curr), c', id, d, t, left)
      && Count(c'.sent, id) == Count(c.sent, id) && Count(c'.nulls, id) == Count(c.nulls, id)
  {
    var (c', cs) := OnTimer(w)(c, q.queue[0]);
    TurnSilent(w, c, q.queue[0], id);
    FireWaits(q, cs, curr, id, d, 0);
  }

  lemma TimesSnoc(fired: seq<Firing>, f: Firing, id: nat)
    ensures TimesOf(fired + [f], id) == TimesOf(fired, id) + if f.tid == id then [f.deadline] else []
  {
    assert (fired + [f])[..|fired|] == fired;
  }

  /** One turn of the loop keeps a request on schedule. */
  lemma TurnOnSchedule(q: TQ, c: Client, fired: seq<Firing>, curr: nat, w: World,
                       id: nat, d: nat, t: nat, left: nat, b: Client, sure: bool)
    requires Valid(q, {}) && q.queue != [] && OnSchedule(q, c, fired, id, d, t, left, b, sure)
    requires KeepsOff(w, {id}) && (sure ==> AllSent(w))
    ensures var (c', cs) := OnTimer(w)(c, q.queue[0]);
      var f := Firing(q.queue[0], q.timers[q.queue[0]].deadline);
      OnSchedule(Fire(q, cs, curr), c', fired + [f], id, d, t, left, b, sure)
  {
    var head, m := q.queue[0], |TimesOf(fired, id)|;
    var f := Firing(head, q.timers[head].deadline);
    var (c', cs) := OnTimer(w)(c, head);
    if id !in c.reqs {
      FireGone(q, cs, curr, id);
      GoneTurn(c, w, head, id);
      OtherStep(Fire(q, cs, curr), c', fired, f, id, d, t, left, b, sure);
    } else if head == id {
      OwnTurn(q, c, curr, w, id, At(d, t, m), t, left - m);
      OwnStep(Fire(q, cs, curr), c', fired, f, id, d, t, left, b, sure);
    } else {
      OtherTurn(q, c, curr, w, id, At(d, t, m), t, left - m);
      OtherStep(Fire(q, cs, curr), c', fired, f, id, d, t, left, b, sure);
    }
  }

  lemma OtherStep(q': TQ, c': Client, fired: seq<Firing>, f: Firing, id: nat, d: nat, t: nat, left: nat,
                  b: Client, sure: bool)
    requires OnSchedule(q', c', fired, id, d, t, left, b, sure) && f.tid != id
    ensures OnSchedule(q', c', fired + [f], id, d, t, left, b, sure)
  {
    TimesSnoc(fired, f, id);
  }

  lemma OwnStep(q': TQ, c': Client, fired: seq<Firing>, f: Firing, id: nat, d: nat, t: nat, left: nat,
                b: Client, sure: bool)
    requires var m := |TimesOf(fired, id)|;
      && m <= left && TimesOf(fired, id) == Grid(d, t, m) && f == Firing(id, At(d, t, m))
      && if id in c'.reqs then
           m < left && Pending(q', c', id, At(d, t, m) + t, t, left - m - 1) && Since(b, c', id, m + 2, 0)
         else
           Gone(q', c', id) && Since(b, c', id, m + 1, 1) && (sure ==> m == left)
    ensures OnSchedule(q', c', fired + [f], id, d, t, left, b, sure)
  {
    TimesSnoc(fired, f, id);
    AtNext(d, t, |TimesOf(fired, id)|);
  }

  /** No turn brings a request back, or transmits or gives up one that is not listed. */
  lemma GoneTurn(c: Client, w: World, head: nat, id: nat)
    requires id !in c.reqs
    ensures var c' := OnTimer(w)(c, head).0;
      id !in c'.reqs && Count(c'.sent, id) == Count(c.sent, id) && Count(c'.nulls, id) == Count(c.nulls, id)
  {
  }

  /** A whole event keeps it on schedule. */
  lemma TickOnSchedule(q: TQ, c: Client, fired: seq<Firing>, curr: nat, w: World,
                       id: nat, d: nat, t: nat, left: nat, b: Client, sure: bool)
    requires Valid(q, {}) && OnSchedule(q, c, fired, id, d, t, left, b, sure)
    requires KeepsOff(w, {id}) && (sure ==> AllSent(w))
    ensures var (q', c', more) := Tick(q, c, curr, w); OnSchedule(q', c', fired + more, id, d, t, left, b, sure)
  {
    var inv := (q: TQ, c: Client, f: seq<Firing>) => OnSchedule(q, c, f, id, d, t, left, b, sure);
    forall q: TQ, c: Client, f: seq<Firing>
      ensures TurnKeeps(OnTimer(w), curr, inv, q, c, f)
    {
      if Valid(q, {}) && q.queue != [] && OnSchedule(q, c, f, id, d, t, left, b, sure) {
        TurnOnSchedule(q, c, f, curr, w, id, d, t, left, b, sure);
      }
    }
    OnTimerUsable(w);
    EventKeeps(q, c, curr, OnTimer(w), fired, inv);
  }

  // ---- the other operations ---------------------------------------------------------------------------------------

  /** Sending queues a fresh timer, due one timeout ahead, and leaves the others as they are. */
  lemma SendQueues(q: TQ, c: Client, id: nat, r: Request, now: nat)
    requires Valid(q, {}) && id !in q.timers
    ensures var q0 := Send(q, c, id, r, now).0;
      && Valid(q0, {}) && Waits(q0, id, now + r.tmout, 0)
      && (forall x, d, p | x != id && Waits(q, x, d, p) :: Waits(q0, x, d, p))
      && (forall x | x != id && x !in q.timers :: x !in q0.timers)
  {
    var created := q.(timers := q.timers[id := Timer(0, 0, false, false, false, false, 0)]);
    StartWaits(created, id, r.tmout, 0, now);
    assert forall x, d, p | x != id && Waits(q, x, d, p) :: Waits(created, x, d, p);
  }

  /** Sending puts the request on schedule. */
  lemma SendOnSchedule(q: TQ, c: Client, id: nat, r: Request, now: nat, q0: TQ, c0: Client, sure: bool)
    requires Valid(q, {}) && id !in q.timers && (q0, c0) == Send(q, c, id, r, now)
    ensures Valid(q0, {}) && OnSchedule(q0, c0, [], id, now + r.tmout, r.tmout, Tries(r.retry), c, sure)
  {
    SendQueues(q, c, id, r, now);
    assert At(now + r.tmout, r.tmout, 0) == now + r.tmout;
    assert TimesOf([], id) == Grid(now + r.tmout, r.tmout, 0) == [];
  }

  /** A successful send and an answer keep the link, so every deletion finds both the request and its timer. */
  lemma SendLinked(q: TQ, c: Client, id: nat, r: Request, now: nat)
    requires Valid(q, {}) && Linked(q, c) && id !in q.timers
    ensures var (q', c') := Send(q, c, id, r, now); Valid(q', {}) && Linked(q', c')
  {
    SendQueues(q, c, id, r, now);
    assert forall x | x in c.reqs :: Waits(q, x, q.timers[x].deadline, 0);
  }

  lemma RespondLinked(q: TQ, c: Client, id: nat, done: bool)
    requires Valid(q, {}) && Linked(q, c) && id in c.reqs
    ensures var (q', c') := Respond(q, c, id, done);
      && Valid(q', {}) && Linked(q', c')
      && (done ==> Gone(q', c', id))
  {
    if done {
      DeleteFrees(q, id);
      assert forall x | x in c.reqs :: Waits(q, x, q.timers[x].deadline, 0);
    }
  }
}
