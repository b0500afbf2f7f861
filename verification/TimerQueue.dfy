/** The timer queue: a list of timers in deadline order, one hardware alarm for the head of it, and an event
    routine that fires what is due. A callback may start, stop or delete any timer, its own included. */
module TimerQueue {

  /** A timer node. `deadline` is `nxt_tick`, `repeat` is `irepeat`, the four flags are the bits of `iflag`;
      `serial` is a history variable: the number of the insertion that queued it last. */
  datatype Timer = Timer(
    deadline: nat, repeat: nat,
    calling: bool, deleted: bool, stopped: bool, restart: bool,
    serial: nat)

  /** The list, the nodes that are allocated, the alarm (`tq_nxt_tick`) and the number of insertions so far. */
  datatype TQ = TQ(queue: seq<nat>, timers: map<nat, Timer>, alarm: nat, stamp: nat)

  // ---- order ------------------------------------------------------------------------------------------------------

  predicate Known(timers: map<nat, Timer>, s: seq<nat>) {
    forall id | id in s :: id in timers
  }

  /** Earlier deadline first; among equal deadlines, earlier insertion first. */
  predicate Before(timers: map<nat, Timer>, a: nat, b: nat)
    requires a in timers && b in timers
  {
    timers[a].deadline < timers[b].deadline ||
    (timers[a].deadline == timers[b].deadline && timers[a].serial < timers[b].serial)
  }

  predicate Sorted(timers: map<nat, Timer>, s: seq<nat>)
    requires Known(timers, s)
  {
    forall i, j | 0 <= i < j < |s| :: Before(timers, s[i], s[j])
  }

  predicate Clear(t: Timer) {
    !t.calling && !t.deleted && !t.stopped && !t.restart
  }

  /** Queued timers are allocated, in order and not in their callback; only a timer in its callback has flags,
      and only `busy` may be in its callback. */
  predicate Valid(q: TQ, busy: set<nat>) {
    && Known(q.timers, q.queue)
    && Sorted(q.timers, q.queue)
    && (forall id | id in q.queue :: q.timers[id].serial < q.stamp && id !in busy)
    && (forall id | id in q.timers :: if id in busy then q.timers[id].calling else Clear(q.timers[id]))
    && busy <= q.timers.Keys
  }

  /** The alarm is set for the head of the list. */
  predicate AlarmSet(q: TQ)
    requires Known(q.timers, q.queue)
  {
    q.queue != [] ==> q.alarm == q.timers[q.queue[0]].deadline
  }

  // ---- list surgery -----------------------------------------------------------------------------------------------

  /** The list walk of `timer_insert` and `timer_start`: the first place whose timer is due after `d`. */
  function Place(timers: map<nat, Timer>, s: seq<nat>, d: nat): (p: nat)
    requires Known(timers, s)
    ensures p <= |s|
  {
    if s == [] || d < timers[s[0]].deadline then 0 else 1 + Place(timers, s[1..], d)
  }

  /** `list_delete`. */
  function Unlink(s: seq<nat>, id: nat): seq<nat> {
    if s == [] then [] else if s[0] == id then s[1..] else [s[0]] + Unlink(s[1..], id)
  }

  function Insert(q: TQ, id: nat): TQ
    requires Known(q.timers, q.queue) && id in q.timers
  {
    var t := q.timers[id].(serial := q.stamp);
    var p := Place(q.timers, q.queue, t.deadline);
    q.(queue := q.queue[..p] + [id] + q.queue[p..], timers := q.timers[id := t], stamp := q.stamp + 1)
  }

  function SetAlarm(q: TQ): TQ
    requires Known(q.timers, q.queue)
  {
    if q.queue == [] then q else q.(alarm := q.timers[q.queue[0]].deadline)
  }

  lemma {:induction false} PlaceIs(timers: map<nat, Timer>, s: seq<nat>, d: nat)
    requires Known(timers, s)
    ensures var p := Place(timers, s, d);
      (forall i | 0 <= i < p :: timers[s[i]].deadline <= d) && (p < |s| ==> d < timers[s[p]].deadline)
  {
    if s != [] && timers[s[0]].deadline <= d {
      PlaceIs(timers, s[1..], d);
      assert forall i | 1 <= i < Place(timers, s, d) :: s[i] == s[1..][i - 1];
    }
  }

  lemma {:induction false} UnlinkIs(s: seq<nat>, id: nat) returns (i: nat)
    ensures if id in s then i < |s| && s[i] == id && Unlink(s, id) == s[..i] + s[i + 1..] else Unlink(s, id) == s
  {
    i := 0;
    if s != [] && s[0] != id {
      assert s == [s[0]] + s[1..];
      i := UnlinkIs(s[1..], id);
      if id in s[1..] {
        RemoveFromRest(s, i);
      }
      i := i + 1;
    }
  }

  lemma RemoveFromRest(s: seq<nat>, i: nat)
    requires i + 1 < |s|
    ensures [s[0]] + (s[1..][..i] + s[1..][i + 1..]) == s[..i + 1] + s[i + 2..]
  {
  }

  lemma UnlinkMembers(timers: map<nat, Timer>, s: seq<nat>, id: nat)
    requires Known(timers, s)
    ensures Known(timers, Unlink(s, id))
    ensures forall x | x != id :: x in Unlink(s, id) <==> x in s
  {
    var i := UnlinkIs(s, id);
    if id in s {
      assert s == s[..i] + [s[i]] + s[i + 1..];
    }
  }

  lemma UnlinkSorted(timers: map<nat, Timer>, s: seq<nat>, id: nat)
    requires Known(timers, s) && Sorted(timers, s) && Known(timers, Unlink(s, id))
    ensures Sorted(timers, Unlink(s, id)) && id !in Unlink(s, id)
  {
    var k := UnlinkIs(s, id);
    if id in s {
      RemoveSorted(timers, s, k);
    }
  }

  lemma RemoveSorted(timers: map<nat, Timer>, s: seq<nat>, k: nat)
    requires Known(timers, s) && Sorted(timers, s) && k < |s|
    ensures var r := s[..k] + s[k + 1..]; Known(timers, r) && Sorted(timers, r) && s[k] !in r
  {
    var r := s[..k] + s[k + 1..];
    forall i | 0 <= i < |r|
      ensures r[i] == s[if i < k then i else i + 1] && r[i] != s[k]
    {
      var i' := if i < k then i else i + 1;
      assert r[i] == s[i'];
      assert if i' < k then Before(timers, s[i'], s[k]) else Before(timers, s[k], s[i']);
    }
  }

  lemma UnlinkKeeps(timers: map<nat, Timer>, s: seq<nat>, id: nat)
    requires Known(timers, s) && Sorted(timers, s)
    ensures Known(timers, Unlink(s, id)) && Sorted(timers, Unlink(s, id))
    ensures id !in Unlink(s, id)
    ensures forall x | x != id :: x in Unlink(s, id) <==> x in s
  {
    UnlinkMembers(timers, s, id);
    UnlinkSorted(timers, s, id);
  }

  lemma InsertMembers(q: TQ, id: nat)
    requires Known(q.timers, q.queue) && id in q.timers
    ensures var r := Insert(q, id);
      Known(r.timers, r.queue) && forall x :: x in r.queue <==> x in q.queue || x == id
  {
    var p := Place(q.timers, q.queue, q.timers[id].deadline);
    assert q.queue == q.queue[..p] + q.queue[p..];
  }

  lemma SpliceSorted(timers: map<nat, Timer>, s: seq<nat>, p: nat, id: nat)
    requires Known(timers, s) && id in timers && Sorted(timers, s) && p <= |s|
    requires forall i | 0 <= i < p :: Before(timers, s[i], id)
    requires forall i | p <= i < |s| :: Before(timers, id, s[i])
    ensures var r := s[..p] + [id] + s[p..]; Known(timers, r) && Sorted(timers, r)
  {
    var r := s[..p] + [id] + s[p..];
    forall i, j | 0 <= i < j < |r|
      ensures r[i] in timers && r[j] in timers && Before(timers, r[i], r[j])
    {
      assert r[i] == if i < p then s[i] else if i == p then id else s[i - 1];
      assert r[j] == if j < p then s[j] else if j == p then id else s[j - 1];
    }
  }

  /** Inserting an unqueued timer keeps the list in order: it goes after its equals. */
  lemma InsertSortedly(q: TQ, id: nat)
    requires Known(q.timers, q.queue) && Sorted(q.timers, q.queue)
    requires forall x | x in q.queue :: q.timers[x].serial < q.stamp
    requires id in q.timers && id !in q.queue
    ensures var r := Insert(q, id);
      Known(r.timers, r.queue) && Sorted(r.timers, r.queue)
  {
    var timers, p := Insert(q, id).timers, Place(q.timers, q.queue, q.timers[id].deadline);
    PlaceIs(q.timers, q.queue, q.timers[id].deadline);
    forall i | p <= i < |q.queue|
      ensures Before(timers, id, q.queue[i])
    {
      assert p < i ==> Before(q.timers, q.queue[p], q.queue[i]);
    }
    assert Sorted(timers, q.queue) by {
      assert forall i, j | 0 <= i < j < |q.queue| :: Before(q.timers, q.queue[i], q.queue[j]);
    }
    SpliceSorted(timers, q.queue, p, id);
  }

  lemma InsertKeeps(q: TQ, id: nat)
    requires Known(q.timers, q.queue) && Sorted(q.timers, q.queue)
    requires forall x | x in q.queue :: q.timers[x].serial < q.stamp
    requires id in q.timers && id !in q.queue
    ensures var r := Insert(q, id);
      && Known(r.timers, r.queue) && Sorted(r.timers, r.queue)
      && (forall x | x in r.queue :: r.timers[x].serial < r.stamp)
      && (forall x :: x in r.queue <==> x in q.queue || x == id)
  {
    InsertMembers(q, id);
    InsertSortedly(q, id);
  }

  // ---- the calls --------------------------------------------------------------------------------------------------

  /** `timer_start` with the clock at `now`. */
  function StartTimer(q: TQ, id: nat, itv: nat, irt: nat, now: nat): TQ
    requires Known(q.timers, q.queue) && id in q.timers
  {
    var t := q.timers[id];
    if t.calling then
      q.(timers := q.timers[id := t.(restart := true, deadline := t.deadline + itv, repeat := irt)])
    else
      var renewed := Timer(now + itv, irt, false, false, false, false, t.serial);
      var r := q.(queue := Unlink(q.queue, id), timers := q.timers[id := renewed]);
      UnlinkKnown(q.timers, q.queue, id);
      SetAlarm(Insert(r, id))
  }

  lemma UnlinkKnown(timers: map<nat, Timer>, s: seq<nat>, id: nat)
    requires Known(timers, s)
    ensures Known(timers, Unlink(s, id))
  {
    var i := UnlinkIs(s, id);
  }

  /** `timer_stop`. */
  function StopTimer(q: TQ, id: nat): TQ
    requires Known(q.timers, q.queue) && id in q.timers
  {
    var t := q.timers[id];
    if id in q.queue then
      UnlinkKnown(q.timers, q.queue, id);
      SetAlarm(q.(queue := Unlink(q.queue, id)))
    else if t.calling then q.(timers := q.timers[id := t.(stopped := true)])
    else q
  }

  /** `timer_delete`: a timer in its callback is only marked. */
  function DeleteTimer(q: TQ, id: nat): TQ
    requires Known(q.timers, q.queue) && id in q.timers
  {
    var t := q.timers[id];
    if id in q.queue then
      var r := StopTimer(q, id);
      r.(timers := r.timers - {id})
    else if t.calling then q.(timers := q.timers[id := t.(deleted := true)])
    else q.(timers := q.timers - {id})
  }

  /** A call a callback may make; `late` is how far the clock has moved on when `timer_start` reads it. */
  datatype Call = Start(tid: nat, itv: nat, irt: nat, late: nat) | Stop(tid: nat) | Delete(tid: nat)

  /** One call made while the clock of the running event shows `curr`. Callers hold no freed timer, so a call on
      a timer that is not allocated does not occur; here it has no effect. */
  function Apply(q: TQ, c: Call, curr: nat): TQ
    requires Known(q.timers, q.queue)
  {
    if c.tid !in q.timers then q
    else
      match c
      case Start(id, itv, irt, late) => StartTimer(q, id, itv, irt, curr + late)
      case Stop(id) => StopTimer(q, id)
      case Delete(id) => DeleteTimer(q, id)
  }

  lemma StartKeeps(q: TQ, busy: set<nat>, id: nat, itv: nat, irt: nat, now: nat)
    requires Valid(q, busy) && id in q.timers
    ensures Valid(StartTimer(q, id, itv, irt, now), busy)
    ensures id !in busy ==> AlarmSet(StartTimer(q, id, itv, irt, now))
  {
    var t := q.timers[id];
    if !t.calling {
      UnlinkKeeps(q.timers, q.queue, id);
      var renewed := Timer(now + itv, irt, false, false, false, false, t.serial);
      var r := q.(queue := Unlink(q.queue, id), timers := q.timers[id := renewed]);
      InsertKeeps(r, id);
    }
  }

  lemma StopKeeps(q: TQ, busy: set<nat>, id: nat)
    requires Valid(q, busy) && id in q.timers
    ensures Valid(StopTimer(q, id), busy)
    ensures AlarmSet(q) ==> AlarmSet(StopTimer(q, id))
  {
    UnlinkKeeps(q.timers, q.queue, id);
  }

  lemma DeleteKeeps(q: TQ, busy: set<nat>, id: nat)
    requires Valid(q, busy) && id in q.timers
    ensures Valid(DeleteTimer(q, id), busy)
    ensures AlarmSet(q) ==> AlarmSet(DeleteTimer(q, id))
    ensures id !in busy ==> id !in DeleteTimer(q, id).timers && id !in DeleteTimer(q, id).queue
  {
    if id in q.queue {
      StopKeeps(q, busy, id);
      UnlinkKeeps(q.timers, q.queue, id);
      FreeUnqueued(StopTimer(q, id), busy, id);
    } else if !q.timers[id].calling {
      FreeUnqueued(q, busy, id);
    }
  }

  lemma FreeUnqueued(q: TQ, busy: set<nat>, id: nat)
    requires Valid(q, busy) && id !in q.queue && id !in busy
    ensures var r := q.(timers := q.timers - {id}); Valid(r, busy) && (AlarmSet(q) ==> AlarmSet(r))
  {
  }

  lemma ApplyKeeps(q: TQ, busy: set<nat>, c: Call, curr: nat)
    requires Valid(q, busy)
    ensures Valid(Apply(q, c, curr), busy)
  {
    var r := Apply(q, c, curr);
    if c.tid in q.timers {
      if c.Start? {
        StartKeeps(q, busy, c.tid, c.itv, c.irt, curr + c.late);
        assert r == StartTimer(q, c.tid, c.itv, c.irt, curr + c.late);
      } else if c.Stop? {
        StopKeeps(q, busy, c.tid);
        assert r == StopTimer(q, c.tid);
      } else {
        DeleteKeeps(q, busy, c.tid);
        assert r == DeleteTimer(q, c.tid);
      }
    }
  }

  // ---- the event --------------------------------------------------------------------------------------------------

  function ApplyAll(q: TQ, busy: set<nat>, cs: seq<Call>, curr: nat): (r: TQ)
    requires Valid(q, busy)
    ensures Valid(r, busy)
    decreases |cs|
  {
    if cs == [] then q
    else
      ApplyKeeps(q, busy, cs[0], curr);
      ApplyAll(Apply(q, cs[0], curr), busy, cs[1..], curr)
  }

  /** The head of the list leaves it and enters its callback. */
  function Begin(q: TQ): (r: TQ)
    requires Valid(q, {}) && q.queue != []
    ensures Valid(r, {q.queue[0]})
  {
    var id := q.queue[0];
    var t := q.timers[id].(calling := true, deleted := false, stopped := false, restart := false);
    assert forall i | 0 < i < |q.queue| :: Before(q.timers, q.queue[0], q.queue[i]);
    q.(queue := q.queue[1..], timers := q.timers[id := t])
  }

  /** What becomes of a timer when its callback returns: delete over stop over restart over repeat over idle. */
  function Settle(q: TQ, id: nat): (r: TQ)
    requires Valid(q, {id})
    ensures Valid(r, {})
  {
    var t := q.timers[id];
    var idle := t.(calling := false, deleted := false, stopped := false, restart := false);
    if t.deleted then q.(timers := q.timers - {id})
    else if t.stopped then q.(timers := q.timers[id := idle])
    else if t.restart then Requeue(q, id, idle)
    else if t.repeat != 0 then Requeue(q, id, idle.(deadline := idle.deadline + idle.repeat))
    else q.(timers := q.timers[id := idle])
  }

  function Requeue(q: TQ, id: nat, t: Timer): (r: TQ)
    requires Valid(q, {id}) && Clear(t)
    ensures Valid(r, {})
  {
    var r := q.(timers := q.timers[id := t]);
    InsertKeeps(r, id);
    Insert(r, id)
  }

  /** One turn of the loop: fire the head, whose callback makes the calls `cs`. */
  function Fire(q: TQ, cs: seq<Call>, curr: nat): (r: TQ)
    requires Valid(q, {}) && q.queue != []
    ensures Valid(r, {})
  {
    var id := q.queue[0];
    Settle(ApplyAll(Begin(q), {id}, cs, curr), id)
  }

  // ---- termination ------------------------------------------------------------------------------------------------

  predicate Positive(cs: seq<Call>) {
    forall c | c in cs && c.Start? :: c.itv >= 1
  }

  /** How far timer `id` is overdue at `curr`. */
  function Overdue(timers: map<nat, Timer>, id: nat, curr: nat): nat
    requires id in timers
  {
    if timers[id].deadline <= curr then curr + 1 - timers[id].deadline else 0
  }

  function Work(timers: map<nat, Timer>, s: seq<nat>, curr: nat): nat
    requires Known(timers, s)
  {
    if s == [] then 0 else Overdue(timers, s[0], curr) + Work(timers, s[1..], curr)
  }

  lemma {:induction false} WorkConcat(timers: map<nat, Timer>, s: seq<nat>, t: seq<nat>, curr: nat)
    requires Known(timers, s) && Known(timers, t)
    ensures Known(timers, s + t) && Work(timers, s + t, curr) == Work(timers, s, curr) + Work(timers, t, curr)
  {
    if s == [] {
      assert s + t == t;
    } else {
      WorkConcat(timers, s[1..], t, curr);
      assert (s + t)[1..] == s[1..] + t;
    }
  }

  lemma {:induction false} WorkSame(timers: map<nat, Timer>, timers': map<nat, Timer>, s: seq<nat>, curr: nat)
    requires Known(timers, s) && Known(timers', s)
    requires forall id | id in s :: timers'[id].deadline == timers[id].deadline
    ensures Work(timers', s, curr) == Work(timers, s, curr)
  {
    if s != [] {
      WorkSame(timers, timers', s[1..], curr);
    }
  }

  lemma WorkUnlink(timers: map<nat, Timer>, s: seq<nat>, id: nat, curr: nat)
    requires Known(timers, s)
    ensures Known(timers, Unlink(s, id)) && Work(timers, Unlink(s, id), curr) <= Work(timers, s, curr)
  {
    var i := UnlinkIs(s, id);
    if id in s {
      WorkConcat(timers, s[..i], s[i + 1..], curr);
      WorkConcat(timers, [s[i]], s[i + 1..], curr);
      WorkConcat(timers, s[..i], [s[i]] + s[i + 1..], curr);
      assert s == s[..i] + ([s[i]] + s[i + 1..]);
    }
  }

  lemma WorkInsert(q: TQ, id: nat, curr: nat)
    requires Known(q.timers, q.queue) && id in q.timers && id !in q.queue
    ensures var r := Insert(q, id);
      Known(r.timers, r.queue) &&
      Work(r.timers, r.queue, curr) == Work(q.timers, q.queue, curr) + Overdue(q.timers, id, curr)
  {
    var r, s := Insert(q, id), q.queue;
    var p := Place(q.timers, s, q.timers[id].deadline);
    WorkSame(q.timers, r.timers, s, curr);
    WorkConcat(r.timers, s[..p], s[p..], curr);
    assert s == s[..p] + s[p..];
    WorkConcat(r.timers, [id], s[p..], curr);
    WorkConcat(r.timers, s[..p], [id] + s[p..], curr);
    assert r.queue == s[..p] + ([id] + s[p..]);
    assert Work(r.timers, [id], curr) == Overdue(r.timers, id, curr) + Work(r.timers, [], curr);
  }

  /** Calls made while firing leave no more overdue work than there was, and move the firing timer only later. */
  lemma ApplyWork(q: TQ, busy: nat, c: Call, curr: nat)
    requires Valid(q, {busy}) && (c.Start? ==> c.itv >= 1)
    ensures var r := Apply(q, c, curr);
      && Valid(r, {busy})
      && Work(r.timers, r.queue, curr) <= Work(q.timers, q.queue, curr)
      && var t, t' := q.timers[busy], r.timers[busy];
         && t'.deadline >= t.deadline
         && (t'.restart ==> t.restart || t'.deadline > t.deadline)
  {
    ApplyKeeps(q, {busy}, c, curr);
    var r := Apply(q, c, curr);
    var id := c.tid;
    if id in q.timers {
      WorkUnlink(q.timers, q.queue, id, curr);
      UnlinkKeeps(q.timers, q.queue, id);
      if c.Start? && id != busy {
        var t := Timer(curr + c.late + c.itv, c.irt, false, false, false, false, q.timers[id].serial);
        var u := q.(queue := Unlink(q.queue, id), timers := q.timers[id := t]);
        WorkSame(q.timers, u.timers, u.queue, curr);
        WorkInsert(u, id, curr);
      } else {
        WorkSame(q.timers, r.timers, r.queue, curr);
      }
    }
  }

  lemma {:induction false} ApplyAllWork(q: TQ, busy: nat, cs: seq<Call>, curr: nat)
    requires Valid(q, {busy}) && Positive(cs)
    ensures var r := ApplyAll(q, {busy}, cs, curr);
      && Work(r.timers, r.queue, curr) <= Work(q.timers, q.queue, curr)
      && var t, t' := q.timers[busy], r.timers[busy];
         && t'.deadline >= t.deadline
         && (t'.restart ==> t.restart || t'.deadline > t.deadline)
    decreases |cs|
  {
    if cs != [] {
      ApplyWork(q, busy, cs[0], curr);
      assert forall c | c in cs[1..] :: c in cs;
      ApplyAllWork(Apply(q, cs[0], curr), busy, cs[1..], curr);
    }
  }

  lemma RequeueWork(q: TQ, id: nat, t: Timer, curr: nat)
    requires Valid(q, {id}) && Clear(t)
    ensures var r := Requeue(q, id, t);
      Work(r.timers, r.queue, curr) ==
        Work(q.timers, q.queue, curr) + if t.deadline <= curr then curr + 1 - t.deadline else 0
  {
    var u := q.(timers := q.timers[id := t]);
    WorkSame(q.timers, u.timers, q.queue, curr);
    WorkInsert(u, id, curr);
  }

  predicate Resting(t: Timer) {
    t.deleted || t.stopped || (!t.restart && t.repeat == 0)
  }

  lemma RestingWork(q: TQ, id: nat, curr: nat)
    requires Valid(q, {id}) && Resting(q.timers[id])
    ensures var r := Settle(q, id); Work(r.timers, r.queue, curr) == Work(q.timers, q.queue, curr)
  {
    WorkSame(q.timers, Settle(q, id).timers, q.queue, curr);
  }

  /** What goes back into the queue if the timer is not resting. */
  function Renewed(t: Timer): Timer {
    var idle := t.(calling := false, deleted := false, stopped := false, restart := false);
    if t.restart then idle else idle.(deadline := idle.deadline + idle.repeat)
  }

  lemma SettleRequeues(q: TQ, id: nat)
    requires Valid(q, {id}) && !Resting(q.timers[id])
    ensures Settle(q, id) == Requeue(q, id, Renewed(q.timers[id]))
  {
  }

  /** A timer that goes back into the queue does so with a later deadline than the one it fired for. */
  lemma SettleWork(q: TQ, id: nat, d: nat, curr: nat)
    requires Valid(q, {id}) && d <= q.timers[id].deadline && d <= curr
    requires q.timers[id].restart ==> d < q.timers[id].deadline
    ensures var r := Settle(q, id);
      Work(r.timers, r.queue, curr) <= Work(q.timers, q.queue, curr) + (curr - d)
  {
    if Resting(q.timers[id]) {
      RestingWork(q, id, curr);
    } else {
      SettleRequeues(q, id);
      RequeueWork(q, id, Renewed(q.timers[id]), curr);
    }
  }

  /** Every turn of the loop reduces the total time by which queued timers are overdue. */
  lemma FireWork(q: TQ, cs: seq<Call>, curr: nat)
    requires Valid(q, {}) && q.queue != [] && Positive(cs)
    requires q.timers[q.queue[0]].deadline <= curr
    ensures var r := Fire(q, cs, curr);
      Work(r.timers, r.queue, curr) < Work(q.timers, q.queue, curr)
  {
    var id := q.queue[0];
    var b := Begin(q);
    WorkSame(q.timers, b.timers, b.queue, curr);
    ApplyAllWork(b, id, cs, curr);
    SettleWork(ApplyAll(b, {id}, cs, curr), id, q.timers[id].deadline, curr);
  }

  // ---- the event routine ------------------------------------------------------------------------------------------

  /** A firing: which timer, and the deadline it fired for. */
  datatype Firing = Firing(tid: nat, deadline: nat)

  /** `timer_queue_event` with the clock at `curr`. Callbacks are a state machine: `cb` takes the environment and
      the timer fired to a new environment and the calls the callback makes. */
  function Drain<E(!new)>(q: TQ, env: E, curr: nat, cb: (E, nat) -> (E, seq<Call>)): (TQ, E, seq<Firing>)
    requires Valid(q, {}) && forall e: E, id: nat :: Positive(cb(e, id).1)
    decreases Work(q.timers, q.queue, curr)
  {
    if q.queue == [] then (q.(alarm := 0), env, [])
    else
      var id := q.queue[0];
      var d := q.timers[id].deadline;
      if d > curr then (q.(alarm := d), env, [])
      else
        var (env', cs) := cb(env, id);
        FireWork(q, cs, curr);
        var (r, e, fired) := Drain(Fire(q, cs, curr), env', curr, cb);
        (r, e, [Firing(id, d)] + fired)
  }
}
