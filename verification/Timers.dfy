/** The timer calls as they are coded, over the list, the nodes and the alarm they update in place. */
module Timers {
  import opened TimerQueue

  /** The outcome of an event, with firings that came before put in front. */
  ghost function Onward<E>(fired: seq<Firing>, out: (TQ, E, seq<Firing>)): (TQ, E, seq<Firing>) {
    (out.0, out.1, fired + out.2)
  }

  lemma DrainStops<E(!new)>(q: TQ, env: E, curr: nat, cb: (E, nat) -> (E, seq<Call>), fired: seq<Firing>)
    requires Valid(q, {}) && forall e: E, id: nat :: Positive(cb(e, id).1)
    requires q.queue == [] || q.timers[q.queue[0]].deadline > curr
    ensures var alarm := if q.queue == [] then 0 else q.timers[q.queue[0]].deadline;
      Onward(fired, Drain(q, env, curr, cb)) == (q.(alarm := alarm), env, fired)
  {
    assert fired + [] == fired;
  }

  lemma DrainTurn<E(!new)>(q: TQ, env: E, curr: nat, cb: (E, nat) -> (E, seq<Call>), fired: seq<Firing>)
    requires Valid(q, {}) && forall e: E, id: nat :: Positive(cb(e, id).1)
    requires q.queue != [] && q.timers[q.queue[0]].deadline <= curr
    ensures var id := q.queue[0];
      var (env', cs) := cb(env, id);
      Onward(fired, Drain(q, env, curr, cb)) ==
        Onward(fired + [Firing(id, q.timers[id].deadline)], Drain(Fire(q, cs, curr), env', curr, cb))
  {
    var (env', cs) := cb(env, q.queue[0]);
    var f := Firing(q.queue[0], q.timers[q.queue[0]].deadline);
    var rest := Drain(Fire(q, cs, curr), env', curr, cb).2;
    assert fired + ([f] + rest) == fired + [f] + rest;
  }

  class TimerContext {
    var list: seq<nat>
    var nodes: map<nat, Timer>
    var nxtTick: nat
    var stamp: nat
    ghost var busy: set<nat>

    ghost function Queue(): TQ
      reads this
    {
      TQ(list, nodes, nxtTick, stamp)
    }

    ghost predicate Ok()
      reads this
    {
      Valid(Queue(), busy)
    }

    /** `timer_queue_init`. */
    constructor ()
      ensures Ok() && busy == {} && Queue() == TQ([], map[], 0, 0)
    {
      list, nodes, nxtTick, stamp, busy := [], map[], 0, 0, {};
    }

    /** `timer_create`: the allocator hands out a node that is not in use. */
    method Create(id: nat)
      requires Ok() && id !in nodes
      modifies this
      ensures Ok() && busy == old(busy)
      ensures Queue() == old(Queue()).(timers := old(nodes)[id := Timer(0, 0, false, false, false, false, 0)])
    {
      nodes := nodes[id := Timer(0, 0, false, false, false, false, 0)];
    }

    /** The walk over the list, and `list_add_before`. */
    method InsertSorted(id: nat)
      requires Known(nodes, list) && id in nodes
      modifies this`list, this`nodes, this`stamp
      ensures Queue() == Insert(old(Queue()), id)
    {
      var d := nodes[id].deadline;
      var p := 0;
      while p < |list| && nodes[list[p]].deadline <= d
        invariant p <= |list| && Place(nodes, list, d) == p + Place(nodes, list[p..], d)
      {
        assert list[p..][1..] == list[p + 1..];
        p := p + 1;
      }
      list := list[..p] + [id] + list[p..];
      nodes := nodes[id := nodes[id].(serial := stamp)];
      stamp := stamp + 1;
    }

    /** Program the hardware for the head of the list, if it is not programmed for it already. */
    method Rearm()
      requires Known(nodes, list)
      modifies this`nxtTick
      ensures Queue() == SetAlarm(old(Queue()))
    {
      if list != [] && nxtTick != nodes[list[0]].deadline {
        nxtTick := nodes[list[0]].deadline;
      }
    }

    /** `timer_start`. */
    method Start(id: nat, itv: nat, irt: nat, now: nat)
      requires Ok() && id in nodes
      modifies this
      ensures Ok() && busy == old(busy)
      ensures Queue() == StartTimer(old(Queue()), id, itv, irt, now)
    {
      StartKeeps(Queue(), busy, id, itv, irt, now);
      var t := nodes[id];
      if t.calling {
        nodes := nodes[id := t.(restart := true, deadline := t.deadline + itv, repeat := irt)];
        return;
      }
      UnlinkKeeps(nodes, list, id);
      if id in list {
        list := Unlink(list, id);
      } else {
        ghost var i := UnlinkIs(list, id);
      }
      nodes := nodes[id := Timer(now + itv, irt, false, false, false, false, t.serial)];
      InsertSorted(id);
      Rearm();
    }

    /** `timer_stop`. */
    method Stop(id: nat)
      requires Ok() && id in nodes
      modifies this
      ensures Ok() && busy == old(busy)
      ensures Queue() == StopTimer(old(Queue()), id)
    {
      StopKeeps(Queue(), busy, id);
      UnlinkKeeps(nodes, list, id);
      if id in list {
        list := Unlink(list, id);
        Rearm();
      } else if nodes[id].calling {
        nodes := nodes[id := nodes[id].(stopped := true)];
      }
    }

    /** `timer_delete`. */
    method Delete(id: nat)
      requires Ok() && id in nodes
      modifies this
      ensures Ok() && busy == old(busy)
      ensures Queue() == DeleteTimer(old(Queue()), id)
    {
      DeleteKeeps(Queue(), busy, id);
      if id in list {
        Stop(id);
        nodes := nodes - {id};
      } else if nodes[id].calling {
        nodes := nodes[id := nodes[id].(deleted := true)];
      } else {
        nodes := nodes - {id};
      }
    }

    /** The calls of one callback, one after the other. */
    method Callback(cs: seq<Call>, curr: nat)
      requires Ok()
      modifies this
      ensures Ok() && busy == old(busy)
      ensures Queue() == ApplyAll(old(Queue()), old(busy), cs, curr)
    {
      ghost var all := ApplyAll(Queue(), busy, cs, curr);
      for i := 0 to |cs|
        invariant Ok() && busy == old(busy)
        invariant ApplyAll(Queue(), busy, cs[i..], curr) == all
      {
        assert cs[i..][0] == cs[i] && cs[i..][1..] == cs[i + 1..];
        MakeCall(cs[i], curr);
      }
    }

    method MakeCall(c: Call, curr: nat)
      requires Ok()
      modifies this
      ensures Ok() && busy == old(busy)
      ensures Queue() == Apply(old(Queue()), c, curr)
    {
      if c.tid !in nodes {
        return;
      }
      ghost var called := Apply(Queue(), c, curr);
      match c {
        case Start(id, itv, irt, late) => Start(id, itv, irt, curr + late);
        case Stop(id) => Stop(id);
        case Delete(id) => Delete(id);
      }
      assert Queue() == called;
    }

    /** `timer_queue_event`. */
    method Event<E(!new)>(env: E, curr: nat, cb: (E, nat) -> (E, seq<Call>)) returns (env': E, fired: seq<Firing>)
      requires Ok() && busy == {} && forall e: E, id: nat :: Positive(cb(e, id).1)
      modifies this
      ensures Ok() && busy == {}
      ensures (Queue(), env', fired) == Drain(old(Queue()), env, curr, cb)
    {
      env', fired := env, [];
      ghost var all := Drain(Queue(), env, curr, cb);
      assert [] + all.2 == all.2;
      while true
        invariant Ok() && busy == {}
        invariant all == Onward(fired, Drain(Queue(), env', curr, cb))
        decreases Work(nodes, list, curr)
      {
        if list == [] {
          DrainStops(Queue(), env', curr, cb, fired);
          nxtTick := 0;
          return;
        }
        var id := list[0];
        var t := nodes[id];
        if t.deadline > curr {
          DrainStops(Queue(), env', curr, cb, fired);
          nxtTick := t.deadline;
          return;
        }
        var (e, cs) := cb(env', id);
        FireWork(Queue(), cs, curr);
        DrainTurn(Queue(), env', curr, cb, fired);
        FireOnce(id, cs, curr);
        fired := fired + [Firing(id, t.deadline)];
        env' := e;
      }
    }

    /** One turn of the loop. */
    method FireOnce(id: nat, cs: seq<Call>, curr: nat)
      requires Ok() && busy == {} && list != [] && id == list[0]
      modifies this
      ensures Ok() && busy == {}
      ensures Queue() == Fire(old(Queue()), cs, curr)
    {
      ghost var begun := Begin(Queue());
      list := list[1..];
      nodes := nodes[id := nodes[id].(calling := true, deleted := false, stopped := false, restart := false)];
      busy := {id};
      assert Queue() == begun;
      Callback(cs, curr);
      AfterCallback(id);
    }

    /** The end of the turn: what the flags the callback left say. */
    method AfterCallback(id: nat)
      requires Ok() && busy == {id}
      modifies this
      ensures Ok() && busy == {}
      ensures Queue() == Settle(old(Queue()), id)
    {
      ghost var settled := Settle(Queue(), id);
      var t := nodes[id];
      var idle := t.(calling := false, deleted := false, stopped := false, restart := false);
      busy := {};
      if t.deleted {
        nodes := nodes - {id};
      } else if t.stopped {
        nodes := nodes[id := idle];
      } else if t.restart {
        nodes := nodes[id := idle];
        InsertSorted(id);
      } else if t.repeat != 0 {
        nodes := nodes[id := idle.(deadline := t.deadline + t.repeat)];
        InsertSorted(id);
      } else {
        nodes := nodes[id := idle];
      }
      assert Queue() == settled;
    }
  }
}
