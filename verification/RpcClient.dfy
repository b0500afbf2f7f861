/** The client side of the RPC layer on top of the timer queue: a request is sent, sent again each time its timer
    fires, and given up with a NULL callback when its retries are used up. */
module RpcClient {
  import opened TimerQueue

  type pos = n: nat | n >= 1 witness 1

  /** An outstanding request, known by its timer. */
  datatype Request = Request(dstnd: nat, srvid: nat, sessn: nat, retry: int, tmout: pos)

  /** `req_list`, and a record of what happened: every transmission, every callback with NULL and every deletion, by
      timer; `turn` counts callbacks, so that outside behaviour can depend on it. */
  datatype Client = Client(reqs: map<nat, Request>, sent: seq<nat>, nulls: seq<nat>, dropped: seq<nat>, turn: nat)

  /** `rpc_delete_request`, but for the timer. */
  function Drop(c: Client, id: nat): Client {
    c.(reqs := c.reqs - {id}, dropped := c.dropped + [id])
  }

  /** What the rest of the system does: whether the `k`-th turn's transmission succeeds, and the calls another
      timer's callback makes in it. */
  datatype World = World(sends: nat -> bool, others: nat -> seq<Call>)

  /** `rqc_request_tout`. A self-restart keeps the timer, giving up deletes request and timer together. */
  function Timeout(c: Client, id: nat, ok: bool): (Client, seq<Call>)
    requires id in c.reqs
  {
    var r := c.reqs[id];
    var left := r.retry - 1;
    if left < 0 || !ok then
      (Drop(c, id).(nulls := c.nulls + [id], turn := c.turn + 1), [Call.Delete(id)])
    else
      (c.(reqs := c.reqs[id := r.(retry := left)], sent := c.sent + [id], turn := c.turn + 1),
       [Call.Start(id, r.tmout, 0, 0)])
  }

  /** The callback table of the client's thread: a request's timer times the request out. */
  function OnTimer(w: World): (Client, nat) -> (Client, seq<Call>) {
    (c: Client, id: nat) =>
      if id in c.reqs then Timeout(c, id, w.sends(c.turn))
      else (c.(turn := c.turn + 1), w.others(c.turn))
  }

  /** `rpc_request_send` with a successful transmission: the request is listed and its timer started. */
  function Send(q: TQ, c: Client, id: nat, r: Request, now: nat): (TQ, Client)
    requires Known(q.timers, q.queue) && id !in q.timers
  {
    var created := q.(timers := q.timers[id := Timer(0, 0, false, false, false, false, 0)]);
    (StartTimer(created, id, r.tmout, 0, now), c.(reqs := c.reqs[id := r], sent := c.sent + [id]))
  }

  /** The response branch of `rpc_proc_input` once the request is found: it is deleted if its callback returns 0. */
  function Respond(q: TQ, c: Client, id: nat, done: bool): (TQ, Client)
    requires Known(q.timers, q.queue) && id in c.reqs && id in q.timers
  {
    if done then (DeleteTimer(q, id), Drop(c, id)) else (q, c)
  }

  /** The list and the counters as the callbacks update them. */
  class RequestList {
    var reqs: map<nat, Request>
    var sent: seq<nat>
    var nulls: seq<nat>
    var dropped: seq<nat>
    var turn: nat

    ghost function State(): Client
      reads this
    {
      Client(reqs, sent, nulls, dropped, turn)
    }

    constructor ()
      ensures State() == Client(map[], [], [], [], 0)
    {
      reqs, sent, nulls, dropped, turn := map[], [], [], [], 0;
    }

    /** `rpc_delete_request`: the request leaves the list and its timer is deleted. */
    method DeleteRequest(id: nat) returns (call: Call)
      requires id in reqs
      modifies this`reqs, this`dropped
      ensures State() == Drop(old(State()), id) && call == Call.Delete(id)
    {
      reqs := reqs - {id};
      dropped := dropped + [id];
      call := Call.Delete(id);
    }

    /** `rqc_request_tout`; `ok` is whether `rpc_make_request` succeeds. */
    method RequestTimeout(id: nat, ok: bool) returns (calls: seq<Call>)
      requires id in reqs
      modifies this
      ensures (State(), calls) == Timeout(old(State()), id, ok)
    {
      turn := turn + 1;
      var left := reqs[id].retry - 1;
      reqs := reqs[id := reqs[id].(retry := left)];
      if left < 0 || !ok {
        nulls := nulls + [id];
        var call := DeleteRequest(id);
        assert reqs == old(reqs) - {id};
        return [call];
      }
      sent := sent + [id];
      return [Call.Start(id, reqs[id].tmout, 0, 0)];
    }
  }
}
