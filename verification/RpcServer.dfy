/** The server side of the RPC layer: `rpc_proc_input` runs a service once for each new request and answers a
    repeated one from the response it kept. */
module RpcServer {
  import opened Bytes

  const RESPONSE_BIT: nat := 0x8000_0000
  const MAX_BODY: nat := 1500

  /** A received frame: its length, type octet, sender, destination, and the RPC header and message. */
  datatype Frame = Frame(length: nat, kind: nat, snode: nat, dnode: nat, srvid: nat, sessn: nat, msg: seq<byte>)

  datatype Response = Response(dnode: nat, srvid: nat, sessn: nat, status: nat, body: seq<byte>)

  /** `srv_session`: the last sender seen, the last request's key, and the response kept for it. */
  datatype Session = Session(srcnd: nat, srvid: nat, sessn: nat, body: seq<byte>)

  /** The run of a service: for whom, and for which request. */
  datatype Execution = Execution(srcnd: nat, srvid: nat, sessn: nat)

  /** A service, as far as the layer sees it: the bodies it passes to `rpc_respond_send`, given how many executions
      came before, the sender and the message. */
  type Service = (nat, nat, seq<byte>) -> seq<seq<byte>>

  datatype Server = Server(session: Session, ran: seq<Execution>)

  const INITIAL: Server := Server(Session(0, 0xFFFF_FFFF, 0xFFFF_FFFF, []), [])

  predicate Accepted(tnd: nat, f: Frame) {
    f.length >= 17 && f.kind == 0x18 && (f.dnode == tnd || f.dnode == 0xFF)
  }

  predicate IsRequest(f: Frame) {
    f.srvid < RESPONSE_BIT
  }

  /** `rpc_make_respond(0)`. */
  function MakeRespond(s: Session): Response {
    Response(s.srcnd, s.srvid + RESPONSE_BIT, s.sessn, 0, s.body)
  }

  /** `rpc_respond_send`: refused once a non-empty response is kept, or when too long. */
  function RespondSend(s: Session, body: seq<byte>): (Session, seq<Response>) {
    if s.body != [] || |body| > MAX_BODY then (s, [])
    else
      var t := s.(body := body);
      (t, [MakeRespond(t)])
  }

  function RespondAll(s: Session, bodies: seq<seq<byte>>): (Session, seq<Response>)
    decreases |bodies|
  {
    if bodies == [] then (s, [])
    else
      var (t, out) := RespondSend(s, bodies[0]);
      var (u, more) := RespondAll(t, bodies[1..]);
      (u, out + more)
  }

  /** One frame through `rpc_proc_input`, responses to this node's own requests left to the client side. */
  function Input(services: map<nat, Service>, tnd: nat, v: Server, f: Frame): (Server, seq<Response>) {
    if !Accepted(tnd, f) then (v, [])
    else
      var s := v.session.(srcnd := f.snode);
      if !IsRequest(f) then (v.(session := s), [])
      else if s.srvid == f.srvid && s.sessn == f.sessn then (v.(session := s), [MakeRespond(s)])
      else
        var t := Session(f.snode, f.srvid, f.sessn, []);
        if f.srvid in services then
          var (u, out) := RespondAll(t, services[f.srvid](|v.ran|, f.snode, f.msg));
          (Server(u, v.ran + [Execution(f.snode, f.srvid, f.sessn)]), out)
        else (v.(session := t), [MakeRespond(t)])
  }

  /** The session as the callbacks update it. */
  class RpcEndpoint {
    const services: map<nat, Service>
    var srcnd: nat
    var srvid: nat
    var sessn: nat
    var pmsg: seq<byte>
    var ran: seq<Execution>

    ghost function State(): Server
      reads this
    {
      Server(Session(srcnd, srvid, sessn, pmsg), ran)
    }

    /** `rpc_init` and the services registered afterwards. */
    constructor (registered: map<nat, Service>)
      ensures State() == INITIAL && services == registered
    {
      services := registered;
      srcnd, srvid, sessn, pmsg, ran := 0, 0xFFFF_FFFF, 0xFFFF_FFFF, [], [];
    }

    method Respond() returns (r: Response)
      ensures r == MakeRespond(State().session)
    {
      r := Response(srcnd, srvid + RESPONSE_BIT, sessn, 0, pmsg);
    }

    /** `rpc_respond_send`. */
    method SendResponse(body: seq<byte>) returns (status: nat, out: seq<Response>)
      modifies this`pmsg
      ensures (State().session, out) == RespondSend(old(State().session), body) && ran == old(ran)
      ensures status == if |old(pmsg)| != 0 then 1 else if |body| > MAX_BODY then 2 else 0
    {
      if |pmsg| != 0 {
        return 1, [];
      }
      if |body| > MAX_BODY {
        return 2, [];
      }
      pmsg := body;
      var r := Respond();
      return 0, [r];
    }

    /** The service's calls, one after the other. */
    method RunService(bodies: seq<seq<byte>>) returns (sent: seq<Response>)
      modifies this`pmsg
      ensures (State().session, sent) == RespondAll(old(State().session), bodies) && ran == old(ran)
    {
      sent := [];
      ghost var all := RespondAll(State().session, bodies);
      for i := 0 to |bodies|
        invariant var (u, more) := RespondAll(State().session, bodies[i..]);
                  all.0 == u && all.1 == sent + more
        invariant ran == old(ran)
      {
        assert bodies[i..][0] == bodies[i] && bodies[i..][1..] == bodies[i + 1..];
        var _, out := SendResponse(bodies[i]);
        sent := sent + out;
      }
      assert bodies[|bodies|..] == [] && sent + [] == sent;
    }

    /** The loop body of `rpc_proc_input`. */
    method ProcInput(tnd: nat, f: Frame) returns (out: seq<Response>)
      modifies this
      ensures (State(), out) == Input(services, tnd, old(State()), f)
    {
      if f.length < 17 || f.kind != 0x18 || (f.dnode != tnd && f.dnode != 0xFF) {
        return [];
      }
      srcnd := f.snode;
      if f.srvid >= RESPONSE_BIT {
        return [];
      }
      if srvid == f.srvid && sessn == f.sessn {
        var r := Respond();
        return [r];
      }
      srvid, sessn, pmsg := f.srvid, f.sessn, [];
      if f.srvid in services {
        var bodies := services[f.srvid](|ran|, f.snode, f.msg);
        out := RunService(bodies);
        ran := ran + [Execution(f.snode, f.srvid, f.sessn)];
      } else {
        var r := Respond();
        return [r];
      }
    }
  }

  // ---- executions -------------------------------------------------------------------------------------------------

  /** The server after the frames `fs`, in order. */
  function After(services: map<nat, Service>, tnd: nat, fs: seq<Frame>): Server {
    if fs == [] then INITIAL
    else Input(services, tnd, After(services, tnd, fs[..|fs| - 1]), fs[|fs| - 1]).0
  }

  /** The responses the last of the frames causes. */
  function LastOut(services: map<nat, Service>, tnd: nat, fs: seq<Frame>): seq<Response>
    requires fs != []
  {
    Input(services, tnd, After(services, tnd, fs[..|fs| - 1]), fs[|fs| - 1]).1
  }

  /** The accepted requests among the frames. */
  function Requests(tnd: nat, fs: seq<Frame>): seq<Execution> {
    if fs == [] then []
    else
      var f := fs[|fs| - 1];
      Requests(tnd, fs[..|fs| - 1]) +
        if Accepted(tnd, f) && IsRequest(f) then [Execution(f.snode, f.srvid, f.sessn)] else []
  }

  predicate SameKey(a: Execution, b: Execution) {
    a.srvid == b.srvid && a.sessn == b.sessn
  }

  /** Adjacent requests with one key collapsed into the first of them, registered services only. */
  function Collapse(services: map<nat, Service>, rs: seq<Execution>): seq<Execution> {
    if rs == [] then []
    else
      var n := |rs| - 1;
      Collapse(services, rs[..n]) +
        if rs[n].srvid !in services || (n > 0 && SameKey(rs[n - 1], rs[n])) then [] else [rs[n]]
  }

  /** The session holds the key of the last request. */
  lemma {:induction false} SessionIsLast(services: map<nat, Service>, tnd: nat, fs: seq<Frame>)
    ensures var s, rs := After(services, tnd, fs).session, Requests(tnd, fs);
      if rs == [] then s.srvid == 0xFFFF_FFFF
      else s.srvid == rs[|rs| - 1].srvid < RESPONSE_BIT && s.sessn == rs[|rs| - 1].sessn
  {
    if fs != [] {
      var n := |fs| - 1;
      SessionIsLast(services, tnd, fs[..n]);
      var v, f := After(services, tnd, fs[..n]), fs[n];
      if Accepted(tnd, f) && IsRequest(f) && f.srvid in services {
        RespondKeepsKey(Session(f.snode, f.srvid, f.sessn, []), services[f.srvid](|v.ran|, f.snode, f.msg));
      }
    }
  }

  lemma {:induction false} RespondKeepsKey(s: Session, bodies: seq<seq<byte>>)
    ensures var t := RespondAll(s, bodies).0;
      t.srvid == s.srvid && t.sessn == s.sessn && t.srcnd == s.srcnd
    decreases |bodies|
  {
    if bodies != [] {
      RespondKeepsKey(RespondSend(s, bodies[0]).0, bodies[1..]);
    }
  }

  /** The service a frame makes run, if any. */
  function Started(services: map<nat, Service>, tnd: nat, s: Session, f: Frame): seq<Execution> {
    if Accepted(tnd, f) && IsRequest(f) && !(s.srvid == f.srvid && s.sessn == f.sessn) && f.srvid in services
    then [Execution(f.snode, f.srvid, f.sessn)]
    else []
  }

  lemma InputRuns(services: map<nat, Service>, tnd: nat, v: Server, f: Frame)
    ensures Input(services, tnd, v, f).0.ran == v.ran + Started(services, tnd, v.session, f)
  {
  }

  lemma CollapseAppend(services: map<nat, Service>, rs: seq<Execution>, e: Execution)
    ensures Collapse(services, rs + [e]) == Collapse(services, rs) +
              if e.srvid !in services || (rs != [] && SameKey(rs[|rs| - 1], e)) then [] else [e]
  {
    assert (rs + [e])[..|rs|] == rs;
  }

  /** Duplicate suppression. For any frames from any nodes, the services run are exactly the requests for registered
      services with adjacent repeats of one key collapsed. */
  lemma {:induction false} RunsOncePerKey(services: map<nat, Service>, tnd: nat, fs: seq<Frame>)
    ensures After(services, tnd, fs).ran == Collapse(services, Requests(tnd, fs))
  {
    if fs != [] {
      var past, f := fs[..|fs| - 1], fs[|fs| - 1];
      RunsOncePerKey(services, tnd, past);
      SessionIsLast(services, tnd, past);
      InputRuns(services, tnd, After(services, tnd, past), f);
      var rs := Requests(tnd, past);
      assert rs + [] == rs;
      CollapseAppend(services, rs, Execution(f.snode, f.srvid, f.sessn));
    }
  }

  // ---- requests of several nodes ----------------------------------------------------------------------------------

  /** `e` repeats the request before it, whoever sent that. This is what the session can tell. */
  predicate RepeatsAny(past: seq<Execution>, e: Execution) {
    past != [] && SameKey(past[|past| - 1], e)
  }

  /** `e` repeats the request its own node sent last. */
  predicate RepeatsOwn(past: seq<Execution>, e: Execution) {
    past != [] &&
    var last := past[|past| - 1];
    if last.srcnd == e.srcnd then SameKey(last, e) else RepeatsOwn(past[..|past| - 1], e)
  }

  /** What a server should run that serves each node for itself: every request for a registered service that is not a
      repeat of the same node's request before it. */
  function Wanted(services: map<nat, Service>, rs: seq<Execution>): seq<Execution> {
    if rs == [] then []
    else
      var n := |rs| - 1;
      Wanted(services, rs[..n]) + if rs[n].srvid !in services || RepeatsOwn(rs[..n], rs[n]) then [] else [rs[n]]
  }

  /** A new request of a node comes right after another node's request with the same key. */
  predicate Shadowed(rs: seq<Execution>, i: nat)
    requires i < |rs|
  {
    i > 0 && rs[i - 1].srcnd != rs[i].srcnd && SameKey(rs[i - 1], rs[i]) && !RepeatsOwn(rs[..i], rs[i])
  }

  /** A node repeats its request after another node's request with a different key. */
  predicate Interleaved(rs: seq<Execution>, i: nat)
    requires i < |rs|
  {
    i > 0 && rs[i - 1].srcnd != rs[i].srcnd && !SameKey(rs[i - 1], rs[i]) && RepeatsOwn(rs[..i], rs[i])
  }

  predicate Mixed(services: map<nat, Service>, rs: seq<Execution>) {
    exists i | 0 <= i < |rs| :: rs[i].srvid in services && (Shadowed(rs, i) || Interleaved(rs, i))
  }

  /** The two notions of a repeat differ exactly on those requests. */
  lemma RepeatsDiffer(rs: seq<Execution>, i: nat)
    requires i < |rs|
    ensures RepeatsAny(rs[..i], rs[i]) != RepeatsOwn(rs[..i], rs[i]) <==> Shadowed(rs, i) || Interleaved(rs, i)
  {
    if i > 0 {
      assert rs[..i][i - 1] == rs[i - 1];
    }
  }

  lemma MixedAppend(services: map<nat, Service>, rs: seq<Execution>, e: Execution)
    ensures Mixed(services, rs + [e]) <==>
      Mixed(services, rs) || (e.srvid in services && RepeatsAny(rs, e) != RepeatsOwn(rs, e))
  {
    var all, n := rs + [e], |rs|;
    assert all[..n] == rs && all[n] == e;
    RepeatsDiffer(all, n);
    forall i | 0 <= i < n
      ensures rs[i] == all[i]
      ensures (Shadowed(all, i) <==> Shadowed(rs, i)) && (Interleaved(all, i) <==> Interleaved(rs, i))
    {
      assert all[..i] == rs[..i];
    }
  }

  lemma WantedAppend(services: map<nat, Service>, rs: seq<Execution>, e: Execution)
    ensures Wanted(services, rs + [e]) ==
      Wanted(services, rs) + if e.srvid !in services || RepeatsOwn(rs, e) then [] else [e]
  {
    assert (rs + [e])[..|rs|] == rs;
  }

  predicate ServedSoFar(services: map<nat, Service>, tnd: nat, fs: seq<Frame>) {
    After(services, tnd, fs).ran == Wanted(services, Requests(tnd, fs))
  }

  /** After these frames, and after every one of them, the services run are the wanted ones. */
  predicate ServesNodes(services: map<nat, Service>, tnd: nat, fs: seq<Frame>) {
    ServedSoFar(services, tnd, fs) && (fs != [] ==> ServesNodes(services, tnd, fs[..|fs| - 1]))
  }

  /** One more request keeps the services run the wanted ones exactly when both notions of a repeat agree on it. */
  lemma OneMoreServed(services: map<nat, Service>, rs: seq<Execution>, e: Execution)
    requires Collapse(services, rs) == Wanted(services, rs)
    ensures Collapse(services, rs + [e]) == Wanted(services, rs + [e]) <==>
      (e.srvid in services ==> RepeatsAny(rs, e) == RepeatsOwn(rs, e))
  {
    CollapseAppend(services, rs, e);
    WantedAppend(services, rs, e);
    var w := Wanted(services, rs);
    assert |w + [e]| != |w + []|;
  }

  /** The key leaves the sender out. So at every moment the services run are each node's requests, its own repeats
      aside, if and only if no request for a registered service is shadowed by another node's request with the same
      key, and none is a repeat interleaved with another node's request. */
  lemma {:induction false} ServesNodesExactly(services: map<nat, Service>, tnd: nat, fs: seq<Frame>)
    ensures ServesNodes(services, tnd, fs) <==> !Mixed(services, Requests(tnd, fs))
  {
    RunsOncePerKey(services, tnd, fs);
    if fs != [] {
      var past, f := fs[..|fs| - 1], fs[|fs| - 1];
      var rs, e := Requests(tnd, past), Execution(f.snode, f.srvid, f.sessn);
      ServesNodesExactly(services, tnd, past);
      RunsOncePerKey(services, tnd, past);
      if Accepted(tnd, f) && IsRequest(f) {
        MixedAppend(services, rs, e);
        if ServesNodes(services, tnd, past) {
          OneMoreServed(services, rs, e);
        }
      } else {
        assert rs + [] == rs;
      }
    }
  }

  /** A single peer is served as it should be: its requests with adjacent repeats of a key collapsed are run. */
  lemma OneNodeServed(services: map<nat, Service>, tnd: nat, fs: seq<Frame>, node: nat)
    requires forall f | f in fs && Accepted(tnd, f) && IsRequest(f) :: f.snode == node
    ensures ServesNodes(services, tnd, fs)
  {
    RequestsOf(tnd, fs, node);
    ServesNodesExactly(services, tnd, fs);
  }

  lemma {:induction false} RequestsOf(tnd: nat, fs: seq<Frame>, node: nat)
    requires forall f | f in fs && Accepted(tnd, f) && IsRequest(f) :: f.snode == node
    ensures forall i | 0 <= i < |Requests(tnd, fs)| :: Requests(tnd, fs)[i].srcnd == node
  {
    if fs != [] {
      RequestsOf(tnd, fs[..|fs| - 1], node);
    }
  }

  function Call11(node: nat, sessn: nat): Frame {
    Frame(17, 0x18, node, 0, 0x11, sessn, [])
  }

  /** What three calls of one service leave run, one after the other. */
  lemma ThreeCalls(services: map<nat, Service>, a: Frame, b: Frame, c: Frame)
    requires forall f | f in {a, b, c} :: Accepted(0, f) && IsRequest(f) && f.srvid in services
    ensures var x, y, z := Execution(a.snode, a.srvid, a.sessn), Execution(b.snode, b.srvid, b.sessn),
                           Execution(c.snode, c.srvid, c.sessn);
      After(services, 0, [a, b, c]).ran ==
        [x] + (if SameKey(x, y) then [] else [y]) + (if SameKey(y, z) then [] else [z])
  {
    var x, y, z := Execution(a.snode, a.srvid, a.sessn), Execution(b.snode, b.srvid, b.sessn),
                   Execution(c.snode, c.srvid, c.sessn);
    assert [a, b, c][..2] == [a, b] && [a, b][..1] == [a] && [a][..0] == [];
    assert Requests(0, [a]) == [] + [x] == [x];
    assert Requests(0, [a, b]) == [x] + [y];
    assert Requests(0, [a, b, c]) == [x] + [y] + [z];
    RunsOncePerKey(services, 0, [a, b, c]);
    CollapseAppend(services, [], x);
    CollapseAppend(services, [x], y);
    CollapseAppend(services, [x] + [y], z);
  }

  /** Two nodes' first requests to one service, both with session number 0: the second is not run. */
  lemma SecondNodeNotServed(services: map<nat, Service>)
    requires 0x11 in services
    ensures After(services, 0, [Call11(1, 0), Call11(2, 0), Call11(2, 1)]).ran ==
              [Execution(1, 0x11, 0), Execution(2, 0x11, 1)]
  {
    ThreeCalls(services, Call11(1, 0), Call11(2, 0), Call11(2, 1));
  }

  /** A node repeats its request after another node's: it is run twice. */
  lemma RepeatRunAgain(services: map<nat, Service>)
    requires 0x11 in services
    ensures After(services, 0, [Call11(1, 0), Call11(2, 5), Call11(1, 0)]).ran ==
              [Execution(1, 0x11, 0), Execution(2, 0x11, 5), Execution(1, 0x11, 0)]
  {
    ThreeCalls(services, Call11(1, 0), Call11(2, 5), Call11(1, 0));
  }

  // ---- repeats ----------------------------------------------------------------------------------------------------

  /** The body of the last response, or no octets if there was none. */
  function LastBody(out: seq<Response>): seq<byte> {
    if out == [] then [] else out[|out| - 1].body
  }

  /** After a service has run, the response kept is the last one sent. */
  lemma {:induction false} KeptIsLastSent(s: Session, bodies: seq<seq<byte>>)
    ensures var (t, out) := RespondAll(s, bodies);
      t.body == if out == [] then s.body else LastBody(out)
    decreases |bodies|
  {
    if bodies != [] {
      var (t, out) := RespondSend(s, bodies[0]);
      KeptIsLastSent(t, bodies[1..]);
      var (u, more) := RespondAll(t, bodies[1..]);
      assert more != [] ==> (out + more)[|out + more| - 1] == more[|more| - 1];
    }
  }

  /** No frame in `fs` from `i` on is a request that is not a repeat of the one before it. */
  ghost predicate NothingNew(tnd: nat, fs: seq<Frame>, key: Execution, i: nat) {
    forall k | i <= k < |fs| && Accepted(tnd, fs[k]) && IsRequest(fs[k]) ::
      fs[k].srvid == key.srvid && fs[k].sessn == key.sessn
  }

  /** Between a request and its repeats the session keeps the key and the response. */
  lemma {:induction false} SessionHolds(services: map<nat, Service>, tnd: nat, fs: seq<Frame>, i: nat, key: Execution)
    requires i <= |fs| && NothingNew(tnd, fs, key, i)
    requires var s := After(services, tnd, fs[..i]).session; s.srvid == key.srvid && s.sessn == key.sessn
    ensures var s, t := After(services, tnd, fs[..i]).session, After(services, tnd, fs).session;
      t.srvid == key.srvid && t.sessn == key.sessn && t.body == s.body
  {
    if i == |fs| {
      assert fs[..i] == fs;
    } else {
      var n := |fs| - 1;
      assert fs[..n][..i] == fs[..i];
      SessionHolds(services, tnd, fs[..n], i, key);
    }
  }

  /** The frame is a request that the session does not take for a repeat. */
  predicate IsNew(tnd: nat, s: Session, f: Frame) {
    Accepted(tnd, f) && IsRequest(f) && !(s.srvid == f.srvid && s.sessn == f.sessn)
  }

  /** A new request leaves its key and the last response sent for it. */
  lemma NewRequestKept(services: map<nat, Service>, tnd: nat, v: Server, f: Frame)
    requires IsNew(tnd, v.session, f)
    ensures var (u, out) := Input(services, tnd, v, f);
      u.session.srvid == f.srvid && u.session.sessn == f.sessn && u.session.body == LastBody(out)
  {
    if f.srvid in services {
      var t, bodies := Session(f.snode, f.srvid, f.sessn, []), services[f.srvid](|v.ran|, f.snode, f.msg);
      KeptIsLastSent(t, bodies);
      RespondKeepsKey(t, bodies);
    }
  }

  lemma RepeatInput(services: map<nat, Service>, tnd: nat, v: Server, g: Frame)
    requires Accepted(tnd, g) && IsRequest(g) && v.session.srvid == g.srvid && v.session.sessn == g.sessn
    ensures Input(services, tnd, v, g).1 == [Response(g.snode, g.srvid + RESPONSE_BIT, g.sessn, 0, v.session.body)]
  {
  }

  /** Each repeat of a request, whatever other frames came in between, is answered with exactly one response: the
      octets of the last response sent when the request was new, or none if there was no response. */
  lemma RepeatResends(services: map<nat, Service>, tnd: nat, fs: seq<Frame>, i: nat, f: Frame, g: Frame)
    requires i < |fs| - 1 && f == fs[i] && g == fs[|fs| - 1] && Accepted(tnd, g) && IsRequest(g)
    requires IsNew(tnd, After(services, tnd, fs[..i]).session, f)
    requires NothingNew(tnd, fs, Execution(f.snode, f.srvid, f.sessn), i)
    ensures LastOut(services, tnd, fs) ==
      [Response(g.snode, g.srvid + RESPONSE_BIT, g.sessn, 0, LastBody(LastOut(services, tnd, fs[..i + 1])))]
  {
    var n := |fs| - 1;
    assert fs[..i + 1][..i] == fs[..i] && fs[..n][..i + 1] == fs[..i + 1];
    NewRequestKept(services, tnd, After(services, tnd, fs[..i]), f);
    SessionHolds(services, tnd, fs[..n], i + 1, Execution(f.snode, f.srvid, f.sessn));
    RepeatInput(services, tnd, After(services, tnd, fs[..n]), g);
  }
}
