/** What the RPC server sends, to whom, and when it sends nothing. */
module RpcAnswers {
  import opened Bytes
  import opened RpcServer

  // ---- to whom ----------------------------------------------------------------------------------------------------

  /** The answer goes to the node that asked, under the number of its request. */
  predicate Addressed(r: Response, f: Frame) {
    r.dnode == f.snode && r.srvid == f.srvid + RESPONSE_BIT && r.sessn == f.sessn && r.status == 0
  }

  lemma {:induction false} AllAddressed(s: Session, bodies: seq<seq<byte>>, f: Frame)
    requires s.srcnd == f.snode && s.srvid == f.srvid && s.sessn == f.sessn
    ensures forall r | r in RespondAll(s, bodies).1 :: Addressed(r, f)
    decreases |bodies|
  {
    if bodies != [] {
      AllAddressed(RespondSend(s, bodies[0]).0, bodies[1..], f);
    }
  }

  /** Only accepted requests are answered, and only to their sender. */
  lemma AnswersTheSender(services: map<nat, Service>, tnd: nat, v: Server, f: Frame)
    ensures var out := Input(services, tnd, v, f).1;
      && (out != [] ==> Accepted(tnd, f) && IsRequest(f))
      && forall r | r in out :: Addressed(r, f)
  {
    if IsNew(tnd, v.session, f) && f.srvid in services {
      AllAddressed(Session(f.snode, f.srvid, f.sessn, []), services[f.srvid](|v.ran|, f.snode, f.msg), f);
    }
  }

  /** A new request for a service nobody registered runs nothing and is answered at once, with no octets. */
  lemma UnregisteredAnswered(services: map<nat, Service>, tnd: nat, v: Server, f: Frame)
    requires IsNew(tnd, v.session, f) && f.srvid !in services
    ensures var (u, out) := Input(services, tnd, v, f);
      && u.ran == v.ran && |out| == 1 && Addressed(out[0], f) && out[0].body == []
      && u.session.srvid == f.srvid && u.session.sessn == f.sessn
  {
  }

  // ---- what -------------------------------------------------------------------------------------------------------

  /** A body that ends a request: not empty, and not too long to send. */
  predicate Final(body: seq<byte>) {
    0 < |body| <= MAX_BODY
  }

  /** The first of them, or the number of bodies. */
  function FirstFinal(bodies: seq<seq<byte>>): (k: nat)
    ensures k <= |bodies| && (k < |bodies| ==> Final(bodies[k])) && forall i | 0 <= i < k :: !Final(bodies[i])
  {
    if bodies == [] || Final(bodies[0]) then 0 else 1 + FirstFinal(bodies[1..])
  }

  lemma NothingMore(s: Session, bodies: seq<seq<byte>>)
    requires s.body != []
    ensures RespondAll(s, bodies) == (s, [])
    decreases |bodies|
  {
    if bodies != [] {
      NothingMore(s, bodies[1..]);
      assert [] + RespondAll(s, bodies[1..]).1 == [];
    }
  }

  predicate Empties(out: seq<Response>) {
    forall i | 0 <= i < |out| :: out[i].body == []
  }

  lemma EmptiesFirst(out: seq<Response>, more: seq<Response>)
    requires Empties(out)
    ensures Empties(more) ==> Empties(out + more)
    ensures more != [] && Empties(more[..|more| - 1]) ==> Empties((out + more)[..|out + more| - 1])
  {
    if more != [] {
      assert (out + more)[..|out + more| - 1] == out + more[..|more| - 1];
    }
  }

  /** Of all a service answers, what is sent are empty bodies and then the first that is neither empty nor too long; so
      if there is one it is sent, exactly once, as the last, and it is what is kept. */
  lemma {:induction false} FirstFinalSent(s: Session, bodies: seq<seq<byte>>)
    requires s.body == []
    ensures var (t, out) := RespondAll(s, bodies);
      if FirstFinal(bodies) < |bodies| then
        && out != [] && Empties(out[..|out| - 1])
        && out[|out| - 1].body == t.body == bodies[FirstFinal(bodies)]
      else
        t.body == [] && Empties(out)
    decreases |bodies|
  {
    if bodies != [] {
      var first, rest := bodies[0], bodies[1..];
      var (t, out) := RespondSend(s, first);
      if Final(first) {
        NothingMore(t, rest);
        assert out + [] == out;
      } else {
        FirstFinalSent(t, rest);
        assert FirstFinal(bodies) == 1 + FirstFinal(rest);
        EmptiesFirst(out, RespondAll(t, rest).1);
      }
    }
  }
}
