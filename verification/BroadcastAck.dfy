/** Broadcasts of the control node: which nodes still owe an acknowledgement is one bit each in eight 32-bit words,
    and the node being handled waits until no bit is left. */
module BroadcastAck {

  // ---- the flag words ---------------------------------------------------------------------------------------------

  /** A `uint32_t`, bit by bit. */
  type Word32 = w: seq<bool> | |w| == 32 witness seq(32, _ => false)

  type NodeId = n: nat | n < 256

  function Zero(): Word32 {
    seq(32, _ => false)
  }

  /** `w | 1 << j` and `w & ~(1 << j)`. */
  function Put(w: Word32, j: nat, on: bool): Word32
    requires j < 32
  {
    w[j := on]
  }

  function OrWords(v: Word32, w: Word32): Word32 {
    seq(32, i requires 0 <= i < 32 => v[i] || w[i])
  }

  /** The nodes whose bits are set. */
  function Awaited(flags: seq<Word32>): set<NodeId>
    requires |flags| == 8
  {
    set n: NodeId | flags[n / 32][n % 32]
  }

  class AckFlags {
    const words: array<Word32>

    ghost predicate Valid()
      reads this
    {
      words.Length == 8
    }

    ghost function Nodes(): set<NodeId>
      reads this, words
      requires Valid()
    {
      Awaited(words[..])
    }

    constructor ()
      ensures Valid() && fresh(words)
    {
      words := new Word32[8](_ => Zero());
    }

    /** `init_ack_flag`. */
    method Init()
      requires Valid()
      modifies words
      ensures Nodes() == {}
    {
      for i := 0 to 8
        invariant forall k | 0 <= k < i :: words[k] == Zero()
      {
        words[i] := Zero();
      }
    }

    /** `is_ack_zero`: the or of all eight words; zero when nobody is awaited. */
    method OrAll() returns (ret: Word32)
      requires Valid()
      ensures ret == Zero() <==> Nodes() == {}
    {
      ret := words[0];
      for i := 1 to 8
        invariant forall j | 0 <= j < 32 :: ret[j] <==> exists k | 0 <= k < i :: words[k][j]
      {
        ret := OrWords(ret, words[i]);
      }
      if ret == Zero() {
        forall n: NodeId
          ensures n !in Nodes()
        {
          assert !ret[n % 32];
          assert !words[n / 32][n % 32];
        }
      } else {
        var j :| 0 <= j < 32 && ret[j];
        var k :| 0 <= k < 8 && words[k][j];
        var n: NodeId := 32 * k + j;
        assert n / 32 == k && n % 32 == j;
        assert n in Nodes();
      }
    }

    /** `set_bit`. */
    method Set(nid: NodeId)
      requires Valid()
      modifies words
      ensures Nodes() == old(Nodes()) + {nid}
    {
      words[nid / 32] := Put(words[nid / 32], nid % 32, true);
      OneBit(old(words[..]), words[..], nid, true);
    }

    /** `clear_bit`. */
    method Clear(nid: NodeId)
      requires Valid()
      modifies words
      ensures Nodes() == old(Nodes()) - {nid}
    {
      words[nid / 32] := Put(words[nid / 32], nid % 32, false);
      OneBit(old(words[..]), words[..], nid, false);
    }
  }

  lemma OneBit(v: seq<Word32>, w: seq<Word32>, nid: NodeId, on: bool)
    requires |v| == 8 && w == v[nid / 32 := Put(v[nid / 32], nid % 32, on)]
    ensures Awaited(w) == if on then Awaited(v) + {nid} else Awaited(v) - {nid}
  {
    forall n: NodeId
      ensures n in Awaited(w) <==> if n == nid then on else n in Awaited(v)
    {
      if n / 32 == nid / 32 && n % 32 == nid % 32 {
        assert n == 32 * (n / 32) + n % 32;
      }
    }
  }

  // ---- one broadcast ----------------------------------------------------------------------------------------------

  /** The stages of a node that matter here, and which of the two broadcasts is out. */
  datatype Stage = WaitAck | AddFinish | DelFinish | Fail
  datatype Kind = Adding | Deleting

  /** A node on the list: its id, whether it has been reported lost, its stage. */
  datatype Node = Node(nid: NodeId, offline: bool, stage: Stage)

  /** The handled node's stage, the awaited nodes, and whether the request is still outstanding. */
  datatype Broadcast = Broadcast(kind: Kind, stage: Stage, awaited: set<NodeId>, open: bool)

  /** What can reach the handled node: a reply with `ilen` octets whose first names the replying node, the loss of a
      node, and the RPC layer giving up. */
  datatype Event = Reply(nid: NodeId, ilen: nat) | Lost(nid: NodeId) | GiveUp

  function Finish(k: Kind): Stage {
    if k == Adding then AddFinish else DelFinish
  }

  /** The nodes a broadcast is addressed to: on the network, configured, and not the control node. */
  function Snapshot(nodes: seq<Node>): set<NodeId> {
    set n | n in nodes && n.nid > 0 && !n.offline && n.stage == AddFinish :: n.nid
  }

  /** The tails of `res_add_trs_res` and `res_delete_node`: with nobody to inform, a deletion is finished at once. */
  function StartBroadcast(k: Kind, nodes: seq<Node>): Broadcast {
    var awaited := Snapshot(nodes);
    if k == Deleting && awaited == {} then Broadcast(k, DelFinish, {}, false)
    else Broadcast(k, WaitAck, awaited, true)
  }

  /** `res_add_trs_rpc_cbk` and `res_del_res_rpc_cbk` for a reply or NULL, and `res_delete_tn`. An empty reply to an
      addition is treated like a time-out, but leaves the request open. */
  function Handle(b: Broadcast, e: Event): Broadcast {
    match e
    case Lost(nid) => b.(awaited := b.awaited - {nid})
    case Reply(nid, ilen) =>
      if !b.open then b
      else
        var acked := b.kind == Deleting || ilen != 0;
        var left := if acked then b.awaited - {nid} else b.awaited;
        var failed := if !acked && left != {} then Fail else b.stage;
        if left == {} then Broadcast(b.kind, Finish(b.kind), left, false)
        else Broadcast(b.kind, failed, left, true)
    case GiveUp =>
      if !b.open then b
      else if b.awaited == {} then Broadcast(b.kind, Finish(b.kind), {}, false)
      else Broadcast(b.kind, Fail, b.awaited, false)
  }

  /** The broadcast state over the flag words. */
  class Handler {
    const flags: AckFlags
    var kind: Kind
    var stage: Stage
    var open: bool

    ghost predicate Valid()
      reads this, flags
    {
      flags.Valid()
    }

    ghost function State(): Broadcast
      reads this, flags, flags.words
      requires Valid()
    {
      Broadcast(kind, stage, flags.Nodes(), open)
    }

    constructor ()
      ensures Valid() && fresh(flags) && fresh(flags.words)
    {
      flags := new AckFlags();
      kind, stage, open := Adding, WaitAck, false;
    }

    /** Initialise the flags from the node list and send. */
    method Begin(k: Kind, nodes: seq<Node>)
      requires Valid()
      modifies this, flags.words
      ensures Valid() && State() == StartBroadcast(k, nodes)
    {
      kind, stage, open := k, WaitAck, true;
      flags.Init();
      for i := 0 to |nodes|
        invariant Valid() && kind == k && stage == WaitAck && open
        invariant flags.Nodes() == Snapshot(nodes[..i])
      {
        assert nodes[..i + 1] == nodes[..i] + [nodes[i]];
        if nodes[i].nid > 0 && !nodes[i].offline && nodes[i].stage == AddFinish {
          flags.Set(nodes[i].nid);
        }
      }
      assert nodes[..|nodes|] == nodes;
      if k == Deleting {
        var zero := flags.OrAll();
        if zero == Zero() {
          stage, open := DelFinish, false;
        }
      }
    }

    /** The RPC callback of either broadcast: a reply, or NULL when the RPC layer gives up. */
    method Callback(reply: bool, nid: NodeId, ilen: nat)
      requires Valid() && open
      modifies this`stage, this`open, flags.words
      ensures Valid() && State() == Handle(old(State()), if reply then Reply(nid, ilen) else GiveUp)
    {
      if reply && (kind == Deleting || ilen != 0) {
        flags.Clear(nid);
      } else {
        var zero := flags.OrAll();
        if zero != Zero() {
          stage := Fail;
        }
      }
      var zero := flags.OrAll();
      if zero == Zero() {
        stage := if kind == Adding then AddFinish else DelFinish;
        open := false;
      } else if !reply {
        open := false;
      }
    }

    /** `res_delete_tn`. */
    method NodeLost(nid: NodeId)
      requires Valid()
      modifies flags.words
      ensures Valid() && State() == Handle(old(State()), Lost(nid))
    {
      flags.Clear(nid);
    }
  }

  // ---- safety -----------------------------------------------------------------------------------------------------

  function After(b: Broadcast, es: seq<Event>): Broadcast {
    if es == [] then b else Handle(After(b, es[..|es| - 1]), es[|es| - 1])
  }

  /** Has node `n` acknowledged, or been lost? */
  predicate Heard(k: Kind, es: seq<Event>, n: NodeId) {
    exists e | e in es :: e == Lost(n) || (e.Reply? && e.nid == n && (k == Deleting || e.ilen != 0))
  }

  predicate AllHeard(k: Kind, nodes: seq<Node>, es: seq<Event>) {
    forall n | n in Snapshot(nodes) :: Heard(k, es, n)
  }

  lemma HeardAppend(k: Kind, es: seq<Event>, n: NodeId)
    requires es != []
    ensures var e := es[|es| - 1];
      Heard(k, es, n) <==>
        Heard(k, es[..|es| - 1], n) || e == Lost(n) || (e.Reply? && e.nid == n && (k == Deleting || e.ilen != 0))
  {
    assert es == es[..|es| - 1] + [es[|es| - 1]];
  }

  /** While the request is open the flags hold exactly the nodes of the snapshot not heard from; a closed broadcast
      has finished if and only if they all were. */
  lemma {:induction false} FlagsAreUnheard(k: Kind, nodes: seq<Node>, es: seq<Event>)
    ensures var b := After(StartBroadcast(k, nodes), es);
      && b.kind == k
      && (forall n | n in b.awaited :: n in Snapshot(nodes) && (b.open ==> !Heard(k, es, n)))
      && (forall n | n in Snapshot(nodes) && n !in b.awaited :: Heard(k, es, n))
      && (b.open ==> b.stage in {WaitAck, Fail})
      && (b.stage == Finish(k) ==> !b.open && b.awaited == {})
      && (!b.open ==> b.stage == Finish(k) || b.stage == Fail)
  {
    if es != [] {
      var past := es[..|es| - 1];
      FlagsAreUnheard(k, nodes, past);
      forall n: NodeId
        ensures Heard(k, past, n) ==> Heard(k, es, n)
      {
        HeardAppend(k, es, n);
      }
      var e := es[|es| - 1];
      if !e.GiveUp? {
        HeardAppend(k, es, e.nid);
      }
      forall n: NodeId | e.GiveUp? || e.nid != n
        ensures Heard(k, past, n) <==> Heard(k, es, n)
      {
        HeardAppend(k, es, n);
      }
    }
  }

  /** Safety. In every interleaving of replies, losses and the time-out, the handled node gets to ADD_FINISH or
      DEL_FINISH only when each node the broadcast was addressed to has acknowledged it or been lost. */
  lemma FinishedOnlyWhenHeard(k: Kind, nodes: seq<Node>, es: seq<Event>)
    requires After(StartBroadcast(k, nodes), es).stage == Finish(k)
    ensures AllHeard(k, nodes, es)
  {
    FlagsAreUnheard(k, nodes, es);
  }

  /** The verdict at the time-out is exact: the node fails if and only if somebody was not heard from. */
  lemma TimeoutVerdict(k: Kind, nodes: seq<Node>, es: seq<Event>)
    requires After(StartBroadcast(k, nodes), es).open
    ensures var b := After(StartBroadcast(k, nodes), es + [GiveUp]);
      && !b.open
      && (b.stage == Finish(k) <==> AllHeard(k, nodes, es))
      && (b.stage == Fail <==> !AllHeard(k, nodes, es))
  {
    FlagsAreUnheard(k, nodes, es);
    assert (es + [GiveUp])[..|es|] == es;
    var b := After(StartBroadcast(k, nodes), es);
    if b.awaited != {} {
      var n :| n in b.awaited;
      assert !Heard(k, es, n);
    }
  }

  // ---- liveness ---------------------------------------------------------------------------------------------------

  /** A reply finishes the node, of either broadcast, if and only if with it everybody has been heard from; else the
      request stays open. */
  lemma LastReplyFinishes(k: Kind, nodes: seq<Node>, es: seq<Event>, n: NodeId, l: nat)
    requires After(StartBroadcast(k, nodes), es).open
    ensures var b, all := After(StartBroadcast(k, nodes), es + [Reply(n, l)]), es + [Reply(n, l)];
      if AllHeard(k, nodes, all) then !b.open && b.stage == Finish(k) else b.open && b.stage != Finish(k)
  {
    var all := es + [Reply(n, l)];
    assert all[..|es|] == es;
    FlagsAreUnheard(k, nodes, es);
    FlagsAreUnheard(k, nodes, all);
    var b := After(StartBroadcast(k, nodes), all);
    if b.open {
      var x :| x in b.awaited;
      assert !Heard(k, all, x);
    }
  }

  /** Has node `n` acknowledged? */
  predicate Acked(k: Kind, es: seq<Event>, n: NodeId) {
    exists e | e in es :: e.Reply? && e.nid == n && (k == Deleting || e.ilen != 0)
  }

  /** With somebody to inform and no time-out, an open request waits for somebody's acknowledgement. */
  lemma {:induction false} OpenWaits(k: Kind, nodes: seq<Node>, es: seq<Event>) returns (n: NodeId)
    requires Snapshot(nodes) != {} && After(StartBroadcast(k, nodes), es).open
    ensures n in Snapshot(nodes) && !Acked(k, es, n)
  {
    if es == [] {
      n :| n in Snapshot(nodes);
    } else {
      var past, e := es[..|es| - 1], es[|es| - 1];
      assert es == past + [e];
      if e.Reply? {
        FlagsAreUnheard(k, nodes, es);
        n :| n in After(StartBroadcast(k, nodes), es).awaited;
        assert !Heard(k, es, n);
      } else {
        n := OpenWaits(k, nodes, past);
      }
    }
  }

  /** So without a time-out the node is finished once everybody has acknowledged, whatever is lost in between. */
  lemma AllAckedFinishes(k: Kind, nodes: seq<Node>, es: seq<Event>)
    requires Snapshot(nodes) != {} && GiveUp !in es && forall n | n in Snapshot(nodes) :: Acked(k, es, n)
    ensures var b := After(StartBroadcast(k, nodes), es); !b.open && b.stage == Finish(k)
  {
    FlagsAreUnheard(k, nodes, es);
    ClosedByTimeout(k, nodes, es);
    if After(StartBroadcast(k, nodes), es).open {
      var n := OpenWaits(k, nodes, es);
    }
  }

  /** With nobody to inform a deletion is finished before anything is sent, and an addition at the first answer. */
  lemma NobodyToInform(k: Kind, nodes: seq<Node>, e: Event)
    requires Snapshot(nodes) == {}
    ensures var b := StartBroadcast(k, nodes);
      && (k == Deleting ==> !b.open && b.stage == DelFinish)
      && (k == Adding ==> b.open && b.stage == WaitAck && (!e.Lost? ==> Handle(b, e).stage == AddFinish))
  {
  }

  // ---- when FAIL is final -----------------------------------------------------------------------------------------

  predicate EmptyReply(e: Event) {
    e.Reply? && e.ilen == 0
  }

  predicate SomeEmptyReply(es: seq<Event>) {
    exists e | e in es :: EmptyReply(e)
  }

  lemma SomeEmptyAppend(es: seq<Event>)
    requires es != []
    ensures SomeEmptyReply(es) <==> SomeEmptyReply(es[..|es| - 1]) || EmptyReply(es[|es| - 1])
  {
    assert es == es[..|es| - 1] + [es[|es| - 1]];
    assert es[|es| - 1] in es;
  }

  /** While the request is open, the node is in FAIL exactly when it is being added and an empty reply has come. */
  lemma {:induction false} OpenFailure(k: Kind, nodes: seq<Node>, es: seq<Event>)
    ensures var b := After(StartBroadcast(k, nodes), es);
      b.open ==> (b.stage == Fail <==> k == Adding && SomeEmptyReply(es))
  {
    if es != [] {
      var n := |es| - 1;
      OpenFailure(k, nodes, es[..n]);
      FlagsAreUnheard(k, nodes, es[..n]);
      SomeEmptyAppend(es);
    }
  }

  /** A closed request settles nothing any more. */
  lemma {:induction false} ClosedStays(b: Broadcast, es: seq<Event>)
    requires !b.open
    ensures !After(b, es).open && After(b, es).stage == b.stage
  {
    if es != [] {
      ClosedStays(b, es[..|es| - 1]);
    }
  }

  lemma {:induction false} AfterSum(b: Broadcast, es: seq<Event>, fs: seq<Event>)
    ensures After(b, es + fs) == After(After(b, es), fs)
  {
    if fs == [] {
      assert es + fs == es;
    } else {
      var n := |fs| - 1;
      AfterSum(b, es, fs[..n]);
      assert (es + fs)[..|es + fs| - 1] == es + fs[..n];
    }
  }

  /** While the request is open, the nodes still awaited may all be lost before the time-out: the node finishes. */
  lemma {:induction false} OpenCanFinish(b: Broadcast) returns (es: seq<Event>)
    requires b.open
    ensures After(b, es).stage == Finish(b.kind)
    decreases b.awaited
  {
    if b.awaited == {} {
      es := [GiveUp];
      assert es[..0] == [];
    } else {
      var n :| n in b.awaited;
      var c := Handle(b, Lost(n));
      es := OpenCanFinish(c);
      assert [Lost(n)][..0] == [];
      assert After(b, [Lost(n)]) == Handle(After(b, []), Lost(n)) == c;
      AfterSum(b, [Lost(n)], es);
      es := [Lost(n)] + es;
    }
  }

  /** Whatever comes next, the node stays in FAIL. */
  ghost predicate Final(b: Broadcast) {
    forall es :: After(b, es).stage == Fail
  }

  /** A node in FAIL stays there for good exactly if the request is closed, and can still finish exactly if it is
      open. */
  lemma FinalIffClosed(b: Broadcast)
    requires b.stage == Fail
    ensures Final(b) <==> !b.open
    ensures (exists es :: After(b, es).stage == Finish(b.kind)) <==> b.open
  {
    if b.open {
      var es := OpenCanFinish(b);
      assert After(b, es).stage == Finish(b.kind);
    } else {
      forall es
        ensures After(b, es).stage == Fail
      {
        ClosedStays(b, es);
      }
    }
  }

  /** While the request is open there was no time-out; a closed failure comes from one. */
  lemma {:induction false} ClosedByTimeout(k: Kind, nodes: seq<Node>, es: seq<Event>)
    ensures var b := After(StartBroadcast(k, nodes), es);
      && (b.open ==> GiveUp !in es)
      && (!b.open && b.stage == Fail ==> GiveUp in es)
  {
    if es != [] {
      var n := |es| - 1;
      ClosedByTimeout(k, nodes, es[..n]);
      FlagsAreUnheard(k, nodes, es[..n]);
      assert es == es[..n] + [es[n]];
      assert GiveUp in es <==> GiveUp in es[..n] || es[n] == GiveUp;
    }
  }

  /** So after any events a failure is final exactly if there was a time-out; and it is if nothing that came was an
      empty reply to an addition. */
  lemma FailureExactlyFinal(k: Kind, nodes: seq<Node>, es: seq<Event>)
    requires After(StartBroadcast(k, nodes), es).stage == Fail
    ensures var b := After(StartBroadcast(k, nodes), es);
      && (Final(b) <==> GiveUp in es)
      && (k == Deleting || !SomeEmptyReply(es) ==> Final(b))
  {
    FinalIffClosed(After(StartBroadcast(k, nodes), es));
    OpenFailure(k, nodes, es);
    ClosedByTimeout(k, nodes, es);
  }

  /** FAIL is final in every run of a broadcast if and only if it is a deletion or there is nobody to inform. */
  lemma FailIsFinalExactly(k: Kind, nodes: seq<Node>)
    ensures (forall es :: var b := After(StartBroadcast(k, nodes), es); b.stage == Fail ==> Final(b))
            <==> k == Deleting || Snapshot(nodes) == {}
  {
    var b := StartBroadcast(k, nodes);
    if k == Deleting || Snapshot(nodes) == {} {
      forall es | After(b, es).stage == Fail
        ensures Final(After(b, es))
      {
        FailureExactlyFinal(k, nodes, es);
        if k == Adding {
          NobodyNeverFails(nodes, es);
        }
      }
    } else {
      var n :| n in Snapshot(nodes);
      var es := [Reply(n, 0)];
      assert es[..0] == [];
      assert After(b, es) == Handle(After(b, []), Reply(n, 0));
      assert After(b, es).stage == Fail && After(b, es).open;
      FinalIffClosed(After(b, es));
    }
  }

  lemma {:induction false} NobodyNeverFails(nodes: seq<Node>, es: seq<Event>)
    requires Snapshot(nodes) == {}
    ensures var b := After(StartBroadcast(Adding, nodes), es); b.awaited == {} && b.stage != Fail
  {
    if es != [] {
      NobodyNeverFails(nodes, es[..|es| - 1]);
    }
  }

  /** An empty reply to an addition fails the node although the request stays open, and a later acknowledgement
      brings it from FAIL to ADD_FINISH. */
  lemma EmptyReplyIsNotFinal()
    ensures var nodes := [Node(1, false, AddFinish), Node(2, false, AddFinish)];
      var b := StartBroadcast(Adding, nodes);
      && After(b, [Reply(1, 1), Reply(2, 0)]).stage == Fail
      && After(b, [Reply(1, 1), Reply(2, 0), Reply(2, 1)]).stage == AddFinish
  {
    var b := StartBroadcast(Adding, [Node(1, false, AddFinish), Node(2, false, AddFinish)]);
    assert b.awaited == {1, 2};
    var es := [Reply(1, 1), Reply(2, 0), Reply(2, 1)];
    assert es[..2] == [Reply(1, 1), Reply(2, 0)] && es[..2][..1] == [Reply(1, 1)] && es[..2][..1][..0] == [];
    assert Handle(b, Reply(1, 1)).awaited == {2};
    assert After(b, es[..2][..1]) == Handle(b, Reply(1, 1));
    assert After(b, es[..2]) == Handle(After(b, es[..2][..1]), Reply(2, 0));
    assert After(b, es) == Handle(After(b, es[..2]), Reply(2, 1));
  }
}
