/** A run of the resource manager after which moving a transmitted id to another node leaves it without a sender. */
module ResLostSender {
  import opened ResTables

  const FIRST: nat := 1
  const SECOND: nat := 2

  ghost function Last(ts: seq<Tables>): Tables
    requires ts != []
  {
    ts[|ts| - 1]
  }

  /** One more operation. */
  lemma Extend(ts: seq<Tables>, ops: seq<Op>, op: Op) returns (ts': seq<Tables>, ops': seq<Op>)
    requires Run(ts, ops) && Callable(op)
    ensures Run(ts', ops') && Inv(Last(ts)) && Last(ts') == Perform(Last(ts), op).0
  {
    TablesStayConsistent(ts, ops, |ops|);
    var u := Perform(Last(ts), op).0;
    ts', ops' := ts + [u], ops + [op];
    assert Does(Last(ts), op, u);
  }

  predicate AllEnabled(t: Tables, n: nat) {
    |t.res| == RES_COUNT && n < RES_COUNT && forall r | 1 <= r <= n :: t.res[r].state == Enabled
  }

  /** Resources 1 to `n` are configured, and no node yet. */
  lemma {:induction false} Resources(n: nat) returns (ts: seq<Tables>, ops: seq<Op>)
    requires n <= 9
    ensures Run(ts, ops) && AllEnabled(Last(ts), n) && Last(ts).nodes == Empty().nodes
  {
    if n == 0 {
      ts, ops := [Empty()], [];
    } else {
      var ss, past := Resources(n - 1);
      ts, ops := Extend(ss, past, OpAddRes(n, Resource(0, 0, 0, 0, Unvalid, false, 4)));
    }
  }

  /** A node that transmits the ids from `r` on in its first `k` slots. */
  function Sender(mac: nat, r: nat, k: nat): Node {
    Node(mac, Enabled, false, seq(TRS_COUNT, j requires 0 <= j < TRS_COUNT => if j < k then r + j else UNUSED),
         seq(RCV_COUNT, _ => UNUSED))
  }

  /** The first node transmits 9, the second 1 to `k`. */
  predicate Filled(t: Tables, k: nat) {
    && t.Shaped() && AllEnabled(t, 9)
    && t.nodes[0] == Sender(FIRST, 9, 1)
    && (if k == 0 then !t.nodes[1].Valid() else t.nodes[1] == Sender(SECOND, 1, k))
    && forall i | 2 <= i < NODE_COUNT :: !t.nodes[i].Valid()
  }

  lemma FirstSender(t: Tables)
    requires t.Shaped() && AllEnabled(t, 9) && t.nodes == Empty().nodes
    ensures Filled(AddTrs(t, 9, FIRST, false).0, 0)
  {
    var nodes := MapNodes(t.nodes, n => StripTrs(n, 9));
    assert FindNode(nodes, FIRST) == NODE_COUNT && FindFree(nodes) == 0;
    var b := Blank(FIRST);
    assert b.trs[0 := 9] == Sender(FIRST, 9, 1).trs;
  }

  /** Stripping an id nobody transmits changes nothing. */
  lemma NothingToStrip(t: Tables, k: nat)
    requires k < TRS_COUNT && Filled(t, k)
    ensures MapNodes(t.nodes, n => StripTrs(n, k + 1)) == t.nodes
  {
    forall i | 0 <= i < NODE_COUNT
      ensures StripTrs(t.nodes[i], k + 1) == t.nodes[i]
    {
      if t.nodes[i].Valid() {
        assert Without(t.nodes[i].trs, k + 1) == t.nodes[i].trs;
      }
    }
  }

  lemma FreeSlot(k: nat)
    requires k <= TRS_COUNT
    ensures SlotOf(Sender(SECOND, 1, k).trs, UNUSED) == k
  {
    var trs := Sender(SECOND, 1, k).trs;
    var j := SlotOf(trs, UNUSED);
    assert j < |trs| ==> trs[j] == UNUSED;
    assert k < |trs| ==> trs[k] == UNUSED;
  }

  /** The second node is given one more id. */
  lemma OneMoreSlot(t: Tables, k: nat)
    requires k < TRS_COUNT && Filled(t, k)
    ensures Filled(AddTrs(t, k + 1, SECOND, false).0, k + 1)
  {
    NothingToStrip(t, k);
    var n := Sender(SECOND, 1, k);
    if k == 0 {
      assert FindNode(t.nodes, SECOND) == NODE_COUNT && FindFree(t.nodes) == 1;
      assert Blank(SECOND).trs[0 := 1] == Sender(SECOND, 1, 1).trs;
    } else {
      assert FindNode(t.nodes, SECOND) == 1;
      assert StripRcv(n, k + 1).rcv == n.rcv;
      FreeSlot(k);
      assert n.trs[k := k + 1] == Sender(SECOND, 1, k + 1).trs;
    }
  }

  lemma {:induction false} FillSecond(k: nat) returns (ts: seq<Tables>, ops: seq<Op>)
    requires k <= TRS_COUNT
    ensures Run(ts, ops) && Filled(Last(ts), k)
  {
    if k == 0 {
      var ss, past := Resources(9);
      ts, ops := Extend(ss, past, OpAddTrs(9, FIRST, false));
      FirstSender(Last(ss));
    } else {
      var ss, past := FillSecond(k - 1);
      ts, ops := Extend(ss, past, OpAddTrs(k, SECOND, false));
      OneMoreSlot(Last(ss), k - 1);
    }
  }

  /** The second node's slots are full. Giving it the id the first one transmits fails, and nobody transmits it. */
  lemma MoveLosesSender() returns (ts: seq<Tables>, ops: seq<Op>)
    ensures Run(ts, ops) && Inv(Last(ts)) && Sends(Last(ts), 0, 0, 9)
    ensures var (u, code) := AddTrs(Last(ts), 9, SECOND, false);
      code != 0 && forall i: nat, a: nat :: !Sends(u, i, a, 9)
  {
    ts, ops := FillSecond(TRS_COUNT);
    TablesStayConsistent(ts, ops, |ops|);
    var t := Last(ts);
    assert FindNode(t.nodes, SECOND) == 1;
    assert UNUSED !in Without(t.nodes[1].trs, 9);
    AddTrsOutcome(t, 9, SECOND, false);
  }
}
