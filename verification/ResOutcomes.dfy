/** What each table operation achieves and leaves alone, in terms of who sends and receives which id. */
module ResOutcomes {
  import opened ResTables

  /** Entry `i` is the valid one of the node with this MAC. */
  predicate NodeIs(t: Tables, i: nat, mac: nat) {
    i < |t.nodes| && t.nodes[i].Valid() && t.nodes[i].mac == mac
  }

  ghost predicate Unknown(t: Tables, mac: nat) {
    forall i: nat :: !NodeIs(t, i, mac)
  }

  lemma FindIs(t: Tables, mac: nat)
    requires t.Shaped()
    ensures FindNode(t.nodes, mac) == NODE_COUNT <==> Unknown(t, mac)
    ensures DistinctMacs(t) ==> forall i: nat | NodeIs(t, i, mac) :: FindNode(t.nodes, mac) == i
  {
    var f := FindNode(t.nodes, mac);
    if f < NODE_COUNT {
      assert NodeIs(t, f, mac);
    }
  }

  // ---- receiving --------------------------------------------------------------------------------------------------

  /** The id may be given to receivers. */
  predicate Legal(t: Tables, r: nat) {
    r != UNUSED && (r == RECEIVE_ALL || (r < |t.res| && t.res[r].state == Enabled))
  }

  predicate TakesMore(n: Node, r: nat) {
    r == RECEIVE_ALL || r in n.trs || r in n.rcv || UNUSED in n.rcv
  }

  predicate Gets(n: Node, r: nat) {
    if r == RECEIVE_ALL then n.rcvall else r in n.trs || r in n.rcv
  }

  /** An entry without ids. */
  predicate Bare(n: Node, mac: nat) {
    && n.Shaped() && n.mac == mac && n.state == Enabled && !n.rcvall
    && (forall x | x in n.trs :: x == UNUSED) && (forall x | x in n.rcv :: x == UNUSED)
  }

  /** The entry `n` is `m` with at most one more received id, `r`. */
  predicate Extended(m: Node, n: Node, r: nat) {
    && n.mac == m.mac && n.state == m.state && n.trs == m.trs && |n.rcv| == |m.rcv|
    && (n.rcvall <==> m.rcvall || r == RECEIVE_ALL)
    && forall a | 0 <= a < |m.rcv| && n.rcv[a] != m.rcv[a] ::
         m.rcv[a] == UNUSED && n.rcv[a] == r && r != RECEIVE_ALL && r !in m.trs && r !in m.rcv
  }

  ghost predicate CanReceive(t: Tables, r: nat, mac: nat) {
    || (exists i: nat :: NodeIs(t, i, mac) && TakesMore(t.nodes[i], r))
    || (Unknown(t, mac) && exists i | 0 <= i < |t.nodes| :: !t.nodes[i].Valid())
  }

  predicate SameBut(u: Tables, t: Tables, i: nat) {
    && u.res == t.res && |u.nodes| == |t.nodes|
    && forall j | 0 <= j < |t.nodes| && j != i :: u.nodes[j] == t.nodes[j]
  }

  /** `u` is `t` with the node at `i` receiving `r` besides what it had. */
  ghost predicate Received(u: Tables, t: Tables, i: nat, r: nat, mac: nat) {
    && i < |t.nodes| && SameBut(u, t, i) && NodeIs(u, i, mac) && Gets(u.nodes[i], r)
    && if t.nodes[i].Valid() then t.nodes[i].mac == mac && Extended(t.nodes[i], u.nodes[i], r)
       else Unknown(t, mac) && Bare(Blank(mac), mac) && Extended(Blank(mac), u.nodes[i], r)
  }

  /** `add_rcv_res` succeeds exactly if the id is legal and the node has or can get a place for it, and then the node
      gets it, as receiver or because it sends it, and all else is as before; if it fails, everything is. */
  lemma AddRcvOutcome(t: Tables, r: nat, mac: nat) returns (i: nat)
    requires Inv(t) && (r < RES_COUNT || r == RECEIVE_ALL)
    ensures var (u, code) := AddRcv(t, r, mac);
      && (code == 0 <==> Legal(t, r) && CanReceive(t, r, mac))
      && (if code == 0 then Received(u, t, i, r, mac) else u == t)
  {
    FindIs(t, mac);
    i := FindNode(t.nodes, mac);
    if Legal(t, r) {
      if i < NODE_COUNT {
        KnownReceives(t, r, mac, i);
      } else {
        i := FindFree(t.nodes);
        NewReceives(t, r, mac, i);
      }
    }
  }

  lemma KnownReceives(t: Tables, r: nat, mac: nat, i: nat)
    requires Inv(t) && (r < RES_COUNT || r == RECEIVE_ALL) && Legal(t, r)
    requires i == FindNode(t.nodes, mac) < NODE_COUNT
    ensures var (u, code) := AddRcv(t, r, mac);
      && (code == 0 <==> CanReceive(t, r, mac))
      && (if code == 0 then Received(u, t, i, r, mac) else u == t)
  {
    FindIs(t, mac);
    var n := t.nodes[i];
    assert NodeIs(t, i, mac);
    var j := SlotOf(n.rcv, UNUSED);
    if r != RECEIVE_ALL && r !in n.trs && r !in n.rcv && j < RCV_COUNT {
      assert n.rcv[j] == UNUSED && n.rcv[j := r][j] == r;
    }
  }

  lemma NewReceives(t: Tables, r: nat, mac: nat, k: nat)
    requires Inv(t) && (r < RES_COUNT || r == RECEIVE_ALL) && Legal(t, r)
    requires FindNode(t.nodes, mac) == NODE_COUNT && k == FindFree(t.nodes)
    ensures var (u, code) := AddRcv(t, r, mac);
      && (code == 0 <==> CanReceive(t, r, mac))
      && (if code == 0 then Received(u, t, k, r, mac) else u == t)
  {
    FindIs(t, mac);
    var b := Blank(mac);
    if k < NODE_COUNT && r != RECEIVE_ALL {
      assert b.rcv[0 := r][0] == r;
    }
  }

  // ---- taking away ------------------------------------------------------------------------------------------------

  /** No valid entry is without ids. */
  ghost predicate Cleared(u: Tables) {
    forall j | 0 <= j < |u.nodes| && u.nodes[j].Valid() ::
      u.nodes[j].rcvall || exists a: nat, x: nat :: Sends(u, j, a, x) || Receives(u, j, a, x)
  }

  /** No entry is new or changed in kind, and who receives all stays. */
  ghost predicate Kept(u: Tables, t: Tables) {
    && |u.nodes| == |t.nodes|
    && forall j | 0 <= j < |t.nodes| ::
         && (u.nodes[j].Valid() ==>
               t.nodes[j].Valid() && u.nodes[j].mac == t.nodes[j].mac && u.nodes[j].rcvall == t.nodes[j].rcvall)
         && (t.nodes[j].Valid() && t.nodes[j].rcvall ==> u.nodes[j].Valid())
  }

  ghost predicate SameSends(u: Tables, t: Tables) {
    forall j: nat, a: nat, x: nat :: Sends(u, j, a, x) <==> Sends(t, j, a, x)
  }

  ghost predicate SameReceives(u: Tables, t: Tables) {
    forall j: nat, a: nat, x: nat :: Receives(u, j, a, x) <==> Receives(t, j, a, x)
  }

  /** Dropping the entries without ids changes nobody's ids. */
  lemma ClearOutcome(t: Tables)
    requires t.Shaped()
    ensures var u := ClearNodes(t);
      Cleared(u) && Kept(u, t) && SameSends(u, t) && SameReceives(u, t) && u.res == t.res
  {
    var u := ClearNodes(t);
    forall j: nat, a: nat, x: nat | Sends(t, j, a, x) || Receives(t, j, a, x)
      ensures !Idle(t.nodes[j])
    {
      assert x in t.nodes[j].trs || x in t.nodes[j].rcv;
    }
    forall j | 0 <= j < NODE_COUNT && u.nodes[j].Valid() && !u.nodes[j].rcvall
      ensures exists a: nat, x: nat :: Sends(u, j, a, x) || Receives(u, j, a, x)
    {
      var n := t.nodes[j];
      assert !Idle(n);
      if x :| x in n.trs && x != UNUSED {
        var a: nat :| a < |n.trs| && n.trs[a] == x;
        assert Sends(u, j, a, x);
      } else {
        var x :| x in n.rcv && x != UNUSED;
        var a: nat :| a < |n.rcv| && n.rcv[a] == x;
        assert Receives(u, j, a, x);
      }
    }
  }

  lemma KeptTrans(u: Tables, v: Tables, t: Tables)
    requires Kept(u, v) && Kept(v, t)
    ensures Kept(u, t)
  {
  }

  /** `del_res_config`: the resource is off and in nobody's list; every other id and resource is as before. */
  lemma DelResOutcome(t: Tables, r: nat)
    requires Inv(t) && UNUSED < r < RES_COUNT
    ensures var (u, code) := DelRes(t, r);
      && code == 0 && Kept(u, t) && Cleared(u)
      && (forall j: nat, a: nat, x: nat :: Sends(u, j, a, x) <==> Sends(t, j, a, x) && x != r)
      && (forall j: nat, a: nat, x: nat :: Receives(u, j, a, x) <==> Receives(t, j, a, x) && x != r)
      && u.res == t.res[r := t.res[r].(state := Unvalid)]
  {
    var nodes := MapNodes(t.nodes, n => StripRcv(StripTrs(n, r), r));
    var v := Tables(t.res[r := t.res[r].(state := Unvalid)], nodes);
    StrippedIds(t, r, v);
    ClearOutcome(v);
    KeptTrans(ClearNodes(v), v, t);
  }

  lemma StrippedIds(t: Tables, r: nat, v: Tables)
    requires t.Shaped() && r != UNUSED && v.nodes == MapNodes(t.nodes, n => StripRcv(StripTrs(n, r), r))
    ensures Kept(v, t) && forall j | 0 <= j < NODE_COUNT :: v.nodes[j].Shaped()
    ensures forall j: nat, a: nat, x: nat :: Sends(v, j, a, x) <==> Sends(t, j, a, x) && x != r
    ensures forall j: nat, a: nat, x: nat :: Receives(v, j, a, x) <==> Receives(t, j, a, x) && x != r
  {
  }

  /** `del_trs_res` succeeds exactly if the node sends the id; then nobody does, and every other list is as before. */
  lemma DelTrsOutcome(t: Tables, r: nat, mac: nat)
    requires Inv(t)
    ensures var (u, code) := DelTrs(t, r, mac);
      && (code == 0 <==> exists i: nat, a: nat :: NodeIs(t, i, mac) && Sends(t, i, a, r))
      && (code != 0 ==> u == t)
      && (code == 0 ==>
            && Kept(u, t) && Cleared(u) && u.res == t.res && SameReceives(u, t)
            && forall j: nat, a: nat, x: nat :: Sends(u, j, a, x) <==> Sends(t, j, a, x) && x != r)
  {
    FindIs(t, mac);
    var i := FindNode(t.nodes, mac);
    if r != UNUSED && i < NODE_COUNT {
      var n := t.nodes[i];
      var b := SlotOf(n.trs, r);
      assert NodeIs(t, i, mac);
      if b < TRS_COUNT {
        assert Sends(t, i, b, r);
        var v := t.(nodes := t.nodes[i := n.(trs := n.trs[b := UNUSED])]);
        TrsFreed(t, i, b, r, v);
        ClearOutcome(v);
        KeptTrans(ClearNodes(v), v, t);
      }
    }
  }

  lemma TrsFreed(t: Tables, i: nat, b: nat, r: nat, v: Tables)
    requires Inv(t) && Sends(t, i, b, r)
    requires v == t.(nodes := t.nodes[i := t.nodes[i].(trs := t.nodes[i].trs[b := UNUSED])])
    ensures v.Shaped() && Kept(v, t) && SameReceives(v, t)
    ensures forall j: nat, a: nat, x: nat :: Sends(v, j, a, x) <==> Sends(t, j, a, x) && x != r
  {
    forall j: nat, a: nat, x: nat
      ensures Sends(v, j, a, x) <==> Sends(t, j, a, x) && x != r
    {
      if Sends(t, j, a, x) && x == r {
        assert j == i && a == b;
      }
    }
  }

  /** `del_rcv_res` succeeds exactly if the node receives the id; then it no longer does, and every other list is as
      before. */
  lemma DelRcvOutcome(t: Tables, r: nat, mac: nat)
    requires Inv(t)
    ensures var (u, code) := DelRcv(t, r, mac);
      && (code == 0 <==> exists i: nat, a: nat :: NodeIs(t, i, mac) && Receives(t, i, a, r))
      && (code != 0 ==> u == t)
      && (code == 0 ==>
            && Kept(u, t) && Cleared(u) && u.res == t.res && SameSends(u, t)
            && forall j: nat, a: nat, x: nat ::
                 Receives(u, j, a, x) <==> Receives(t, j, a, x) && !(x == r && NodeIs(t, j, mac)))
  {
    FindIs(t, mac);
    var i := FindNode(t.nodes, mac);
    if r != UNUSED && i < NODE_COUNT {
      var n := t.nodes[i];
      var b := SlotOf(n.rcv, r);
      assert NodeIs(t, i, mac);
      if b < RCV_COUNT {
        assert Receives(t, i, b, r);
        var v := t.(nodes := t.nodes[i := n.(rcv := n.rcv[b := UNUSED])]);
        RcvFreed(t, i, b, r, v);
        ClearOutcome(v);
        KeptTrans(ClearNodes(v), v, t);
      }
    }
  }

  lemma RcvFreed(t: Tables, i: nat, b: nat, r: nat, v: Tables)
    requires Inv(t) && Receives(t, i, b, r)
    requires v == t.(nodes := t.nodes[i := t.nodes[i].(rcv := t.nodes[i].rcv[b := UNUSED])])
    ensures v.Shaped() && Kept(v, t) && SameSends(v, t)
    ensures forall j: nat, a: nat, x: nat :: Receives(v, j, a, x) <==> Receives(t, j, a, x) && !(x == r && j == i)
  {
    forall j: nat, a: nat, x: nat
      ensures Receives(v, j, a, x) <==> Receives(t, j, a, x) && !(x == r && j == i)
    {
      if Receives(t, j, a, x) && x == r && j == i {
        assert a == b;
      }
    }
  }

  /** The ids are in nobody's list and their resources off; nothing else has changed. */
  ghost predicate TookAway(u: Tables, t: Tables, ids: seq<nat>) {
    && Kept(u, t) && |u.res| == |t.res|
    && (forall j: nat, a: nat, x: nat :: Sends(u, j, a, x) <==> Sends(t, j, a, x) && x !in ids)
    && (forall j: nat, a: nat, x: nat :: Receives(u, j, a, x) <==> Receives(t, j, a, x) && x !in ids)
    && forall x | 0 <= x < |t.res| ::
         u.res[x] == if x in ids && x != UNUSED then t.res[x].(state := Unvalid) else t.res[x]
  }

  lemma TookAwayOne(t: Tables, r: nat, u: Tables)
    requires Inv(t) && r < RES_COUNT && u == if r == UNUSED then t else DelRes(t, r).0
    ensures Inv(u) && TookAway(u, t, [r])
  {
    DelResKeeps(t, r);
    if r == UNUSED {
      TookNothing(t);
    } else {
      DelResOutcome(t, r);
      TookOnly(u, t, r);
    }
  }

  lemma TookNothing(t: Tables)
    ensures TookAway(t, t, [UNUSED])
  {
  }

  lemma TookOnly(u: Tables, t: Tables, r: nat)
    requires Kept(u, t) && UNUSED < r < |t.res| && u.res == t.res[r := t.res[r].(state := Unvalid)]
    requires forall j: nat, a: nat, x: nat :: Sends(u, j, a, x) <==> Sends(t, j, a, x) && x != r
    requires forall j: nat, a: nat, x: nat :: Receives(u, j, a, x) <==> Receives(t, j, a, x) && x != r
    ensures TookAway(u, t, [r])
  {
  }

  lemma TookAwayBoth(u: Tables, v: Tables, t: Tables, a: seq<nat>, b: seq<nat>)
    requires TookAway(u, v, b) && TookAway(v, t, a)
    ensures TookAway(u, t, a + b)
  {
    KeptTrans(u, v, t);
    assert forall x :: x in a + b <==> x in a || x in b;
  }

  /** Deleting several resources takes exactly their ids away. */
  lemma {:induction false} DelAllOutcome(t: Tables, ids: seq<nat>)
    requires Inv(t) && forall a | 0 <= a < |ids| :: ids[a] < RES_COUNT
    ensures TookAway(DelAll(t, ids), t, ids)
    decreases |ids|
  {
    if ids != [] {
      var r, rest := ids[0], ids[1..];
      var v := if r == UNUSED then t else DelRes(t, r).0;
      TookAwayOne(t, r, v);
      DelAllOutcome(v, rest);
      TookAwayBoth(DelAll(v, rest), v, t, [r], rest);
      assert ids == [r] + rest;
    }
  }

  /** `del_node_config` fails exactly for an unknown node; else the node is gone, the ids it sent are in nobody's list
      and off, and everything else is as before. */
  lemma DelNodeExactly(t: Tables, mac: nat)
    requires Inv(t)
    ensures var (u, code) := DelNode(t, mac);
      && (code == 0 <==> !Unknown(t, mac)) && (code != 0 ==> u == t)
      && (code == 0 ==> NodeIs(t, FindNode(t.nodes, mac), mac) && NodeGone(u, t, FindNode(t.nodes, mac), mac))
  {
    FindIs(t, mac);
    var i := FindNode(t.nodes, mac);
    if i < NODE_COUNT {
      var v := t.(nodes := t.nodes[i := t.nodes[i].(state := Unvalid)]);
      EntryGone(t, mac, i, v);
      EntryOnly(t, i, v);
      DelAllOutcome(v, t.nodes[i].trs);
      GoneAfterAll(t, i, mac, v, DelAll(v, t.nodes[i].trs));
    }
  }

  /** The node at `i` is gone with everything it sent. */
  ghost predicate NodeGone(u: Tables, t: Tables, i: nat, mac: nat)
    requires i < |t.nodes| && |u.res| == |t.res| == RES_COUNT
  {
    var ids := t.nodes[i].trs;
    && Unknown(u, mac) && Kept(u, t.(nodes := t.nodes[i := t.nodes[i].(state := Unvalid)]))
    && (forall j: nat, a: nat, x: nat :: Sends(u, j, a, x) <==> Sends(t, j, a, x) && j != i && x !in ids)
    && (forall j: nat, a: nat, x: nat :: Receives(u, j, a, x) <==> Receives(t, j, a, x) && j != i && x !in ids)
    && forall x | 0 < x < RES_COUNT :: u.res[x] == if x in ids then t.res[x].(state := Unvalid) else t.res[x]
  }

  lemma GoneAfterAll(t: Tables, i: nat, mac: nat, v: Tables, u: Tables)
    requires i < |t.nodes| && |t.res| == RES_COUNT && TookAway(u, v, t.nodes[i].trs)
    requires v == t.(nodes := t.nodes[i := t.nodes[i].(state := Unvalid)])
    requires forall k | 0 <= k < |v.nodes| && v.nodes[k].Valid() :: v.nodes[k].mac != mac
    requires forall j: nat, a: nat, x: nat :: Sends(v, j, a, x) <==> Sends(t, j, a, x) && j != i
    requires forall j: nat, a: nat, x: nat :: Receives(v, j, a, x) <==> Receives(t, j, a, x) && j != i
    ensures |u.res| == |t.res| && NodeGone(u, t, i, mac)
  {
    assert forall j: nat :: NodeIs(u, j, mac) ==> NodeIs(v, j, mac);
  }

  lemma EntryOnly(t: Tables, i: nat, v: Tables)
    requires t.Shaped() && i < NODE_COUNT && v == t.(nodes := t.nodes[i := t.nodes[i].(state := Unvalid)])
    ensures forall j: nat, a: nat, x: nat :: Sends(v, j, a, x) <==> Sends(t, j, a, x) && j != i
    ensures forall j: nat, a: nat, x: nat :: Receives(v, j, a, x) <==> Receives(t, j, a, x) && j != i
  {
  }

  // ---- sending ----------------------------------------------------------------------------------------------------

  /** `add_trs_res` leaves every other id as it is, whoever has it, and takes the id from the node's receive list. */
  lemma AddTrsFrame(t: Tables, r: nat, mac: nat, send2all: bool)
    requires Inv(t) && UNUSED < r < RES_COUNT && t.res[r].state == Enabled
    ensures var (u, code) := AddTrs(t, r, mac, send2all);
      && u.res == t.res[r := t.res[r].(send2all := send2all)]
      && (forall j: nat, a: nat, x: nat | x != r :: Sends(u, j, a, x) <==> Sends(t, j, a, x))
      && (forall j: nat, a: nat, x: nat ::
            Receives(u, j, a, x) <==> Receives(t, j, a, x) && !(x == r && NodeIs(t, j, mac)))
  {
    var nodes := MapNodes(t.nodes, n => StripTrs(n, r));
    var v := Tables(t.res[r := t.res[r].(send2all := send2all)], nodes);
    Stripped(t, r, send2all);
    TrsStripped(t, r, v);
    GivenFrame(v, r, mac);
    assert AddTrs(t, r, mac, send2all).0 == v.(nodes := Given(nodes, r, mac).0);
    assert forall j: nat :: NodeIs(v, j, mac) <==> NodeIs(t, j, mac);
  }

  lemma TrsStripped(t: Tables, r: nat, v: Tables)
    requires t.Shaped() && r != UNUSED && v.nodes == MapNodes(t.nodes, n => StripTrs(n, r))
    ensures SameReceives(v, t)
    ensures forall j: nat, a: nat, x: nat :: Sends(v, j, a, x) <==> Sends(t, j, a, x) && x != r
  {
  }

  lemma GivenFrame(v: Tables, r: nat, mac: nat)
    requires Inv(v) && r != UNUSED
    ensures var u := v.(nodes := Given(v.nodes, r, mac).0);
      && (forall j: nat, a: nat, x: nat | x != r :: Sends(u, j, a, x) <==> Sends(v, j, a, x))
      && (forall j: nat, a: nat, x: nat ::
            Receives(u, j, a, x) <==> Receives(v, j, a, x) && !(x == r && NodeIs(v, j, mac)))
  {
    FindIs(v, mac);
    var i, k := FindNode(v.nodes, mac), FindFree(v.nodes);
    if i < NODE_COUNT {
      var n := StripRcv(v.nodes[i], r);
      var j := SlotOf(n.trs, UNUSED);
      var m := if j < |n.trs| then n.(trs := n.trs[j := r]) else n;
      assert j < |n.trs| ==> n.trs[j] == UNUSED;
      EntryChanged(v, r, i, m);
    } else if k < NODE_COUNT {
      EntryNew(v, r, k, mac);
    }
  }

  lemma EntryChanged(v: Tables, r: nat, i: nat, m: Node)
    requires v.Shaped() && i < NODE_COUNT && v.nodes[i].Valid() && m.Valid() && r != UNUSED
    requires |m.trs| == TRS_COUNT && m.rcv == Without(v.nodes[i].rcv, r)
    requires forall a | 0 <= a < TRS_COUNT && m.trs[a] != v.nodes[i].trs[a] ::
               m.trs[a] == r && v.nodes[i].trs[a] == UNUSED
    ensures var u := v.(nodes := v.nodes[i := m]);
      && (forall j: nat, a: nat, x: nat | x != r :: Sends(u, j, a, x) <==> Sends(v, j, a, x))
      && (forall j: nat, a: nat, x: nat :: Receives(u, j, a, x) <==> Receives(v, j, a, x) && !(x == r && j == i))
  {
  }

  lemma EntryNew(v: Tables, r: nat, k: nat, mac: nat)
    requires v.Shaped() && k < NODE_COUNT && !v.nodes[k].Valid() && r != UNUSED
    ensures var u := v.(nodes := v.nodes[k := Blank(mac).(trs := Blank(mac).trs[0 := r])]);
      && (forall j: nat, a: nat, x: nat | x != r :: Sends(u, j, a, x) <==> Sends(v, j, a, x))
      && SameReceives(u, v)
  {
  }

  // ---- configuring ------------------------------------------------------------------------------------------------

  /** `add_res_config` refuses only id 0; else the resource is enabled with what was asked for, at the position given
      or, for position 0, right behind the resource before, and everything else is as before. */
  lemma AddResOutcome(t: Tables, r: nat, c: Resource)
    requires t.Shaped() && r < RES_COUNT
    ensures var (u, code) := AddRes(t, r, c);
      && u.nodes == t.nodes && |u.res| == |t.res| && (forall x | 0 <= x < RES_COUNT && x != r :: u.res[x] == t.res[x])
      && (code == 0 <==> r != UNUSED) && (code != 0 ==> u == t)
      && (code == 0 ==>
            var d := u.res[r];
            && d.state == Enabled && d.resid == r && !d.send2all
            && d.chan == c.chan && d.freq == c.freq && d.len == c.len
            && (c.pos != 0 ==> d.pos == c.pos)
            && (c.pos == 0 ==> if r == 1 then d.pos == 4 else d.pos == (t.res[r - 1].pos + t.res[r - 1].len) % 256))
  {
  }

  /** Resources 1 to `n` added in order without positions. */
  function AddInOrder(t: Tables, cs: seq<Resource>): (u: Tables)
    requires t.Shaped() && |cs| < RES_COUNT
    ensures u.Shaped()
  {
    if cs == [] then t
    else
      var n := |cs|;
      AddRes(AddInOrder(t, cs[..n - 1]), n, cs[n - 1].(pos := 0)).0
  }

  function Total(cs: seq<Resource>): nat {
    if cs == [] then 0 else Total(cs[..|cs| - 1]) + cs[|cs| - 1].len
  }

  /** They lie one behind the other from symbol 4 on, with no gap and no overlap, as long as 256 symbols suffice. */
  lemma {:induction false} Packed(t: Tables, cs: seq<Resource>, i: nat)
    requires t.Shaped() && |cs| < RES_COUNT && 1 <= i <= |cs| && 4 + Total(cs) < 256
    ensures var d := AddInOrder(t, cs).res[i];
      d.state == Enabled && d.len == cs[i - 1].len && d.pos == 4 + Total(cs[..i - 1])
    decreases |cs|
  {
    var n := |cs|;
    var past := cs[..n - 1];
    if i < n {
      Packed(t, past, i);
      assert past[..i - 1] == cs[..i - 1];
    } else if n > 1 {
      Packed(t, past, n - 1);
      assert past[..n - 2] == cs[..n - 2] && cs[..n - 1][..n - 2] == cs[..n - 2];
      assert Total(past) == Total(past[..n - 2]) + past[n - 2].len;
    }
  }
}
