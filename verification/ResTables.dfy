/** The resource manager's two tables: resource configurations by id, and for each configured node the ids it
    transmits and receives. Each operation as a function of the tables, and what they all keep. */
module ResTables {

  const RES_COUNT: nat := 254
  const NODE_COUNT: nat := 64
  const TRS_COUNT: nat := 8
  const RCV_COUNT: nat := 16
  const RECEIVE_ALL: nat := 0xFF
  const UNUSED: nat := 0

  datatype CfgState = Unvalid | Disabled | Enabled

  datatype Resource = Resource(resid: nat, chan: nat, freq: nat, len: nat, state: CfgState, send2all: bool, pos: nat)

  /** The ids a node transmits or receives fill fixed slots; `UNUSED` marks a free one. */
  datatype Node = Node(mac: nat, state: CfgState, rcvall: bool, trs: seq<nat>, rcv: seq<nat>) {
    predicate Shaped() {
      |trs| == TRS_COUNT && |rcv| == RCV_COUNT
    }

    predicate Valid() {
      state != Unvalid
    }
  }

  datatype Tables = Tables(res: seq<Resource>, nodes: seq<Node>) {
    predicate Shaped() {
      |res| == RES_COUNT && |nodes| == NODE_COUNT && forall i | 0 <= i < |nodes| :: nodes[i].Shaped()
    }
  }

  // ---- slots ------------------------------------------------------------------------------------------------------

  /** Every occurrence of `r` freed. */
  function Without(s: seq<nat>, r: nat): (t: seq<nat>)
    ensures |t| == |s|
  {
    seq(|s|, j requires 0 <= j < |s| => if s[j] == r then UNUSED else s[j])
  }

  /** The first slot holding `r`, or the number of slots. */
  function SlotOf(s: seq<nat>, r: nat): (j: nat)
    ensures j <= |s|
    ensures j < |s| ==> s[j] == r
    ensures forall k | 0 <= k < j :: s[k] != r
  {
    if s == [] || s[0] == r then 0 else 1 + SlotOf(s[1..], r)
  }

  function StripTrs(n: Node, r: nat): Node {
    if n.Valid() then n.(trs := Without(n.trs, r)) else n
  }

  function StripRcv(n: Node, r: nat): Node {
    if n.Valid() then n.(rcv := Without(n.rcv, r)) else n
  }

  predicate Idle(n: Node) {
    n.Valid() && !n.rcvall && (forall x | x in n.trs :: x == UNUSED) && (forall x | x in n.rcv :: x == UNUSED)
  }

  /** A node that neither sends nor receives loses its entry. */
  function Drop(n: Node): Node {
    if Idle(n) then n.(state := Unvalid) else n
  }

  function MapNodes(nodes: seq<Node>, f: Node -> Node): (r: seq<Node>)
    ensures |r| == |nodes| && forall i | 0 <= i < |nodes| :: r[i] == f(nodes[i])
  {
    seq(|nodes|, i requires 0 <= i < |nodes| => f(nodes[i]))
  }

  /** The first valid node with this MAC, or the number of nodes. */
  function FindNode(nodes: seq<Node>, mac: nat): (i: nat)
    ensures i <= |nodes|
    ensures i < |nodes| ==> nodes[i].Valid() && nodes[i].mac == mac
    ensures forall k | 0 <= k < i :: nodes[k].Valid() ==> nodes[k].mac != mac
  {
    if nodes == [] || (nodes[0].Valid() && nodes[0].mac == mac) then 0 else 1 + FindNode(nodes[1..], mac)
  }

  /** The first entry not in use, or the number of nodes. */
  function FindFree(nodes: seq<Node>): (i: nat)
    ensures i <= |nodes|
    ensures i < |nodes| ==> !nodes[i].Valid()
    ensures forall k | 0 <= k < i :: nodes[k].Valid()
  {
    if nodes == [] || !nodes[0].Valid() then 0 else 1 + FindFree(nodes[1..])
  }

  function Blank(mac: nat): (n: Node)
    ensures n.Shaped() && n.Valid()
  {
    Node(mac, Enabled, false, seq(TRS_COUNT, _ => UNUSED), seq(RCV_COUNT, _ => UNUSED))
  }

  // ---- the operations ---------------------------------------------------------------------------------------------

  /** `clear_node_config`, over the node table it is meant for. */
  function ClearNodes(t: Tables): Tables {
    t.(nodes := MapNodes(t.nodes, Drop))
  }

  /** `add_res_config`: a position of 0 is replaced by the end of the resource before. */
  function AddRes(t: Tables, r: nat, c: Resource): (Tables, nat)
    requires t.Shaped() && r < RES_COUNT
  {
    if r == 0 then (t, 1)
    else
      var pos := if c.pos != 0 then c.pos else if r == 1 then 4 else (t.res[r - 1].pos + t.res[r - 1].len) % 256;
      (t.(res := t.res[r := c.(resid := r, state := Enabled, send2all := false, pos := pos)]), 0)
  }

  /** `del_res_config`: the id leaves every valid node's lists. */
  function DelRes(t: Tables, r: nat): (Tables, nat)
    requires t.Shaped() && r < RES_COUNT
  {
    if r == 0 then (t, 1)
    else
      var nodes := MapNodes(t.nodes, n => StripRcv(StripTrs(n, r), r));
      (ClearNodes(Tables(t.res[r := t.res[r].(state := Unvalid)], nodes)), 0)
  }

  /** The second half of `add_trs_res`: the id goes to the node's first free slot, or to a new entry. */
  function Given(nodes: seq<Node>, r: nat, mac: nat): (seq<Node>, nat)
    requires |nodes| == NODE_COUNT && forall i | 0 <= i < |nodes| :: nodes[i].Shaped()
  {
    var i := FindNode(nodes, mac);
    if i < NODE_COUNT then
      var n := StripRcv(nodes[i], r);
      var j := SlotOf(n.trs, UNUSED);
      if j < |n.trs| then (nodes[i := n.(trs := n.trs[j := r])], 0)
      else (nodes[i := n], 1)
    else
      var k := FindFree(nodes);
      if k < NODE_COUNT then
        var b := Blank(mac);
        (nodes[k := b.(trs := b.trs[0 := r])], 0)
      else (nodes, 2)
  }

  /** `add_trs_res`: the id is first taken from whoever transmits it, then given to the node. */
  function AddTrs(t: Tables, r: nat, mac: nat, send2all: bool): (Tables, nat)
    requires t.Shaped() && r < RES_COUNT
  {
    if r == 0 || t.res[r].state != Enabled then (t, 1)
    else
      var (nodes, code) := Given(MapNodes(t.nodes, n => StripTrs(n, r)), r, mac);
      (Tables(t.res[r := t.res[r].(send2all := send2all)], nodes), code)
  }

  /** `add_rcv_res`. */
  function AddRcv(t: Tables, r: nat, mac: nat): (Tables, nat)
    requires t.Shaped() && (r < RES_COUNT || r == RECEIVE_ALL)
  {
    if r == 0 || (r != RECEIVE_ALL && t.res[r].state != Enabled) then (t, 1)
    else
      var i := FindNode(t.nodes, mac);
      if i < NODE_COUNT then
        var n := t.nodes[i];
        if r == RECEIVE_ALL then (t.(nodes := t.nodes[i := n.(rcvall := true)]), 0)
        else if r in n.trs || r in n.rcv then (t, 0)
        else
          var j := SlotOf(n.rcv, UNUSED);
          if j < |n.rcv| then (t.(nodes := t.nodes[i := n.(rcv := n.rcv[j := r])]), 0) else (t, 1)
      else
        var k := FindFree(t.nodes);
        if k < NODE_COUNT then
          var b := Blank(mac);
          var n := if r == RECEIVE_ALL then b.(rcvall := true) else b.(rcv := b.rcv[0 := r]);
          (t.(nodes := t.nodes[k := n]), 0)
        else (t, 2)
  }

  /** `del_trs_res`. */
  function DelTrs(t: Tables, r: nat, mac: nat): (Tables, nat)
    requires t.Shaped()
  {
    var i := FindNode(t.nodes, mac);
    if r == 0 || i == NODE_COUNT then (t, 1)
    else
      var n := t.nodes[i];
      var j := SlotOf(n.trs, r);
      if j == |n.trs| then (t, 1)
      else (ClearNodes(t.(nodes := t.nodes[i := n.(trs := n.trs[j := UNUSED])])), 0)
  }

  /** `del_rcv_res`. */
  function DelRcv(t: Tables, r: nat, mac: nat): (Tables, nat)
    requires t.Shaped()
  {
    var i := FindNode(t.nodes, mac);
    if r == 0 || i == NODE_COUNT then (t, 1)
    else
      var n := t.nodes[i];
      var j := SlotOf(n.rcv, r);
      if j == |n.rcv| then (t, 1)
      else (ClearNodes(t.(nodes := t.nodes[i := n.(rcv := n.rcv[j := UNUSED])])), 0)
  }

  /** The resources `ids` deleted one after the other. */
  function DelAll(t: Tables, ids: seq<nat>): (u: Tables)
    requires t.Shaped() && forall a | 0 <= a < |ids| :: ids[a] < RES_COUNT
    ensures u.Shaped()
    decreases |ids|
  {
    if ids == [] then t
    else
      DelResShaped(t, ids[0]);
      DelAll(if ids[0] == UNUSED then t else DelRes(t, ids[0]).0, ids[1..])
  }

  /** `del_node_config`: the entry goes, and with it the resources it transmitted. */
  function DelNode(t: Tables, mac: nat): (Tables, nat)
    requires t.Shaped() && InRange(t)
  {
    var i := FindNode(t.nodes, mac);
    if i == NODE_COUNT then (t, 1)
    else
      var n := t.nodes[i];
      (DelAll(t.(nodes := t.nodes[i := n.(state := Unvalid)]), n.trs), 0)
  }

  lemma DelResShaped(t: Tables, r: nat)
    requires t.Shaped() && r < RES_COUNT
    ensures DelRes(t, r).0.Shaped()
  {
  }

  // ---- the invariant ----------------------------------------------------------------------------------------------

  /** Valid node `i` transmits `r` in slot `a`. */
  predicate Sends(t: Tables, i: nat, a: nat, r: nat) {
    i < |t.nodes| && t.nodes[i].Valid() && a < |t.nodes[i].trs| && t.nodes[i].trs[a] == r && r != UNUSED
  }

  predicate Receives(t: Tables, i: nat, a: nat, r: nat) {
    i < |t.nodes| && t.nodes[i].Valid() && a < |t.nodes[i].rcv| && t.nodes[i].rcv[a] == r && r != UNUSED
  }

  /** Each id fills at most one transmit slot among all valid nodes. */
  ghost predicate OneSender(t: Tables) {
    forall i: nat, a: nat, j: nat, b: nat, r: nat :: Sends(t, i, a, r) && Sends(t, j, b, r) ==> i == j && a == b
  }

  /** No valid node both sends and receives an id, and none receives it twice. */
  ghost predicate OneRole(t: Tables) {
    && (forall i: nat, a: nat, b: nat, r: nat :: !(Sends(t, i, a, r) && Receives(t, i, b, r)))
    && (forall i: nat, a: nat, b: nat, r: nat :: Receives(t, i, a, r) && Receives(t, i, b, r) ==> a == b)
  }

  /** Valid nodes have distinct MACs. */
  ghost predicate DistinctMacs(t: Tables) {
    forall i, j | 0 <= i < j < |t.nodes| && t.nodes[i].Valid() && t.nodes[j].Valid() :: t.nodes[i].mac != t.nodes[j].mac
  }

  /** Every id a valid node lists is that of an enabled resource. */
  ghost predicate Configured(t: Tables) {
    && (forall i: nat, a: nat, r: nat :: Sends(t, i, a, r) ==> r < |t.res| && t.res[r].state == Enabled)
    && (forall i: nat, a: nat, r: nat :: Receives(t, i, a, r) ==> r < |t.res| && t.res[r].state == Enabled)
  }

  /** Ids in transmit slots are table indices, whether the entry is valid or not. */
  predicate InRange(t: Tables) {
    forall i, a | 0 <= i < |t.nodes| && 0 <= a < |t.nodes[i].trs| :: t.nodes[i].trs[a] < RES_COUNT
  }

  ghost predicate Inv(t: Tables) {
    t.Shaped() && OneSender(t) && OneRole(t) && DistinctMacs(t) && Configured(t) && InRange(t)
  }

  /** No valid node lists the id. */
  ghost predicate Unlisted(t: Tables, r: nat) {
    forall i: nat, a: nat :: !Sends(t, i, a, r) && !Receives(t, i, a, r)
  }

  // ---- operations that only take away -----------------------------------------------------------------------------

  /** `u` lists nothing `t` does not, and its valid nodes are valid nodes of `t`. */
  ghost predicate Within(u: Tables, t: Tables) {
    && |u.nodes| == |t.nodes|
    && (forall i | 0 <= i < |u.nodes| && u.nodes[i].Valid() :: t.nodes[i].Valid() && u.nodes[i].mac == t.nodes[i].mac)
    && (forall i: nat, a: nat, r: nat :: Sends(u, i, a, r) ==> Sends(t, i, a, r))
    && (forall i: nat, a: nat, r: nat :: Receives(u, i, a, r) ==> Receives(t, i, a, r))
  }

  lemma WithinKeeps(u: Tables, t: Tables)
    requires Inv(t) && u.Shaped() && InRange(u) && Within(u, t) && Configured(u)
    ensures Inv(u)
  {
  }

  /** A node entry with some of its slots freed, or dropped. */
  predicate Less(m: Node, n: Node) {
    && (n.Shaped() ==> m.Shaped())
    && (m.Valid() ==> n.Valid() && m.mac == n.mac)
    && |m.trs| == |n.trs| && |m.rcv| == |n.rcv|
    && (forall a | 0 <= a < |m.trs| :: m.trs[a] == UNUSED || m.trs[a] == n.trs[a])
    && (forall a | 0 <= a < |m.rcv| :: m.rcv[a] == UNUSED || m.rcv[a] == n.rcv[a])
  }

  lemma LessIsWithin(u: Tables, t: Tables)
    requires t.Shaped() && InRange(t) && |u.res| == |t.res| && |u.nodes| == |t.nodes|
    requires forall i | 0 <= i < |u.nodes| :: Less(u.nodes[i], t.nodes[i])
    ensures u.Shaped() && InRange(u) && Within(u, t)
  {
  }

  lemma ClearKeeps(t: Tables)
    requires Inv(t)
    ensures Inv(ClearNodes(t)) && Within(ClearNodes(t), t)
  {
    LessIsWithin(ClearNodes(t), t);
    WithinKeeps(ClearNodes(t), t);
  }

  /** After `del_res_config` no valid node lists the id, and everything else that was kept is configured. */
  lemma DelResKeeps(t: Tables, r: nat)
    requires Inv(t) && r < RES_COUNT
    ensures Inv(DelRes(t, r).0) && Within(DelRes(t, r).0, t)
    ensures r != UNUSED ==> Unlisted(DelRes(t, r).0, r)
  {
    if r != UNUSED {
      var nodes := MapNodes(t.nodes, n => StripRcv(StripTrs(n, r), r));
      var u := Tables(t.res[r := t.res[r].(state := Unvalid)], nodes);
      StrippedEverywhere(t, r, u);
      ClearKeeps(u);
      assert DelRes(t, r).0 == ClearNodes(u);
    }
  }

  lemma StrippedEverywhere(t: Tables, r: nat, u: Tables)
    requires Inv(t) && UNUSED < r < RES_COUNT
    requires u.res == t.res[r := t.res[r].(state := Unvalid)]
    requires u.nodes == MapNodes(t.nodes, n => StripRcv(StripTrs(n, r), r))
    ensures Inv(u) && Within(u, t) && Unlisted(u, r)
  {
    LessIsWithin(u, t);
    WithinKeeps(u, t);
  }

  lemma DelTrsKeeps(t: Tables, r: nat, mac: nat)
    requires Inv(t)
    ensures Inv(DelTrs(t, r, mac).0)
  {
    var i := FindNode(t.nodes, mac);
    if r != UNUSED && i < NODE_COUNT && SlotOf(t.nodes[i].trs, r) < |t.nodes[i].trs| {
      var n := t.nodes[i];
      var u := t.(nodes := t.nodes[i := n.(trs := n.trs[SlotOf(n.trs, r) := UNUSED])]);
      LessIsWithin(u, t);
      WithinKeeps(u, t);
      ClearKeeps(u);
    }
  }

  lemma DelRcvKeeps(t: Tables, r: nat, mac: nat)
    requires Inv(t)
    ensures Inv(DelRcv(t, r, mac).0)
  {
    var i := FindNode(t.nodes, mac);
    if r != UNUSED && i < NODE_COUNT && SlotOf(t.nodes[i].rcv, r) < |t.nodes[i].rcv| {
      var n := t.nodes[i];
      var u := t.(nodes := t.nodes[i := n.(rcv := n.rcv[SlotOf(n.rcv, r) := UNUSED])]);
      LessIsWithin(u, t);
      WithinKeeps(u, t);
      ClearKeeps(u);
    }
  }

  lemma {:induction false} DelAllKeeps(t: Tables, ids: seq<nat>)
    requires Inv(t) && forall a | 0 <= a < |ids| :: ids[a] < RES_COUNT
    ensures Inv(DelAll(t, ids)) && Within(DelAll(t, ids), t)
    decreases |ids|
  {
    if ids != [] {
      DelResKeeps(t, ids[0]);
      var u := if ids[0] == UNUSED then t else DelRes(t, ids[0]).0;
      DelAllKeeps(u, ids[1..]);
    }
  }

  /** The first step of `del_node_config`: the entry is no longer valid, and no other has its MAC. */
  lemma EntryGone(t: Tables, mac: nat, i: nat, u: Tables)
    requires Inv(t) && i == FindNode(t.nodes, mac) < NODE_COUNT
    requires u == t.(nodes := t.nodes[i := t.nodes[i].(state := Unvalid)])
    ensures Inv(u) && forall k | 0 <= k < NODE_COUNT && u.nodes[k].Valid() :: u.nodes[k].mac != mac
  {
    LessIsWithin(u, t);
    WithinKeeps(u, t);
    forall k | 0 <= k < NODE_COUNT && u.nodes[k].Valid()
      ensures u.nodes[k].mac != mac
    {
      assert k != i && t.nodes[k].Valid();
    }
  }

  lemma DelNodeKeeps(t: Tables, mac: nat)
    requires Inv(t)
    ensures Inv(DelNode(t, mac).0)
  {
    var i := FindNode(t.nodes, mac);
    if i < NODE_COUNT {
      var u := t.(nodes := t.nodes[i := t.nodes[i].(state := Unvalid)]);
      EntryGone(t, mac, i, u);
      DelAllKeeps(u, t.nodes[i].trs);
    }
  }

  lemma AddResKeeps(t: Tables, r: nat, c: Resource)
    requires Inv(t) && r < RES_COUNT
    ensures Inv(AddRes(t, r, c).0)
  {
    var u := AddRes(t, r, c).0;
    assert Within(u, t);
    WithinKeeps(u, t);
  }

  // ---- operations that add ----------------------------------------------------------------------------------------

  /** An id nobody transmits, put in a free slot of a node that does not receive it. */
  lemma PutTrs(t: Tables, i: nat, j: nat, r: nat)
    requires Inv(t) && i < NODE_COUNT && t.nodes[i].Valid() && j < TRS_COUNT && t.nodes[i].trs[j] == UNUSED
    requires UNUSED < r < RES_COUNT && t.res[r].state == Enabled
    requires forall k: nat, a: nat :: !Sends(t, k, a, r)
    requires forall a: nat :: !Receives(t, i, a, r)
    ensures Inv(t.(nodes := t.nodes[i := t.nodes[i].(trs := t.nodes[i].trs[j := r])]))
  {
    var u := t.(nodes := t.nodes[i := t.nodes[i].(trs := t.nodes[i].trs[j := r])]);
    assert forall k: nat, a: nat, x: nat :: Sends(u, k, a, x) ==> Sends(t, k, a, x) || (k == i && a == j && x == r);
    assert forall k: nat, a: nat, x: nat :: Receives(u, k, a, x) ==> Receives(t, k, a, x);
  }

  /** An id the node does not list, put in a free receive slot. */
  lemma PutRcv(t: Tables, i: nat, j: nat, r: nat)
    requires Inv(t) && i < NODE_COUNT && t.nodes[i].Valid() && j < RCV_COUNT && t.nodes[i].rcv[j] == UNUSED
    requires UNUSED < r < RES_COUNT && t.res[r].state == Enabled
    requires r !in t.nodes[i].trs && r !in t.nodes[i].rcv
    ensures Inv(t.(nodes := t.nodes[i := t.nodes[i].(rcv := t.nodes[i].rcv[j := r])]))
  {
    var u := t.(nodes := t.nodes[i := t.nodes[i].(rcv := t.nodes[i].rcv[j := r])]);
    assert forall k: nat, a: nat, x: nat ::
      Receives(u, k, a, x) ==> Receives(t, k, a, x) || (k == i && a == j && x == r);
    assert forall k: nat, a: nat, x: nat :: Sends(u, k, a, x) ==> Sends(t, k, a, x);
  }

  /** A fresh entry for a MAC no valid node has. */
  lemma PutBlank(t: Tables, k: nat, mac: nat)
    requires Inv(t) && k < NODE_COUNT && !t.nodes[k].Valid() && FindNode(t.nodes, mac) == NODE_COUNT
    ensures var u := t.(nodes := t.nodes[k := Blank(mac)]);
      Inv(u) && forall i: nat, a: nat, x: nat :: Sends(u, i, a, x) ==> Sends(t, i, a, x)
  {
    var u := t.(nodes := t.nodes[k := Blank(mac)]);
    assert forall i: nat, a: nat, x: nat :: Sends(u, i, a, x) ==> Sends(t, i, a, x);
    assert forall i: nat, a: nat, x: nat :: Receives(u, i, a, x) ==> Receives(t, i, a, x);
  }

  /** The first steps of `add_trs_res`: after them nobody transmits the id. */
  lemma Stripped(t: Tables, r: nat, send2all: bool)
    requires Inv(t) && UNUSED < r < RES_COUNT
    ensures var u := Tables(t.res[r := t.res[r].(send2all := send2all)], MapNodes(t.nodes, n => StripTrs(n, r)));
      && Inv(u) && Within(u, t) && (forall k: nat, a: nat :: !Sends(u, k, a, r))
  {
    var u := Tables(t.res[r := t.res[r].(send2all := send2all)], MapNodes(t.nodes, n => StripTrs(n, r)));
    LessIsWithin(u, t);
    WithinKeeps(u, t);
  }

  lemma StripRcvAt(t: Tables, i: nat, r: nat)
    requires Inv(t) && i < NODE_COUNT && t.nodes[i].Valid() && r != UNUSED
    ensures var u := t.(nodes := t.nodes[i := StripRcv(t.nodes[i], r)]);
      && Inv(u) && Within(u, t) && (forall a: nat :: !Receives(u, i, a, r))
  {
    var u := t.(nodes := t.nodes[i := StripRcv(t.nodes[i], r)]);
    LessIsWithin(u, t);
    WithinKeeps(u, t);
  }

  /** Giving a node an id that nobody transmits. */
  lemma GivenKeeps(u: Tables, r: nat, mac: nat)
    requires Inv(u) && UNUSED < r < RES_COUNT && u.res[r].state == Enabled
    requires forall k: nat, a: nat :: !Sends(u, k, a, r)
    ensures Inv(u.(nodes := Given(u.nodes, r, mac).0))
  {
    var i, k := FindNode(u.nodes, mac), FindFree(u.nodes);
    if i < NODE_COUNT {
      StripRcvAt(u, i, r);
      var v := u.(nodes := u.nodes[i := StripRcv(u.nodes[i], r)]);
      var j := SlotOf(v.nodes[i].trs, UNUSED);
      if j < TRS_COUNT {
        PutTrs(v, i, j, r);
        assert v.nodes[i := v.nodes[i].(trs := v.nodes[i].trs[j := r])] ==
               u.nodes[i := v.nodes[i].(trs := v.nodes[i].trs[j := r])];
      }
    } else if k < NODE_COUNT {
      PutBlank(u, k, mac);
      var v := u.(nodes := u.nodes[k := Blank(mac)]);
      PutTrs(v, k, 0, r);
      assert v.nodes[k := v.nodes[k].(trs := v.nodes[k].trs[0 := r])] ==
             u.nodes[k := v.nodes[k].(trs := v.nodes[k].trs[0 := r])];
    }
  }

  lemma AddTrsKeeps(t: Tables, r: nat, mac: nat, send2all: bool)
    requires Inv(t) && r < RES_COUNT
    ensures Inv(AddTrs(t, r, mac, send2all).0)
  {
    if r != UNUSED && t.res[r].state == Enabled {
      var u := Tables(t.res[r := t.res[r].(send2all := send2all)], MapNodes(t.nodes, n => StripTrs(n, r)));
      Stripped(t, r, send2all);
      GivenKeeps(u, r, mac);
      assert AddTrs(t, r, mac, send2all).0 == u.(nodes := Given(u.nodes, r, mac).0);
    }
  }

  lemma AddRcvNew(t: Tables, r: nat, mac: nat)
    requires Inv(t) && (r < RES_COUNT || r == RECEIVE_ALL) && FindNode(t.nodes, mac) == NODE_COUNT
    ensures Inv(AddRcv(t, r, mac).0)
  {
    var u, k := AddRcv(t, r, mac).0, FindFree(t.nodes);
    if u != t {
      PutBlank(t, k, mac);
      var v := t.(nodes := t.nodes[k := Blank(mac)]);
      if r == RECEIVE_ALL {
        var w := v.(nodes := v.nodes[k := Blank(mac).(rcvall := true)]);
        AllReceived(v, k, w);
        assert u.nodes == w.nodes;
      } else {
        PutRcv(v, k, 0, r);
        assert v.nodes[k := v.nodes[k].(rcv := v.nodes[k].rcv[0 := r])] ==
               t.nodes[k := v.nodes[k].(rcv := v.nodes[k].rcv[0 := r])];
      }
    }
  }

  lemma AllReceived(t: Tables, i: nat, u: Tables)
    requires Inv(t) && i < NODE_COUNT && u == t.(nodes := t.nodes[i := t.nodes[i].(rcvall := true)])
    ensures Inv(u)
  {
    LessIsWithin(u, t);
    WithinKeeps(u, t);
  }

  lemma AddRcvKeeps(t: Tables, r: nat, mac: nat)
    requires Inv(t) && (r < RES_COUNT || r == RECEIVE_ALL)
    ensures Inv(AddRcv(t, r, mac).0)
  {
    var u, i := AddRcv(t, r, mac).0, FindNode(t.nodes, mac);
    if i == NODE_COUNT {
      AddRcvNew(t, r, mac);
    } else if u != t && r == RECEIVE_ALL {
      assert Within(u, t);
      WithinKeeps(u, t);
    } else if u != t {
      PutRcv(t, i, SlotOf(t.nodes[i].rcv, UNUSED), r);
    }
  }

  // ---- whole runs -------------------------------------------------------------------------------------------------

  datatype Op =
    | OpAddRes(r: nat, c: Resource)
    | OpDelRes(r: nat)
    | OpAddTrs(r: nat, mac: nat, send2all: bool)
    | OpAddRcv(r: nat, mac: nat)
    | OpDelTrs(r: nat, mac: nat)
    | OpDelRcv(r: nat, mac: nat)
    | OpDelNode(mac: nat)

  /** Ids index the resource table; only a receiver may also ask for all. */
  predicate Callable(op: Op) {
    match op
    case OpAddRcv(r, _) => r < RES_COUNT || r == RECEIVE_ALL
    case OpDelNode(_) => true
    case _ => op.r < RES_COUNT
  }

  function Perform(t: Tables, op: Op): (Tables, nat)
    requires t.Shaped() && InRange(t) && Callable(op)
  {
    match op
    case OpAddRes(r, c) => AddRes(t, r, c)
    case OpDelRes(r) => DelRes(t, r)
    case OpAddTrs(r, mac, send2all) => AddTrs(t, r, mac, send2all)
    case OpAddRcv(r, mac) => AddRcv(t, r, mac)
    case OpDelTrs(r, mac) => DelTrs(t, r, mac)
    case OpDelRcv(r, mac) => DelRcv(t, r, mac)
    case OpDelNode(mac) => DelNode(t, mac)
  }

  function Empty(): Tables {
    var n := Node(0, Unvalid, false, seq(TRS_COUNT, _ => UNUSED), seq(RCV_COUNT, _ => UNUSED));
    Tables(seq(RES_COUNT, _ => Resource(0, 0, 0, 0, Unvalid, false, 0)), seq(NODE_COUNT, _ => n))
  }

  lemma PerformKeeps(t: Tables, op: Op)
    requires Inv(t) && Callable(op)
    ensures Inv(Perform(t, op).0)
  {
    match op
    case OpAddRes(r, c) => AddResKeeps(t, r, c);
    case OpDelRes(r) => DelResKeeps(t, r);
    case OpAddTrs(r, mac, send2all) => AddTrsKeeps(t, r, mac, send2all);
    case OpAddRcv(r, mac) => AddRcvKeeps(t, r, mac);
    case OpDelTrs(r, mac) => DelTrsKeeps(t, r, mac);
    case OpDelRcv(r, mac) => DelRcvKeeps(t, r, mac);
    case OpDelNode(mac) => DelNodeKeeps(t, mac);
  }

  /** One operation, which can be made whenever the tables have their shape. */
  ghost predicate Does(t: Tables, op: Op, u: Tables) {
    Callable(op) && (t.Shaped() && InRange(t) ==> u == Perform(t, op).0)
  }

  lemma DoesKeeps(t: Tables, op: Op, u: Tables)
    requires Inv(t) && Does(t, op, u)
    ensures Inv(u)
  {
    PerformKeeps(t, op);
    assert u == Perform(t, op).0;
  }

  ghost predicate Run(ts: seq<Tables>, ops: seq<Op>) {
    && |ts| == |ops| + 1 && ts[0] == Empty()
    && forall i | 0 <= i < |ops| :: Does(ts[i], ops[i], ts[i + 1])
  }

  lemma EmptyInv()
    ensures Inv(Empty())
  {
  }

  /** Over every run from empty tables: one transmit slot an id, no node in two roles for an id, distinct MACs, and
      every listed id enabled. */
  lemma {:induction false} TablesStayConsistent(ts: seq<Tables>, ops: seq<Op>, i: nat)
    requires Run(ts, ops) && i < |ts|
    ensures Inv(ts[i])
  {
    if i == 0 {
      EmptyInv();
    } else {
      TablesStayConsistent(ts, ops, i - 1);
      assert Does(ts[i - 1], ops[i - 1], ts[i]);
      DoesKeeps(ts[i - 1], ops[i - 1], ts[i]);
    }
  }

  // ---- what the calls achieve -------------------------------------------------------------------------------------

  /** `add_trs_res` makes the node the one sender of the id, or, failing for lack of a slot or an entry, leaves the
      id with no sender at all, even if it had one. */
  lemma AddTrsOutcome(t: Tables, r: nat, mac: nat, send2all: bool)
    requires Inv(t) && UNUSED < r < RES_COUNT && t.res[r].state == Enabled
    ensures var (u, code) := AddTrs(t, r, mac, send2all);
      && (forall i: nat, a: nat :: Sends(u, i, a, r) ==> u.nodes[i].mac == mac)
      && (code == 0 <==> exists i: nat, a: nat :: Sends(u, i, a, r))
      && var i := FindNode(t.nodes, mac);
         (code == 0 <==> (i < NODE_COUNT && UNUSED in Without(t.nodes[i].trs, r))
                         || (i == NODE_COUNT && FindFree(t.nodes) < NODE_COUNT))
  {
    var nodes := MapNodes(t.nodes, n => StripTrs(n, r));
    Stripped(t, r, send2all);
    SameFind(t.nodes, nodes, mac);
    var u := Tables(t.res[r := t.res[r].(send2all := send2all)], nodes);
    GivenOutcome(u, r, mac);
    assert AddTrs(t, r, mac, send2all) == (u.(nodes := Given(nodes, r, mac).0), Given(nodes, r, mac).1);
    var i := FindNode(nodes, mac);
    assert i < NODE_COUNT ==> nodes[i].trs == Without(t.nodes[i].trs, r);
  }

  /** Giving a node an id that nobody transmits. */
  lemma GivenOutcome(u: Tables, r: nat, mac: nat)
    requires u.Shaped() && r != UNUSED && forall k: nat, a: nat :: !Sends(u, k, a, r)
    ensures var (nodes, code) := Given(u.nodes, r, mac);
      var v, i := u.(nodes := nodes), FindNode(u.nodes, mac);
      && (forall k: nat, a: nat :: Sends(v, k, a, r) ==> v.nodes[k].mac == mac)
      && (code == 0 <==> exists k: nat, a: nat :: Sends(v, k, a, r))
      && (code == 0 <==> (i < NODE_COUNT && UNUSED in u.nodes[i].trs)
                         || (i == NODE_COUNT && FindFree(u.nodes) < NODE_COUNT))
  {
    var i, k := FindNode(u.nodes, mac), FindFree(u.nodes);
    if i < NODE_COUNT {
      var n := StripRcv(u.nodes[i], r);
      var j := SlotOf(n.trs, UNUSED);
      if j < TRS_COUNT {
        assert n.trs[j] == UNUSED;
        OnlySender(u, r, i, n.(trs := n.trs[j := r]), j);
      } else {
        var v := u.(nodes := u.nodes[i := n]);
        assert forall k: nat, a: nat :: Sends(v, k, a, r) ==> Sends(u, k, a, r);
      }
    } else if k < NODE_COUNT {
      var b := Blank(mac);
      OnlySender(u, r, k, b.(trs := b.trs[0 := r]), 0);
    }
  }

  /** An entry with the id in one slot, in place of one without it, makes that node its only sender. */
  lemma OnlySender(u: Tables, r: nat, i: nat, n: Node, j: nat)
    requires u.Shaped() && i < NODE_COUNT && n.Shaped() && n.Valid() && j < TRS_COUNT && n.trs[j] == r != UNUSED
    requires forall k: nat, a: nat :: !Sends(u, k, a, r)
    ensures var v := u.(nodes := u.nodes[i := n]);
      Sends(v, i, j, r) && forall k: nat, a: nat :: Sends(v, k, a, r) ==> k == i
  {
    var v := u.(nodes := u.nodes[i := n]);
    assert forall k: nat, a: nat :: Sends(v, k, a, r) && k != i ==> Sends(u, k, a, r);
  }

  /** Stripping slots changes neither who is valid nor any MAC. */
  lemma {:induction false} SameFind(s: seq<Node>, t: seq<Node>, mac: nat)
    requires |s| == |t|
    requires forall i | 0 <= i < |s| :: s[i].Valid() == t[i].Valid() && s[i].mac == t[i].mac
    ensures FindNode(s, mac) == FindNode(t, mac) && FindFree(s) == FindFree(t)
  {
    if s != [] {
      SameFind(s[1..], t[1..], mac);
    }
  }

  /** `del_node_config` removes the node, and the ids it transmitted from every list. */
  lemma DelNodeOutcome(t: Tables, mac: nat)
    requires Inv(t) && FindNode(t.nodes, mac) < NODE_COUNT
    ensures var (u, code) := DelNode(t, mac);
      && code == 0
      && (forall i | 0 <= i < NODE_COUNT && u.nodes[i].Valid() :: u.nodes[i].mac != mac)
      && (forall r | r in t.nodes[FindNode(t.nodes, mac)].trs :: Unlisted(u, r))
  {
    var i := FindNode(t.nodes, mac);
    var ids := t.nodes[i].trs;
    var v := t.(nodes := t.nodes[i := t.nodes[i].(state := Unvalid)]);
    EntryGone(t, mac, i, v);
    DelAllKeeps(v, ids);
    forall r | r in ids
      ensures Unlisted(DelAll(v, ids), r)
    {
      DelAllRemoves(v, ids, r);
    }
  }

  lemma {:induction false} DelAllRemoves(t: Tables, ids: seq<nat>, r: nat)
    requires Inv(t) && r in ids && forall a | 0 <= a < |ids| :: ids[a] < RES_COUNT
    ensures Unlisted(DelAll(t, ids), r)
    decreases |ids|
  {
    DelResKeeps(t, ids[0]);
    var u := if ids[0] == UNUSED then t else DelRes(t, ids[0]).0;
    DelAllKeeps(u, ids[1..]);
    if ids[0] != r {
      DelAllRemoves(u, ids[1..], r);
    }
  }
}
