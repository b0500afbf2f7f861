/** The resource manager as it is coded: loops over the two tables, updating them in place. */
module ResManager {
  import opened ResTables

  class Manager {
    const res: array<Resource>
    const nodes: array<Node>

    ghost predicate Valid()
      reads this, nodes
    {
      res.Length == RES_COUNT && nodes.Length == NODE_COUNT && forall i | 0 <= i < NODE_COUNT :: nodes[i].Shaped()
    }

    ghost function Contents(): Tables
      reads this, res, nodes
      requires Valid()
    {
      Tables(res[..], nodes[..])
    }

    /** `set_resmgr(NULL)`. */
    constructor ()
      ensures Valid() && fresh(res) && fresh(nodes) && Contents() == Empty()
    {
      res := new Resource[RES_COUNT](_ => Resource(0, 0, 0, 0, Unvalid, false, 0));
      var n := Node(0, Unvalid, false, seq(TRS_COUNT, _ => UNUSED), seq(RCV_COUNT, _ => UNUSED));
      nodes := new Node[NODE_COUNT](_ => n);
    }

    // ---- the loops the operations share ---------------------------------------------------------------------------

    /** Look for a valid entry with this MAC. */
    method Find(mac: nat) returns (i: nat)
      requires Valid()
      ensures i == FindNode(nodes[..], mac)
    {
      i := 0;
      while i < NODE_COUNT && !(nodes[i].Valid() && nodes[i].mac == mac)
        invariant i <= NODE_COUNT && FindNode(nodes[..], mac) == i + FindNode(nodes[i..], mac)
      {
        assert nodes[i..][1..] == nodes[i + 1..];
        i := i + 1;
      }
    }

    /** Look for an entry not in use. */
    method FindUnused() returns (i: nat)
      requires Valid()
      ensures i == FindFree(nodes[..])
    {
      i := 0;
      while i < NODE_COUNT && nodes[i].Valid()
        invariant i <= NODE_COUNT && FindFree(nodes[..]) == i + FindFree(nodes[i..])
      {
        assert nodes[i..][1..] == nodes[i + 1..];
        i := i + 1;
      }
    }

    /** Look for a slot with this id. */
    method FindSlot(slots: seq<nat>, r: nat) returns (j: nat)
      ensures j == SlotOf(slots, r)
    {
      j := 0;
      while j < |slots| && slots[j] != r
        invariant j <= |slots| && SlotOf(slots, r) == j + SlotOf(slots[j..], r)
      {
        assert slots[j..][1..] == slots[j + 1..];
        j := j + 1;
      }
    }

    /** Free every slot with this id. */
    method FreeSlots(slots: seq<nat>, r: nat) returns (freed: seq<nat>)
      ensures freed == Without(slots, r)
    {
      freed := slots;
      for j := 0 to |slots|
        invariant |freed| == |slots|
        invariant forall k | 0 <= k < j :: freed[k] == if slots[k] == r then UNUSED else slots[k]
        invariant forall k | j <= k < |slots| :: freed[k] == slots[k]
      {
        if freed[j] == r {
          freed := freed[j := UNUSED];
        }
      }
    }

    /** Is every slot free? */
    method AllUnused(slots: seq<nat>) returns (b: bool)
      ensures b <==> forall x | x in slots :: x == UNUSED
    {
      var j := 0;
      while j < |slots| && slots[j] == UNUSED
        invariant j <= |slots| && forall k | 0 <= k < j :: slots[k] == UNUSED
      {
        j := j + 1;
      }
      b := j == |slots|;
      assert !b ==> slots[j] in slots;
    }

    /** `clear_node_config`. */
    method ClearNodeConfig()
      requires Valid()
      modifies nodes
      ensures Valid() && Contents() == ClearNodes(old(Contents()))
    {
      ghost var was := nodes[..];
      for i := 0 to NODE_COUNT
        invariant Valid()
        invariant forall k | 0 <= k < i :: nodes[k] == Drop(was[k])
        invariant forall k | i <= k < NODE_COUNT :: nodes[k] == was[k]
      {
        if nodes[i].Valid() && !nodes[i].rcvall {
          var sends := AllUnused(nodes[i].trs);
          if sends {
            var receives := AllUnused(nodes[i].rcv);
            if receives {
              nodes[i] := nodes[i].(state := Unvalid);
            }
          }
        }
      }
      assert nodes[..] == MapNodes(was, Drop);
    }

    // ---- resources ------------------------------------------------------------------------------------------------

    /** `add_res_config`. */
    method AddResConfig(r: nat, c: Resource) returns (code: nat)
      requires Valid() && r < RES_COUNT
      modifies res
      ensures Valid() && (Contents(), code) == AddRes(old(Contents()), r, c)
    {
      if r == 0 {
        return 1;
      }
      res[r] := c.(send2all := false);
      res[r] := res[r].(state := Enabled, resid := r);
      if res[r].pos == 0 {
        if r == 1 {
          res[r] := res[r].(pos := 4);
        } else {
          res[r] := res[r].(pos := (res[r - 1].pos + res[r - 1].len) % 256);
        }
      }
      assert res[..] == old(res[..])[r := res[r]];
      return 0;
    }

    /** `del_res_config`. */
    method DelResConfig(r: nat) returns (code: nat)
      requires Valid() && r < RES_COUNT
      modifies res, nodes
      ensures Valid() && (Contents(), code) == DelRes(old(Contents()), r)
    {
      if r == 0 {
        return 1;
      }
      ghost var t := Contents();
      res[r] := res[r].(state := Unvalid);
      for i := 0 to NODE_COUNT
        invariant Valid() && res[..] == t.res[r := t.res[r].(state := Unvalid)]
        invariant forall k | 0 <= k < i :: nodes[k] == StripRcv(StripTrs(t.nodes[k], r), r)
        invariant forall k | i <= k < NODE_COUNT :: nodes[k] == t.nodes[k]
      {
        if nodes[i].Valid() {
          var trs := FreeSlots(nodes[i].trs, r);
          var rcv := FreeSlots(nodes[i].rcv, r);
          nodes[i] := nodes[i].(trs := trs, rcv := rcv);
        }
      }
      assert nodes[..] == MapNodes(t.nodes, n => StripRcv(StripTrs(n, r), r));
      ClearNodeConfig();
      return 0;
    }

    // ---- transmit and receive lists -------------------------------------------------------------------------------

    /** The first loop of `add_trs_res`: nobody is to transmit the id. */
    method StripAll(r: nat)
      requires Valid()
      modifies nodes
      ensures Valid() && nodes[..] == MapNodes(old(nodes[..]), n => StripTrs(n, r))
    {
      ghost var was := nodes[..];
      for i := 0 to NODE_COUNT
        invariant Valid()
        invariant forall k | 0 <= k < i :: nodes[k] == StripTrs(was[k], r)
        invariant forall k | i <= k < NODE_COUNT :: nodes[k] == was[k]
      {
        if nodes[i].Valid() {
          var trs := FreeSlots(nodes[i].trs, r);
          nodes[i] := nodes[i].(trs := trs);
        }
      }
      assert nodes[..] == MapNodes(was, n => StripTrs(n, r));
    }

    /** `add_trs_res`, over the tables it is meant for. */
    method AddTrsRes(r: nat, mac: nat, send2all: bool) returns (code: nat)
      requires Valid() && r < RES_COUNT
      modifies res, nodes
      ensures Valid() && (Contents(), code) == AddTrs(old(Contents()), r, mac, send2all)
    {
      if r == 0 || res[r].state != Enabled {
        return 1;
      }
      res[r] := res[r].(send2all := send2all);
      StripAll(r);
      code := GiveTrs(r, mac);
    }

    /** The rest of `add_trs_res`: the node gets the id, in its entry or in a new one. */
    method GiveTrs(r: nat, mac: nat) returns (code: nat)
      requires Valid() && 0 < r < RES_COUNT && forall k | 0 <= k < NODE_COUNT && nodes[k].Valid() :: r !in nodes[k].trs
      modifies nodes
      ensures Valid() && (nodes[..], code) == Given(old(nodes[..]), r, mac)
    {
      ghost var was := nodes[..];
      var i := Find(mac);
      if i < NODE_COUNT {
        var rcv := FreeSlots(nodes[i].rcv, r);
        nodes[i] := nodes[i].(rcv := rcv);
        var has := FindSlot(nodes[i].trs, r);
        assert has == TRS_COUNT;
        var j := FindSlot(nodes[i].trs, UNUSED);
        if j < TRS_COUNT {
          nodes[i] := nodes[i].(trs := nodes[i].trs[j := r]);
          assert nodes[..] == was[i := nodes[i]];
          return 0;
        }
        return 1;
      }
      var k := FindUnused();
      if k < NODE_COUNT {
        nodes[k] := Blank(mac);
        nodes[k] := nodes[k].(trs := nodes[k].trs[0 := r]);
        assert nodes[..] == was[k := nodes[k]];
        return 0;
      }
      return 2;
    }

    /** `add_rcv_res`. */
    method AddRcvRes(r: nat, mac: nat) returns (code: nat)
      requires Valid() && (r < RES_COUNT || r == RECEIVE_ALL)
      modifies nodes
      ensures Valid() && (Contents(), code) == AddRcv(old(Contents()), r, mac)
    {
      if r == 0 {
        return 1;
      }
      if r != RECEIVE_ALL && res[r].state != Enabled {
        return 1;
      }
      var i := Find(mac);
      if i < NODE_COUNT {
        if r == RECEIVE_ALL {
          nodes[i] := nodes[i].(rcvall := true);
          return 0;
        }
        var sends := FindSlot(nodes[i].trs, r);
        if sends < TRS_COUNT {
          return 0;
        }
        var has := FindSlot(nodes[i].rcv, r);
        if has < RCV_COUNT {
          return 0;
        }
        var j := FindSlot(nodes[i].rcv, UNUSED);
        if j < RCV_COUNT {
          nodes[i] := nodes[i].(rcv := nodes[i].rcv[j := r]);
          return 0;
        }
        return 1;
      }
      var k := FindUnused();
      if k < NODE_COUNT {
        var b := Blank(mac);
        nodes[k] := if r == RECEIVE_ALL then b.(rcvall := true) else b.(rcv := b.rcv[0 := r]);
        return 0;
      }
      return 2;
    }

    /** `del_trs_res`. */
    method DelTrsRes(r: nat, mac: nat) returns (code: nat)
      requires Valid()
      modifies nodes
      ensures Valid() && (Contents(), code) == DelTrs(old(Contents()), r, mac)
    {
      if r == 0 {
        return 1;
      }
      var i := Find(mac);
      if i == NODE_COUNT {
        return 1;
      }
      var j := FindSlot(nodes[i].trs, r);
      if j == TRS_COUNT {
        return 1;
      }
      nodes[i] := nodes[i].(trs := nodes[i].trs[j := UNUSED]);
      ClearNodeConfig();
      return 0;
    }

    /** `del_rcv_res`. */
    method DelRcvRes(r: nat, mac: nat) returns (code: nat)
      requires Valid()
      modifies nodes
      ensures Valid() && (Contents(), code) == DelRcv(old(Contents()), r, mac)
    {
      if r == 0 {
        return 1;
      }
      var i := Find(mac);
      if i == NODE_COUNT {
        return 1;
      }
      var j := FindSlot(nodes[i].rcv, r);
      if j == RCV_COUNT {
        return 1;
      }
      nodes[i] := nodes[i].(rcv := nodes[i].rcv[j := UNUSED]);
      ClearNodeConfig();
      return 0;
    }

    /** `del_node_config`. */
    method DelNodeConfig(mac: nat) returns (code: nat)
      requires Valid() && InRange(Contents())
      modifies res, nodes
      ensures Valid() && (Contents(), code) == DelNode(old(Contents()), mac)
    {
      var i := Find(mac);
      if i == NODE_COUNT {
        return 1;
      }
      nodes[i] := nodes[i].(state := Unvalid);
      ghost var ts := DelListed(i);
      ChainIsAll(ts, nodes[i].trs);
      return 0;
    }

    /** The loop of `del_node_config`. The entry's own slots are read while the deletions run: being no longer valid,
        it is not touched by them. */
    method DelListed(i: nat) returns (ghost ts: seq<Tables>)
      requires Valid() && i < NODE_COUNT && !nodes[i].Valid() && Deletable(nodes[i].trs)
      modifies res, nodes
      ensures Valid() && nodes[i] == old(nodes[i])
      ensures |ts| == TRS_COUNT + 1 && ts[0] == old(Contents()) && ts[TRS_COUNT] == Contents()
      ensures Chain(ts, nodes[i].trs)
    {
      ghost var n := nodes[i];
      ts := [Contents()];
      for j := 0 to TRS_COUNT
        invariant Valid() && nodes[i] == n
        invariant |ts| == j + 1 && ts[0] == old(Contents()) && ts[j] == Contents()
        invariant Chain(ts, n.trs)
      {
        DelSlot(i, j);
        assert DelOne(ts[j], n.trs[j], Contents());
        ts := ts + [Contents()];
      }
    }

    /** One turn of that loop. */
    method DelSlot(i: nat, j: nat)
      requires Valid() && i < NODE_COUNT && j < TRS_COUNT && !nodes[i].Valid() && Deletable(nodes[i].trs)
      modifies res, nodes
      ensures Valid() && nodes[i] == old(nodes[i])
      ensures DelOne(old(Contents()), nodes[i].trs[j], Contents())
    {
      DelResSkips(Contents(), nodes[i].trs[j], i);
      if nodes[i].trs[j] != UNUSED {
        var _ := DelResConfig(nodes[i].trs[j]);
      }
    }
  }

  predicate Deletable(ids: seq<nat>) {
    forall a | 0 <= a < |ids| :: ids[a] < RES_COUNT
  }

  /** The tables before and after one slot of a deleted node. */
  ghost predicate DelOne(t: Tables, r: nat, u: Tables) {
    t.Shaped() && r < RES_COUNT && u == if r == UNUSED then t else DelRes(t, r).0
  }

  /** Each table comes from the one before by deleting one of the ids. */
  ghost predicate Chain(ts: seq<Tables>, ids: seq<nat>) {
    forall k | 0 <= k < |ts| - 1 && k < |ids| :: DelOne(ts[k], ids[k], ts[k + 1])
  }

  lemma {:induction false} ChainIsAll(ts: seq<Tables>, ids: seq<nat>)
    requires |ts| == |ids| + 1 && Chain(ts, ids) && ts[0].Shaped() && Deletable(ids)
    ensures ts[|ids|] == DelAll(ts[0], ids)
    decreases |ids|
  {
    if ids != [] {
      assert DelOne(ts[0], ids[0], ts[1]);
      DelResShaped(ts[0], ids[0]);
      forall k | 0 <= k < |ts[1..]| - 1 && k < |ids[1..]|
        ensures DelOne(ts[1..][k], ids[1..][k], ts[1..][k + 1])
      {
        assert DelOne(ts[k + 1], ids[k + 1], ts[k + 2]);
      }
      ChainIsAll(ts[1..], ids[1..]);
    }
  }

  lemma DelResSkips(t: Tables, r: nat, i: nat)
    requires t.Shaped() && r < RES_COUNT && i < NODE_COUNT && !t.nodes[i].Valid()
    ensures DelRes(t, r).0.nodes[i] == t.nodes[i]
  {
  }
}
