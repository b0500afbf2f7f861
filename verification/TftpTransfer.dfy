/** A read session sending to a write session over a network that may lose, duplicate and reorder: a packet that was
    sent may arrive any number of times, at any later moment, until it is lost. */
module TftpTransfer {
  import opened Bytes
  import opened TftpSessions

  /** Both sessions, and the packets on the way to each of them. */
  datatype Net = Net(s: Sender, r: Receiver, toS: set<Packet>, toR: set<Packet>)

  datatype Event =
    | ToSender(p: Packet)
    | ToReceiver(p: Packet, ok: bool)
    | SenderTimer
    | ReceiverTimer
    | Lose(ps: set<Packet>)

  function Sent(ps: seq<Packet>): set<Packet> {
    set p | p in ps
  }

  function StartNet(file: seq<byte>): Net {
    var (s, toR) := SenderStart(file);
    var (r, toS) := ReceiverStart();
    Net(s, r, Sent(toS), Sent(toR))
  }

  ghost predicate Enabled(n: Net, e: Event) {
    match e
    case ToSender(p) => n.s.phase == Running && p in n.toS
    case ToReceiver(p, _) => n.r.phase == Running && p in n.toR
    case SenderTimer => n.s.phase == Running
    case ReceiverTimer => n.r.phase == Running
    case Lose(_) => true
  }

  function Step(file: seq<byte>, n: Net, e: Event): Net
  {
    match e
    case ToSender(p) =>
      var (s, out) := SenderOnPacket(file, n.s, p);
      n.(s := s, toR := n.toR + Sent(out))
    case ToReceiver(p, ok) =>
      var (r, out) := ReceiverOnPacket(n.r, p, ok);
      n.(r := r, toS := n.toS + Sent(out))
    case SenderTimer =>
      var (s, out) := SenderOnTimer(n.s);
      n.(s := s, toR := n.toR + Sent(out))
    case ReceiverTimer =>
      var (r, out) := ReceiverOnTimer(n.r);
      n.(r := r, toS := n.toS + Sent(out))
    case Lose(ps) => n.(toS := n.toS - ps, toR := n.toR - ps)
  }

  ghost predicate Moves(file: seq<byte>, m: Net, e: Event, n: Net) {
    Enabled(m, e) && n == Step(file, m, e)
  }

  /** The events `es` lead from the two freshly opened sessions to `n`. */
  ghost predicate Reached(file: seq<byte>, es: seq<Event>, n: Net)
    decreases |es|
  {
    if es == [] then n == StartNet(file)
    else
      var past, last := es[..|es| - 1], es[|es| - 1];
      exists m: Net :: Reached(file, past, m) && Moves(file, m, last, n)
  }

  lemma Extend(file: seq<byte>, es: seq<Event>, m: Net, e: Event)
    requires Reached(file, es, m) && Enabled(m, e)
    ensures Reached(file, es + [e], Step(file, m, e))
  {
    assert (es + [e])[..|es|] == es;
    assert Moves(file, m, e, Step(file, m, e));
  }

  // ---- the file in blocks -----------------------------------------------------------------------------------------

  /** A file is sent as its full blocks and one short block, which may be empty. */
  function Blocks(file: seq<byte>): nat {
    |file| / BLOCK + 1
  }

  function UpTo(file: seq<byte>, k: nat): (c: nat)
    ensures c <= |file|
  {
    Min(BLOCK * k, |file|)
  }

  /** Block `k`, counting from 1. */
  function BlockAt(file: seq<byte>, k: nat): seq<byte>
    requires k >= 1
  {
    file[UpTo(file, k - 1)..UpTo(file, k)]
  }

  lemma BlockSizes(file: seq<byte>, k: nat)
    requires 1 <= k <= Blocks(file)
    ensures UpTo(file, k - 1) == BLOCK * (k - 1)
    ensures |BlockAt(file, k)| == BLOCK <==> k < Blocks(file)
    ensures |BlockAt(file, k)| < BLOCK <==> k == Blocks(file)
    ensures k == Blocks(file) ==> UpTo(file, k) == |file|
    ensures |BlockAt(file, k)| == 0 <==> UpTo(file, k - 1) == |file|
    ensures UpTo(file, k - 1) + |BlockAt(file, k)| == UpTo(file, k)
    ensures ReadAt(file, UpTo(file, k - 1)) == BlockAt(file, k)
  {
    var q := |file| / BLOCK;
    assert BLOCK * q <= |file| < BLOCK * q + BLOCK;
    assert k - 1 <= q;
  }

  // ---- the invariant ----------------------------------------------------------------------------------------------

  /** The sender is at block `a`, the receiver has accepted `b` blocks, and every packet in the network belongs
      to a block that has been sent, or acknowledges one that has been accepted. */
  ghost predicate InvAt(file: seq<byte>, n: Net, a: nat, b: nat) {
    && 1 <= a <= Blocks(file) && a - 1 <= b <= a
    && n.s.rsn == a && n.s.cursor == UpTo(file, a) && n.s.block == BlockAt(file, a)
    && (n.s.phase == Finished ==> b == Blocks(file))
    && n.r.written == file[..UpTo(file, b)]
    && (n.r.phase == Running ==> n.r.rsn == b && b < Blocks(file))
    && (n.r.phase == Finished ==> b == Blocks(file))
    && (b == Blocks(file) ==> n.r.phase == Finished)
    && (forall p | p in n.toR ::
          p.Packet? && (p.opcode == DATA ==> 1 <= p.num <= a && p.body == BlockAt(file, p.num)))
    && (forall p | p in n.toS :: p.Packet? && (p.opcode == ACK ==> p.num <= b))
  }

  /** Enough is in the network for both sides to go on. */
  ghost predicate Flowing(n: Net, a: nat, b: nat) {
    SenderData(n.s) in n.toR && ReceiverAck(b) in n.toS
  }

  lemma StartInv(file: seq<byte>)
    ensures InvAt(file, StartNet(file), 1, 0)
    ensures Flowing(StartNet(file), 1, 0)
  {
    BlockSizes(file, 1);
    assert ReadAt(file, 0) == BlockAt(file, 1);
  }

  /** An acknowledgement of the current block moves the sender on, any other one does not. */
  lemma ToSenderInv(file: seq<byte>, n: Net, p: Packet, a: nat, b: nat) returns (a': nat)
    requires Blocks(file) <= 0xFFFF
    requires InvAt(file, n, a, b) && Enabled(n, ToSender(p))
    ensures InvAt(file, Step(file, n, ToSender(p)), a', b)
    ensures Flowing(n, a, b) ==> Flowing(Step(file, n, ToSender(p)), a', b)
    ensures p == ReceiverAck(a) && a < Blocks(file) ==> a' == a + 1
  {
    a' := a;
    BlockSizes(file, a);
    var n' := Step(file, n, ToSender(p));
    if p.opcode == ACK && p.num == n.s.rsn && a < Blocks(file) {
      a' := a + 1;
      BlockSizes(file, a + 1);
      assert n' == n.(s := n'.s, toR := n.toR + {SenderData(n'.s)});
      Advanced(file, n, n'.s, a, b);
    }
  }

  lemma Advanced(file: seq<byte>, n: Net, s: Sender, a: nat, b: nat)
    requires InvAt(file, n, a, b) && b == a < Blocks(file)
    requires s.phase == Running && s.rsn == a + 1
    requires s.cursor == UpTo(file, a + 1) && s.block == BlockAt(file, a + 1)
    ensures var n' := n.(s := s, toR := n.toR + {SenderData(s)});
      InvAt(file, n', a + 1, b) && (Flowing(n, a, b) ==> Flowing(n', a + 1, b))
  {
  }

  /** What the receiver makes of the next block. */
  lemma NextBlock(r: Receiver, p: Packet, ok: bool)
    requires p.Packet? && p.opcode == DATA && p.num == Wrap16(r.rsn + 1) && |p.body| <= BLOCK && r.phase == Running
    ensures var (r', out) := ReceiverOnPacket(r, p, ok);
      if ok || p.body == [] then
        && r'.written == r.written + p.body && out == [ReceiverAck(p.num)]
        && if |p.body| < BLOCK then r'.phase == Finished else r'.phase == Running && r'.rsn == p.num
      else
        r'.written == r.written && out == [Error(3)] && r'.phase == Failed
  {
  }

  /** The next block arrives: it is written, or the session fails with what it has. */
  lemma AcceptInv(file: seq<byte>, n: Net, p: Packet, ok: bool, a: nat, b: nat) returns (b': nat)
    requires Blocks(file) <= 0xFFFF
    requires InvAt(file, n, a, b) && Enabled(n, ToReceiver(p, ok))
    requires p.opcode == DATA && p.num == b + 1
    ensures InvAt(file, Step(file, n, ToReceiver(p, ok)), a, b')
    ensures Flowing(n, a, b) ==> Flowing(Step(file, n, ToReceiver(p, ok)), a, b')
    ensures ok ==> b' == b + 1
  {
    BlockSizes(file, b + 1);
    assert p.body == BlockAt(file, b + 1) && b + 1 == Wrap16(b + 1);
    NextBlock(n.r, p, ok);
    var r := ReceiverOnPacket(n.r, p, ok).0;
    if ok || p.body == [] {
      b' := b + 1;
      assert file[..UpTo(file, b + 1)] == file[..UpTo(file, b)] + p.body;
      assert Step(file, n, ToReceiver(p, ok)) == n.(r := r, toS := n.toS + {ReceiverAck(b + 1)});
      Accepted(file, n, r, a, b);
    } else {
      b' := b;
      assert Step(file, n, ToReceiver(p, ok)) == n.(r := r, toS := n.toS + {Error(3)});
      NotWritten(file, n, r, a, b);
    }
  }

  lemma Accepted(file: seq<byte>, n: Net, r: Receiver, a: nat, b: nat)
    requires InvAt(file, n, a, b) && b < a
    requires r.written == file[..UpTo(file, b + 1)]
    requires if b + 1 == Blocks(file) then r.phase == Finished else r.phase == Running && r.rsn == b + 1
    ensures var n' := n.(r := r, toS := n.toS + {ReceiverAck(b + 1)});
      InvAt(file, n', a, b + 1) && (Flowing(n, a, b) ==> Flowing(n', a, b + 1))
  {
  }

  lemma NotWritten(file: seq<byte>, n: Net, r: Receiver, a: nat, b: nat)
    requires InvAt(file, n, a, b) && n.r.phase == Running
    requires r.written == n.r.written && r.phase == Failed
    ensures var n' := n.(r := r, toS := n.toS + {Error(3)});
      InvAt(file, n', a, b) && (Flowing(n, a, b) ==> Flowing(n', a, b))
  {
  }

  lemma ToReceiverInv(file: seq<byte>, n: Net, p: Packet, ok: bool, a: nat, b: nat) returns (b': nat)
    requires Blocks(file) <= 0xFFFF
    requires InvAt(file, n, a, b) && Enabled(n, ToReceiver(p, ok))
    ensures InvAt(file, Step(file, n, ToReceiver(p, ok)), a, b')
    ensures Flowing(n, a, b) ==> Flowing(Step(file, n, ToReceiver(p, ok)), a, b')
    ensures p.opcode == DATA && p.num == b + 1 && ok ==> b' == b + 1
  {
    b' := b;
    if p.opcode == DATA && p.num == b + 1 {
      b' := AcceptInv(file, n, p, ok, a, b);
    }
  }

  lemma StepInv(file: seq<byte>, n: Net, e: Event, a: nat, b: nat) returns (a': nat, b': nat)
    requires Blocks(file) <= 0xFFFF
    requires InvAt(file, n, a, b) && Enabled(n, e)
    ensures InvAt(file, Step(file, n, e), a', b')
    ensures Flowing(n, a, b) && !e.Lose? ==> Flowing(Step(file, n, e), a', b')
  {
    a', b' := a, b;
    match e
    case ToSender(p) => a' := ToSenderInv(file, n, p, a, b);
    case ToReceiver(p, ok) => b' := ToReceiverInv(file, n, p, ok, a, b);
    case SenderTimer =>
    case ReceiverTimer =>
    case Lose(_) =>
  }

  lemma {:induction false} ReachedInv(file: seq<byte>, es: seq<Event>, n: Net) returns (a: nat, b: nat)
    requires Blocks(file) <= 0xFFFF && Reached(file, es, n)
    ensures InvAt(file, n, a, b)
    decreases |es|
  {
    if es == [] {
      StartInv(file);
      return 1, 0;
    }
    var m: Net :| Reached(file, es[..|es| - 1], m) && Moves(file, m, es[|es| - 1], n);
    a, b := ReachedInv(file, es[..|es| - 1], m);
    a, b := StepInv(file, m, es[|es| - 1], a, b);
  }

  // ---- what the two sessions guarantee end to end -----------------------------------------------------------------

  /** How much of the file the sender takes to be delivered: all it has read but the block it is still sending. */
  function Delivered(s: Sender): int {
    s.cursor - |s.block|
  }

  /** The written octets are a prefix of the file, and once either side has finished, both the file and the receiver
      are complete. */
  ghost predicate Delivers(file: seq<byte>, n: Net) {
    && n.r.written <= file
    && (n.r.phase == Finished ==> n.r.written == file)
    && (n.s.phase == Finished ==> n.r.phase == Finished && n.r.written == file)
  }

  /** Besides, the written octets include everything the sender takes to be delivered. */
  ghost predicate EndToEnd(file: seq<byte>, n: Net) {
    Delivers(file, n) && Delivered(n.s) <= |n.r.written|
  }

  lemma EndToEndHolds(file: seq<byte>, es: seq<Event>, n: Net)
    requires Blocks(file) <= 0xFFFF && Reached(file, es, n)
    ensures EndToEnd(file, n)
  {
    var a, b := ReachedInv(file, es, n);
    BlockSizes(file, a);
    BlockSizes(file, Blocks(file));
  }

  /** A loss-free run in which the sender is at block `a`, waiting for its acknowledgement. */
  ghost predicate InStep(file: seq<byte>, n: Net, a: nat) {
    && 1 <= a <= Blocks(file) && a <= 0x1_0000
    && n.s.phase == Running && n.s.rsn == Wrap16(a)
    && n.s.cursor == UpTo(file, a) && n.s.block == BlockAt(file, a)
    && n.r.phase == Running && n.r.rsn == a - 1 && n.r.written == file[..UpTo(file, a - 1)]
    && SenderData(n.s) in n.toR && Acked(n, a - 1)
  }

  /** The acknowledgements of the first `k` blocks and of the request are in the network. */
  ghost predicate Acked(n: Net, k: nat) {
    forall b: nat | b <= k :: ReceiverAck(b) in n.toS
  }

  /** The block arrives and is written. */
  lemma BlockArrives(file: seq<byte>, m: Net, a: nat)
    requires InStep(file, m, a) && a < Blocks(file) && a <= 0xFFFF
    ensures Enabled(m, ToReceiver(SenderData(m.s), true))
    ensures var n := Step(file, m, ToReceiver(SenderData(m.s), true));
      && n.s == m.s && n.s.rsn == a && Acked(n, a)
      && n.r.phase == Running && n.r.rsn == a && n.r.written == file[..UpTo(file, a)]
  {
    BlockSizes(file, a);
    assert file[..UpTo(file, a)] == file[..UpTo(file, a - 1)] + BlockAt(file, a);
  }

  /** Its acknowledgement arrives and the next block is sent. */
  lemma AckArrives(file: seq<byte>, m: Net, a: nat)
    requires 1 <= a < Blocks(file) && a <= 0xFFFF
    requires m.s.phase == Running && m.s.rsn == a && m.s.cursor == UpTo(file, a) && m.s.block == BlockAt(file, a)
    requires m.r.phase == Running && m.r.rsn == a && m.r.written == file[..UpTo(file, a)]
    requires Acked(m, a)
    ensures Enabled(m, ToSender(ReceiverAck(a)))
    ensures InStep(file, Step(file, m, ToSender(ReceiverAck(a))), a + 1)
  {
    BlockSizes(file, a);
    BlockSizes(file, a + 1);
  }

  lemma OneRound(file: seq<byte>, es: seq<Event>, m: Net, a: nat, next: nat) returns (es': seq<Event>, n: Net)
    requires Reached(file, es, m) && InStep(file, m, a) && a < Blocks(file) && a <= 0xFFFF && next == a + 1
    ensures Reached(file, es', n) && InStep(file, n, next) && n.s.retry == m.s.retry
  {
    var data, ack := ToReceiver(SenderData(m.s), true), ToSender(ReceiverAck(a));
    BlockArrives(file, m, a);
    Extend(file, es, m, data);
    var k := Step(file, m, data);
    AckArrives(file, k, a);
    Extend(file, es + [data], k, ack);
    return es + [data] + [ack], Step(file, k, ack);
  }

  lemma StartInStep(file: seq<byte>) returns (n: Net)
    ensures Reached(file, [], n) && InStep(file, n, 1)
  {
    n := StartNet(file);
    StartInv(file);
    assert file[..UpTo(file, 0)] == [];
  }

  lemma {:induction false} LossFree(file: seq<byte>, a: nat) returns (es: seq<Event>, n: Net)
    requires 1 <= a <= Blocks(file) && a <= 0x1_0000
    ensures Reached(file, es, n) && InStep(file, n, a)
  {
    if a == 1 {
      es := [];
      n := StartInStep(file);
    } else {
      var past, m := LossFree(file, a - 1);
      es, n := OneRound(file, past, m, a - 1, a);
    }
  }

  /** The sender is past what the receiver has: at block `a` it takes an acknowledgement from the first round for the
      one it waits for. */
  ghost predicate RunsAway(file: seq<byte>, n: Net, a: nat) {
    && 0x1_0000 <= a <= Blocks(file) && Acked(n, 0xFFFF)
    && n.s.phase == Running && n.s.rsn == Wrap16(a)
    && n.s.cursor == UpTo(file, a) && n.s.block == BlockAt(file, a)
    && n.r.phase == Running
  }

  lemma OldAck(file: seq<byte>, n: Net, a: nat)
    requires RunsAway(file, n, a)
    ensures Enabled(n, ToSender(ReceiverAck(Wrap16(a))))
    ensures var n' := Step(file, n, ToSender(ReceiverAck(Wrap16(a))));
      n'.r.phase == Running && if a == Blocks(file) then n'.s.phase == Finished else RunsAway(file, n', a + 1)
  {
    BlockSizes(file, a);
    if a < Blocks(file) {
      BlockSizes(file, a + 1);
    }
  }

  /** It runs on to the end of the file, `left` blocks away. */
  lemma {:induction false} RunsToTheEnd(file: seq<byte>, es: seq<Event>, n: Net, a: nat, left: nat)
    returns (es': seq<Event>, n': Net)
    requires Reached(file, es, n) && RunsAway(file, n, a) && a + left == Blocks(file)
    ensures Reached(file, es', n') && n'.s.phase == Finished && n'.r.phase == Running
    decreases left
  {
    var next := a + 1;
    es', n' := OneOldAck(file, es, n, a, next);
    if left > 0 {
      es', n' := RunsToTheEnd(file, es', n', next, left - 1);
    }
  }

  lemma OneOldAck(file: seq<byte>, es: seq<Event>, n: Net, a: nat, next: nat) returns (es': seq<Event>, n': Net)
    requires Reached(file, es, n) && RunsAway(file, n, a) && next == a + 1
    ensures Reached(file, es', n') && n'.r.phase == Running
    ensures if a == Blocks(file) then n'.s.phase == Finished else RunsAway(file, n', next)
  {
    var e := ToSender(ReceiverAck(Wrap16(a)));
    OldAck(file, n, a);
    Extend(file, es, n, e);
    es', n' := es + [e], Step(file, n, e);
  }

  /** The block numbers wrap: from block 65536 on, acknowledgements of the first round, beginning with number 0 for the
      request, are taken for those of blocks the receiver has not seen, and the sender finishes without it. */
  lemma StaleAckAtWrap(file: seq<byte>) returns (es: seq<Event>, n: Net)
    requires Blocks(file) > 0xFFFF
    ensures Reached(file, es, n) && n.s.phase == Finished && n.r.phase == Running
  {
    es, n := LossFree(file, 0x1_0000);
    es, n := RunsToTheEnd(file, es, n, 0x1_0000, Blocks(file) - 0x1_0000);
  }

  /** The sessions deliver the file whatever the network does exactly when its blocks can be numbered in 16 bits, and
      then the receiver is never behind what the sender takes to be delivered. */
  lemma EndToEndExactly(file: seq<byte>)
    ensures (forall es: seq<Event>, n: Net :: Reached(file, es, n) ==> Delivers(file, n))
            <==> Blocks(file) <= 0xFFFF
    ensures (forall es: seq<Event>, n: Net :: Reached(file, es, n) ==> EndToEnd(file, n))
            <==> Blocks(file) <= 0xFFFF
  {
    if Blocks(file) <= 0xFFFF {
      forall es: seq<Event>, n: Net | Reached(file, es, n)
        ensures EndToEnd(file, n)
      {
        EndToEndHolds(file, es, n);
      }
    } else {
      var es, n := StaleAckAtWrap(file);
      assert !(Reached(file, es, n) ==> Delivers(file, n));
    }
  }

  /** With the current block and the last acknowledgement in the network, some continuation completes the transfer on
      both sides. */
  lemma {:induction false} CompleteFrom(file: seq<byte>, es: seq<Event>, n: Net, a: nat, b: nat)
    returns (es': seq<Event>, n': Net)
    requires Blocks(file) <= 0xFFFF && Reached(file, es, n)
    requires InvAt(file, n, a, b) && Flowing(n, a, b)
    requires n.s.phase == Running && n.r.phase != Failed
    ensures es <= es' && Reached(file, es', n') && n'.s.phase == Finished
    decreases 2 * Blocks(file) - a - b
  {
    BlockSizes(file, a);
    if b < a {
      var e := ToReceiver(SenderData(n.s), true);
      Extend(file, es, n, e);
      var b' := ToReceiverInv(file, n, SenderData(n.s), true, a, b);
      es', n' := CompleteFrom(file, es + [e], Step(file, n, e), a, b');
    } else {
      var e := ToSender(ReceiverAck(b));
      Extend(file, es, n, e);
      if a == Blocks(file) {
        return es + [e], Step(file, n, e);
      }
      var a' := ToSenderInv(file, n, ReceiverAck(b), a, b);
      es', n' := CompleteFrom(file, es + [e], Step(file, n, e), a', b);
    }
  }
}
