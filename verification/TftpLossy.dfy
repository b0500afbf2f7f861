/** Time-outs and recovery: what the two sessions' timers do over a network that loses packets for good. */
module TftpLossy {
  import Division
  import opened Bytes
  import opened TftpSessions
  import opened TftpTransfer

  // ---- runs -------------------------------------------------------------------------------------------------------

  /** The last step of a run. */
  lemma LastStep(file: seq<byte>, es: seq<Event>, n: Net) returns (m: Net)
    requires es != [] && Reached(file, es, n)
    ensures Reached(file, es[..|es| - 1], m) && Moves(file, m, es[|es| - 1], n)
  {
    var past, last := es[..|es| - 1], es[|es| - 1];
    m :| Reached(file, past, m) && Moves(file, m, last, n);
  }

  /** The events determine the state. */
  lemma {:induction false} Deterministic(file: seq<byte>, es: seq<Event>, m: Net, n: Net)
    requires Reached(file, es, m) && Reached(file, es, n)
    ensures m == n
    decreases |es|
  {
    if es != [] {
      var m' := LastStep(file, es, m);
      var n' := LastStep(file, es, n);
      Deterministic(file, es[..|es| - 1], m', n');
    }
  }

  // ---- the sender's timer -----------------------------------------------------------------------------------------

  function SenderFirings(es: seq<Event>): nat {
    if es == [] then 0 else SenderFirings(es[..|es| - 1]) + if es[|es| - 1].SenderTimer? then 1 else 0
  }

  /** The read session counts every firing of its timer since it was opened: progress does not reset the count. It is
      open only before the third. */
  lemma {:induction false} SenderRetries(file: seq<byte>, es: seq<Event>, n: Net)
    requires Reached(file, es, n)
    ensures n.s.retry == SenderFirings(es) <= 3
    ensures n.s.retry == 3 ==> n.s.phase == Failed
    decreases |es|
  {
    if es != [] {
      var m := LastStep(file, es, n);
      SenderRetries(file, es[..|es| - 1], m);
    }
  }

  /** The first two firings send the current block again and nothing else changes; the third sends error 200 and ends
      the session. */
  lemma SenderFires(file: seq<byte>, es: seq<Event>, m: Net, n: Net) returns (a: nat)
    requires Blocks(file) <= 0xFFFF && Reached(file, es, m) && Moves(file, m, SenderTimer, n)
    ensures 1 <= a <= Blocks(file) && m.s.cursor == UpTo(file, a)
    ensures var k := SenderFirings(es) + 1;
      if k < 3 then
        n == m.(s := m.s.(retry := k), toR := m.toR + {Packet(DATA, a, BlockAt(file, a))})
      else
        k == 3 && n == m.(s := m.s.(retry := k, phase := Failed), toR := m.toR + {Packet(ERROR, 200, [])})
  {
    SenderRetries(file, es, m);
    var b;
    a, b := ReachedInv(file, es, m);
  }

  /** So a transfer may be given up although every block got through in between: two firings, each followed by the
      acknowledgement of a block, and a third. */
  lemma SlowTransferFails(file: seq<byte>) returns (es: seq<Event>, m: Net, n: Net)
    requires Blocks(file) >= 3
    ensures Reached(file, es, m) && InStep(file, m, 3) && SenderFirings(es) == 2
    ensures Moves(file, m, SenderTimer, n) && n.s.phase == Failed
  {
    var m1 := StartInStep(file);
    var es1, m2 := FireInStep(file, [], m1, 1);
    var es2, m3 := OneRound(file, es1, m2, 1, 2);
    SameRetries(file, es1, m2, es2, m3);
    var es3, m4 := FireInStep(file, es2, m3, 2);
    es, m := OneRound(file, es3, m4, 2, 3);
    SameRetries(file, es3, m4, es, m);
    n := Step(file, m, SenderTimer);
  }

  lemma SameRetries(file: seq<byte>, es: seq<Event>, m: Net, es': seq<Event>, n: Net)
    requires Reached(file, es, m) && Reached(file, es', n) && m.s.retry == n.s.retry
    ensures SenderFirings(es') == SenderFirings(es) == n.s.retry
  {
    SenderRetries(file, es, m);
    SenderRetries(file, es', n);
  }

  /** A firing with retries left does not disturb a transfer. */
  lemma FireInStep(file: seq<byte>, es: seq<Event>, m: Net, a: nat) returns (es': seq<Event>, n: Net)
    requires Reached(file, es, m) && InStep(file, m, a) && SenderFirings(es) < 2
    ensures Reached(file, es', n) && InStep(file, n, a) && SenderFirings(es') == SenderFirings(es) + 1
  {
    SenderRetries(file, es, m);
    es', n := es + [SenderTimer], Step(file, m, SenderTimer);
    Extend(file, es, m, SenderTimer);
    assert es'[..|es|] == es;
  }

  // ---- the receiver's timer ---------------------------------------------------------------------------------------

  predicate IsData(e: Event) {
    e.ToReceiver? && e.p.Packet? && e.p.opcode == DATA
  }

  /** Firings of the write session's timer since data, new or not, last arrived. */
  function Silence(es: seq<Event>): nat {
    if es == [] then 0
    else
      var past, e := es[..|es| - 1], es[|es| - 1];
      if IsData(e) then 0 else Silence(past) + if e.ReceiverTimer? then 1 else 0
  }

  lemma {:induction false} ReceiverRetries(file: seq<byte>, es: seq<Event>, n: Net)
    requires Reached(file, es, n) && n.r.phase == Running
    ensures n.r.retry == Silence(es) < 3
    decreases |es|
  {
    if es != [] {
      var m := LastStep(file, es, n);
      ReceiverRetries(file, es[..|es| - 1], m);
    }
  }

  /** The first two firings in a silence send the last acknowledgement again and nothing else changes; the third sends
      error 200 and ends the session. */
  lemma ReceiverFires(file: seq<byte>, es: seq<Event>, m: Net, n: Net) returns (b: nat)
    requires Blocks(file) <= 0xFFFF && Reached(file, es, m) && Moves(file, m, ReceiverTimer, n)
    ensures m.r.written == file[..UpTo(file, b)]
    ensures var k := Silence(es) + 1;
      if k < 3 then
        n == m.(r := m.r.(retry := k), toS := m.toS + {Packet(ACK, b, [])})
      else
        k == 3 && n == m.(r := m.r.(retry := k, phase := Failed), toS := m.toS + {Packet(ERROR, 200, [])})
  {
    ReceiverRetries(file, es, m);
    var a;
    a, b := ReachedInv(file, es, m);
  }

  /** Is `ofs` the number of octets stored, in 32 bits? */
  predicate Counts(r: Receiver) {
    r.ofs == |r.written| % 0x1_0000_0000
  }

  lemma PacketCounts(r: Receiver, p: Packet, ok: bool)
    requires Counts(r)
    ensures var r' := ReceiverOnPacket(r, p, ok).0; r'.phase != Failed ==> Counts(r')
  {
    if p.Packet? {
      SumRemainder(|r.written|, |p.body|);
    }
  }

  lemma SumRemainder(x: nat, y: nat)
    ensures (x % 0x1_0000_0000 + y) % 0x1_0000_0000 == (x + y) % 0x1_0000_0000
  {
    var q, z := x / 0x1_0000_0000, x % 0x1_0000_0000 + y;
    Division.Unique(x + y, 0x1_0000_0000, q + z / 0x1_0000_0000, z % 0x1_0000_0000);
  }

  /** The octet count the write session reports is that of the octets stored. */
  lemma {:induction false} OffsetCounts(file: seq<byte>, es: seq<Event>, n: Net)
    requires Reached(file, es, n) && n.r.phase != Failed
    ensures Counts(n.r)
    decreases |es|
  {
    if es != [] {
      var m := LastStep(file, es, n);
      OffsetCounts(file, es[..|es| - 1], m);
      var e := es[|es| - 1];
      if e.ToReceiver? {
        PacketCounts(m.r, e.p, e.ok);
      }
    }
  }

  // ---- recovery ---------------------------------------------------------------------------------------------------

  ghost predicate Complete(n: Net) {
    n.s.phase == Finished && n.r.phase == Finished
  }

  /** Some continuation completes the transfer on both sides. */
  ghost predicate CanComplete(file: seq<byte>, es: seq<Event>) {
    exists es', n' :: es <= es' && Reached(file, es', n') && Complete(n')
  }

  /** The current block, or the last acknowledgement, on the way is enough for both to go on. */
  lemma Resumes(file: seq<byte>, es: seq<Event>, n: Net, a: nat, b: nat)
    requires Blocks(file) <= 0xFFFF && Reached(file, es, n) && InvAt(file, n, a, b)
    requires n.s.phase == Running && n.r.phase == Running
    requires SenderData(n.s) in n.toR || ReceiverAck(b) in n.toS
    ensures CanComplete(file, es)
  {
    var e := if SenderData(n.s) in n.toR then ToReceiver(SenderData(n.s), true) else ToSender(ReceiverAck(b));
    Extend(file, es, n, e);
    var n', a', b' := Step(file, n, e), a, b;
    if SenderData(n.s) in n.toR {
      b' := ToReceiverInv(file, n, SenderData(n.s), true, a, b);
      DataAnswered(file, n, a, b, b');
    } else {
      a' := ToSenderInv(file, n, ReceiverAck(b), a, b);
      AckAnswered(file, n, a, b, a');
    }
    var es2, n2 := CompleteFrom(file, es + [e], n', a', b');
    EndToEndHolds(file, es2, n2);
    assert es <= es2 && Complete(n2);
  }

  lemma DataAnswered(file: seq<byte>, n: Net, a: nat, b: nat, b': nat)
    requires Blocks(file) <= 0xFFFF && InvAt(file, n, a, b)
    requires n.s.phase == Running && n.r.phase == Running && SenderData(n.s) in n.toR
    requires b' == if b + 1 == a then b + 1 else b
    ensures var n' := Step(file, n, ToReceiver(SenderData(n.s), true));
      Flowing(n', a, b') && n'.s.phase == Running && n'.r.phase != Failed
  {
    BlockSizes(file, a);
  }

  lemma AckAnswered(file: seq<byte>, n: Net, a: nat, b: nat, a': nat)
    requires Blocks(file) <= 0xFFFF && InvAt(file, n, a, b)
    requires n.s.phase == Running && n.r.phase == Running && ReceiverAck(b) in n.toS
    requires a' == if b == a then a + 1 else a
    ensures var n' := Step(file, n, ToSender(ReceiverAck(b)));
      Flowing(n', a', b) && n'.s.phase == Running && n'.r.phase == Running
  {
    BlockSizes(file, a);
  }

  /** From every reachable state with both sessions open and a retry left on either side the transfer can still be
      completed, whatever has been lost. */
  lemma CanRecover(file: seq<byte>, es: seq<Event>, n: Net)
    requires Blocks(file) <= 0xFFFF && Reached(file, es, n)
    requires n.s.phase == Running && n.r.phase == Running && (n.s.retry < 2 || n.r.retry < 2)
    ensures CanComplete(file, es)
  {
    var a, b := ReachedInv(file, es, n);
    var e := if n.s.retry < 2 then SenderTimer else ReceiverTimer;
    var n' := Step(file, n, e);
    Extend(file, es, n, e);
    var a', b' := StepInv(file, n, e, a, b);
    TimerSends(file, n, e, a, b);
    Resumes(file, es + [e], n', a, b);
    var es', n2 :| es + [e] <= es' && Reached(file, es', n2) && Complete(n2);
    assert es <= es';
  }

  lemma TimerSends(file: seq<byte>, n: Net, e: Event, a: nat, b: nat)
    requires InvAt(file, n, a, b) && n.s.phase == Running && n.r.phase == Running
    requires (e == SenderTimer && n.s.retry < 2) || (e == ReceiverTimer && n.r.retry < 2)
    ensures var n' := Step(file, n, e);
      && InvAt(file, n', a, b) && n'.s.phase == Running && n'.r.phase == Running
      && (SenderData(n'.s) in n'.toR || ReceiverAck(b) in n'.toS)
  {
  }

  /** Nothing can come of these states: the sender has given up; or the receiver is closed and no acknowledgement is on
      the way; or nothing at all is on the way and both are about to give up. */
  ghost predicate Hopeless(n: Net) {
    || n.s.phase == Failed
    || (n.s.phase == Running && n.r.phase != Running && forall p | p in n.toS :: p.Packet? && p.opcode != ACK)
    || (n.s.phase == Running && n.r.phase == Running && n.toS == {} && n.toR == {} && n.s.retry >= 2 && n.r.retry >= 2)
  }

  lemma HopelessStays(file: seq<byte>, m: Net, e: Event, n: Net)
    requires Hopeless(m) && Moves(file, m, e, n)
    ensures Hopeless(n)
  {
  }

  lemma {:induction false} NeverCompletes(file: seq<byte>, es: seq<Event>, n: Net, es': seq<Event>, n': Net)
    requires Reached(file, es, n) && Hopeless(n) && es <= es' && Reached(file, es', n')
    ensures Hopeless(n')
    decreases |es'|
  {
    if |es'| == |es| {
      assert es == es';
      Deterministic(file, es, n, n');
    } else {
      var m := LastStep(file, es', n');
      NeverCompletes(file, es, n, es'[..|es'| - 1], m);
      HopelessStays(file, m, es'[|es'| - 1], n');
    }
  }

  /** When everything on the way has just been lost, the transfer can still be completed if and only if it is already,
      or both sessions are open and one of them has a retry left. */
  lemma AllLostExactly(file: seq<byte>, es: seq<Event>, n: Net)
    requires Blocks(file) <= 0xFFFF && Reached(file, es, n) && n.toS == {} && n.toR == {}
    ensures CanComplete(file, es) <==>
      Complete(n) || (n.s.phase == Running && n.r.phase == Running && (n.s.retry < 2 || n.r.retry < 2))
  {
    EndToEndHolds(file, es, n);
    if n.s.phase == Running && n.r.phase == Running && (n.s.retry < 2 || n.r.retry < 2) {
      CanRecover(file, es, n);
    } else if n.s.phase == Finished {
      assert es <= es && Complete(n);
    } else {
      assert Hopeless(n);
      forall es', n' | es <= es' && Reached(file, es', n')
        ensures !Complete(n')
      {
        NeverCompletes(file, es, n, es', n');
      }
    }
  }

  // ---- without loss -----------------------------------------------------------------------------------------------

  lemma {:induction false} NothingLost(file: seq<byte>, es: seq<Event>, n: Net) returns (a: nat, b: nat)
    requires Blocks(file) <= 0xFFFF && Reached(file, es, n) && forall e | e in es :: !e.Lose?
    ensures InvAt(file, n, a, b) && Flowing(n, a, b)
    decreases |es|
  {
    if es == [] {
      StartInv(file);
      return 1, 0;
    }
    var m := LastStep(file, es, n);
    assert forall e | e in es[..|es| - 1] :: e in es;
    a, b := NothingLost(file, es[..|es| - 1], m);
    assert es[|es| - 1] in es;
    a, b := StepInv(file, m, es[|es| - 1], a, b);
  }

  /** If nothing is lost for good, only delayed, repeated and reordered, no state is a dead end while the sender is open
      and the receiver has not failed. */
  lemma CanAlwaysComplete(file: seq<byte>, es: seq<Event>, n: Net)
    requires Blocks(file) <= 0xFFFF && Reached(file, es, n) && forall e | e in es :: !e.Lose?
    requires n.s.phase == Running && n.r.phase != Failed
    ensures CanComplete(file, es)
  {
    var a, b := NothingLost(file, es, n);
    var es', n' := CompleteFrom(file, es, n, a, b);
    EndToEndHolds(file, es', n');
    assert es <= es' && Complete(n');
  }
}
