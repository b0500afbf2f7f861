/** The two TFTP sessions of RFC 1350: the read session sends a file block by block, the write session receives
    one. Each session is a state, two transition functions (a packet arrived, the timer fired) and a class whose
    methods do what the callbacks do. */
module TftpSessions {
  import opened Bytes

  const BLOCK: nat := 512
  const DATA: nat := 3
  const ACK: nat := 4
  const ERROR: nat := 5
  const MAX_RETRY: nat := 3

  /** A datagram: one of fewer than four octets, or opcode, 16-bit number and the rest. */
  datatype Packet = Runt | Packet(opcode: nat, num: nat, body: seq<byte>)

  /** Whether a session is open, was closed after the whole transfer, or was closed on an error. */
  datatype Phase = Running | Finished | Failed

  function Wrap16(x: nat): nat {
    x % 0x1_0000
  }

  function Error(code: nat): Packet {
    Packet(ERROR, code, [])
  }

  // ---- the read session: a sender ---------------------------------------------------------------------------------

  /** `rsn` is the number of the block being sent, `block` its contents, `cursor` how much of the file is read. */
  datatype Sender = Sender(phase: Phase, retry: nat, rsn: nat, cursor: nat, block: seq<byte>)

  function Min(a: nat, b: nat): nat {
    if a < b then a else b
  }

  /** One `pread` of at most 512 octets at the cursor; there is nothing behind the end. */
  function ReadAt(file: seq<byte>, cursor: nat): (s: seq<byte>)
    ensures |s| == if cursor < |file| then Min(BLOCK, |file| - cursor) else 0
  {
    if cursor < |file| then file[cursor..cursor + Min(BLOCK, |file| - cursor)] else []
  }

  function SenderData(s: Sender): Packet {
    Packet(DATA, s.rsn, s.block)
  }

  function SenderOnPacket(file: seq<byte>, s: Sender, p: Packet): (Sender, seq<Packet>)
  {
    if p == Runt then (s, [])
    else if p.opcode != ACK then (s.(phase := Failed), [Error(5)])
    else if p.num == s.rsn then
      if |s.block| < BLOCK then (s.(phase := Finished), [])
      else
        var block := ReadAt(file, s.cursor);
        var t := s.(block := block, cursor := s.cursor + |block|, rsn := Wrap16(s.rsn + 1));
        (t, [SenderData(t)])
    else if Wrap16(p.num + 1) == s.rsn then (s, [SenderData(s)])
    else (s.(phase := Failed), [Error(5)])
  }

  function SenderOnTimer(s: Sender): (Sender, seq<Packet>) {
    var t := s.(retry := s.retry + 1);
    if t.retry >= MAX_RETRY then (t.(phase := Failed), [Error(200)]) else (t, [SenderData(t)])
  }

  function SenderStart(file: seq<byte>): (Sender, seq<Packet>) {
    var block := ReadAt(file, 0);
    var s := Sender(Running, 0, 1, |block|, block);
    (s, [SenderData(s)])
  }

  class ReadSession {
    const file: seq<byte>
    const tary: array<byte>
    var phase: Phase
    var retry: nat
    var rsn: nat
    var cursor: nat
    var tlen: nat

    ghost predicate Valid()
      reads this, tary
    {
      tary.Length == BLOCK && tlen <= BLOCK && cursor <= |file|
    }

    ghost function State(): Sender
      reads this, tary
      requires Valid()
    {
      Sender(phase, retry, rsn, cursor, tary[..tlen])
    }

    /** The RRQ branch of `tftp_srv_sock_cbk`. */
    constructor (contents: seq<byte>)
      ensures Valid() && fresh(tary) && file == contents
      ensures State() == SenderStart(contents).0
    {
      file := contents;
      phase, retry, rsn, cursor, tlen := Running, 0, 1, 0, 0;
      tary := new byte[BLOCK](_ => 0);
      new;
      Read();
    }

    /** `pread` into `tary`. */
    method Read()
      requires Valid()
      modifies this`tlen, this`cursor, tary
      ensures Valid()
      ensures tary[..tlen] == ReadAt(file, old(cursor)) && cursor == old(cursor) + tlen
    {
      var n := if |file| - cursor < BLOCK then |file| - cursor else BLOCK;
      for i := 0 to n
        invariant cursor == old(cursor) && cursor + n <= |file|
        invariant forall k | 0 <= k < i :: tary[k] == file[cursor + k]
      {
        tary[i] := file[cursor + i];
      }
      tlen, cursor := n, cursor + n;
    }

    /** `tftp_read_sock_cbk`. */
    method OnPacket(p: Packet) returns (sent: seq<Packet>)
      requires Valid() && phase == Running
      modifies this, tary
      ensures Valid()
      ensures (State(), sent) == SenderOnPacket(file, old(State()), p)
    {
      if p == Runt {
        return [];
      }
      if p.opcode != ACK {
        phase := Failed;
        return [Error(5)];
      }
      if p.num == rsn {
        if tlen < BLOCK {
          phase := Finished;
          return [];
        }
        Read();
        rsn := (rsn + 1) % 0x1_0000;
        return [Packet(DATA, rsn, tary[..tlen])];
      } else if (p.num + 1) % 0x1_0000 == rsn {
        return [Packet(DATA, rsn, tary[..tlen])];
      } else {
        phase := Failed;
        return [Error(5)];
      }
    }

    /** `tftp_read_timer_cbk`. */
    method OnTimer() returns (sent: seq<Packet>)
      requires Valid() && phase == Running
      modifies this
      ensures Valid()
      ensures (State(), sent) == SenderOnTimer(old(State()))
    {
      retry := retry + 1;
      if retry >= MAX_RETRY {
        phase := Failed;
        return [Error(200)];
      }
      return [Packet(DATA, rsn, tary[..tlen])];
    }
  }

  // ---- the write session: a receiver ------------------------------------------------------------------------------

  /** `rsn` is the last block accepted, `ofs` the octets accepted, `written` what `pwrite` has stored. */
  datatype Receiver = Receiver(phase: Phase, retry: nat, rsn: nat, ofs: nat, written: seq<byte>)

  function ReceiverAck(n: nat): Packet {
    Packet(ACK, n, [])
  }

  /** `ok` is whether `pwrite` succeeds, should it be called. */
  function ReceiverOnPacket(r: Receiver, p: Packet, ok: bool): (Receiver, seq<Packet>) {
    if p == Runt then (r.(phase := Failed), [Error(4)])
    else if p.opcode != DATA then (r.(phase := Failed), [])
    else if p.num != Wrap16(r.rsn + 1) then (r.(retry := 0), [ReceiverAck(r.rsn)])
    else if |p.body| > BLOCK then (r.(retry := 0, phase := Failed), [Error(5)])
    else if |p.body| == 0 then (r.(retry := 0, phase := Finished), [ReceiverAck(p.num)])
    else
      var t := r.(retry := 0, rsn := p.num, ofs := (r.ofs + |p.body|) % 0x1_0000_0000);
      if !ok then (t.(phase := Failed), [Error(3)])
      else
        (t.(written := r.written + p.body, phase := if |p.body| < BLOCK then Finished else Running),
         [ReceiverAck(p.num)])
  }

  function ReceiverOnTimer(r: Receiver): (Receiver, seq<Packet>) {
    var t := r.(retry := r.retry + 1);
    if t.retry >= MAX_RETRY then (t.(phase := Failed), [Error(200)]) else (t, [ReceiverAck(t.rsn)])
  }

  function ReceiverStart(): (Receiver, seq<Packet>) {
    (Receiver(Running, 0, 0, 0, []), [ReceiverAck(0)])
  }

  class WriteSession {
    var phase: Phase
    var retry: nat
    var rsn: nat
    var ofs: nat
    var stored: seq<byte>

    ghost function State(): Receiver
      reads this
    {
      Receiver(phase, retry, rsn, ofs, stored)
    }

    /** The WRQ branch of `tftp_srv_sock_cbk`. */
    constructor ()
      ensures State() == ReceiverStart().0
    {
      phase, retry, rsn, ofs, stored := Running, 0, 0, 0, [];
    }

    /** `tftp_write_sock_cbk`; `ok` is what `pwrite` answers. */
    method OnPacket(p: Packet, ok: bool) returns (sent: seq<Packet>)
      requires phase == Running
      modifies this
      ensures (State(), sent) == ReceiverOnPacket(old(State()), p, ok)
    {
      if p == Runt {
        phase := Failed;
        return [Error(4)];
      }
      if p.opcode != DATA {
        phase := Failed;
        return [];
      }
      retry := 0;
      if p.num != (rsn + 1) % 0x1_0000 {
        return [ReceiverAck(rsn)];
      }
      if |p.body| == BLOCK {
        rsn := p.num;
        ofs := (ofs + BLOCK) % 0x1_0000_0000;
        if !ok {
          phase := Failed;
          return [Error(3)];
        }
        stored := stored + p.body;
        return [ReceiverAck(p.num)];
      } else if |p.body| > BLOCK {
        phase := Failed;
        return [Error(5)];
      } else {
        if |p.body| > 0 {
          rsn := p.num;
          ofs := (ofs + |p.body|) % 0x1_0000_0000;
          if !ok {
            phase := Failed;
            return [Error(3)];
          }
          stored := stored + p.body;
        }
        phase := Finished;
        return [ReceiverAck(p.num)];
      }
    }

    /** `tftp_write_timer_cbk`. */
    method OnTimer() returns (sent: seq<Packet>)
      requires phase == Running
      modifies this
      ensures (State(), sent) == ReceiverOnTimer(old(State()))
    {
      retry := retry + 1;
      if retry >= MAX_RETRY {
        phase := Failed;
        return [Error(200)];
      }
      return [ReceiverAck(rsn)];
    }
  }

  // ---- what ends a session ----------------------------------------------------------------------------------------

  /** `p` acknowledges block `n`, in 16 bits. */
  predicate Acknowledges(p: Packet, n: nat) {
    p.Packet? && p.opcode == ACK && p.num == n
  }

  /** A read session finishes with the acknowledgement of its short block, goes on with that of a full block or of the
      block before, ignores a runt, and ends on anything else, saying so. While it goes on it sends one data packet: the
      next block or the current one again. */
  lemma SenderVerdict(file: seq<byte>, s: Sender, p: Packet, prev: nat)
    requires s.phase == Running && prev < 0x1_0000 && Wrap16(prev + 1) == s.rsn && (p.Packet? ==> p.num < 0x1_0000)
    ensures var (t, out) := SenderOnPacket(file, s, p);
      && (t.phase == Finished <==> Acknowledges(p, s.rsn) && |s.block| < BLOCK)
      && (t.phase == Running <==>
            p == Runt || (Acknowledges(p, s.rsn) && |s.block| >= BLOCK) || Acknowledges(p, prev))
      && (t.phase == Failed ==> |out| == 1 && out[0].Packet? && out[0].opcode == ERROR)
      && (t.phase == Finished || p == Runt ==> out == [])
      && (t.phase == Running && p != Runt ==> out == [Packet(DATA, t.rsn, t.block)])
      && (t.phase == Running && Acknowledges(p, s.rsn) ==>
            t.rsn == Wrap16(s.rsn + 1) && t.block == ReadAt(file, s.cursor) && t.cursor == s.cursor + |t.block|)
      && (!Acknowledges(p, s.rsn) ==> t == s.(phase := t.phase))
  {
    if p.Packet? && p.opcode == ACK && Wrap16(p.num + 1) == s.rsn {
      assert p.num == prev;
    }
  }

  /** `p` brings block `n`, in 16 bits. */
  predicate Brings(p: Packet, n: nat) {
    p.Packet? && p.opcode == DATA && p.num == n
  }

  /** A write session stores the next block if it is not empty, not too long and `pwrite` succeeds, and nothing else; it
      ends without success on a runt, on anything but data, and on a next block that it cannot store; it finishes with a
      short block. It acknowledges the next block if it keeps it, and the last one again when another block comes. */
  lemma ReceiverVerdict(r: Receiver, p: Packet, ok: bool)
    requires r.phase == Running
    ensures var (t, out) := ReceiverOnPacket(r, p, ok);
      var next := Brings(p, Wrap16(r.rsn + 1));
      && (t.phase == Failed <==>
            p == Runt || p.opcode != DATA || (next && (|p.body| > BLOCK || (p.body != [] && !ok))))
      && (t.phase == Finished <==> next && |p.body| < BLOCK && (p.body == [] || ok))
      && t.written == (if next && |p.body| <= BLOCK && ok then r.written + p.body else r.written)
      && (t.phase != Failed ==> out == [Packet(ACK, if next then p.num else r.rsn, [])])
      && (forall q | q in out && t.phase == Failed :: q.Packet? && q.opcode == ERROR)
      && (t.phase != Failed && p.body != [] ==> t.rsn == if next then p.num else r.rsn)
  {
    assert r.written + [] == r.written;
  }
}
