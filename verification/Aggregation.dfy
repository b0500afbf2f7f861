/** Small-packet aggregation: `recv_pack` gathers payloads into one batch under a four-octet header, `recv_unpack`
    takes a batch apart again, and `timer_send_eth` flushes a batch that has waited long enough. */
module Aggregation {
  import opened Bytes
  import opened Options

  /** The build's constants: the burst limit, the largest packet, and the header id. A header octet is ours when
      its high part, counted in `span`s, is `tag`; the rest of it is the device number. */
  datatype Config = Config(maxBurst: nat, pbufMax: nat, tag: nat, span: nat) {
    predicate Valid() {
      0 < span && tag * span + span <= 256 && pbufMax < 0x1_0000
    }

    predicate Ours(b: byte)
      requires Valid()
    {
      b / span == tag
    }

    function Id(dev: nat): byte
      requires Valid() && dev < span
    {
      tag * span + dev
    }
  }

  const XHEADER_LEN: nat := 4

  // ---- the layout -------------------------------------------------------------------------------------------------

  /** Every payload preceded by its 16-bit length: the first length is the header's own length field. */
  function Body(ps: seq<seq<byte>>): seq<byte> {
    if ps == [] then [] else U16(|ps[0]|) + ps[0] + Body(ps[1..])
  }

  /** A batch: id, 8-bit count, then the payloads. */
  function Frame(id: byte, count: nat, ps: seq<seq<byte>>): seq<byte> {
    [id, count % 256] + Body(ps)
  }

  /** A payload alone under a header of its own. */
  function Single(id: byte, p: seq<byte>): seq<byte> {
    Frame(id, 1, [p])
  }

  lemma {:induction false} BodyAppend(ps: seq<seq<byte>>, p: seq<byte>)
    ensures Body(ps + [p]) == Body(ps) + U16(|p|) + p
  {
    if ps == [] {
      assert Body([p]) == U16(|p|) + p + Body([]);
    } else {
      assert (ps + [p])[1..] == ps[1..] + [p];
      BodyAppend(ps[1..], p);
    }
  }

  /** `++` on a `uint8_t`. */
  function Inc8(b: byte): byte {
    var n: int := b;
    (n + 1) % 256
  }

  // ---- packing ----------------------------------------------------------------------------------------------------

  /** What `recv_pack` does with a payload: the batch now held, and the batch handed out, if any. */
  function Pack(cfg: Config, id: byte, held: Option<seq<byte>>, p: seq<byte>): (Option<seq<byte>>, Option<seq<byte>>)
    requires held.Some? ==> |held.value| >= XHEADER_LEN
  {
    var first := [id, 1] + U16(|p|) + p;
    match held
    case Some(c) =>
      if |c| + |p| + 2 < cfg.maxBurst then (Some([c[0], Inc8(c[1])] + c[2..] + U16(|p|) + p), None)
      else (Some(first), held)
    case None =>
      if |first| >= cfg.maxBurst then (None, Some(first)) else (Some(first), None)
  }

  class Packer {
    const cfg: Config
    const id: byte
    var ethpkt: Option<seq<byte>>
    var timerOn: bool

    /** A held batch has a header, and the flush timer runs exactly while a batch is held. */
    ghost predicate Valid()
      reads this
    {
      && (ethpkt.Some? ==> |ethpkt.value| >= XHEADER_LEN)
      && (timerOn <==> ethpkt.Some?)
    }

    constructor (cfg: Config, id: byte)
      ensures Valid() && ethpkt == None && this.cfg == cfg && this.id == id
    {
      this.cfg, this.id := cfg, id;
      ethpkt, timerOn := None, false;
    }

    /** `recv_pack`: a positive result is the length of the batch in `out`. */
    method RecvPack(p: seq<byte>) returns (iret: int, out: seq<byte>)
      requires Valid()
      modifies this`ethpkt, this`timerOn
      ensures Valid()
      ensures var (held, emitted) := Pack(cfg, id, old(ethpkt), p);
        && ethpkt == held
        && (if emitted.Some? then iret == |out| > 0 && out == emitted.value else iret == -1 && out == [])
    {
      iret, out := -1, [];
      var curpkt := ethpkt;
      if curpkt.Some? {
        var c := curpkt.value;
        if |c| + |p| + 2 < cfg.maxBurst {
          var prefixed := U16(|p|) + p;
          c := c + prefixed;
          c := c[1 := Inc8(c[1])];
          ethpkt := Some(c);
          assert c == [curpkt.value[0], Inc8(curpkt.value[1])] + curpkt.value[2..] + U16(|p|) + p;
        } else {
          timerOn := false;
          out, iret := c, |c|;
          ethpkt, curpkt := None, None;
        }
      }
      if curpkt == None {
        var c := [id, 1] + U16(|p|) + p;
        if |c| >= cfg.maxBurst && iret <= 0 {
          out, iret := c, |c|;
          ethpkt := None;
        } else {
          ethpkt := Some(c);
          timerOn := true;
        }
      }
    }

    /** `timer_send_eth`: the one-shot timer has fired. */
    method TimerSend() returns (out: Option<seq<byte>>)
      requires Valid()
      modifies this`ethpkt, this`timerOn
      ensures Valid() && out == old(ethpkt) && ethpkt == None
    {
      timerOn := false;
      out := ethpkt;
      ethpkt := None;
    }
  }

  // ---- unpacking --------------------------------------------------------------------------------------------------

  /** `recv_unpack` on a pending packet: drop it, hand out one payload and keep the rest, or hand it out whole. */
  datatype Unpacked = Dropped | More(out: seq<byte>, rest: seq<byte>) | Last(out: seq<byte>)

  /** The source reads a whole header and, when it splits a packet, the payload the header declares. */
  predicate Readable(cfg: Config, d: seq<byte>)
    requires cfg.Valid()
  {
    && |d| >= XHEADER_LEN
    && (cfg.Ours(d[0]) && d[1] > 1 && 0 < FromU16(d[2], d[3]) <= cfg.pbufMax ==>
          FromU16(d[2], d[3]) + XHEADER_LEN <= |d|)
  }

  function Clip(keephdr: bool, d: seq<byte>): seq<byte>
    requires |d| >= XHEADER_LEN
  {
    if keephdr then d else d[XHEADER_LEN..]
  }

  function Unpack(cfg: Config, keephdr: bool, d: seq<byte>): Unpacked
    requires cfg.Valid() && Readable(cfg, d)
  {
    if !cfg.Ours(d[0]) then Dropped
    else if d[1] <= 1 then Last(Clip(keephdr, d))
    else
      var len := FromU16(d[2], d[3]);
      if len == 0 || len > cfg.pbufMax then Dropped
      else More(Clip(keephdr, [d[0], 1] + d[2..len + 4]), [d[0], d[1] - 1] + d[len + 4..])
  }

  /** A packet buffer: `length` octets from `off` on. */
  class Pbuf {
    const buf: array<byte>
    var off: nat
    var length: nat

    ghost predicate Valid()
      reads this
    {
      off + length <= buf.Length
    }

    ghost function Contents(): seq<byte>
      reads this, buf
      requires Valid()
    {
      buf[off..off + length]
    }

    constructor (contents: seq<byte>)
      ensures Valid() && Contents() == contents && fresh(buf)
    {
      buf := new byte[|contents|](i requires 0 <= i < |contents| => contents[i]);
      off, length := 0, |contents|;
    }

    /** `pkt_clip`: drop octets at the front. */
    method Clip(n: nat)
      requires Valid() && n <= length
      modifies this
      ensures Valid() && Contents() == old(Contents())[n..] && length == old(length) - n && off == old(off) + n
    {
      off, length := off + n, length - n;
    }
  }

  /** The copy of one payload, its count set to 1. */
  method CopyOut(ipkt: Pbuf, len: nat, keephdr: bool) returns (out: seq<byte>)
    requires ipkt.Valid() && len + XHEADER_LEN <= ipkt.length
    ensures var d := ipkt.Contents();
      out == Clip(keephdr, [d[0], 1] + d[2..len + XHEADER_LEN])
  {
    ghost var d := ipkt.Contents();
    out := ipkt.buf[ipkt.off..ipkt.off + len + XHEADER_LEN];
    assert out == d[..len + XHEADER_LEN];
    out := out[1 := 1];
    assert out == [d[0], 1] + d[2..len + XHEADER_LEN];
    if !keephdr {
      out := out[XHEADER_LEN..];
    }
  }

  /** The header of the remainder is written over the last two octets of the payload just copied out, in front of the
      length that follows it. */
  method NextHeader(ipkt: Pbuf, len: nat)
    requires ipkt.Valid() && len > 0 && len + XHEADER_LEN <= ipkt.length && ipkt.buf[ipkt.off + 1] > 1
    modifies ipkt, ipkt.buf
    ensures ipkt.Valid()
    ensures var d := old(ipkt.Contents()); ipkt.Contents() == [d[0], d[1] - 1] + d[len + XHEADER_LEN..]
  {
    ghost var d := ipkt.Contents();
    var src, buf := ipkt.off, ipkt.buf;
    ipkt.Clip(len + XHEADER_LEN - 2);
    buf[ipkt.off] := buf[src];
    buf[ipkt.off + 1] := buf[src + 1] - 1;
    assert ipkt.Contents() == [d[0], d[1] - 1] + d[len + XHEADER_LEN..];
  }

  class Unpacker {
    const cfg: Config
    var pkpkt: Pbuf?

    constructor (cfg: Config)
      ensures this.cfg == cfg && pkpkt == null
    {
      this.cfg := cfg;
      pkpkt := null;
    }

    /** `recv_unpack` with a packet pending. */
    method Next(keephdr: bool) returns (iret: int, out: seq<byte>)
      requires cfg.Valid() && pkpkt != null && pkpkt.Valid() && Readable(cfg, pkpkt.Contents())
      modifies this, pkpkt, pkpkt.buf
      ensures pkpkt != null ==> pkpkt == old(pkpkt) && pkpkt.Valid()
      ensures match Unpack(cfg, keephdr, old(pkpkt.Contents()))
              case Dropped => iret == -1 && pkpkt == null && out == []
              case Last(o) => iret == 1 && pkpkt == null && out == o
              case More(o, rest) => iret == 1 && out == o && pkpkt != null && pkpkt.Contents() == rest
    {
      var ipkt := pkpkt;
      var src, buf := ipkt.off, ipkt.buf;
      ghost var d := ipkt.Contents();
      assert buf[src..][..ipkt.length] == d;
      if !cfg.Ours(buf[src]) {
        pkpkt := null;
        return -1, [];
      }
      if buf[src + 1] > 1 {
        var len := FromU16(buf[src + 2], buf[src + 3]);
        if len == 0 || len > cfg.pbufMax {
          pkpkt := null;
          return -1, [];
        }
        out := CopyOut(ipkt, len, keephdr);
        NextHeader(ipkt, len);
        return 1, out;
      }
      if !keephdr {
        ipkt.Clip(XHEADER_LEN);
      }
      pkpkt := null;
      return 1, ipkt.buf[ipkt.off..ipkt.off + ipkt.length];
    }
  }
}
