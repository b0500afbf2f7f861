/** Aggregation as its callers see it: payloads without headers, and batches no smaller than they must be. */
module AggregationUse {
  import opened Bytes
  import opened Options
  import opened Aggregation
  import opened AggregationLaws

  // ---- without headers --------------------------------------------------------------------------------------------

  /** Calling `recv_unpack` until nothing is pending: what it hands out when no header is kept. */
  function UnpackBare(cfg: Config, d: seq<byte>): (outs: seq<seq<byte>>)
    requires cfg.Valid()
    decreases if |d| > 1 then d[1] else 0
  {
    if !Readable(cfg, d) then []
    else
      match Unpack(cfg, false, d)
      case Dropped => []
      case Last(out) => [out]
      case More(out, rest) => [out] + UnpackBare(cfg, rest)
  }

  /** Leaving the header off changes nothing else. */
  lemma OnlyTheHeader(cfg: Config, d: seq<byte>)
    requires cfg.Valid() && Readable(cfg, d)
    ensures match Unpack(cfg, true, d)
            case Dropped => Unpack(cfg, false, d) == Dropped
            case Last(o) => |o| >= XHEADER_LEN && Unpack(cfg, false, d) == Last(o[XHEADER_LEN..])
            case More(o, rest) => |o| >= XHEADER_LEN && Unpack(cfg, false, d) == More(o[XHEADER_LEN..], rest)
  {
  }

  lemma BareFirst(cfg: Config, id: byte, ps: seq<seq<byte>>, d: seq<byte>)
    requires cfg.Valid() && cfg.Ours(id) && Short(ps) && 2 <= |ps| <= 255 && d == Frame(id, |ps|, ps)
    ensures UnpackBare(cfg, d) ==
      if 1 <= |ps[0]| <= cfg.pbufMax then [ps[0]] + UnpackBare(cfg, Frame(id, |ps| - 1, ps[1..])) else []
  {
    UnpackFirst(cfg, id, ps, d);
    OnlyTheHeader(cfg, d);
    SingleIs(id, ps[0]);
    assert ([id, 1] + U16(|ps[0]|) + ps[0])[XHEADER_LEN..] == ps[0];
  }

  lemma BareOnly(cfg: Config, id: byte, p: seq<byte>)
    requires cfg.Valid() && cfg.Ours(id) && |p| < 0x1_0000
    ensures UnpackBare(cfg, Single(id, p)) == [p]
  {
    SingleIs(id, p);
    assert ([id, 1] + U16(|p|) + p)[XHEADER_LEN..] == p;
  }

  lemma SamePayloads(a: seq<seq<byte>>, b: seq<seq<byte>>, ps: seq<seq<byte>>, fits: bool)
    requires ps != [] && a == if fits then [ps[0]] + b else []
    ensures a == ps <==> fits && b == ps[1..]
  {
    assert ps == [ps[0]] + ps[1..];
    SameTail(ps[0], b, ps[1..]);
  }

  lemma {:induction false} BareSmallBatch(cfg: Config, id: byte, ps: seq<seq<byte>>)
    requires cfg.Valid() && cfg.Ours(id) && Short(ps) && 1 <= |ps| <= 255
    ensures UnpackBare(cfg, Frame(id, |ps|, ps)) == ps <==> Splittable(cfg, ps)
  {
    if |ps| == 1 {
      BareOnly(cfg, id, ps[0]);
      assert ps == [ps[0]] && Splittable(cfg, ps);
    } else {
      var d, e := Frame(id, |ps|, ps), Frame(id, |ps| - 1, ps[1..]);
      BareFirst(cfg, id, ps, d);
      SamePayloads(UnpackBare(cfg, d), UnpackBare(cfg, e), ps, 1 <= |ps[0]| <= cfg.pbufMax);
      BareSmallBatch(cfg, id, ps[1..]);
      if 1 <= |ps[0]| <= cfg.pbufMax {
        SplittableRest(cfg, ps);
      }
    }
  }

  lemma {:induction false} BareBound(cfg: Config, d: seq<byte>)
    requires cfg.Valid() && |d| > 1
    ensures |UnpackBare(cfg, d)| <= if d[1] == 0 then 1 else d[1]
    decreases d[1]
  {
    if Readable(cfg, d) && Unpack(cfg, false, d).More? {
      BareBound(cfg, Unpack(cfg, false, d).rest);
    }
  }

  /** Without headers a batch comes apart into exactly the payloads that were packed, under the same condition. */
  lemma BareUndoesPack(cfg: Config, id: byte, ps: seq<seq<byte>>)
    requires cfg.Valid() && cfg.Ours(id) && Short(ps) && 1 <= |ps|
    ensures UnpackBare(cfg, Frame(id, |ps|, ps)) == ps <==> |ps| <= 255 && Splittable(cfg, ps)
  {
    if |ps| <= 255 {
      BareSmallBatch(cfg, id, ps);
    } else {
      BareBound(cfg, Frame(id, |ps|, ps));
    }
  }

  /** A packet with somebody else's id is dropped. */
  lemma ForeignDropped(cfg: Config, d: seq<byte>, keephdr: bool)
    requires cfg.Valid() && |d| >= XHEADER_LEN && !cfg.Ours(d[0])
    ensures Readable(cfg, d) && Unpack(cfg, keephdr, d) == Dropped
  {
  }

  // ---- how full batches are ---------------------------------------------------------------------------------------

  /** An arrival makes the packer send exactly when the batch held would reach the burst limit with it; else the batch
      held grows by it. */
  lemma ClosesOnlyWhenFull(cfg: Config, id: byte, es: seq<Event>, p: seq<byte>) returns (hp: seq<seq<byte>>)
    ensures Holds(cfg, id, After(cfg, id, es).held, hp)
    ensures var s, t := After(cfg, id, es), After(cfg, id, es + [Arrive(p)]);
      if |Frame(id, |hp| + 1, hp + [p])| >= cfg.maxBurst then
        |t.sent| == |s.sent| + 1
      else
        t.sent == s.sent && Holds(cfg, id, t.held, hp + [p])
  {
    var bs;
    bs, hp := StreamKeepsArrivals(cfg, id, es);
    var s := After(cfg, id, es);
    assert (es + [Arrive(p)])[..|es|] == es;
    PackKeepsBatches(cfg, id, s.held, hp, p);
    FirstIs(id, p);
    if s.held.Some? {
      AppendIs(id, hp, p);
    } else {
      assert hp + [p] == [p];
    }
  }

  /** A flush sends what is held, if anything, and leaves nothing behind. */
  lemma FlushSends(cfg: Config, id: byte, es: seq<Event>)
    ensures var s, t := After(cfg, id, es), After(cfg, id, es + [Flush]);
      t.held == None && t.sent == s.sent + Emitted(s.held)
  {
    assert (es + [Flush])[..|es|] == es;
  }
}
