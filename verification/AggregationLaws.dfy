/** Unpacking undoes packing: for one batch, and for every run of arrivals and timer flushes. */
module AggregationLaws {
  import opened Bytes
  import opened Division
  import opened Options
  import opened Aggregation

  // ---- one batch --------------------------------------------------------------------------------------------------

  /** Calling `recv_unpack` until nothing is pending: the packets it hands out, headers kept. */
  function UnpackAll(cfg: Config, d: seq<byte>): (outs: seq<seq<byte>>)
    requires cfg.Valid()
    decreases if |d| > 1 then d[1] else 0
  {
    if !Readable(cfg, d) then []
    else
      match Unpack(cfg, true, d)
      case Dropped => []
      case Last(out) => [out]
      case More(out, rest) => [out] + UnpackAll(cfg, rest)
  }

  /** Each payload under a header of its own. */
  function Singles(id: byte, ps: seq<seq<byte>>): (outs: seq<seq<byte>>)
    ensures |outs| == |ps|
  {
    if ps == [] then [] else [Single(id, ps[0])] + Singles(id, ps[1..])
  }

  predicate Short(ps: seq<seq<byte>>) {
    forall p | p in ps :: |p| < 0x1_0000
  }

  /** The lengths `recv_unpack` looks at, all but the last one's, are in range. */
  predicate Splittable(cfg: Config, ps: seq<seq<byte>>) {
    forall i | 0 <= i < |ps| - 1 :: 1 <= |ps[i]| <= cfg.pbufMax
  }

  /** The id the packer writes for a device is one the unpacker accepts. */
  lemma IdIsOurs(cfg: Config, dev: nat)
    requires cfg.Valid() && dev < cfg.span
    ensures cfg.Ours(cfg.Id(dev))
  {
    var x, q := cfg.tag * cfg.span + dev, (cfg.tag * cfg.span + dev) / cfg.span;
    assert x == q * cfg.span + x % cfg.span;
    Unique(x, cfg.span, cfg.tag, dev);
    assert (q - cfg.tag) * cfg.span == 0;
  }

  /** Where the parts of a batch lie. */
  lemma Parts(id: byte, n: byte, p: seq<byte>, rest: seq<byte>, d: seq<byte>)
    requires |p| < 0x1_0000 && d == [id, n] + U16(|p|) + p + rest
    ensures |d| == 4 + |p| + |rest| && d[0] == id && d[1] == n
    ensures FromU16(d[2], d[3]) == |p|
    ensures d[2..|p| + 4] == U16(|p|) + p
    ensures d[|p| + 4..] == rest
  {
    var head := [id, n] + U16(|p|) + p;
    assert d == head + rest && |head| == |p| + 4;
    assert head[2..] == U16(|p|) + p && d[2] == U16(|p|)[0] && d[3] == U16(|p|)[1];
  }

  /** One step of unpacking a batch of at least two payloads. */
  lemma UnpackFirst(cfg: Config, id: byte, ps: seq<seq<byte>>, d: seq<byte>)
    requires cfg.Valid() && cfg.Ours(id) && Short(ps) && 2 <= |ps| <= 255 && d == Frame(id, |ps|, ps)
    ensures && Readable(cfg, d)
            && if 1 <= |ps[0]| <= cfg.pbufMax
               then Unpack(cfg, true, d) == More(Single(id, ps[0]), Frame(id, |ps| - 1, ps[1..]))
               else Unpack(cfg, true, d) == Dropped
  {
    var p, rest := ps[0], Body(ps[1..]);
    SmallFrame(id, |ps|, ps);
    SmallFrame(id, |ps| - 1, ps[1..]);
    SingleIs(id, p);
    assert d == [id, |ps|] + U16(|p|) + p + rest;
    UnpackParts(cfg, id, |ps|, p, rest, d);
  }

  lemma SmallFrame(id: byte, n: byte, ps: seq<seq<byte>>)
    ensures Frame(id, n, ps) == [id, n] + Body(ps)
  {
  }

  lemma UnpackParts(cfg: Config, id: byte, n: byte, p: seq<byte>, rest: seq<byte>, d: seq<byte>)
    requires cfg.Valid() && cfg.Ours(id) && |p| < 0x1_0000 && n > 1
    requires d == [id, n] + U16(|p|) + p + rest
    ensures && Readable(cfg, d)
            && if 1 <= |p| <= cfg.pbufMax
               then Unpack(cfg, true, d) == More([id, 1] + U16(|p|) + p, [id, n - 1] + rest)
               else Unpack(cfg, true, d) == Dropped
  {
    Parts(id, n, p, rest, d);
    assert [id, 1] + (U16(|p|) + p) == [id, 1] + U16(|p|) + p;
  }

  lemma SingleIs(id: byte, p: seq<byte>)
    ensures Single(id, p) == [id, 1] + U16(|p|) + p
  {
    assert Body([p]) == U16(|p|) + p + Body([]);
  }

  lemma UnpackOnly(cfg: Config, id: byte, p: seq<byte>)
    requires cfg.Valid() && cfg.Ours(id) && |p| < 0x1_0000
    ensures UnpackAll(cfg, Single(id, p)) == [Single(id, p)]
  {
    assert Body([p]) == U16(|p|) + p + Body([]);
  }

  lemma UnpackBound(cfg: Config, d: seq<byte>)
    requires cfg.Valid() && |d| > 1
    ensures |UnpackAll(cfg, d)| <= if d[1] == 0 then 1 else d[1]
    decreases d[1]
  {
    if Readable(cfg, d) && Unpack(cfg, true, d).More? {
      UnpackBound(cfg, Unpack(cfg, true, d).rest);
    }
  }

  lemma {:induction false} UnpackSmallBatch(cfg: Config, id: byte, ps: seq<seq<byte>>)
    requires cfg.Valid() && cfg.Ours(id) && Short(ps) && 1 <= |ps| <= 255
    ensures UnpackAll(cfg, Frame(id, |ps|, ps)) == Singles(id, ps) <==> Splittable(cfg, ps)
  {
    if |ps| == 1 {
      UnpackOnly(cfg, id, ps[0]);
      assert ps == [ps[0]];
    } else {
      var d, e, first := Frame(id, |ps|, ps), Frame(id, |ps| - 1, ps[1..]), Single(id, ps[0]);
      UnpackFirst(cfg, id, ps, d);
      UnpackSmallBatch(cfg, id, ps[1..]);
      if 1 <= |ps[0]| <= cfg.pbufMax {
        UnpackMore(cfg, d, first, e);
        SplittableRest(cfg, ps);
        SameTail(first, UnpackAll(cfg, e), Singles(id, ps[1..]));
      } else {
        assert UnpackAll(cfg, d) == [];
      }
    }
  }

  lemma UnpackMore(cfg: Config, d: seq<byte>, first: seq<byte>, rest: seq<byte>)
    requires cfg.Valid() && Readable(cfg, d) && Unpack(cfg, true, d) == More(first, rest)
    ensures UnpackAll(cfg, d) == [first] + UnpackAll(cfg, rest)
  {
  }

  lemma SameTail(p: seq<byte>, a: seq<seq<byte>>, b: seq<seq<byte>>)
    ensures [p] + a == [p] + b <==> a == b
  {
    assert ([p] + a)[1..] == a && ([p] + b)[1..] == b;
  }

  lemma SplittableRest(cfg: Config, ps: seq<seq<byte>>)
    requires |ps| >= 2 && 1 <= |ps[0]| <= cfg.pbufMax
    ensures Splittable(cfg, ps) <==> Splittable(cfg, ps[1..])
  {
    assert forall i | 0 <= i < |ps| - 2 :: ps[1..][i] == ps[i + 1];
    assert forall i | 1 <= i < |ps| - 1 :: ps[i] == ps[1..][i - 1];
  }

  /** Round trip. A batch comes apart into exactly its payloads, in order, each under a header with the same id,
      count 1 and its own length, if and only if the 8-bit count holds their number and no payload but the last is
      empty or over the packet limit. */
  lemma UnpackUndoesPack(cfg: Config, id: byte, ps: seq<seq<byte>>)
    requires cfg.Valid() && cfg.Ours(id) && Short(ps) && 1 <= |ps|
    ensures UnpackAll(cfg, Frame(id, |ps|, ps)) == Singles(id, ps)
            <==> |ps| <= 255 && Splittable(cfg, ps)
  {
    if |ps| <= 255 {
      UnpackSmallBatch(cfg, id, ps);
    } else {
      UnpackBound(cfg, Frame(id, |ps|, ps));
    }
  }

  // ---- runs -------------------------------------------------------------------------------------------------------

  datatype Event = Arrive(p: seq<byte>) | Flush

  /** The batch held and the batches sent, in order. */
  datatype Stream = Stream(held: Option<seq<byte>>, sent: seq<seq<byte>>)

  function Emitted(o: Option<seq<byte>>): seq<seq<byte>> {
    if o.Some? then [o.value] else []
  }

  function Next(cfg: Config, id: byte, s: Stream, e: Event): (t: Stream)
    requires s.held.Some? ==> |s.held.value| >= XHEADER_LEN
    ensures t.held.Some? ==> |t.held.value| >= XHEADER_LEN
  {
    match e
    case Flush => Stream(None, s.sent + Emitted(s.held))
    case Arrive(p) =>
      var (held, out) := Pack(cfg, id, s.held, p);
      Stream(held, s.sent + Emitted(out))
  }

  function After(cfg: Config, id: byte, es: seq<Event>): (s: Stream)
    ensures s.held.Some? ==> |s.held.value| >= XHEADER_LEN
  {
    if es == [] then Stream(None, []) else Next(cfg, id, After(cfg, id, es[..|es| - 1]), es[|es| - 1])
  }

  function Arrivals(es: seq<Event>): seq<seq<byte>> {
    if es == [] then []
    else Arrivals(es[..|es| - 1]) + if es[|es| - 1].Arrive? then [es[|es| - 1].p] else []
  }

  function Flat(bs: seq<seq<seq<byte>>>): seq<seq<byte>> {
    if bs == [] then [] else Flat(bs[..|bs| - 1]) + bs[|bs| - 1]
  }

  /** A batch of payloads, and of two or more only below the burst limit. */
  predicate Batch(cfg: Config, id: byte, b: seq<seq<byte>>, d: seq<byte>) {
    && b != [] && d == Frame(id, |b|, b) && |d| >= XHEADER_LEN
    && (|b| >= 2 ==> |d| < cfg.maxBurst)
  }

  ghost predicate Holds(cfg: Config, id: byte, held: Option<seq<byte>>, b: seq<seq<byte>>) {
    if held == None then b == [] else Batch(cfg, id, b, held.value)
  }

  ghost predicate SentAre(cfg: Config, id: byte, sent: seq<seq<byte>>, bs: seq<seq<seq<byte>>>) {
    |sent| == |bs| && forall i | 0 <= i < |bs| :: Batch(cfg, id, bs[i], sent[i])
  }

  /** Appending to a batch, or opening one, keeps it a batch. */
  lemma PackKeepsBatches(cfg: Config, id: byte, held: Option<seq<byte>>, hp: seq<seq<byte>>, p: seq<byte>)
    requires Holds(cfg, id, held, hp)
    ensures var (held', out) := Pack(cfg, id, held, p);
      match out
      case None => Holds(cfg, id, held', hp + [p])
      case Some(d) =>
        if held.Some? then Batch(cfg, id, hp, d) && Holds(cfg, id, held', [p])
        else Batch(cfg, id, [p], d) && held' == None
  {
    FirstIs(id, p);
    if held.Some? {
      assert |held.value| + |p| + 2 == |AppendTo(held.value, p)|;
      AppendIs(id, hp, p);
    } else {
      assert hp + [p] == [p];
    }
  }

  /** The batch `recv_pack` opens. */
  lemma FirstIs(id: byte, p: seq<byte>)
    ensures Frame(id, 1, [p]) == [id, 1] + U16(|p|) + p
  {
    assert Body([p]) == U16(|p|) + p + Body([]);
  }

  /** What it makes of the batch held. */
  function AppendTo(c: seq<byte>, p: seq<byte>): seq<byte>
    requires |c| >= XHEADER_LEN
  {
    [c[0], Inc8(c[1])] + c[2..] + U16(|p|) + p
  }

  lemma AppendIs(id: byte, hp: seq<seq<byte>>, p: seq<byte>)
    requires |Frame(id, |hp|, hp)| >= XHEADER_LEN
    ensures AppendTo(Frame(id, |hp|, hp), p) == Frame(id, |hp| + 1, hp + [p])
  {
    var c := Frame(id, |hp|, hp);
    assert c[0] == id && c[1] == |hp| % 256 && c[2..] == Body(hp);
    CountStep(|hp|);
    BodyAppend(hp, p);
  }

  lemma CountStep(n: nat)
    ensures Inc8(n % 256) == (n + 1) % 256
  {
  }

  /** Nothing is lost, repeated or reordered: the payloads of the batches sent, followed by those of the batch held,
      are the arrivals; and every batch of two or more is shorter than the burst limit. */
  lemma {:induction false} StreamKeepsArrivals(cfg: Config, id: byte, es: seq<Event>)
    returns (bs: seq<seq<seq<byte>>>, hp: seq<seq<byte>>)
    ensures SentAre(cfg, id, After(cfg, id, es).sent, bs)
    ensures Holds(cfg, id, After(cfg, id, es).held, hp)
    ensures Flat(bs) + hp == Arrivals(es)
  {
    if es == [] {
      return [], [];
    }
    var past, e := es[..|es| - 1], es[|es| - 1];
    bs, hp := StreamKeepsArrivals(cfg, id, past);
    bs, hp := StreamStep(cfg, id, After(cfg, id, past), e, bs, hp);
  }

  /** One arrival or flush. */
  lemma StreamStep(cfg: Config, id: byte, s: Stream, e: Event, bs: seq<seq<seq<byte>>>, hp: seq<seq<byte>>)
    returns (bs': seq<seq<seq<byte>>>, hp': seq<seq<byte>>)
    requires SentAre(cfg, id, s.sent, bs) && Holds(cfg, id, s.held, hp)
    ensures SentAre(cfg, id, Next(cfg, id, s, e).sent, bs')
    ensures Holds(cfg, id, Next(cfg, id, s, e).held, hp')
    ensures Flat(bs') + hp' == Flat(bs) + hp + if e.Arrive? then [e.p] else []
  {
    bs', hp' := bs, hp;
    match e
    case Flush =>
      if s.held.Some? {
        bs' := Push(cfg, id, s.sent, bs, s.held.value, hp);
        hp' := [];
      }
    case Arrive(p) =>
      var out := Pack(cfg, id, s.held, p).1;
      PackKeepsBatches(cfg, id, s.held, hp, p);
      if out == None {
        hp' := hp + [p];
      } else if s.held.Some? {
        bs' := Push(cfg, id, s.sent, bs, out.value, hp);
        hp' := [p];
      } else {
        bs' := Push(cfg, id, s.sent, bs, out.value, [p]);
      }
  }

  lemma Push(cfg: Config, id: byte, sent: seq<seq<byte>>, bs: seq<seq<seq<byte>>>, d: seq<byte>, b: seq<seq<byte>>)
    returns (bs': seq<seq<seq<byte>>>)
    requires SentAre(cfg, id, sent, bs) && Batch(cfg, id, b, d)
    ensures SentAre(cfg, id, sent + [d], bs') && Flat(bs') == Flat(bs) + b
  {
    bs' := bs + [b];
    assert bs'[..|bs|] == bs;
  }

  // ---- the whole path ---------------------------------------------------------------------------------------------

  /** Every packet that leaves the packer, held batch last, unpacked in order. */
  function UnpackStream(cfg: Config, ds: seq<seq<byte>>): seq<seq<byte>>
    requires cfg.Valid()
  {
    if ds == [] then [] else UnpackStream(cfg, ds[..|ds| - 1]) + UnpackAll(cfg, ds[|ds| - 1])
  }

  predicate Sized(cfg: Config, m: nat, ps: seq<seq<byte>>) {
    forall p | p in ps :: m <= |p| <= cfg.pbufMax
  }

  /** The room `n` payloads of `m` octets take in a batch, their length fields included. */
  function Space(m: nat, n: nat): nat {
    if n == 0 then 0 else Space(m, n - 1) + m + 2
  }

  lemma {:induction false} SpaceIs(m: nat, n: nat)
    ensures Space(m, n) == n * (m + 2)
  {
    if n > 0 {
      SpaceIs(m, n - 1);
    }
  }

  lemma {:induction false} SpaceGrows(m: nat, k: nat, n: nat)
    requires k <= n
    ensures Space(m, k) <= Space(m, n)
  {
    if k < n {
      SpaceGrows(m, k, n - 1);
    }
  }

  lemma {:induction false} BodyAtLeast(m: nat, ps: seq<seq<byte>>)
    requires forall p | p in ps :: m <= |p|
    ensures |Body(ps)| >= Space(m, |ps|)
  {
    if ps != [] {
      BodyAtLeast(m, ps[1..]);
    }
  }

  /** The burst limit keeps the 8-bit count from wrapping. */
  lemma BatchUnpacks(cfg: Config, id: byte, m: nat, b: seq<seq<byte>>, d: seq<byte>)
    requires cfg.Valid() && cfg.Ours(id) && 1 <= m && cfg.maxBurst <= 256 * (m + 2) + 2
    requires Batch(cfg, id, b, d) && Sized(cfg, m, b)
    ensures UnpackAll(cfg, d) == Singles(id, b)
  {
    BodyAtLeast(m, b);
    SpaceIs(m, 256);
    if |b| >= 256 {
      SpaceGrows(m, 256, |b|);
    }
    UnpackUndoesPack(cfg, id, b);
  }

  lemma {:induction false} SinglesOfSum(id: byte, ps: seq<seq<byte>>, qs: seq<seq<byte>>)
    ensures Singles(id, ps + qs) == Singles(id, ps) + Singles(id, qs)
  {
    if ps == [] {
      assert ps + qs == qs;
    } else {
      assert (ps + qs)[1..] == ps[1..] + qs;
      SinglesOfSum(id, ps[1..], qs);
    }
  }

  lemma {:induction false} SentUnpack(cfg: Config, id: byte, m: nat, ds: seq<seq<byte>>, bs: seq<seq<seq<byte>>>)
    requires cfg.Valid() && cfg.Ours(id) && 1 <= m && cfg.maxBurst <= 256 * (m + 2) + 2
    requires SentAre(cfg, id, ds, bs) && Sized(cfg, m, Flat(bs))
    ensures UnpackStream(cfg, ds) == Singles(id, Flat(bs))
  {
    if bs != [] {
      var n := |bs| - 1;
      SizedParts(cfg, m, Flat(bs[..n]), bs[n]);
      assert SentAre(cfg, id, ds[..n], bs[..n]);
      SentUnpack(cfg, id, m, ds[..n], bs[..n]);
      assert Batch(cfg, id, bs[n], ds[n]);
      BatchUnpacks(cfg, id, m, bs[n], ds[n]);
      SinglesOfSum(id, Flat(bs[..n]), bs[n]);
    }
  }

  lemma SizedParts(cfg: Config, m: nat, a: seq<seq<byte>>, b: seq<seq<byte>>)
    requires Sized(cfg, m, a + b)
    ensures Sized(cfg, m, a) && Sized(cfg, m, b)
  {
    assert forall p | p in a :: p in a + b;
    assert forall p | p in b :: p in a + b;
  }

  /** Everything that is sent once the held batch is flushed too. */
  function Delivered(cfg: Config, id: byte, es: seq<Event>): seq<seq<byte>>
    requires cfg.Valid()
  {
    UnpackStream(cfg, After(cfg, id, es + [Flush]).sent)
  }

  lemma DeliveredInOrder(cfg: Config, id: byte, m: nat, es: seq<Event>)
    requires cfg.Valid() && cfg.Ours(id) && 1 <= m && cfg.maxBurst <= 256 * (m + 2) + 2
    requires Sized(cfg, m, Arrivals(es))
    ensures Delivered(cfg, id, es) == Singles(id, Arrivals(es))
  {
    var es' := es + [Flush];
    assert es'[..|es|] == es;
    var bs, hp := StreamKeepsArrivals(cfg, id, es');
    assert hp == [];
    assert Flat(bs) == Arrivals(es') == Arrivals(es);
    SentUnpack(cfg, id, m, After(cfg, id, es').sent, bs);
  }

  // ---- when the burst limit is too large for the count ------------------------------------------------------------

  function Payload(m: nat): seq<byte> {
    seq(m, _ => 0)
  }

  function Repeat(m: nat, n: nat): (es: seq<Event>)
    ensures |es| == n
  {
    if n == 0 then [] else Repeat(m, n - 1) + [Arrive(Payload(m))]
  }

  lemma {:induction false} RepeatArrives(m: nat, n: nat)
    ensures |Arrivals(Repeat(m, n))| == n && forall p | p in Arrivals(Repeat(m, n)) :: |p| == m
  {
    if n > 0 {
      assert Repeat(m, n)[..n - 1] == Repeat(m, n - 1);
      RepeatArrives(m, n - 1);
    }
  }

  /** `n` payloads of `m` octets are held in one batch, with the count modulo 256. */
  predicate Fills(s: Stream, m: nat, n: nat) {
    && s.sent == [] && s.held.Some?
    && |s.held.value| == 2 + Space(m, n) && |s.held.value| >= XHEADER_LEN && s.held.value[1] == n % 256
  }

  lemma OneFills(cfg: Config, id: byte, m: nat)
    requires 4 + m < cfg.maxBurst
    ensures Fills(Next(cfg, id, Stream(None, []), Arrive(Payload(m))), m, 1)
  {
    assert Space(m, 1) == m + 2;
  }

  lemma OneMoreFills(cfg: Config, id: byte, s: Stream, m: nat, n: nat)
    requires Fills(s, m, n) && 2 + Space(m, n + 1) < cfg.maxBurst
    ensures Fills(Next(cfg, id, s, Arrive(Payload(m))), m, n + 1)
  {
    CountStep(n);
  }

  /** Payloads of `m` octets that fit are all held in one batch. */
  lemma {:induction false} RepeatFills(cfg: Config, id: byte, m: nat, n: nat)
    requires 1 <= n && 2 + Space(m, n) < cfg.maxBurst
    ensures Fills(After(cfg, id, Repeat(m, n)), m, n)
  {
    var es := Repeat(m, n);
    assert es[..n - 1] == Repeat(m, n - 1) && es[n - 1] == Arrive(Payload(m));
    if n == 1 {
      assert Repeat(m, 0) == [] && Space(m, 1) == m + 2;
      OneFills(cfg, id, m);
    } else {
      RepeatFills(cfg, id, m, n - 1);
      OneMoreFills(cfg, id, After(cfg, id, Repeat(m, n - 1)), m, n - 1);
    }
  }

  /** 256 payloads in one batch: the count is 0 and unpacking hands out one packet instead. */
  lemma CountWraps(cfg: Config, id: byte, m: nat) returns (es: seq<Event>)
    requires cfg.Valid() && cfg.Ours(id) && 1 <= m <= cfg.pbufMax && cfg.maxBurst > 256 * (m + 2) + 2
    ensures Sized(cfg, m, Arrivals(es))
    ensures Delivered(cfg, id, es) != Singles(id, Arrivals(es))
  {
    es := Repeat(m, 256);
    SpaceIs(m, 256);
    RepeatArrives(m, 256);
    RepeatFills(cfg, id, m, 256);
    var held := After(cfg, id, es).held.value;
    assert (es + [Flush])[..|es|] == es;
    var sent := After(cfg, id, es + [Flush]).sent;
    assert sent == [held] && sent[..0] == [];
    assert UnpackStream(cfg, sent) == UnpackStream(cfg, []) + UnpackAll(cfg, held);
    UnpackBound(cfg, held);
  }

  /** The aggregation path is sound for payloads of at least `m` octets exactly when the burst limit is at most
      `256 * (m + 2) + 2`; beyond that, 256 payloads fit one batch and its count wraps to 0. */
  lemma AggregationExactly(cfg: Config, id: byte, m: nat)
    requires cfg.Valid() && cfg.Ours(id) && 1 <= m <= cfg.pbufMax
    ensures (forall es: seq<Event> :: Sized(cfg, m, Arrivals(es)) ==>
               Delivered(cfg, id, es) == Singles(id, Arrivals(es)))
            <==> cfg.maxBurst <= 256 * (m + 2) + 2
  {
    if cfg.maxBurst <= 256 * (m + 2) + 2 {
      forall es: seq<Event> | Sized(cfg, m, Arrivals(es))
        ensures Delivered(cfg, id, es) == Singles(id, Arrivals(es))
      {
        DeliveredInOrder(cfg, id, m, es);
      }
    } else {
      var es := CountWraps(cfg, id, m);
      assert Sized(cfg, m, Arrivals(es)) && Delivered(cfg, id, es) != Singles(id, Arrivals(es));
    }
  }
}
