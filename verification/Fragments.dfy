/** Messages of the configuration UI: `ui_eth_send` appends a checksum and cuts the message into fragments of 1024
    octets, `eth_recv` collects them again. */
module Fragments {
  import opened Bytes
  import opened Options

  const BUF_SIZE: nat := 4096
  const PART: nat := 1024
  const LAST: nat := 0x1234
  const FIRST: nat := 0x1235
  const MIDDLE: nat := 0x1236

  /** A fragment after its two MAC addresses: type, length field, octets. */
  datatype Fragment = Fragment(kind: nat, len: nat, data: seq<byte>)

  /** The checksum: the sum of the octets in a `uint32_t`. */
  function Sum(s: seq<byte>): (x: nat)
    ensures x < 0x1_0000_0000
  {
    if s == [] then 0
    else
      var last: int := s[|s| - 1];
      (Sum(s[..|s| - 1]) + last) % 0x1_0000_0000
  }

  /** The last four octets are the sum of those before them. */
  predicate Checks(s: seq<byte>) {
    |s| >= 4 && Sum(s[..|s| - 4]) == FromU32(s[|s| - 4..])
  }

  /** The message as it travels. */
  function Sealed(msg: seq<byte>): seq<byte> {
    msg + U32(Sum(msg))
  }

  // ---- cutting ----------------------------------------------------------------------------------------------------

  /** The fragments of what is left to send; `start` is whether nothing has been sent yet. */
  function Cut(s: seq<byte>, start: bool): (fs: seq<Fragment>)
    requires s != []
    decreases |s|
  {
    if |s| <= PART then [Fragment(LAST, |s|, s)]
    else [Fragment(if start then FIRST else MIDDLE, PART, s[..PART])] + Cut(s[PART..], false)
  }

  /** `ui_eth_send`: 1 if the message is too long, else its fragments. */
  method UiEthSend(msg: seq<byte>) returns (code: nat, sent: seq<Fragment>)
    ensures if |msg| > BUF_SIZE - 4 then code == 1 && sent == [] else code == 0 && sent == Cut(Sealed(msg), true)
  {
    sent := [];
    if |msg| > BUF_SIZE - 4 {
      return 1, sent;
    }
    var crc := 0;
    for i := 0 to |msg|
      invariant crc == Sum(msg[..i])
    {
      var octet: int := msg[i];
      assert msg[..i + 1][..i] == msg[..i];
      crc := (crc + octet) % 0x1_0000_0000;
    }
    assert msg[..|msg|] == msg;
    sent := SendParts(msg + U32(crc));
    return 0, sent;
  }

  /** How many fragments of 1024 octets it takes. */
  method CountParts(tlen: nat) returns (cnt: nat)
    ensures tlen <= PART * cnt < tlen + PART
  {
    cnt := tlen / PART;
    if tlen % PART != 0 {
      cnt := cnt + 1;
    }
  }

  /** The loop over the fragments. */
  method SendParts(buf: seq<byte>) returns (sent: seq<Fragment>)
    requires buf != []
    ensures sent == Cut(buf, true)
  {
    sent := [];
    var pdat, tlen := 0, |buf|;
    var cnt := CountParts(tlen);
    for i := 0 to cnt - 1
      invariant pdat == PART * i && pdat + tlen == |buf| && tlen > 0
      invariant Cut(buf, true) == sent + Cut(buf[pdat..], i == 0)
    {
      var f := Fragment(if i == 0 then FIRST else MIDDLE, PART, buf[pdat..pdat + PART]);
      assert buf[pdat..][PART..] == buf[pdat + PART..] && buf[pdat..][..PART] == f.data;
      assert sent + ([f] + Cut(buf[pdat + PART..], false)) == sent + [f] + Cut(buf[pdat + PART..], false);
      sent := sent + [f];
      tlen, pdat := tlen - PART, pdat + PART;
    }
    assert buf[pdat..] == buf[pdat..pdat + tlen];
    sent := sent + [Fragment(LAST, tlen, buf[pdat..pdat + tlen])];
  }

  // ---- collecting -------------------------------------------------------------------------------------------------

  /** The data a fragment declares is there, and when a message is complete its checksum is too: the source reads
      both without looking. */
  predicate Readable(got: seq<byte>, f: Fragment) {
    && (f.len <= PART ==> f.len <= |f.data|)
    && (f.kind == LAST && f.len <= PART && |got| + f.len <= BUF_SIZE ==> |got| + f.len >= 4)
  }

  /** `eth_recv`: the octets held in the buffer afterwards, and 0 when they are a complete message. */
  function Recv(got: seq<byte>, f: Fragment): (seq<byte>, nat)
    requires Readable(got, f)
  {
    if f.len > PART || |got| + f.len > BUF_SIZE then ([], 1)
    else
      var data := f.data[..f.len];
      if f.kind == LAST then
        if Checks(got + data) then (got + data, 0) else ([], 1)
      else if f.kind == FIRST then (data, 1)
      else if f.kind == MIDDLE then (got + data, 1)
      else ([], 1)
  }

  class UiBuffer {
    const rbuf: array<byte>
    var ridx: nat

    ghost predicate Valid()
      reads this
    {
      rbuf.Length == BUF_SIZE && ridx <= BUF_SIZE
    }

    ghost function Got(): seq<byte>
      reads this, rbuf
      requires Valid()
    {
      rbuf[..ridx]
    }

    constructor ()
      ensures Valid() && fresh(rbuf) && Got() == []
    {
      rbuf := new byte[BUF_SIZE](_ => 0);
      ridx := 0;
    }

    /** `memcpy` into the buffer. */
    method Copy(at: nat, data: seq<byte>)
      requires Valid() && at + |data| <= BUF_SIZE
      modifies rbuf
      ensures rbuf[..] == old(rbuf[..at]) + data + old(rbuf[at + |data|..])
    {
      for i := 0 to |data|
        invariant rbuf[..at] == old(rbuf[..at]) && rbuf[at + i..] == old(rbuf[at + i..])
        invariant rbuf[at..at + i] == data[..i]
      {
        rbuf[at + i] := data[i];
      }
      assert data[..|data|] == data;
      assert rbuf[..] == rbuf[..at] + rbuf[at..at + |data|] + rbuf[at + |data|..];
    }

    /** The end of `eth_recv`: the checksum of a finished message. */
    method Check() returns (code: nat)
      requires Valid() && ridx >= 4
      modifies this`ridx
      ensures Valid() && (Got(), code) == if Checks(old(Got())) then (old(Got()), 0) else ([], 1)
    {
      var crc := 0;
      for i := 0 to ridx - 4
        invariant crc == Sum(rbuf[..i]) && ridx == old(ridx)
      {
        var octet: int := rbuf[i];
        assert rbuf[..i + 1][..i] == rbuf[..i];
        crc := (crc + octet) % 0x1_0000_0000;
      }
      assert Got()[..ridx - 4] == rbuf[..ridx - 4] && Got()[ridx - 4..] == rbuf[ridx - 4..ridx];
      if crc != FromU32(rbuf[ridx - 4..ridx]) {
        ridx := 0;
        return 1;
      }
      return 0;
    }

    /** `eth_recv`. */
    method EthRecv(f: Fragment) returns (code: nat)
      requires Valid() && Readable(Got(), f)
      modifies this, rbuf
      ensures Valid() && (Got(), code) == Recv(old(Got()), f)
    {
      if f.len > PART {
        ridx := 0;
        return 1;
      }
      if ridx + f.len > BUF_SIZE {
        ridx := 0;
        return 1;
      }
      var data := f.data[..f.len];
      if f.kind == LAST {
        Copy(ridx, data);
        ridx := ridx + f.len;
        assert Got() == old(Got()) + data;
        code := Check();
        return;
      } else if f.kind == FIRST {
        Copy(0, data);
        ridx := f.len;
        assert Got() == data;
      } else if f.kind == MIDDLE {
        Copy(ridx, data);
        ridx := ridx + f.len;
        assert Got() == old(Got()) + data;
      } else {
        ridx := 0;
      }
      return 1;
    }
  }

  // ---- round trip -------------------------------------------------------------------------------------------------

  /** All fragments in order: the codes returned, and the octets held at the end. */
  datatype Outcome = Outcome(codes: seq<nat>, got: seq<byte>)

  function Feed(got: seq<byte>, fs: seq<Fragment>): Option<Outcome>
    decreases |fs|
  {
    if fs == [] then Some(Outcome([], got))
    else if !Readable(got, fs[0]) then None
    else
      var (next, code) := Recv(got, fs[0]);
      match Feed(next, fs[1..])
      case None => None
      case Some(o) => Some(Outcome([code] + o.codes, o.got))
  }

  /** 1 for every fragment but the last, 0 for that one. */
  predicate Completes(codes: seq<nat>) {
    codes != [] && codes[|codes| - 1] == 0 && forall i | 0 <= i < |codes| - 1 :: codes[i] == 1
  }

  /** The fragments are collected into `s`. */
  predicate Finishes(got: seq<byte>, fs: seq<Fragment>, s: seq<byte>) {
    match Feed(got, fs)
    case None => false
    case Some(o) => Completes(o.codes) && o.got == s
  }

  /** The fragments of `msg` are collected into the message and its checksum. */
  predicate Arrives(got: seq<byte>, msg: seq<byte>) {
    Finishes(got, Cut(Sealed(msg), true), Sealed(msg))
  }

  lemma SealedChecks(msg: seq<byte>)
    ensures var s := Sealed(msg); |s| == |msg| + 4 && Checks(s)
  {
    var s := Sealed(msg);
    assert s[..|s| - 4] == msg && s[|s| - 4..] == U32(Sum(msg));
    U32Exact(Sum(msg));
  }

  /** With the first octets of a message collected, the fragments of the rest complete it. */
  lemma {:induction false} RestArrives(got: seq<byte>, rest: seq<byte>, s: seq<byte>)
    requires got + rest == s && rest != [] && Checks(s) && |s| <= BUF_SIZE
    ensures Finishes(got, Cut(rest, false), s)
    decreases |rest|
  {
    if |rest| <= PART {
      LastArrives(got, rest, s);
    } else {
      var data, tail := rest[..PART], rest[PART..];
      assert rest == data + tail && got + data + tail == s;
      RestArrives(got + data, tail, s);
      MiddleArrives(got, data, Cut(tail, false), s);
    }
  }

  lemma LastArrives(got: seq<byte>, data: seq<byte>, s: seq<byte>)
    requires got + data == s && 0 < |data| <= PART && Checks(s) && |s| <= BUF_SIZE
    ensures Finishes(got, [Fragment(LAST, |data|, data)], s)
  {
    RecvLast(got, data);
    FeedOne(got, Fragment(LAST, |data|, data));
  }

  lemma MiddleArrives(got: seq<byte>, data: seq<byte>, more: seq<Fragment>, s: seq<byte>)
    requires |data| == PART && |got| + PART <= BUF_SIZE && Finishes(got + data, more, s)
    ensures Finishes(got, [Fragment(MIDDLE, PART, data)] + more, s)
  {
    RecvMiddle(got, data);
    FeedFirst(got, Fragment(MIDDLE, PART, data), more, got + data);
  }

  lemma RecvLast(got: seq<byte>, data: seq<byte>)
    requires |data| <= PART && Checks(got + data) && |got + data| <= BUF_SIZE
    ensures var f := Fragment(LAST, |data|, data); Readable(got, f) && Recv(got, f) == (got + data, 0)
  {
    assert data[..|data|] == data;
  }

  lemma RecvMiddle(got: seq<byte>, data: seq<byte>)
    requires |data| == PART && |got| + PART <= BUF_SIZE
    ensures var f := Fragment(MIDDLE, PART, data); Readable(got, f) && Recv(got, f) == (got + data, 1)
  {
    assert data[..PART] == data;
  }

  /** What is held never exceeds what was held and what the fragments declare. */
  function Declared(fs: seq<Fragment>): nat {
    if fs == [] then 0 else fs[0].len + Declared(fs[1..])
  }

  lemma {:induction false} FeedBound(got: seq<byte>, fs: seq<Fragment>)
    ensures var o := Feed(got, fs); o.Some? ==> |o.value.got| <= |got| + Declared(fs) && |o.value.codes| == |fs|
    decreases |fs|
  {
    if fs != [] && Readable(got, fs[0]) {
      FeedBound(Recv(got, fs[0]).0, fs[1..]);
    }
  }

  lemma {:induction false} CutDeclares(s: seq<byte>, start: bool)
    requires s != []
    ensures Declared(Cut(s, start)) == |s|
    decreases |s|
  {
    if |s| <= PART {
      assert Cut(s, start)[1..] == [];
    } else {
      CutDeclares(s[PART..], false);
      assert Cut(s, start)[1..] == Cut(s[PART..], false);
    }
  }

  lemma OneFragment(got: seq<byte>, msg: seq<byte>)
    requires |msg| + 4 <= PART
    ensures Arrives(got, msg) <==> got == []
  {
    var s := Sealed(msg);
    var f := Fragment(LAST, |s|, s);
    SealedChecks(msg);
    assert Cut(s, true) == [f];
    FeedOne(got, f);
    RecvOnly(got, s);
  }

  /** A whole message in one fragment is appended to what is held. */
  lemma RecvOnly(got: seq<byte>, s: seq<byte>)
    requires |s| <= PART && Checks(s)
    ensures var f := Fragment(LAST, |s|, s);
      && Readable(got, f)
      && (got == [] ==> Recv(got, f) == (s, 0))
      && (got != [] ==> Recv(got, f).0 != s)
  {
    if got == [] {
      assert got + s == s;
      RecvLast(got, s);
    } else {
      assert |got + s[..|s|]| == |got| + |s|;
    }
  }

  lemma FeedOne(got: seq<byte>, f: Fragment)
    ensures Feed(got, [f]) == if !Readable(got, f) then None
                              else Some(Outcome([Recv(got, f).1], Recv(got, f).0))
  {
    assert [f][0] == f && [f][1..] == [];
    if Readable(got, f) {
      assert Feed(Recv(got, f).0, []) == Some(Outcome([], Recv(got, f).0));
      assert [Recv(got, f).1] + [] == [Recv(got, f).1];
    }
  }

  lemma FeedFirst(got: seq<byte>, f: Fragment, more: seq<Fragment>, next: seq<byte>)
    requires Readable(got, f) && Recv(got, f) == (next, 1)
    ensures match Feed(next, more)
            case None => Feed(got, [f] + more) == None
            case Some(o) =>
              && Feed(got, [f] + more) == Some(Outcome([1] + o.codes, o.got))
              && (Completes(o.codes) ==> Completes([1] + o.codes))
  {
    assert ([f] + more)[0] == f && ([f] + more)[1..] == more;
  }

  lemma SeveralFragments(got: seq<byte>, msg: seq<byte>)
    requires PART < |msg| + 4 <= BUF_SIZE
    ensures Arrives(got, msg) <==> |got| <= BUF_SIZE - PART
  {
    var s := Sealed(msg);
    SealedChecks(msg);
    var data, tail := s[..PART], s[PART..];
    var f, more := Fragment(FIRST, PART, data), Cut(tail, false);
    assert Cut(s, true) == [f] + more;
    assert s == data + tail && data[..PART] == data;
    if |got| <= BUF_SIZE - PART {
      RestArrives(data, tail, s);
      FeedFirst(got, f, more, data);
    } else {
      FeedFirst(got, f, more, []);
      FeedBound([], more);
      CutDeclares(tail, false);
    }
  }

  /** Round trip. Whatever an earlier, incomplete message left in the buffer, the fragments of a message are collected
      into exactly that message and its checksum, with 1 returned for each but the last and 0 for that, if and only
      if the buffer was empty, or the message needs several fragments and at most 3072 octets were left. */
  lemma FragmentsArriveExactly(got: seq<byte>, msg: seq<byte>)
    requires |msg| <= BUF_SIZE - 4
    ensures Arrives(got, msg) <==> got == [] || (|msg| > PART - 4 && |got| <= BUF_SIZE - PART)
  {
    if |msg| + 4 <= PART {
      OneFragment(got, msg);
    } else {
      SeveralFragments(got, msg);
    }
  }

  // ---- what an abandoned message does -----------------------------------------------------------------------------

  function Zeros(n: nat): seq<byte> {
    seq(n, _ => 0)
  }

  /** The state after the first `n` full fragments of messages whose ends never came: a first one and middle ones. */
  function Abandoned(n: nat): seq<Fragment> {
    if n == 0 then [] else Abandoned(n - 1) + [Fragment(if n == 1 then FIRST else MIDDLE, PART, Zeros(PART))]
  }

  lemma {:induction false} FeedMore(got: seq<byte>, fs: seq<Fragment>, f: Fragment)
    requires Feed(got, fs).Some? && Readable(Feed(got, fs).value.got, f)
    ensures var o := Feed(got, fs).value;
      Feed(got, fs + [f]) == Some(Outcome(o.codes + [Recv(o.got, f).1], Recv(o.got, f).0))
    decreases |fs|
  {
    if fs == [] {
      assert [] + [f] == [f] && [] + [Recv(got, f).1] == [Recv(got, f).1];
      FeedOne(got, f);
    } else {
      var (next, code) := Recv(got, fs[0]);
      FeedMore(next, fs[1..], f);
      var o := Feed(next, fs[1..]).value;
      var x := Recv(o.got, f).1;
      assert [code] + (o.codes + [x]) == [code] + o.codes + [x];
      assert (fs + [f])[0] == fs[0] && (fs + [f])[1..] == fs[1..] + [f];
    }
  }

  lemma {:induction false} AbandonedHeld(n: nat)
    requires n <= 4
    ensures Feed([], Abandoned(n)).Some? && Feed([], Abandoned(n)).value.got == Zeros(PART * n)
  {
    if n > 0 {
      AbandonedHeld(n - 1);
      var got := Zeros(PART * (n - 1));
      var f := Fragment(if n == 1 then FIRST else MIDDLE, PART, Zeros(PART));
      FeedMore([], Abandoned(n - 1), f);
      assert f.data[..PART] == Zeros(PART) && got + Zeros(PART) == Zeros(PART * n);
    }
  }

  /** After any of them a message of one fragment is lost, and after four every message is. */
  lemma AbandonedLoses(n: nat, msg: seq<byte>)
    requires 1 <= n <= 4 && |msg| <= BUF_SIZE - 4
    ensures Feed([], Abandoned(n)).Some?
    ensures Arrives(Feed([], Abandoned(n)).value.got, msg) <==> |msg| > PART - 4 && n < 4
  {
    AbandonedHeld(n);
    FragmentsArriveExactly(Zeros(PART * n), msg);
  }
}
