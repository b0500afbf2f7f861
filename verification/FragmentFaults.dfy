/** Damaged and broken-off messages: what `eth_recv` refuses, and what its buffer can hold. */
module FragmentFaults {
  import Division
  import opened Bytes
  import opened Options
  import opened Fragments

  // ---- the checksum -----------------------------------------------------------------------------------------------

  /** A number below 2^33 in 32 bits. */
  lemma Wrapped(x: nat)
    requires x < 0x2_0000_0000
    ensures x % 0x1_0000_0000 == if x < 0x1_0000_0000 then x else x - 0x1_0000_0000
  {
    if x < 0x1_0000_0000 {
      Division.Unique(x, 0x1_0000_0000, 0, x);
    } else {
      Division.Unique(x, 0x1_0000_0000, 1, x - 0x1_0000_0000);
    }
  }

  lemma SumIs(s: seq<byte>, last: byte)
    ensures var x, y: int := Sum(s), last;
      Sum(s + [last]) == if x + y < 0x1_0000_0000 then x + y else x + y - 0x1_0000_0000
  {
    assert (s + [last])[..|s|] == s;
    var y: int := last;
    Wrapped(Sum(s) + y);
  }

  /** Two sums differ by `d`, in 32 bits. */
  predicate Differ(x: nat, y: nat, d: int) {
    y - x == d || y - x == d + 0x1_0000_0000 || y - x == d - 0x1_0000_0000
  }

  /** Changing one octet changes the sum by the difference. */
  lemma {:induction false} SumChanges(s: seq<byte>, i: nat, x: byte)
    requires i < |s|
    ensures var was, now: int := s[i], x; Differ(Sum(s), Sum(s[i := x]), now - was)
  {
    var n := |s| - 1;
    var past, t := s[..n], s[i := x];
    assert s == past + [s[n]];
    SumIs(past, s[n]);
    if i == n {
      assert t == past + [x];
      SumIs(past, x);
    } else {
      SumChanges(past, i, x);
      assert t == past[i := x] + [s[n]];
      SumIs(past[i := x], s[n]);
    }
  }

  /** Four octets that differ in one place hold different numbers. */
  lemma OctetCounts(s: seq<byte>, i: nat, x: byte)
    requires |s| == 4 && i < 4 && x != s[i]
    ensures FromU32(s[i := x]) != FromU32(s)
  {
  }

  /** A message with one octet changed, of its text or of its checksum, no longer checks. */
  lemma OneChangeDetected(msg: seq<byte>, i: nat, x: byte)
    requires i < |msg| + 4 && x != Sealed(msg)[i]
    ensures !Checks(Sealed(msg)[i := x])
  {
    SealedChecks(msg);
    var s := Sealed(msg);
    var t, n := s[i := x], |msg|;
    assert s[..n] == msg;
    if i < n {
      assert t[..n] == msg[i := x] && t[n..] == s[n..];
      SumChanges(msg, i, x);
    } else {
      assert t[..n] == s[..n] && t[n..] == s[n..][i - n := x];
      OctetCounts(s[n..], i - n, x);
    }
  }

  // ---- refusing ---------------------------------------------------------------------------------------------------

  /** All fragments are answered with 1 and the buffer is left empty. */
  predicate Refused(got: seq<byte>, fs: seq<Fragment>) {
    match Feed(got, fs)
    case None => false
    case Some(o) => o.got == [] && forall i | 0 <= i < |o.codes| :: o.codes[i] == 1
  }

  lemma RefusedFirst(got: seq<byte>, f: Fragment, more: seq<Fragment>, next: seq<byte>)
    requires Readable(got, f) && Recv(got, f) == (next, 1) && Refused(next, more)
    ensures Refused(got, [f] + more)
  {
    assert ([f] + more)[0] == f && ([f] + more)[1..] == more;
  }

  lemma {:induction false} RestRefused(got: seq<byte>, rest: seq<byte>, s: seq<byte>)
    requires got + rest == s && rest != [] && !Checks(s) && 4 <= |s| <= BUF_SIZE
    ensures Refused(got, Cut(rest, false))
    decreases |rest|
  {
    if |rest| <= PART {
      var f := Fragment(LAST, |rest|, rest);
      assert rest[..|rest|] == rest;
      assert Recv(got, f) == ([], 1);
      FeedOne(got, f);
    } else {
      var data, tail := rest[..PART], rest[PART..];
      assert rest == data + tail && got + data + tail == s;
      RestRefused(got + data, tail, s);
      RecvMiddle(got, data);
      RefusedFirst(got, Fragment(MIDDLE, PART, data), Cut(tail, false), got + data);
    }
  }

  /** The fragments of a message that does not check are all collected and then thrown away. */
  lemma DamagedRefused(s: seq<byte>)
    requires 4 <= |s| <= BUF_SIZE && !Checks(s)
    ensures Refused([], Cut(s, true))
  {
    if |s| <= PART {
      assert [] + s == s;
      RestRefused([], s, s);
      assert Cut(s, true) == Cut(s, false);
    } else {
      var data, tail := s[..PART], s[PART..];
      assert s == data + tail && data[..PART] == data;
      RestRefused(data, tail, s);
      RefusedFirst([], Fragment(FIRST, PART, data), Cut(tail, false), data);
    }
  }

  /** So a message with any one octet changed on the way is refused, whatever its length. */
  lemma OneChangeRefused(msg: seq<byte>, i: nat, x: byte)
    requires |msg| <= BUF_SIZE - 4 && i < |msg| + 4 && x != Sealed(msg)[i]
    ensures Refused([], Cut(Sealed(msg)[i := x], true))
  {
    OneChangeDetected(msg, i, x);
    DamagedRefused(Sealed(msg)[i := x]);
  }

  // ---- what can be held -------------------------------------------------------------------------------------------

  /** The octets a fragment declares, if they are there. */
  function OctetsOf(f: Fragment): seq<byte> {
    if f.len <= |f.data| then f.data[..f.len] else []
  }

  /** The octets of fragments, one behind the other. */
  function Octets(fs: seq<Fragment>): seq<byte> {
    if fs == [] then [] else OctetsOf(fs[0]) + Octets(fs[1..])
  }

  /** What is held are the octets of the fragments from the `k`-th on, or what was held before and those of all. */
  predicate IsTail(got: seq<byte>, fs: seq<Fragment>, held: seq<byte>, k: nat) {
    k <= |fs| && (held == Octets(fs[k..]) || (k == 0 && held == got + Octets(fs)))
  }

  lemma TailMore(got: seq<byte>, f: Fragment, rest: seq<Fragment>, next: seq<byte>, held: seq<byte>, k: nat)
    returns (k': nat)
    requires IsTail(next, rest, held, k)
    requires next == [] || next == OctetsOf(f) || next == got + OctetsOf(f)
    ensures IsTail(got, [f] + rest, held, k')
  {
    var fs := [f] + rest;
    assert fs[1..] == rest && fs[k + 1..] == rest[k..] && fs[0..] == fs && rest[0..] == rest;
    if held == Octets(rest[k..]) {
      k' := k + 1;
    } else {
      assert got + OctetsOf(f) + Octets(rest) == got + (OctetsOf(f) + Octets(rest));
      k' := 0;
    }
  }

  /** Whatever fragments come, in whatever order and of whatever type, what is held in the end are the octets of an
      unbroken row of fragments up to the last one, with what was held before in front only if nothing is missing
      since. */
  lemma {:induction false} HeldIsTail(got: seq<byte>, fs: seq<Fragment>, o: Outcome) returns (k: nat)
    requires Feed(got, fs) == Some(o)
    ensures IsTail(got, fs, o.got, k)
    decreases |fs|
  {
    if fs == [] {
      k := 0;
    } else {
      var next := Recv(got, fs[0]).0;
      var p := Feed(next, fs[1..]).value;
      k := HeldIsTail(next, fs[1..], p);
      k := TailMore(got, fs[0], fs[1..], next, p.got, k);
      assert fs == [fs[0]] + fs[1..];
    }
  }

  /** Only what checks is reported as complete. */
  lemma {:induction false} CompleteChecks(got: seq<byte>, fs: seq<Fragment>, o: Outcome)
    requires Feed(got, fs) == Some(o) && fs != [] && o.codes != [] && o.codes[|o.codes| - 1] == 0
    ensures Checks(o.got) && fs[|fs| - 1].kind == LAST
    decreases |fs|
  {
    var (next, code) := Recv(got, fs[0]);
    if |fs| > 1 {
      var p := Feed(next, fs[1..]).value;
      assert o.codes == [code] + p.codes;
      FeedBound(next, fs[1..]);
      CompleteChecks(next, fs[1..], p);
    } else {
      assert fs == [fs[0]];
      FeedOne(got, fs[0]);
    }
  }
}
