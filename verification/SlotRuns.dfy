/** Whole runs of the slot allocator: any sequence of allocations and frees of live grants, from the initial grid. */
module SlotRuns {
  import opened Words
  import opened FreeRun
  import opened Options
  import opened SlotGrid

  /** A call and, for an allocation, what it answered. */
  datatype Event =
    | Alloc(itvl: nat, tlen: nat, status: nat, freq: nat, pos: nat)
    | Free(gr: Grant)

  /** The bitmaps, the grants callers hold, and the grants taken from the grid by a call that reported failure:
      no caller knows of those, so none will ever free them. */
  datatype State = State(grid: Grid, live: set<Grant>, lost: set<Grant>)

  ghost const Start: State := State(Initial(), {}, {})

  /** A place found becomes a live grant, or a lost one if the call reports failure. */
  predicate Booked(s: State, gr: Grant, status: nat, found: bool, t: State) {
    if status == 0 then t.live == s.live + {gr} && t.lost == s.lost
    else t.live == s.live && t.lost == if found then s.lost + {gr} else s.lost
  }

  ghost predicate Next(s: State, e: Event, t: State) {
    match e
    case Alloc(itvl, tlen, status, freq, pos) =>
      && 1 <= tlen <= 30
      && AllocOutcome(s.grid, Level(itvl), tlen, t.grid, status, freq, pos)
      && Booked(s, Grant(freq, pos, tlen), status, Search(s.grid, Level(itvl), tlen, 0).Some?, t)
    case Free(gr) =>
      && gr in s.live
      && t == State(Give(s.grid, gr), s.live - {gr}, s.lost)
  }

  /** `ss` lists the states of a run, `es` the calls between them. */
  ghost predicate Run(ss: seq<State>, es: seq<Event>) {
    && |ss| == |es| + 1
    && ss[0] == Start
    && forall i | 0 <= i < |es| :: Next(ss[i], es[i], ss[i + 1])
  }

  // ---- the invariant ----------------------------------------------------------------------------------------------

  predicate Placed(gr: Grant) {
    1 <= gr.freq <= 15 && 4 <= gr.pos && 1 <= gr.len && gr.pos + gr.len <= 63
  }

  ghost predicate Apart(a: Grant, b: Grant) {
    forall f, s | 0 <= f < 8 && 0 <= s < 64 :: !(Covers(a, f, s) && Covers(b, f, s))
  }

  ghost predicate Taken(grants: set<Grant>, f: nat, s: nat) {
    exists gr | gr in grants :: Covers(gr, f, s)
  }

  /** A symbol is free exactly when it is not one of the first four and no grant in `grants` covers it. */
  ghost predicate Accounts(g: Grid, grants: set<Grant>) {
    forall f, s | 0 <= f < 8 && 0 <= s < 64 :: g[f][s] <==> s >= 4 && !Taken(grants, f, s)
  }

  ghost predicate Inv(s: State) {
    && s.live !! s.lost
    && (forall gr | gr in s.live + s.lost :: Placed(gr))
    && (forall a, b | a in s.live + s.lost && b in s.live + s.lost && a != b :: Apart(a, b))
    && Accounts(s.grid, s.live + s.lost)
  }

  /** Every grant covers at least one cell: its own position in some frame. */
  lemma SomeCell(gr: Grant) returns (f: nat)
    requires Placed(gr)
    ensures f < 8 && Covers(gr, f, gr.pos)
  {
    f := if gr.freq == 1 then 0
         else if gr.freq < 4 then gr.freq - 2
         else if gr.freq < 8 then gr.freq - 4
         else gr.freq - 8;
  }

  /** The choice of the search is a well placed grant of free cells. */
  lemma ChoiceIsFree(g: Grid, k: nat, n: nat, c: Choice)
    requires IsInterval(k) && 1 <= n && Search(g, k, n, 0) == Some(c)
    requires forall f, s | 0 <= f < 8 && 0 <= s < 4 :: !g[f][s]
    ensures c.phase < k && Placed(Grant(k + c.phase, c.pos, n))
    ensures forall f, s | 0 <= f < 8 && 0 <= s < 64 && Covers(Grant(k + c.phase, c.pos, n), f, s) :: g[f][s]
  {
    SearchCorrect(g, k, n, c);
    forall f, s | 0 <= f < 8 && 0 <= s < 64 && Covers(Grant(k + c.phase, c.pos, n), f, s)
      ensures g[f][s]
    {
      CodeMeaning(k, c.phase, f);
      assert Fits(g[f], n, c.pos);
    }
    ChoiceIsPlaced(g, k, n, c);
  }

  lemma ChoiceIsPlaced(g: Grid, k: nat, n: nat, c: Choice)
    requires IsInterval(k) && 1 <= n && c.phase < k && Room(g, k, c.phase, n, c.pos)
    requires forall f, s | 0 <= f < 8 && 0 <= s < 4 :: !g[f][s]
    ensures Placed(Grant(k + c.phase, c.pos, n))
  {
    var first: nat := c.phase;
    assert first < 8 && first % k == c.phase;
    assert Fits(g[first], n, c.pos);
  }

  lemma TakeKeepsAccounts(g: Grid, grants: set<Grant>, gr: Grant)
    requires Accounts(g, grants)
    ensures Accounts(Take(g, gr), grants + {gr})
  {
    forall f, s | 0 <= f < 8 && 0 <= s < 64
      ensures Take(g, gr)[f][s] <==> s >= 4 && !Taken(grants + {gr}, f, s)
    {
      assert Take(g, gr)[f][s] <==> g[f][s] && !Covers(gr, f, s);
      assert Taken(grants + {gr}, f, s) <==> Taken(grants, f, s) || Covers(gr, f, s) by {
        if Covers(gr, f, s) {
          assert gr in grants + {gr};
        }
      }
    }
  }

  lemma GiveKeepsAccounts(g: Grid, grants: set<Grant>, gr: Grant)
    requires Accounts(g, grants) && gr in grants && Placed(gr)
    requires forall a | a in grants && a != gr :: Apart(a, gr)
    ensures Accounts(Give(g, gr), grants - {gr})
  {
    forall f, s | 0 <= f < 8 && 0 <= s < 64
      ensures Give(g, gr)[f][s] <==> s >= 4 && !Taken(grants - {gr}, f, s)
    {
      assert Give(g, gr)[f][s] <==> g[f][s] || Covers(gr, f, s);
      if Covers(gr, f, s) {
        assert forall a | a in grants - {gr} :: Apart(a, gr);
      }
    }
  }

  /** A new grant of free cells is apart from every grant there is. */
  lemma FreshIsApart(g: Grid, grants: set<Grant>, gr: Grant)
    requires Accounts(g, grants) && Placed(gr)
    requires forall f, s | 0 <= f < 8 && 0 <= s < 64 && Covers(gr, f, s) :: g[f][s]
    ensures gr !in grants
    ensures forall a | a in grants :: Apart(a, gr) && Apart(gr, a)
  {
    var f := SomeCell(gr);
    assert g[f][gr.pos];
    assert !Taken(grants, f, gr.pos);
  }

  lemma StartInv()
    ensures Inv(Start)
  {
  }

  lemma TakeInv(s: State, k: nat, n: nat, c: Choice, t: State)
    requires Inv(s) && IsInterval(k) && 1 <= n && Search(s.grid, k, n, 0) == Some(c)
    requires var gr := Grant(k + c.phase, c.pos, n);
      && t.grid == Take(s.grid, gr)
      && (t == State(t.grid, s.live + {gr}, s.lost) || t == State(t.grid, s.live, s.lost + {gr}))
    ensures Inv(t)
  {
    var gr := Grant(k + c.phase, c.pos, n);
    ChoiceIsFree(s.grid, k, n, c);
    FreshIsApart(s.grid, s.live + s.lost, gr);
    TakeKeepsAccounts(s.grid, s.live + s.lost, gr);
    assert t.live + t.lost == s.live + s.lost + {gr};
  }

  lemma NextInv(s: State, e: Event, t: State)
    requires Inv(s) && Next(s, e, t)
    ensures Inv(t)
  {
    match e
    case Alloc(itvl, tlen, status, freq, pos) =>
      match Search(s.grid, Level(itvl), tlen, 0) {
        case None =>
        case Some(c) => TakeInv(s, Level(itvl), tlen, c, t);
      }
    case Free(gr) => GiveInv(s, gr, t);
  }

  lemma GiveInv(s: State, gr: Grant, t: State)
    requires Inv(s) && gr in s.live && t == State(Give(s.grid, gr), s.live - {gr}, s.lost)
    ensures Inv(t)
  {
    assert gr in s.live + s.lost;
    GiveKeepsAccounts(s.grid, s.live + s.lost, gr);
    assert t.live + t.lost == s.live + s.lost - {gr};
  }

  lemma {:induction false} RunInv(ss: seq<State>, es: seq<Event>, i: nat)
    requires Run(ss, es) && i < |ss|
    ensures Inv(ss[i])
  {
    if i == 0 {
      StartInv();
    } else {
      RunInv(ss, es, i - 1);
      NextInv(ss[i - 1], es[i - 1], ss[i]);
    }
  }

  // ---- what every run keeps ---------------------------------------------------------------------------------------

  /** No two live grants ever share a cell; symbols 0 to 3 and symbol 63 are never granted. */
  lemma LiveGrantsNeverCollide(ss: seq<State>, es: seq<Event>, i: nat, a: Grant, b: Grant, f: nat, s: nat)
    requires Run(ss, es) && i < |ss| && a in ss[i].live && b in ss[i].live && f < 8 && s < 64
    requires Covers(a, f, s)
    ensures Covers(b, f, s) ==> a == b
    ensures 4 <= s < 63 && !ss[i].grid[f][s]
  {
    RunInv(ss, es, i);
    assert a in ss[i].live + ss[i].lost && b in ss[i].live + ss[i].lost;
    assert a != b ==> Apart(a, b);
    assert Taken(ss[i].live + ss[i].lost, f, s);
  }

  /** The call that loses symbols: a single-frame request, no room in frame 7, room in another frame. */
  predicate Loses(g: Grid, itvl: nat, n: nat) {
    itvl >= 8 && !PhaseHasRoom(g, 8, 7, n) && exists phase | 0 <= phase < 7 :: PhaseHasRoom(g, 8, phase, n)
  }

  /** `resfrm_alloc` reports failure exactly when nothing has room or the call loses what it found. */
  lemma FailureExact(g: Grid, itvl: nat, n: nat, after: Grid, status: nat, freq: nat, pos: nat)
    requires AllocOutcome(g, Level(itvl), n, after, status, freq, pos)
    ensures status != 0 <==> Full(g, Level(itvl), n) || Loses(g, itvl, n)
    ensures Loses(g, itvl, n) <==> status != 0 && Search(g, Level(itvl), n, 0).Some?
  {
    var k := Level(itvl);
    SearchCorrect(g, k, n, Choice(pos, if freq >= k then freq - k else 0));
    if k == 8 && Search(g, k, n, 0).Some? {
      var c := Search(g, k, n, 0).value;
      SearchCorrect(g, k, n, c);
      assert PhaseHasRoom(g, 8, c.phase, n);
    }
  }

  /** An allocation is served at the interval asked for, or the next smaller power of two: it finds the first place
      with room for that interval, and the grant's code selects every frame congruent to its phase. */
  lemma ServedAsAsked(s: State, e: Event, t: State, k: nat)
    requires Next(s, e, t) && e.Alloc? && Serves(e.itvl, k)
    ensures Full(s.grid, k, e.tlen) ==> e.status != 0 && t == s
    ensures !Full(s.grid, k, e.tlen) ==>
      && e.freq >= k && Best(s.grid, k, e.tlen, Choice(e.pos, e.freq - k))
      && t.grid == Take(s.grid, Grant(e.freq, e.pos, e.tlen))
      && forall f | 0 <= f < 8 :: FrameTest(e.freq, f) <==> f % k == e.freq - k
  {
    ServesExactly(e.itvl);
    var r := Search(s.grid, k, e.tlen, 0);
    SearchCorrect(s.grid, k, e.tlen, if r.Some? then r.value else Choice(0, 0));
    if r.Some? {
      forall f | 0 <= f < 8
        ensures FrameTest(e.freq, f) <==> f % k == r.value.phase
      {
        CodeMeaning(k, r.value.phase, f);
      }
    }
  }

  ghost predicate NeverLoses(ss: seq<State>, es: seq<Event>)
    requires Run(ss, es)
  {
    forall i | 0 <= i < |es| && es[i].Alloc? :: !Loses(ss[i].grid, es[i].itvl, es[i].tlen)
  }

  /** The grant a search leads to is not one already outstanding. */
  lemma ChoiceIsNew(s: State, k: nat, n: nat, c: Choice)
    requires Inv(s) && IsInterval(k) && 1 <= n && Search(s.grid, k, n, 0) == Some(c)
    ensures Grant(k + c.phase, c.pos, n) !in s.live + s.lost
  {
    ChoiceIsFree(s.grid, k, n, c);
    FreshIsApart(s.grid, s.live + s.lost, Grant(k + c.phase, c.pos, n));
  }

  lemma NextLost(s: State, e: Event, t: State)
    requires Inv(s) && Next(s, e, t)
    ensures s.lost <= t.lost
    ensures t.lost == s.lost <==> (e.Alloc? ==> !Loses(s.grid, e.itvl, e.tlen))
  {
    if e.Alloc? {
      var k, gr := Level(e.itvl), Grant(e.freq, e.pos, e.tlen);
      var r := Search(s.grid, k, e.tlen, 0);
      assert r.Some? ==> gr !in s.lost by {
        if r.Some? {
          ChoiceIsNew(s, k, e.tlen, r.value);
        }
      }
      FailureExact(s.grid, e.itvl, e.tlen, t.grid, e.status, e.freq, e.pos);
      BookedLost(s, gr, e.status, r.Some?, t);
    }
  }

  lemma BookedLost(s: State, gr: Grant, status: nat, found: bool, t: State)
    requires Booked(s, gr, status, found, t) && (found ==> gr !in s.lost)
    ensures s.lost <= t.lost && (t.lost == s.lost <==> status == 0 || !found)
  {
    assert gr in s.lost + {gr};
  }

  /** Grants are lost by a run exactly when one of its calls meets the losing guard. */
  lemma {:induction false} LostExactly(ss: seq<State>, es: seq<Event>)
    requires Run(ss, es)
    ensures ss[|es|].lost == {} <==> NeverLoses(ss, es)
    decreases |es|
  {
    if |es| > 0 {
      var n := |es| - 1;
      var ss', es' := ss[..n + 1], es[..n];
      assert Run(ss', es');
      LostExactly(ss', es');
      RunInv(ss, es, n);
      NextLost(ss[n], es[n], ss[n + 1]);
      assert NeverLoses(ss, es) <==>
        NeverLoses(ss', es') && (es[n].Alloc? ==> !Loses(ss[n].grid, es[n].itvl, es[n].tlen));
    }
  }

  /** Exact accounting. The bitmaps mark exactly the symbols that no live grant covers if and only if no call of
      the run was a single-frame request that found room elsewhere but none in frame 7. */
  lemma ExactAccounting(ss: seq<State>, es: seq<Event>)
    requires Run(ss, es)
    ensures Accounts(ss[|es|].grid, ss[|es|].live) <==> NeverLoses(ss, es)
  {
    var s := ss[|es|];
    RunInv(ss, es, |es|);
    LostExactly(ss, es);
    if s.lost == {} {
      assert s.live + s.lost == s.live;
    } else {
      var gr :| gr in s.lost;
      var f := SomeCell(gr);
      assert gr in s.live + s.lost;
      assert Taken(s.live + s.lost, f, gr.pos);
      assert forall a | a in s.live :: a in s.live + s.lost && Apart(a, gr);
    }
  }

  /** The bitmaps are a function of the outstanding grants alone: the order of the calls leaves no trace. */
  lemma GridDependsOnGrantsOnly(ss: seq<State>, es: seq<Event>, ss': seq<State>, es': seq<Event>)
    requires Run(ss, es) && Run(ss', es')
    requires ss[|es|].live + ss[|es|].lost == ss'[|es'|].live + ss'[|es'|].lost
    ensures ss[|es|].grid == ss'[|es'|].grid
  {
    RunInv(ss, es, |es|);
    RunInv(ss', es', |es'|);
    var g, h := ss[|es|].grid, ss'[|es'|].grid;
    forall f | 0 <= f < 8
      ensures g[f] == h[f]
    {
      assert forall s | 0 <= s < 64 :: g[f][s] == h[f][s];
    }
  }

  /** Freeing what was just granted restores all eight bitmaps. */
  lemma AllocThenFree(s: State, e: Event, t: State, u: State)
    requires Inv(s) && Next(s, e, t) && e.Alloc? && e.status == 0
    requires Next(t, Free(Grant(e.freq, e.pos, e.tlen)), u)
    ensures u == s
  {
    var gr := Grant(e.freq, e.pos, e.tlen);
    GrantMade(s, e, t, gr);
    TakeThenGive(s, gr, t, u);
  }

  /** A successful allocation takes free cells for a new grant. */
  lemma GrantMade(s: State, e: Event, t: State, gr: Grant)
    requires Inv(s) && Next(s, e, t) && e.Alloc? && e.status == 0 && gr == Grant(e.freq, e.pos, e.tlen)
    ensures forall f, x | 0 <= f < 8 && 0 <= x < 64 && Covers(gr, f, x) :: s.grid[f][x]
    ensures gr !in s.live && t == State(Take(s.grid, gr), s.live + {gr}, s.lost)
  {
    var k := Level(e.itvl);
    var c := Search(s.grid, k, e.tlen, 0).value;
    assert gr == Grant(k + c.phase, c.pos, e.tlen);
    ChoiceIsFree(s.grid, k, e.tlen, c);
    ChoiceIsNew(s, k, e.tlen, c);
  }

  lemma TakeThenGive(s: State, gr: Grant, t: State, u: State)
    requires forall f, x | 0 <= f < 8 && 0 <= x < 64 && Covers(gr, f, x) :: s.grid[f][x]
    requires gr !in s.live && t == State(Take(s.grid, gr), s.live + {gr}, s.lost)
    requires u == State(Give(t.grid, gr), t.live - {gr}, t.lost)
    ensures u == s
  {
    GiveOfTake(s.grid, gr);
    assert s.live + {gr} - {gr} == s.live;
  }

  lemma GiveOfTake(g: Grid, gr: Grant)
    requires forall f, s | 0 <= f < 8 && 0 <= s < 64 && Covers(gr, f, s) :: g[f][s]
    ensures Give(Take(g, gr), gr) == g
  {
    forall f | 0 <= f < 8
      ensures Give(Take(g, gr), gr)[f] == g[f]
    {
      assert forall s | 0 <= s < 64 :: Give(Take(g, gr), gr)[f][s] == g[f][s];
    }
  }
}
