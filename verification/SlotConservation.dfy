/** Conservation of symbols, and the run on which the single-frame case loses some. */
module SlotConservation {
  import opened Words
  import opened FreeRun
  import opened Options
  import opened SlotGrid
  import opened SlotRuns

  // ---- counting ---------------------------------------------------------------------------------------------------

  function FreeUpTo(g: Grid, f: nat): nat
    requires f <= 8
  {
    if f == 0 then 0 else FreeUpTo(g, f - 1) + Count(g[f - 1], 64)
  }

  /** The number of free symbols in the eight frames. */
  function FreeCells(g: Grid): nat {
    FreeUpTo(g, 8)
  }

  /** The cells a grant has in the first `f` frames. */
  function CellsUpTo(gr: Grant, f: nat): nat {
    if f == 0 then 0 else CellsUpTo(gr, f - 1) + InFrame(gr, f - 1)
  }

  function InFrame(gr: Grant, f: nat): nat {
    if FrameTest(gr.freq, f) then gr.len else 0
  }

  /** The interval a frequency code stands for. */
  function IntervalOf(freq: nat): (k: nat)
    ensures IsInterval(k)
  {
    if freq < 2 then 1 else if freq < 4 then 2 else if freq < 8 then 4 else 8
  }

  function Weight(gr: Grant): nat {
    gr.len * (8 / IntervalOf(gr.freq))
  }

  /** A grant has `len` cells in each of the frames its code selects, `8 / interval` of them. */
  lemma CellsOfGrant(gr: Grant)
    requires 1 <= gr.freq <= 15
    ensures CellsUpTo(gr, 8) == Weight(gr)
  {
    CellsAddUp(gr);
    var k := IntervalOf(gr.freq);
    assert Weight(gr) == if k == 1 then 8 * gr.len else if k == 2 then 4 * gr.len else if k == 4 then 2 * gr.len
                         else gr.len;
  }

  lemma CellsAddUp(gr: Grant)
    ensures CellsUpTo(gr, 8) ==
      InFrame(gr, 0) + InFrame(gr, 1) + InFrame(gr, 2) + InFrame(gr, 3) +
      InFrame(gr, 4) + InFrame(gr, 5) + InFrame(gr, 6) + InFrame(gr, 7)
  {
    assert CellsUpTo(gr, 0) == 0;
    assert CellsUpTo(gr, 1) == CellsUpTo(gr, 0) + InFrame(gr, 0);
    assert CellsUpTo(gr, 2) == CellsUpTo(gr, 1) + InFrame(gr, 1);
    assert CellsUpTo(gr, 3) == CellsUpTo(gr, 2) + InFrame(gr, 2);
    assert CellsUpTo(gr, 4) == CellsUpTo(gr, 3) + InFrame(gr, 3);
    assert CellsUpTo(gr, 5) == CellsUpTo(gr, 4) + InFrame(gr, 4);
    assert CellsUpTo(gr, 6) == CellsUpTo(gr, 5) + InFrame(gr, 5);
    assert CellsUpTo(gr, 7) == CellsUpTo(gr, 6) + InFrame(gr, 6);
    assert CellsUpTo(gr, 8) == CellsUpTo(gr, 7) + InFrame(gr, 7);
  }

  lemma TakeRowCount(v: Word, gr: Grant, f: nat)
    requires Placed(gr) && FrameTest(gr.freq, f)
    requires forall s | gr.pos <= s < gr.pos + gr.len :: v[s]
    ensures Count(v, 64) == Count(TakeRow(v, gr, f), 64) + gr.len
  {
    CountWithout(v, TakeRow(v, gr, f), gr.pos, gr.len, 64);
  }

  /** Taking a grant of free symbols removes `len` of them from each frame it is in. */
  lemma {:induction false} TakeCount(g: Grid, gr: Grant, f: nat)
    requires f <= 8 && Placed(gr)
    requires forall h, s | 0 <= h < 8 && 0 <= s < 64 && Covers(gr, h, s) :: g[h][s]
    ensures FreeUpTo(g, f) == FreeUpTo(Take(g, gr), f) + CellsUpTo(gr, f)
  {
    if f > 0 {
      var h := f - 1;
      TakeCount(g, gr, h);
      if FrameTest(gr.freq, h) {
        forall s | gr.pos <= s < gr.pos + gr.len
          ensures g[h][s]
        {
          assert Covers(gr, h, s);
        }
        TakeRowCount(g[h], gr, h);
      } else {
        UntouchedRow(g[h], gr, h);
      }
    }
  }

  ghost function Total(grants: set<Grant>): nat
    decreases |grants|
  {
    if grants == {} then 0
    else
      var gr :| gr in grants;
      Weight(gr) + Total(grants - {gr})
  }

  lemma {:induction false} TotalWithout(grants: set<Grant>, gr: Grant)
    requires gr in grants
    ensures Total(grants) == Weight(gr) + Total(grants - {gr})
    decreases |grants|
  {
    var x :| x in grants && Total(grants) == Weight(x) + Total(grants - {x});
    if x != gr {
      TotalWithout(grants - {x}, gr);
      TotalWithout(grants - {gr}, x);
      assert grants - {x} - {gr} == grants - {gr} - {x};
    }
  }

  lemma TakeConserves(g: Grid, grants: set<Grant>, gr: Grant)
    requires Placed(gr) && gr !in grants
    requires forall h, s | 0 <= h < 8 && 0 <= s < 64 && Covers(gr, h, s) :: g[h][s]
    ensures FreeCells(Take(g, gr)) + Total(grants + {gr}) == FreeCells(g) + Total(grants)
  {
    TakeCount(g, gr, 8);
    CellsOfGrant(gr);
    TotalWithout(grants + {gr}, gr);
    assert grants + {gr} - {gr} == grants;
  }

  /** Giving back is taking, undone, when none of the grant's symbols was free. */
  lemma TakeOfGive(g: Grid, gr: Grant)
    requires forall h, s | 0 <= h < 8 && 0 <= s < 64 && Covers(gr, h, s) :: !g[h][s]
    ensures Take(Give(g, gr), gr) == g
  {
    forall h | 0 <= h < 8
      ensures Take(Give(g, gr), gr)[h] == g[h]
    {
      assert forall s | 0 <= s < 64 :: Take(Give(g, gr), gr)[h][s] == g[h][s];
    }
  }

  lemma ChoiceConserves(s: State, k: nat, n: nat, c: Choice, gr: Grant)
    requires Inv(s) && IsInterval(k) && 1 <= n && Search(s.grid, k, n, 0) == Some(c)
    requires gr == Grant(k + c.phase, c.pos, n)
    ensures FreeCells(Take(s.grid, gr)) + Total(s.live + s.lost + {gr}) == FreeCells(s.grid) + Total(s.live + s.lost)
  {
    ChoiceIsFree(s.grid, k, n, c);
    ChoiceIsNew(s, k, n, c);
    TakeConserves(s.grid, s.live + s.lost, gr);
  }

  /** What an allocation does to the bitmaps and the outstanding grants, reported or not. */
  ghost predicate Effect(s: State, t: State, k: nat, n: nat, r: Option<Choice>) {
    match r
    case None => t.grid == s.grid && t.live + t.lost == s.live + s.lost
    case Some(c) =>
      var gr := Grant(k + c.phase, c.pos, n);
      t.grid == Take(s.grid, gr) && t.live + t.lost == s.live + s.lost + {gr}
  }

  lemma AllocEffect(s: State, e: Event, t: State, k: nat, r: Option<Choice>)
    requires Next(s, e, t) && e.Alloc? && k == Level(e.itvl) && r == Search(s.grid, k, e.tlen, 0)
    ensures 1 <= e.tlen && Effect(s, t, k, e.tlen, r)
  {
  }

  lemma GrantConserves(s: State, t: State, k: nat, n: nat, c: Choice, gr: Grant)
    requires Inv(s) && IsInterval(k) && 1 <= n && Search(s.grid, k, n, 0) == Some(c)
    requires gr == Grant(k + c.phase, c.pos, n)
    requires t.grid == Take(s.grid, gr) && t.live + t.lost == s.live + s.lost + {gr}
    ensures FreeCells(t.grid) + Total(t.live + t.lost) == FreeCells(s.grid) + Total(s.live + s.lost)
  {
    ChoiceConserves(s, k, n, c, gr);
    SameCount(t, Take(s.grid, gr), s.live + s.lost + {gr});
  }

  lemma EffectConserves(s: State, t: State, k: nat, n: nat, r: Option<Choice>)
    requires Inv(s) && IsInterval(k) && 1 <= n && r == Search(s.grid, k, n, 0) && Effect(s, t, k, n, r)
    ensures FreeCells(t.grid) + Total(t.live + t.lost) == FreeCells(s.grid) + Total(s.live + s.lost)
  {
    if r.Some? {
      GrantConserves(s, t, k, n, r.value, Grant(k + r.value.phase, r.value.pos, n));
    } else {
      SameCount(t, s.grid, s.live + s.lost);
    }
  }

  lemma SameCount(t: State, g: Grid, grants: set<Grant>)
    requires t.grid == g && t.live + t.lost == grants
    ensures FreeCells(t.grid) + Total(t.live + t.lost) == FreeCells(g) + Total(grants)
  {
  }

  lemma AllocConserves(s: State, e: Event, t: State)
    requires Inv(s) && Next(s, e, t) && e.Alloc?
    ensures FreeCells(t.grid) + Total(t.live + t.lost) == FreeCells(s.grid) + Total(s.live + s.lost)
  {
    var k := Level(e.itvl);
    var r := Search(s.grid, k, e.tlen, 0);
    AllocEffect(s, e, t, k, r);
    EffectConserves(s, t, k, e.tlen, r);
  }

  lemma FreeConserves(s: State, gr: Grant, t: State)
    requires Inv(s) && Next(s, Free(gr), t)
    ensures FreeCells(t.grid) + Total(t.live + t.lost) == FreeCells(s.grid) + Total(s.live + s.lost)
  {
    assert gr in s.live + s.lost;
    forall h, x | 0 <= h < 8 && 0 <= x < 64 && Covers(gr, h, x)
      ensures !s.grid[h][x]
    {
      assert Taken(s.live + s.lost, h, x);
    }
    TakeOfGive(s.grid, gr);
    GiveCoversFree(s.grid, gr);
    TakeConserves(t.grid, t.live + t.lost, gr);
    assert t.live + t.lost + {gr} == s.live + s.lost;
  }

  lemma GiveCoversFree(g: Grid, gr: Grant)
    ensures forall h, s | 0 <= h < 8 && 0 <= s < 64 && Covers(gr, h, s) :: Give(g, gr)[h][s]
  {
  }

  lemma StartCount()
    ensures FreeCells(Initial()) == 480
  {
    CountAll(InitialRow(), 4, 64);
    assert forall f | 0 <= f < 8 :: Initial()[f] == InitialRow();
    assert FreeUpTo(Initial(), 4) == 240 by {
      assert FreeUpTo(Initial(), 2) == 120;
    }
    assert FreeUpTo(Initial(), 6) == 360;
  }

  /** Conservation. After any run, free symbols plus `len * (8 / interval)` over the grants taken from the grid
      make 480; over the live grants alone they do exactly when no call of the run lost a grant. */
  lemma {:induction false} SymbolsAreConserved(ss: seq<State>, es: seq<Event>, i: nat)
    requires Run(ss, es) && i < |ss|
    ensures FreeCells(ss[i].grid) + Total(ss[i].live + ss[i].lost) == 480
  {
    if i == 0 {
      StartCount();
      assert ss[0].live + ss[0].lost == {};
    } else {
      SymbolsAreConserved(ss, es, i - 1);
      RunInv(ss, es, i - 1);
      if es[i - 1].Alloc? {
        AllocConserves(ss[i - 1], es[i - 1], ss[i]);
      } else {
        FreeConserves(ss[i - 1], es[i - 1].gr, ss[i]);
      }
    }
  }

  lemma {:induction false} TotalOfUnion(a: set<Grant>, b: set<Grant>)
    requires a !! b
    ensures Total(a + b) == Total(a) + Total(b)
    decreases |b|
  {
    if b == {} {
      assert a + b == a;
    } else {
      var gr :| gr in b;
      TotalOfUnion(a, b - {gr});
      TotalWithout(b, gr);
      TotalWithout(a + b, gr);
      assert a + b - {gr} == a + (b - {gr});
    }
  }

  lemma WeightPositive(gr: Grant)
    requires Placed(gr)
    ensures Weight(gr) >= 1
  {
    var m := 8 / IntervalOf(gr.freq);
    assert m >= 1;
    assert gr.len * m >= m by {
      assert (gr.len - 1) * m >= 0;
    }
  }

  lemma LiveSymbolsAreConserved(ss: seq<State>, es: seq<Event>)
    requires Run(ss, es)
    ensures FreeCells(ss[|es|].grid) + Total(ss[|es|].live) == 480 <==> NeverLoses(ss, es)
  {
    var s := ss[|es|];
    SymbolsAreConserved(ss, es, |es|);
    RunInv(ss, es, |es|);
    LostExactly(ss, es);
    TotalOfUnion(s.live, s.lost);
    if s.lost != {} {
      var gr :| gr in s.lost;
      assert gr in s.live + s.lost;
      WeightPositive(gr);
      TotalWithout(s.lost, gr);
    }
  }

  // ---- a run that loses symbols -----------------------------------------------------------------------------------

  /** Even frames are free from symbol `e` on, odd ones from symbol `o` on. */
  predicate Shape(g: Grid, e: nat, o: nat) {
    forall f, s | 0 <= f < 8 && 0 <= s < 64 :: g[f][s] <==> s >= if f % 2 == 0 then e else o
  }

  /** With 30 symbols free from symbol 4 on in one phase and symbol 4 closed in the phases before it, a request
      of 30 is placed right there. */
  lemma FirstAtFour(g: Grid, e: nat, o: nat, k: nat, phase: nat)
    requires IsInterval(k) && k >= 2 && phase < 2 && Shape(g, e, o)
    requires e >= 4 && o >= 4
    requires if phase == 0 then e == 4 else o == 4 && e > 4
    ensures Search(g, k, 30, 0) == Some(Choice(4, phase))
  {
    BestAtFour(g, e, o, k, phase);
    SearchCorrect(g, k, 30, Choice(4, phase));
  }

  lemma BestAtFour(g: Grid, e: nat, o: nat, k: nat, phase: nat)
    requires IsInterval(k) && k >= 2 && phase < 2 && Shape(g, e, o)
    requires e >= 4 && o >= 4
    requires if phase == 0 then e == 4 else o == 4 && e > 4
    ensures Best(g, k, 30, Choice(4, phase))
  {
    forall ph, q | 0 <= ph < k && 0 <= q < 64 && Room(g, k, ph, 30, q)
      ensures 4 < q || (q == 4 && phase <= ph)
    {
      RoomInShape(g, e, o, k, ph, q);
    }
    forall f | 0 <= f < 8 && f % k == phase
      ensures Fits(g[f], 30, 4)
    {
      assert f % 2 == phase;
    }
  }

  lemma RoomInShape(g: Grid, e: nat, o: nat, k: nat, phase: nat, p: nat)
    requires IsInterval(k) && phase < k && Shape(g, e, o) && p < 64 && Room(g, k, phase, 30, p)
    ensures p >= if phase % 2 == 0 then e else o
  {
    var f: nat := phase;
    assert f < 8 && f % k == phase;
    assert Fits(g[f], 30, p);
  }

  lemma EvenTaken(g: Grid, o: nat)
    requires Shape(g, 4, o)
    ensures Shape(Take(g, Grant(2, 4, 30)), 34, o)
  {
  }

  lemma OddTaken(g: Grid, e: nat)
    requires Shape(g, e, 4)
    ensures Shape(Take(g, Grant(3, 4, 30)), e, 34)
  {
  }

  lemma EvenGiven(g: Grid, o: nat)
    requires Shape(g, 34, o)
    ensures Shape(Give(g, Grant(2, 4, 30)), 4, o)
  {
  }

  lemma LastFrameFull(g: Grid, e: nat)
    requires Shape(g, e, 34)
    ensures !PhaseHasRoom(g, 8, 7, 30)
  {
    forall p | 0 <= p < 64
      ensures !Room(g, 8, 7, 30, p)
    {
      assert !Fits(g[7], 30, p);
    }
  }

  /** Two grants of every second frame fill the grid for requests of 30; one is freed; a single-frame request then
      takes 30 symbols of frame 0 and reports failure, because frame 7 has no room. */
  lemma SingleFrameRequestLosesSymbols() returns (ss: seq<State>, es: seq<Event>)
    ensures Run(ss, es) && |es| == 4
    ensures es[3] == Alloc(8, 30, 2, 8, 4)
    ensures ss[4].live == {Grant(3, 4, 30)} && ss[4].lost == {Grant(8, 4, 30)}
  {
    var even, odd, one := Grant(2, 4, 30), Grant(3, 4, 30), Grant(8, 4, 30);
    var s2;
    ss, es, s2 := BothHalves(even, odd);
    var s3 := State(Give(s2.grid, even), {odd}, {});
    var s4 := State(Take(s3.grid, one), {odd}, {one});
    EvenFreed(s2, odd, s3);
    ss, es := Extend(ss, es, Free(even), s3);
    LosingStep(s3, one, s4);
    ss, es := Extend(ss, es, Alloc(8, 30, 2, 8, 4), s4);
  }

  /** Both halves granted. */
  lemma BothHalves(even: Grant, odd: Grant) returns (ss: seq<State>, es: seq<Event>, s: State)
    requires even == Grant(2, 4, 30) && odd == Grant(3, 4, 30)
    ensures Run(ss, es) && |es| == 2 && ss[2] == s
    ensures s.live == {even, odd} && s.lost == {} && Shape(s.grid, 34, 34)
  {
    var s1 := State(Take(Initial(), even), {even}, {});
    s := State(Take(s1.grid, odd), {even, odd}, {});
    HalfGranted(Start, even, s1, 4, 0);
    ss, es := Extend([Start], [], Alloc(2, 30, 0, 2, 4), s1);
    EvenTaken(Initial(), 4);
    HalfGranted(s1, odd, s, 34, 1);
    ss, es := Extend(ss, es, Alloc(2, 30, 0, 3, 4), s);
    OddTaken(s1.grid, 34);
  }

  /** A run and one more call. */
  lemma Extend(ss: seq<State>, es: seq<Event>, e: Event, t: State) returns (ss': seq<State>, es': seq<Event>)
    requires Run(ss, es) && Next(ss[|es|], e, t)
    ensures ss' == ss + [t] && es' == es + [e] && Run(ss', es')
  {
    ss', es' := ss + [t], es + [e];
  }

  lemma HalfGranted(s: State, gr: Grant, t: State, e: nat, phase: nat)
    requires gr == Grant(2 + phase, 4, 30) && phase < 2 && e >= 4
    requires Shape(s.grid, e, 4) && (if phase == 0 then e == 4 else e > 4)
    requires t == State(Take(s.grid, gr), s.live + {gr}, s.lost)
    ensures Next(s, Alloc(2, 30, 0, 2 + phase, 4), t)
  {
    FirstAtFour(s.grid, e, 4, 2, phase);
  }

  lemma EvenFreed(s: State, odd: Grant, t: State)
    requires odd == Grant(3, 4, 30) && s.live == {Grant(2, 4, 30), odd} && Shape(s.grid, 34, 34)
    requires t == State(Give(s.grid, Grant(2, 4, 30)), {odd}, s.lost)
    ensures Next(s, Free(Grant(2, 4, 30)), t) && Shape(t.grid, 4, 34)
  {
    EvenGiven(s.grid, 34);
    assert s.live - {Grant(2, 4, 30)} == {odd};
  }

  lemma LosingStep(s: State, gr: Grant, t: State)
    requires gr == Grant(8, 4, 30) && Shape(s.grid, 4, 34)
    requires t == State(Take(s.grid, gr), s.live, s.lost + {gr})
    ensures Next(s, Alloc(8, 30, 2, 8, 4), t)
  {
    FirstAtFour(s.grid, 4, 34, 8, 0);
    LastFrameFull(s.grid, 4);
  }
}
