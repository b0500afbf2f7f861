/** The slot allocator of the control node: eight frames of 64 symbols, one word a frame, a set bit for every
    free symbol. A grant is a run of symbols repeated in every frame its frequency code selects. */
module SlotGrid {
  import opened Words
  import opened FreeRun
  import opened Options

  // ---- frequency codes --------------------------------------------------------------------------------------------

  /** `hcb_res_frame_test`: does the 4-bit code select frame `frm`? */
  function FrameTest(ecode: nat, frm: nat): bool {
    var code, f := ecode % 16, frm % 8;
    match code
    case 1 => true
    case 2 => f % 2 == 0
    case 3 => f % 2 != 0
    case 4 => f % 4 == 0
    case 5 => f % 4 == 1
    case 6 => f % 4 == 2
    case 7 => f % 4 == 3
    case 8 => f == 0
    case 9 => f == 1
    case 10 => f == 2
    case 11 => f == 3
    case 12 => f == 4
    case 13 => f == 5
    case 14 => f == 6
    case 15 => f == 7
    case _ => false
  }

  predicate IsInterval(k: nat) {
    k == 1 || k == 2 || k == 4 || k == 8
  }

  /** The code `interval + phase` selects exactly the frames congruent to the phase. */
  lemma CodeMeaning(k: nat, phase: nat, f: nat)
    requires IsInterval(k) && phase < k && f < 8
    ensures FrameTest(k + phase, f) <==> f % k == phase
  {
    assert k == 8 ==> f % 8 == f;
  }

  // ---- grids and grants -------------------------------------------------------------------------------------------

  type Grid = g: seq<Word> | |g| == 8 witness seq(8, _ => seq(64, _ => false))

  datatype Grant = Grant(freq: nat, pos: nat, len: nat)

  predicate Covers(gr: Grant, f: nat, s: nat) {
    FrameTest(gr.freq, f) && gr.pos <= s < gr.pos + gr.len
  }

  function TakeRow(v: Word, gr: Grant, f: nat): Word {
    seq(64, s requires 0 <= s < 64 => v[s] && !Covers(gr, f, s))
  }

  function GiveRow(v: Word, gr: Grant, f: nat): Word {
    seq(64, s requires 0 <= s < 64 => v[s] || Covers(gr, f, s))
  }

  /** The grid once every cell of `gr` is taken. */
  function Take(g: Grid, gr: Grant): Grid {
    seq(8, f requires 0 <= f < 8 => TakeRow(g[f], gr, f))
  }

  /** The grid once every cell of `gr` is given back. */
  function Give(g: Grid, gr: Grant): Grid {
    seq(8, f requires 0 <= f < 8 => GiveRow(g[f], gr, f))
  }

  function InitialRow(): Word {
    seq(64, s => s >= 4)
  }

  /** Every symbol free but the first four of each frame, which the control node keeps. */
  function Initial(): Grid {
    seq(8, _ => InitialRow())
  }

  // ---- what an allocation should find -----------------------------------------------------------------------------

  /** `k` is the largest of 1, 2, 4 and 8 not above `itvl`, and 1 if there is none. */
  predicate Serves(itvl: nat, k: nat) {
    IsInterval(k) && (k <= itvl || k == 1) && forall j: nat | IsInterval(j) && j <= itvl :: j <= k
  }

  /** `resfrm_alloc` rounds the requested interval down to a power of two. */
  function Level(itvl: nat): (k: nat)
    ensures Serves(itvl, k)
  {
    if itvl >= 8 then 8 else if itvl >= 4 then 4 else if itvl >= 2 then 2 else 1
  }

  lemma ServesExactly(itvl: nat)
    ensures forall k | Serves(itvl, k) :: k == Level(itvl)
  {
    forall k | Serves(itvl, k)
      ensures k == Level(itvl)
    {
      assert IsInterval(Level(itvl)) && IsInterval(k);
    }
  }

  /** `n` symbols are free at `p` in every frame of the phase. */
  predicate Room(g: Grid, k: nat, phase: nat, n: nat, p: nat)
    requires k > 0
  {
    forall f | 0 <= f < 8 && f % k == phase :: Fits(g[f], n, p)
  }

  predicate PhaseHasRoom(g: Grid, k: nat, phase: nat, n: nat)
    requires k > 0
  {
    exists p | 0 <= p < 64 :: Room(g, k, phase, n, p)
  }

  datatype Choice = Choice(pos: nat, phase: nat)
  /** The first phase from `phase` on with room at `p`. */
  function FirstPhase(g: Grid, k: nat, n: nat, p: nat, phase: nat): Option<nat>
    requires k > 0 && phase <= k
    decreases k - phase, n
  {
    if phase == k then None
    else if Room(g, k, phase, n, p) then Some(phase)
    else FirstPhase(g, k, n, p, phase + 1)
  }

  /** The plain allocator: try every position from `p` up, and at each one every phase in order. */
  function Search(g: Grid, k: nat, n: nat, p: nat): Option<Choice>
    requires k > 0 && p <= 64
    decreases 64 - p, n
  {
    if p == 64 then None
    else
      match FirstPhase(g, k, n, p, 0)
      case Some(phase) => Some(Choice(p, phase))
      case None => Search(g, k, n, p + 1)
  }

  /** `c` has room, and nothing at a smaller position, or at the same position in an earlier phase, does. */
  predicate Best(g: Grid, k: nat, n: nat, c: Choice)
    requires k > 0
  {
    && c.phase < k && c.pos < 64
    && Room(g, k, c.phase, n, c.pos)
    && (forall phase, q | 0 <= phase < k && 0 <= q < 64 && Room(g, k, phase, n, q) ::
          c.pos < q || (c.pos == q && c.phase <= phase))
  }

  predicate Full(g: Grid, k: nat, n: nat)
    requires k > 0
  {
    forall phase, q | 0 <= phase < k && 0 <= q < 64 :: !Room(g, k, phase, n, q)
  }

  lemma {:induction false} FirstPhaseCorrect(g: Grid, k: nat, n: nat, p: nat, from: nat)
    requires k > 0 && from <= k
    ensures match FirstPhase(g, k, n, p, from)
            case None => forall ph | from <= ph < k :: !Room(g, k, ph, n, p)
            case Some(phase) =>
              from <= phase < k && Room(g, k, phase, n, p) &&
              forall ph | from <= ph < phase :: !Room(g, k, ph, n, p)
    decreases k - from, n
  {
    if from < k && !Room(g, k, from, n, p) {
      FirstPhaseCorrect(g, k, n, p, from + 1);
    }
  }

  lemma {:induction false} SearchFrom(g: Grid, k: nat, n: nat, p: nat)
    requires k > 0 && p <= 64
    ensures match Search(g, k, n, p)
            case None => forall ph, q | 0 <= ph < k && p <= q < 64 :: !Room(g, k, ph, n, q)
            case Some(c) =>
              && c.phase < k && p <= c.pos < 64 && Room(g, k, c.phase, n, c.pos)
              && forall ph, q | 0 <= ph < k && p <= q < 64 && Room(g, k, ph, n, q) ::
                   c.pos < q || (c.pos == q && c.phase <= ph)
    decreases 64 - p, n
  {
    if p < 64 {
      FirstPhaseCorrect(g, k, n, p, 0);
      SearchFrom(g, k, n, p + 1);
    }
  }

  /** The search is complete and first-fit: it fails exactly when no phase has room, and what it returns is
      exactly the lexicographically least (position, phase) with room. */
  lemma SearchCorrect(g: Grid, k: nat, n: nat, c: Choice)
    requires k > 0
    ensures Search(g, k, n, 0) == None <==> Full(g, k, n)
    ensures Search(g, k, n, 0) == Some(c) <==> Best(g, k, n, c)
  {
    SearchFrom(g, k, n, 0);
  }

  lemma RoomAtTwice(g: Grid, k: nat, phase: nat, n: nat, p: nat)
    requires k == 1 || k == 2 || k == 4
    requires phase < k && Room(g, k, phase, n, p)
    ensures Room(g, 2 * k, phase, n, p)
  {
    forall f | 0 <= f < 8 && f % (2 * k) == phase
      ensures Fits(g[f], n, p)
    {
      assert k == 1 ==> f % 1 == phase;
      assert k == 2 ==> f % 4 == phase && f % 2 == phase;
      assert k == 4 ==> f % 8 == phase && f % 4 == phase;
    }
  }

  /** Asking for half as many repetitions never hurts: what fits at interval `k` fits at `2k`, no later. */
  lemma SparserFitsNoLater(g: Grid, k: nat, n: nat)
    requires k == 1 || k == 2 || k == 4
    requires Search(g, k, n, 0).Some?
    ensures Search(g, 2 * k, n, 0).Some?
    ensures Search(g, 2 * k, n, 0).value.pos <= Search(g, k, n, 0).value.pos
  {
    SearchFrom(g, k, n, 0);
    SearchFrom(g, 2 * k, n, 0);
    var c := Search(g, k, n, 0).value;
    RoomAtTwice(g, k, c.phase, n, c.pos);
  }

  // ---- the allocator as coded -------------------------------------------------------------------------------------

  /** The rows of a phase, and-ed together, fit a run exactly where every one of them does. */
  lemma AndFits(v: Word, w: Word, n: nat, p: nat)
    ensures Fits(And(v, w), n, p) <==> Fits(v, n, p) && Fits(w, n, p)
  {
    if p + n <= 63 {
      assert forall k | p <= k < p + n :: And(v, w)[k] == (v[k] && w[k]);
    }
  }

  /** `INT32_MAX`, the phase index before any phase has been chosen. */
  const UNCHOSEN := 0x7FFF_FFFF

  /** The choice made so far: the best among phases `0..i`, or none of them has room. */
  predicate BestSoFar(g: Grid, k: nat, n: nat, i: nat, tidx: int, tmin: nat)
    requires k > 0
  {
    if tidx == UNCHOSEN then
      && tmin == 0xFF
      && forall phase, q | 0 <= phase < i && 0 <= q < 64 :: !Room(g, k, phase, n, q)
    else
      && 0 <= tidx < i && tmin < 64
      && Room(g, k, tidx, n, tmin)
      && forall phase, q | 0 <= phase < i && 0 <= q < 64 && Room(g, k, phase, n, q) ::
           tmin < q || (tmin == q && tidx <= phase)
  }

  /** The and of a phase's rows stands for the phase. */
  predicate IsPhaseWord(g: Grid, k: nat, phase: nat, n: nat, v: Word)
    requires k > 0
  {
    forall p | 0 <= p < 64 :: Fits(v, n, p) <==> Room(g, k, phase, n, p)
  }

  lemma ChooseNext(g: Grid, k: nat, n: nat, i: nat, tidx: int, tmin: nat, v: Word, status: nat, pos: nat)
    requires k > 0 && i < 8
    requires BestSoFar(g, k, n, i, tidx, tmin) && IsPhaseWord(g, k, i, n, v)
    requires if status == 0 then FirstFit(v, n, pos) else NoFit(v, n)
    ensures if status == 0 && pos < tmin then BestSoFar(g, k, n, i + 1, i, pos)
            else BestSoFar(g, k, n, i + 1, tidx, tmin)
    ensures status == 0 <==> PhaseHasRoom(g, k, i, n)
  {
    if status == 0 {
      assert Room(g, k, i, n, pos);
    }
  }

  lemma ChosenIsSearch(g: Grid, k: nat, n: nat, tidx: int, tmin: nat)
    requires k > 0 && BestSoFar(g, k, n, k, tidx, tmin)
    ensures Search(g, k, n, 0) == if tidx == UNCHOSEN then None else Some(Choice(tmin, tidx))
  {
    SearchCorrect(g, k, n, Choice(tmin, tidx));
  }

  lemma ClearedRow(v: Word, gr: Grant, f: nat)
    requires FrameTest(gr.freq, f)
    ensures And(v, Not(Mask(gr.len, gr.pos))) == TakeRow(v, gr, f)
  {
    MaskBits(gr.len, gr.pos);
  }

  lemma UntouchedRow(v: Word, gr: Grant, f: nat)
    requires !FrameTest(gr.freq, f)
    ensures TakeRow(v, gr, f) == v && GiveRow(v, gr, f) == v
  {
  }

  lemma SetRow(v: Word, gr: Grant, f: nat)
    requires FrameTest(gr.freq, f)
    ensures Or(v, Mask(gr.len, gr.pos)) == GiveRow(v, gr, f)
  {
    MaskBits(gr.len, gr.pos);
  }

  /** What `resfrm_alloc` does at interval `k`: it takes the first-fit choice of the plain search, or leaves
      everything as it was. At interval 8 a choice is reported as a success only if the last phase tried had room,
      because the result of the last `find_cont_bits` call is what is returned. */
  predicate AllocOutcome(g: Grid, k: nat, n: nat, after: Grid, status: nat, freq: nat, pos: nat)
    requires k > 0
  {
    match Search(g, k, n, 0)
    case None => status != 0 && after == g
    case Some(c) =>
      && freq == k + c.phase && pos == c.pos
      && after == Take(g, Grant(freq, pos, n))
      && (status == 0 <==> k < 8 || PhaseHasRoom(g, 8, 7, n))
  }

  lemma PhaseWord1(g: Grid, n: nat)
    ensures IsPhaseWord(g, 1, 0, n,
              And(And(And(And(And(And(And(g[0], g[1]), g[2]), g[3]), g[4]), g[5]), g[6]), g[7]))
  {
    forall p | 0 <= p < 64
      ensures Fits(And(And(And(And(And(And(And(g[0], g[1]), g[2]), g[3]), g[4]), g[5]), g[6]), g[7]), n, p)
              <==> Room(g, 1, 0, n, p)
    {
      AndFits(g[0], g[1], n, p);
      AndFits(And(g[0], g[1]), g[2], n, p);
      var q := And(And(And(g[0], g[1]), g[2]), g[3]);
      AndFits(And(And(g[0], g[1]), g[2]), g[3], n, p);
      AndFits(q, g[4], n, p);
      AndFits(And(q, g[4]), g[5], n, p);
      AndFits(And(And(q, g[4]), g[5]), g[6], n, p);
      AndFits(And(And(And(q, g[4]), g[5]), g[6]), g[7], n, p);
      assert forall f | 0 <= f < 8 :: f % 1 == 0;
    }
  }

  lemma PhaseWord2(g: Grid, i: nat, n: nat)
    requires i < 2
    ensures IsPhaseWord(g, 2, i, n, And(And(And(g[i], g[i + 2]), g[i + 4]), g[i + 6]))
  {
    forall p | 0 <= p < 64
      ensures Fits(And(And(And(g[i], g[i + 2]), g[i + 4]), g[i + 6]), n, p) <==> Room(g, 2, i, n, p)
    {
      AndFits(g[i], g[i + 2], n, p);
      AndFits(And(g[i], g[i + 2]), g[i + 4], n, p);
      AndFits(And(And(g[i], g[i + 2]), g[i + 4]), g[i + 6], n, p);
    }
  }

  lemma PhaseWord4(g: Grid, i: nat, n: nat)
    requires i < 4
    ensures IsPhaseWord(g, 4, i, n, And(g[i], g[i + 4]))
  {
    assert forall f | 0 <= f < 8 :: f % 4 == i <==> f == i || f == i + 4;
    forall p | 0 <= p < 64
      ensures Fits(And(g[i], g[i + 4]), n, p) <==> Room(g, 4, i, n, p)
    {
      AndFits(g[i], g[i + 4], n, p);
    }
  }

  lemma PhaseWord8(g: Grid, i: nat, n: nat)
    requires i < 8
    ensures IsPhaseWord(g, 8, i, n, g[i])
  {
  }

  lemma InitialRows()
    ensures Not(Pred(Shl(One(), 4))) == InitialRow()
  {
    MaskBits(4, 0);
    assert Mask(4, 0) == Pred(Shl(One(), 4));
  }

  /** The rows of the chosen phase masked, the others left alone. */
  predicate PhaseCleared(g: Grid, k: nat, phase: nat, n: nat, p: nat, h: Grid)
    requires k > 0
  {
    forall f | 0 <= f < 8 :: h[f] == if f % k == phase then And(g[f], Not(Mask(n, p))) else g[f]
  }

  /** A phase was chosen and its rows were masked: that is the first-fit grant, taken. */
  lemma ChoiceTaken(g: Grid, k: nat, n: nat, phase: nat, p: nat, h: Grid, status: nat, freq: nat)
    requires IsInterval(k) && phase < k && freq == k + phase
    requires BestSoFar(g, k, n, k, phase, p) && PhaseCleared(g, k, phase, n, p, h)
    requires status == 0 <==> k < 8 || PhaseHasRoom(g, 8, 7, n)
    ensures AllocOutcome(g, k, n, h, status, freq, p)
  {
    ChosenIsSearch(g, k, n, phase, p);
    RowsTaken(g, k, phase, n, p, h, Grant(freq, p, n));
  }

  lemma RowsTaken(g: Grid, k: nat, phase: nat, n: nat, p: nat, h: Grid, gr: Grant)
    requires IsInterval(k) && phase < k && PhaseCleared(g, k, phase, n, p, h) && gr == Grant(k + phase, p, n)
    ensures h == Take(g, gr)
  {
    forall f | 0 <= f < 8
      ensures h[f] == Take(g, gr)[f]
    {
      RowTaken(g, k, phase, n, p, h, f);
    }
  }

  lemma RowTaken(g: Grid, k: nat, phase: nat, n: nat, p: nat, h: Grid, f: nat)
    requires IsInterval(k) && phase < k && f < 8 && PhaseCleared(g, k, phase, n, p, h)
    ensures h[f] == TakeRow(g[f], Grant(k + phase, p, n), f)
  {
    CodeMeaning(k, phase, f);
    if f % k == phase {
      ClearedRow(g[f], Grant(k + phase, p, n), f);
    } else {
      UntouchedRow(g[f], Grant(k + phase, p, n), f);
    }
  }

  /** One `find_cont_bits` call of `resfrm_alloc`, and what it does to the choice made so far. */
  method TryPhase(v: Word, tlen: nat, ghost g: Grid, ghost k: nat, ghost i: nat, ghost tidx: int, ghost tmin: nat)
    returns (iret: nat, tpos: nat)
    requires 0 < k && i < 8
    requires BestSoFar(g, k, tlen, i, tidx, tmin) && IsPhaseWord(g, k, i, tlen, v)
    ensures iret == 0 && tpos < tmin ==> BestSoFar(g, k, tlen, i + 1, i, tpos)
    ensures iret != 0 || tpos >= tmin ==> BestSoFar(g, k, tlen, i + 1, tidx, tmin)
    ensures iret == 0 <==> PhaseHasRoom(g, k, i, tlen)
    ensures iret == 0 ==> tpos < 64
  {
    iret, tpos := FindContBits(v, tlen);
    ChooseNext(g, k, tlen, i, tidx, tmin, v, iret, tpos);
  }

  class Allocator {
    const resfrm: array<Word>

    ghost predicate Valid()
      reads this
    {
      resfrm.Length == 8
    }

    ghost function Rows(): Grid
      reads this, resfrm
      requires Valid()
    {
      resfrm[..]
    }

    constructor ()
      ensures Valid() && fresh(resfrm) && Rows() == Initial()
    {
      resfrm := new Word[8](_ => Not(Pred(Shl(One(), 4))));
      new;
      InitialRows();
    }

    /** `resfrm_alloc`. The shift `1 << tlen` is on `int`, so the source is defined up to `tlen` 30. */
    method Alloc(itvl: nat, tlen: nat) returns (status: nat, freq: nat, pos: nat)
      requires Valid() && tlen <= 30
      modifies resfrm
      ensures forall k | Serves(itvl, k) :: AllocOutcome(old(Rows()), k, tlen, Rows(), status, freq, pos)
    {
      ServesExactly(itvl);
      if itvl >= 8 {
        status, freq, pos := AllocEvery8(tlen);
      } else if itvl >= 4 {
        status, freq, pos := AllocEvery4(tlen);
      } else if itvl >= 2 {
        status, freq, pos := AllocEvery2(tlen);
      } else {
        status, freq, pos := AllocEvery1(tlen);
      }
    }

    /** Case 1 of the switch: the same symbols in all eight frames. */
    method AllocEvery1(tlen: nat) returns (status: nat, freq: nat, pos: nat)
      requires Valid() && tlen <= 30
      modifies resfrm
      ensures AllocOutcome(old(Rows()), 1, tlen, Rows(), status, freq, pos)
    {
      ghost var g := Rows();
      var temp := And(And(And(resfrm[0], resfrm[1]), resfrm[2]), resfrm[3]);
      temp := And(And(And(And(temp, resfrm[4]), resfrm[5]), resfrm[6]), resfrm[7]);
      PhaseWord1(g, tlen);
      var iret, tpos := TryPhase(temp, tlen, g, 1, 0, UNCHOSEN, 0xFF);
      if iret != 0 {
        ChosenIsSearch(g, 1, tlen, UNCHOSEN, 0xFF);
        return 10, 0, 0;
      }
      temp := Not(Mask(tlen, tpos));
      ClearAll(temp);
      status, freq, pos := 0, 1, tpos;
      ChoiceTaken(g, 1, tlen, 0, tpos, Rows(), status, freq);
    }

    /** The last lines of case 1: clear the mask in every frame. */
    method ClearAll(temp: Word)
      requires Valid()
      modifies resfrm
      ensures forall f | 0 <= f < 8 :: resfrm[f] == And(old(resfrm[f]), temp)
    {
      resfrm[0] := And(resfrm[0], temp);
      resfrm[1] := And(resfrm[1], temp);
      resfrm[2] := And(resfrm[2], temp);
      resfrm[3] := And(resfrm[3], temp);
      resfrm[4] := And(resfrm[4], temp);
      resfrm[5] := And(resfrm[5], temp);
      resfrm[6] := And(resfrm[6], temp);
      resfrm[7] := And(resfrm[7], temp);
    }

    /** Case 2: the even frames or the odd ones. */
    method AllocEvery2(tlen: nat) returns (status: nat, freq: nat, pos: nat)
      requires Valid() && tlen <= 30
      modifies resfrm
      ensures AllocOutcome(old(Rows()), 2, tlen, Rows(), status, freq, pos)
    {
      ghost var g := Rows();
      var tidx, tmin := ChooseOfTwo(tlen);
      if tidx >= 2 {
        ChosenIsSearch(g, 2, tlen, tidx, tmin);
        return 11, 0, 0;
      }
      var temp := Not(Mask(tlen, tmin));
      ClearAlternate(tidx, temp);
      status, freq, pos := 0, tidx + 2, tmin;
      ChoiceTaken(g, 2, tlen, tidx, tmin, Rows(), status, freq);
    }

    /** The first lines of case 2: search both halves. */
    method ChooseOfTwo(tlen: nat) returns (tidx: nat, tmin: nat)
      requires Valid()
      ensures BestSoFar(Rows(), 2, tlen, 2, tidx, tmin)
    {
      tidx, tmin := UNCHOSEN, 0xFF;
      var temp := And(And(And(resfrm[0], resfrm[2]), resfrm[4]), resfrm[6]);
      PhaseWord2(Rows(), 0, tlen);
      var iret, tpos := TryPhase(temp, tlen, Rows(), 2, 0, tidx, tmin);
      if iret == 0 {
        tidx, tmin := 0, tpos;
      }
      temp := And(And(And(resfrm[1], resfrm[3]), resfrm[5]), resfrm[7]);
      PhaseWord2(Rows(), 1, tlen);
      iret, tpos := TryPhase(temp, tlen, Rows(), 2, 1, tidx, tmin);
      if iret == 0 && tpos < tmin {
        tidx, tmin := 1, tpos;
      }
    }

    /** The last lines of case 2: clear the mask in every second frame. */
    method ClearAlternate(tidx: nat, temp: Word)
      requires Valid() && tidx < 2
      modifies resfrm
      ensures forall f | 0 <= f < 8 ::
                resfrm[f] == if f % 2 == tidx then And(old(resfrm[f]), temp) else old(resfrm[f])
    {
      resfrm[tidx + 0] := And(resfrm[tidx + 0], temp);
      resfrm[tidx + 2] := And(resfrm[tidx + 2], temp);
      resfrm[tidx + 4] := And(resfrm[tidx + 4], temp);
      resfrm[tidx + 6] := And(resfrm[tidx + 6], temp);
    }

    /** Case 4: one pair of frames four apart. */
    method AllocEvery4(tlen: nat) returns (status: nat, freq: nat, pos: nat)
      requires Valid() && tlen <= 30
      modifies resfrm
      ensures AllocOutcome(old(Rows()), 4, tlen, Rows(), status, freq, pos)
    {
      ghost var g := Rows();
      var tidx, tmin := ChooseOfFour(tlen);
      if tidx >= 4 {
        ChosenIsSearch(g, 4, tlen, tidx, tmin);
        return 12, 0, 0;
      }
      var temp := Not(Mask(tlen, tmin));
      ClearPair(tidx, temp);
      status, freq, pos := 0, tidx + 4, tmin;
      ChoiceTaken(g, 4, tlen, tidx, tmin, Rows(), status, freq);
    }

    /** The loop of case 4. */
    method ChooseOfFour(tlen: nat) returns (tidx: nat, tmin: nat)
      requires Valid()
      ensures BestSoFar(Rows(), 4, tlen, 4, tidx, tmin)
    {
      tidx, tmin := UNCHOSEN, 0xFF;
      for i := 0 to 4
        invariant BestSoFar(Rows(), 4, tlen, i, tidx, tmin)
      {
        var temp := And(resfrm[i], resfrm[i + 4]);
        PhaseWord4(Rows(), i, tlen);
        var iret, tpos := TryPhase(temp, tlen, Rows(), 4, i, tidx, tmin);
        if iret == 0 && tpos < tmin {
          tidx, tmin := i, tpos;
        }
      }
    }

    /** The last lines of case 4: clear the mask in both frames. */
    method ClearPair(tidx: nat, temp: Word)
      requires Valid() && tidx < 4
      modifies resfrm
      ensures forall f | 0 <= f < 8 ::
                resfrm[f] == if f % 4 == tidx then And(old(resfrm[f]), temp) else old(resfrm[f])
    {
      resfrm[tidx + 0] := And(resfrm[tidx + 0], temp);
      resfrm[tidx + 4] := And(resfrm[tidx + 4], temp);
    }

    /** Case 8: a single frame. `iret` is left as the last search set it. */
    method AllocEvery8(tlen: nat) returns (status: nat, freq: nat, pos: nat)
      requires Valid() && tlen <= 30
      modifies resfrm
      ensures AllocOutcome(old(Rows()), 8, tlen, Rows(), status, freq, pos)
    {
      ghost var g := Rows();
      var tidx, tmin, iret := ChooseOfEight(tlen);
      if tidx >= 8 {
        ChosenIsSearch(g, 8, tlen, tidx, tmin);
        return 13, 0, 0;
      }
      var temp := Not(Mask(tlen, tmin));
      resfrm[tidx] := And(resfrm[tidx], temp);
      status, freq, pos := iret, tidx + 8, tmin;
      ChoiceTaken(g, 8, tlen, tidx, tmin, Rows(), status, freq);
    }

    /** The loop of case 8. */
    method ChooseOfEight(tlen: nat) returns (tidx: nat, tmin: nat, iret: nat)
      requires Valid()
      ensures BestSoFar(Rows(), 8, tlen, 8, tidx, tmin)
      ensures iret == 0 <==> PhaseHasRoom(Rows(), 8, 7, tlen)
    {
      tidx, tmin, iret := UNCHOSEN, 0xFF, 0;
      for i := 0 to 8
        invariant BestSoFar(Rows(), 8, tlen, i, tidx, tmin)
        invariant i > 0 ==> (iret == 0 <==> PhaseHasRoom(Rows(), 8, i - 1, tlen))
      {
        var temp := resfrm[i];
        var tpos;
        PhaseWord8(Rows(), i, tlen);
        iret, tpos := TryPhase(temp, tlen, Rows(), 8, i, tidx, tmin);
        if iret == 0 && tpos < tmin {
          tidx, tmin := i, tpos;
        }
      }
    }

    /** `resfrm_free`. */
    method Free(freq: nat, tpos: nat, tlen: nat)
      requires Valid()
      modifies resfrm
      ensures Rows() == Give(old(Rows()), Grant(freq, tpos, tlen))
    {
      var temp := Mask(tlen, tpos);
      ghost var g, gr := Rows(), Grant(freq, tpos, tlen);
      for i := 0 to 8
        invariant forall f | 0 <= f < i :: resfrm[f] == GiveRow(g[f], gr, f)
        invariant forall f | i <= f < 8 :: resfrm[f] == g[f]
      {
        if FrameTest(freq, i) {
          resfrm[i] := Or(resfrm[i], temp);
          SetRow(g[i], gr, i);
        } else {
          UntouchedRow(g[i], gr, i);
        }
      }
      assert Rows() == Give(g, gr);
    }
  }
}
