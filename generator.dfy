/** The synthetic reference-string generator: pages are drawn from a window of `e`
    consecutive pages starting at a locus in `[0, P - e]`; a draw equal to the previous
    page is rejected and drawn again; after every `m`-th accepted page the locus either
    slides one place (wrapping round) or jumps to a drawn position. The random source is
    supplied by the caller: one draw per candidate page and one move per relocation. */
module LocalityModel {
  import opened FrameTable
  import opened Traces

  /** What a relocation of the locus does: slide to the next position, or jump to the
      position a draw picks. */
  datatype Move = Slide | Jump(target: nat)

  /** The locus after a relocation, among `positions` possible loci. */
  function Relocate(locus: int, move: Move, positions: int): (l: int)
    requires 0 <= locus < positions
    ensures 0 <= l < positions
    ensures move.Slide? ==> l == if locus + 1 == positions then 0 else locus + 1
  {
    match move
    case Slide => (locus + 1) % positions
    case Jump(target) => target % positions
  }

  /** The generator's state after some draws: the pages accepted so far, the locus each
      was drawn from, the current locus, the draws and moves consumed, and whether the
      moves ran out at a relocation. */
  datatype Gen = Gen(refs: seq<int>, loci: seq<int>, locus: int, drawn: nat, moved: nat, halted: bool)

  /** One pass of the generator's loop with candidate draw `draw`: nothing once `len`
      pages are written or the moves ran out; otherwise the candidate is the window
      position `draw % e` past the locus; a candidate equal to the previous page is
      rejected; an accepted one is appended and, when the count becomes a multiple of
      `m`, the locus is relocated by the next move. */
  function GenStep(g: Gen, P: int, e: int, m: int, len: nat, draw: nat, moves: seq<Move>): Gen
    requires 0 < e <= P && m > 0 && 0 <= g.locus <= P - e && g.moved <= |moves|
  {
    if g.halted || |g.refs| >= len then g
    else
      var next := draw % e + g.locus;
      if g.refs != [] && next == g.refs[|g.refs| - 1] then g.(drawn := g.drawn + 1)
      else
        var refs := g.refs + [next];
        var loci := g.loci + [g.locus];
        if |refs| % m != 0 then Gen(refs, loci, g.locus, g.drawn + 1, g.moved, false)
        else if g.moved == |moves| then Gen(refs, loci, g.locus, g.drawn + 1, g.moved, true)
        else Gen(refs, loci, Relocate(g.locus, moves[g.moved], P - e + 1), g.drawn + 1, g.moved + 1, false)
  }

  /** The state after the draws `draws`, starting with no pages and the locus at 0. */
  function GenRun(P: int, e: int, m: int, len: nat, draws: seq<nat>, moves: seq<Move>): (g: Gen)
    requires 0 < e <= P && m > 0
    ensures 0 <= g.locus <= P - e && g.moved <= |moves|
  {
    if draws == [] then Gen([], [], 0, 0, 0, false)
    else GenStep(GenRun(P, e, m, len, draws[..|draws| - 1], moves), P, e, m, len, draws[|draws| - 1], moves)
  }

  /** One pass of the generator's loop: draw a candidate from the window at the locus;
      if it differs from the previous page write it and, on every `m`-th page, relocate
      the locus by the next move, halting when no move is left. */
  method ConsiderDraw(refStr: array<int>, count: int, locus: int, mv: nat, P: int, e: int, m: int,
                      draw: nat, moves: seq<Move>, ghost loci: seq<int>, ghost drawn: nat)
    returns (count': int, locus': int, mv': nat, halted': bool)
    requires 0 < e <= P && m > 0 && 0 <= locus <= P - e && mv <= |moves| && 0 <= count < refStr.Length
    modifies refStr
    ensures 0 <= count' <= refStr.Length
    ensures var g' := GenStep(Gen(old(refStr[..count]), loci, locus, drawn, mv, false), P, e, m, refStr.Length, draw, moves);
      g' == Gen(refStr[..count'], g'.loci, locus', drawn + 1, mv', halted')
  {
    count', locus', mv', halted' := count, locus, mv, false;
    var nextRef := draw % e + locus;
    if count == 0 || nextRef != refStr[count - 1] {
      refStr[count] := nextRef;
      count' := count + 1;
      assert refStr[..count'] == old(refStr[..count]) + [nextRef];
      if count' % m == 0 {
        if mv == |moves| {
          halted' := true;
        } else {
          locus' := match moves[mv]
            case Slide => (locus + 1) % (P - e + 1)
            case Jump(target) => target % (P - e + 1);
          mv' := mv + 1;
        }
      }
    }
  }

  /** The generator: fills `refStr` with a reference string of at most `refStr.Length`
      pages and returns how many it wrote, which is fewer only when the draws or the
      moves run out. */
  method GenerateRefString(refStr: array<int>, P: int, e: int, m: int, draws: seq<nat>, moves: seq<Move>)
    returns (count: int)
    requires 0 < e <= P && m > 0
    modifies refStr
    ensures 0 <= count <= refStr.Length
    ensures refStr[..count] == GenRun(P, e, m, refStr.Length, draws, moves).refs
    ensures forall k :: 0 <= k < count ==> 0 <= refStr[k] < P
    ensures NoImmediateRepeat(refStr[..count])
  {
    var locus := 0;
    var d := 0;
    var mv: nat := 0;
    var halted := false;
    count := 0;
    while count < refStr.Length && d < |draws| && !halted
      invariant 0 <= d <= |draws| && 0 <= count <= refStr.Length
      invariant GenRun(P, e, m, refStr.Length, draws[..d], moves) ==
        Gen(refStr[..count], GenRun(P, e, m, refStr.Length, draws[..d], moves).loci, locus, d, mv, halted)
    {
      GenRunPrefix(P, e, m, refStr.Length, draws, moves, d);
      ghost var loci := GenRun(P, e, m, refStr.Length, draws[..d], moves).loci;
      count, locus, mv, halted := ConsiderDraw(refStr, count, locus, mv, P, e, m, draws[d], moves, loci, d);
      d := d + 1;
    }
    GenRunStopped(P, e, m, refStr.Length, draws, moves, d);
    GenRunBounded(P, e, m, refStr.Length, draws, moves);
    GenRunNoImmediateRepeat(P, e, m, refStr.Length, draws, moves);
    assert forall k :: 0 <= k < count ==> refStr[k] == refStr[..count][k];
  }

  /** Consuming one more draw is one more step. */
  lemma GenRunPrefix(P: int, e: int, m: int, len: nat, draws: seq<nat>, moves: seq<Move>, k: nat)
    requires 0 < e <= P && m > 0 && k < |draws|
    ensures GenRun(P, e, m, len, draws[..k + 1], moves) ==
      GenStep(GenRun(P, e, m, len, draws[..k], moves), P, e, m, len, draws[k], moves)
  {
    assert draws[..k + 1][..k] == draws[..k];
  }

  /** Once the generator has stopped (all pages written, moves run out, or every draw
      consumed) further draws change nothing. */
  lemma {:induction false} GenRunStopped(P: int, e: int, m: int, len: nat, draws: seq<nat>, moves: seq<Move>, k: nat)
    requires 0 < e <= P && m > 0 && k <= |draws|
    requires var g := GenRun(P, e, m, len, draws[..k], moves); g.halted || |g.refs| >= len || k == |draws|
    ensures GenRun(P, e, m, len, draws, moves) == GenRun(P, e, m, len, draws[..k], moves)
    decreases |draws| - k
  {
    if k == |draws| {
      assert draws[..k] == draws;
    } else {
      var pre := draws[..|draws| - 1];
      assert pre[..k] == draws[..k];
      GenRunStopped(P, e, m, len, pre, moves, k);
    }
  }

  /** Every page lies in the window of `e` pages at the locus it was drawn from, every
      locus lies in `[0, P - e]`, so every page lies in `[0, P)`; no more than `len`
      pages are written, and no more draws or moves are consumed than supplied. */
  ghost predicate Bounded(g: Gen, P: int, e: int, len: nat, draws: seq<nat>, moves: seq<Move>)
  {
    |g.loci| == |g.refs| <= len && g.drawn <= |draws| && g.moved <= |moves| &&
    0 <= g.locus <= P - e &&
    forall k :: 0 <= k < |g.refs| ==> 0 <= g.loci[k] <= P - e && g.loci[k] <= g.refs[k] < g.loci[k] + e && 0 <= g.refs[k] < P
  }

  /** The generator's output respects its parameters. */
  lemma {:induction false} GenRunBounded(P: int, e: int, m: int, len: nat, draws: seq<nat>, moves: seq<Move>)
    requires 0 < e <= P && m > 0
    ensures Bounded(GenRun(P, e, m, len, draws, moves), P, e, len, draws, moves)
    ensures NonNegative(GenRun(P, e, m, len, draws, moves).refs)
  {
    if draws != [] {
      GenRunBounded(P, e, m, len, draws[..|draws| - 1], moves);
    }
    var g := GenRun(P, e, m, len, draws, moves);
    assert forall k :: 0 <= k < |g.refs| ==> 0 <= g.refs[k] < P;
  }

  /** No page of the generated string equals its predecessor. */
  lemma {:induction false} GenRunNoImmediateRepeat(P: int, e: int, m: int, len: nat, draws: seq<nat>, moves: seq<Move>)
    requires 0 < e <= P && m > 0
    ensures NoImmediateRepeat(GenRun(P, e, m, len, draws, moves).refs)
  {
    if draws != [] {
      GenRunNoImmediateRepeat(P, e, m, len, draws[..|draws| - 1], moves);
    }
  }

  /** The locus moves only right after the count of accepted pages reaches a multiple
      of `m`, consuming exactly one move, and then goes where that move says: one place
      on (wrapping round) for a slide, the drawn position modulo `P - e + 1` for a jump.
      Conversely, an accepted page that brings the count to a multiple of `m` does
      relocate the locus whenever a move is left. */
  lemma GenStepRelocation(g: Gen, P: int, e: int, m: int, len: nat, draw: nat, moves: seq<Move>)
    requires 0 < e <= P && m > 0 && 0 <= g.locus <= P - e && g.moved <= |moves|
    ensures var g' := GenStep(g, P, e, m, len, draw, moves);
      (g'.moved == g.moved && g'.locus == g.locus) ||
      (g'.moved == g.moved + 1 && |g'.refs| == |g.refs| + 1 && |g'.refs| % m == 0 &&
       g'.locus == Relocate(g.locus, moves[g.moved], P - e + 1))
    ensures var g' := GenStep(g, P, e, m, len, draw, moves);
      (|g'.refs| == |g.refs| + 1 && |g'.refs| % m == 0 && g.moved < |moves|) ==>
        g'.moved == g.moved + 1 && g'.locus == Relocate(g.locus, moves[g.moved], P - e + 1)
  {
  }

  /** Over a whole run the locus is relocated exactly once per `m` accepted pages:
      unless the moves ran out, the number of moves used is the number of complete
      blocks of `m` pages written. */
  lemma {:induction false} GenRunRelocatesEveryM(P: int, e: int, m: int, len: nat, draws: seq<nat>, moves: seq<Move>)
    requires 0 < e <= P && m > 0
    ensures var g := GenRun(P, e, m, len, draws, moves);
      g.halted || g.moved * m <= |g.refs| < g.moved * m + m
  {
    if draws != [] {
      var pre := draws[..|draws| - 1];
      GenRunRelocatesEveryM(P, e, m, len, pre, moves);
      var g0 := GenRun(P, e, m, len, pre, moves);
      var g := GenStep(g0, P, e, m, len, draws[|draws| - 1], moves);
      GenStepRelocation(g0, P, e, m, len, draws[|draws| - 1], moves);
      if !g.halted && |g.refs| != |g0.refs| {
        var c, b := |g.refs|, g0.moved * m;
        assert c == |g0.refs| + 1 && b <= c - 1 < b + m;
        assert (g0.moved + 1) * m == b + m;
        if c < b + m {
          ModUnique(c, m, g0.moved, c - b);
        } else {
          ModUnique(c, m, g0.moved + 1, 0);
        }
      }
    }
  }

  /** The generator writes exactly `len` pages unless its random source runs out: every
      draw is consumed, or the moves run out at a relocation. */
  lemma {:induction false} GenRunComplete(P: int, e: int, m: int, len: nat, draws: seq<nat>, moves: seq<Move>)
    requires 0 < e <= P && m > 0
    ensures var g := GenRun(P, e, m, len, draws, moves);
      |g.refs| == len || g.drawn == |draws| || g.halted
  {
    if draws != [] {
      var pre := draws[..|draws| - 1];
      GenRunComplete(P, e, m, len, pre, moves);
      GenRunBounded(P, e, m, len, pre, moves);
    }
  }

  /** With a window of a single page and relocations less often than every page the
      loop never finishes: the locus never leaves 0, so after the first page (page 0)
      every further draw repeats it and is rejected, and at most one page is ever
      written. */
  lemma {:induction false} GenStuckOnSinglePageWindow(P: int, m: int, len: nat, draws: seq<nat>, moves: seq<Move>)
    requires 0 < P && m > 1
    ensures var g := GenRun(P, 1, m, len, draws, moves);
      g.locus == 0 && g.moved == 0 && !g.halted &&
      |g.refs| <= 1 && (g.refs != [] ==> g.refs == [0]) &&
      (draws != [] && len > 0 ==> g.refs == [0])
  {
    if draws != [] {
      GenStuckOnSinglePageWindow(P, m, len, draws[..|draws| - 1], moves);
    }
  }
}
