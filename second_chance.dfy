/** Second-chance (clock) replacement: every frame carries a reference bit, set when
    its page is loaded or referenced. On a miss a circular pointer sweeps forward,
    clearing set bits (the second chance), and evicts the first frame whose bit is
    clear; the pointer then moves one past the victim. */
module SecondChancePolicy {
  import opened FrameTable
  import opened Traces

  /** The frame `s` places after `p` round a circle of `n` frames (`s <= n`). */
  function Pos(p: int, s: int, n: int): int
  {
    if p + s < n then p + s else p + s - n
  }

  /** How many places after `p` frame `j` lies round a circle of `n` frames. */
  function Offset(j: int, p: int, n: int): int
  {
    if j >= p then j - p else j - p + n
  }

  /** The number of frames a sweep starting at `p` skips from its `d`-th place on: the
      distance to the first frame with a clear bit, or `|bits|` when every bit is set. */
  function SkipFrom(bits: seq<bool>, p: nat, d: nat): (r: nat)
    requires p < |bits| && d <= |bits|
    ensures d <= r <= |bits|
    decreases |bits| - d
  {
    if d == |bits| then d
    else if !bits[Pos(p, d, |bits|)] then d
    else SkipFrom(bits, p, d + 1)
  }

  /** The number of frames the sweep of a miss skips when it starts at `p`. */
  function Skip(bits: seq<bool>, p: nat): (d: nat)
    requires p < |bits|
    ensures d <= |bits|
  {
    SkipFrom(bits, p, 0)
  }

  /** The bits after a sweep from `p` has skipped `d` frames: those it passed are clear,
      the others as they were. */
  function Cleared(bits: seq<bool>, p: nat, d: nat): (c: seq<bool>)
    requires p < |bits|
    ensures |c| == |bits|
  {
    seq(|bits|, j requires 0 <= j < |bits| => if Offset(j, p, |bits|) < d then false else bits[j])
  }

  /** The simulator's state: the frames, their reference bits, the clock pointer and
      the fault count. */
  datatype ClockState = ClockState(frames: seq<int>, refBits: seq<bool>, pointer: int, faults: nat)

  ghost predicate Valid(st: ClockState)
  {
    |st.frames| > 0 && |st.refBits| == |st.frames| && 0 <= st.pointer < |st.frames|
  }

  /** One reference: a hit sets the bit of the frame holding the page; a miss counts a
      fault, sweeps from the pointer clearing set bits up to the first clear one (all
      the way round, back to the pointer, when every bit is set), loads the page there
      with its bit set, and leaves the pointer one past it. */
  function ClockStep(st: ClockState, page: int): ClockState
    requires Valid(st)
  {
    var idx := IndexOf(st.frames, page);
    if idx >= 0 then st.(refBits := st.refBits[idx := true])
    else
      var n := |st.frames|;
      var d := Skip(st.refBits, st.pointer);
      var v := Pos(st.pointer, d, n);
      ClockState(st.frames[v := page], Cleared(st.refBits, st.pointer, d)[v := true], Pos(v, 1, n), st.faults + 1)
  }

  /** The state after serving all of `refs` with `size` initially empty frames, all
      bits clear and the pointer at frame 0. */
  function ClockRun(refs: seq<int>, size: nat): (st: ClockState)
    requires size > 0
    ensures Valid(st) && |st.frames| == size
  {
    if refs == [] then ClockState(seq(size, _ => Empty), seq(size, _ => false), 0, 0)
    else ClockStep(ClockRun(refs[..|refs| - 1], size), refs[|refs| - 1])
  }

  /** The sweep of a miss: while the frame at the pointer has its bit set, clear it and
      advance the pointer round the circle. Ends at the first frame found with a clear
      bit, every bit passed on the way now clear. */
  method Sweep(refBits: array<bool>, pointer: int) returns (p: int)
    requires 0 <= pointer < refBits.Length
    modifies refBits
    ensures p == Pos(pointer, Skip(old(refBits[..]), pointer), refBits.Length)
    ensures refBits[..] == Cleared(old(refBits[..]), pointer, Skip(old(refBits[..]), pointer))
  {
    ghost var bits := refBits[..];
    ghost var n := refBits.Length;
    ghost var d := Skip(bits, pointer);
    SkipFromSpec(bits, pointer, 0);
    ghost var s := 0;
    assert refBits[..] == Cleared(bits, pointer, 0);
    p := pointer;
    while refBits[p]
      invariant 0 <= s <= d && 0 <= p < n
      invariant p == Pos(pointer, s, n)
      invariant refBits[..] == Cleared(bits, pointer, s)
      decreases d - s
    {
      ClearedNext(bits, pointer, s);
      refBits[p] := false;
      NextSlot(p, n);
      p := (p + 1) % refBits.Length;
      s := s + 1;
    }
  }

  /** The body of the simulator's loop: on a hit set the frame's bit; on a miss count a
      fault, sweep, load the page at the pointer with its bit set and advance the
      pointer. */
  method ServeReference(frames: array<int>, refBits: array<bool>, pointer: int, faults: int, page: int)
    returns (pointer': int, faults': int)
    requires frames.Length == refBits.Length && 0 <= pointer < frames.Length
    requires faults >= 0
    modifies frames, refBits
    ensures faults' >= 0 && 0 <= pointer' < frames.Length
    ensures ClockState(frames[..], refBits[..], pointer', faults') ==
      ClockStep(ClockState(old(frames[..]), old(refBits[..]), pointer, faults), page)
  {
    var size := frames.Length;
    var frameNo := Locate(frames, size, page);
    assert frames[..size] == frames[..];
    if frameNo >= 0 {
      refBits[frameNo] := true;
      return pointer, faults;
    }
    faults' := faults + 1;
    pointer' := Sweep(refBits, pointer);
    frames[pointer'] := page;
    refBits[pointer'] := true;
    NextSlot(pointer', size);
    pointer' := (pointer' + 1) % size;
  }

  /** The simulator: one pass over the trace with `size` frames, returning the number of
      page faults. */
  method SecondChance(refs: seq<int>, size: int) returns (faults: int)
    requires size >= 1
    ensures faults == ClockRun(refs, size).faults
  {
    faults := 0;
    var frames := new int[size](_ => Empty);
    var refBits := new bool[size](_ => false);
    var pointer := 0;
    var i := 0;
    while i < |refs|
      invariant 0 <= i <= |refs| && faults >= 0 && 0 <= pointer < size
      invariant ClockState(frames[..], refBits[..], pointer, faults) == ClockRun(refs[..i], size)
    {
      ClockRunPrefix(refs, i, size);
      pointer, faults := ServeReference(frames, refBits, pointer, faults, refs[i]);
      i := i + 1;
    }
    assert refs[..|refs|] == refs;
  }

  /** Serving one more reference is one more step. */
  lemma ClockRunPrefix(refs: seq<int>, k: nat, size: nat)
    requires size > 0 && k < |refs|
    ensures ClockRun(refs[..k + 1], size) == ClockStep(ClockRun(refs[..k], size), refs[k])
  {
    assert refs[..k + 1][..k] == refs[..k];
  }

  /** Places round the circle: the frame `s` places after `p` lies `s` places after
      `p`, and only it does. */
  lemma PosOffset(p: int, s: int, n: int)
    requires 0 <= p < n && 0 <= s < n
    ensures 0 <= Pos(p, s, n) < n && Offset(Pos(p, s, n), p, n) == s
    ensures forall j :: 0 <= j < n && Offset(j, p, n) == s ==> j == Pos(p, s, n)
  {
  }

  /** The sweep from `d` on stops exactly at the first clear bit: every frame it skips
      has its bit set, and unless it went all the way round the frame it stops at has
      a clear bit. */
  lemma {:induction false} SkipFromSpec(bits: seq<bool>, p: nat, d: nat)
    requires p < |bits| && d <= |bits|
    ensures forall s :: d <= s < SkipFrom(bits, p, d) ==> bits[Pos(p, s, |bits|)]
    ensures SkipFrom(bits, p, d) < |bits| ==> !bits[Pos(p, SkipFrom(bits, p, d), |bits|)]
    decreases |bits| - d
  {
    if d < |bits| && bits[Pos(p, d, |bits|)] {
      SkipFromSpec(bits, p, d + 1);
    }
  }

  /** Clearing the frame `s` places after `p` extends the cleared stretch by one. */
  lemma ClearedNext(bits: seq<bool>, p: nat, s: nat)
    requires p < |bits| && s < |bits|
    ensures Cleared(bits, p, s + 1) == Cleared(bits, p, s)[Pos(p, s, |bits|) := false]
  {
    PosOffset(p, s, |bits|);
  }

  /** On a miss the sweep does what its name promises: the victim is the first frame
      from the pointer whose bit is clear, or the pointer's own frame when every bit is
      set; the frames passed before it had their bit set and lose it (except the
      pointer's own frame when the sweep went all the way round, for it is the victim),
      the victim's bit is set, every other bit and frame is unchanged, and the pointer
      ends one past the victim. */
  lemma ClockMissVictim(st: ClockState, page: int)
    requires Valid(st) && page !in st.frames
    ensures var n := |st.frames|;
      var d := Skip(st.refBits, st.pointer);
      var v := Pos(st.pointer, d, n);
      var st' := ClockStep(st, page);
      (d < n ==> !st.refBits[v]) &&
      (d == n ==> v == st.pointer && forall j :: 0 <= j < n ==> st.refBits[j]) &&
      (forall s :: 0 <= s < d ==> st.refBits[Pos(st.pointer, s, n)]) &&
      (forall s :: 0 <= s < d && Pos(st.pointer, s, n) != v ==> !st'.refBits[Pos(st.pointer, s, n)]) &&
      st'.frames[v] == page && st'.refBits[v] &&
      (forall j :: 0 <= j < n && j != v ==> st'.frames[j] == st.frames[j]) &&
      (forall j :: 0 <= j < n && j != v && d <= Offset(j, st.pointer, n) ==> st'.refBits[j] == st.refBits[j]) &&
      st'.pointer == Pos(v, 1, n)
  {
    var n := |st.frames|;
    var d := Skip(st.refBits, st.pointer);
    var v := Pos(st.pointer, d, n);
    SkipFromSpec(st.refBits, st.pointer, 0);
    forall s | 0 <= s < d
      ensures Pos(st.pointer, s, n) != v ==> Offset(Pos(st.pointer, s, n), st.pointer, n) < d
    {
      PosOffset(st.pointer, s, n);
    }
    if d == n {
      forall j | 0 <= j < n ensures st.refBits[j] {
        var s := Offset(j, st.pointer, n);
        PosOffset(st.pointer, s, n);
      }
    }
  }

  /** A step serves its reference as every policy must. */
  lemma ClockStepServes(st: ClockState, page: int)
    requires Valid(st)
    ensures ServesReference(st.frames, st.faults, ClockStep(st, page).frames, ClockStep(st, page).faults, page)
  {
    if page !in st.frames {
      var v := Pos(st.pointer, Skip(st.refBits, st.pointer), |st.frames|);
      assert Overwrites(st.frames, ClockStep(st, page).frames, v, page);
    }
  }

  /** Over a trace of page numbers the bookkeeping invariant holds. */
  lemma {:induction false} ClockRunAccounted(refs: seq<int>, size: nat)
    requires size > 0 && NonNegative(refs)
    ensures Accounted(ClockRun(refs, size).frames, ClockRun(refs, size).faults, refs)
  {
    if refs == [] {
      AccountedInitially(size);
    } else {
      var pre := refs[..|refs| - 1];
      var page := refs[|refs| - 1];
      assert refs == pre + [page];
      ClockRunAccounted(pre, size);
      var st := ClockRun(pre, size);
      ClockStepServes(st, page);
      ServingKeepsAccounted(st.frames, st.faults, ClockRun(refs, size).frames, ClockRun(refs, size).faults, pre, page);
    }
  }

  /** While fewer than `size` faults have occurred the pointer sits at the first empty
      frame and no empty frame has its bit set, so the frames are filled in index
      order. */
  ghost predicate WarmingUp(st: ClockState)
    requires Valid(st)
  {
    FilledInOrder(st.frames, st.faults) &&
    (st.faults < |st.frames| ==> st.pointer == st.faults) &&
    (forall j :: 0 <= j < |st.frames| && st.frames[j] == Empty ==> !st.refBits[j])
  }

  /** On a trace of page numbers the frames are filled in index order. */
  lemma {:induction false} ClockFillsInOrder(refs: seq<int>, size: nat)
    requires size > 0 && NonNegative(refs)
    ensures WarmingUp(ClockRun(refs, size))
  {
    if refs != [] {
      var pre := refs[..|refs| - 1];
      var page := refs[|refs| - 1];
      assert page == refs[|refs| - 1] && page >= 0;
      ClockFillsInOrder(pre, size);
      var st := ClockRun(pre, size);
      if page !in st.frames {
        if st.faults < size {
          assert !st.refBits[st.pointer];
          assert Skip(st.refBits, st.pointer) == 0;
        }
      }
    }
  }

  /** With a single frame the policy faults exactly when the page differs from the
      previous reference, and the frame holds the latest page. */
  lemma {:induction false} ClockSingleFrame(refs: seq<int>)
    requires NonNegative(refs)
    ensures ClockRun(refs, 1).faults == Changes(refs)
    ensures refs != [] ==> ClockRun(refs, 1).frames == [refs[|refs| - 1]]
  {
    if refs != [] {
      var pre := refs[..|refs| - 1];
      ClockSingleFrame(pre);
      if |refs| > 1 {
        assert pre[|pre| - 1] == refs[|refs| - 2];
      }
    }
  }

  /** A hit only sets the bit of the frame holding the page. */
  lemma ClockHit(st: ClockState, page: int, idx: nat)
    requires Valid(st) && idx < |st.frames| && st.frames[idx] == page
    requires forall j :: 0 <= j < idx ==> st.frames[j] != page
    ensures ClockStep(st, page) == st.(refBits := st.refBits[idx := true])
  {
  }

  /** A miss when the pointer's frame has a clear bit: nothing is swept, the page
      replaces that frame's page with its bit set, and the pointer moves on by one. */
  lemma ClockMissAtPointer(st: ClockState, page: int)
    requires Valid(st) && page !in st.frames && !st.refBits[st.pointer]
    ensures ClockStep(st, page) == ClockState(st.frames[st.pointer := page], st.refBits[st.pointer := true],
      Pos(st.pointer, 1, |st.frames|), st.faults + 1)
  {
    assert Cleared(st.refBits, st.pointer, 0) == st.refBits;
  }

  /** When every bit is set the sweep goes all the way round. */
  lemma {:induction false} SkipFromAllSet(bits: seq<bool>, p: nat, d: nat)
    requires p < |bits| && d <= |bits| && false !in bits
    ensures SkipFrom(bits, p, d) == |bits|
    decreases |bits| - d
  {
    if d < |bits| {
      assert bits[Pos(p, d, |bits|)] in bits;
      SkipFromAllSet(bits, p, d + 1);
    }
  }

  /** A miss when every bit is set: the sweep clears every bit and comes back to the
      pointer, so the policy falls back to FIFO order and replaces the pointer's
      frame, whose bit alone ends up set. */
  lemma ClockMissAllSet(st: ClockState, page: int)
    requires Valid(st) && page !in st.frames && false !in st.refBits
    ensures ClockStep(st, page) == ClockState(st.frames[st.pointer := page],
      seq(|st.frames|, j => j == st.pointer), Pos(st.pointer, 1, |st.frames|), st.faults + 1)
  {
    SkipFromAllSet(st.refBits, st.pointer, 0);
    PosOffset(st.pointer, 0, |st.frames|);
  }

  /** A run is fixed by its steps: if `states` starts in the initial state and each
      reference takes it from one state to the next, the run ends in the last one. */
  lemma {:induction false} ClockRunThrough(refs: seq<int>, size: nat, states: seq<ClockState>)
    requires size > 0 && |states| == |refs| + 1
    requires states[0] == ClockState(seq(size, _ => Empty), seq(size, _ => false), 0, 0)
    requires forall k :: 0 <= k < |refs| ==> Valid(states[k]) && ClockStep(states[k], refs[k]) == states[k + 1]
    ensures ClockRun(refs, size) == states[|refs|]
    decreases |refs|
  {
    if refs != [] {
      ClockRunThrough(refs[..|refs| - 1], size, states[..|states| - 1]);
    }
  }

  /** The states second chance passes through on `BeladyTrace` with three frames: the
      initial state, then the state after each reference. */
  const BeladyThreeFrameStates: seq<ClockState> := [
    ClockState([-1, -1, -1], [false, false, false], 0, 0),
    ClockState([1, -1, -1], [true, false, false], 1, 1),
    ClockState([1, 2, -1], [true, true, false], 2, 2),
    ClockState([1, 2, 3], [true, true, true], 0, 3),
    ClockState([4, 2, 3], [true, false, false], 1, 4),
    ClockState([4, 1, 3], [true, true, false], 2, 5),
    ClockState([4, 1, 2], [true, true, true], 0, 6),
    ClockState([5, 1, 2], [true, false, false], 1, 7),
    ClockState([5, 1, 2], [true, true, false], 1, 7),
    ClockState([5, 1, 2], [true, true, true], 1, 7),
    ClockState([5, 3, 2], [false, true, false], 2, 8),
    ClockState([5, 3, 4], [false, true, true], 0, 9),
    ClockState([5, 3, 4], [true, true, true], 0, 9)]

  /** References 1 and 2 of `BeladyTrace` with three frames take each state of the
      table to the next. (`states` is a parameter equal to the table rather than the
      table itself, so that the verifier does not evaluate every step in full.) */
  lemma ClockBeladyThreeSteps0(states: seq<ClockState>)
    requires states == BeladyThreeFrameStates
    ensures forall k :: 0 <= k < 2 ==> Valid(states[k]) && ClockStep(states[k], BeladyTrace[k]) == states[k + 1]
  {
    forall k | 0 <= k < 2
      ensures Valid(states[k]) && ClockStep(states[k], BeladyTrace[k]) == states[k + 1]
    {
      if k == 0 {
        ClockMissAtPointer(states[0], 1);
      } else if k == 1 {
        ClockMissAtPointer(states[1], 2);
      }
    }
  }

  /** References 3 and 4 of `BeladyTrace` with three frames take each state of
      the table to the next. */
  lemma ClockBeladyThreeSteps2(states: seq<ClockState>)
    requires states == BeladyThreeFrameStates
    ensures forall k :: 2 <= k < 4 ==> Valid(states[k]) && ClockStep(states[k], BeladyTrace[k]) == states[k + 1]
  {
    forall k | 2 <= k < 4
      ensures Valid(states[k]) && ClockStep(states[k], BeladyTrace[k]) == states[k + 1]
    {
      if k == 2 {
        ClockMissAtPointer(states[2], 3);
      } else if k == 3 {
        ClockMissAllSet(states[3], 4);
      }
    }
  }

  /** References 5 and 6 of `BeladyTrace` with three frames take each state of
      the table to the next. */
  lemma ClockBeladyThreeSteps4(states: seq<ClockState>)
    requires states == BeladyThreeFrameStates
    ensures forall k :: 4 <= k < 6 ==> Valid(states[k]) && ClockStep(states[k], BeladyTrace[k]) == states[k + 1]
  {
    forall k | 4 <= k < 6
      ensures Valid(states[k]) && ClockStep(states[k], BeladyTrace[k]) == states[k + 1]
    {
      if k == 4 {
        ClockMissAtPointer(states[4], 1);
      } else if k == 5 {
        ClockMissAtPointer(states[5], 2);
      }
    }
  }

  /** References 7 and 8 of `BeladyTrace` with three frames take each state of
      the table to the next. */
  lemma ClockBeladyThreeSteps6(states: seq<ClockState>)
    requires states == BeladyThreeFrameStates
    ensures forall k :: 6 <= k < 8 ==> Valid(states[k]) && ClockStep(states[k], BeladyTrace[k]) == states[k + 1]
  {
    forall k | 6 <= k < 8
      ensures Valid(states[k]) && ClockStep(states[k], BeladyTrace[k]) == states[k + 1]
    {
      if k == 6 {
        ClockMissAllSet(states[6], 5);
      } else if k == 7 {
        ClockHit(states[7], 1, 1);
      }
    }
  }

  /** References 9 and 10 of `BeladyTrace` with three frames take each state of
      the table to the next. */
  lemma ClockBeladyThreeSteps8(states: seq<ClockState>)
    requires states == BeladyThreeFrameStates
    ensures forall k :: 8 <= k < 10 ==> Valid(states[k]) && ClockStep(states[k], BeladyTrace[k]) == states[k + 1]
  {
    forall k | 8 <= k < 10
      ensures Valid(states[k]) && ClockStep(states[k], BeladyTrace[k]) == states[k + 1]
    {
      if k == 8 {
        ClockHit(states[8], 2, 2);
      } else if k == 9 {
        ClockMissAllSet(states[9], 3);
      }
    }
  }

  /** References 11 and 12 of `BeladyTrace` with three frames take each state of
      the table to the next. */
  lemma ClockBeladyThreeSteps10(states: seq<ClockState>)
    requires states == BeladyThreeFrameStates
    ensures forall k :: 10 <= k < 12 ==> Valid(states[k]) && ClockStep(states[k], BeladyTrace[k]) == states[k + 1]
  {
    forall k | 10 <= k < 12
      ensures Valid(states[k]) && ClockStep(states[k], BeladyTrace[k]) == states[k + 1]
    {
      if k == 10 {
        ClockMissAtPointer(states[10], 4);
      } else if k == 11 {
        ClockHit(states[11], 5, 0);
      }
    }
  }

  /** The states second chance passes through on `BeladyTrace` with four frames: the
      initial state, then the state after each reference. */
  const BeladyFourFrameStates: seq<ClockState> := [
    ClockState([-1, -1, -1, -1], [false, false, false, false], 0, 0),
    ClockState([1, -1, -1, -1], [true, false, false, false], 1, 1),
    ClockState([1, 2, -1, -1], [true, true, false, false], 2, 2),
    ClockState([1, 2, 3, -1], [true, true, true, false], 3, 3),
    ClockState([1, 2, 3, 4], [true, true, true, true], 0, 4),
    ClockState([1, 2, 3, 4], [true, true, true, true], 0, 4),
    ClockState([1, 2, 3, 4], [true, true, true, true], 0, 4),
    ClockState([5, 2, 3, 4], [true, false, false, false], 1, 5),
    ClockState([5, 1, 3, 4], [true, true, false, false], 2, 6),
    ClockState([5, 1, 2, 4], [true, true, true, false], 3, 7),
    ClockState([5, 1, 2, 3], [true, true, true, true], 0, 8),
    ClockState([4, 1, 2, 3], [true, false, false, false], 1, 9),
    ClockState([4, 5, 2, 3], [true, true, false, false], 2, 10)]

  /** References 1 and 2 of `BeladyTrace` with four frames take each state of the
      table to the next. (`states` is a parameter equal to the table rather than the
      table itself, so that the verifier does not evaluate every step in full.) */
  lemma ClockBeladyFourSteps0(states: seq<ClockState>)
    requires states == BeladyFourFrameStates
    ensures forall k :: 0 <= k < 2 ==> Valid(states[k]) && ClockStep(states[k], BeladyTrace[k]) == states[k + 1]
  {
    forall k | 0 <= k < 2
      ensures Valid(states[k]) && ClockStep(states[k], BeladyTrace[k]) == states[k + 1]
    {
      if k == 0 {
        ClockMissAtPointer(states[0], 1);
      } else if k == 1 {
        ClockMissAtPointer(states[1], 2);
      }
    }
  }

  /** References 3 and 4 of `BeladyTrace` with four frames take each state of
      the table to the next. */
  lemma ClockBeladyFourSteps2(states: seq<ClockState>)
    requires states == BeladyFourFrameStates
    ensures forall k :: 2 <= k < 4 ==> Valid(states[k]) && ClockStep(states[k], BeladyTrace[k]) == states[k + 1]
  {
    forall k | 2 <= k < 4
      ensures Valid(states[k]) && ClockStep(states[k], BeladyTrace[k]) == states[k + 1]
    {
      if k == 2 {
        ClockMissAtPointer(states[2], 3);
      } else if k == 3 {
        ClockMissAtPointer(states[3], 4);
      }
    }
  }

  /** References 5 and 6 of `BeladyTrace` with four frames take each state of
      the table to the next. */
  lemma ClockBeladyFourSteps4(states: seq<ClockState>)
    requires states == BeladyFourFrameStates
    ensures forall k :: 4 <= k < 6 ==> Valid(states[k]) && ClockStep(states[k], BeladyTrace[k]) == states[k + 1]
  {
    forall k | 4 <= k < 6
      ensures Valid(states[k]) && ClockStep(states[k], BeladyTrace[k]) == states[k + 1]
    {
      if k == 4 {
        ClockHit(states[4], 1, 0);
      } else if k == 5 {
        ClockHit(states[5], 2, 1);
      }
    }
  }

  /** References 7 and 8 of `BeladyTrace` with four frames take each state of
      the table to the next. */
  lemma ClockBeladyFourSteps6(states: seq<ClockState>)
    requires states == BeladyFourFrameStates
    ensures forall k :: 6 <= k < 8 ==> Valid(states[k]) && ClockStep(states[k], BeladyTrace[k]) == states[k + 1]
  {
    forall k | 6 <= k < 8
      ensures Valid(states[k]) && ClockStep(states[k], BeladyTrace[k]) == states[k + 1]
    {
      if k == 6 {
        ClockMissAllSet(states[6], 5);
      } else if k == 7 {
        ClockMissAtPointer(states[7], 1);
      }
    }
  }

  /** References 9 and 10 of `BeladyTrace` with four frames take each state of
      the table to the next. */
  lemma ClockBeladyFourSteps8(states: seq<ClockState>)
    requires states == BeladyFourFrameStates
    ensures forall k :: 8 <= k < 10 ==> Valid(states[k]) && ClockStep(states[k], BeladyTrace[k]) == states[k + 1]
  {
    forall k | 8 <= k < 10
      ensures Valid(states[k]) && ClockStep(states[k], BeladyTrace[k]) == states[k + 1]
    {
      if k == 8 {
        ClockMissAtPointer(states[8], 2);
      } else if k == 9 {
        ClockMissAtPointer(states[9], 3);
      }
    }
  }

  /** References 11 and 12 of `BeladyTrace` with four frames take each state of
      the table to the next. */
  lemma ClockBeladyFourSteps10(states: seq<ClockState>)
    requires states == BeladyFourFrameStates
    ensures forall k :: 10 <= k < 12 ==> Valid(states[k]) && ClockStep(states[k], BeladyTrace[k]) == states[k + 1]
  {
    forall k | 10 <= k < 12
      ensures Valid(states[k]) && ClockStep(states[k], BeladyTrace[k]) == states[k + 1]
    {
      if k == 10 {
        ClockMissAllSet(states[10], 4);
      } else if k == 11 {
        ClockMissAtPointer(states[11], 5);
      }
    }
  }

  /** The run of second chance on `BeladyTrace` with three frames passes through
      the table and ends in its last state. */
  lemma ClockBeladyThreeFrames()
    ensures ClockRun(BeladyTrace, 3) == BeladyThreeFrameStates[12]
  {
    var states := BeladyThreeFrameStates;
    ClockBeladyThreeSteps0(states);
    ClockBeladyThreeSteps2(states);
    ClockBeladyThreeSteps4(states);
    ClockBeladyThreeSteps6(states);
    ClockBeladyThreeSteps8(states);
    ClockBeladyThreeSteps10(states);
    ClockRunThrough(BeladyTrace, 3, states);
  }

  /** The run of second chance on `BeladyTrace` with four frames passes through
      the table and ends in its last state. */
  lemma ClockBeladyFourFrames()
    ensures ClockRun(BeladyTrace, 4) == BeladyFourFrameStates[12]
  {
    var states := BeladyFourFrameStates;
    ClockBeladyFourSteps0(states);
    ClockBeladyFourSteps2(states);
    ClockBeladyFourSteps4(states);
    ClockBeladyFourSteps6(states);
    ClockBeladyFourSteps8(states);
    ClockBeladyFourSteps10(states);
    ClockRunThrough(BeladyTrace, 4, states);
  }

  /** Second chance shows Belady's anomaly too: on 1 2 3 4 1 2 5 1 2 3 4 5 three
      frames give 9 faults and four frames give 10. */
  lemma ClockBeladyAnomaly()
    ensures ClockRun(BeladyTrace, 3).faults == 9
    ensures ClockRun(BeladyTrace, 4).faults == 10
  {
    ClockBeladyThreeFrames();
    ClockBeladyFourFrames();
  }
}
