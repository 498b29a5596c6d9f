/** First-in first-out replacement: a miss loads the page at a circular insertion
    pointer, which then advances by one. */
module FifoPolicy {
  import opened FrameTable
  import opened Traces

  /** The simulator's state after serving a prefix of the trace: the frames, the
      circular insertion pointer `front` and the fault count. */
  datatype FifoState = FifoState(frames: seq<int>, front: int, faults: nat)

  ghost predicate Valid(st: FifoState)
  {
    0 <= st.front < |st.frames|
  }

  /** One reference: a resident page changes nothing; otherwise the page is loaded at
      `front`, `front` advances circularly and a fault is counted. */
  function FifoStep(st: FifoState, page: int): FifoState
    requires Valid(st)
  {
    if page in st.frames then st
    else FifoState(st.frames[st.front := page], (st.front + 1) % |st.frames|, st.faults + 1)
  }

  /** The state after serving all of `refs` with `size` initially empty frames. */
  function FifoRun(refs: seq<int>, size: nat): (st: FifoState)
    requires size > 0
    ensures Valid(st) && |st.frames| == size
  {
    if refs == [] then FifoState(seq(size, _ => Empty), 0, 0)
    else FifoStep(FifoRun(refs[..|refs| - 1], size), refs[|refs| - 1])
  }

  /** The pages that faulted, in the order they were loaded. */
  function Loads(refs: seq<int>, size: nat): seq<int>
    requires size > 0
  {
    if refs == [] then []
    else
      var pre := refs[..|refs| - 1];
      var page := refs[|refs| - 1];
      if page in FifoRun(pre, size).frames then Loads(pre, size) else Loads(pre, size) + [page]
  }

  /** The simulator: one pass over the trace with `size` frames, returning the number of
      page faults. */
  method Fifo(refs: seq<int>, size: int) returns (faults: int)
    requires size >= 1
    ensures faults == FifoRun(refs, size).faults
  {
    faults := 0;
    var frames := new int[size](_ => Empty);
    var front := 0;
    var i := 0;
    while i < |refs|
      invariant 0 <= i <= |refs|
      invariant FifoState(frames[..], front, faults) == FifoRun(refs[..i], size)
    {
      assert refs[..i + 1][..i] == refs[..i];
      var pageNo := refs[i];
      var frameNo := Locate(frames, size, pageNo);
      if frameNo < 0 {
        frames[front] := pageNo;
        front := (front + 1) % size;
        faults := faults + 1;
      }
      i := i + 1;
    }
    assert refs[..|refs|] == refs;
  }

  /** A step serves its reference as every policy must; only a miss moves the pointer,
      by exactly one place round the frames. */
  lemma FifoStepServes(st: FifoState, page: int)
    requires Valid(st)
    ensures ServesReference(st.frames, st.faults, FifoStep(st, page).frames, FifoStep(st, page).faults, page)
    ensures page in st.frames ==> FifoStep(st, page).front == st.front
    ensures page !in st.frames ==> FifoStep(st, page).front == (st.front + 1) % |st.frames|
  {
    if page !in st.frames {
      assert Overwrites(st.frames, FifoStep(st, page).frames, st.front, page);
    }
  }

  /** The pointer equals the fault count modulo the number of frames, so it cycles
      through 0 .. size-1 in order. */
  lemma {:induction false} FifoFrontTracksFaults(refs: seq<int>, size: nat)
    requires size > 0
    ensures FifoRun(refs, size).front == FifoRun(refs, size).faults % size
  {
    if refs != [] {
      var pre := refs[..|refs| - 1];
      FifoFrontTracksFaults(pre, size);
      var st := FifoRun(pre, size);
      ModSuccessor(st.faults, size);
    }
  }

  /** Over a trace of page numbers the bookkeeping invariant holds and the frames are
      filled in index order. */
  lemma {:induction false} FifoRunInvariant(refs: seq<int>, size: nat)
    requires size > 0 && NonNegative(refs)
    ensures Accounted(FifoRun(refs, size).frames, FifoRun(refs, size).faults, refs)
    ensures FilledInOrder(FifoRun(refs, size).frames, FifoRun(refs, size).faults)
  {
    if refs == [] {
      AccountedInitially(size);
    } else {
      var pre := refs[..|refs| - 1];
      var page := refs[|refs| - 1];
      assert refs == pre + [page];
      FifoRunInvariant(pre, size);
      var st := FifoRun(pre, size);
      FifoStepServes(st, page);
      ServingKeepsAccounted(st.frames, st.faults, FifoStep(st, page).frames, FifoStep(st, page).faults, pre, page);
      if page !in st.frames {
        FifoFrontTracksFaults(pre, size);
        if st.faults < size {
          ModUnique(st.faults, size, 0, st.faults);
        }
      }
    }
  }

  /** First in, first out, stated without remainders: `base = faults - front` loads
      came before the pointer's current sweep, frame `j` below the pointer holds load
      number `base + j` of this sweep, and frame `j` at or past the pointer still holds
      load `base - size + j` of the previous sweep (when there was one). */
  ghost predicate LoadedInOrder(st: FifoState, loads: seq<int>, size: nat)
    requires Valid(st) && |st.frames| == size
  {
    |loads| == st.faults && st.front <= st.faults &&
    forall j :: 0 <= j < size ==>
      (j < st.front ==> st.frames[j] == loads[st.faults - st.front + j]) &&
      (st.front <= j && 0 <= st.faults - st.front - size + j ==>
        st.frames[j] == loads[st.faults - st.front - size + j])
  }

  /** The frames always hold the most recent loads in pointer order. */
  lemma {:induction false} FifoLoadOrder(refs: seq<int>, size: nat)
    requires size > 0
    ensures LoadedInOrder(FifoRun(refs, size), Loads(refs, size), size)
  {
    if refs != [] {
      var pre := refs[..|refs| - 1];
      var page := refs[|refs| - 1];
      FifoLoadOrder(pre, size);
      var st0 := FifoRun(pre, size);
      if page !in st0.frames {
        var st := FifoRun(refs, size);
        var loads := Loads(refs, size);
        assert loads == Loads(pre, size) + [page];
        assert st.frames == st0.frames[st0.front := page];
        NextSlot(st0.front, size);
      }
    }
  }

  /** Once every frame has been used, the frame at the pointer (the next victim) holds
      the oldest of the last `size` loads. */
  lemma FifoEvictsOldestLoad(refs: seq<int>, size: nat)
    requires size > 0 && size <= FifoRun(refs, size).faults
    ensures |Loads(refs, size)| == FifoRun(refs, size).faults &&
      FifoRun(refs, size).frames[FifoRun(refs, size).front] == Loads(refs, size)[FifoRun(refs, size).faults - size]
  {
    FifoLoadOrder(refs, size);
    var st := FifoRun(refs, size);
    assert st.front <= st.front;
  }

  /** With a single frame FIFO faults exactly when the page differs from the previous
      reference, and the frame holds the latest page. */
  lemma {:induction false} FifoSingleFrame(refs: seq<int>)
    requires NonNegative(refs)
    ensures FifoRun(refs, 1).faults == Changes(refs)
    ensures refs != [] ==> FifoRun(refs, 1).frames == [refs[|refs| - 1]]
  {
    if refs != [] {
      var pre := refs[..|refs| - 1];
      FifoSingleFrame(pre);
      if |refs| > 1 {
        assert pre[|pre| - 1] == refs[|refs| - 2];
      }
    }
  }

  /** Serving one more reference is one more step. */
  lemma FifoRunPrefix(refs: seq<int>, k: nat, size: nat)
    requires size > 0 && k < |refs|
    ensures FifoRun(refs[..k + 1], size) == FifoStep(FifoRun(refs[..k], size), refs[k])
  {
    assert refs[..k + 1][..k] == refs[..k];
  }

  /** FIFO with 3 frames on the first 2 references of `BeladyTrace`. */
  lemma FifoBeladyThreeFrames2()
    ensures FifoRun(BeladyTrace[..2], 3) == FifoState([1, 2, -1], 2, 2)
  {
    assert FifoRun(BeladyTrace[..0], 3) == FifoState([-1, -1, -1], 0, 0);
    FifoRunPrefix(BeladyTrace, 0, 3);
    assert BeladyTrace[0] == 1;
    assert FifoRun(BeladyTrace[..1], 3) == FifoState([1, -1, -1], 1, 1);
    FifoRunPrefix(BeladyTrace, 1, 3);
    assert BeladyTrace[1] == 2;
  }

  /** FIFO with 3 frames on the first 4 references of `BeladyTrace`. */
  lemma FifoBeladyThreeFrames4()
    ensures FifoRun(BeladyTrace[..4], 3) == FifoState([4, 2, 3], 1, 4)
  {
    FifoBeladyThreeFrames2();
    FifoRunPrefix(BeladyTrace, 2, 3);
    assert BeladyTrace[2] == 3;
    assert FifoRun(BeladyTrace[..3], 3) == FifoState([1, 2, 3], 0, 3);
    FifoRunPrefix(BeladyTrace, 3, 3);
    assert BeladyTrace[3] == 4;
  }

  /** FIFO with 3 frames on the first 6 references of `BeladyTrace`. */
  lemma FifoBeladyThreeFrames6()
    ensures FifoRun(BeladyTrace[..6], 3) == FifoState([4, 1, 2], 0, 6)
  {
    FifoBeladyThreeFrames4();
    FifoRunPrefix(BeladyTrace, 4, 3);
    assert BeladyTrace[4] == 1;
    assert FifoRun(BeladyTrace[..5], 3) == FifoState([4, 1, 3], 2, 5);
    FifoRunPrefix(BeladyTrace, 5, 3);
    assert BeladyTrace[5] == 2;
  }

  /** FIFO with 3 frames on the first 8 references of `BeladyTrace`. */
  lemma FifoBeladyThreeFrames8()
    ensures FifoRun(BeladyTrace[..8], 3) == FifoState([5, 1, 2], 1, 7)
  {
    FifoBeladyThreeFrames6();
    FifoRunPrefix(BeladyTrace, 6, 3);
    assert BeladyTrace[6] == 5;
    assert FifoRun(BeladyTrace[..7], 3) == FifoState([5, 1, 2], 1, 7);
    FifoRunPrefix(BeladyTrace, 7, 3);
    assert BeladyTrace[7] == 1;
  }

  /** FIFO with 3 frames on the first 10 references of `BeladyTrace`. */
  lemma FifoBeladyThreeFrames10()
    ensures FifoRun(BeladyTrace[..10], 3) == FifoState([5, 3, 2], 2, 8)
  {
    FifoBeladyThreeFrames8();
    FifoRunPrefix(BeladyTrace, 8, 3);
    assert BeladyTrace[8] == 2;
    assert FifoRun(BeladyTrace[..9], 3) == FifoState([5, 1, 2], 1, 7);
    FifoRunPrefix(BeladyTrace, 9, 3);
    assert BeladyTrace[9] == 3;
  }

  /** FIFO with 3 frames on the first 12 references of `BeladyTrace`. */
  lemma FifoBeladyThreeFrames12()
    ensures FifoRun(BeladyTrace[..12], 3) == FifoState([5, 3, 4], 0, 9)
  {
    FifoBeladyThreeFrames10();
    FifoRunPrefix(BeladyTrace, 10, 3);
    assert BeladyTrace[10] == 4;
    assert FifoRun(BeladyTrace[..11], 3) == FifoState([5, 3, 4], 0, 9);
    FifoRunPrefix(BeladyTrace, 11, 3);
    assert BeladyTrace[11] == 5;
  }

  /** FIFO with 4 frames on the first 2 references of `BeladyTrace`. */
  lemma FifoBeladyFourFrames2()
    ensures FifoRun(BeladyTrace[..2], 4) == FifoState([1, 2, -1, -1], 2, 2)
  {
    assert FifoRun(BeladyTrace[..0], 4) == FifoState([-1, -1, -1, -1], 0, 0);
    FifoRunPrefix(BeladyTrace, 0, 4);
    assert BeladyTrace[0] == 1;
    assert FifoRun(BeladyTrace[..1], 4) == FifoState([1, -1, -1, -1], 1, 1);
    FifoRunPrefix(BeladyTrace, 1, 4);
    assert BeladyTrace[1] == 2;
  }

  /** FIFO with 4 frames on the first 4 references of `BeladyTrace`. */
  lemma FifoBeladyFourFrames4()
    ensures FifoRun(BeladyTrace[..4], 4) == FifoState([1, 2, 3, 4], 0, 4)
  {
    FifoBeladyFourFrames2();
    FifoRunPrefix(BeladyTrace, 2, 4);
    assert BeladyTrace[2] == 3;
    assert FifoRun(BeladyTrace[..3], 4) == FifoState([1, 2, 3, -1], 3, 3);
    FifoRunPrefix(BeladyTrace, 3, 4);
    assert BeladyTrace[3] == 4;
  }

  /** FIFO with 4 frames on the first 6 references of `BeladyTrace`. */
  lemma FifoBeladyFourFrames6()
    ensures FifoRun(BeladyTrace[..6], 4) == FifoState([1, 2, 3, 4], 0, 4)
  {
    FifoBeladyFourFrames4();
    FifoRunPrefix(BeladyTrace, 4, 4);
    assert BeladyTrace[4] == 1;
    assert FifoRun(BeladyTrace[..5], 4) == FifoState([1, 2, 3, 4], 0, 4);
    FifoRunPrefix(BeladyTrace, 5, 4);
    assert BeladyTrace[5] == 2;
  }

  /** FIFO with 4 frames on the first 8 references of `BeladyTrace`. */
  lemma FifoBeladyFourFrames8()
    ensures FifoRun(BeladyTrace[..8], 4) == FifoState([5, 1, 3, 4], 2, 6)
  {
    FifoBeladyFourFrames6();
    FifoRunPrefix(BeladyTrace, 6, 4);
    assert BeladyTrace[6] == 5;
    assert FifoRun(BeladyTrace[..7], 4) == FifoState([5, 2, 3, 4], 1, 5);
    FifoRunPrefix(BeladyTrace, 7, 4);
    assert BeladyTrace[7] == 1;
  }

  /** FIFO with 4 frames on the first 10 references of `BeladyTrace`. */
  lemma FifoBeladyFourFrames10()
    ensures FifoRun(BeladyTrace[..10], 4) == FifoState([5, 1, 2, 3], 0, 8)
  {
    FifoBeladyFourFrames8();
    FifoRunPrefix(BeladyTrace, 8, 4);
    assert BeladyTrace[8] == 2;
    assert FifoRun(BeladyTrace[..9], 4) == FifoState([5, 1, 2, 4], 3, 7);
    FifoRunPrefix(BeladyTrace, 9, 4);
    assert BeladyTrace[9] == 3;
  }

  /** FIFO with 4 frames on the first 12 references of `BeladyTrace`. */
  lemma FifoBeladyFourFrames12()
    ensures FifoRun(BeladyTrace[..12], 4) == FifoState([4, 5, 2, 3], 2, 10)
  {
    FifoBeladyFourFrames10();
    FifoRunPrefix(BeladyTrace, 10, 4);
    assert BeladyTrace[10] == 4;
    assert FifoRun(BeladyTrace[..11], 4) == FifoState([4, 1, 2, 3], 1, 9);
    FifoRunPrefix(BeladyTrace, 11, 4);
    assert BeladyTrace[11] == 5;
  }

  /** More frames can mean more faults (Belady's anomaly): on 1 2 3 4 1 2 5 1 2 3 4 5
      three frames give 9 faults and four frames give 10. */
  lemma FifoBeladyAnomaly()
    ensures FifoRun(BeladyTrace, 3).faults == 9
    ensures FifoRun(BeladyTrace, 4).faults == 10
  {
    FifoBeladyThreeFrames12();
    FifoBeladyFourFrames12();
    assert BeladyTrace[..12] == BeladyTrace;
  }
}
