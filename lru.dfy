/** Least-recently-used replacement: every frame carries the trace index of its last
    reference, and a miss evicts the frame with the smallest such index. */
module LruPolicy {
  import opened FrameTable
  import opened Traces

  /** The simulator's state after serving a prefix of the trace: the frames, the
      per-frame timestamp of the last reference (-1 for never) and the fault count. */
  datatype LruState = LruState(frames: seq<int>, lastUsed: seq<int>, faults: nat)

  ghost predicate Valid(st: LruState)
  {
    |st.frames| > 0 && |st.lastUsed| == |st.frames|
  }

  /** The frame a miss evicts: the lowest index among those with the smallest
      timestamp. */
  function LeastRecent(lastUsed: seq<int>): (v: nat)
    requires |lastUsed| > 0
    ensures v < |lastUsed|
    ensures forall j :: 0 <= j < |lastUsed| ==> lastUsed[v] <= lastUsed[j]
    ensures forall j :: 0 <= j < v ==> lastUsed[v] < lastUsed[j]
  {
    if |lastUsed| == 1 then 0
    else
      var v := LeastRecent(lastUsed[..|lastUsed| - 1]);
      if lastUsed[|lastUsed| - 1] < lastUsed[v] then |lastUsed| - 1 else v
  }

  /** Reference number `i` to `page`: a hit refreshes the timestamp of the frame holding
      it; a miss counts a fault and loads the page into the least recent frame, stamped
      with `i`. */
  function LruStep(st: LruState, i: int, page: int): LruState
    requires Valid(st)
  {
    var idx := IndexOf(st.frames, page);
    if idx >= 0 then st.(lastUsed := st.lastUsed[idx := i])
    else
      var v := LeastRecent(st.lastUsed);
      LruState(st.frames[v := page], st.lastUsed[v := i], st.faults + 1)
  }

  /** The state after serving all of `refs` with `size` initially empty frames. */
  function LruRun(refs: seq<int>, size: nat): (st: LruState)
    requires size > 0
    ensures Valid(st) && |st.frames| == size
  {
    if refs == [] then LruState(seq(size, _ => Empty), seq(size, _ => -1), 0)
    else LruStep(LruRun(refs[..|refs| - 1], size), |refs| - 1, refs[|refs| - 1])
  }

  /** The victim scan of a miss: keeps the first frame with the smallest timestamp. */
  method FindLeastRecent(lastUsed: array<int>) returns (lruIndex: int)
    requires lastUsed.Length > 0
    ensures 0 <= lruIndex < lastUsed.Length
    ensures forall j :: 0 <= j < lastUsed.Length ==> lastUsed[lruIndex] <= lastUsed[j]
    ensures forall j :: 0 <= j < lruIndex ==> lastUsed[lruIndex] < lastUsed[j]
    ensures lruIndex == LeastRecent(lastUsed[..])
  {
    lruIndex := 0;
    var j := 1;
    while j < lastUsed.Length
      invariant 1 <= j <= lastUsed.Length
      invariant lruIndex == LeastRecent(lastUsed[..j])
    {
      assert lastUsed[..j + 1][..j] == lastUsed[..j];
      if lastUsed[j] < lastUsed[lruIndex] {
        lruIndex := j;
      }
      j := j + 1;
    }
    assert lastUsed[..lastUsed.Length] == lastUsed[..];
  }

  /** The body of the simulator's loop for reference number `i`: restamp the frame
      holding `page`, or count a fault and load it into the least recent frame. */
  method ServeReference(frames: array<int>, lastUsed: array<int>, faults: int, i: int, page: int)
    returns (faults': int)
    requires frames != lastUsed && frames.Length == lastUsed.Length > 0 && faults >= 0
    modifies frames, lastUsed
    ensures faults' >= 0
    ensures LruState(frames[..], lastUsed[..], faults') ==
      LruStep(LruState(old(frames[..]), old(lastUsed[..]), faults), i, page)
  {
    ghost var st := LruState(frames[..], lastUsed[..], faults);
    var frameNo := Locate(frames, frames.Length, page);
    assert frames[..frames.Length] == frames[..];
    if frameNo >= 0 {
      LruHit(st, i, page, frameNo);
      lastUsed[frameNo] := i;
      return faults;
    }
    faults' := faults + 1;
    var lruIndex := FindLeastRecent(lastUsed);
    LruMiss(st, i, page, lruIndex);
    frames[lruIndex] := page;
    lastUsed[lruIndex] := i;
  }

  /** The simulator: one pass over the trace with `size` frames, returning the number of
      page faults. */
  method Lru(refs: seq<int>, size: int) returns (faults: int)
    requires size >= 1
    ensures faults == LruRun(refs, size).faults
  {
    faults := 0;
    var frames := new int[size](_ => Empty);
    var lastUsed := new int[size](_ => -1);
    var i := 0;
    while i < |refs|
      invariant 0 <= i <= |refs| && faults >= 0
      invariant LruState(frames[..], lastUsed[..], faults) == LruRun(refs[..i], size)
    {
      LruRunPrefix(refs, i, size);
      faults := ServeReference(frames, lastUsed, faults, i, refs[i]);
      i := i + 1;
    }
    assert refs[..|refs|] == refs;
  }

  /** Serving one more reference is one more step. */
  lemma LruRunPrefix(refs: seq<int>, k: nat, size: nat)
    requires size > 0 && k < |refs|
    ensures LruRun(refs[..k + 1], size) == LruStep(LruRun(refs[..k], size), k, refs[k])
  {
    assert refs[..k + 1][..k] == refs[..k];
  }

  /** A step on a hit only restamps the frame found. */
  lemma LruHit(st: LruState, i: int, page: int, idx: int)
    requires Valid(st) && idx == IndexOf(st.frames, page) && idx >= 0
    ensures LruStep(st, i, page) == LruState(st.frames, st.lastUsed[idx := i], st.faults)
  {
  }

  /** A step on a miss loads the page into the least recent frame. */
  lemma LruMiss(st: LruState, i: int, page: int, v: int)
    requires Valid(st) && IndexOf(st.frames, page) == -1 && v == LeastRecent(st.lastUsed)
    ensures LruStep(st, i, page) == LruState(st.frames[v := page], st.lastUsed[v := i], st.faults + 1)
  {
  }

  /** A step serves its reference as every policy must. */
  lemma LruStepServes(st: LruState, i: int, page: int)
    requires Valid(st)
    ensures ServesReference(st.frames, st.faults, LruStep(st, i, page).frames, LruStep(st, i, page).faults, page)
  {
    if page !in st.frames {
      assert Overwrites(st.frames, LruStep(st, i, page).frames, LeastRecent(st.lastUsed), page);
    }
  }

  /** The timestamps mean what their name says: an empty frame has none, and a resident
      page's timestamp is the index of its last reference in the trace served so far. */
  ghost predicate TimestampsAreLastUses(st: LruState, refs: seq<int>)
    requires Valid(st)
  {
    forall j :: 0 <= j < |st.frames| ==>
      (st.frames[j] == Empty ==> st.lastUsed[j] == -1) &&
      (st.frames[j] != Empty ==> st.lastUsed[j] == LastIndexOf(refs, st.frames[j]))
  }

  /** Over a trace of page numbers the bookkeeping invariant holds. */
  lemma {:induction false} LruRunAccounted(refs: seq<int>, size: nat)
    requires size > 0 && NonNegative(refs)
    ensures Accounted(LruRun(refs, size).frames, LruRun(refs, size).faults, refs)
  {
    if refs == [] {
      AccountedInitially(size);
    } else {
      var pre := refs[..|refs| - 1];
      var i := |refs| - 1;
      var page := refs[i];
      assert refs == pre + [page];
      LruRunAccounted(pre, size);
      var st := LruRun(pre, size);
      LruStepServes(st, i, page);
      ServingKeepsAccounted(st.frames, st.faults, LruRun(refs, size).frames, LruRun(refs, size).faults, pre, page);
    }
  }

  /** Every timestamp is the last use of the page in its frame. */
  lemma {:induction false} LruTimestamps(refs: seq<int>, size: nat)
    requires size > 0 && NonNegative(refs)
    ensures TimestampsAreLastUses(LruRun(refs, size), refs)
  {
    if refs != [] {
      var pre := refs[..|refs| - 1];
      var i := |refs| - 1;
      var page := refs[i];
      assert refs == pre + [page];
      LruTimestamps(pre, size);
      LruRunAccounted(pre, size);
      var st := LruRun(pre, size);
      // Every other frame holds a different page, so its last use is unchanged.
      forall j | 0 <= j < size && st.frames[j] != Empty && st.frames[j] != page
        ensures LastIndexOf(refs, st.frames[j]) == LastIndexOf(pre, st.frames[j])
      {
        var r := LastIndexOf(pre, st.frames[j]);
        assert refs[i] != st.frames[j];
        assert r >= 0 ==> refs[r] == st.frames[j];
      }
      var idx := IndexOf(st.frames, page);
      if idx >= 0 {
        forall j | 0 <= j < size && j != idx ensures st.frames[j] != page {
          if j > idx {
            assert st.frames[idx] != Empty;
          }
        }
      }
    }
  }

  /** The frames are filled in index order: a frame never used has timestamp -1, the
      smallest, so it is chosen before any used frame, lowest index first. */
  lemma {:induction false} LruFillsInOrder(refs: seq<int>, size: nat)
    requires size > 0 && NonNegative(refs)
    ensures FilledInOrder(LruRun(refs, size).frames, LruRun(refs, size).faults)
  {
    if refs != [] {
      var pre := refs[..|refs| - 1];
      var i := |refs| - 1;
      var page := refs[i];
      assert refs == pre + [page];
      LruFillsInOrder(pre, size);
      LruTimestamps(pre, size);
      LruRunAccounted(pre, size);
      var st := LruRun(pre, size);
      if page !in st.frames && st.faults < size {
        assert st.lastUsed[st.faults] == -1;
        forall j | 0 <= j < st.faults ensures st.lastUsed[j] >= 0 {
          assert st.frames[j] != Empty;
        }
        assert LeastRecent(st.lastUsed) == st.faults;
      }
    }
  }

  /** While some frame has never been used, a miss picks the lowest such frame. */
  lemma LruFillsEmptyFirst(refs: seq<int>, size: nat)
    requires size > 0 && NonNegative(refs)
    ensures LruRun(refs, size).faults < size ==> LeastRecent(LruRun(refs, size).lastUsed) == LruRun(refs, size).faults
  {
    var st := LruRun(refs, size);
    if st.faults < size {
      LruRunAccounted(refs, size);
      LruTimestamps(refs, size);
      LruFillsInOrder(refs, size);
      assert st.lastUsed[st.faults] == -1;
      forall j | 0 <= j < st.faults ensures st.lastUsed[j] >= 0 {
        assert st.frames[j] != Empty;
      }
    }
  }

  /** Once all frames are in use, a miss evicts the frame whose page was referenced least
      recently: every other resident page has been referenced strictly later. */
  lemma LruEvictsLeastRecentlyUsed(refs: seq<int>, size: nat)
    requires size > 0 && NonNegative(refs)
    ensures size <= LruRun(refs, size).faults ==>
      var st := LruRun(refs, size);
      var v := LeastRecent(st.lastUsed);
      forall j :: 0 <= j < size && j != v ==>
        LastIndexOf(refs, st.frames[v]) < LastIndexOf(refs, st.frames[j])
  {
    var st := LruRun(refs, size);
    if size <= st.faults {
      LruRunAccounted(refs, size);
      LruTimestamps(refs, size);
      LruFillsInOrder(refs, size);
      var v := LeastRecent(st.lastUsed);
      forall j | 0 <= j < size && j != v
        ensures LastIndexOf(refs, st.frames[v]) < LastIndexOf(refs, st.frames[j])
      {
        assert st.frames[v] != Empty && st.frames[j] != Empty;
        assert st.frames[v] != st.frames[j];
        var a, b := LastIndexOf(refs, st.frames[v]), LastIndexOf(refs, st.frames[j]);
        assert a >= 0 && refs[a] == st.frames[v];
        assert b >= 0 && refs[b] == st.frames[j];
      }
    }
  }

  /** The facts about one run that the stack property needs: no page in two frames,
      only referenced pages resident, timestamps that are last uses, frames filled in
      index order, and empty frames chosen first. */
  ghost predicate Settled(st: LruState, seen: seq<int>)
    requires Valid(st)
  {
    ResidentDistinct(st.frames) &&
    (forall j :: 0 <= j < |st.frames| && st.frames[j] != Empty ==> st.frames[j] in seen) &&
    TimestampsAreLastUses(st, seen) &&
    FilledInOrder(st.frames, st.faults) &&
    (st.faults < |st.frames| ==> LeastRecent(st.lastUsed) == st.faults)
  }

  /** Every state LRU reaches over a trace of page numbers is settled. */
  lemma LruSettled(refs: seq<int>, size: nat)
    requires size > 0 && NonNegative(refs)
    ensures Settled(LruRun(refs, size), refs)
  {
    LruRunAccounted(refs, size);
    LruTimestamps(refs, size);
    LruFillsInOrder(refs, size);
    LruFillsEmptyFirst(refs, size);
  }

  /** Every page resident in `small` is resident in `big`. */
  ghost predicate ResidentWithin(small: seq<int>, big: seq<int>)
  {
    forall j :: 0 <= j < |small| && small[j] != Empty ==> small[j] in big
  }

  /** The larger table's victim is never a page the smaller table keeps: if the
      smaller table holds that page, it holds it in its own victim frame. */
  lemma LruVictimNotKept(a: LruState, b: LruState, seen: seq<int>, j: nat)
    requires Valid(a) && Valid(b) && |b.frames| == |a.frames| + 1
    requires Settled(a, seen) && Settled(b, seen)
    requires ResidentWithin(a.frames, b.frames) && b.faults <= a.faults
    requires j < |a.frames| && a.frames[j] != Empty
    ensures a.frames[j] == b.frames[LeastRecent(b.lastUsed)] ==> j == LeastRecent(a.lastUsed)
  {
    var va, vb := LeastRecent(a.lastUsed), LeastRecent(b.lastUsed);
    var x := a.frames[j];
    if x == b.frames[vb] {
      // The larger table's victim is not empty, so it is full, hence so is the smaller.
      assert b.faults >= |b.frames|;
      var y := a.frames[va];
      var k := IndexOf(b.frames, y);
      assert 0 <= k && b.frames[k] == y;
      // Both victims carry the oldest last use, so they hold the same page.
      assert b.lastUsed[vb] <= b.lastUsed[k] && a.lastUsed[va] <= a.lastUsed[j];
      assert LastIndexOf(seen, x) == LastIndexOf(seen, y);
      assert x == seen[LastIndexOf(seen, x)] == y;
    }
  }

  /** One reference keeps the stack property: if every page resident with `n` frames is
      resident with `n + 1` frames, and the larger table has had no more faults, both
      stay so after serving the same page. */
  lemma LruInclusionStep(a: LruState, b: LruState, seen: seq<int>, p: int)
    requires Valid(a) && Valid(b) && |b.frames| == |a.frames| + 1 && p >= 0
    requires Settled(a, seen) && Settled(b, seen)
    requires ResidentWithin(a.frames, b.frames) && b.faults <= a.faults
    ensures ResidentWithin(LruStep(a, |seen|, p).frames, LruStep(b, |seen|, p).frames)
    ensures LruStep(b, |seen|, p).faults <= LruStep(a, |seen|, p).faults
  {
    var a', b' := LruStep(a, |seen|, p), LruStep(b, |seen|, p);
    var ia, ib := IndexOf(a.frames, p), IndexOf(b.frames, p);
    if ia >= 0 {
      assert a.frames[ia] != Empty;
    } else if ib < 0 {
      var va, vb := LeastRecent(a.lastUsed), LeastRecent(b.lastUsed);
      assert a'.frames == a.frames[va := p] && b'.frames == b.frames[vb := p];
      forall j | 0 <= j < |a'.frames| && a'.frames[j] != Empty ensures a'.frames[j] in b'.frames {
        if j == va {
          assert b'.frames[vb] == p;
        } else {
          assert a'.frames[j] == a.frames[j] && a.frames[j] in b.frames;
          var k := IndexOf(b.frames, a.frames[j]);
          LruVictimNotKept(a, b, seen, j);
          assert k != vb && b'.frames[k] == a.frames[j];
        }
      }
    }
  }

  /** The stack property of LRU: every page resident with `n` frames is resident with
      `n + 1` frames, so one more frame never costs a fault. */
  lemma {:induction false} LruStackInclusion(refs: seq<int>, n: nat)
    requires n > 0 && NonNegative(refs)
    ensures ResidentWithin(LruRun(refs, n).frames, LruRun(refs, n + 1).frames)
    ensures LruRun(refs, n + 1).faults <= LruRun(refs, n).faults
  {
    if refs != [] {
      var pre := refs[..|refs| - 1];
      LruStackInclusion(pre, n);
      LruSettled(pre, n);
      LruSettled(pre, n + 1);
      LruInclusionStep(LruRun(pre, n), LruRun(pre, n + 1), pre, refs[|refs| - 1]);
    }
  }

  /** Unlike FIFO and second chance, LRU shows no Belady anomaly: more frames never mean
      more faults. */
  lemma {:induction false} LruNoBeladyAnomaly(refs: seq<int>, n: nat, n': nat)
    requires 0 < n <= n' && NonNegative(refs)
    ensures LruRun(refs, n').faults <= LruRun(refs, n).faults
    decreases n' - n
  {
    if n < n' {
      LruStackInclusion(refs, n);
      LruNoBeladyAnomaly(refs, n + 1, n');
    }
  }

  /** With a single frame LRU faults exactly when the page differs from the previous
      reference, and the frame holds the latest page. */
  lemma {:induction false} LruSingleFrame(refs: seq<int>)
    requires NonNegative(refs)
    ensures LruRun(refs, 1).faults == Changes(refs)
    ensures refs != [] ==> LruRun(refs, 1).frames == [refs[|refs| - 1]]
  {
    if refs != [] {
      var pre := refs[..|refs| - 1];
      LruSingleFrame(pre);
      if |refs| > 1 {
        assert pre[|pre| - 1] == refs[|refs| - 2];
      }
    }
  }
}
