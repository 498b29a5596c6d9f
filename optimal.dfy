/** Bounded-lookahead approximation of Belady's optimal replacement. The first `size`
    distinct pages are loaded into the frames in order (warm-up); after that a miss
    looks at most `limit` references ahead and evicts the lowest frame whose page does
    not recur in that window, or, when every resident page recurs, the frame whose page
    recurs last. */
module OptimalPolicy {
  import opened FrameTable
  import opened Traces

  function Min(a: int, b: int): int
  {
    if a < b then a else b
  }

  /** The references a miss at position `cur` looks ahead to: those after `cur`, at most
      `limit` of them, stopping at the end of the trace. */
  function Window(refs: seq<int>, cur: nat, limit: int): (w: seq<int>)
    requires cur < |refs|
    ensures |w| == if limit <= 0 then 0 else Min(limit, |refs| - cur - 1)
    ensures forall k :: 0 <= k < |w| ==> w[k] == refs[cur + 1 + k]
  {
    refs[cur + 1 .. if limit <= 0 then cur + 1 else Min(cur + 1 + limit, |refs|)]
  }

  /** Which frames' pages do not occur in `w`: the `unused` mask once the window has
      been scanned, one flag per frame. */
  ghost function Unreferenced(frames: seq<int>, w: seq<int>): (u: seq<bool>)
    ensures |u| == |frames|
    ensures forall j :: 0 <= j < |frames| ==> (u[j] <==> frames[j] !in w)
  {
    seq(|frames|, j requires 0 <= j < |frames| => frames[j] !in w)
  }

  /** The lowest frame whose page does not occur in `w`, or -1 when every page does. */
  function FirstAbsent(frames: seq<int>, w: seq<int>): (v: int)
    ensures -1 <= v < |frames|
  {
    if frames == [] then -1
    else if frames[0] !in w then 0
    else
      var r := FirstAbsent(frames[1..], w);
      if r < 0 then -1 else r + 1
  }

  /** `FirstAbsent` finds the lowest frame whose page is absent from `w`, and -1 means
      none is. */
  lemma {:induction false} FirstAbsentSpec(frames: seq<int>, w: seq<int>)
    ensures FirstAbsent(frames, w) == -1 <==> forall j :: 0 <= j < |frames| ==> frames[j] in w
    ensures 0 <= FirstAbsent(frames, w) ==>
      frames[FirstAbsent(frames, w)] !in w && forall j :: 0 <= j < FirstAbsent(frames, w) ==> frames[j] in w
  {
    if frames != [] && frames[0] in w {
      FirstAbsentSpec(frames[1..], w);
      assert frames == [frames[0]] + frames[1..];
    }
  }

  /** The frame whose page first occurs latest in `w` (the first such frame on a tie). */
  function LatestFirst(frames: seq<int>, w: seq<int>): (v: nat)
    requires |frames| > 0
    ensures v < |frames|
  {
    if |frames| == 1 then 0
    else
      var v := LatestFirst(frames[..|frames| - 1], w);
      if IndexOf(w, frames[v]) < IndexOf(w, frames[|frames| - 1]) then |frames| - 1 else v
  }

  /** No frame's page first occurs in `w` later than that of `LatestFirst`'s frame. */
  lemma {:induction false} LatestFirstSpec(frames: seq<int>, w: seq<int>)
    requires |frames| > 0
    ensures forall j :: 0 <= j < |frames| ==> IndexOf(w, frames[j]) <= IndexOf(w, frames[LatestFirst(frames, w)])
  {
    if |frames| > 1 {
      var pre := frames[..|frames| - 1];
      LatestFirstSpec(pre, w);
      assert forall j :: 0 <= j < |pre| ==> pre[j] == frames[j];
    }
  }

  /** The frame a steady-state miss evicts, given the lookahead window `w`: the lowest
      frame whose page is absent from `w`, or else the one whose page first occurs
      latest. */
  function Victim(frames: seq<int>, w: seq<int>): (v: nat)
    requires |frames| > 0
    ensures v < |frames|
  {
    var a := FirstAbsent(frames, w);
    if a >= 0 then a else LatestFirst(frames, w)
  }

  /** The simulator's state: the frames, how many of them the warm-up has filled and
      the fault count. */
  datatype OptState = OptState(frames: seq<int>, filled: nat, faults: nat)

  /** Reference number `cur`: a resident page changes nothing; otherwise a fault is
      counted and the page goes into the next empty frame during warm-up, or over the
      victim chosen by looking ahead from `cur` once every frame is filled. */
  function OptStep(st: OptState, refs: seq<int>, cur: nat, limit: int): OptState
    requires cur < |refs| && st.filled <= |st.frames| && |st.frames| > 0
  {
    var page := refs[cur];
    if page in st.frames then st
    else if st.filled < |st.frames| then
      OptState(st.frames[st.filled := page], st.filled + 1, st.faults + 1)
    else
      OptState(st.frames[Victim(st.frames, Window(refs, cur, limit)) := page], st.filled, st.faults + 1)
  }

  /** The state after serving the first `n` references of `refs` with `size` initially
      empty frames. */
  function OptRun(refs: seq<int>, size: nat, limit: int, n: nat): (st: OptState)
    requires size > 0 && n <= |refs|
    ensures |st.frames| == size && st.filled <= size
  {
    if n == 0 then OptState(seq(size, _ => Empty), 0, 0)
    else OptStep(OptRun(refs, size, limit, n - 1), refs, n - 1, limit)
  }

  /** The flags and the result of the latest `locate` during the lookahead scan. */
  datatype ScanState = ScanState(flags: seq<bool>, last: int)

  /** The lookahead scan over `w` step by step: every flag starts set; each reference
      in turn is located among the frames, clearing the flag of the frame holding it
      and recording the result in `last`; once no flag is left the scan stops. */
  ghost function ScanUpTo(frames: seq<int>, w: seq<int>): (s: ScanState)
    ensures |s.flags| == |frames|
  {
    if w == [] then ScanState(seq(|frames|, _ => true), 0)
    else
      var s := ScanUpTo(frames, w[..|w| - 1]);
      if true !in s.flags then s
      else
        var v := IndexOf(frames, w[|w| - 1]);
        ScanState(if v >= 0 then s.flags[v := false] else s.flags, v)
  }

  /** The lookahead scan of a steady-state miss at position `cur`: for each upcoming
      reference, locate its page and clear that frame's `unused` flag, stopping at the
      end of the window or as soon as no flag is left. */
  method ScanAhead(frames: array<int>, refs: seq<int>, cur: int, limit: int)
    returns (unused: seq<bool>, victim: int)
    requires 0 <= cur < |refs|
    ensures ScanState(unused, victim) == ScanUpTo(frames[..], Window(refs, cur, limit))
  {
    var size := frames.Length;
    unused := seq(size, _ => true);
    victim := 0;
    var k := 1;
    assert refs[cur + 1 .. cur + k] == [];
    while k <= limit && true in unused && cur + k < |refs|
      invariant 1 <= k && cur + k <= |refs| && (k == 1 || k <= limit + 1)
      invariant ScanUpTo(frames[..], refs[cur + 1 .. cur + k]) == ScanState(unused, victim)
      decreases |refs| - cur - k
    {
      ScanUpToNext(frames[..], refs, cur + 1, cur + k);
      victim := Locate(frames, size, refs[cur + k]);
      assert frames[..size] == frames[..];
      if victim >= 0 {
        unused := unused[victim := false];
      }
      k := k + 1;
    }
    ghost var w := Window(refs, cur, limit);
    if true in unused {
      assert refs[cur + 1 .. cur + k] == w;
    } else {
      assert refs[cur + 1 .. cur + k] == w[..k - 1];
      ScanUpToStops(frames[..], w, k - 1);
    }
  }

  /** The lowest frame whose `unused` flag is set: the shift loop that finds the lowest
      set bit of the mask. */
  method LowestFlag(unused: seq<bool>) returns (victim: int)
    requires true in unused
    ensures 0 <= victim < |unused| && unused[victim]
    ensures forall j :: 0 <= j < victim ==> !unused[j]
  {
    ghost var some :| 0 <= some < |unused| && unused[some];
    victim := 0;
    while !unused[victim]
      invariant 0 <= victim <= some
      invariant forall j :: 0 <= j < victim ==> !unused[j]
      decreases some - victim
    {
      victim := victim + 1;
    }
  }

  /** The victim search of a steady-state miss at position `cur`: the frame seen last
      when every frame's page recurs in the window, otherwise the lowest frame whose
      page does not. */
  method ChooseVictim(frames: array<int>, refs: seq<int>, cur: int, limit: int) returns (victim: int)
    requires frames.Length > 0 && 0 <= cur < |refs| && Distinct(frames[..])
    ensures victim == Victim(frames[..], Window(refs, cur, limit))
  {
    var unused;
    unused, victim := ScanAhead(frames, refs, cur, limit);
    ScanUpToMeaning(frames[..], Window(refs, cur, limit));
    FirstAbsentSpec(frames[..], Window(refs, cur, limit));
    if true in unused {
      victim := LowestFlag(unused);
    }
  }

  /** The simulator: a warm-up pass that loads the first `size` distinct pages, then one
      pass over the rest of the trace; returns the number of page faults. */
  method Optimal(refs: seq<int>, size: int, limit: int) returns (faults: int)
    requires 1 <= size <= 31 && size <= |Dedup(refs)|
    ensures faults == OptRun(refs, size, limit, |refs|).faults
  {
    var frames := new int[size](_ => Empty);
    var cur;
    cur, faults := WarmUp(frames, refs, limit);
    while cur < |refs|
      invariant 0 <= cur <= |refs| && faults >= 0
      invariant OptState(frames[..], size, faults) == OptRun(refs, size, limit, cur)
    {
      FullFramesDistinct(refs, size, limit, cur);
      faults := ServeAfterWarmUp(frames, refs, cur, limit, faults);
      cur := cur + 1;
    }
  }

  /** The warm-up loop: starting from empty frames, load pages into frames 0, 1, ... in
      turn, skipping references to resident pages, until every frame is filled; returns
      how many references it consumed and the faults counted. */
  method WarmUp(frames: array<int>, refs: seq<int>, limit: int) returns (cur: int, faults: int)
    requires 0 < frames.Length <= |Dedup(refs)|
    requires frames[..] == seq(frames.Length, _ => Empty)
    modifies frames
    ensures 0 <= cur <= |refs| && faults >= 0
    ensures OptState(frames[..], frames.Length, faults) == OptRun(refs, frames.Length, limit, cur)
  {
    faults := 0;
    var i := 0;
    cur := 0;
    while i < frames.Length
      invariant 0 <= i <= frames.Length && 0 <= cur <= |refs| && faults >= 0
      invariant OptState(frames[..], i, faults) == OptRun(refs, frames.Length, limit, cur)
      decreases |refs| - cur
    {
      WarmUpWithinTrace(refs, frames.Length, limit, cur);
      i, faults := ServeDuringWarmUp(frames, refs, cur, limit, i, faults);
      i := i + 1;
      cur := cur + 1;
    }
  }

  /** The body of the warm-up loop for reference number `cur`: a resident page undoes
      the coming advance of the fill index `i`; otherwise the page is loaded into frame
      `i` and a fault is counted. */
  method ServeDuringWarmUp(frames: array<int>, refs: seq<int>, cur: int, limit: int, i: int, faults: int)
    returns (i': int, faults': int)
    requires 0 <= i < frames.Length && 0 <= cur < |refs| && faults >= 0
    modifies frames
    ensures 0 <= i' + 1 <= frames.Length && faults' >= 0
    ensures OptState(frames[..], i' + 1, faults') ==
      OptStep(OptState(old(frames[..]), i, faults), refs, cur, limit)
  {
    var pageNo := refs[cur];
    var frameNo := Locate(frames, frames.Length, pageNo);
    assert frames[..frames.Length] == frames[..];
    if frameNo >= 0 {
      return i - 1, faults;
    }
    frames[i] := pageNo;
    return i, faults + 1;
  }

  /** The body of the steady-state loop for reference number `cur`: nothing on a hit;
      on a miss count a fault and load the page over the victim. */
  method ServeAfterWarmUp(frames: array<int>, refs: seq<int>, cur: int, limit: int, faults: int)
    returns (faults': int)
    requires frames.Length > 0 && 0 <= cur < |refs| && Distinct(frames[..]) && faults >= 0
    modifies frames
    ensures faults' >= 0
    ensures OptState(frames[..], frames.Length, faults') ==
      OptStep(OptState(old(frames[..]), frames.Length, faults), refs, cur, limit)
  {
    var pageNo := refs[cur];
    var frameNo := Locate(frames, frames.Length, pageNo);
    assert frames[..frames.Length] == frames[..];
    if frameNo >= 0 {
      return faults;
    }
    faults' := faults + 1;
    var victim := ChooseVictim(frames, refs, cur, limit);
    frames[victim] := pageNo;
  }

  /** The warm-up never runs past the end of a trace with at least `size` distinct
      pages. */
  lemma WarmUpWithinTrace(refs: seq<int>, size: nat, limit: int, n: nat)
    requires size > 0 && n <= |refs| && size <= |Dedup(refs)|
    ensures OptRun(refs, size, limit, n).filled < size ==> n < |refs|
  {
    OptWarmUp(refs, size, limit, n);
    assert refs[..|refs|] == refs;
  }

  /** Once every frame is filled the frames hold pairwise distinct values. */
  lemma FullFramesDistinct(refs: seq<int>, size: nat, limit: int, n: nat)
    requires size > 0 && n <= |refs| && OptRun(refs, size, limit, n).filled == size
    ensures Distinct(OptRun(refs, size, limit, n).frames)
  {
    OptRunShape(refs, size, limit, n);
  }

  /** Seeing one more reference `x` clears exactly the flag of the frame holding `x`;
      when that clears the last flag still set, the frame holding `x` is the one whose
      page first occurs latest. */
  lemma ScanStep(frames: seq<int>, w: seq<int>, x: int)
    requires Distinct(frames)
    ensures IndexOf(frames, x) >= 0 ==>
      Unreferenced(frames, w + [x]) == Unreferenced(frames, w)[IndexOf(frames, x) := false]
    ensures IndexOf(frames, x) < 0 ==> Unreferenced(frames, w + [x]) == Unreferenced(frames, w)
    ensures (IndexOf(frames, x) >= 0 && true in Unreferenced(frames, w) &&
             true !in Unreferenced(frames, w)[IndexOf(frames, x) := false]) ==>
      LatestFirst(frames, w + [x]) == IndexOf(frames, x)
  {
    var v := IndexOf(frames, x);
    var u := Unreferenced(frames, w);
    if v >= 0 && true in u && true !in u[v := false] {
      forall j | 0 <= j < |frames| && j != v ensures frames[j] in w {
        assert u[v := false][j] == u[j];
      }
      var t :| 0 <= t < |u| && u[t];
      assert t == v;
      LatestFirstLastCleared(frames, w, v);
    }
  }

  /** When the last frame still flagged is cleared by seeing its page, that frame is the
      one whose page first occurs latest. */
  lemma LatestFirstLastCleared(frames: seq<int>, w: seq<int>, v: nat)
    requires Distinct(frames) && v < |frames| && frames[v] !in w
    requires forall j :: 0 <= j < |frames| && j != v ==> frames[j] in w
    ensures LatestFirst(frames, w + [frames[v]]) == v
  {
    var w' := w + [frames[v]];
    var r := LatestFirst(frames, w');
    LatestFirstSpec(frames, w');
    assert IndexOf(w', frames[v]) == |w|;
    assert w'[IndexOf(w', frames[r])] == frames[r];
  }

  /** Scanning one more reference of the trace is one more scan step. */
  lemma ScanUpToNext(frames: seq<int>, refs: seq<int>, lo: nat, hi: nat)
    requires lo <= hi < |refs|
    ensures ScanUpTo(frames, refs[lo .. hi + 1]) ==
      var s := ScanUpTo(frames, refs[lo .. hi]);
      var v := IndexOf(frames, refs[hi]);
      if true !in s.flags then s else ScanState(if v >= 0 then s.flags[v := false] else s.flags, v)
  {
    assert refs[lo .. hi + 1][..hi - lo] == refs[lo .. hi];
  }

  /** Once no flag is left, the rest of the window changes nothing. */
  lemma {:induction false} ScanUpToStops(frames: seq<int>, w: seq<int>, m: nat)
    requires m <= |w| && true !in ScanUpTo(frames, w[..m]).flags
    ensures ScanUpTo(frames, w) == ScanUpTo(frames, w[..m])
    decreases |w|
  {
    if m < |w| {
      var pre := w[..|w| - 1];
      assert pre[..m] == w[..m];
      ScanUpToStops(frames, pre, m);
    } else {
      assert w[..m] == w;
    }
  }

  /** What the scan finds: its flags mark exactly the frames whose page does not occur
      in the window, and when no flag is left the last frame located is the one whose
      page first occurs latest. */
  lemma {:induction false} ScanUpToMeaning(frames: seq<int>, w: seq<int>)
    requires |frames| > 0 && Distinct(frames)
    ensures ScanUpTo(frames, w).flags == Unreferenced(frames, w)
    ensures true !in ScanUpTo(frames, w).flags ==> ScanUpTo(frames, w).last == LatestFirst(frames, w)
  {
    if w == [] {
      assert ScanUpTo(frames, w).flags[0];
    } else {
      var pre, x := w[..|w| - 1], w[|w| - 1];
      assert w == pre + [x];
      ScanUpToMeaning(frames, pre);
      var s := ScanUpTo(frames, pre);
      if true !in s.flags {
        forall j | 0 <= j < |frames| ensures frames[j] in pre {
          assert !s.flags[j];
        }
        assert pre == w[..|pre|];
        LatestFirstPrefix(frames, w, |pre|);
      } else {
        ScanStep(frames, pre, x);
      }
    }
  }

  /** Once every frame's page occurs in the first `m` references of `w`, the rest of `w`
      cannot change which one first occurs latest. */
  lemma {:induction false} LatestFirstPrefix(frames: seq<int>, w: seq<int>, m: nat)
    requires |frames| > 0 && m <= |w|
    requires forall j :: 0 <= j < |frames| ==> frames[j] in w[..m]
    ensures LatestFirst(frames, w[..m]) == LatestFirst(frames, w)
  {
    forall j | 0 <= j < |frames| ensures IndexOf(w, frames[j]) == IndexOf(w[..m], frames[j]) {
      IndexOfPrefix(w, m, frames[j]);
    }
    if |frames| > 1 {
      var pre := frames[..|frames| - 1];
      assert forall j :: 0 <= j < |pre| ==> pre[j] == frames[j];
      LatestFirstPrefix(pre, w, m);
    }
  }

  /** Belady's rule as the victim search applies it within the window: a page that does
      not recur is evicted first, the lowest such frame; when every resident page recurs,
      the victim's page recurs strictly later than every other one. */
  lemma OptimalVictimRule(frames: seq<int>, w: seq<int>)
    requires |frames| > 0 && Distinct(frames)
    ensures (exists j :: 0 <= j < |frames| && frames[j] !in w) ==>
      var v := Victim(frames, w);
      frames[v] !in w && forall j :: 0 <= j < v ==> frames[j] in w
    ensures (forall j :: 0 <= j < |frames| ==> frames[j] in w) ==>
      var v := Victim(frames, w);
      forall j :: 0 <= j < |frames| && j != v ==> IndexOf(w, frames[j]) < IndexOf(w, frames[v])
  {
    var v := Victim(frames, w);
    FirstAbsentSpec(frames, w);
    LatestFirstSpec(frames, w);
    if forall j :: 0 <= j < |frames| ==> frames[j] in w {
      forall j | 0 <= j < |frames| && j != v ensures IndexOf(w, frames[j]) < IndexOf(w, frames[v]) {
        assert frames[j] != frames[v];
        assert w[IndexOf(w, frames[j])] == frames[j];
      }
    }
  }

  /** The filled frames form a prefix of the frame table, hold no page twice and, during
      warm-up, no empty sentinel. */
  ghost predicate Shaped(st: OptState, size: nat)
  {
    |st.frames| == size && st.filled <= size &&
    (forall j :: st.filled <= j < size ==> st.frames[j] == Empty) &&
    Distinct(st.frames[..st.filled]) &&
    (st.filled < size ==> Empty !in st.frames[..st.filled])
  }

  /** Every state the simulator reaches is shaped; in particular, once the warm-up is
      over, the frames hold pairwise distinct pages. */
  lemma {:induction false} OptRunShape(refs: seq<int>, size: nat, limit: int, n: nat)
    requires size > 0 && n <= |refs|
    ensures Shaped(OptRun(refs, size, limit, n), size)
    ensures OptRun(refs, size, limit, n).filled == size ==> Distinct(OptRun(refs, size, limit, n).frames)
  {
    var st := OptRun(refs, size, limit, n);
    if n > 0 {
      OptRunShape(refs, size, limit, n - 1);
      var st0 := OptRun(refs, size, limit, n - 1);
      var page := refs[n - 1];
      assert st0.frames[..st0.filled] + st0.frames[st0.filled..] == st0.frames;
      if page !in st0.frames {
        if st0.filled < size {
          assert st0.frames[st0.filled] == Empty;
          assert st.frames[..st.filled] == st0.frames[..st0.filled] + [page];
        } else {
          assert st0.frames[..st0.filled] == st0.frames;
          assert st.frames[..st.filled] == st.frames;
        }
      }
    }
    assert st.filled == size ==> st.frames[..st.filled] == st.frames;
  }

  /** A step serves its reference as every policy must. */
  lemma OptStepServes(st: OptState, refs: seq<int>, cur: nat, limit: int)
    requires cur < |refs| && st.filled <= |st.frames| && |st.frames| > 0
    ensures ServesReference(st.frames, st.faults, OptStep(st, refs, cur, limit).frames,
                            OptStep(st, refs, cur, limit).faults, refs[cur])
  {
    var page := refs[cur];
    if page !in st.frames {
      var v := if st.filled < |st.frames| then st.filled else Victim(st.frames, Window(refs, cur, limit));
      assert Overwrites(st.frames, OptStep(st, refs, cur, limit).frames, v, page);
    }
  }

  /** Over a trace of page numbers the bookkeeping invariant holds. */
  lemma {:induction false} OptRunAccounted(refs: seq<int>, size: nat, limit: int, n: nat)
    requires size > 0 && n <= |refs| && NonNegative(refs)
    ensures Accounted(OptRun(refs, size, limit, n).frames, OptRun(refs, size, limit, n).faults, refs[..n])
  {
    if n == 0 {
      AccountedInitially(size);
    } else {
      OptRunAccounted(refs, size, limit, n - 1);
      var st0 := OptRun(refs, size, limit, n - 1);
      var st := OptRun(refs, size, limit, n);
      OptStepServes(st0, refs, n - 1, limit);
      ServingKeepsAccounted(st0.frames, st0.faults, st.frames, st.faults, refs[..n - 1], refs[n - 1]);
      assert refs[..n - 1] + [refs[n - 1]] == refs[..n];
    }
  }

  /** While the filled frames hold the distinct pages `d` and the rest are empty, a
      page is resident exactly when it is one of `d` or the sentinel. */
  lemma ResidentDuringWarmUp(frames: seq<int>, filled: nat, d: seq<int>, page: int)
    requires filled < |frames| && frames[..filled] == d
    requires forall j :: filled <= j < |frames| ==> frames[j] == Empty
    ensures page in frames <==> page == Empty || page in d
  {
    assert frames == d + frames[filled..];
    assert frames[filled] == Empty;
  }

  /** One warm-up step: with the distinct pages `d0` seen so far filling the first
      frames, each at the cost of one fault, and the other frames empty, serving `page`
      keeps that picture for the distinct pages including `page`. */
  lemma WarmUpStep(st0: OptState, refs: seq<int>, cur: nat, limit: int, d0: seq<int>)
    requires cur < |refs| && st0.filled < |st0.frames|
    requires st0.frames[..st0.filled] == d0 && st0.filled == st0.faults == |d0|
    requires forall j :: st0.filled <= j < |st0.frames| ==> st0.frames[j] == Empty
    ensures var page := refs[cur];
      var d := if page == Empty || page in d0 then d0 else d0 + [page];
      var st := OptStep(st0, refs, cur, limit);
      st.frames[..st.filled] == d && st.filled == st.faults == |d|
  {
    var page := refs[cur];
    ResidentDuringWarmUp(st0.frames, st0.filled, d0, page);
    if page !in st0.frames {
      var st := OptStep(st0, refs, cur, limit);
      assert st.frames[..st.filled] == st0.frames[..st0.filled] + [page];
    }
  }

  /** The warm-up: while fewer than `size` distinct pages have been referenced, the
      filled frames hold exactly those pages in order of first appearance, each having
      cost one fault and repeats none; once `size` distinct pages have been seen, every
      frame is filled. */
  lemma {:induction false} OptWarmUp(refs: seq<int>, size: nat, limit: int, n: nat)
    requires size > 0 && n <= |refs|
    ensures |Dedup(refs[..n])| < size ==>
      OptRun(refs, size, limit, n).frames[..OptRun(refs, size, limit, n).filled] == Dedup(refs[..n]) &&
      OptRun(refs, size, limit, n).filled == OptRun(refs, size, limit, n).faults == |Dedup(refs[..n])|
    ensures |Dedup(refs[..n])| >= size ==> OptRun(refs, size, limit, n).filled == size
  {
    if n > 0 {
      OptWarmUp(refs, size, limit, n - 1);
      DedupNext(refs, n - 1);
      if |Dedup(refs[..n - 1])| < size {
        OptRunShape(refs, size, limit, n - 1);
        WarmUpStep(OptRun(refs, size, limit, n - 1), refs, n - 1, limit, Dedup(refs[..n - 1]));
      }
    }
  }

  /** A reference to a resident page changes nothing. */
  lemma HitChangesNothing(st: OptState, refs: seq<int>, cur: nat, limit: int)
    requires cur < |refs| && st.filled <= |st.frames| && |st.frames| > 0 && refs[cur] in st.frames
    ensures OptStep(st, refs, cur, limit) == st
  {
  }

  /** The reference that brings the number of distinct pages up to `size` fills the
      last empty frame. */
  lemma WarmUpFillsLastFrame(refs: seq<int>, size: nat, limit: int, n: nat)
    requires size > 0 && 0 < n <= |refs|
    requires |Dedup(refs[..n - 1])| < size && |Dedup(refs[..n])| == size
    ensures OptRun(refs, size, limit, n).frames == Dedup(refs[..n])
    ensures OptRun(refs, size, limit, n).faults == size
  {
    var st0 := OptRun(refs, size, limit, n - 1);
    var st := OptRun(refs, size, limit, n);
    DedupNext(refs, n - 1);
    OptWarmUp(refs, size, limit, n - 1);
    OptRunShape(refs, size, limit, n - 1);
    WarmUpStep(st0, refs, n - 1, limit, Dedup(refs[..n - 1]));
    assert st.frames[..size] == st.frames;
  }

  /** On a trace of page numbers, the moment `size` distinct pages have been referenced
      the frames hold exactly those pages in order of first appearance, after `size`
      faults. */
  lemma {:induction false} OptWarmUpComplete(refs: seq<int>, size: nat, limit: int, n: nat)
    requires size > 0 && n <= |refs| && NonNegative(refs)
    ensures |Dedup(refs[..n])| == size ==>
      OptRun(refs, size, limit, n).frames == Dedup(refs[..n]) && OptRun(refs, size, limit, n).faults == size
  {
    if n > 0 && |Dedup(refs[..n])| == size {
      DedupNext(refs, n - 1);
      if |Dedup(refs[..n - 1])| < size {
        WarmUpFillsLastFrame(refs, size, limit, n);
      } else {
        OptWarmUpComplete(refs, size, limit, n - 1);
        var d0 := Dedup(refs[..n - 1]);
        assert refs[n - 1] >= 0 && |d0 + [refs[n - 1]]| != size;
        assert Dedup(refs[..n]) == d0 && refs[n - 1] in d0;
        HitChangesNothing(OptRun(refs, size, limit, n - 1), refs, n - 1, limit);
        assert OptRun(refs, size, limit, n) == OptRun(refs, size, limit, n - 1);
      }
    }
  }

  /** With a single frame the policy faults exactly when the page differs from the
      previous reference. */
  lemma {:induction false} OptSingleFrame(refs: seq<int>, limit: int, n: nat)
    requires n <= |refs| && NonNegative(refs)
    ensures OptRun(refs, 1, limit, n).faults == Changes(refs[..n])
    ensures n > 0 ==> OptRun(refs, 1, limit, n).frames == [refs[n - 1]]
  {
    if n > 0 {
      OptSingleFrame(refs, limit, n - 1);
      assert refs[..n][..n - 1] == refs[..n - 1];
      if n > 1 {
        assert refs[..n - 1][n - 2] == refs[n - 2];
      }
    }
  }
}
