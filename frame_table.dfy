/** The frame table shared by every simulator: a small fixed array of frames, each
    holding a resident page number or the empty sentinel, and the linear residency
    test `locate` that all four policies use. */
module FrameTable {

  /** Sentinel stored in a frame that holds no page. */
  const Empty := -1

  /** Position of the first occurrence of `x` in `s`, or -1 when `x` does not occur. */
  function IndexOf(s: seq<int>, x: int): (r: int)
    ensures -1 <= r < |s|
    ensures r == -1 <==> x !in s
    ensures 0 <= r ==> s[r] == x && forall j :: 0 <= j < r ==> s[j] != x
  {
    if s == [] then -1
    else if s[0] == x then 0
    else
      var r' := IndexOf(s[1..], x);
      assert s == [s[0]] + s[1..];
      if r' < 0 then -1 else r' + 1
  }

  /** The first occurrence of a value in a prefix is its first occurrence in the whole. */
  lemma IndexOfPrefix(s: seq<int>, k: nat, x: int)
    requires k <= |s| && x in s[..k]
    ensures IndexOf(s, x) == IndexOf(s[..k], x)
  {
    var r := IndexOf(s[..k], x);
    assert s[r] == x;
  }

  /** Linear residency test over `frames[0..size)`: the lowest index holding `page`,
      or -1 when no frame holds it. Reads the frames and changes nothing. */
  method Locate(frames: array<int>, size: int, page: int) returns (idx: int)
    requires 0 <= size <= frames.Length
    ensures -1 <= idx < size
    ensures 0 <= idx ==> frames[idx] == page && forall j :: 0 <= j < idx ==> frames[j] != page
    ensures idx == -1 <==> forall j :: 0 <= j < size ==> frames[j] != page
    ensures idx == IndexOf(frames[..size], page)
  {
    var i := 0;
    while i < size
      invariant 0 <= i <= size
      invariant forall j :: 0 <= j < i ==> frames[j] != page
    {
      if frames[i] == page {
        return i;
      }
      i := i + 1;
    }
    return -1;
  }

  /** No two frames hold the same value. */
  ghost predicate Distinct(frames: seq<int>)
  {
    forall i, j :: 0 <= i < j < |frames| ==> frames[i] != frames[j]
  }

  /** No page is resident in two frames (empty frames may repeat). */
  ghost predicate ResidentDistinct(frames: seq<int>)
  {
    forall i, j :: 0 <= i < j < |frames| && frames[i] != Empty ==> frames[i] != frames[j]
  }

  /** The frames filled so far are exactly the first `loaded` ones: a frame is empty
      precisely when its index is at least the number of loads. */
  ghost predicate FilledInOrder(frames: seq<int>, loaded: nat)
  {
    forall j :: 0 <= j < |frames| ==> (frames[j] == Empty <==> loaded <= j)
  }

  /** `frames'` is `frames` with frame `v` (and no other) now holding `page`. */
  ghost predicate Overwrites(frames: seq<int>, frames': seq<int>, v: int, page: int)
  {
    |frames'| == |frames| && 0 <= v < |frames| && frames'[v] == page &&
    forall j :: 0 <= j < |frames| && j != v ==> frames'[j] == frames[j]
  }

  /** What every policy does with one reference: on a hit the frames and the fault
      count are unchanged; on a miss the count grows by one and exactly one frame is
      overwritten with the page. */
  ghost predicate ServesReference(frames: seq<int>, faults: nat, frames': seq<int>, faults': nat, page: int)
  {
    |frames'| == |frames| &&
    if page in frames then frames' == frames && faults' == faults
    else faults' == faults + 1 && exists v :: Overwrites(frames, frames', v, page)
  }

  /** Serving a reference never puts one page into two frames. */
  lemma ServingKeepsResidentDistinct(frames: seq<int>, faults: nat, frames': seq<int>, faults': nat, page: int)
    requires ResidentDistinct(frames)
    requires ServesReference(frames, faults, frames', faults', page)
    ensures ResidentDistinct(frames')
  {
    if page !in frames {
      var v :| Overwrites(frames, frames', v, page);
      forall i, j | 0 <= i < j < |frames'| && frames'[i] != Empty
        ensures frames'[i] != frames'[j]
      {
        if i == v {
          assert frames[j] in frames;
        } else if j == v {
          assert frames[i] in frames;
        }
      }
    }
  }

  /** Division by a positive `n` is unique: `q * n + r` with `0 <= r < n` leaves
      remainder `r`. */
  lemma ModUnique(a: int, n: int, q: int, r: int)
    requires 0 < n && 0 <= r < n && a == q * n + r
    ensures a % n == r && a / n == q
  {
    var q', r' := a / n, a % n;
    assert (q - q') * n == r' - r;
    if q - q' >= 1 {
    } else if q - q' <= -1 {
    }
  }

  /** Advancing a circular pointer by one is advancing the count it stands for. */
  lemma ModSuccessor(k: int, n: int)
    requires n > 0
    ensures (k % n + 1) % n == (k + 1) % n
  {
    var q, r := k / n, k % n;
    if r + 1 < n {
      ModUnique(k + 1, n, q, r + 1);
      ModUnique(r + 1, n, 0, r + 1);
    } else {
      ModUnique(k + 1, n, q + 1, 0);
      ModUnique(r + 1, n, 1, 0);
    }
  }

  /** A circular pointer below `n` advances by one, wrapping to 0 at `n`. */
  lemma NextSlot(f: int, n: int)
    requires 0 <= f < n
    ensures (f + 1) % n == if f + 1 == n then 0 else f + 1
  {
    if f + 1 == n {
      ModUnique(f + 1, n, 1, 0);
    } else {
      ModUnique(f + 1, n, 0, f + 1);
    }
  }
}
