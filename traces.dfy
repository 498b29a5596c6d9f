/** Reference strings and the facts about them that every simulator shares: what a
    well-formed trace looks like, the distinct pages in order of first appearance,
    and the bookkeeping invariant that any policy obeying `ServesReference` keeps. */
module Traces {
  import opened FrameTable

  /** Page numbers are never negative (the generator only produces pages in [0, P)). */
  ghost predicate NonNegative(refs: seq<int>)
  {
    forall i :: 0 <= i < |refs| ==> refs[i] >= 0
  }

  /** No reference repeats the one just before it. */
  ghost predicate NoImmediateRepeat(refs: seq<int>)
  {
    forall i :: 0 < i < |refs| ==> refs[i] != refs[i - 1]
  }

  /** The number of positions whose page differs from the previous reference (the first
      reference always counts): the fault count of a single-frame memory. */
  function Changes(refs: seq<int>): (c: nat)
    ensures c <= |refs|
    ensures refs != [] ==> 1 <= c
  {
    if refs == [] then 0
    else
      var n := |refs|;
      Changes(refs[..n - 1]) + (if n == 1 || refs[n - 1] != refs[n - 2] then 1 else 0)
  }

  /** On a trace without immediate repeats every reference is a change. */
  lemma {:induction false} ChangesOfNoImmediateRepeat(refs: seq<int>)
    requires NoImmediateRepeat(refs)
    ensures Changes(refs) == |refs|
  {
    if refs != [] {
      var pre := refs[..|refs| - 1];
      assert NoImmediateRepeat(pre) by {
        forall i | 0 < i < |pre| ensures pre[i] != pre[i - 1] {
          assert pre[i] == refs[i] && pre[i - 1] == refs[i - 1];
        }
      }
      ChangesOfNoImmediateRepeat(pre);
    }
  }

  /** The distinct pages of `refs`, the empty sentinel excluded, in order of first
      appearance. */
  function Dedup(refs: seq<int>): (d: seq<int>)
    ensures forall x :: x in d <==> x in refs && x != Empty
    ensures Distinct(d)
    ensures |d| <= |refs|
  {
    if refs == [] then []
    else
      var pre := refs[..|refs| - 1];
      var x := refs[|refs| - 1];
      assert refs == pre + [x];
      var d := Dedup(pre);
      if x == Empty || x in d then d else d + [x]
  }

  /** One more reference adds its page to `Dedup` exactly when it is new. */
  lemma DedupNext(refs: seq<int>, n: nat)
    requires n < |refs|
    ensures Dedup(refs[..n + 1]) ==
      if refs[n] == Empty || refs[n] in Dedup(refs[..n]) then Dedup(refs[..n]) else Dedup(refs[..n]) + [refs[n]]
  {
    assert refs[..n + 1][..n] == refs[..n];
  }

  /** Appending a value keeps the first occurrences of the values already present. */
  lemma IndexOfAppend(s: seq<int>, x: int, y: int)
    requires y in s
    ensures IndexOf(s + [x], y) == IndexOf(s, y)
  {
    IndexOfPrefix(s + [x], |s|, y);
    assert (s + [x])[..|s|] == s;
  }

  /** `Dedup` lists the pages in strictly increasing order of first appearance. */
  lemma {:induction false} DedupInFirstAppearanceOrder(refs: seq<int>)
    ensures forall a, b :: 0 <= a < b < |Dedup(refs)| ==>
      IndexOf(refs, Dedup(refs)[a]) < IndexOf(refs, Dedup(refs)[b])
  {
    if refs != [] {
      var pre := refs[..|refs| - 1];
      var x := refs[|refs| - 1];
      assert refs == pre + [x];
      DedupInFirstAppearanceOrder(pre);
      var d := Dedup(pre);
      forall y | y in d ensures IndexOf(refs, y) == IndexOf(pre, y) {
        IndexOfAppend(pre, x, y);
      }
      if !(x == Empty || x in d) {
        assert x !in pre;
        assert IndexOf(refs, x) == |pre|;
        forall a, b | 0 <= a < b < |d + [x]|
          ensures IndexOf(refs, (d + [x])[a]) < IndexOf(refs, (d + [x])[b])
        {
          assert (d + [x])[a] == d[a];
          if b < |d| {
            assert (d + [x])[b] == d[b];
          }
        }
      }
    }
  }

  /** Position of the last occurrence of `x` in `s`, or -1 when `x` does not occur. */
  function LastIndexOf(s: seq<int>, x: int): (r: int)
    ensures -1 <= r < |s|
    ensures r == -1 <==> x !in s
    ensures 0 <= r ==> s[r] == x && forall j :: r < j < |s| ==> s[j] != x
  {
    if s == [] then -1
    else if s[|s| - 1] == x then |s| - 1
    else
      assert s == s[..|s| - 1] + [s[|s| - 1]];
      LastIndexOf(s[..|s| - 1], x)
  }

  /** The bookkeeping every policy keeps after serving the references in `seen`: no page
      sits in two frames, only pages already referenced are resident, and the fault
      count lies between the number of distinct pages referenced (each one's first
      reference is a compulsory fault) and the number of references. */
  ghost predicate Accounted(frames: seq<int>, faults: nat, seen: seq<int>)
  {
    ResidentDistinct(frames) &&
    (forall j :: 0 <= j < |frames| && frames[j] != Empty ==> frames[j] in seen) &&
    |Dedup(seen)| <= faults <= |seen|
  }

  /** All-empty frames have served the empty trace. */
  lemma AccountedInitially(size: nat)
    ensures Accounted(seq(size, _ => Empty), 0, [])
  {
  }

  /** Serving one more (non-sentinel) reference as `ServesReference` demands keeps the
      bookkeeping invariant, whatever the policy chose as its victim. */
  lemma ServingKeepsAccounted(frames: seq<int>, faults: nat, frames': seq<int>, faults': nat,
                              seen: seq<int>, page: int)
    requires Accounted(frames, faults, seen)
    requires ServesReference(frames, faults, frames', faults', page)
    requires page != Empty
    ensures Accounted(frames', faults', seen + [page])
  {
    ServingKeepsResidentDistinct(frames, faults, frames', faults', page);
    var seen' := seen + [page];
    assert seen'[..|seen'| - 1] == seen;
    if page !in frames {
      var v :| Overwrites(frames, frames', v, page);
      forall j | 0 <= j < |frames'| && frames'[j] != Empty ensures frames'[j] in seen' {
        if j != v {
          assert frames'[j] == frames[j] && frames[j] in seen;
        }
      }
    } else {
      var j := IndexOf(frames, page);
      assert page in seen;
    }
  }

  /** Belady's trace, on which FIFO and second chance both fault more with four frames
      than with three. */
  const BeladyTrace: seq<int> := [1, 2, 3, 4, 1, 2, 5, 1, 2, 3, 4, 5]
}
