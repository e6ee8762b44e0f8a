/**
 * Unique slug allocation: the loop in `Document.save` and in
 * `DocumentSerializer.update` that tries `base`, `base-1`, `base-2`, ...
 * against the finite set of slugs already stored and keeps the first one not
 * taken.  `slugify` itself is left abstract: callers pass `base` in.
 */
module Slugs {
  import Decimal

  /** The k-th slug tried: `base` first, then `f"{base}-{k}"`. */
  function Candidate(base: string, k: nat): (s: string)
    ensures base <= s
    ensures k == 0 <==> s == base
  {
    if k == 0 then base else base + "-" + Decimal.NatToString(k)
  }

  /** The probe never tries the same slug twice. */
  lemma CandidateInjective(base: string, j: nat, k: nat)
    ensures Candidate(base, j) == Candidate(base, k) ==> j == k
  {
    if Candidate(base, j) == Candidate(base, k) && j != 0 && k != 0 {
      var n := |base| + 1;
      assert Candidate(base, j)[n..] == Decimal.NatToString(j);
      assert Candidate(base, k)[n..] == Decimal.NatToString(k);
      Decimal.NatToStringInjective(j, k);
    }
  }

  /** The slugs tried by the time the counter reaches k. */
  ghost function Tried(base: string, k: nat): set<string> {
    set j | 0 <= j < k :: Candidate(base, j)
  }

  lemma TriedStep(base: string, k: nat)
    ensures Tried(base, k + 1) == Tried(base, k) + {Candidate(base, k)}
    ensures Candidate(base, k) !in Tried(base, k)
  {
    if Candidate(base, k) in Tried(base, k) {
      var j :| 0 <= j < k && Candidate(base, j) == Candidate(base, k);
      CandidateInjective(base, j, k);
    }
  }

  lemma {:induction false} TriedSize(base: string, k: nat)
    ensures |Tried(base, k)| == k
  {
    if k > 0 {
      TriedSize(base, k - 1);
      TriedStep(base, k - 1);
    }
  }

  /** While every slug tried so far is taken, the counter cannot exceed the number of taken slugs. */
  lemma TriedBound(base: string, taken: set<string>, k: nat)
    requires forall j :: 0 <= j < k ==> Candidate(base, j) in taken
    ensures k <= |taken|
  {
    TriedSize(base, k);
    assert Tried(base, k) <= taken;
    assert |Tried(base, k)| <= |taken| by {
      SubsetSize(Tried(base, k), taken);
    }
  }

  lemma SubsetSize<T>(a: set<T>, b: set<T>)
    requires a <= b
    ensures |a| <= |b|
  {
    assert b == a + (b - a);
  }

  /**
   * The loop itself, from counter k on: the first index at or after k whose
   * candidate is free.  It terminates because `taken` is finite.
   */
  function FirstFreeFrom(base: string, taken: set<string>, k: nat): (i: nat)
    requires forall j :: 0 <= j < k ==> Candidate(base, j) in taken
    ensures k <= i
    ensures Candidate(base, i) !in taken
    ensures forall j :: 0 <= j < i ==> Candidate(base, j) in taken
    decreases |taken| - k
  {
    if Candidate(base, k) !in taken then k
    else
      TriedBound(base, taken, k + 1);
      FirstFreeFrom(base, taken, k + 1)
  }

  /** Index of the allocated slug: 0 for `base` itself, otherwise the counter value used. */
  function FirstFree(base: string, taken: set<string>): (i: nat)
    ensures Candidate(base, i) !in taken
    ensures forall j :: 0 <= j < i ==> Candidate(base, j) in taken
    ensures i <= |taken|
  {
    var i := FirstFreeFrom(base, taken, 0);
    TriedBound(base, taken, i);
    i
  }

  /** The slug the allocation loop settles on. */
  function Allocate(base: string, taken: set<string>): (slug: string)
    ensures slug !in taken
    ensures base <= slug
    ensures base !in taken ==> slug == base
    ensures base in taken ==> exists k: nat :: 1 <= k <= |taken| && slug == base + "-" + Decimal.NatToString(k)
  {
    Candidate(base, FirstFree(base, taken))
  }

  /**
   * An independent description of the loop's answer: the least-indexed free
   * candidate.
   */
  ghost predicate IsLeastFree(base: string, taken: set<string>, slug: string) {
    exists i: nat :: slug == Candidate(base, i) && slug !in taken
      && forall j :: 0 <= j < i ==> Candidate(base, j) in taken
  }

  /** The allocated slug is the least free candidate, and no other slug is. */
  lemma AllocateIsLeastFree(base: string, taken: set<string>, slug: string)
    ensures IsLeastFree(base, taken, slug) <==> slug == Allocate(base, taken)
  {
    var a := FirstFree(base, taken);
    if IsLeastFree(base, taken, slug) {
      var i: nat :| slug == Candidate(base, i) && slug !in taken
        && forall j :: 0 <= j < i ==> Candidate(base, j) in taken;
      assert i == a;
    }
  }

  /** Allocation depends on the taken set only through membership of the candidates. */
  lemma AllocateIgnoresUnrelated(base: string, taken: set<string>, other: string)
    requires forall k: nat :: other != Candidate(base, k)
    ensures Allocate(base, taken + {other}) == Allocate(base, taken)
  {
    var s := Allocate(base, taken);
    AllocateIsLeastFree(base, taken, s);
    var i: nat :| s == Candidate(base, i) && s !in taken
      && forall j :: 0 <= j < i ==> Candidate(base, j) in taken;
    assert IsLeastFree(base, taken + {other}, s);
    AllocateIsLeastFree(base, taken + {other}, s);
  }
}
