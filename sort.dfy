/** `sort.Sort(byMerged(prs))`: the collected PRs ordered by merge time, in place.
    The library sort is not stable, so only order and permutation are promised;
    the model sorts by insertion through the same `Less` and `Swap`. */
module MergeOrder {
  import opened PullRequests

  /** `byMerged.Less`: PR `i` was merged strictly before PR `j`. */
  function Less(a: array<PullRequest>, i: nat, j: nat): (r: bool)
    reads a
    requires i < a.Length && j < a.Length
    requires a[i].mergedAt.Some? && a[j].mergedAt.Some?
  {
    MergedAt(a[i]) < MergedAt(a[j])
  }

  /** `byMerged.Swap`. */
  method Swap(a: array<PullRequest>, i: nat, j: nat)
    requires i < a.Length && j < a.Length
    modifies a
    ensures a[i] == old(a[j]) && a[j] == old(a[i])
    ensures forall m :: 0 <= m < a.Length && m != i && m != j ==> a[m] == old(a[m])
    ensures multiset(a[..]) == multiset(old(a[..]))
  {
    a[i], a[j] := a[j], a[i];
  }

  /** Sorts `a` by merge time; every element must be merged, as `Less`
      dereferences both merge times. */
  method SortByMerged(a: array<PullRequest>)
    requires AllMerged(a[..])
    modifies a
    ensures SortedByMerged(a[..])
    ensures multiset(a[..]) == multiset(old(a[..]))
  {
    var i := 0;
    while i < a.Length
      invariant i <= a.Length
      invariant AllMerged(a[..])
      invariant forall k, l :: 0 <= k < l < i ==> MergedAt(a[k]) <= MergedAt(a[l])
      invariant multiset(a[..]) == multiset(old(a[..]))
    {
      var j := i;
      while j > 0 && Less(a, j, j - 1)
        invariant 0 <= j <= i
        invariant AllMerged(a[..])
        invariant forall k, l :: 0 <= k < l <= i && k != j && l != j ==> MergedAt(a[k]) <= MergedAt(a[l])
        invariant forall l :: j < l <= i ==> MergedAt(a[j]) < MergedAt(a[l])
        invariant multiset(a[..]) == multiset(old(a[..]))
      {
        Swap(a, j, j - 1);
        j := j - 1;
      }
      i := i + 1;
    }
  }
}
