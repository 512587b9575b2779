/** Values shared by the page scan, the merge-time sort and the note formatter. */
module PullRequests {

  datatype Option<T> = None | Some(value: T)

  /** Why a run is aborted: a GitHub call failed, or a boundary time that was
      never found is dereferenced (a nil *time.Time in the program). */
  datatype Error = TransportError | NilDereference

  datatype Result<T> = Ok(value: T) | Failure(error: Error)

  /** A closed pull request as the list endpoint reports it. Timestamps are
      integers compared with strict `<`; `mergedAt` is `None` for a PR that was
      closed without being merged. */
  datatype PullRequest = PullRequest(
    number: int,
    title: string,
    login: string,
    mergedAt: Option<int>,
    updatedAt: int)

  predicate AllMerged(prs: seq<PullRequest>)
  {
    forall i :: 0 <= i < |prs| ==> prs[i].mergedAt.Some?
  }

  /** `*pr.MergedAt`: only defined for a merged PR. */
  function MergedAt(pr: PullRequest): int
    requires pr.mergedAt.Some?
  {
    pr.mergedAt.value
  }

  /** Non-decreasing by merge time: what `sort.Sort(byMerged(prs))` leaves behind. */
  predicate SortedByMerged(prs: seq<PullRequest>)
  {
    AllMerged(prs) &&
    forall i, j :: 0 <= i < j < |prs| ==> MergedAt(prs[i]) <= MergedAt(prs[j])
  }
}
