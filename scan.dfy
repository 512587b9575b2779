/** The paginated scan of closed pull requests that collects the release
    candidates and finds the merge times of the two boundary PRs. */
module Scan {
  import opened PullRequests

  /** What the scan loop updates: the (possibly defaulted) `current` PR number,
      the collected `prs`, and the two boundary times. */
  datatype ScanState = ScanState(
    current: int,
    prs: seq<PullRequest>,
    lastMerged: Option<int>,
    currentMerged: Option<int>)

  /** The state after one page, whether the whole scan is `done`, and the page's
      tallies of merged and unmerged PRs. */
  datatype PageOutcome = PageOutcome(state: ScanState, done: bool, merged: nat, unmerged: nat)

  /** Pages as the list call answers them: `None` is a failed call. */
  type Pages = seq<Option<seq<PullRequest>>>

  function InitialState(current: int): ScanState
  {
    ScanState(current, [], None, None)
  }

  /** The PR was last updated before the last release's PR was merged. */
  predicate Expired(pr: PullRequest, lastMerged: Option<int>)
  {
    lastMerged.Some? && pr.updatedAt < lastMerged.value
  }

  /** A merged PR that leaves the page loop: the `last` PR, or an expired one. */
  predicate Breaks(pr: PullRequest, last: int, lastMerged: Option<int>)
  {
    pr.mergedAt.Some? && (pr.number == last || Expired(pr, lastMerged))
  }

  /** Accumulate a surviving merged PR, recording the upper boundary when it is
      the `current` PR. */
  function Collect(st: ScanState, pr: PullRequest): ScanState
  {
    st.(currentMerged := if pr.number == st.current then pr.mergedAt else st.currentMerged,
        prs := st.prs + [pr])
  }

  /** The merged PRs of `items`, in order: what a page contributes when nothing breaks. */
  function MergedOnly(items: seq<PullRequest>): (r: seq<PullRequest>)
  {
    if items == [] then []
    else (if items[0].mergedAt.Some? then [items[0]] else []) + MergedOnly(items[1..])
  }

  /** The inner loop over one page, from position `ix` on. */
  function PageFrom(items: seq<PullRequest>, ix: nat, last: int, st: ScanState,
                    merged: nat, unmerged: nat): (o: PageOutcome)
    requires ix <= |items|
    ensures o.state.current == st.current
    ensures st.prs <= o.state.prs
    ensures o.merged == merged + (|o.state.prs| - |st.prs|)
    ensures unmerged <= o.unmerged
    ensures (o.unmerged - unmerged) + (o.merged - merged) <= |items| - ix
    ensures forall j :: |st.prs| <= j < |o.state.prs| ==>
              o.state.prs[j].mergedAt.Some? && o.state.prs[j].number != last && o.state.prs[j] in items
    ensures o.done ==> o.state.lastMerged == st.lastMerged
    decreases |items| - ix
  {
    if ix == |items| then PageOutcome(st, false, merged, unmerged)
    else
      var pr := items[ix];
      if pr.mergedAt.None? then PageFrom(items, ix + 1, last, st, merged, unmerged + 1)
      else if pr.number == last then PageOutcome(st.(lastMerged := pr.mergedAt), false, merged, unmerged)
      else if Expired(pr, st.lastMerged) then PageOutcome(st, true, merged, unmerged)
      else PageFrom(items, ix + 1, last, Collect(st, pr), merged + 1, unmerged)
  }

  function ScanPageSpec(items: seq<PullRequest>, last: int, st: ScanState): PageOutcome
  {
    PageFrom(items, 0, last, st, 0, 0)
  }

  /** `current == 0` is replaced by the number of the page's first PR. */
  function Resolve(st: ScanState, items: seq<PullRequest>): (r: ScanState)
    requires |items| > 0
  {
    if st.current == 0 then st.(current := items[0].number) else st
  }

  /** The outer loop from 0-based page index `page` on. */
  function ScanFrom(pages: Pages, page: nat, last: int, st: ScanState): Result<ScanState>
    decreases |pages| - page
  {
    if page >= |pages| then Ok(st)
    else match pages[page]
      case None => Failure(TransportError)
      case Some(items) =>
        if |items| == 0 then Ok(st)
        else
          var o := ScanPageSpec(items, last, Resolve(st, items));
          if o.done then Ok(o.state) else ScanFrom(pages, page + 1, last, o.state)
  }

  /** The whole scan, started with the operator's `current` (0 when not given). */
  function ScanSpec(pages: Pages, last: int, current: int): Result<ScanState>
  {
    ScanFrom(pages, 0, last, InitialState(current))
  }

  /** The list call for the 1-based page `page`: past the last page the server
      answers with an empty list. */
  function Fetch(pages: Pages, page: nat): Option<seq<PullRequest>>
    requires page >= 1
  {
    if page <= |pages| then pages[page - 1] else Some([])
  }

  /** One page of the scan loop (`for ix := range results`). */
  method ScanPage(items: seq<PullRequest>, last: int, st0: ScanState) returns (o: PageOutcome)
    ensures o == ScanPageSpec(items, last, st0)
  {
    var st := st0;
    var merged, unmerged := 0, 0;
    var done := false;
    var ix := 0;
    while ix < |items|
      invariant ix <= |items|
      invariant PageFrom(items, ix, last, st, merged, unmerged) == ScanPageSpec(items, last, st0)
    {
      var result := items[ix];
      if result.mergedAt.None? {
        unmerged := unmerged + 1;
        ix := ix + 1;
        continue;
      }
      if result.number == last {
        st := st.(lastMerged := result.mergedAt);
        break;
      }
      if Expired(result, st.lastMerged) {
        done := true;
        break;
      }
      if result.number == st.current {
        st := st.(currentMerged := result.mergedAt);
      }
      st := st.(prs := st.prs + [result]);
      merged := merged + 1;
      ix := ix + 1;
    }
    o := PageOutcome(st, done, merged, unmerged);
  }

  /** The `for !done` loop over pages. */
  method ScanPages(pages: Pages, last: int, current: int) returns (r: Result<ScanState>)
    ensures r == ScanSpec(pages, last, current)
  {
    var done := false;
    var st := InitialState(current);
    var page := 0;
    while !done
      invariant page <= |pages|
      invariant !done ==> ScanFrom(pages, page, last, st) == ScanSpec(pages, last, current)
      invariant done ==> Ok(st) == ScanSpec(pages, last, current)
      decreases |pages| - page
    {
      page := page + 1;
      var results := Fetch(pages, page);
      if results.None? {
        return Failure(TransportError);
      }
      var items := results.value;
      if |items| == 0 {
        done := true;
        break;
      }
      if st.current == 0 {
        st := st.(current := items[0].number);
      }
      var o := ScanPage(items, last, st);
      st := o.state;
      done := o.done;
    }
    r := Ok(st);
  }

  // ---------------------------------------------------------------------
  // Properties of one page

  /** A PR that breaks the page loop ends it: every merged PR before it has
      been collected, it has not, and the scan stops exactly when it is not
      the `last` PR. */
  lemma {:induction false} BreakEndsPage(a: seq<PullRequest>, ix: nat, k: nat,
                                         last: int, st: ScanState, merged: nat, unmerged: nat)
    requires ix <= k < |a|
    requires Breaks(a[k], last, st.lastMerged)
    requires forall j :: ix <= j < k ==> !Breaks(a[j], last, st.lastMerged)
    ensures var o := PageFrom(a, ix, last, st, merged, unmerged);
      && o.state.prs == st.prs + MergedOnly(a[ix..k])
      && o.state.lastMerged == (if a[k].number == last then a[k].mergedAt else st.lastMerged)
      && o.done == (a[k].number != last)
    decreases k - ix
  {
    if ix == k {
      assert a[ix..k] == [];
      return;
    }
    var pr := a[ix];
    var rest := a[ix + 1..k];
    assert !Breaks(pr, last, st.lastMerged);
    assert MergedOnly(a[ix..k]) == (if pr.mergedAt.Some? then [pr] else []) + MergedOnly(rest) by {
      assert a[ix..k][0] == pr && a[ix..k][1..] == rest;
    }
    if pr.mergedAt.None? {
      BreakEndsPage(a, ix + 1, k, last, st, merged, unmerged + 1);
    } else {
      var st' := Collect(st, pr);
      BreakEndsPage(a, ix + 1, k, last, st', merged + 1, unmerged);
      assert st'.prs + MergedOnly(rest) == st.prs + ([pr] + MergedOnly(rest));
    }
  }

  /** Nothing after a breaking PR is looked at: the outcome is the same for
      every page that agrees with this one up to and including that PR. */
  lemma {:induction false} BreakIgnoresRest(a: seq<PullRequest>, b: seq<PullRequest>, ix: nat, k: nat,
                                            last: int, st: ScanState, merged: nat, unmerged: nat)
    requires ix <= k < |a| && k < |b| && a[..k + 1] == b[..k + 1]
    requires Breaks(a[k], last, st.lastMerged)
    requires forall j :: ix <= j < k ==> !Breaks(a[j], last, st.lastMerged)
    ensures PageFrom(a, ix, last, st, merged, unmerged) == PageFrom(b, ix, last, st, merged, unmerged)
    decreases k - ix
  {
    assert a[ix] == a[..k + 1][ix] == b[..k + 1][ix] == b[ix];
    var pr := a[ix];
    if ix < k {
      assert !Breaks(pr, last, st.lastMerged);
      if pr.mergedAt.None? {
        BreakIgnoresRest(a, b, ix + 1, k, last, st, merged, unmerged + 1);
      } else {
        BreakIgnoresRest(a, b, ix + 1, k, last, Collect(st, pr), merged + 1, unmerged);
      }
    }
  }

  /** A page on which no merged PR is the `last` PR or expired is walked to
      its end: every merged PR on it is collected, in order, and the scan is
      not done. */
  lemma {:induction false} NoBreakFillsPage(a: seq<PullRequest>, ix: nat, last: int, st: ScanState,
                                            merged: nat, unmerged: nat)
    requires ix <= |a|
    requires forall j :: ix <= j < |a| ==> !Breaks(a[j], last, st.lastMerged)
    ensures var o := PageFrom(a, ix, last, st, merged, unmerged);
      && o.state.prs == st.prs + MergedOnly(a[ix..])
      && o.state.lastMerged == st.lastMerged
      && !o.done
    decreases |a| - ix
  {
    if ix == |a| {
      assert a[ix..] == [];
      return;
    }
    var pr := a[ix];
    var rest := a[ix + 1..];
    assert !Breaks(pr, last, st.lastMerged);
    assert MergedOnly(a[ix..]) == (if pr.mergedAt.Some? then [pr] else []) + MergedOnly(rest) by {
      assert a[ix..][0] == pr && a[ix..][1..] == rest;
    }
    if pr.mergedAt.None? {
      NoBreakFillsPage(a, ix + 1, last, st, merged, unmerged + 1);
    } else {
      var st' := Collect(st, pr);
      NoBreakFillsPage(a, ix + 1, last, st', merged + 1, unmerged);
      assert st'.prs + MergedOnly(rest) == st.prs + ([pr] + MergedOnly(rest));
    }
  }

  /** A non-empty listed page without a breaking PR adds all of its merged PRs
      and hands the scan on to the next page. */
  lemma PageWithoutBreak(pages: Pages, page: nat, last: int, st: ScanState)
    requires page < |pages| && pages[page].Some? && |pages[page].value| > 0
    requires forall j :: 0 <= j < |pages[page].value| ==> !Breaks(pages[page].value[j], last, st.lastMerged)
    ensures var items := pages[page].value;
      var o := ScanPageSpec(items, last, Resolve(st, items));
      && o.state.prs == st.prs + MergedOnly(items)
      && o.state.lastMerged == st.lastMerged
      && ScanFrom(pages, page, last, st) == ScanFrom(pages, page + 1, last, o.state)
  {
    var items := pages[page].value;
    assert items[0..] == items;
    NoBreakFillsPage(items, 0, last, Resolve(st, items), 0, 0);
  }

  /** Reaching the PR numbered `last` records its merge time as the lower
      boundary, does not collect it, skips the rest of the page, and lets the
      scan go on to the next page. */
  lemma LastPrEndsPage(items: seq<PullRequest>, more: seq<PullRequest>, last: int, st: ScanState, k: nat)
    requires k < |items| && items[k].mergedAt.Some? && items[k].number == last
    requires forall j :: 0 <= j < k ==> !Breaks(items[j], last, st.lastMerged)
    ensures var o := ScanPageSpec(items, last, st);
      && !o.done
      && o.state.lastMerged == items[k].mergedAt
      && o.state.prs == st.prs + MergedOnly(items[..k])
      && o == ScanPageSpec(items[..k + 1] + more, last, st)
  {
    var b := items[..k + 1] + more;
    assert b[..k + 1] == items[..k + 1];
    assert items[0..k] == items[..k];
    BreakEndsPage(items, 0, k, last, st, 0, 0);
    BreakIgnoresRest(items, b, 0, k, last, st, 0, 0);
  }

  /** Once the lower boundary is known, a merged PR updated before it ends the
      whole scan: it is not collected, and no later page is fetched (the result
      does not depend on the pages after it). */
  lemma ExpiredEndsScan(pages: Pages, more: Pages, page: nat, last: int, st: ScanState, k: nat)
    requires page < |pages| && pages[page].Some? && |pages[page].value| > 0
    requires var items := pages[page].value;
      && k < |items| && items[k].mergedAt.Some? && items[k].number != last
      && Expired(items[k], st.lastMerged)
      && forall j :: 0 <= j < k ==> !Breaks(items[j], last, st.lastMerged)
    ensures ScanFrom(pages[..page + 1] + more, page, last, st) == ScanFrom(pages, page, last, st)
    ensures var r := ScanFrom(pages, page, last, st);
      && r.Ok?
      && r.value.prs == st.prs + MergedOnly(pages[page].value[..k])
      && r.value.lastMerged == st.lastMerged
  {
    var items := pages[page].value;
    var cut := pages[..page + 1] + more;
    assert cut[page] == pages[page];
    var st1 := Resolve(st, items);
    assert items[0..k] == items[..k];
    BreakEndsPage(items, 0, k, last, st1, 0, 0);
  }

  /** An empty page (or a page past the last) ends the scan with nothing changed. */
  lemma EmptyPageEndsScan(pages: Pages, page: nat, last: int, st: ScanState)
    requires page >= |pages| || pages[page] == Some([])
    ensures ScanFrom(pages, page, last, st) == Ok(st)
  {
  }

  /** Within one page the upper boundary is the merge time of the last PR
      collected whose number is `current`; with no such PR it is unchanged. */
  lemma {:induction false} CurrentRecorded(items: seq<PullRequest>, ix: nat, last: int, st: ScanState,
                                           merged: nat, unmerged: nat)
    requires ix <= |items|
    ensures var o := PageFrom(items, ix, last, st, merged, unmerged);
      (forall j :: |st.prs| <= j < |o.state.prs| ==> o.state.prs[j].number != st.current) ==>
        o.state.currentMerged == st.currentMerged
    ensures var o := PageFrom(items, ix, last, st, merged, unmerged);
      forall j :: |st.prs| <= j < |o.state.prs| && o.state.prs[j].number == st.current &&
                  (forall l :: j < l < |o.state.prs| ==> o.state.prs[l].number != st.current) ==>
        o.state.currentMerged == o.state.prs[j].mergedAt
    decreases |items| - ix
  {
    if ix < |items| {
      var pr := items[ix];
      if pr.mergedAt.None? {
        CurrentRecorded(items, ix + 1, last, st, merged, unmerged + 1);
      } else if pr.number != last && !Expired(pr, st.lastMerged) {
        var st1 := Collect(st, pr);
        CurrentRecorded(items, ix + 1, last, st1, merged + 1, unmerged);
        var o := PageFrom(items, ix + 1, last, st1, merged + 1, unmerged);
        assert o == PageFrom(items, ix, last, st, merged, unmerged);
        assert o.state.prs[|st.prs|] == pr by {
          assert st1.prs <= o.state.prs;
          assert st1.prs[|st.prs|] == pr;
        }
      }
    }
  }

  // ---------------------------------------------------------------------
  // Properties of the whole scan

  /** Where a collected PR may come from. */
  ghost predicate OnSomePage(pages: Pages, pr: PullRequest)
  {
    exists p :: 0 <= p < |pages| && pages[p].Some? && pr in pages[p].value
  }

  /** Every PR the scan collects was merged, is not the `last` PR, and was
      listed on some page. */
  lemma {:induction false} ScanCollectsMerged(pages: Pages, page: nat, last: int, st: ScanState)
    ensures var r := ScanFrom(pages, page, last, st);
      r.Ok? ==>
        && st.prs <= r.value.prs
        && forall j :: |st.prs| <= j < |r.value.prs| ==>
             r.value.prs[j].mergedAt.Some? && r.value.prs[j].number != last &&
             OnSomePage(pages, r.value.prs[j])
    decreases |pages| - page
  {
    if page < |pages| && pages[page].Some? && |pages[page].value| > 0 {
      var items := pages[page].value;
      var o := ScanPageSpec(items, last, Resolve(st, items));
      forall j | |st.prs| <= j < |o.state.prs|
        ensures OnSomePage(pages, o.state.prs[j])
      {
        assert o.state.prs[j] in pages[page].value;
      }
      if !o.done {
        ScanCollectsMerged(pages, page + 1, last, o.state);
      }
    }
  }

  /** The collected PRs of a successful scan are all merged and none is the `last` PR. */
  lemma ScanOnlyMerged(pages: Pages, last: int, current: int)
    ensures var r := ScanSpec(pages, last, current);
      r.Ok? ==> AllMerged(r.value.prs) &&
                forall i :: 0 <= i < |r.value.prs| ==> r.value.prs[i].number != last &&
                                                        OnSomePage(pages, r.value.prs[i])
  {
    ScanCollectsMerged(pages, 0, last, InitialState(current));
  }

  /** A non-zero `current` is never changed by the scan. */
  lemma {:induction false} CurrentKept(pages: Pages, page: nat, last: int, st: ScanState)
    requires st.current != 0
    ensures var r := ScanFrom(pages, page, last, st); r.Ok? ==> r.value.current == st.current
    decreases |pages| - page
  {
    if page < |pages| && pages[page].Some? && |pages[page].value| > 0 {
      var items := pages[page].value;
      var o := ScanPageSpec(items, last, Resolve(st, items));
      if !o.done {
        CurrentKept(pages, page + 1, last, o.state);
      }
    }
  }

  /** With `current` 0, the scan takes the number of the first PR on the first
      page, merged or not; a non-zero number is then kept to the end. An empty
      first page leaves it 0. */
  lemma CurrentDefault(pages: Pages, last: int)
    requires |pages| > 0 && pages[0].Some?
    ensures var r := ScanSpec(pages, last, 0);
      r.Ok? && |pages[0].value| > 0 && pages[0].value[0].number != 0 ==>
        r.value.current == pages[0].value[0].number
    ensures var r := ScanSpec(pages, last, 0);
      |pages[0].value| == 0 ==> r == Ok(InitialState(0))
  {
    if |pages[0].value| > 0 && pages[0].value[0].number != 0 {
      var items := pages[0].value;
      var st1 := Resolve(InitialState(0), items);
      var o := ScanPageSpec(items, last, st1);
      if !o.done {
        CurrentKept(pages, 1, last, o.state);
      }
    }
  }

  /** The operator's non-zero `current` survives the scan. */
  lemma CurrentGiven(pages: Pages, last: int, current: int)
    requires current != 0
    ensures var r := ScanSpec(pages, last, current); r.Ok? ==> r.value.current == current
  {
    CurrentKept(pages, 0, last, InitialState(current));
  }
}
