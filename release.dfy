/** One run of the release tool: the flag guards, the scan, the sort, the
    notes, and the release draft that would be published. */
module Release {
  import opened PullRequests
  import opened Scan
  import opened MergeOrder
  import opened Notes

  /** The command-line flags that affect the outcome. */
  datatype Config = Config(
    last: int,
    current: int,
    token: string,
    relnoteFilter: bool,
    releaseName: string,
    tagName: string,
    preRelease: bool)

  /** `last == 0 || token == ""`: the run stops before any request. */
  predicate MissingScanFlags(cfg: Config)
  {
    cfg.last == 0 || cfg.token == ""
  }

  /** `tagName == "" || releaseName == ""`: the notes are printed but no
      release is created. */
  predicate MissingReleaseFlags(cfg: Config)
  {
    cfg.tagName == "" || cfg.releaseName == ""
  }

  /** The release handed to the create-release call. */
  datatype ReleaseDraft = ReleaseDraft(tagName: string, name: string, prerelease: bool, body: string)

  datatype Outcome =
    | UsageError                    // exit 1 before anything is fetched
    | Aborted(error: Error)         // a failed call or a nil boundary time
    | NotesOnly(notes: string)      // notes printed, then exit 1 for lack of tag or release name
    | Publish(draft: ReleaseDraft)  // the notes become the body of a new release

  /** What follows from the note buffer (or its failure). */
  function Conclude(cfg: Config, notes: Result<string>): (o: Outcome)
    ensures notes.Failure? ==> o == Aborted(notes.error)
    ensures notes.Ok? && MissingReleaseFlags(cfg) ==> o == NotesOnly(notes.value)
    ensures notes.Ok? && !MissingReleaseFlags(cfg) ==>
              o.Publish? && o.draft.body == notes.value && o.draft.tagName == cfg.tagName &&
              o.draft.name == cfg.releaseName && o.draft.prerelease == cfg.preRelease
  {
    match notes
    case Failure(e) => Aborted(e)
    case Ok(body) =>
      if MissingReleaseFlags(cfg) then NotesOnly(body)
      else Publish(ReleaseDraft(cfg.tagName, cfg.releaseName, cfg.preRelease, body))
  }

  /** The whole program: guard, scan, sort, notes, draft. `sorted` is the
      collected PR list after the in-place sort. */
  method Run(cfg: Config, pages: Pages, labels: Labels) returns (outcome: Outcome, sorted: seq<PullRequest>)
    ensures MissingScanFlags(cfg) ==> outcome == UsageError && sorted == []
    ensures !MissingScanFlags(cfg) ==>
      var scan := ScanSpec(pages, cfg.last, cfg.current);
      if scan.Failure? then outcome == Aborted(scan.error) && sorted == []
      else
        && SortedByMerged(sorted)
        && multiset(sorted) == multiset(scan.value.prs)
        && outcome == Conclude(cfg, RenderResult(NoteLines(sorted, scan.value.lastMerged,
                                                           scan.value.currentMerged, cfg.relnoteFilter, labels)))
  {
    if MissingScanFlags(cfg) {
      return UsageError, [];
    }
    var scan := ScanPages(pages, cfg.last, cfg.current);
    if scan.Failure? {
      return Aborted(scan.error), [];
    }
    var st := scan.value;
    ScanOnlyMerged(pages, cfg.last, cfg.current);
    var a := new PullRequest[|st.prs|](i requires 0 <= i < |st.prs| => st.prs[i]);
    assert a[..] == st.prs;
    SortByMerged(a);
    sorted := a[..];
    var notes := BuildNotes(sorted, st.lastMerged, st.currentMerged, cfg.relnoteFilter, labels);
    outcome := Conclude(cfg, notes);
  }

  /** Whatever order the sort leaves equal merge times in, the lines written
      come from collected PRs (merged, not the `last` PR, listed on a page),
      lie strictly inside the window, carry the label when filtering, and are
      in merge-time order; the buffer has one line per entry. */
  lemma WrittenNotes(pages: Pages, last: int, current: int, sorted: seq<PullRequest>,
                     relnoteFilter: bool, labels: Labels)
    requires ScanSpec(pages, last, current).Ok?
    requires SortedByMerged(sorted)
    requires multiset(sorted) == multiset(ScanSpec(pages, last, current).value.prs)
    ensures var st := ScanSpec(pages, last, current).value;
      var r := NoteLines(sorted, st.lastMerged, st.currentMerged, relnoteFilter, labels);
      r.Ok? ==>
        && SortedByMerged(r.value)
        && (forall pr :: pr in r.value ==>
              && pr in st.prs && pr.number != last && OnSomePage(pages, pr)
              && Selected(pr, st.lastMerged, st.currentMerged, relnoteFilter, labels))
        && (forall pr :: pr in st.prs && Selected(pr, st.lastMerged, st.currentMerged, relnoteFilter, labels) ==>
              pr in r.value)
  {
    var st := ScanSpec(pages, last, current).value;
    ScanOnlyMerged(pages, last, current);
    NotesSorted(sorted, st.lastMerged, st.currentMerged, relnoteFilter, labels);
    NotesMembership(sorted, st.lastMerged, st.currentMerged, relnoteFilter, labels);
    forall pr | pr in st.prs
      ensures pr in sorted && pr.number != last && OnSomePage(pages, pr)
    {
      assert pr in multiset(st.prs);
    }
    forall pr | pr in sorted
      ensures pr in st.prs
    {
      assert pr in multiset(sorted);
    }
  }

  // ---------------------------------------------------------------------
  // A worked example: last = 10 merged at 200, current = 20 merged at 400,
  // and one PR merged before, between and after those times.

  const After := PullRequest(4, "after", "d", Some(500), 500)
  const Current := PullRequest(20, "current", "c", Some(400), 400)
  const Middle := PullRequest(3, "middle", "b", Some(300), 300)
  const Last := PullRequest(10, "last", "a", Some(200), 200)
  const Before := PullRequest(2, "before", "e", Some(100), 100)

  function ExamplePages(): Pages
  {
    [Some([After, Current, Middle, Last, Before])]
  }

  /** The scan stops collecting at the `last` PR, records both boundary
      times, and leaves `current` as given. */
  lemma ExampleScan()
    ensures ScanSpec(ExamplePages(), 10, 20) == Ok(ScanState(20, [After, Current, Middle], Some(200), Some(400)))
  {
    var items := [After, Current, Middle, Last, Before];
    assert ExamplePages()[0] == Some(items);
    var s0 := InitialState(20);
    assert Resolve(s0, items) == s0;
    var s1 := ScanState(20, [After], None, None);
    var s2 := ScanState(20, [After, Current], None, Some(400));
    var s3 := ScanState(20, [After, Current, Middle], None, Some(400));
    assert Collect(s0, After) == s1;
    assert Collect(s1, Current) == s2;
    assert Collect(s2, Middle) == s3;
    var done := PageOutcome(s3.(lastMerged := Some(200)), false, 3, 0);
    assert PageFrom(items, 3, 10, s3, 3, 0) == done;
    assert PageFrom(items, 2, 10, s2, 2, 0) == done;
    assert PageFrom(items, 1, 10, s1, 1, 0) == done;
    assert ScanPageSpec(items, 10, s0) == done;
  }

  /** Merge times 300, 400, 500 are distinct, so the sort has one result. */
  lemma ExampleSorted(sorted: seq<PullRequest>)
    requires SortedByMerged(sorted) && multiset(sorted) == multiset([After, Current, Middle])
    ensures sorted == [Middle, Current, After]
  {
    assert |sorted| == 3 by {
      assert |multiset(sorted)| == |sorted|;
    }
    forall i | 0 <= i < 3
      ensures sorted[i] == After || sorted[i] == Current || sorted[i] == Middle
    {
      assert sorted[i] in multiset([After, Current, Middle]);
    }
    assert Middle in multiset(sorted) && Current in multiset(sorted) && After in multiset(sorted);
  }

  /** Of the three collected PRs, in merge order, only the middle one is
      written to the notes. */
  lemma ExampleNotes(labels: Labels)
    ensures NoteLines([Middle, Current, After], Some(200), Some(400), false, labels) == Ok([Middle])
  {
    var lm, cm := Some(200), Some(400);
    var none: seq<PullRequest> := [];
    assert [After][1..] == none && [Current, After][1..] == [After] && [Middle, Current, After][1..] == [Current, After];
    assert NoteLines(none, lm, cm, false, labels) == Ok(none);
    assert Repeat(After, 0) == none && none + none == none;
    assert NoteLines([After], lm, cm, false, labels) == Ok(none);
    assert NoteLines([Current, After], lm, cm, false, labels) == Ok(none);
    assert Repeat(Middle, 1) == [Middle];
    assert [Middle] + none == [Middle];
  }

  /** Whatever the sort does, only the middle PR is written. */
  lemma ExampleWindow(sorted: seq<PullRequest>, labels: Labels)
    requires SortedByMerged(sorted) && multiset(sorted) == multiset([After, Current, Middle])
    ensures NoteLines(sorted, Some(200), Some(400), false, labels) == Ok([Middle])
  {
    ExampleSorted(sorted);
    ExampleNotes(labels);
  }
}
