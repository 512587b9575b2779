# Release-note selection, modelled in Dafny

The `release` tool writes the release notes for one GitHub repository. It
walks the pages of closed pull requests, newest update first, and collects the
merged ones. Reaching the PR of the previous release (`--last`) records its
merge time and ends that page; the walk goes on with the next page. The walk
stops at an empty page, or at a merged PR last updated before the `last` PR
was merged. The PR of the new release (`--current`) gives the upper boundary.
The collected PRs are sorted by merge time. Every PR merged strictly between the two boundary times becomes the
bullet line `   * <title> (#<number>, @<login>)`. With `--relnote-filter`, a PR
becomes one such line for each of its labels named exactly `release-note`.
Finally the notes become the body of a new release, when a tag and a release
name were given.

This project models that logic, all of which lives in `main` in `release.go`:

- `pull_requests.dfy` (module `PullRequests`): the pull-request record, with
  integer timestamps and an optional merge time. Also the `Result` and error
  values that replace `os.Exit(1)` and the nil-pointer panic.
- `scan.dfy` (module `Scan`): the page scan. `PageFrom` and `ScanFrom` are
  its specification. `ScanPage` (the loop over one page) and `ScanPages` (the
  `for !done` loop) are the imperative code, each proved equal to its
  specification. Lemmas cover unmerged PRs, pages without a breaking PR, the
  `last` PR, expiry, empty pages and `current`.
- `sort.dfy` (module `MergeOrder`): `byMerged`'s `Less` and `Swap`, and an
  in-place sort of an array through them. The sort is proved to leave the
  array ordered by merge time and a permutation of what it was.
- `notes.dfy` (module `Notes`): the window filter, the label filter and the
  line format, including Go's `%d`. `NoteLines` is the specification and
  `BuildNotes` the buffer-filling loop proved against it. Lemmas cover
  membership (an if-and-only-if), failure (an if-and-only-if), ordering, the
  unfiltered case, and one line per entry.
- `release.dfy` (module `Release`): the flag guards, the whole run (`Run`),
  the release draft, a composition lemma, and the worked example "last = 10,
  current = 20, one PR before, between and after": only the middle PR is written.

Inputs that the program fetches over the network are parameters here:

- `pages`: a sequence with one entry per page of the list call. `None` stands
  for a failed call. Past the end of the sequence the server answers with an
  empty page.
- `labels`: a map from PR number to label names. A number missing from the
  map stands for a failed label lookup.

Behaviour of the program that the model keeps:

- The `current` PR itself is appended to the collected list. Only the strict
  upper bound keeps it out of the notes.
- Each bullet line ends in a newline.
- `sort.Sort` is not stable, so PRs with equal merge times may come out in any
  order. Every property about the notes is proved for any ordered permutation.
- A boundary that was never found is dereferenced as a nil pointer at line 141,
  but only once some sorted PR reaches that test. The model returns
  `Failure(NilDereference)` in exactly those cases.
- While `current` is 0, every page re-checks it. So if the first PR's number
  were 0, the next page would set `current` again.

## Model

| member | source | states |
|---|---|---|
| `Scan.PageFrom` | release.go:112-135 | One page's loop: it keeps `current`, only extends `prs`, and counts as `merged` exactly the PRs it appends. Every PR it appends is merged, is not the `last` PR, and is on the page. When it ends the scan, the lower boundary is unchanged. |
| `Scan.ScanPage` | release.go:112-135 | The loop over one page (with `continue` on unmerged PRs and `break` on the last or an expired PR) returns exactly the outcome `PageFrom` specifies |
| `Scan.ScanPages` | release.go:88-137 | The `for !done` loop over 1-based pages returns exactly the result `ScanSpec` specifies. This includes `TransportError` for a failed page and the defaulting of `current` on a non-empty page. |
| `Scan.BreakEndsPage` | release.go:120-128 | If a merged PR is the `last` PR or expired, and nothing before it breaks, then every earlier merged PR is collected and it is not. The lower boundary becomes its merge time exactly when it is the `last` PR. The scan is marked done exactly when it is not the `last` PR. |
| `Scan.BreakIgnoresRest` | release.go:120-128 | After a breaking PR nothing else on the page is examined: two pages that agree up to that PR have the same outcome |
| `Scan.NoBreakFillsPage` | release.go:112-135 | On a page where no merged PR is the `last` PR or expired, every merged PR is collected, in page order. The scan is not done, and the lower boundary is unchanged. |
| `Scan.PageWithoutBreak` | release.go:88-137 | A listed, non-empty page without a breaking PR adds all of its merged PRs, keeps the lower boundary, and hands the scan on to the next page |
| `Scan.LastPrEndsPage` | release.go:120-124 | Reaching the `last` PR records its merge time as the lower boundary. The PR is not appended, the rest of the page is ignored, and the scan is not done, so it goes on to the next page. |
| `Scan.ExpiredEndsScan` | release.go:125-128 | Once the lower boundary is known, a merged PR updated before it ends the scan. It is not appended, the boundary is unchanged, and the result does not depend on any later page, so none is fetched. |
| `Scan.EmptyPageEndsScan` | release.go:104-107 | An empty page, or a page past the last one, ends the scan with the state unchanged |
| `Scan.CurrentRecorded` | release.go:129-133 | Within a page, the upper boundary becomes the merge time of the last appended PR numbered `current`. If no appended PR has that number, the boundary is unchanged. |
| `Scan.ScanCollectsMerged` | release.go:112-135 | Across all remaining pages, every appended PR is merged, is not the `last` PR, and was listed on some page |
| `Scan.ScanOnlyMerged` | release.go:115-118 | A successful scan collects only merged PRs, never the `last` PR, and only PRs that were listed. This is why the sort can dereference every merge time. |
| `Scan.CurrentKept` | release.go:108-111 | A non-zero `current` is never rewritten by the rest of the scan |
| `Scan.CurrentDefault` | release.go:108-111 | With `current` 0, a successful scan ends with `current` equal to the number of the first PR of the first page, merged or not (when that number is non-zero). With an empty first page the scan ends at once with nothing collected. |
| `Scan.CurrentGiven` | release.go:108-111 | A `current` given on the command line survives the whole scan |
| `MergeOrder.Swap` | release.go:33 | Exchanges two elements, leaves the others in place, and keeps the multiset of elements |
| `MergeOrder.SortByMerged` | release.go:138 | Sorting by `Less` leaves the array non-decreasing by merge time and a permutation of what it was |
| `Notes.DecimalRoundTrip` | release.go:143 | The `%d` rendering of a PR number, negative numbers included, reads back to the same number |
| `Notes.EntryIsOneLine` | release.go:143 | A bullet line whose title and login contain no newline holds exactly one newline, at its end |
| `Notes.OneLinePerEntry` | release.go:140-158 | The buffer holds exactly as many lines as entries were written |
| `Notes.LabelCountPositive` | release.go:154-157 | A PR yields at least one filtered line exactly when one of its labels is named `release-note` |
| `Notes.WriteLabelled` | release.go:154-158 | The label loop appends to the buffer one copy of the PR's line for each label named exactly `release-note`, and nothing else |
| `Notes.WriteEntry` | release.go:141-158 | One turn of the note loop fails exactly where `Copies` fails, with the same error. Otherwise it appends exactly as many copies of the PR's line as `Copies` counts. |
| `Notes.RenderRepeat` | release.go:143-156 | Appending `n` copies of a PR's line to the rendered buffer gives the rendering with `n` more entries for that PR |
| `Notes.BuildNotes` | release.go:139-161 | The buffer loop over the sorted PRs yields exactly the rendering of `NoteLines`. It fails with `NilDereference` or `TransportError` exactly where that specification fails. |
| `Notes.CopiesMeaning` | release.go:141-157 | One PR aborts the run exactly in the cases listed in `Aborts`: a nil lower boundary; inside the lower bound with a nil upper boundary; or inside the window, filtering, with a failed label lookup. Otherwise it yields lines exactly when it is `Selected`. |
| `Notes.NotesMembership` | release.go:140-158 | If the notes are written, a PR appears in them exactly when it is in the sorted list and is merged strictly between the two boundary times. With the filter on, it must also carry a `release-note` label. So neither boundary PR appears. |
| `Notes.NotesFailure` | release.go:141-153 | Writing the notes fails exactly when some sorted PR aborts the run |
| `Notes.NotesSorted` | release.go:140-161 | When the PRs go in ordered by merge time, the lines come out ordered by merge time |
| `Notes.NotesWithoutFilter` | release.go:142-143 | Without the label filter, the notes are exactly the in-window PRs, once each, in sorted order |
| `Release.Conclude` | release.go:166-178 | A failure aborts the run, and a missing tag or release name leaves only the printed notes. Otherwise the draft carries the tag, name and prerelease flag from the flags and has the notes as its body. |
| `Release.Run` | release.go:62-178 | With `last` 0 or no token the run is a usage error, decided before any page is used. Otherwise a failed scan aborts. A successful scan is followed by an ordered permutation of the collected PRs, and the outcome is the conclusion drawn from the notes written from it. |
| `Release.WrittenNotes` | release.go:138-161 | For any ordered permutation of the scan's PRs, the written notes are in merge order. Each is a collected PR: merged, not the `last` PR, listed on a page, and selected. Every selected collected PR is written. |
| `Release.ExampleScan` | release.go:88-137 | In the worked example the scan collects the three PRs listed above the `last` PR and records lower boundary 200 and upper boundary 400 |
| `Release.ExampleSorted` | release.go:138 | With distinct merge times the sorted order is unique |
| `Release.ExampleNotes` | release.go:139-161 | Of the example's PRs in merge order, only the one merged between the boundaries is written |
| `Release.ExampleWindow` | release.go:138-161 | Whatever the sort does, the example produces exactly one line, for the middle PR |

## Left out

- The GitHub calls `PullRequests.List`, `Issues.ListLabelsByIssue` and
  `Repositories.CreateRelease`, the oauth2 client and the `context` are foreign
  network code. Pages and labels are inputs. The run ends with the
  `ReleaseDraft` that would be sent, not with the call's answer or its URL.
- The list options (closed state, base branch, sort by update time descending,
  100 per page) are requests to the server. The model takes the pages as given,
  in that order.
- The hard-coded publish target `zjj2wry/console-web` is not modelled. Only the
  draft is.
- `time.Sleep` between label lookups has no logical effect and is left out.
- Flag parsing, the usage texts and every progress `Printf`/`Println` are I/O.
  So is the final printing of the notes. The program only prints the `merged`
  and `unmerged` tallies; the model keeps them nonetheless.
- `os.Exit(1)` becomes the `UsageError`, `Aborted` and `NotesOnly` outcomes.
  The nil-pointer panic becomes `Aborted(NilDereference)`.
- `time.Time` becomes an integer compared with strict `<`. PR numbers and page
  numbers are unbounded integers: the program does no arithmetic on them that
  could overflow.
- `MergeOrder.SortByMerged`: the standard library's sort algorithm is not part
  of this model. An insertion sort through the same `Less` and `Swap` stands in
  for it. Only what `sort.Sort` promises is stated: the order and the
  permutation, not the placement of ties.
- `Scan.PageFrom`: the `unmerged` tally is only bounded (at most the PRs
  examined), not equated with the exact number of unmerged PRs before the break.
