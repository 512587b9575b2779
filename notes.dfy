/** The release-note buffer: PRs merged strictly inside the release window,
    optionally only those labelled "release-note", one bullet line each. */
module Notes {
  import opened PullRequests

  const ReleaseNoteLabel: string := "release-note"

  /** Label names per PR number, as the labels endpoint answers them; a number
      missing from the map is a failed call. */
  type Labels = map<int, seq<string>>

  // ---------------------------------------------------------------------
  // `%d`

  function Digit(d: nat): (c: char)
    requires d < 10
    ensures '0' <= c <= '9' && (c as int) - ('0' as int) == d
  {
    (('0' as int) + d) as char
  }

  /** The decimal digits of `n`, most significant first, without leading zeros. */
  function NatDigits(n: nat): (s: string)
    decreases n
  {
    if n < 10 then [Digit(n)] else NatDigits(n / 10) + [Digit(n % 10)]
  }

  lemma {:induction false} NatDigitsAreDigits(n: nat)
    ensures |NatDigits(n)| > 0
    ensures forall i :: 0 <= i < |NatDigits(n)| ==> '0' <= NatDigits(n)[i] <= '9'
    decreases n
  {
    if n >= 10 {
      NatDigitsAreDigits(n / 10);
    }
  }

  /** Go's `%d` of a (possibly negative) int. */
  function Decimal(n: int): string
  {
    if n < 0 then "-" + NatDigits(-n) else NatDigits(n)
  }

  /** The value of a string of decimal digits. */
  function DigitsValue(s: string): int
  {
    if s == [] then 0 else DigitsValue(s[..|s| - 1]) * 10 + ((s[|s| - 1] as int) - ('0' as int))
  }

  /** Reads back what `Decimal` writes. */
  function ParseDecimal(s: string): int
  {
    if |s| > 0 && s[0] == '-' then -DigitsValue(s[1..]) else DigitsValue(s)
  }

  lemma {:induction false} NatDigitsValue(n: nat)
    ensures DigitsValue(NatDigits(n)) == n
    decreases n
  {
    if n >= 10 {
      NatDigitsValue(n / 10);
      var s := NatDigits(n / 10) + [Digit(n % 10)];
      assert s[..|s| - 1] == NatDigits(n / 10);
    } else {
      assert [Digit(n)][..0] == [];
    }
  }

  /** The PR number in a note line identifies the PR: `%d` loses nothing. */
  lemma DecimalRoundTrip(n: int)
    ensures ParseDecimal(Decimal(n)) == n
  {
    NatDigitsAreDigits(if n < 0 then -n else n);
    if n < 0 {
      var s := "-" + NatDigits(-n);
      assert s[1..] == NatDigits(-n);
      NatDigitsValue(-n);
    } else {
      NatDigitsValue(n);
    }
  }

  // ---------------------------------------------------------------------
  // Formatting

  /** `"   * %s (#%d, @%s)\n"` of title, number and author login. */
  function Entry(pr: PullRequest): string
  {
    "   * " + pr.title + " (#" + Decimal(pr.number) + ", @" + pr.login + ")\n"
  }

  /** The buffer after writing `line(pr)` for each `pr` of `lines`, in order. */
  function RenderWith(line: PullRequest -> string, lines: seq<PullRequest>): string
  {
    if lines == [] then "" else RenderWith(line, lines[..|lines| - 1]) + line(lines[|lines| - 1])
  }

  /** The note buffer after writing one entry per element of `lines`, in order. */
  function Render(lines: seq<PullRequest>): string
  {
    RenderWith(Entry, lines)
  }

  lemma RenderSnoc(line: PullRequest -> string, lines: seq<PullRequest>, pr: PullRequest)
    ensures RenderWith(line, lines + [pr]) == RenderWith(line, lines) + line(pr)
  {
  }

  function NewlineCount(s: string): nat
  {
    if s == [] then 0 else (if s[0] == '\n' then 1 else 0) + NewlineCount(s[1..])
  }

  lemma {:induction false} NewlineCountConcat(a: string, b: string)
    ensures NewlineCount(a + b) == NewlineCount(a) + NewlineCount(b)
  {
    if a != [] {
      assert (a + b)[1..] == a[1..] + b;
      NewlineCountConcat(a[1..], b);
    } else {
      assert a + b == b;
    }
  }

  lemma {:induction false} NoNewline(s: string)
    requires forall i :: 0 <= i < |s| ==> s[i] != '\n'
    ensures NewlineCount(s) == 0
  {
    if s != [] {
      NoNewline(s[1..]);
    }
  }

  /** Neither title nor login breaks a line. */
  predicate SingleLineFields(pr: PullRequest)
  {
    (forall i :: 0 <= i < |pr.title| ==> pr.title[i] != '\n') &&
    (forall i :: 0 <= i < |pr.login| ==> pr.login[i] != '\n')
  }

  /** Each entry is exactly one line, ending in a newline. */
  lemma EntryIsOneLine(pr: PullRequest)
    requires SingleLineFields(pr)
    ensures NewlineCount(Entry(pr)) == 1 && Entry(pr)[|Entry(pr)| - 1] == '\n'
  {
    var d := Decimal(pr.number);
    NatDigitsAreDigits(if pr.number < 0 then -pr.number else pr.number);
    assert forall i :: 0 <= i < |d| ==> d[i] != '\n' by {
      if pr.number < 0 {
        assert d == "-" + NatDigits(-pr.number);
      }
    }
    NoNewline("   * ");
    NoNewline(pr.title);
    NoNewline(" (#");
    NoNewline(d);
    NoNewline(", @");
    NoNewline(pr.login);
    NewlineCountConcat("   * ", pr.title);
    NewlineCountConcat("   * " + pr.title, " (#");
    NewlineCountConcat("   * " + pr.title + " (#", d);
    NewlineCountConcat("   * " + pr.title + " (#" + d, ", @");
    NewlineCountConcat("   * " + pr.title + " (#" + d + ", @", pr.login);
    NewlineCountConcat("   * " + pr.title + " (#" + d + ", @" + pr.login, ")\n");
  }

  /** The buffer holds one line per emitted entry. */
  lemma {:induction false} OneLinePerEntry(lines: seq<PullRequest>)
    requires forall i :: 0 <= i < |lines| ==> SingleLineFields(lines[i])
    ensures NewlineCount(Render(lines)) == |lines|
  {
    if lines != [] {
      var init := lines[..|lines| - 1];
      OneLinePerEntry(init);
      EntryIsOneLine(lines[|lines| - 1]);
      NewlineCountConcat(Render(init), Entry(lines[|lines| - 1]));
    }
  }

  // ---------------------------------------------------------------------
  // Selection

  /** How many of `names` are exactly "release-note". */
  function LabelCount(names: seq<string>): nat
  {
    if names == [] then 0
    else LabelCount(names[..|names| - 1]) + (if names[|names| - 1] == ReleaseNoteLabel then 1 else 0)
  }

  lemma {:induction false} LabelCountPositive(names: seq<string>)
    ensures LabelCount(names) > 0 <==> ReleaseNoteLabel in names
  {
    if names != [] {
      var init := names[..|names| - 1];
      LabelCountPositive(init);
      assert names == init + [names[|names| - 1]];
    }
  }

  lemma LabelCountSnoc(names: seq<string>, k: nat)
    requires k < |names|
    ensures LabelCount(names[..k + 1]) == LabelCount(names[..k]) + (if names[k] == ReleaseNoteLabel then 1 else 0)
  {
    assert names[..k + 1][..k] == names[..k];
  }

  function Repeat(pr: PullRequest, n: nat): (r: seq<PullRequest>)
    ensures |r| == n && forall i :: 0 <= i < |r| ==> r[i] == pr
  {
    if n == 0 then [] else Repeat(pr, n - 1) + [pr]
  }

  /** The PR is merged strictly between the two boundary PRs. */
  predicate InWindow(pr: PullRequest, lastMerged: Option<int>, currentMerged: Option<int>)
  {
    && pr.mergedAt.Some? && lastMerged.Some? && currentMerged.Some?
    && lastMerged.value < MergedAt(pr) < currentMerged.value
  }

  /** The PR belongs in the notes. */
  predicate Selected(pr: PullRequest, lastMerged: Option<int>, currentMerged: Option<int>,
                     relnoteFilter: bool, labels: Labels)
  {
    && InWindow(pr, lastMerged, currentMerged)
    && (relnoteFilter ==> pr.number in labels && ReleaseNoteLabel in labels[pr.number])
  }

  /** Looking at the PR aborts the run: a nil boundary is dereferenced, or the
      label lookup fails. */
  predicate Aborts(pr: PullRequest, lastMerged: Option<int>, currentMerged: Option<int>,
                   relnoteFilter: bool, labels: Labels)
    requires pr.mergedAt.Some?
  {
    || lastMerged.None?
    || (lastMerged.value < MergedAt(pr) &&
        (currentMerged.None? || (MergedAt(pr) < currentMerged.value && relnoteFilter && pr.number !in labels)))
  }

  /** How many lines one sorted PR contributes, in the order the program
      evaluates the window test and the label lookup. */
  function Copies(pr: PullRequest, lastMerged: Option<int>, currentMerged: Option<int>,
                  relnoteFilter: bool, labels: Labels): Result<nat>
    requires pr.mergedAt.Some?
  {
    if lastMerged.None? then Failure(NilDereference)
    else if !(lastMerged.value < MergedAt(pr)) then Ok(0)
    else if currentMerged.None? then Failure(NilDereference)
    else if !(MergedAt(pr) < currentMerged.value) then Ok(0)
    else if !relnoteFilter then Ok(1)
    else if pr.number !in labels then Failure(TransportError)
    else Ok(LabelCount(labels[pr.number]))
  }

  function Prepend(head: seq<PullRequest>, rest: Result<seq<PullRequest>>): Result<seq<PullRequest>>
  {
    match rest
    case Failure(e) => Failure(e)
    case Ok(tail) => Ok(head + tail)
  }

  /** The PRs whose lines are written, in order, with one copy per line. */
  function NoteLines(prs: seq<PullRequest>, lastMerged: Option<int>, currentMerged: Option<int>,
                     relnoteFilter: bool, labels: Labels): Result<seq<PullRequest>>
    requires AllMerged(prs)
    decreases |prs|
  {
    if prs == [] then Ok([])
    else match Copies(prs[0], lastMerged, currentMerged, relnoteFilter, labels)
      case Failure(e) => Failure(e)
      case Ok(n) => Prepend(Repeat(prs[0], n), NoteLines(prs[1..], lastMerged, currentMerged, relnoteFilter, labels))
  }

  function RenderResult(lines: Result<seq<PullRequest>>): Result<string>
  {
    match lines
    case Failure(e) => Failure(e)
    case Ok(l) => Ok(Render(l))
  }

  /** The in-window PRs, in order: a reference definition for the unfiltered notes. */
  function InWindowOnly(prs: seq<PullRequest>, lastMerged: Option<int>, currentMerged: Option<int>): seq<PullRequest>
  {
    if prs == [] then []
    else (if InWindow(prs[0], lastMerged, currentMerged) then [prs[0]] else [])
         + InWindowOnly(prs[1..], lastMerged, currentMerged)
  }

  /** One turn of the note loop, seen through the specification: the sorted
      PR at `i` either aborts the whole run or adds its copies to what is
      already written. */
  lemma NoteStep(emitted: seq<PullRequest>, prs: seq<PullRequest>, i: nat, lastMerged: Option<int>,
                 currentMerged: Option<int>, relnoteFilter: bool, labels: Labels)
    requires AllMerged(prs) && i < |prs|
    ensures var c := Copies(prs[i], lastMerged, currentMerged, relnoteFilter, labels);
      Prepend(emitted, NoteLines(prs[i..], lastMerged, currentMerged, relnoteFilter, labels)) ==
        if c.Failure? then Failure(c.error)
        else Prepend(emitted + Repeat(prs[i], c.value),
                     NoteLines(prs[i + 1..], lastMerged, currentMerged, relnoteFilter, labels))
  {
    assert prs[i..][0] == prs[i] && prs[i..][1..] == prs[i + 1..];
    var c := Copies(prs[i], lastMerged, currentMerged, relnoteFilter, labels);
    var rest := NoteLines(prs[i + 1..], lastMerged, currentMerged, relnoteFilter, labels);
    if c.Ok? && rest.Ok? {
      assert emitted + (Repeat(prs[i], c.value) + rest.value) == (emitted + Repeat(prs[i], c.value)) + rest.value;
    }
  }

  /** `n` copies of one line, one after the other. */
  function Lines(line: string, n: nat): (s: string)
    ensures |s| == n * |line|
  {
    if n == 0 then "" else Lines(line, n - 1) + line
  }

  /** Writing `n` copies of a PR's line renders `n` more entries. */
  lemma {:induction false} RenderRepeat(line: PullRequest -> string, emitted: seq<PullRequest>, pr: PullRequest, n: nat)
    ensures RenderWith(line, emitted + Repeat(pr, n)) == RenderWith(line, emitted) + Lines(line(pr), n)
  {
    if n == 0 {
      assert emitted + Repeat(pr, 0) == emitted;
    } else {
      var before := emitted + Repeat(pr, n - 1);
      calc {
        RenderWith(line, emitted + Repeat(pr, n));
        { assert emitted + Repeat(pr, n) == before + [pr]; }
        RenderWith(line, before + [pr]);
        { RenderSnoc(line, before, pr); }
        RenderWith(line, before) + line(pr);
        { RenderRepeat(line, emitted, pr, n - 1); }
        (RenderWith(line, emitted) + Lines(line(pr), n - 1)) + line(pr);
        RenderWith(line, emitted) + Lines(line(pr), n);
      }
    }
  }

  /** The loop over one PR's labels: a line for every label named exactly
      "release-note", after what is already in the buffer. */
  method WriteLabelled(buffer: string, pr: PullRequest, names: seq<string>) returns (buffer': string)
    ensures buffer' == buffer + Lines(Entry(pr), LabelCount(names))
  {
    buffer' := buffer;
    var k := 0;
    while k < |names|
      invariant k <= |names|
      invariant buffer' == buffer + Lines(Entry(pr), LabelCount(names[..k]))
    {
      LabelCountSnoc(names, k);
      if names[k] == ReleaseNoteLabel {
        buffer' := buffer' + Entry(pr);
      }
      k := k + 1;
    }
    assert names[..k] == names;
  }

  /** One turn of the note loop: the window test, then one line or the
      labelled lines. It fails exactly where `Copies` does, and otherwise
      appends as many copies of the entry as `Copies` counts. */
  method WriteEntry(buffer: string, pr: PullRequest, lastMerged: Option<int>, currentMerged: Option<int>,
                    relnoteFilter: bool, labels: Labels) returns (r: Result<string>)
    requires pr.mergedAt.Some?
    ensures var c := Copies(pr, lastMerged, currentMerged, relnoteFilter, labels);
      if c.Failure? then r == Failure(c.error) else r == Ok(buffer + Lines(Entry(pr), c.value))
  {
    if lastMerged.None? {
      return Failure(NilDereference);
    }
    if lastMerged.value < MergedAt(pr) {
      if currentMerged.None? {
        return Failure(NilDereference);
      }
      if MergedAt(pr) < currentMerged.value {
        if !relnoteFilter {
          assert Lines(Entry(pr), 1) == Entry(pr);
          return Ok(buffer + Entry(pr));
        }
        if pr.number !in labels {
          return Failure(TransportError);
        }
        var written := WriteLabelled(buffer, pr, labels[pr.number]);
        return Ok(written);
      }
    }
    assert buffer + Lines(Entry(pr), 0) == buffer;
    return Ok(buffer);
  }

  /** The loop over the sorted PRs that fills the note buffer. */
  method BuildNotes(prs: seq<PullRequest>, lastMerged: Option<int>, currentMerged: Option<int>,
                    relnoteFilter: bool, labels: Labels) returns (r: Result<string>)
    requires AllMerged(prs)
    ensures r == RenderResult(NoteLines(prs, lastMerged, currentMerged, relnoteFilter, labels))
  {
    var buffer := "";
    ghost var emitted: seq<PullRequest> := [];
    var i := 0;
    assert prs[0..] == prs;
    assert Prepend([], NoteLines(prs, lastMerged, currentMerged, relnoteFilter, labels))
           == NoteLines(prs, lastMerged, currentMerged, relnoteFilter, labels) by {
      var n := NoteLines(prs, lastMerged, currentMerged, relnoteFilter, labels);
      if n.Ok? {
        assert [] + n.value == n.value;
      }
    }
    while i < |prs|
      invariant i <= |prs|
      invariant buffer == Render(emitted)
      invariant Prepend(emitted, NoteLines(prs[i..], lastMerged, currentMerged, relnoteFilter, labels))
                == NoteLines(prs, lastMerged, currentMerged, relnoteFilter, labels)
    {
      ghost var c := Copies(prs[i], lastMerged, currentMerged, relnoteFilter, labels);
      ghost var tail := NoteLines(prs[i + 1..], lastMerged, currentMerged, relnoteFilter, labels);
      assert NoteLines(prs, lastMerged, currentMerged, relnoteFilter, labels) ==
             if c.Failure? then Failure(c.error) else Prepend(emitted + Repeat(prs[i], c.value), tail) by {
        NoteStep(emitted, prs, i, lastMerged, currentMerged, relnoteFilter, labels);
      }
      var step := WriteEntry(buffer, prs[i], lastMerged, currentMerged, relnoteFilter, labels);
      if step.Failure? {
        return Failure(step.error);
      }
      assert step.value == Render(emitted + Repeat(prs[i], c.value)) by {
        RenderRepeat(Entry, emitted, prs[i], c.value);
      }
      buffer := step.value;
      emitted := emitted + Repeat(prs[i], c.value);
      i := i + 1;
    }
    assert prs[i..] == [];
    assert emitted + [] == emitted;
    r := Ok(buffer);
  }

  // ---------------------------------------------------------------------
  // Properties of the selection

  lemma CopiesMeaning(pr: PullRequest, lastMerged: Option<int>, currentMerged: Option<int>,
                      relnoteFilter: bool, labels: Labels)
    requires pr.mergedAt.Some?
    ensures var c := Copies(pr, lastMerged, currentMerged, relnoteFilter, labels);
      && (c.Failure? <==> Aborts(pr, lastMerged, currentMerged, relnoteFilter, labels))
      && (c.Ok? ==> (c.value > 0 <==> Selected(pr, lastMerged, currentMerged, relnoteFilter, labels)))
  {
    if relnoteFilter && pr.number in labels {
      LabelCountPositive(labels[pr.number]);
    }
  }

  /** A PR is written to the notes if and only if it was sorted in, lies
      strictly inside the window and, with the label filter, carries the
      "release-note" label. In particular neither boundary PR is written. */
  lemma {:induction false} NotesMembership(prs: seq<PullRequest>, lastMerged: Option<int>,
                                           currentMerged: Option<int>, relnoteFilter: bool, labels: Labels)
    requires AllMerged(prs)
    ensures var r := NoteLines(prs, lastMerged, currentMerged, relnoteFilter, labels);
      r.Ok? ==> forall pr :: pr in r.value <==>
                  pr in prs && Selected(pr, lastMerged, currentMerged, relnoteFilter, labels)
    decreases |prs|
  {
    if prs != [] {
      var r := NoteLines(prs, lastMerged, currentMerged, relnoteFilter, labels);
      CopiesMeaning(prs[0], lastMerged, currentMerged, relnoteFilter, labels);
      NotesMembership(prs[1..], lastMerged, currentMerged, relnoteFilter, labels);
      if r.Ok? {
        var c := Copies(prs[0], lastMerged, currentMerged, relnoteFilter, labels).value;
        var tail := NoteLines(prs[1..], lastMerged, currentMerged, relnoteFilter, labels).value;
        assert r.value == Repeat(prs[0], c) + tail;
        assert prs == [prs[0]] + prs[1..];
        forall pr
          ensures pr in r.value <==> pr in prs && Selected(pr, lastMerged, currentMerged, relnoteFilter, labels)
        {
          if c > 0 {
            assert Repeat(prs[0], c)[0] == prs[0];
          }
        }
      }
    }
  }

  /** Writing the notes aborts if and only if some sorted PR aborts it. */
  lemma {:induction false} NotesFailure(prs: seq<PullRequest>, lastMerged: Option<int>,
                                        currentMerged: Option<int>, relnoteFilter: bool, labels: Labels)
    requires AllMerged(prs)
    ensures NoteLines(prs, lastMerged, currentMerged, relnoteFilter, labels).Failure? <==>
            exists i :: 0 <= i < |prs| && Aborts(prs[i], lastMerged, currentMerged, relnoteFilter, labels)
    decreases |prs|
  {
    if prs != [] {
      CopiesMeaning(prs[0], lastMerged, currentMerged, relnoteFilter, labels);
      NotesFailure(prs[1..], lastMerged, currentMerged, relnoteFilter, labels);
      if exists i :: 1 <= i < |prs| && Aborts(prs[i], lastMerged, currentMerged, relnoteFilter, labels) {
        var i :| 1 <= i < |prs| && Aborts(prs[i], lastMerged, currentMerged, relnoteFilter, labels);
        assert prs[1..][i - 1] == prs[i];
      }
      if exists i :: 0 <= i < |prs| - 1 && Aborts(prs[1..][i], lastMerged, currentMerged, relnoteFilter, labels) {
        var i :| 0 <= i < |prs| - 1 && Aborts(prs[1..][i], lastMerged, currentMerged, relnoteFilter, labels);
        assert prs[1..][i] == prs[i + 1];
      }
    }
  }

  /** Lines come out in merge-time order when the PRs went in that order. */
  lemma {:induction false} NotesSorted(prs: seq<PullRequest>, lastMerged: Option<int>,
                                       currentMerged: Option<int>, relnoteFilter: bool, labels: Labels)
    requires SortedByMerged(prs)
    ensures var r := NoteLines(prs, lastMerged, currentMerged, relnoteFilter, labels);
      r.Ok? ==> SortedByMerged(r.value)
    decreases |prs|
  {
    var r := NoteLines(prs, lastMerged, currentMerged, relnoteFilter, labels);
    if prs != [] && r.Ok? {
      var rest := prs[1..];
      NotesSorted(rest, lastMerged, currentMerged, relnoteFilter, labels);
      NotesMembership(rest, lastMerged, currentMerged, relnoteFilter, labels);
      var c := Copies(prs[0], lastMerged, currentMerged, relnoteFilter, labels).value;
      var head := Repeat(prs[0], c);
      var tail := NoteLines(rest, lastMerged, currentMerged, relnoteFilter, labels).value;
      assert r.value == head + tail;
      forall j | 0 <= j < |tail|
        ensures tail[j].mergedAt.Some? && MergedAt(prs[0]) <= MergedAt(tail[j])
      {
        assert tail[j] in rest;
        var m :| 0 <= m < |rest| && rest[m] == tail[j];
        assert rest[m] == prs[m + 1];
      }
    }
  }

  /** Without the label filter the notes are exactly the in-window PRs, once
      each, in the order they were sorted. */
  lemma {:induction false} NotesWithoutFilter(prs: seq<PullRequest>, lastMerged: Option<int>,
                                              currentMerged: Option<int>, labels: Labels)
    requires AllMerged(prs)
    ensures var r := NoteLines(prs, lastMerged, currentMerged, false, labels);
      r.Ok? ==> r.value == InWindowOnly(prs, lastMerged, currentMerged)
    decreases |prs|
  {
    if prs != [] {
      NotesWithoutFilter(prs[1..], lastMerged, currentMerged, labels);
      var c := Copies(prs[0], lastMerged, currentMerged, false, labels);
      if c.Ok? {
        assert Repeat(prs[0], c.value) == if InWindow(prs[0], lastMerged, currentMerged) then [prs[0]] else [];
      }
    }
  }
}
