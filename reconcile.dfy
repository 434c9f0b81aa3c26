/** The polling loop of ads2bibtex/scripts/ads2bib.py: it watches an ADS
    library and an optional file of additional BibTeX entries, and rewrites
    the output file whenever either has changed. Everything the loop reads
    from outside (the additional file, the library listing, the export
    replies) arrives as a `Poll` per iteration; the files it writes are
    reported in the iteration's `StepOut`. */
module Reconcile {
  import opened Outcomes
  import opened BibFiles
  import opened Journal
  import opened Export

  // ---------------------------------------------------------------------
  // print_infostr

  /** The elements of `current` that `previous` lacks, in the order of `current`. */
  function Added(current: seq<string>, previous: seq<string>): (r: seq<string>)
    ensures forall x :: x in r <==> x in current && x !in previous
    ensures |r| <= |current|
  {
    if current == [] then []
    else Added(current[..|current| - 1], previous) + (if current[|current| - 1] in previous then [] else [current[|current| - 1]])
  }

  /** The elements of `previous` that `current` lacks, in the order of `previous`. */
  function Deleted(previous: seq<string>, current: seq<string>): (r: seq<string>)
    ensures forall x :: x in r <==> x in previous && x !in current
  {
    Added(previous, current)
  }

  /** `a` is `b` with some elements left out, the rest in their order. */
  predicate Subsequence(a: seq<string>, b: seq<string>)
    decreases |b|
  {
    if a == [] then true
    else if b == [] then false
    else if a[0] == b[0] then Subsequence(a[1..], b[1..])
    else Subsequence(a, b[1..])
  }

  lemma {:induction false} SubsequenceSnoc(a: seq<string>, b: seq<string>, x: string)
    requires Subsequence(a, b)
    ensures Subsequence(a, b + [x]) && Subsequence(a + [x], b + [x])
    decreases |b|
  {
    if a == [] {
      assert Subsequence([x], [x]) by { assert [x][1..] == []; }
      assert Subsequence(a + [x], b + [x]) by {
        if b != [] {
          SubsequenceSnoc([], b[1..], x);
          assert (b + [x])[1..] == b[1..] + [x];
          assert a + [x] == [x];
        }
      }
    } else {
      assert (b + [x])[1..] == b[1..] + [x];
      assert (a + [x])[1..] == a[1..] + [x];
      if a[0] == b[0] {
        SubsequenceSnoc(a[1..], b[1..], x);
      } else {
        SubsequenceSnoc(a, b[1..], x);
      }
    }
  }

  /** The added elements keep the order they have in `current`. */
  lemma {:induction false} AddedIsSubsequence(current: seq<string>, previous: seq<string>)
    ensures Subsequence(Added(current, previous), current)
    decreases |current|
  {
    if current != [] {
      var front := current[..|current| - 1];
      var x := current[|current| - 1];
      AddedIsSubsequence(front, previous);
      SubsequenceSnoc(Added(front, previous), front, x);
      assert front + [x] == current;
      if x in previous {
        assert Added(current, previous) == Added(front, previous);
      } else {
        assert Added(current, previous) == Added(front, previous) + [x];
      }
    }
  }

  /** Each element not in `previous` is added as often as it occurs in `current`. */
  lemma {:induction false} AddedCounts(current: seq<string>, previous: seq<string>, x: string)
    ensures multiset(Added(current, previous))[x] == if x in previous then 0 else multiset(current)[x]
    decreases |current|
  {
    if current != [] {
      var front, last := current[..|current| - 1], current[|current| - 1];
      AddedCounts(front, previous, x);
      assert current == front + [last];
      assert multiset(current) == multiset(front) + multiset{last};
      var tail := if last in previous then [] else [last];
      assert Added(current, previous) == Added(front, previous) + tail;
      assert multiset(Added(current, previous)) == multiset(Added(front, previous)) + multiset(tail);
    }
  }

  /** Nothing is added when every element is already there ... */
  lemma {:induction false} NothingAdded(current: seq<string>, previous: seq<string>)
    requires forall k | 0 <= k < |current| :: current[k] in previous
    ensures Added(current, previous) == []
    decreases |current|
  {
    if current != [] {
      NothingAdded(current[..|current| - 1], previous);
    }
  }

  /** ... so nothing is added or deleted between equal lists. */
  lemma NothingChanged(bibs: seq<string>)
    ensures Added(bibs, bibs) == [] && Deleted(bibs, bibs) == []
  {
    NothingAdded(bibs, bibs);
  }

  // ---------------------------------------------------------------------
  // The loop

  /** The variables the loop carries from one iteration to the next. */
  datatype LoopState = LoopState(
    bibsOld: seq<string>,        // the library's bibcodes as last fetched
    lastModifiedOld: string,     // its modification time as last seen
    addsOld: string,             // the additional file as last read
    adds2Old: seq<string>,       // its keys
    bibtexAds: string,           // the exported text of the library
    update: bool)                // whether this iteration rewrites the output

  /** The library query: its bibcodes and modification time; a reply that is
      not JSON; or JSON without the expected fields. */
  datatype LibraryReply = Listing(bibs: seq<string>, lastModified: string) | Undecodable | Malformed

  /** What the world answers during one iteration: the additional file
      (`None` when there is none), the library, and the export replies
      (the "export" field, `None` when it is missing) of a refetch and of
      the raw-file query. */
  datatype Poll = Poll(addFile: Option<string>, library: LibraryReply,
                       exportReply: Option<string>, rawReply: Option<string>)

  /** The command-line settings the loop uses. `style` is the journal
      restyling, `change_journal_name` for the chosen style (see `Settings`);
      `rawFormat` is `None` when no raw file is asked for. */
  datatype Config = Config(options: Options, fmt: string, style: string -> Result<string, Error>, url: string,
                           addAsIs: bool, rawFormat: Option<string>, infoInterval: int)

  /** The settings for the journal style named `journal`; `iso4` is the
      ISO-4 abbreviation step. */
  function Settings(options: Options, fmt: string, journal: string, url: string, addAsIs: bool,
                    rawFormat: Option<string>, infoInterval: int, iso4: string -> string): Config
  {
    Config(options, fmt, JournalStyle(journal, iso4), url, addAsIs, rawFormat, infoInterval)
  }

  /** One iteration's effect: the new state, the export requests posted, the
      text written to the output file and to the raw file, and whether the
      iteration was skipped. */
  datatype StepOut = StepOut(state: LoopState, posted: seq<Request>, written: Option<string>,
                             rawWritten: Option<string>, skipped: bool)

  /** An iteration's effect, and the exception that ends the program, if any. */
  datatype StepResult = StepResult(out: StepOut, halt: Option<Error>)

  /** The set-up before the loop: the first library query, the first read of
      the additional file and the first export. */
  function Init(c: Config, library: LibraryReply, addFile: Option<string>, exportReply: Option<string>)
    : (r: Result<LoopState, Error>)
    ensures library.Undecodable? ==> r == Failure(LibraryUndecodable)
    ensures library.Malformed? ==> r == Failure(LibraryMalformed)
    ensures r.Success? ==> r.value.update && library.Listing?
                           && r.value.bibsOld == library.bibs && r.value.lastModifiedOld == library.lastModified
                           && (r.value.addsOld, r.value.adds2Old) == ReadBibAdd(addFile)
                           && Success(r.value.bibtexAds) == QueryAds(library.bibs, c.options, c.fmt, c.style, c.url, exportReply).1
    ensures library.Listing? ==>
              (r.Success? <==> QueryAds(library.bibs, c.options, c.fmt, c.style, c.url, exportReply).1.Success?)
    ensures library.Listing? && exportReply.None? ==> r == Failure(ExportMissing)
    ensures library.Listing? && exportReply.Some? && c.style(exportReply.value).Failure? ==>
              r == Failure(c.style(exportReply.value).error)
  {
    match library
    case Undecodable => Failure(LibraryUndecodable)
    case Malformed => Failure(LibraryMalformed)
    case Listing(bibs, lastModified) =>
      var (adds, adds2) := ReadBibAdd(addFile);
      var q := QueryAds(bibs, c.options, c.fmt, c.style, c.url, exportReply);
      if q.1.Failure? then Failure(q.1.error)
      else Success(LoopState(bibs, lastModified, adds, adds2, q.1.value, true))
  }

  /** What follows the additional file in the output. */
  function AddsText(c: Config, adds: string): Result<string, Error>
  {
    if c.addAsIs then Success(adds) else c.style(adds)
  }

  /** The progress print, whose `i % info_interval` fails for an interval of 0. */
  function Progress(c: Config, i: nat, out: StepOut): StepResult
  {
    if i > 0 && c.infoInterval == 0 then StepResult(out, Some(ZeroInterval)) else StepResult(out, None)
  }

  /** Lines 151-155: the additional file just read replaces the last one,
      and sets `update`, when its text or its keys differ. */
  function Remember(st: LoopState, adds: string, adds2: seq<string>): (r: LoopState)
    ensures r.addsOld == adds && r.adds2Old == adds2
    ensures r.update <==> st.update || adds != st.addsOld || adds2 != st.adds2Old
    ensures r.bibsOld == st.bibsOld && r.lastModifiedOld == st.lastModifiedOld && r.bibtexAds == st.bibtexAds
    ensures adds == st.addsOld && adds2 == st.adds2Old ==> r == st
  {
    if adds != st.addsOld || adds2 != st.adds2Old
    then st.(update := true, addsOld := adds, adds2Old := adds2) else st
  }

  /** Lines 157-177: when `update` is set, the output file gets the library
      text and then the additional file, and the raw file is refetched. */
  function Write(c: Config, st: LoopState, i: nat, adds: string, rawReply: Option<string>,
                 posted: seq<Request>): StepResult
  {
    if !st.update then Progress(c, i, StepOut(st, posted, None, None, false))
    else
      var tail := AddsText(c, adds);
      if tail.Failure? then StepResult(StepOut(st, posted, Some(st.bibtexAds), None, false), Some(tail.error))
      else
        var written := Some(st.bibtexAds + tail.value);
        match c.rawFormat
        case None => Progress(c, i, StepOut(st, posted, written, None, false))
        case Some(fmtRaw) =>
          var q := QueryAds(st.bibsOld, c.options, fmtRaw, c.style, c.url, rawReply);
          if q.1.Failure? then StepResult(StepOut(st, posted + [q.0], written, None, false), Some(q.1.error))
          else Progress(c, i, StepOut(st, posted + [q.0], written, Some(q.1.value), false))
  }

  /** Lines 151-177. */
  function Finish(c: Config, st: LoopState, i: nat, poll: Poll, posted: seq<Request>): StepResult
  {
    var (adds, adds2) := ReadBibAdd(poll.addFile);
    Write(c, Remember(st, adds, adds2), i, adds, poll.rawReply, posted)
  }

  /** Lines 144-177, given the time stamp and bibcodes just read: a new time
      stamp refetches the export first. */
  function Fetch(c: Config, st: LoopState, i: nat, poll: Poll, lastModified: string, bibs: seq<string>): StepResult
  {
    if lastModified == st.lastModifiedOld then Finish(c, st, i, poll, [])
    else Refetch(c, st, i, poll, lastModified, bibs)
  }

  /** Lines 145-149: the export is fetched again for the listed bibcodes. */
  function Refetch(c: Config, st: LoopState, i: nat, poll: Poll, lastModified: string, bibs: seq<string>): StepResult
  {
    var q := QueryAds(bibs, c.options, c.fmt, c.style, c.url, poll.exportReply);
    if q.1.Failure? then StepResult(StepOut(st, [q.0], None, None, false), Some(q.1.error))
    else Finish(c, st.(update := true, bibtexAds := q.1.value, bibsOld := bibs, lastModifiedOld := lastModified),
                i, poll, [q.0])
  }

  /** Iteration `i` of the loop (lines 133-177). Iteration 0 does not query
      the library and keeps the time stamp of the set-up; a later one that
      gets a reply which is not JSON skips the rest of its body. */
  function Step(c: Config, st: LoopState, i: nat, poll: Poll): StepResult
  {
    if i == 0 then Fetch(c, st, i, poll, st.lastModifiedOld, [])
    else
      match poll.library
      case Undecodable => StepResult(StepOut(st, [], None, None, true), None)
      case Malformed => StepResult(StepOut(st, [], None, None, false), Some(LibraryMalformed))
      case Listing(bibs, lastModified) => Fetch(c, st.(update := false), i, poll, lastModified, bibs)
  }

  /** The body of the loop as the script runs it, statement by statement. */
  method Iterate(c: Config, st: LoopState, i: nat, poll: Poll) returns (out: StepOut, halt: Option<Error>)
    ensures StepResult(out, halt) == Step(c, st, i, poll)
  {
    if i != 0 {
      match poll.library
      case Undecodable =>
        return StepOut(st, [], None, None, true), None;
      case Malformed =>
        return StepOut(st, [], None, None, false), Some(LibraryMalformed);
      case Listing(bibs, lastModified) =>
        out, halt := FetchFiles(c, st.(update := false), i, poll, lastModified, bibs);
    } else {
      out, halt := FetchFiles(c, st, i, poll, st.lastModifiedOld, []);
    }
  }

  /** Lines 144-149: a new time stamp refetches the export. */
  method FetchFiles(c: Config, st: LoopState, i: nat, poll: Poll, lastModified: string, bibs: seq<string>)
    returns (out: StepOut, halt: Option<Error>)
    ensures StepResult(out, halt) == Fetch(c, st, i, poll, lastModified, bibs)
  {
    if lastModified != st.lastModifiedOld {
      out, halt := RefetchFiles(c, st, i, poll, lastModified, bibs);
    } else {
      out, halt := FinishFiles(c, st, i, poll, []);
    }
  }

  /** Lines 145-149: query the export, then go on with the new text. */
  method RefetchFiles(c: Config, st: LoopState, i: nat, poll: Poll, lastModified: string, bibs: seq<string>)
    returns (out: StepOut, halt: Option<Error>)
    ensures StepResult(out, halt) == Refetch(c, st, i, poll, lastModified, bibs)
  {
    var q := QueryAds(bibs, c.options, c.fmt, c.style, c.url, poll.exportReply);
    if q.1.Failure? {
      return StepOut(st, [q.0], None, None, false), Some(q.1.error);
    }
    var fetched := st.(update := true, bibtexAds := q.1.value, bibsOld := bibs, lastModifiedOld := lastModified);
    out, halt := FinishFiles(c, fetched, i, poll, [q.0]);
  }

  /** Lines 151-177, with the additional file as read at line 133. */
  method FinishFiles(c: Config, st0: LoopState, i: nat, poll: Poll, posted: seq<Request>)
    returns (out: StepOut, halt: Option<Error>)
    ensures StepResult(out, halt) == Finish(c, st0, i, poll, posted)
  {
    var st := st0;
    var (adds, adds2) := ReadBibAdd(poll.addFile);
    if adds != st.addsOld || adds2 != st.adds2Old {
      st := st.(update := true, addsOld := adds, adds2Old := adds2);
    }
    out, halt := WriteFiles(c, st, i, adds, poll.rawReply, posted);
  }

  /** The writes at the end of the loop body, statement by statement. */
  method WriteFiles(c: Config, st: LoopState, i: nat, adds: string, rawReply: Option<string>,
                    posted0: seq<Request>) returns (out: StepOut, halt: Option<Error>)
    ensures StepResult(out, halt) == Write(c, st, i, adds, rawReply, posted0)
  {
    var posted := posted0;
    var written := None;
    var rawWritten := None;
    if st.update {
      var tail := AddsText(c, adds);
      if tail.Failure? {
        return StepOut(st, posted, Some(st.bibtexAds), None, false), Some(tail.error);
      }
      written := Some(st.bibtexAds + tail.value);
      if c.rawFormat.Some? {
        var q := QueryAds(st.bibsOld, c.options, c.rawFormat.value, c.style, c.url, rawReply);
        posted := posted + [q.0];
        if q.1.Failure? {
          return StepOut(st, posted, written, None, false), Some(q.1.error);
        }
        rawWritten := Some(q.1.value);
      }
    }
    out := StepOut(st, posted, written, rawWritten, false);
    halt := if i > 0 && c.infoInterval == 0 then Some(ZeroInterval) else None;
  }

  /** A run of the loop: the last state, one effect per iteration performed,
      and the exception that ended it early, if any. */
  datatype RunResult = RunResult(state: LoopState, outs: seq<StepOut>, halt: Option<Error>)

  /** The iterations `i`, `i + 1`, ... below `numIter`, one poll each. */
  function RunFrom(c: Config, st: LoopState, i: nat, numIter: int, polls: seq<Poll>): RunResult
    decreases |polls| - i
  {
    if i >= numIter || i >= |polls| then RunResult(st, [], None)
    else
      var s := Step(c, st, i, polls[i]);
      if s.halt.Some? then RunResult(s.out.state, [s.out], s.halt)
      else
        var rest := RunFrom(c, s.out.state, i + 1, numIter, polls);
        RunResult(rest.state, [s.out] + rest.outs, rest.halt)
  }

  /** `for i in range(num_iter)`, with `polls[i]` what iteration `i` sees. */
  method Run(c: Config, init: LoopState, numIter: int, polls: seq<Poll>) returns (r: RunResult)
    ensures r == RunFrom(c, init, 0, numIter, polls)
  {
    var st := init;
    var outs := [];
    var halt := None;
    var i := 0;
    while i < numIter && i < |polls| && halt.None?
      invariant i <= |polls|
      invariant halt.None? ==> var rest := RunFrom(c, st, i, numIter, polls);
                               RunFrom(c, init, 0, numIter, polls) == RunResult(rest.state, outs + rest.outs, rest.halt)
      invariant halt.Some? ==> RunFrom(c, init, 0, numIter, polls) == RunResult(st, outs, halt)
      decreases |polls| - i, if halt.None? then 1 else 0
    {
      var out, h := Iterate(c, st, i, polls[i]);
      var rest := RunFrom(c, out.state, i + 1, numIter, polls);
      assert outs + ([out] + rest.outs) == (outs + [out]) + rest.outs;
      st, outs, halt := out.state, outs + [out], h;
      if halt.None? {
        i := i + 1;
      }
    }
    r := RunResult(st, outs, halt);
  }

  // ---------------------------------------------------------------------
  // Properties of the loop

  /** Every iteration performed leaves one effect: never more than `num_iter`
      of them. */
  lemma {:induction false} RunLength(c: Config, st: LoopState, i: nat, numIter: int, polls: seq<Poll>)
    requires i <= numIter
    ensures |RunFrom(c, st, i, numIter, polls).outs| <= numIter - i
    decreases |polls| - i
  {
    if i < numIter && i < |polls| {
      var s := Step(c, st, i, polls[i]);
      if s.halt.None? {
        RunLength(c, s.out.state, i + 1, numIter, polls);
      }
    }
  }

  /** Nor more than there are polls. */
  lemma {:induction false} RunLengthPolls(c: Config, st: LoopState, i: nat, numIter: int, polls: seq<Poll>)
    requires i <= |polls|
    ensures |RunFrom(c, st, i, numIter, polls).outs| <= |polls| - i
    decreases |polls| - i
  {
    if i < numIter && i < |polls| {
      var s := Step(c, st, i, polls[i]);
      if s.halt.None? {
        RunLengthPolls(c, s.out.state, i + 1, numIter, polls);
      }
    }
  }

  /** Exactly `num_iter` effects when nothing fails and every iteration got
      its poll. */
  lemma {:induction false} RunLengthFull(c: Config, st: LoopState, i: nat, numIter: int, polls: seq<Poll>)
    requires i <= numIter <= |polls|
    ensures RunFrom(c, st, i, numIter, polls).halt.None? ==> |RunFrom(c, st, i, numIter, polls).outs| == numIter - i
    decreases |polls| - i
  {
    if i < numIter {
      var s := Step(c, st, i, polls[i]);
      if s.halt.None? {
        RunLengthFull(c, s.out.state, i + 1, numIter, polls);
      }
    }
  }

  /** Writing changes no state and only adds requests. */
  lemma WriteKeepsState(c: Config, st: LoopState, i: nat, adds: string, rawReply: Option<string>,
                        posted: seq<Request>)
    ensures var o := Write(c, st, i, adds, rawReply, posted).out;
            o.state == st && !o.skipped && |o.posted| >= |posted| && o.posted[..|posted|] == posted
  {
    if st.update && AddsText(c, adds).Success? && c.rawFormat.Some? {
      var q := QueryAds(st.bibsOld, c.options, c.rawFormat.value, c.style, c.url, rawReply);
      assert (posted + [q.0])[..|posted|] == posted;
    }
  }

  /** The write phase keeps the library side of the state, and remembers the
      additional file just read. */
  lemma FinishState(c: Config, st: LoopState, i: nat, poll: Poll, posted: seq<Request>)
    ensures var o := Finish(c, st, i, poll, posted).out;
            o.state.bibtexAds == st.bibtexAds && o.state.bibsOld == st.bibsOld
            && o.state.lastModifiedOld == st.lastModifiedOld
            && (o.state.addsOld, o.state.adds2Old) == ReadBibAdd(poll.addFile)
            && !o.skipped && |o.posted| >= |posted| && o.posted[..|posted|] == posted
  {
    var (adds, adds2) := ReadBibAdd(poll.addFile);
    WriteKeepsState(c, Remember(st, adds, adds2), i, adds, poll.rawReply, posted);
  }

  /** The output is written exactly when `update` is set. */
  lemma WriteWrites(c: Config, st: LoopState, i: nat, adds: string, rawReply: Option<string>,
                    posted: seq<Request>)
    ensures var s := Write(c, st, i, adds, rawReply, posted);
            (s.out.written.Some? <==> st.update)
            && (c.rawFormat.None? || !st.update ==> s.out.posted == posted)
  {
  }

  /** What is written: the library text, then the additional file, unless
      restyling the latter fails. */
  lemma WriteContent(c: Config, st: LoopState, i: nat, adds: string, rawReply: Option<string>,
                     posted: seq<Request>)
    ensures var s := Write(c, st, i, adds, rawReply, posted);
            s.out.written.Some? && AddsText(c, adds).Success? ==>
              s.out.written.value == st.bibtexAds + AddsText(c, adds).value
    ensures var s := Write(c, st, i, adds, rawReply, posted);
            s.out.written.Some? && AddsText(c, adds).Failure? ==>
              s.out.written.value == st.bibtexAds && s.halt == Some(AddsText(c, adds).error)
  {
  }

  /** The raw file comes from a request for the bibcodes held. */
  lemma WriteRaw(c: Config, st: LoopState, i: nat, adds: string, rawReply: Option<string>,
                 posted: seq<Request>)
    ensures var s := Write(c, st, i, adds, rawReply, posted);
            s.out.rawWritten.Some? ==>
              c.rawFormat.Some? && s.out.written.Some? && |s.out.posted| == |posted| + 1
              && s.out.posted[|posted|] == ExportRequest(st.bibsOld, c.options, c.rawFormat.value, c.url)
  {
  }

  /** The output is written exactly when `update` was already set or the
      additional file changed. */
  lemma FinishWrites(c: Config, st: LoopState, i: nat, poll: Poll, posted: seq<Request>)
    ensures var s := Finish(c, st, i, poll, posted);
            s.out.written.Some? <==> st.update || ReadBibAdd(poll.addFile) != (st.addsOld, st.adds2Old)
    ensures var s := Finish(c, st, i, poll, posted);
            c.rawFormat.None? || s.out.written.None? ==> s.out.posted == posted
  {
    var (adds, adds2) := ReadBibAdd(poll.addFile);
    WriteWrites(c, Remember(st, adds, adds2), i, adds, poll.rawReply, posted);
  }

  /** What the write phase writes. */
  lemma FinishContent(c: Config, st: LoopState, i: nat, poll: Poll, posted: seq<Request>)
    ensures var s := Finish(c, st, i, poll, posted);
            var tail := AddsText(c, ReadBibAdd(poll.addFile).0);
            s.out.written.Some? ==>
              (tail.Success? ==> s.out.written.value == s.out.state.bibtexAds + tail.value)
              && (tail.Failure? ==> s.out.written.value == s.out.state.bibtexAds && s.halt == Some(tail.error))
  {
    var (adds, adds2) := ReadBibAdd(poll.addFile);
    WriteContent(c, Remember(st, adds, adds2), i, adds, poll.rawReply, posted);
    WriteKeepsState(c, Remember(st, adds, adds2), i, adds, poll.rawReply, posted);
  }

  /** The raw file comes from a request for the bibcodes held. */
  lemma FinishRaw(c: Config, st: LoopState, i: nat, poll: Poll, posted: seq<Request>)
    ensures var s := Finish(c, st, i, poll, posted);
            s.out.rawWritten.Some? ==>
              c.rawFormat.Some? && s.out.written.Some? && |s.out.posted| == |posted| + 1
              && s.out.posted[|posted|] == ExportRequest(st.bibsOld, c.options, c.rawFormat.value, c.url)
  {
    var (adds, adds2) := ReadBibAdd(poll.addFile);
    WriteRaw(c, Remember(st, adds, adds2), i, adds, poll.rawReply, posted);
  }

  /** The state after set-up says to write, and iteration 0 neither queries
      the library nor refetches: it always writes the output file. */
  lemma FirstIterationWrites(c: Config, st: LoopState, poll: Poll)
    requires st.update
    ensures var s := Step(c, st, 0, poll);
            s.out.written.Some? && !s.out.skipped
            && s.out.state.bibsOld == st.bibsOld && s.out.state.lastModifiedOld == st.lastModifiedOld
            && s.out.state.bibtexAds == st.bibtexAds
            && (c.rawFormat.None? ==> s.out.posted == [])
  {
    assert Step(c, st, 0, poll) == Finish(c, st, 0, poll, []);
    FinishState(c, st, 0, poll, []);
    FinishWrites(c, st, 0, poll, []);
  }

  /** The set-up state holds `update`, so a run's first iteration writes. */
  lemma RunStartsWithWrite(c: Config, library: LibraryReply, addFile: Option<string>,
                           exportReply: Option<string>, numIter: int, polls: seq<Poll>)
    requires Init(c, library, addFile, exportReply).Success?
    requires 0 < numIter && 0 < |polls|
    ensures RunFrom(c, Init(c, library, addFile, exportReply).value, 0, numIter, polls).outs[0].written.Some?
  {
    var st := Init(c, library, addFile, exportReply).value;
    FirstIterationWrites(c, st, polls[0]);
  }

  /** A later iteration with the same time stamp and the same additional
      file writes nothing and changes nothing but `update`. */
  lemma QuietPollWritesNothing(c: Config, st: LoopState, i: nat, poll: Poll)
    requires i != 0 && poll.library.Listing? && poll.library.lastModified == st.lastModifiedOld
    requires ReadBibAdd(poll.addFile) == (st.addsOld, st.adds2Old)
    ensures var s := Step(c, st, i, poll);
            s.out == StepOut(st.(update := false), [], None, None, false)
            && (s.halt.Some? <==> c.infoInterval == 0)
  {
    assert Step(c, st, i, poll) == Finish(c, st.(update := false), i, poll, []);
  }

  /** A new time stamp refetches the export for the listed bibcodes and
      writes, even when the bibcodes themselves are the same. */
  lemma NewTimestampRefetches(c: Config, st: LoopState, i: nat, poll: Poll, text: string)
    requires i != 0 && poll.library.Listing? && poll.library.lastModified != st.lastModifiedOld
    requires QueryAds(poll.library.bibs, c.options, c.fmt, c.style, c.url, poll.exportReply).1 == Success(text)
    ensures var s := Step(c, st, i, poll);
            s.out.written.Some? && |s.out.posted| >= 1
            && s.out.posted[0] == ExportRequest(poll.library.bibs, c.options, c.fmt, c.url)
            && s.out.state.bibtexAds == text && s.out.state.bibsOld == poll.library.bibs
            && s.out.state.lastModifiedOld == poll.library.lastModified
  {
    var q := QueryAds(poll.library.bibs, c.options, c.fmt, c.style, c.url, poll.exportReply);
    var st' := st.(update := true, bibtexAds := text, bibsOld := poll.library.bibs,
                   lastModifiedOld := poll.library.lastModified);
    assert Step(c, st, i, poll) == Finish(c, st', i, poll, [q.0]);
    FinishState(c, st', i, poll, [q.0]);
    FinishWrites(c, st', i, poll, [q.0]);
  }

  /** A change of the additional file, in its text or in its keys, writes
      and is remembered; the library side stays as it was. */
  lemma ChangedAddsWrite(c: Config, st: LoopState, i: nat, poll: Poll)
    requires i != 0 && poll.library.Listing? && poll.library.lastModified == st.lastModifiedOld
    requires ReadBibAdd(poll.addFile) != (st.addsOld, st.adds2Old)
    ensures var s := Step(c, st, i, poll);
            s.out.written.Some?
            && (s.out.state.addsOld, s.out.state.adds2Old) == ReadBibAdd(poll.addFile)
            && s.out.state.bibtexAds == st.bibtexAds && s.out.state.bibsOld == st.bibsOld
  {
    var base := st.(update := false);
    assert Step(c, st, i, poll) == Finish(c, base, i, poll, []);
    FinishState(c, base, i, poll, []);
    FinishWrites(c, base, i, poll, []);
  }

  /** Bibcodes that change under an unchanged time stamp go unnoticed: the
      old list and the old export are kept, and nothing is written. */
  lemma SameTimestampMissesNewBibs(c: Config, st: LoopState, i: nat, poll: Poll)
    requires i != 0 && poll.library.Listing? && poll.library.lastModified == st.lastModifiedOld
    requires poll.library.bibs != st.bibsOld
    requires ReadBibAdd(poll.addFile) == (st.addsOld, st.adds2Old)
    ensures var s := Step(c, st, i, poll);
            s.out.state.bibsOld == st.bibsOld && s.out.state.bibsOld != poll.library.bibs
            && s.out.state.bibtexAds == st.bibtexAds && s.out.written.None?
  {
    QuietPollWritesNothing(c, st, i, poll);
  }

  /** A library reply that is not JSON skips the iteration: the state stays
      as it was and nothing is written or posted. */
  lemma UndecodableSkips(c: Config, st: LoopState, i: nat, poll: Poll)
    requires i != 0 && poll.library.Undecodable?
    ensures Step(c, st, i, poll) == StepResult(StepOut(st, [], None, None, true), None)
  {
  }

  /** The writes never mark an iteration as skipped. */
  lemma WriteNotSkipped(c: Config, st: LoopState, i: nat, adds: string, rawReply: Option<string>,
                        posted: seq<Request>)
    ensures !Write(c, st, i, adds, rawReply, posted).out.skipped
  {
  }

  /** An iteration is skipped exactly when a later library reply is not JSON. */
  lemma StepSkipped(c: Config, st: LoopState, i: nat, poll: Poll)
    ensures Step(c, st, i, poll).out.skipped <==> i != 0 && poll.library.Undecodable?
  {
    var (adds, adds2) := ReadBibAdd(poll.addFile);
    if i == 0 || poll.library.Listing? {
      var st0 := if i == 0 then st else st.(update := false);
      var lastModified := if i == 0 then st.lastModifiedOld else poll.library.lastModified;
      var bibs := if i == 0 then [] else poll.library.bibs;
      assert Step(c, st, i, poll) == Fetch(c, st0, i, poll, lastModified, bibs);
      WriteNotSkipped(c, Remember(st0, adds, adds2), i, adds, poll.rawReply, []);
      var q := QueryAds(bibs, c.options, c.fmt, c.style, c.url, poll.exportReply);
      if q.1.Success? {
        var st1 := st0.(update := true, bibtexAds := q.1.value, bibsOld := bibs, lastModifiedOld := lastModified);
        WriteNotSkipped(c, Remember(st1, adds, adds2), i, adds, poll.rawReply, [q.0]);
      }
    }
  }

  /** A later library reply without the expected fields ends the run at once:
      nothing is written or posted and the state stays as it was. */
  lemma MalformedHalts(c: Config, st: LoopState, i: nat, poll: Poll)
    requires i != 0 && poll.library.Malformed?
    ensures Step(c, st, i, poll) == StepResult(StepOut(st, [], None, None, false), Some(LibraryMalformed))
  {
  }

  /** What the fetch and write phases write. */
  lemma FetchContent(c: Config, st: LoopState, i: nat, poll: Poll, lastModified: string, bibs: seq<string>)
    ensures var s := Fetch(c, st, i, poll, lastModified, bibs);
            var tail := AddsText(c, ReadBibAdd(poll.addFile).0);
            s.out.written.Some? ==>
              (tail.Success? ==> s.out.written.value == s.out.state.bibtexAds + tail.value)
              && (tail.Failure? ==> s.out.written.value == s.out.state.bibtexAds && s.halt == Some(tail.error))
  {
    if lastModified == st.lastModifiedOld {
      FinishContent(c, st, i, poll, []);
    } else {
      var q := QueryAds(bibs, c.options, c.fmt, c.style, c.url, poll.exportReply);
      if q.1.Success? {
        FinishContent(c, st.(update := true, bibtexAds := q.1.value, bibsOld := bibs, lastModifiedOld := lastModified),
                      i, poll, [q.0]);
      }
    }
  }

  /** What is written is the exported library text followed by the
      additional file, as it is or in the chosen journal style; when the
      style is unknown only the library text is written before the error. */
  lemma WrittenContent(c: Config, st: LoopState, i: nat, poll: Poll)
    ensures var s := Step(c, st, i, poll);
            var adds := ReadBibAdd(poll.addFile).0;
            s.out.written.Some? && c.addAsIs ==> s.out.written.value == s.out.state.bibtexAds + adds
    ensures var s := Step(c, st, i, poll);
            var adds := ReadBibAdd(poll.addFile).0;
            var styled := c.style(adds);
            s.out.written.Some? && !c.addAsIs ==>
              (styled.Success? ==> s.out.written.value == s.out.state.bibtexAds + styled.value)
              && (styled.Failure? ==> s.out.written.value == s.out.state.bibtexAds && s.halt == Some(styled.error))
  {
    if i == 0 {
      FetchContent(c, st, i, poll, st.lastModifiedOld, []);
    } else if poll.library.Listing? {
      FetchContent(c, st.(update := false), i, poll, poll.library.lastModified, poll.library.bibs);
    }
  }

  /** In the settings of a named journal style, the additional file is
      written after `change_journal_name` in that style, so the default "ads"
      style writes it as it is, and an unknown style writes only the library
      text and then stops. */
  lemma WrittenInJournalStyle(c: Config, journal: string, iso4: string -> string, st: LoopState, i: nat, poll: Poll)
    requires c.style == JournalStyle(journal, iso4)
    ensures var s := Step(c, st, i, poll);
            var adds := ReadBibAdd(poll.addFile).0;
            var styled := ChangeJournalName(adds, journal, iso4);
            s.out.written.Some? && !c.addAsIs ==>
              (styled.Success? ==> s.out.written.value == s.out.state.bibtexAds + styled.value)
              && (styled.Failure? ==> s.out.written.value == s.out.state.bibtexAds && s.halt == Some(styled.error))
    ensures var s := Step(c, st, i, poll);
            s.out.written.Some? && (c.addAsIs || journal == "ads") ==>
              s.out.written.value == s.out.state.bibtexAds + ReadBibAdd(poll.addFile).0
  {
    WrittenContent(c, st, i, poll);
  }

  /** When an iteration writes the raw file, it has also written the output,
      and its last request is the raw-format export of the bibcodes held. */
  predicate RawFollows(c: Config, s: StepResult)
  {
    s.out.rawWritten.Some? ==>
      c.rawFormat.Some? && s.out.written.Some? && |s.out.posted| >= 1
      && s.out.posted[|s.out.posted| - 1] == ExportRequest(s.out.state.bibsOld, c.options, c.rawFormat.value, c.url)
  }

  /** The raw file of the fetch and write phases. */
  lemma FetchRaw(c: Config, st: LoopState, i: nat, poll: Poll, lastModified: string, bibs: seq<string>)
    ensures RawFollows(c, Fetch(c, st, i, poll, lastModified, bibs))
  {
    if lastModified == st.lastModifiedOld {
      FinishRaw(c, st, i, poll, []);
      FinishState(c, st, i, poll, []);
    } else {
      RefetchRaw(c, st, i, poll, lastModified, bibs);
    }
  }

  /** The same after a refetch. */
  lemma RefetchRaw(c: Config, st: LoopState, i: nat, poll: Poll, lastModified: string, bibs: seq<string>)
    ensures RawFollows(c, Refetch(c, st, i, poll, lastModified, bibs))
  {
    var q := QueryAds(bibs, c.options, c.fmt, c.style, c.url, poll.exportReply);
    if q.1.Success? {
      var st' := st.(update := true, bibtexAds := q.1.value, bibsOld := bibs, lastModifiedOld := lastModified);
      FinishRaw(c, st', i, poll, [q.0]);
      FinishState(c, st', i, poll, [q.0]);
    }
  }

  /** The raw file, when asked for, comes from a request for the bibcodes
      the output was written from. */
  lemma RawFileFollowsOutput(c: Config, st: LoopState, i: nat, poll: Poll)
    ensures RawFollows(c, Step(c, st, i, poll))
  {
    if i == 0 {
      assert Step(c, st, i, poll) == Fetch(c, st, i, poll, st.lastModifiedOld, []);
      FetchRaw(c, st, i, poll, st.lastModifiedOld, []);
    } else if poll.library.Listing? {
      assert Step(c, st, i, poll) == Fetch(c, st.(update := false), i, poll, poll.library.lastModified, poll.library.bibs);
      FetchRaw(c, st.(update := false), i, poll, poll.library.lastModified, poll.library.bibs);
    }
  }
}
