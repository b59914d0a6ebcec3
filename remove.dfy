/** Model of the `/remove` handler (routes/remove.py): keep the transcript
    segments whose lower-cased text contains none of the filler words, cut
    each kept `(start, end)` range out of the upload with FFmpeg, write a
    concat manifest over the cuts and concatenate them into
    `processed/no_fillers_<filename>`.

    The handler's outside world is passed in: `toStr` is Python's `str()`
    on a timestamp, `absPath` is `os.path.abspath`, `uuidHex(n)` is the hex
    of the n-th `uuid.uuid4()` call of the request, and `exitOk(argv)` says
    whether `subprocess.run(argv)` exits with status 0. What the handler does
    to the outside world is returned as a list of effects, in order. */
module FillerSegments {
  import opened Options
  import opened Strings

  // ---------------------------------------------------------------------
  // Data
  // ---------------------------------------------------------------------

  /** One entry of the transcript's "segments" list. */
  datatype Segment = Segment(text: string, start: real, end: real)

  /** A kept `(start_s, end_s)` pair; timestamps are copied, never computed. */
  datatype Span = Span(start: real, end: real)

  /** The handler's filler words. */
  const Fillers: set<string> := {"uh", "um", "ah", "like", "you know", "so", "basically"}

  /** One step the handler takes outside the process. */
  datatype Effect =
    | Run(argv: seq<string>)                   // subprocess.run(argv, check=True)
    | WriteFile(path: string, content: string) // open(path, "w") and its writes

  /** The HTTP answer: a JSON body with status 200, or the 500 that Flask
      sends when `subprocess.run` raises CalledProcessError for argv. */
  datatype Reply =
    | Json(status: nat, message: string, output: Option<string>)
    | ServerError(failedArgv: seq<string>)

  const AllFilteredMessage: string := "All segments contained filler words!"
  const DoneMessage: string := "Filler segments removed from the video!"

  // ---------------------------------------------------------------------
  // Selection
  // ---------------------------------------------------------------------

  /** `any(fw in seg_text for fw in filler_words)` with `seg_text` the
      lower-cased text: a plain substring test, not a whole-word one. */
  predicate HasFiller(text: string, fillers: set<string>)
  {
    exists fw :: fw in fillers && Contains(Lower(text), fw)
  }

  function SpanOf(seg: Segment): Span
  {
    Span(seg.start, seg.end)
  }

  /** The pairs the keep loop collects, in transcript order. */
  function SelectKept(segs: seq<Segment>, fillers: set<string>): (kept: seq<Span>)
    ensures |kept| <= |segs|
  {
    if segs == [] then []
    else
      var last := segs[|segs| - 1];
      SelectKept(segs[..|segs| - 1], fillers)
        + (if HasFiller(last.text, fillers) then [] else [SpanOf(last)])
  }

  /** Positions of the segments the keep loop keeps. */
  ghost function KeptIndices(segs: seq<Segment>, fillers: set<string>): seq<nat>
  {
    if segs == [] then []
    else
      KeptIndices(segs[..|segs| - 1], fillers)
        + (if HasFiller(segs[|segs| - 1].text, fillers) then [] else [|segs| - 1])
  }

  /** A position is kept exactly when its segment has no filler. */
  lemma {:induction false} KeptIndicesIff(segs: seq<Segment>, fillers: set<string>)
    ensures forall i :: i in KeptIndices(segs, fillers) <==> 0 <= i < |segs| && !HasFiller(segs[i].text, fillers)
  {
    if segs != [] {
      var init, n := segs[..|segs| - 1], |segs| - 1;
      var clean := !HasFiller(segs[n].text, fillers);
      KeptIndicesIff(init, fillers);
      assert forall i :: 0 <= i < |init| ==> init[i] == segs[i];
      assert KeptIndices(segs, fillers) == KeptIndices(init, fillers) + (if clean then [n] else []);
    }
  }

  /** kept[k] is the pair of segment ks[k], and the positions ks increase. */
  predicate Projection(kept: seq<Span>, ks: seq<nat>, segs: seq<Segment>)
  {
    && |kept| == |ks|
    && (forall k :: 0 <= k < |ks| ==> ks[k] < |segs| && kept[k] == SpanOf(segs[ks[k]]))
    && (forall k, l :: 0 <= k < l < |ks| ==> ks[k] < ks[l])
  }

  /** A projection of all but the last segment, extended by the last one or
      not, is a projection of all of them. */
  lemma ProjectionExtend(segs: seq<Segment>, kept: seq<Span>, ks: seq<nat>, clean: bool)
    requires segs != [] && Projection(kept, ks, segs[..|segs| - 1])
    ensures var n := |segs| - 1;
      Projection(kept + (if clean then [SpanOf(segs[n])] else []), ks + (if clean then [n] else []), segs)
  {
    var n := |segs| - 1;
    forall k | 0 <= k < |ks| ensures segs[..n][ks[k]] == segs[ks[k]] {
    }
    if clean {
      var kept', ks' := kept + [SpanOf(segs[n])], ks + [n];
      assert forall k :: 0 <= k < |ks| ==> ks'[k] == ks[k] && kept'[k] == kept[k];
    }
  }

  /** The kept pairs are exactly the pairs of the segments without a filler,
      one pair per such segment, in their original order: no pair is made up,
      none is dropped, and neighbouring pairs are not merged. */
  lemma {:induction false} SelectKeptExact(segs: seq<Segment>, fillers: set<string>)
    ensures Projection(SelectKept(segs, fillers), KeptIndices(segs, fillers), segs)
    ensures forall i :: i in KeptIndices(segs, fillers) <==> 0 <= i < |segs| && !HasFiller(segs[i].text, fillers)
  {
    KeptIndicesIff(segs, fillers);
    if segs != [] {
      var init, n := segs[..|segs| - 1], |segs| - 1;
      SelectKeptExact(init, fillers);
      ProjectionExtend(segs, SelectKept(init, fillers), KeptIndices(init, fillers), !HasFiller(segs[n].text, fillers));
    }
  }

  /** The early return happens exactly when every segment has a filler. */
  lemma SelectKeptEmpty(segs: seq<Segment>, fillers: set<string>)
    ensures SelectKept(segs, fillers) == []
        <==> forall i :: 0 <= i < |segs| ==> HasFiller(segs[i].text, fillers)
  {
    SelectKeptExact(segs, fillers);
    var ks := KeptIndices(segs, fillers);
    if ks != [] {
      assert ks[0] in ks;
    }
  }

  /** Each segment is judged on its own: selecting over two stretches of the
      transcript gives the two selections one after the other. */
  lemma {:induction false} SelectKeptAppend(a: seq<Segment>, b: seq<Segment>, fillers: set<string>)
    ensures SelectKept(a + b, fillers) == SelectKept(a, fillers) + SelectKept(b, fillers)
    decreases |b|
  {
    if b != [] {
      var b', last := b[..|b| - 1], b[|b| - 1];
      var tail := if HasFiller(last.text, fillers) then [] else [SpanOf(last)];
      assert (a + b)[..|a + b| - 1] == a + b';
      assert (a + b)[|a + b| - 1] == last;
      assert SelectKept(a + b, fillers) == SelectKept(a + b', fillers) + tail;
      assert SelectKept(b, fillers) == SelectKept(b', fillers) + tail;
      SelectKeptAppend(a, b', fillers);
    } else {
      assert a + b == a;
    }
  }

  /** The segments the keep loop keeps, whole. */
  function KeptSegments(segs: seq<Segment>, fillers: set<string>): seq<Segment>
  {
    if segs == [] then []
    else
      var last := segs[|segs| - 1];
      KeptSegments(segs[..|segs| - 1], fillers)
        + (if HasFiller(last.text, fillers) then [] else [last])
  }

  /** kseg[k] is segment ks[k], which has no filler. */
  predicate CleanAt(kseg: seq<Segment>, ks: seq<nat>, segs: seq<Segment>, fillers: set<string>)
  {
    && |kseg| == |ks|
    && (forall k :: 0 <= k < |ks| ==>
          ks[k] < |segs| && kseg[k] == segs[ks[k]] && !HasFiller(kseg[k].text, fillers))
  }

  /** CleanAt for all but the last segment, extended by the last one when it
      has no filler, is CleanAt for all of them. */
  lemma CleanAtExtend(segs: seq<Segment>, kseg: seq<Segment>, ks: seq<nat>, fillers: set<string>)
    requires segs != [] && CleanAt(kseg, ks, segs[..|segs| - 1], fillers)
    ensures var n := |segs| - 1;
      var clean := !HasFiller(segs[n].text, fillers);
      CleanAt(kseg + (if clean then [segs[n]] else []), ks + (if clean then [n] else []), segs, fillers)
  {
    var n := |segs| - 1;
    forall k | 0 <= k < |ks| ensures segs[..n][ks[k]] == segs[ks[k]] {
    }
    if !HasFiller(segs[n].text, fillers) {
      var kseg', ks' := kseg + [segs[n]], ks + [n];
      assert forall k :: 0 <= k < |ks| ==> ks'[k] == ks[k] && kseg'[k] == kseg[k];
    }
  }

  /** The kept segments are, one for one and in order, the segments at the
      kept positions: each has no filler and gives the kept pair. */
  lemma {:induction false} KeptSegmentsExact(segs: seq<Segment>, fillers: set<string>)
    ensures CleanAt(KeptSegments(segs, fillers), KeptIndices(segs, fillers), segs, fillers)
    ensures var kseg, kept := KeptSegments(segs, fillers), SelectKept(segs, fillers);
      |kseg| == |kept| && forall k :: 0 <= k < |kseg| ==> SpanOf(kseg[k]) == kept[k]
  {
    SelectKeptExact(segs, fillers);
    if segs != [] {
      var init := segs[..|segs| - 1];
      KeptSegmentsExact(init, fillers);
      CleanAtExtend(segs, KeptSegments(init, fillers), KeptIndices(init, fillers), fillers);
    }
  }

  /** A stretch with no filler anywhere is kept whole. */
  lemma {:induction false} KeptSegmentsAllClean(segs: seq<Segment>, fillers: set<string>)
    requires forall k :: 0 <= k < |segs| ==> !HasFiller(segs[k].text, fillers)
    ensures KeptSegments(segs, fillers) == segs
  {
    if segs != [] {
      var init := segs[..|segs| - 1];
      assert forall k :: 0 <= k < |init| ==> init[k] == segs[k];
      KeptSegmentsAllClean(init, fillers);
      assert init + [segs[|segs| - 1]] == segs;
    }
  }

  /** Filtering is idempotent: running the selection again over the segments
      it kept keeps every one of them and yields the same pairs. */
  lemma {:induction false} SelectKeptIdempotent(segs: seq<Segment>, fillers: set<string>)
    ensures KeptSegments(KeptSegments(segs, fillers), fillers) == KeptSegments(segs, fillers)
    ensures SelectKept(KeptSegments(segs, fillers), fillers) == SelectKept(segs, fillers)
  {
    KeptSegmentsExact(segs, fillers);
    KeptSegmentsAllClean(KeptSegments(segs, fillers), fillers);
    if segs != [] {
      var init, last := segs[..|segs| - 1], segs[|segs| - 1];
      var tail := if HasFiller(last.text, fillers) then [] else [last];
      SelectKeptIdempotent(init, fillers);
      SelectKeptAppend(KeptSegments(init, fillers), tail, fillers);
      if tail != [] {
        assert SelectKept(tail, fillers) == SelectKept([], fillers) + [SpanOf(last)];
      }
    }
  }

  /** The substring test drops "I liked it" (it holds "like") and "also"
      (it holds "so"), which a whole-word test would keep. */
  lemma SubstringNotWholeWord()
    ensures HasFiller("I liked it", Fillers)
    ensures HasFiller("also", Fillers)
  {
    assert Lower("I liked it") == "i liked it";
    assert OccursAt("i liked it", "like", 2);
    assert "like" in Fillers;
    assert Lower("also") == "also";
    assert OccursAt("also", "so", 2);
    assert "so" in Fillers;
  }

  /** No filler word occurs in "Hi there" or "the end": neither holds the
      first letter of any of them. */
  lemma CleanTexts()
    ensures !HasFiller("Hi there", Fillers)
    ensures !HasFiller("the end", Fillers)
  {
    assert Lower("Hi there") == "hi there";
    assert Lower("the end") == "the end";
    forall fw | fw in Fillers
      ensures !Contains("hi there", fw) && !Contains("the end", fw)
    {
      assert fw != [] && fw[0] in "ualysb";
      MissingFirstChar("hi there", fw);
      MissingFirstChar("the end", fw);
    }
  }

  /** Three segments, the middle one saying "um": the first and third are
      kept as two separate pairs. */
  lemma ThreeSegments()
    ensures SelectKept([Segment("Hi there", 0.0, 1.5),
                        Segment("um let me think", 1.5, 3.0),
                        Segment("the end", 3.0, 4.25)], Fillers)
         == [Span(0.0, 1.5), Span(3.0, 4.25)]
  {
    var s0, s1, s2 := Segment("Hi there", 0.0, 1.5),
                      Segment("um let me think", 1.5, 3.0),
                      Segment("the end", 3.0, 4.25);
    CleanTexts();
    assert Lower(s1.text) == s1.text;
    assert OccursAt(s1.text, "um", 0);
    assert "um" in Fillers;
    assert HasFiller(s1.text, Fillers);
    assert [s0, s1, s2][..2] == [s0, s1];
    assert [s0, s1][..1] == [s0];
    assert SelectKept([s0], Fillers) == [SpanOf(s0)];
    assert SelectKept([s0, s1], Fillers) == [SpanOf(s0)];
  }

  /** The keep loop: append `(start, end)` for every segment whose text has
      no filler word. */
  method KeepSegments(segments: seq<Segment>) returns (keep: seq<Span>)
    ensures keep == SelectKept(segments, Fillers)
  {
    keep := [];
    var i := 0;
    while i < |segments|
      invariant 0 <= i <= |segments|
      invariant keep == SelectKept(segments[..i], Fillers)
    {
      var seg := segments[i];
      assert segments[..i + 1][..i] == segments[..i];
      if !HasFiller(seg.text, Fillers) {
        keep := keep + [Span(seg.start, seg.end)];
      }
      i := i + 1;
    }
    assert segments[..i] == segments;
  }

  // ---------------------------------------------------------------------
  // Paths and commands
  // ---------------------------------------------------------------------

  /** `os.path.join(dir, name)` for a directory without a trailing slash:
      an absolute name replaces the directory. */
  function Join(dir: string, name: string): string
  {
    if |name| > 0 && name[0] == '/' then name else dir + "/" + name
  }

  function InputPath(filename: string): string
  {
    Join("uploads", filename)
  }

  /** `processed/segment_<i>_<hex>.mp4` */
  function SegmentPath(i: nat, hex: string): (p: string)
    ensures p == "processed/segment_" + Decimal(i) + "_" + hex + ".mp4"
  {
    Join("processed", "segment_" + Decimal(i) + "_" + hex + ".mp4")
  }

  /** `processed/concat_<hex>.txt` */
  function ConcatListPath(hex: string): (p: string)
    ensures p == "processed/concat_" + hex + ".txt"
  {
    Join("processed", "concat_" + hex + ".txt")
  }

  /** The output is always `processed/no_fillers_<filename>`, whatever the
      upload is called. */
  function FinalPath(filename: string): (p: string)
    ensures p == "processed/no_fillers_" + filename
  {
    Join("processed", "no_fillers_" + filename)
  }

  /** The cut file names carry the cut's position, so two cuts of one
      request never share a file, whatever the uuids are. */
  lemma SegmentPathsDistinct(i: nat, j: nat, hi: string, hj: string)
    requires i != j
    ensures SegmentPath(i, hi) != SegmentPath(j, hj)
  {
    if SegmentPath(i, hi) == SegmentPath(j, hj) {
      var prefix := "processed/segment_";
      var x, y := hi + ".mp4", hj + ".mp4";
      assert SegmentPath(i, hi) == prefix + (Decimal(i) + ['_'] + x);
      assert SegmentPath(j, hj) == prefix + (Decimal(j) + ['_'] + y);
      assert Decimal(i) + ['_'] + x == (prefix + (Decimal(i) + ['_'] + x))[|prefix|..];
      assert Decimal(j) + ['_'] + y == (prefix + (Decimal(j) + ['_'] + y))[|prefix|..];
      DigitsBeforeSeparator(Decimal(i), Decimal(j), '_', x, y);
      DecimalRoundTrip(i);
      DecimalRoundTrip(j);
    }
  }

  /** None of the files the handler writes is the upload, a cut file is
      neither the manifest nor the output, and the manifest is not the output. */
  lemma OutputsDistinct(filename: string, i: nat, hex: string, listHex: string)
    ensures SegmentPath(i, hex) != InputPath(filename)
    ensures ConcatListPath(listHex) != InputPath(filename)
    ensures FinalPath(filename) != InputPath(filename)
    ensures SegmentPath(i, hex) != ConcatListPath(listHex)
    ensures SegmentPath(i, hex) != FinalPath(filename)
    ensures ConcatListPath(listHex) != FinalPath(filename)
  {
    var seg, list, out := SegmentPath(i, hex), ConcatListPath(listHex), FinalPath(filename);
    assert seg[0] == 'p' && seg[..10] == "processed/" && seg[10] == 's';
    assert list[0] == 'p' && list[..10] == "processed/" && list[10] == 'c';
    assert out[0] == 'p' && out[..10] == "processed/" && out[10] == 'n';
    var inp := InputPath(filename);
    if |filename| > 0 && filename[0] == '/' {
      assert inp[0] == '/';
    } else {
      assert inp[0] == 'u';
    }
  }

  /** `ffmpeg -y -i <input> -ss str(start) -to str(end) -c copy <segment>` */
  function CutCommand(inputPath: string, span: Span, segmentPath: string, toStr: real -> string): seq<string>
  {
    ["ffmpeg", "-y", "-i", inputPath, "-ss", toStr(span.start), "-to", toStr(span.end),
     "-c", "copy", segmentPath]
  }

  /** `ffmpeg -y -f concat -safe 0 -i <list> -c copy <final>` */
  function ConcatCommand(listPath: string, finalPath: string): seq<string>
  {
    ["ffmpeg", "-y", "-f", "concat", "-safe", "0", "-i", listPath, "-c", "copy", finalPath]
  }

  /** The cut file of every kept pair, in order; cut i takes the i-th uuid. */
  function CutPaths(keep: seq<Span>, uuidHex: nat -> string): seq<string>
  {
    seq(|keep|, i requires 0 <= i < |keep| => SegmentPath(i, uuidHex(i)))
  }

  /** The cut runs for the kept pairs, in order. */
  function CutRuns(inputPath: string, keep: seq<Span>, toStr: real -> string, uuidHex: nat -> string): seq<Effect>
  {
    seq(|keep|, i requires 0 <= i < |keep| =>
      Run(CutCommand(inputPath, keep[i], SegmentPath(i, uuidHex(i)), toStr)))
  }

  // ---------------------------------------------------------------------
  // Concat manifest
  // ---------------------------------------------------------------------

  /** How the manifest names one cut file. */
  function ManifestEntry(absolute: string): string
  {
    "file '" + absolute + "'"
  }

  function ManifestLine(absolute: string): string
  {
    ManifestEntry(absolute) + "\n"
  }

  /** What the manifest loop writes: one line per cut file, in order. */
  function Manifest(paths: seq<string>, absPath: string -> string): string
  {
    if paths == [] then ""
    else Manifest(paths[..|paths| - 1], absPath) + ManifestLine(absPath(paths[|paths| - 1]))
  }

  lemma {:induction false} ManifestCons(p: string, rest: seq<string>, absPath: string -> string)
    ensures Manifest([p] + rest, absPath) == ManifestLine(absPath(p)) + Manifest(rest, absPath)
    decreases |rest|
  {
    if rest != [] {
      var init := rest[..|rest| - 1];
      assert ([p] + rest)[..|[p] + rest| - 1] == [p] + init;
      ManifestCons(p, init, absPath);
    }
  }

  /** One manifest line read back, then the rest. */
  lemma ManifestLineReadsBack(absolute: string, rest: string)
    requires '\n' !in absolute
    ensures SplitLines(ManifestLine(absolute) + rest) == [ManifestEntry(absolute)] + SplitLines(rest)
  {
    var line := ManifestEntry(absolute);
    assert forall k :: 0 <= k < |line| ==> line[k] == '\'' || line[k] in "file " || line[k] in absolute;
    assert ManifestLine(absolute) + rest == line + "\n" + rest;
    SplitLinesCons(line, rest);
  }

  /** The lines the concat step reads from the manifest, without terminators. */
  function ManifestEntries(paths: seq<string>, absPath: string -> string): seq<string>
  {
    seq(|paths|, k requires 0 <= k < |paths| => ManifestEntry(absPath(paths[k])))
  }

  lemma ManifestEntriesCons(paths: seq<string>, absPath: string -> string)
    requires paths != []
    ensures ManifestEntries(paths, absPath)
         == [ManifestEntry(absPath(paths[0]))] + ManifestEntries(paths[1..], absPath)
  {
    var want, wantRest := ManifestEntries(paths, absPath), ManifestEntries(paths[1..], absPath);
    assert forall k :: 0 <= k < |wantRest| ==> want[k + 1] == wantRest[k];
  }

  /** Read back line by line, the manifest names every cut file once, in the
      order of the cuts, as `file '<absolute path>'` (when no absolute path
      holds a newline). */
  lemma {:induction false} ManifestReadsBack(paths: seq<string>, absPath: string -> string)
    requires forall k :: 0 <= k < |paths| ==> '\n' !in absPath(paths[k])
    ensures SplitLines(Manifest(paths, absPath)) == ManifestEntries(paths, absPath)
    decreases |paths|
  {
    if paths != [] {
      var p, rest := paths[0], paths[1..];
      assert paths == [p] + rest;
      ManifestCons(p, rest, absPath);
      forall k | 0 <= k < |rest| ensures '\n' !in absPath(rest[k]) {
        assert rest[k] == paths[k + 1];
      }
      ManifestReadsBack(rest, absPath);
      ManifestLineReadsBack(absPath(p), Manifest(rest, absPath));
      ManifestEntriesCons(paths, absPath);
    }
  }

  // ---------------------------------------------------------------------
  // The handler
  // ---------------------------------------------------------------------

  /** Every step of a request that finds something to keep, in order, when
      every external command succeeds: the cuts, the manifest, the concat.
      The manifest takes uuid number |keep|, after the cuts' uuids. */
  function Plan(filename: string, keep: seq<Span>, toStr: real -> string,
                absPath: string -> string, uuidHex: nat -> string): seq<Effect>
  {
    var listPath := ConcatListPath(uuidHex(|keep|));
    CutRuns(InputPath(filename), keep, toStr, uuidHex)
      + [WriteFile(listPath, Manifest(CutPaths(keep, uuidHex), absPath)),
         Run(ConcatCommand(listPath, FinalPath(filename)))]
  }

  /** The first m steps of the plan are the first m cuts. */
  lemma PlanPrefix(filename: string, keep: seq<Span>, toStr: real -> string,
                   absPath: string -> string, uuidHex: nat -> string, m: nat)
    requires m <= |keep|
    ensures Plan(filename, keep, toStr, absPath, uuidHex)[..m]
         == CutRuns(InputPath(filename), keep, toStr, uuidHex)[..m]
  {
  }

  /** A step that does not raise: a command that exits with 0, or a write. */
  predicate Succeeds(e: Effect, exitOk: seq<string> -> bool)
  {
    e.Run? ==> exitOk(e.argv)
  }

  /** One cut per kept pair, in order; cut i copies the stream from
      `str(start_i)` to `str(end_i)` of the upload into its own file; then the
      manifest over exactly those files, then one concat into the output. */
  lemma PlanShape(filename: string, keep: seq<Span>, toStr: real -> string,
                  absPath: string -> string, uuidHex: nat -> string)
    ensures var plan, n := Plan(filename, keep, toStr, absPath, uuidHex), |keep|;
      && |plan| == n + 2
      && (forall i :: 0 <= i < n ==>
            plan[i] == Run(["ffmpeg", "-y", "-i", InputPath(filename),
                            "-ss", toStr(keep[i].start), "-to", toStr(keep[i].end),
                            "-c", "copy", SegmentPath(i, uuidHex(i))]))
      && plan[n] == WriteFile(ConcatListPath(uuidHex(n)),
                              Manifest(seq(n, i requires 0 <= i < n => SegmentPath(i, uuidHex(i))), absPath))
      && plan[n + 1] == Run(["ffmpeg", "-y", "-f", "concat", "-safe", "0",
                             "-i", ConcatListPath(uuidHex(n)), "-c", "copy",
                             "processed/no_fillers_" + filename])
  {
  }

  /** The cut loop: run one cut per kept pair, in order, and collect the cut
      files; the first command that fails raises and ends the loop. */
  method CutSegments(inputPath: string, keep: seq<Span>, toStr: real -> string,
                     uuidHex: nat -> string, exitOk: seq<string> -> bool)
    returns (tempFiles: seq<string>, ran: seq<Effect>, ok: bool)
    ensures |ran| <= |keep|
    ensures ran == CutRuns(inputPath, keep, toStr, uuidHex)[..|ran|]
    ensures ok ==> |ran| == |keep| && forall k :: 0 <= k < |ran| ==> Succeeds(ran[k], exitOk)
    ensures ok ==> tempFiles == CutPaths(keep, uuidHex)
    ensures !ok ==> && 0 < |ran|
                    && (forall k :: 0 <= k < |ran| - 1 ==> Succeeds(ran[k], exitOk))
                    && !Succeeds(ran[|ran| - 1], exitOk)
  {
    ghost var runs := CutRuns(inputPath, keep, toStr, uuidHex);
    ghost var paths := CutPaths(keep, uuidHex);
    tempFiles, ran := [], [];
    var i := 0;
    while i < |keep|
      invariant 0 <= i <= |keep|
      invariant ran == runs[..i]
      invariant tempFiles == paths[..i]
      invariant forall k :: 0 <= k < i ==> Succeeds(ran[k], exitOk)
    {
      var segmentPath := SegmentPath(i, uuidHex(i));
      var cmd := CutCommand(inputPath, keep[i], segmentPath, toStr);
      assert runs[..i + 1] == runs[..i] + [Run(cmd)];
      ran := ran + [Run(cmd)];
      if !exitOk(cmd) {
        ok := false;
        return;
      }
      assert paths[..i + 1] == paths[..i] + [segmentPath];
      tempFiles := tempFiles + [segmentPath];
      i := i + 1;
    }
    assert runs[..i] == runs && paths[..i] == paths;
    ok := true;
  }

  /** The manifest loop: one `file '<abs path>'` line per cut file. */
  method WriteManifest(tempFiles: seq<string>, absPath: string -> string) returns (content: string)
    ensures content == Manifest(tempFiles, absPath)
  {
    content := "";
    var i := 0;
    while i < |tempFiles|
      invariant 0 <= i <= |tempFiles|
      invariant content == Manifest(tempFiles[..i], absPath)
    {
      assert tempFiles[..i + 1][..i] == tempFiles[..i];
      content := content + ManifestLine(absPath(tempFiles[i]));
      i := i + 1;
    }
    assert tempFiles[..i] == tempFiles;
  }

  /** `remove_filler_words_video` after the upload is saved and transcribed.
      With nothing to keep it answers at once and touches nothing. Otherwise
      it carries out Plan step by step and stops at the first command that
      fails; it reports the output path only when every step succeeded. */
  method RemoveFillerWordsVideo(filename: string, segments: seq<Segment>,
                                toStr: real -> string, absPath: string -> string,
                                uuidHex: nat -> string, exitOk: seq<string> -> bool)
    returns (effects: seq<Effect>, reply: Reply)
    ensures SelectKept(segments, Fillers) == [] ==>
              effects == [] && reply == Json(200, AllFilteredMessage, None)
    ensures var keep := SelectKept(segments, Fillers);
            var plan := Plan(filename, keep, toStr, absPath, uuidHex);
            keep != [] ==>
              && 0 < |effects| <= |plan|
              && effects == plan[..|effects|]
              && (forall k :: 0 <= k < |effects| - 1 ==> Succeeds(effects[k], exitOk))
              && (|effects| < |plan| ==> !Succeeds(effects[|effects| - 1], exitOk))
              && (if Succeeds(effects[|effects| - 1], exitOk)
                  then reply == Json(200, DoneMessage, Some(FinalPath(filename)))
                  else reply == ServerError(effects[|effects| - 1].argv))
  {
    var keep := KeepSegments(segments);
    if keep == [] {
      effects, reply := [], Json(200, AllFilteredMessage, None);
      return;
    }
    ghost var plan := Plan(filename, keep, toStr, absPath, uuidHex);
    var tempFiles, ok;
    tempFiles, effects, ok := CutSegments(InputPath(filename), keep, toStr, uuidHex, exitOk);
    if !ok {
      PlanPrefix(filename, keep, toStr, absPath, uuidHex, |effects|);
      reply := ServerError(effects[|effects| - 1].argv);
      return;
    }
    var listPath := ConcatListPath(uuidHex(|keep|));
    var content := WriteManifest(tempFiles, absPath);
    effects := effects + [WriteFile(listPath, content)];
    var finalPath := FinalPath(filename);
    var cmdConcat := ConcatCommand(listPath, finalPath);
    effects := effects + [Run(cmdConcat)];
    assert effects == plan;
    assert effects == plan[..|effects|];
    assert effects[|effects| - 1] == Run(cmdConcat);
    if !exitOk(cmdConcat) {
      reply := ServerError(cmdConcat);
      return;
    }
    reply := Json(200, DoneMessage, Some(finalPath));
  }
}
