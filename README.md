# Filler-word removal, modelled in Dafny

This project models the two pieces of logic in a small video-editing web
service that remove spoken filler words.

- **`/remove` handler** (`routes/remove.py`, module `FillerSegments` in
  `remove.dfy`). The handler takes a transcript as a list of segments
  `{text, start, end}`. It keeps the `(start, end)` pair of every segment
  whose lower-cased text contains none of the filler words
  `uh, um, ah, like, you know, so, basically`. If nothing is kept, it
  answers at once with `output: None`. Otherwise it:
  - runs one `ffmpeg ... -c copy` cut per kept pair;
  - writes a concat manifest with one `file '<abs path>'` line per cut;
  - concatenates the cuts into `processed/no_fillers_<filename>`.

  The keep loop, the cut loop and the manifest loop are methods with loop
  invariants. Each is proved against a specification function: `SelectKept`,
  `CutRuns`/`CutPaths` or `Manifest`. The whole request is
  `RemoveFillerWordsVideo`. It returns the external steps it takes, in
  order (`Effect`: a command run or a file write), and its reply.
- **`remove_filler_words`** (`utils/nlp_utils.py`, module `FillerWords` in
  `nlp_utils.dfy`). One `re.sub` with the case-insensitive pattern
  `\b(?:um|uh|like|you know|basically)\b` deletes every non-overlapping
  match, left to right. `Scan` is a recursive scan that behaves as the regex
  engine does:
  - at each position it checks `\b`;
  - it tries the alternatives in their order and takes the first one whose
    end is also at `\b`;
  - on a match it skips the match, otherwise it copies one character.

  Case is ignored on both the text and the words. The scan and the lemmas
  up to `ScanUnchangedIff` hold for any list of non-empty words. The lemmas
  that every whole-word occurrence is removed (`OccurrenceRemoved`,
  `ScanRemovedIff` and their helpers) also need two properties of the list:
  - `NoInnerStart`: no word has a `\b` inside it in front of a letter some
    word starts with;
  - `SameStartSameLength`: words that start with the same letter are the
    same length.

  Without them the claim fails: with the words "x y" and "y z", the text
  "x y z" has "y z" as a whole word at 2, yet the scan removes "x y" and
  keeps the "z". `FillersSeparated` proves both properties for the source's
  list. `NoMatchAt`, `CopiesFrom` and the examples are stated for the
  source's list only.

`strings.dfy` (module `Strings`) holds the shared string helpers:
- ASCII `lower()`;
- Python's substring test `p in s`;
- `str(n)` for a non-negative integer;
- reading a text back as lines.

`options.dfy` holds `Option`, which stands for Python's `None`.

The handler's outside world is passed in as parameters:
- `toStr` is `str()` on a timestamp;
- `absPath` is `os.path.abspath`;
- `uuidHex(n)` is the hex of the n-th `uuid.uuid4()` of the request, so cut
  i takes number i and the manifest takes number `|keep|`;
- `exitOk(argv)` says whether `subprocess.run(argv)` exits with 0.

Timestamps are `real` and are only copied.

### What the code does where another reading is possible

The model follows the code in each case.

- **Filler test.** The handler's test is a plain substring test,
  `fw in seg_text` at `routes/remove.py:47`. It is not a whole-word test like
  the one in `utils/nlp_utils.py:5`. So it drops "I liked it" (it holds "like")
  and "also" (it holds "so"); see `SubstringNotWholeWord`. Whole-word matching
  exists only in `remove_filler_words`. `routes/silence_removal.py:25` uses
  that function; the `/remove` handler does not.
- **Segment order.** The code never checks that segments are in order or
  that they do not overlap. The model accepts any list.
- **Failures.** A failing command raises `CalledProcessError` from
  `subprocess.run(..., check=True)` (`routes/remove.py:72`, `:94`). That
  reaches Flask as a 500 with nothing cleaned up, for two reasons. The
  cleanup at `routes/remove.py:96-99` is commented out. And even if it were
  enabled, it comes after line 94 with no `try`/`finally`, so a command that
  raises would skip it. This is `Reply.ServerError` carrying the failed
  command.
- **Stitching.** The cuts are joined by a single FFmpeg concat pass over a
  manifest. The code has no other way to join them, such as a crossfade.

## Model

| member | source | states |
|---|---|---|
| FillerSegments.SelectKept | routes/remove.py:40-48 | the kept list is never longer than the segment list |
| FillerSegments.SelectKeptExact | routes/remove.py:41-48 | the kept pairs are exactly the `(start, end)` of the segments whose lower-cased text contains no filler. There is one pair per such segment, in input order. No pair is made up and none is merged |
| FillerSegments.SelectKeptEmpty | routes/remove.py:47-51 | nothing is kept if and only if every segment contains a filler |
| FillerSegments.SelectKeptAppend | routes/remove.py:41-48 | each segment is judged on its own: selecting over `a + b` gives the selection of `a` followed by that of `b` |
| FillerSegments.KeptSegments | routes/remove.py:41-48 | the segments the keep loop keeps, whole; its behaviour is stated by `KeptSegmentsExact` |
| FillerSegments.KeptSegmentsExact | routes/remove.py:41-48 | the kept segments are exactly the segments at the kept positions, in order. Each has no filler, and the k-th gives the k-th kept pair |
| FillerSegments.KeptSegmentsAllClean | routes/remove.py:41-48 | a list of segments none of which has a filler is kept whole |
| FillerSegments.SelectKeptIdempotent | routes/remove.py:41-48 | selecting again over the kept segments keeps every one of them, and gives the same pairs |
| FillerSegments.HasFiller | routes/remove.py:42-47 | `any(fw in seg_text for fw in filler_words)` on the lower-cased text; its behaviour is stated by `SelectKeptExact`, `SubstringNotWholeWord` and `CleanTexts` |
| FillerSegments.SubstringNotWholeWord | routes/remove.py:37-47 | the substring test flags "I liked it" and "also" |
| FillerSegments.CleanTexts | routes/remove.py:37-47 | "Hi there" and "the end" contain no filler word |
| FillerSegments.ThreeSegments | routes/remove.py:40-48 | of three segments with "um" in the middle, the first and third are kept as two separate pairs |
| FillerSegments.KeepSegments | routes/remove.py:40-48 | the keep loop's list equals `SelectKept` of the segments with the handler's filler set |
| FillerSegments.Join | routes/remove.py:20-83 | `os.path.join(dir, name)`: an absolute name replaces the directory. Its uses are stated by `SegmentPath`, `ConcatListPath`, `FinalPath` and `OutputsDistinct` |
| FillerSegments.InputPath | routes/remove.py:20 | the upload is saved at `os.path.join('uploads', filename)`, so an absolute filename replaces the directory; `OutputsDistinct` states that no written file is this path |
| FillerSegments.SegmentPath | routes/remove.py:60-61 | a cut file is `processed/segment_<str(i)>_<hex>.mp4` |
| FillerSegments.SegmentPathsDistinct | routes/remove.py:60-61 | cuts at different positions get different files, whatever the uuids |
| FillerSegments.ConcatListPath | routes/remove.py:76 | the manifest is `processed/concat_<hex>.txt` |
| FillerSegments.FinalPath | routes/remove.py:82-83 | the output is `processed/no_fillers_<filename>` |
| FillerSegments.OutputsDistinct | routes/remove.py:20-83 | no cut, manifest or output path is the upload's path, and these three kinds of path never coincide |
| FillerSegments.CutCommand | routes/remove.py:63-71 | the cut argv; `PlanShape` states it in full for every cut |
| FillerSegments.ConcatCommand | routes/remove.py:85-93 | the concat argv; `PlanShape` states it in full |
| FillerSegments.CutPaths | routes/remove.py:58-73 | the cut file of each kept pair, in order; `CutSegments` states that the cut loop collects exactly these, and `PlanShape` that the manifest lists them |
| FillerSegments.CutRuns | routes/remove.py:58-73 | the cut command of each kept pair, in order; `CutSegments` states that the cut loop runs a prefix of them, and `PlanShape` spells each one out |
| FillerSegments.Plan | routes/remove.py:58-94 | every step of a request that keeps something, when every command succeeds: the cuts, the manifest write, the concat. `PlanShape` states its shape, and `RemoveFillerWordsVideo` that the handler carries out a prefix of it |
| FillerSegments.PlanShape | routes/remove.py:59-94 | a request that keeps n pairs plans n + 2 steps. Cut i is `ffmpeg -y -i <input> -ss str(start_i) -to str(end_i) -c copy <segment i>`. Then comes the manifest over exactly those cut files, then the single concat into the output |
| FillerSegments.CutSegments | routes/remove.py:58-73 | the cut loop runs the planned cuts in order. When all cuts succeed, it has run one per kept pair and collected exactly the planned cut files. When one fails, it has stopped right after that cut and every earlier cut succeeded |
| FillerSegments.ManifestEntry | routes/remove.py:79 | how the manifest names one cut file, `file '<abs path>'`; `ManifestReadsBack` states that the manifest reads back as these entries |
| FillerSegments.ManifestLine | routes/remove.py:79 | one manifest line, the entry and a newline; `ManifestLineReadsBack` states how it reads back |
| FillerSegments.Manifest | routes/remove.py:77-79 | the manifest text; `WriteManifest` states that the loop writes it, and `ManifestReadsBack` that it reads back as one entry per cut file |
| FillerSegments.WriteManifest | routes/remove.py:77-79 | the manifest loop writes `Manifest` of the cut files |
| FillerSegments.ManifestLineReadsBack | routes/remove.py:79 | one written line reads back as `file '<abs path>'` followed by the rest |
| FillerSegments.ManifestReadsBack | routes/remove.py:77-79 | read back line by line, the manifest has exactly one `file '<abs path>'` line per cut file, in cut order |
| FillerSegments.RemoveFillerWordsVideo | routes/remove.py:40-104 | with nothing kept: no command runs, no file is written, and the reply is 200 with the all-filtered message and `output: None`. Otherwise the steps taken are a non-empty prefix of the plan, and every step but the last succeeded. The handler stops early only at a failing command. The reply is the success message with the output path exactly when the last step succeeded; otherwise it is the server error for that command |
| Strings.Lower | routes/remove.py:42 | `str.lower()` on ASCII; `LowerIdempotent` states that it leaves no upper-case letter and that applying it twice changes nothing |
| Strings.LowerIdempotent | routes/remove.py:42 | lower-cased text has no upper-case letter, and lower-casing it again changes nothing |
| Strings.Contains | routes/remove.py:47 | Python's `fw in seg_text`; `MissingFirstChar` states that a text without p's first character does not contain p, and `SubstringNotWholeWord` shows that a match inside a word counts |
| Strings.MissingFirstChar | routes/remove.py:47 | a text that lacks the first character of p does not contain p |
| Strings.Decimal | routes/remove.py:60 | `str(i)` is non-empty, all digits, and starts with 0 only for 0 |
| Strings.DecimalRoundTrip | routes/remove.py:60 | reading `str(i)` back gives i |
| FillerWords.IsWordChar | utils/nlp_utils.py:5 | `\w` on ASCII: letters, digits and `_`; `BoundaryIgnoresCase` states that case does not change it |
| FillerWords.AtBoundary | utils/nlp_utils.py:5 | `\b`: exactly one neighbour is a word character, and the text's ends count as non-word. Its role is stated by `MatchAtIff` and shown by `LikedExample` and `UmbrellaExample` |
| FillerWords.AltMatches | utils/nlp_utils.py:5 | one alternative of the pattern matches at i: the text there equals the word, case ignored, and `\b` holds after it. Its role is stated by `FirstAltSpec` and `MatchAtIff` |
| FillerWords.FirstAlt | utils/nlp_utils.py:5 | the pattern's alternation over the words, tried in list order; its own contract only keeps the index in range, and `FirstAltSpec` states what it picks |
| FillerWords.FirstAltSpec | utils/nlp_utils.py:4-5 | the alternation picks the first word in list order that matches, and finds none exactly when no word matches |
| FillerWords.MatchAt | utils/nlp_utils.py:5 | a match is non-empty and lies inside the text |
| FillerWords.MatchAtIff | utils/nlp_utils.py:5 | the pattern matches at i if and only if some filler occurs at i as a whole word (`\b` on both sides, case ignored). The match then has that word's length |
| FillerWords.Scan | utils/nlp_utils.py:5-6 | `re.sub(pattern, '', ...)`; its behaviour is stated by `ScanSubsequence`, `ScanRemovesOnlyWords`, `ScanLength`, `ScanShortens`, `ScanCopies`, `ScanUnchangedIff`, `ScanRemovedIff` and `ScanIgnoresCase` |
| FillerWords.RemoveFillerWords | utils/nlp_utils.py:3-7 | `remove_filler_words(transcript)`; `RemoveFillerWordsSpec` states that it removes exactly the characters of whole-word filler occurrences, and `RemoveFillerWordsIgnoresCase` that case does not matter |
| FillerWords.ScanSubsequence | utils/nlp_utils.py:6 | the output is the input's characters at increasing positions, each copied unchanged |
| FillerWords.ScanRemovesOnlyWords | utils/nlp_utils.py:5-6 | every character left out lies inside a whole-word occurrence of a filler |
| FillerWords.ScanLength | utils/nlp_utils.py:6 | the output is never longer than the input |
| FillerWords.ScanShortens | utils/nlp_utils.py:6 | any match in the text makes the output strictly shorter |
| FillerWords.ScanCopies | utils/nlp_utils.py:6 | where nothing matches, the text comes back unchanged |
| FillerWords.ScanUnchangedIff | utils/nlp_utils.py:5-6 | the text comes back unchanged if and only if no filler occurs in it as a whole word |
| FillerWords.FillersSeparated | utils/nlp_utils.py:4 | the source's words are non-empty. None has a `\b` inside it in front of a letter that some word starts with. Words with the same first letter, case ignored, are equally long |
| FillerWords.NoMatchOverOccurrence | utils/nlp_utils.py:5-6 | for such a word list, no match that starts before a whole-word occurrence runs into it |
| FillerWords.MatchAtOccurrence | utils/nlp_utils.py:5 | for such a word list, where a word occurs as a whole word the pattern matches exactly that much text |
| FillerWords.ScanReaches | utils/nlp_utils.py:6 | when no match from i on runs past p, a position at or after p that the scan from i keeps is also kept by the scan from p |
| FillerWords.MatchRemoved | utils/nlp_utils.py:6 | a match that no earlier match runs into is removed whole |
| FillerWords.OccurrenceRemoved | utils/nlp_utils.py:5-6 | for such a word list, every character of every whole-word occurrence of a word is removed |
| FillerWords.ScanRemovedIff | utils/nlp_utils.py:5-6 | for such a word list, a character is removed if and only if it lies inside a whole-word occurrence of a word |
| FillerWords.RemoveFillerWordsSpec | utils/nlp_utils.py:3-7 | for the source's word list: the output is a subsequence of the input, so it is never longer. A character is removed if and only if it lies inside a whole-word, case-insensitive occurrence of a filler. The transcript comes back unchanged if and only if no filler occurs in it as a whole word |
| FillerWords.BoundaryIgnoresCase | utils/nlp_utils.py:5-6 | letter case does not move a `\b` |
| FillerWords.AltIgnoresCase | utils/nlp_utils.py:6 | letter case does not change whether a word matches |
| FillerWords.MatchAtIgnoresCase | utils/nlp_utils.py:6 | letter case does not change where the pattern matches or how long the match is |
| FillerWords.ScanIgnoresCase | utils/nlp_utils.py:6 | lower-casing the input removes the same positions, and its output is the lower-cased output |
| FillerWords.RemoveFillerWordsIgnoresCase | utils/nlp_utils.py:6 | `remove_filler_words` ignores case: lower-casing the transcript removes the same positions (so "UM" goes as "um" does), and the output of the lower-cased transcript is the lower-cased output. That kept characters keep their case is `out[k] == transcript[ks[k]]` in `RemoveFillerWordsSpec` |
| FillerWords.NoMatchAt | utils/nlp_utils.py:4-5 | no filler matches at the end of the text, away from a `\b`, or before a character that does not fold to a filler's first letter |
| FillerWords.UpperCaseExample | utils/nlp_utils.py:4-6 | "UM hello" becomes " hello" |
| FillerWords.PhraseExample | utils/nlp_utils.py:4-6 | "you know what" becomes " what": the phrase goes as one match |
| FillerWords.LikedExample | utils/nlp_utils.py:5-6 | "I liked it" is unchanged, because `\b` must hold after "like" |
| FillerWords.UmbrellaExample | utils/nlp_utils.py:5-6 | "umbrella" is unchanged, because a word character follows "um" |

## Left out

- Uploads: the Flask request, the directory creation and the upload's save (`routes/remove.py:19-23`) are outside the model. The upload's file name is a parameter.
- Transcription: the Whisper call and `transcript.get("segments", [])` (`routes/remove.py:26-34`) are a network client. The segment list is a parameter. A segment without `text`, `start` or `end` (a `KeyError`) is not modelled.
- FFmpeg: what each command does to the media (keyframe snapping under `-c copy`, the file contents) is outside the model. Only the argument lists and the exit status, through `exitOk`, are modelled.
- File writes: opening and writing the manifest is assumed to succeed. An I/O error there is not modelled.
- Outside values: `uuid.uuid4().hex`, `str()` on a float and `os.path.abspath` are caller-supplied functions. The model does not assume the uuids are distinct. The cut paths are still distinct by their index (`SegmentPathsDistinct`).
- Cleanup: it is commented out in the source (`routes/remove.py:96-99`), so nothing is deleted. Enabled, it would run only after a successful concat, so a failing request would still leave its files.
- Unicode: `str.lower()`, `re.IGNORECASE` and `\w` are modelled on ASCII only. Non-ASCII letters are never folded and never count as word characters. The source's own Unicode folding differs for letters such as the Kelvin sign.
- ManifestReadsBack: it holds only when no absolute path contains a newline. A quote in a path is written unescaped, as the source writes it.
- FirstAlt: its own contract states only that the index it returns is in range. What it promises about the matches is proved in `FirstAltSpec`.
- Other files: `routes/transcribe.py`, `routes/silence_removal.py`, `routes/denoise.py`, `app.py` and `utils/video_utils.py` are not part of this model. They wrap Whisper, pydub, ffmpeg-python and moviepy, or register routes.
