/** Model of `remove_filler_words` (utils/nlp_utils.py): delete, left to
    right, every non-overlapping match of the case-insensitive pattern
    `\b(?:um|uh|like|you know|basically)\b`.

    The pattern is built from a list of words, so the scan is stated for
    any list of non-empty words, compared with the text with case ignored on
    both sides, and used with the source's list. It follows
    the regex engine: at each position it checks `\b`, tries the words in
    their order, and takes the first one whose end is also at `\b`; a match
    is deleted and the scan resumes after it, otherwise one character is
    copied and the scan moves on by one. The words hold only letters and
    spaces, so `re.escape` leaves them literal. */
module FillerWords {
  import opened Options
  import opened Strings

  /** The alternatives of the pattern, in the order the regex tries them. */
  const Fillers: seq<string> := ["um", "uh", "like", "you know", "basically"]

  /** An alternation of such words never matches the empty string. */
  predicate NonEmptyWords(words: seq<string>)
  {
    forall k :: 0 <= k < |words| ==> words[k] != []
  }

  /** `\w` on the ASCII range. */
  predicate IsWordChar(c: char)
  {
    'a' <= c <= 'z' || 'A' <= c <= 'Z' || '0' <= c <= '9' || c == '_'
  }

  /** `\b` at position i: exactly one of s[i - 1] and s[i] is a word character,
      a missing neighbour at either end counting as a non-word character. */
  predicate AtBoundary(s: string, i: nat)
    requires i <= |s|
  {
    (0 < i && IsWordChar(s[i - 1])) != (i < |s| && IsWordChar(s[i]))
  }

  /** Word f, ignoring case on both sides, starts at i and ends at a `\b`. */
  predicate AltMatches(s: string, i: nat, f: string)
    requires i <= |s|
  {
    i + |f| <= |s| && Lower(s[i..i + |f|]) == Lower(f) && AtBoundary(s, i + |f|)
  }

  /** The index of the first word that matches at i. */
  function FirstAlt(s: string, i: nat, words: seq<string>): (r: Option<nat>)
    requires i <= |s|
    ensures r.Some? ==> r.value < |words|
  {
    if words == [] then None
    else if AltMatches(s, i, words[0]) then Some(0)
    else match FirstAlt(s, i, words[1..])
      case None => None
      case Some(k) => Some(k + 1)
  }

  /** The alternation picks the first word that matches, and finds none
      exactly when no word matches. */
  lemma {:induction false} FirstAltSpec(s: string, i: nat, words: seq<string>)
    requires i <= |s|
    ensures var r := FirstAlt(s, i, words);
      && (r.Some? ==> AltMatches(s, i, words[r.value]))
      && (r.Some? ==> forall j :: 0 <= j < r.value ==> !AltMatches(s, i, words[j]))
      && (r.None? <==> forall j :: 0 <= j < |words| ==> !AltMatches(s, i, words[j]))
  {
    if words != [] && !AltMatches(s, i, words[0]) {
      FirstAltSpec(s, i, words[1..]);
      assert forall j :: 0 < j < |words| ==> words[j] == words[1..][j - 1];
    }
  }

  /** The length of the pattern's match at i, if it matches there. */
  function MatchAt(s: string, i: nat, words: seq<string>): (r: Option<nat>)
    requires i <= |s| && NonEmptyWords(words)
    ensures r.Some? ==> 0 < r.value && i + r.value <= |s|
  {
    if !AtBoundary(s, i) then None
    else match FirstAlt(s, i, words)
      case None => None
      case Some(k) =>
        FirstAltSpec(s, i, words);
        Some(|words[k]|)
  }

  /** A whole-word, case-insensitive occurrence of word f at p. */
  ghost predicate Occurrence(s: string, p: nat, f: string)
  {
    p <= |s| && AtBoundary(s, p) && AltMatches(s, p, f)
  }

  /** The pattern matches at i exactly when one of the words occurs there as
      a whole word, and the match is then as long as that word. */
  lemma MatchAtIff(s: string, i: nat, words: seq<string>)
    requires i <= |s| && NonEmptyWords(words)
    ensures MatchAt(s, i, words).None? <==> forall f :: f in words ==> !Occurrence(s, i, f)
    ensures MatchAt(s, i, words).Some? ==>
              exists f :: f in words && Occurrence(s, i, f) && |f| == MatchAt(s, i, words).value
  {
    var r := FirstAlt(s, i, words);
    FirstAltSpec(s, i, words);
    if AtBoundary(s, i) && r.None? {
      forall f | f in words ensures !Occurrence(s, i, f) {
        var j :| 0 <= j < |words| && words[j] == f;
      }
    }
    if AtBoundary(s, i) && r.Some? {
      assert Occurrence(s, i, words[r.value]);
    }
  }

  /** re.sub(pattern, '', s[i..]) with the scan starting at i of s, so that
      `\b` at i still sees s[i - 1]. */
  function Scan(s: string, i: nat, words: seq<string>): string
    requires i <= |s| && NonEmptyWords(words)
    decreases |s| - i
  {
    if i == |s| then []
    else match MatchAt(s, i, words)
      case Some(n) => Scan(s, i + n, words)
      case None => [s[i]] + Scan(s, i + 1, words)
  }

  /** `remove_filler_words(transcript)` */
  function RemoveFillerWords(transcript: string): string
  {
    Scan(transcript, 0, Fillers)
  }

  // ---------------------------------------------------------------------
  // What stays and what goes
  // ---------------------------------------------------------------------

  /** The positions of s that the scan from i copies, in order. */
  ghost function Kept(s: string, i: nat, words: seq<string>): seq<nat>
    requires i <= |s| && NonEmptyWords(words)
    decreases |s| - i
  {
    if i == |s| then []
    else match MatchAt(s, i, words)
      case Some(n) => Kept(s, i + n, words)
      case None => [i] + Kept(s, i + 1, words)
  }

  /** The output is the input with some characters left out: it is the
      characters at the kept positions, which are increasing. */
  lemma {:induction false} ScanSubsequence(s: string, i: nat, words: seq<string>)
    requires i <= |s| && NonEmptyWords(words)
    ensures var out, ks := Scan(s, i, words), Kept(s, i, words);
      && |out| == |ks|
      && (forall k :: 0 <= k < |ks| ==> i <= ks[k] < |s| && out[k] == s[ks[k]])
      && (forall k, l :: 0 <= k < l < |ks| ==> ks[k] < ks[l])
    decreases |s| - i
  {
    if i < |s| {
      match MatchAt(s, i, words)
      case Some(n) =>
        ScanSubsequence(s, i + n, words);
      case None =>
        ScanSubsequence(s, i + 1, words);
        var out, ks := Scan(s, i + 1, words), Kept(s, i + 1, words);
        assert Scan(s, i, words) == [s[i]] + out;
        assert Kept(s, i, words) == [i] + ks;
    }
  }

  /** Only filler text goes: every position the scan does not copy lies
      inside a whole-word occurrence of one of the words. */
  lemma {:induction false} ScanRemovesOnlyWords(s: string, i: nat, j: nat, words: seq<string>)
    requires i <= j < |s| && NonEmptyWords(words) && j !in Kept(s, i, words)
    ensures exists p: nat, f :: f in words && Occurrence(s, p, f) && i <= p <= j < p + |f|
    decreases |s| - i
  {
    match MatchAt(s, i, words)
    case Some(n) =>
      assert Kept(s, i, words) == Kept(s, i + n, words);
      if j < i + n {
        MatchAtIff(s, i, words);
        var f :| f in words && Occurrence(s, i, f) && |f| == n;
        assert i <= i <= j < i + |f|;
      } else {
        ScanRemovesOnlyWords(s, i + n, j, words);
      }
    case None =>
      assert Kept(s, i, words) == [i] + Kept(s, i + 1, words);
      ScanRemovesOnlyWords(s, i + 1, j, words);
  }

  lemma {:induction false} ScanLength(s: string, i: nat, words: seq<string>)
    requires i <= |s| && NonEmptyWords(words)
    ensures |Scan(s, i, words)| <= |s| - i
    decreases |s| - i
  {
    if i < |s| {
      match MatchAt(s, i, words)
      case Some(n) => ScanLength(s, i + n, words);
      case None => ScanLength(s, i + 1, words);
    }
  }

  /** Any match at or after i, whether the scan deletes it or an earlier
      deletion overlaps it, makes the output shorter than the input. */
  lemma {:induction false} ScanShortens(s: string, i: nat, p: nat, words: seq<string>)
    requires i <= p <= |s| && NonEmptyWords(words) && MatchAt(s, p, words).Some?
    ensures |Scan(s, i, words)| < |s| - i
    decreases |s| - i
  {
    var m := MatchAt(s, i, words);
    assert i < |s|;
    if m.Some? {
      ScanLength(s, i + m.value, words);
      assert Scan(s, i, words) == Scan(s, i + m.value, words);
    } else {
      assert i < p;
      ScanShortens(s, i + 1, p, words);
      assert Scan(s, i, words) == [s[i]] + Scan(s, i + 1, words);
    }
  }

  /** Where the pattern matches nowhere, the scan copies everything. */
  lemma {:induction false} ScanCopies(s: string, i: nat, words: seq<string>)
    requires i <= |s| && NonEmptyWords(words)
    requires forall p :: i <= p <= |s| ==> MatchAt(s, p, words).None?
    ensures Scan(s, i, words) == s[i..]
    decreases |s| - i
  {
    if i < |s| {
      ScanCopies(s, i + 1, words);
      assert s[i..] == [s[i]] + s[i + 1..];
    }
  }

  /** The scan leaves its input unchanged exactly when none of the words
      occurs in it as a whole word. */
  lemma ScanUnchangedIff(s: string, words: seq<string>)
    requires NonEmptyWords(words)
    ensures Scan(s, 0, words) == s <==> forall p: nat, f :: f in words ==> !Occurrence(s, p, f)
  {
    if forall p: nat, f :: f in words ==> !Occurrence(s, p, f) {
      forall p | 0 <= p <= |s| ensures MatchAt(s, p, words).None? {
        MatchAtIff(s, p, words);
      }
      ScanCopies(s, 0, words);
    } else {
      var p: nat, f :| f in words && Occurrence(s, p, f);
      MatchAtIff(s, p, words);
      ScanShortens(s, 0, p, words);
    }
  }

  // ---------------------------------------------------------------------
  // Every whole-word occurrence goes
  // ---------------------------------------------------------------------

  /** No word has a `\b` inside it in front of a letter that some word
      starts with, so no match can run over the start of an occurrence. */
  predicate NoInnerStart(words: seq<string>)
  {
    forall a, b, r :: 0 <= a < |words| && 0 <= b < |words| && 0 < r < |words[a]| && words[b] != []
      && IsWordChar(words[a][r - 1]) != IsWordChar(words[a][r])
      ==> LowerChar(words[a][r]) != LowerChar(words[b][0])
  }

  /** Words that start with the same letter, ignoring case, are equally long,
      so whichever of them the alternation picks covers the same text. */
  predicate SameStartSameLength(words: seq<string>)
  {
    forall a, b :: 0 <= a < |words| && 0 <= b < |words| && words[a] != [] && words[b] != []
      && LowerChar(words[a][0]) == LowerChar(words[b][0])
      ==> |words[a]| == |words[b]|
  }

  /** The source's words have both properties: only "you know" has a `\b`
      inside, before ' ' and 'k'; only "um" and "uh" share a first letter. */
  lemma FillersSeparated()
    ensures NonEmptyWords(Fillers) && NoInnerStart(Fillers) && SameStartSameLength(Fillers)
  {
    FillersNoInnerStart();
    forall a, b | 0 <= a < |Fillers| && 0 <= b < |Fillers|
      && LowerChar(Fillers[a][0]) == LowerChar(Fillers[b][0])
      ensures |Fillers[a]| == |Fillers[b]|
    {
      FillerAt(a);
      FillerAt(b);
    }
  }

  /** The first letter and the length of each of the source's words. */
  lemma FillerAt(a: nat)
    requires a < |Fillers|
    ensures Fillers[a] != [] && LowerChar(Fillers[a][0]) == "uulyb"[a] && |Fillers[a]| == [2, 2, 4, 8, 9][a]
  {
  }

  lemma FillersNoInnerStart()
    ensures NoInnerStart(Fillers)
  {
    forall a, b, r | 0 <= a < |Fillers| && 0 <= b < |Fillers| && 0 < r < |Fillers[a]| && Fillers[b] != []
      && IsWordChar(Fillers[a][r - 1]) != IsWordChar(Fillers[a][r])
      ensures LowerChar(Fillers[a][r]) != LowerChar(Fillers[b][0])
    {
      assert LowerChar(Fillers[b][0]) in "ulyb";
      InnerStartsAvoid(Fillers[a], LowerChar(Fillers[b][0]));
    }
  }

  /** Inside each of the source's words, a `\b` stands only before a
      character none of the words starts with. */
  lemma InnerStartsAvoid(w: string, c: char)
    requires w in Fillers && c in "ulyb"
    ensures forall r :: 0 < r < |w| && IsWordChar(w[r - 1]) != IsWordChar(w[r]) ==> LowerChar(w[r]) != c
  {
    if w == "you know" {
      assert forall r :: 0 < r < |w| && IsWordChar(w[r - 1]) != IsWordChar(w[r]) ==> r == 3 || r == 4;
    }
  }

  /** Where a word matches, each character of the text folds to the word's. */
  lemma FoldAt(s: string, q: nat, g: string, r: nat)
    requires q + |g| <= |s| && Lower(s[q..q + |g|]) == Lower(g) && r < |g|
    ensures LowerChar(s[q + r]) == LowerChar(g[r])
    ensures IsWordChar(s[q + r]) == IsWordChar(g[r])
  {
    assert Lower(s[q..q + |g|])[r] == LowerChar(s[q + r]);
    assert Lower(g)[r] == LowerChar(g[r]);
  }

  /** A position strictly inside a match sits at a `\b` of the text exactly
      when it sits at one of the word, and folds to the word's character. */
  lemma FoldInside(s: string, q: nat, g: string, p: nat)
    requires q < p && q + |g| <= |s| && Lower(s[q..q + |g|]) == Lower(g)
    ensures p < q + |g| ==>
      && LowerChar(s[p]) == LowerChar(g[p - q])
      && (AtBoundary(s, p) <==> IsWordChar(g[p - q - 1]) != IsWordChar(g[p - q]))
  {
    if p < q + |g| {
      FoldAt(s, q, g, p - q);
      FoldAt(s, q, g, p - q - 1);
    }
  }

  /** A word that matches at i starts with the folded character at i. */
  lemma AltFirstChar(s: string, i: nat, f: string)
    requires i <= |s| && f != []
    ensures AltMatches(s, i, f) ==> i < |s| && LowerChar(s[i]) == LowerChar(f[0])
  {
    if AltMatches(s, i, f) {
      FoldAt(s, i, f, 0);
    }
  }

  /** A match starting before p does not run past p when a word occurs at p. */
  lemma NoMatchOverStart(s: string, q: nat, p: nat, f: string, words: seq<string>)
    requires q < p <= |s| && NonEmptyWords(words) && NoInnerStart(words)
    requires f in words && Occurrence(s, p, f) && MatchAt(s, q, words).Some?
    ensures q + MatchAt(s, q, words).value <= p
  {
    MatchAtIff(s, q, words);
    var g :| g in words && Occurrence(s, q, g) && |g| == MatchAt(s, q, words).value;
    var a :| 0 <= a < |words| && words[a] == g;
    var b :| 0 <= b < |words| && words[b] == f;
    AltFirstChar(s, p, f);
    FoldInside(s, q, g, p);
  }

  /** Scanning from i reaches p when no match from i on runs past p: a
      position at or after p that the scan from i keeps, the scan from p keeps. */
  lemma {:induction false} ScanReaches(s: string, i: nat, p: nat, k: nat, words: seq<string>)
    requires i <= p <= k && p <= |s| && NonEmptyWords(words)
    requires forall q :: i <= q < p && MatchAt(s, q, words).Some? ==> q + MatchAt(s, q, words).value <= p
    ensures k in Kept(s, i, words) ==> k in Kept(s, p, words)
    decreases p - i
  {
    if i < p {
      var m := MatchAt(s, i, words);
      if m.Some? {
        assert i + m.value <= p;
        assert Kept(s, i, words) == Kept(s, i + m.value, words);
        ScanReaches(s, i + m.value, p, k, words);
      } else {
        assert Kept(s, i, words) == [i] + Kept(s, i + 1, words);
        assert k in Kept(s, i, words) ==> k in Kept(s, i + 1, words);
        ScanReaches(s, i + 1, p, k, words);
      }
    }
  }

  /** The scan from i keeps only positions from i on. */
  lemma KeptFrom(s: string, i: nat, k: nat, words: seq<string>)
    requires i <= |s| && NonEmptyWords(words)
    ensures k in Kept(s, i, words) ==> i <= k < |s|
  {
    ScanSubsequence(s, i, words);
  }

  /** A match is skipped whole: nothing in it is kept. */
  lemma KeptSkip(s: string, p: nat, words: seq<string>)
    requires p <= |s| && NonEmptyWords(words) && MatchAt(s, p, words).Some?
    ensures Kept(s, p, words) == Kept(s, p + MatchAt(s, p, words).value, words)
  {
  }

  /** Where a word occurs, the alternation matches exactly as much text. */
  lemma MatchAtOccurrence(s: string, p: nat, f: string, words: seq<string>)
    requires NonEmptyWords(words) && SameStartSameLength(words)
    requires f in words && Occurrence(s, p, f)
    ensures MatchAt(s, p, words) == Some(|f|)
  {
    MatchAtIff(s, p, words);
    var g :| g in words && Occurrence(s, p, g) && |g| == MatchAt(s, p, words).value;
    var a :| 0 <= a < |words| && words[a] == g;
    var b :| 0 <= b < |words| && words[b] == f;
    AltFirstChar(s, p, f);
    AltFirstChar(s, p, g);
  }

  /** No match that starts before a word's occurrence runs into it. */
  lemma NoMatchOverOccurrence(s: string, p: nat, f: string, words: seq<string>)
    requires NonEmptyWords(words) && NoInnerStart(words)
    requires f in words && Occurrence(s, p, f)
    ensures forall q :: 0 <= q < p && MatchAt(s, q, words).Some? ==> q + MatchAt(s, q, words).value <= p
  {
    forall q | 0 <= q < p && MatchAt(s, q, words).Some?
      ensures q + MatchAt(s, q, words).value <= p
    {
      NoMatchOverStart(s, q, p, f, words);
    }
  }

  /** Every character of a whole-word occurrence of a word is removed. */
  lemma OccurrenceRemoved(s: string, p: nat, f: string, j: nat, words: seq<string>)
    requires NonEmptyWords(words) && NoInnerStart(words) && SameStartSameLength(words)
    requires f in words && Occurrence(s, p, f) && p <= j < p + |f|
    ensures j !in Kept(s, 0, words)
  {
    NoMatchOverOccurrence(s, p, f, words);
    MatchAtOccurrence(s, p, f, words);
    MatchRemoved(s, p, j, words);
  }

  /** A match at p that no earlier match runs into is removed whole. */
  lemma MatchRemoved(s: string, p: nat, j: nat, words: seq<string>)
    requires p <= |s| && NonEmptyWords(words) && MatchAt(s, p, words).Some?
    requires forall q :: 0 <= q < p && MatchAt(s, q, words).Some? ==> q + MatchAt(s, q, words).value <= p
    requires p <= j < p + MatchAt(s, p, words).value
    ensures j !in Kept(s, 0, words)
  {
    ScanReaches(s, 0, p, j, words);
    KeptSkip(s, p, words);
    KeptFrom(s, p + MatchAt(s, p, words).value, j, words);
  }

  /** A position is removed exactly when it lies inside a whole-word
      occurrence of one of the words. */
  lemma ScanRemovedIff(s: string, j: nat, words: seq<string>)
    requires j < |s| && NonEmptyWords(words) && NoInnerStart(words) && SameStartSameLength(words)
    ensures j !in Kept(s, 0, words)
        <==> exists p: nat, f :: f in words && Occurrence(s, p, f) && p <= j < p + |f|
  {
    if j !in Kept(s, 0, words) {
      ScanRemovesOnlyWords(s, 0, j, words);
    } else if exists p: nat, f :: f in words && Occurrence(s, p, f) && p <= j < p + |f| {
      var p: nat, f :| f in words && Occurrence(s, p, f) && p <= j < p + |f|;
      OccurrenceRemoved(s, p, f, j, words);
    }
  }

  /** The cleaned transcript is the transcript with characters left out, so
      it is never longer; every character left out belongs to a whole-word
      filler; and the transcript comes back unchanged exactly when no filler
      occurs in it as a whole word. */
  lemma RemoveFillerWordsSpec(transcript: string)
    ensures var out, ks := RemoveFillerWords(transcript), Kept(transcript, 0, Fillers);
      && |out| == |ks| <= |transcript|
      && (forall k :: 0 <= k < |ks| ==> ks[k] < |transcript| && out[k] == transcript[ks[k]])
      && (forall k, l :: 0 <= k < l < |ks| ==> ks[k] < ks[l])
    ensures forall j :: 0 <= j < |transcript| ==>
              (j !in Kept(transcript, 0, Fillers)
               <==> exists p: nat, f :: f in Fillers && Occurrence(transcript, p, f) && p <= j < p + |f|)
    ensures RemoveFillerWords(transcript) == transcript
        <==> forall p: nat, f :: f in Fillers ==> !Occurrence(transcript, p, f)
  {
    var s := transcript;
    ScanSubsequence(s, 0, Fillers);
    ScanLength(s, 0, Fillers);
    FillersSeparated();
    forall j | 0 <= j < |s|
      ensures j !in Kept(s, 0, Fillers)
          <==> exists p: nat, f :: f in Fillers && Occurrence(s, p, f) && p <= j < p + |f|
    {
      ScanRemovedIff(s, j, Fillers);
    }
    ScanUnchangedIff(s, Fillers);
  }

  // ---------------------------------------------------------------------
  // Case
  // ---------------------------------------------------------------------

  /** Lower-casing keeps word characters word characters and the rest not. */
  lemma BoundaryIgnoresCase(s: string, k: nat)
    requires k <= |s|
    ensures AtBoundary(Lower(s), k) == AtBoundary(s, k)
  {
    if 0 < k {
      assert IsWordChar(Lower(s)[k - 1]) == IsWordChar(s[k - 1]);
    }
    if k < |s| {
      assert IsWordChar(Lower(s)[k]) == IsWordChar(s[k]);
    }
  }

  /** Letter case does not change whether a word matches. */
  lemma AltIgnoresCase(s: string, i: nat, f: string)
    requires i <= |s|
    ensures AltMatches(Lower(s), i, f) == AltMatches(s, i, f)
  {
    if i + |f| <= |s| {
      LowerSlice(s, i, i + |f|);
      LowerIdempotent(s[i..i + |f|]);
      BoundaryIgnoresCase(s, i + |f|);
    }
  }

  /** Letter case does not change where the pattern matches. */
  lemma MatchAtIgnoresCase(s: string, i: nat, words: seq<string>)
    requires i <= |s| && NonEmptyWords(words)
    ensures MatchAt(Lower(s), i, words) == MatchAt(s, i, words)
  {
    forall j | 0 <= j < |words|
      ensures AltMatches(Lower(s), i, words[j]) == AltMatches(s, i, words[j])
    {
      AltIgnoresCase(s, i, words[j]);
    }
    FirstAltSame(Lower(s), s, i, words);
    BoundaryIgnoresCase(s, i);
  }

  lemma {:induction false} FirstAltSame(s: string, t: string, i: nat, words: seq<string>)
    requires i <= |s| && i <= |t|
    requires forall j :: 0 <= j < |words| ==> AltMatches(s, i, words[j]) == AltMatches(t, i, words[j])
    ensures FirstAlt(s, i, words) == FirstAlt(t, i, words)
  {
    if words != [] {
      FirstAltSame(s, t, i, words[1..]);
    }
  }

  /** Matching ignores case: the same positions are removed whatever the case
      of the input, and the output of a lower-cased input is the lower-cased
      output. */
  lemma {:induction false} ScanIgnoresCase(s: string, i: nat, words: seq<string>)
    requires i <= |s| && NonEmptyWords(words)
    ensures Kept(Lower(s), i, words) == Kept(s, i, words)
    ensures Scan(Lower(s), i, words) == Lower(Scan(s, i, words))
    decreases |s| - i
  {
    if i < |s| {
      MatchAtIgnoresCase(s, i, words);
      match MatchAt(s, i, words)
      case Some(n) =>
        ScanIgnoresCase(s, i + n, words);
        assert Scan(Lower(s), i, words) == Scan(Lower(s), i + n, words);
      case None =>
        ScanIgnoresCase(s, i + 1, words);
        var t := Lower(s);
        assert t[i] == LowerChar(s[i]);
        assert Scan(t, i, words) == [t[i]] + Scan(t, i + 1, words);
        assert Kept(t, i, words) == [i] + Kept(t, i + 1, words);
        LowerCons(s[i], Scan(s, i + 1, words));
    }
  }

  /** `remove_filler_words` is case-insensitive: "UM" and "Like" go just as
      "um" and "like" do, and the characters that stay keep their case. */
  lemma RemoveFillerWordsIgnoresCase(transcript: string)
    ensures Kept(Lower(transcript), 0, Fillers) == Kept(transcript, 0, Fillers)
    ensures RemoveFillerWords(Lower(transcript)) == Lower(RemoveFillerWords(transcript))
  {
    ScanIgnoresCase(transcript, 0, Fillers);
  }

  // ---------------------------------------------------------------------
  // Examples
  // ---------------------------------------------------------------------

  /** A word fails where its folded first letter is not the folded character. */
  lemma AltFailsAtFirst(s: string, i: nat, f: string)
    requires i < |s| && f != [] && LowerChar(s[i]) != LowerChar(f[0])
    ensures !AltMatches(s, i, f)
  {
    if i + |f| <= |s| {
      assert Lower(s[i..i + |f|])[0] == LowerChar(s[i]);
      assert Lower(f)[0] == LowerChar(f[0]);
    }
  }

  /** The fillers cannot match at the end of the text, away from a `\b`, or
      where the character does not fold to the first letter of a filler. */
  lemma NoMatchAt(s: string, i: nat)
    requires i <= |s|
    requires i == |s| || !AtBoundary(s, i) || LowerChar(s[i]) !in "ulyb"
    ensures MatchAt(s, i, Fillers).None?
  {
    if AtBoundary(s, i) {
      forall j | 0 <= j < |Fillers| ensures !AltMatches(s, i, Fillers[j]) {
        assert Fillers[j] != [] && Fillers[j][0] in "ulyb";
        if i < |s| {
          AltFailsAtFirst(s, i, Fillers[j]);
        }
      }
      FirstAltSpec(s, i, Fillers);
    }
  }

  /** Scanning from i copies the rest when no position from i on can match. */
  lemma CopiesFrom(s: string, i: nat)
    requires i <= |s|
    requires forall p :: i <= p < |s| ==> !AtBoundary(s, p) || LowerChar(s[p]) !in "ulyb"
    ensures Scan(s, i, Fillers) == s[i..]
  {
    forall p | i <= p <= |s| ensures MatchAt(s, p, Fillers).None? {
      NoMatchAt(s, p);
    }
    ScanCopies(s, i, Fillers);
  }

  /** "UM" is removed as "um" is. */
  lemma UpperCaseExample()
    ensures RemoveFillerWords("UM hello") == " hello"
  {
    var s := "UM hello";
    assert Lower(s[0..2]) == "um";
    assert AltMatches(s, 0, Fillers[0]);
    assert MatchAt(s, 0, Fillers) == Some(2);
    CopiesFrom(s, 2);
    assert s[2..] == " hello";
  }

  /** "you know" goes as one match. */
  lemma PhraseExample()
    ensures RemoveFillerWords("you know what") == " what"
  {
    var t := "you know what";
    AltFailsAtFirst(t, 0, Fillers[0]);
    AltFailsAtFirst(t, 0, Fillers[1]);
    AltFailsAtFirst(t, 0, Fillers[2]);
    assert Lower(t[0..8]) == "you know";
    assert AltMatches(t, 0, Fillers[3]);
    assert MatchAt(t, 0, Fillers) == Some(8);
    CopiesFrom(t, 8);
    assert t[8..] == " what";
  }

  /** "liked" stays: `\b` must hold after "like" too. */
  lemma LikedExample()
    ensures RemoveFillerWords("I liked it") == "I liked it"
  {
    var s := "I liked it";
    AltFailsAtFirst(s, 2, Fillers[0]);
    AltFailsAtFirst(s, 2, Fillers[1]);
    assert !AtBoundary(s, 6);
    assert !AltMatches(s, 2, Fillers[2]);
    AltFailsAtFirst(s, 2, Fillers[3]);
    AltFailsAtFirst(s, 2, Fillers[4]);
    assert MatchAt(s, 2, Fillers).None?;
    forall p | 0 <= p <= |s| ensures MatchAt(s, p, Fillers).None? {
      if p != 2 { NoMatchAt(s, p); }
    }
    ScanCopies(s, 0, Fillers);
  }

  /** "umbrella" stays: after "um" comes a word character. */
  lemma UmbrellaExample()
    ensures RemoveFillerWords("umbrella") == "umbrella"
  {
    var s := "umbrella";
    assert !AtBoundary(s, 2);
    assert !AltMatches(s, 0, Fillers[0]);
    assert s[1] == 'm';
    assert !AltMatches(s, 0, Fillers[1]);
    AltFailsAtFirst(s, 0, Fillers[2]);
    AltFailsAtFirst(s, 0, Fillers[3]);
    AltFailsAtFirst(s, 0, Fillers[4]);
    assert MatchAt(s, 0, Fillers).None?;
    forall p | 0 <= p <= |s| ensures MatchAt(s, p, Fillers).None? {
      if p > 0 { NoMatchAt(s, p); }
    }
    ScanCopies(s, 0, Fillers);
  }
}
