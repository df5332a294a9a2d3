/** The lmms-eval hooks of the benchmark: answer
    normalisation, extraction of the chosen letter from a model's reply,
    multiple-choice accuracy, prompt assembly and per-document result
    processing (lmms-eval-files/mmbeliefs_mcq/utils.py). Scores are the
    integers 0 and 1 in place of the floats 0.0 and 1.0. */
module Scoring {
  import opened Results
  import opened Text

  // ---------------------------------------------------------------------------
  // normalize_text
  // ---------------------------------------------------------------------------

  /** A character that lower-casing and punctuation removal leave alone. */
  predicate Clean(c: char) {
    !IsUpper(c) && !IsPunct(c)
  }

  predicate AllClean(s: string) {
    forall i :: 0 <= i < |s| ==> Clean(s[i])
  }

  /** Every whitespace character is a plain space. */
  predicate SpacesAreBlank(s: string) {
    forall i :: 0 <= i < |s| ==> IsSpace(s[i]) ==> s[i] == ' '
  }

  /** No two whitespace characters are adjacent. */
  predicate NoDoubleSpace(s: string) {
    forall i, j :: 0 <= i < |s| && 0 <= j < |s| && j == i + 1 ==> !(IsSpace(s[i]) && IsSpace(s[j]))
  }

  /** The shape of every string `normalize_text` returns: no upper-case
      letter, no punctuation, single blanks only, none at either end. */
  predicate IsNormalized(s: string) {
    && AllClean(s)
    && SpacesAreBlank(s)
    && NoDoubleSpace(s)
    && (s != [] ==> !IsSpace(s[0]) && !IsSpace(s[|s| - 1]))
  }

  /** The characters of `s` that are not whitespace, in order. */
  function NonSpace(s: string): (r: string)
    ensures forall i :: 0 <= i < |r| ==> !IsSpace(r[i])
    decreases |s|
  {
    if s == [] then []
    else if IsSpace(s[0]) then NonSpace(s[1..])
    else [s[0]] + NonSpace(s[1..])
  }

  lemma {:induction false} NonSpaceAppend(a: string, b: string)
    ensures NonSpace(a + b) == NonSpace(a) + NonSpace(b)
    decreases |a|
  {
    if a == [] {
      assert a + b == b;
    } else {
      assert (a + b)[0] == a[0] && (a + b)[1..] == a[1..] + b;
      NonSpaceAppend(a[1..], b);
    }
  }

  lemma {:induction false} NonSpaceOfTrimStart(s: string)
    ensures NonSpace(TrimStart(s, IsSpace)) == NonSpace(s)
    decreases |s|
  {
    if s != [] && IsSpace(s[0]) {
      NonSpaceOfTrimStart(s[1..]);
    }
  }

  lemma {:induction false} NonSpaceOfTrimEnd(s: string)
    ensures NonSpace(TrimEnd(s, IsSpace)) == NonSpace(s)
    decreases |s|
  {
    if s != [] && IsSpace(s[|s| - 1]) {
      var t := s[..|s| - 1];
      NonSpaceOfTrimEnd(t);
      assert s == t + [s[|s| - 1]];
      NonSpaceAppend(t, [s[|s| - 1]]);
      assert [s[|s| - 1]][1..] == [];
    }
  }

  /** `s.translate(str.maketrans('', '', string.punctuation))`. */
  function RemovePunct(s: string): (r: string)
    ensures forall i :: 0 <= i < |r| ==> !IsPunct(r[i])
    ensures (forall i :: 0 <= i < |s| ==> !IsUpper(s[i])) ==> forall i :: 0 <= i < |r| ==> !IsUpper(r[i])
    ensures (forall i :: 0 <= i < |s| ==> !IsPunct(s[i])) ==> r == s
    decreases |s|
  {
    if s == [] then []
    else if IsPunct(s[0]) then RemovePunct(s[1..])
    else [s[0]] + RemovePunct(s[1..])
  }

  /** Punctuation is removed piece by piece: the removal from a
      concatenation is the concatenation of the removals. */
  lemma {:induction false} RemovePunctAppend(a: string, b: string)
    ensures RemovePunct(a + b) == RemovePunct(a) + RemovePunct(b)
    decreases |a|
  {
    if a == [] {
      assert a + b == b;
    } else {
      assert (a + b)[0] == a[0] && (a + b)[1..] == a[1..] + b;
      RemovePunctAppend(a[1..], b);
    }
  }

  /** A single character is removed exactly when it is punctuation. With
      `RemovePunctAppend` this fixes the result for every input. */
  lemma {:induction false} RemovePunctOfChar(c: char)
    ensures RemovePunct([c]) == if IsPunct(c) then [] else [c]
  {
    assert [c][1..] == [];
  }

  /** `re.sub(r'\s+', ' ', s)`: every maximal run of whitespace becomes one
      blank. */
  function CollapseSpace(s: string): (r: string)
    ensures r == [] <==> s == []
    ensures s != [] && !IsSpace(s[0]) ==> r[0] == s[0]
    ensures s != [] && IsSpace(s[0]) ==> r[0] == ' '
    decreases |s|
  {
    if s == [] then []
    else if IsSpace(s[0]) then " " + CollapseSpace(TrimStart(s, IsSpace))
    else [s[0]] + CollapseSpace(s[1..])
  }

  /** After collapsing, whitespace is single blanks, and no upper-case
      letter or punctuation has been introduced. */
  lemma {:induction false} CollapseSpaceShape(s: string)
    ensures SpacesAreBlank(CollapseSpace(s))
    ensures NoDoubleSpace(CollapseSpace(s))
    ensures AllClean(s) ==> AllClean(CollapseSpace(s))
  {
    CollapseSpaceBlank(s);
    CollapseSpaceNoDouble(s);
    if AllClean(s) {
      CollapseSpaceClean(s);
    }
  }

  lemma {:induction false} CollapseSpaceBlank(s: string)
    ensures SpacesAreBlank(CollapseSpace(s))
    decreases |s|
  {
    if s != [] {
      var rest := if IsSpace(s[0]) then TrimStart(s, IsSpace) else s[1..];
      CollapseSpaceBlank(rest);
      var tail := CollapseSpace(rest);
      var r := CollapseSpace(s);
      assert r == [r[0]] + tail;
      BlankCons(r[0], tail);
    }
  }

  lemma {:induction false} BlankCons(c: char, tail: string)
    requires SpacesAreBlank(tail) && (IsSpace(c) ==> c == ' ')
    ensures SpacesAreBlank([c] + tail)
  {
    assert forall i :: 1 <= i < |tail| + 1 ==> ([c] + tail)[i] == tail[i - 1];
  }

  lemma {:induction false} CollapseSpaceNoDouble(s: string)
    ensures NoDoubleSpace(CollapseSpace(s))
    decreases |s|
  {
    if s != [] {
      var rest := if IsSpace(s[0]) then TrimStart(s, IsSpace) else s[1..];
      CollapseSpaceNoDouble(rest);
      var tail := CollapseSpace(rest);
      var r := CollapseSpace(s);
      assert r == [r[0]] + tail;
      assert IsSpace(s[0]) ==> tail == [] || !IsSpace(tail[0]);
      NoDoubleCons(r[0], tail);
    }
  }

  lemma {:induction false} NoDoubleCons(c: char, tail: string)
    requires NoDoubleSpace(tail) && (IsSpace(c) ==> tail == [] || !IsSpace(tail[0]))
    ensures NoDoubleSpace([c] + tail)
  {
    var r := [c] + tail;
    forall i, j | 0 <= i < |r| && 0 <= j < |r| && j == i + 1
      ensures !(IsSpace(r[i]) && IsSpace(r[j]))
    {
      assert r[j] == tail[j - 1];
      if i > 0 {
        assert r[i] == tail[i - 1];
      }
    }
  }

  lemma {:induction false} CollapseSpaceClean(s: string)
    requires AllClean(s)
    ensures AllClean(CollapseSpace(s))
    decreases |s|
  {
    if s != [] {
      var rest := if IsSpace(s[0]) then TrimStart(s, IsSpace) else s[1..];
      TrimStartIsSuffix(s, IsSpace);
      CleanSuffix(s, |s| - |rest|);
      CollapseSpaceClean(rest);
      var r := CollapseSpace(s);
      CleanCons(r[0], CollapseSpace(rest));
    }
  }

  lemma {:induction false} CleanSuffix(s: string, k: nat)
    requires AllClean(s) && k <= |s|
    ensures AllClean(s[k..])
  {
    forall i | 0 <= i < |s| - k ensures Clean(s[k..][i]) {
      assert s[k..][i] == s[k + i];
    }
  }

  lemma {:induction false} CleanCons(c: char, tail: string)
    requires Clean(c) && AllClean(tail)
    ensures AllClean([c] + tail)
  {
    forall i | 1 <= i < |tail| + 1 ensures Clean(([c] + tail)[i]) {
      assert ([c] + tail)[i] == tail[i - 1];
    }
  }

  /** Text whose whitespace is already single blanks is not changed by
      collapsing. */
  lemma {:induction false} CollapseSpaceFixes(s: string)
    requires SpacesAreBlank(s) && NoDoubleSpace(s)
    ensures CollapseSpace(s) == s
    decreases |s|
  {
    if s != [] {
      var tail := s[1..];
      SpacingOfTail(s);
      CollapseSpaceFixes(tail);
      if IsSpace(s[0]) {
        LoneSpaceTrimmed(s);
        assert s == " " + tail;
      } else {
        assert s == [s[0]] + tail;
      }
    }
  }

  lemma {:induction false} SpacingOfTail(s: string)
    requires s != [] && SpacesAreBlank(s) && NoDoubleSpace(s)
    ensures SpacesAreBlank(s[1..]) && NoDoubleSpace(s[1..])
  {
    var tail := s[1..];
    assert forall i :: 0 <= i < |tail| ==> tail[i] == s[i + 1];
  }

  /** A single blank, not followed by whitespace, is all `\s+` consumes. */
  lemma {:induction false} LoneSpaceTrimmed(s: string)
    requires s != [] && IsSpace(s[0]) && NoDoubleSpace(s)
    ensures TrimStart(s, IsSpace) == s[1..]
  {
    assert |s| > 1 ==> !IsSpace(s[1]);
  }

  /** A run of whitespace on its own collapses to one blank. */
  lemma {:induction false} CollapseSpaceOfRun(ws: string)
    requires ws != [] && forall i :: 0 <= i < |ws| ==> IsSpace(ws[i])
    ensures CollapseSpace(ws) == " "
  {
    TrimStartIsSuffix(ws, IsSpace);
  }

  /** A character that is not whitespace is kept as it is. */
  lemma {:induction false} CollapseSpaceOfChar(c: char)
    requires !IsSpace(c)
    ensures CollapseSpace([c]) == [c]
  {
    assert [c][1..] == [];
  }

  /** Collapsing works piece by piece wherever the cut does not fall inside
      a run of whitespace. With `CollapseSpaceOfRun` and `CollapseSpaceOfChar`
      this fixes the result for every input, cut into its runs. */
  lemma {:induction false} CollapseSpaceAppend(x: string, y: string)
    requires x == [] || y == [] || !IsSpace(x[|x| - 1]) || !IsSpace(y[0])
    ensures CollapseSpace(x + y) == CollapseSpace(x) + CollapseSpace(y)
    decreases |x|
  {
    if x == [] {
      assert x + y == y;
    } else if !IsSpace(x[0]) {
      var rest := x[1..];
      assert rest != [] ==> rest[|rest| - 1] == x[|x| - 1];
      CollapseSpaceAppend(rest, y);
      CollapseSpaceAppendWord(x, y);
    } else {
      var t := TrimStart(x, IsSpace);
      TrimStartIsSuffix(x, IsSpace);
      assert t != [] ==> t[|t| - 1] == x[|x| - 1];
      TrimStartAppend(x, y, IsSpace);
      CollapseSpaceAppend(t, y);
      CollapseSpaceAppendRun(x, y, t);
    }
  }

  lemma {:induction false} CollapseSpaceAppendWord(x: string, y: string)
    requires x != [] && !IsSpace(x[0])
    requires CollapseSpace(x[1..] + y) == CollapseSpace(x[1..]) + CollapseSpace(y)
    ensures CollapseSpace(x + y) == CollapseSpace(x) + CollapseSpace(y)
  {
    var c, rest := x[0], x[1..];
    assert (x + y)[0] == c && (x + y)[1..] == rest + y;
    assert CollapseSpace(x + y) == [c] + CollapseSpace(rest + y);
    ConsAssoc(c, CollapseSpace(rest), CollapseSpace(y));
  }

  lemma {:induction false} ConsAssoc(c: char, a: string, b: string)
    ensures ([c] + a) + b == [c] + (a + b)
  {
  }


  lemma {:induction false} CollapseSpaceAppendRun(x: string, y: string, t: string)
    requires x != [] && IsSpace(x[0]) && t == TrimStart(x, IsSpace)
    requires TrimStart(x + y, IsSpace) == t + y
    requires CollapseSpace(t + y) == CollapseSpace(t) + CollapseSpace(y)
    ensures CollapseSpace(x + y) == CollapseSpace(x) + CollapseSpace(y)
  {
    assert (x + y)[0] == x[0];
    assert CollapseSpace(x + y) == " " + CollapseSpace(t + y);
    ConsAssoc(' ', CollapseSpace(t), CollapseSpace(y));
  }

  /** Collapsing keeps every character that is not whitespace, in order. */
  lemma {:induction false} CollapseSpaceKeepsNonSpace(s: string)
    ensures NonSpace(CollapseSpace(s)) == NonSpace(s)
    decreases |s|
  {
    if s != [] {
      if IsSpace(s[0]) {
        var t := TrimStart(s, IsSpace);
        CollapseSpaceKeepsNonSpace(t);
        NonSpaceOfTrimStart(s);
        NonSpaceAppend(" ", CollapseSpace(t));
        assert " "[1..] == [];
      } else {
        CollapseSpaceKeepsNonSpace(s[1..]);
        NonSpaceAppend([s[0]], CollapseSpace(s[1..]));
        assert [s[0]][1..] == [];
      }
    }
  }

  /** Stripping surrounding whitespace keeps the properties that hold of
      every character and of every adjacent pair. */
  lemma {:induction false} StripKeepsShape(s: string)
    requires AllClean(s) && SpacesAreBlank(s) && NoDoubleSpace(s)
    ensures IsNormalized(Strip(s, IsSpace))
  {
    StripIsSlice(s, IsSpace);
    var i, j :| 0 <= i <= j <= |s| && Strip(s, IsSpace) == s[i..j];
    SliceKeepsShape(s, i, j);
  }

  /** Every slice of a string keeps the properties that hold of every
      character and of every adjacent pair. */
  lemma {:induction false} SliceKeepsShape(s: string, i: nat, j: nat)
    requires i <= j <= |s|
    requires AllClean(s) && SpacesAreBlank(s) && NoDoubleSpace(s)
    ensures AllClean(s[i..j]) && SpacesAreBlank(s[i..j]) && NoDoubleSpace(s[i..j])
  {
    var r := s[i..j];
    forall k, l | 0 <= k < |r| && 0 <= l < |r| && l == k + 1
      ensures !(IsSpace(r[k]) && IsSpace(r[l]))
    {
      assert r[k] == s[i + k] && r[l] == s[i + l];
    }
  }

  /** `normalize_text`: lower-case, drop punctuation, collapse whitespace
      runs to one blank, strip both ends. */
  function Normalize(s: string): (r: string)
    ensures IsNormalized(r)
  {
    var lowered := Lower(s);
    var unpunct := RemovePunct(lowered);
    var collapsed := CollapseSpace(unpunct);
    CollapseSpaceShape(unpunct);
    StripKeepsShape(collapsed);
    Strip(collapsed, IsSpace)
  }

  /** A string already in normal form is left unchanged by `normalize_text`. */
  lemma {:induction false} NormalizeFixesNormalized(s: string)
    requires IsNormalized(s)
    ensures Normalize(s) == s
  {
    assert Lower(s) == s;
    assert RemovePunct(s) == s;
    CollapseSpaceFixes(s);
    assert TrimStart(s, IsSpace) == s;
    assert TrimEnd(s, IsSpace) == s;
  }

  /** `normalize_text` is idempotent. */
  lemma {:induction false} NormalizeIdempotent(s: string)
    ensures Normalize(Normalize(s)) == Normalize(s)
  {
    NormalizeFixesNormalized(Normalize(s));
  }

  /** `normalize_text` changes only case, punctuation and whitespace: the
      characters of its result that are not blanks are exactly those of the
      lower-cased text without punctuation, in order. */
  lemma {:induction false} NormalizeKeepsWords(s: string)
    ensures NonSpace(Normalize(s)) == NonSpace(RemovePunct(Lower(s)))
  {
    var u := RemovePunct(Lower(s));
    var c := CollapseSpace(u);
    CollapseSpaceKeepsNonSpace(u);
    NonSpaceOfTrimStart(c);
    NonSpaceOfTrimEnd(TrimStart(c, IsSpace));
  }

  // ---------------------------------------------------------------------------
  // extract_choice_letter
  // ---------------------------------------------------------------------------

  predicate IsChoiceLetter(c: char) {
    'A' <= c <= 'E' || 'a' <= c <= 'e'
  }

  /** The anchored pattern `\s*([A-Ea-e])` matches `s` with its group at
      index `i`: only whitespace before `i`, a choice letter at `i`. The
      optional trailing `[\):\s]?` never decides whether the match succeeds. */
  predicate LeadingChoiceAt(s: string, i: nat) {
    i < |s| && (forall j :: 0 <= j < i ==> IsSpace(s[j])) && IsChoiceLetter(s[i])
  }

  /** `extract_choice_letter`: the upper-cased letter the pattern captures,
      or `None` when it does not match. */
  function ExtractChoiceLetter(response: string): (r: Option<char>)
    ensures r.Some? <==> exists i: nat :: LeadingChoiceAt(response, i)
    ensures forall i: nat :: LeadingChoiceAt(response, i) ==> r == Some(UpperChar(response[i]))
    ensures r.Some? ==> 'A' <= r.value <= 'E'
  {
    var rest := TrimStart(response, IsSpace);
    var k := |response| - |rest|;
    TrimStartIsSuffix(response, IsSpace);
    assert rest != [] ==> response[k] == rest[0];
    assert forall i: nat :: LeadingChoiceAt(response, i) ==> i == k;
    if rest != [] && IsChoiceLetter(rest[0]) then
      assert LeadingChoiceAt(response, k);
      Some(UpperChar(rest[0]))
    else
      None
  }

  /** Swaps the case of an ASCII letter. */
  function SwapCase(c: char): char {
    if IsUpper(c) then LowerChar(c) else UpperChar(c)
  }

  /** Swapping the case of the first non-whitespace character does not change
      the extracted letter. */
  lemma {:induction false} ChoiceIgnoresCase(pre: string, c: char, post: string)
    requires forall j :: 0 <= j < |pre| ==> IsSpace(pre[j])
    ensures ExtractChoiceLetter(pre + [c] + post) == ExtractChoiceLetter(pre + [SwapCase(c)] + post)
  {
    var s := pre + [c] + post;
    var t := pre + [SwapCase(c)] + post;
    var k := |pre|;
    if IsChoiceLetter(c) {
      assert LeadingChoiceAt(s, k);
      assert LeadingChoiceAt(t, k);
    } else if !IsSpace(c) {
      assert !IsChoiceLetter(SwapCase(c));
      assert !IsSpace(SwapCase(c));
      forall i: nat | i < |s| ensures !LeadingChoiceAt(s, i) && !LeadingChoiceAt(t, i) {
        if i < k {
          assert s[i] == pre[i] && t[i] == pre[i];
        } else if i > k {
          assert s[k] == c && t[k] == SwapCase(c);
        }
      }
    } else {
      assert SwapCase(c) == c;
    }
  }

  /** Only the first non-whitespace character of a reply decides the letter;
      whatever follows it is ignored. */
  lemma {:induction false} ChoiceIgnoresTail(pre: string, c: char, post1: string, post2: string)
    requires forall j :: 0 <= j < |pre| ==> IsSpace(pre[j])
    requires !IsSpace(c)
    ensures ExtractChoiceLetter(pre + [c] + post1) == ExtractChoiceLetter(pre + [c] + post2)
  {
    var s := pre + [c] + post1;
    var t := pre + [c] + post2;
    var k := |pre|;
    if IsChoiceLetter(c) {
      assert LeadingChoiceAt(s, k);
      assert LeadingChoiceAt(t, k);
    } else {
      forall i: nat | i < |s| ensures !LeadingChoiceAt(s, i) {
        if i < k {
          assert s[i] == pre[i];
        } else if i > k {
          assert s[k] == c;
        }
      }
      forall i: nat | i < |t| ensures !LeadingChoiceAt(t, i) {
        if i < k {
          assert t[i] == pre[i];
        } else if i > k {
          assert t[k] == c;
        }
      }
    }
  }

  // ---------------------------------------------------------------------------
  // multiple_choice_accuracy
  // ---------------------------------------------------------------------------

  /** `ord(letter) - ord('A')`. */
  function LetterIndex(letter: char): int {
    letter as int - 'A' as int
  }

  /** `[normalize_text(gt) for gt in superset_correct_answers]`. */
  function NormalizeAll(answers: seq<string>): (r: seq<string>)
    ensures |r| == |answers|
    ensures forall j :: 0 <= j < |answers| ==> r[j] == Normalize(answers[j])
  {
    seq(|answers|, j requires 0 <= j < |answers| => Normalize(answers[j]))
  }

  /** Some ground-truth answer has the same normal form as `text`. */
  predicate MatchesSomeAnswer(text: string, answers: seq<string>) {
    exists j :: 0 <= j < |answers| && Normalize(text) == Normalize(answers[j])
  }

  /** `multiple_choice_accuracy`: 1 exactly when the reply names, by its
      leading letter, a listed option whose normal form equals the normal
      form of some ground-truth answer; 0 otherwise. */
  function MultipleChoiceAccuracy(response: string, candidates: seq<string>, correct: seq<string>): (score: nat)
    ensures score == 0 || score == 1
    ensures ExtractChoiceLetter(response).None? ==> score == 0
    ensures ExtractChoiceLetter(response).Some? && LetterIndex(ExtractChoiceLetter(response).value) >= |candidates| ==> score == 0
    ensures score == 1 <==>
      && ExtractChoiceLetter(response).Some?
      && 0 <= LetterIndex(ExtractChoiceLetter(response).value) < |candidates|
      && MatchesSomeAnswer(candidates[LetterIndex(ExtractChoiceLetter(response).value)], correct)
  {
    match ExtractChoiceLetter(response)
    case None => 0
    case Some(letter) =>
      var index := LetterIndex(letter);
      if !(0 <= index < |candidates|) then 0
      else
        var normPred := Normalize(candidates[index]);
        var normGts := NormalizeAll(correct);
        assert normPred in normGts <==> MatchesSomeAnswer(candidates[index], correct) by {
          if normPred in normGts {
            var j :| 0 <= j < |normGts| && normGts[j] == normPred;
          }
        }
        if normPred in normGts then 1 else 0
  }

  /** Texts that agree after lower-casing have the same normal form. */
  lemma {:induction false} NormalizeAfterLower(a: string, b: string)
    requires Lower(a) == Lower(b)
    ensures Normalize(a) == Normalize(b)
  {
  }

  /** Once the letter is known and names an option, the score is decided by
      that option alone. */
  lemma {:induction false} AccuracyOfSelected(response: string, candidates: seq<string>, correct: seq<string>, letter: char)
    requires ExtractChoiceLetter(response) == Some(letter)
    requires 0 <= LetterIndex(letter) < |candidates|
    ensures MultipleChoiceAccuracy(response, candidates, correct)
            == if MatchesSomeAnswer(candidates[LetterIndex(letter)], correct) then 1 else 0
  {
  }

  // ---------------------------------------------------------------------------
  // Prompt and result hooks
  // ---------------------------------------------------------------------------

  /** The fields of a benchmark document the hooks read. */
  datatype EvalDoc = EvalDoc(question: string, candidateAnswers: seq<string>, supersetCorrectAnswers: seq<string>)

  /** `kwargs.get(key, "") if kwargs else ""`: an absent or empty dictionary,
      or an absent key, gives the empty string. */
  function PromptPart(kwargs: Option<map<string, string>>, key: string): (r: string)
    ensures kwargs.None? ==> r == ""
    ensures kwargs.Some? && key in kwargs.value ==> r == kwargs.value[key]
    ensures kwargs.Some? && key !in kwargs.value ==> r == ""
  {
    if kwargs.Some? && kwargs.value != map[] then
      if key in kwargs.value then kwargs.value[key] else ""
    else ""
  }

  /** `mmbeliefs_doc_to_text`: the question wrapped in the configured pre-
      and post-prompt. */
  function DocToText(doc: EvalDoc, kwargs: Option<map<string, string>>): (r: string)
    ensures kwargs.None? ==> r == doc.question
    ensures var pre := PromptPart(kwargs, "pre_prompt");
            var post := PromptPart(kwargs, "post_prompt");
            && |r| == |pre| + |doc.question| + |post|
            && r[..|pre|] == pre
            && r[|pre|..|pre| + |doc.question|] == doc.question
            && r[|pre| + |doc.question|..] == post
  {
    PromptPart(kwargs, "pre_prompt") + doc.question + PromptPart(kwargs, "post_prompt")
  }

  /** The `AssertionError` of a result list that is not a single prediction. */
  datatype EvalError = ResultLength(got: nat)

  /** `{"exact_match": ..., "submission": {"answer": ...}}`. */
  datatype Processed = Processed(exactMatch: nat, submissionAnswer: string)

  /** `mmbeliefs_process_results`: score the one prediction and echo it as the
      submission. */
  function ProcessResults(doc: EvalDoc, result: seq<string>): (r: Result<Processed, EvalError>)
    ensures r.Success? <==> |result| == 1
    ensures r.Failure? ==> r.error == ResultLength(|result|)
    ensures r.Success? ==> r.value.submissionAnswer == result[0]
    ensures r.Success? ==> r.value.exactMatch == MultipleChoiceAccuracy(result[0], doc.candidateAnswers, doc.supersetCorrectAnswers)
  {
    if |result| != 1 then Failure(ResultLength(|result|))
    else
      var prediction := result[0];
      Success(Processed(MultipleChoiceAccuracy(prediction, doc.candidateAnswers, doc.supersetCorrectAnswers), prediction))
  }

  /** `mmbeliefs_process_results_val`: only the exact-match score. */
  function ProcessResultsVal(doc: EvalDoc, result: seq<string>): (r: Result<nat, EvalError>)
    ensures r.Success? <==> |result| == 1
    ensures r.Success? ==> r.value == MultipleChoiceAccuracy(result[0], doc.candidateAnswers, doc.supersetCorrectAnswers)
    ensures r.Success? ==> r.value <= 1
  {
    var res :- ProcessResults(doc, result);
    Success(res.exactMatch)
  }

  /** `mmbeliefs_process_results_test`: only the submitted answer. */
  function ProcessResultsTest(doc: EvalDoc, result: seq<string>): (r: Result<string, EvalError>)
    ensures r.Success? <==> |result| == 1
    ensures r.Success? ==> r.value == result[0]
  {
    var res :- ProcessResults(doc, result);
    Success(res.submissionAnswer)
  }
}
