/** Concrete replies and options for the scoring hooks, evaluated with the
    model: the replies 'C', 'C)' and 'C) Fascist' of the hooks'
    documentation, and examples with four political options. */
module ScoringExamples {
  import opened Results
  import opened Text
  import opened Scoring

  /** Replies that begin with a choice letter: 'C' and 'C) Fascist', as in
      the function's documentation, and an indented lower-case letter. */
  lemma {:induction false} ExtractChoiceExamples(a: string, b: string, c: string)
    requires a == "C" && b == "C) Fascist" && c == "  b: x"
    ensures ExtractChoiceLetter(a) == Some('C')
    ensures ExtractChoiceLetter(b) == Some('C')
    ensures ExtractChoiceLetter(c) == Some('B')
  {
    assert LeadingChoiceAt(a, 0);
    assert LeadingChoiceAt(b, 0);
    assert LeadingChoiceAt(c, 2);
  }

  /** Trailing text is irrelevant; a reply without a leading A-E letter gives
      no letter. */
  lemma {:induction false} ExtractChoiceEdgeExamples(a: string, z: string)
    requires a == "Banana" && z == "Z"
    ensures ExtractChoiceLetter(a) == Some('B')
    ensures ExtractChoiceLetter(z) == None
    ensures ExtractChoiceLetter("") == None
  {
    assert LeadingChoiceAt(a, 0);
    NoLeadingChoice(z);
  }

  /** A reply that starts with a character that is neither whitespace nor a
      choice letter gives no letter. */
  lemma {:induction false} NoLeadingChoice(s: string)
    requires s != [] && !IsSpace(s[0]) && !IsChoiceLetter(s[0])
    ensures ExtractChoiceLetter(s) == None
  {
    forall i: nat
      ensures !LeadingChoiceAt(s, i)
    {
      if 0 < i < |s| {
        assert !IsSpace(s[0]);
      }
    }
  }

  /** A word of lower-case letters is its own normal form. */
  lemma {:induction false} LowerWordIsNormal(w: string)
    requires forall i :: 0 <= i < |w| ==> IsLowerLetter(w[i])
    ensures Normalize(w) == w
  {
    NormalizeFixesNormalized(w);
  }

  /** "Fascist" and "fascist" have the same normal form. */
  lemma {:induction false} NormalizeFascist(a: string, b: string)
    requires a == "Fascist" && b == "fascist"
    ensures Normalize(a) == Normalize(b) == "fascist"
  {
    CapitalisedWord(a, b);
  }

  /** The normal form of "Monarchist" is "monarchist". */
  lemma {:induction false} NormalizeMonarchist(a: string, m: string)
    requires a == "Monarchist" && m == "monarchist"
    ensures Normalize(a) == m
  {
    CapitalisedWord(a, m);
  }

  /** A lower-case word and the same word capitalised both normalise to the
      lower-case word. */
  lemma {:induction false} CapitalisedWord(a: string, w: string)
    requires |a| == |w| > 0 && IsUpper(a[0]) && a[0] as int + 32 == w[0] as int && a[1..] == w[1..]
    requires forall i :: 0 <= i < |w| ==> IsLowerLetter(w[i])
    ensures Normalize(a) == w && Normalize(w) == w
  {
    LowerWordIsNormal(w);
    CapitalisedLower(a, w);
    NormalizeAfterLower(a, w);
  }

  /** Capitalising the first letter of a word does not change its
      lower-case form. */
  lemma {:induction false} CapitalisedLower(a: string, w: string)
    requires |a| == |w| > 0 && IsUpper(a[0]) && a[0] as int + 32 == w[0] as int && a[1..] == w[1..]
    requires !IsUpper(w[0])
    ensures Lower(a) == Lower(w)
  {
    forall i | 0 <= i < |a| ensures Lower(a)[i] == Lower(w)[i] {
      if i == 0 {
        assert LowerChar(a[0]) as int == w[0] as int;
        assert LowerChar(w[0]) == w[0];
      } else {
        assert a[i] == a[1..][i - 1] && w[i] == w[1..][i - 1];
      }
    }
  }

  /** An example with options
      ["Fascist", "Monarchist", "Anarchist", "None of the above"] with the
      ground truth ["fascist"]; "A) Fascist", like every reply that begins
      with 'A', scores 1. */
  lemma {:induction false} AccuracyExampleCorrect(options: seq<string>, truth: seq<string>, reply: string)
    requires options == ["Fascist", "Monarchist", "Anarchist", "None of the above"]
    requires truth == ["fascist"]
    requires reply != [] && reply[0] == 'A'
    ensures MultipleChoiceAccuracy(reply, options, truth) == 1
  {
    FascistMatches(options[0], truth);
    ScoreOfLeadingLetter(reply, options, truth);
  }

  /** A reply whose first character is a choice letter is scored by the
      option that letter names. */
  lemma {:induction false} ScoreOfLeadingLetter(reply: string, options: seq<string>, truth: seq<string>)
    requires reply != [] && IsChoiceLetter(reply[0])
    requires LetterIndex(UpperChar(reply[0])) < |options|
    ensures MultipleChoiceAccuracy(reply, options, truth)
            == if MatchesSomeAnswer(options[LetterIndex(UpperChar(reply[0]))], truth) then 1 else 0
  {
    assert LeadingChoiceAt(reply, 0);
    AccuracyOfSelected(reply, options, truth, UpperChar(reply[0]));
  }

  /** "Fascist" matches the ground truth ["fascist"]. */
  lemma {:induction false} FascistMatches(option: string, truth: seq<string>)
    requires option == "Fascist" && truth == ["fascist"]
    ensures MatchesSomeAnswer(option, truth)
  {
    NormalizeFascist(option, truth[0]);
  }

  /** "Monarchist" does not match the ground truth ["fascist"]. */
  lemma {:induction false} MonarchistMisses(option: string, truth: seq<string>)
    requires option == "Monarchist" && truth == ["fascist"]
    ensures !MatchesSomeAnswer(option, truth)
  {
    NormalizeMonarchist(option, "monarchist");
    NormalizeFascist("Fascist", truth[0]);
  }

  /** In the same example, "b" selects "Monarchist" and scores 0. */
  lemma {:induction false} AccuracyExampleWrong(options: seq<string>, truth: seq<string>, reply: string)
    requires options == ["Fascist", "Monarchist", "Anarchist", "None of the above"]
    requires truth == ["fascist"]
    requires reply == "b"
    ensures MultipleChoiceAccuracy(reply, options, truth) == 0
  {
    MonarchistMisses(options[1], truth);
    ScoreOfLeadingLetter(reply, options, truth);
  }

  /** In the same example, replies with no letter or a letter past the four
      options score 0. */
  lemma {:induction false} AccuracyExampleNoOption(options: seq<string>, truth: seq<string>)
    requires options == ["Fascist", "Monarchist", "Anarchist", "None of the above"]
    requires truth == ["fascist"]
    ensures MultipleChoiceAccuracy("Z", options, truth) == 0
    ensures MultipleChoiceAccuracy("", options, truth) == 0
    ensures MultipleChoiceAccuracy("E", options, truth) == 0
  {
    ExtractChoiceEdgeExamples("Banana", "Z");
    assert LeadingChoiceAt("E", 0);
  }
}
