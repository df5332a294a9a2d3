/** Construction of the multiple-choice questions (generate_questions.py).

    For every image of every symbol record the script draws one correct
    ideology from the record, one distractor from the other scraped labels,
    one distractor from the external label list, shuffles which of the
    letters A, B and C carries which of the three, sorts the five options by
    letter and renders the question text.

    The pseudo-random generator is not modelled: each question consumes one
    `Draw`, a tuple of arbitrary naturals that select the samples and the
    shuffle, so every statement below holds whatever the generator yields. */
module Questions {
  import opened Results
  import opened Text
  import opened Dataset
  import Scoring

  /** Why the script stops: a failed uniqueness assertion on one of the label
      files, or `random.sample` asked for one element of an empty list. */
  datatype GenError =
    | DuplicateInternalLabels
    | DuplicateExternalLabels
    | EmptyIdeology(title: string)
    | EmptyInternalPool(title: string)
    | EmptyExternalPool

  /** The two distractor pools: every label used by some scraped record, and
      the external label list. */
  datatype Pools = Pools(internal: seq<string>, external: seq<string>)

  // ---------------------------------------------------------------------------
  // Pools
  // ---------------------------------------------------------------------------

  /** The distinct elements of `xs` in order of first appearance. The script
      builds a Python set, whose iteration order is unspecified; fixing one
      order changes nothing below, since samples are drawn by arbitrary
      index. */
  function Dedup(xs: seq<string>): (r: seq<string>)
    ensures NoDuplicates(r)
    ensures forall x :: x in r <==> x in xs
    decreases |xs|
  {
    if xs == [] then []
    else
      var init := xs[..|xs| - 1];
      var last := xs[|xs| - 1];
      assert xs == init + [last];
      var rest := Dedup(init);
      if last in rest then rest else rest + [last]
  }

  /** A list without repetitions is its own set of distinct elements. */
  lemma {:induction false} DedupOfDistinct(xs: seq<string>)
    requires NoDuplicates(xs)
    ensures Dedup(xs) == xs
    decreases |xs|
  {
    if xs != [] {
      var init := xs[..|xs| - 1];
      assert NoDuplicates(init) by {
        forall i, j | 0 <= i < j < |init| ensures init[i] != init[j] {
          assert init[i] == xs[i] && init[j] == xs[j];
        }
      }
      DedupOfDistinct(init);
      assert xs[|xs| - 1] !in init;
      assert xs == init + [xs[|xs| - 1]];
    }
  }

  /** Every ideology label of every record, in record order. */
  function AllLabels(records: seq<SymbolRecord>): (r: seq<string>)
    ensures forall x :: x in r <==> exists k :: 0 <= k < |records| && x in records[k].ideology
    decreases |records|
  {
    if records == [] then []
    else
      var rest := AllLabels(records[1..]);
      assert forall x :: (exists k :: 0 <= k < |records| && x in records[k].ideology)
                         <==> x in records[0].ideology || exists k :: 0 <= k < |records[1..]| && x in records[1..][k].ideology
      by {
        forall x | exists k :: 0 <= k < |records| && x in records[k].ideology
          ensures x in records[0].ideology || exists k :: 0 <= k < |records[1..]| && x in records[1..][k].ideology
        {
          var k :| 0 <= k < |records| && x in records[k].ideology;
          if k > 0 {
            assert records[1..][k - 1] == records[k];
          }
        }
      }
      records[0].ideology + rest
  }

  /** The label pools of lines 5-15: both files must be free of repeated
      labels (the internal file is checked first); the internal file is then
      discarded and the internal pool becomes the set of labels the records
      use; the external pool is the external file. */
  function BuildPools(internalFile: seq<string>, externalFile: seq<string>, records: seq<SymbolRecord>): (r: Result<Pools, GenError>)
    ensures !NoDuplicates(internalFile) ==> r == Failure(DuplicateInternalLabels)
    ensures NoDuplicates(internalFile) && !NoDuplicates(externalFile) ==> r == Failure(DuplicateExternalLabels)
    ensures r.Success? <==> NoDuplicates(internalFile) && NoDuplicates(externalFile)
    ensures r.Success? ==> NoDuplicates(r.value.internal) && r.value.external == externalFile
    ensures r.Success? ==> forall x :: x in r.value.internal <==> exists k :: 0 <= k < |records| && x in records[k].ideology
  {
    if !NoDuplicates(internalFile) then Failure(DuplicateInternalLabels)
    else if !NoDuplicates(externalFile) then Failure(DuplicateExternalLabels)
    else Success(Pools(Dedup(AllLabels(records)), externalFile))
  }

  /** The contents of the internal label file are checked but never used:
      any two duplicate-free internal files give the same pools. */
  lemma {:induction false} PoolsIgnoreInternalFile(file1: seq<string>, file2: seq<string>, externalFile: seq<string>, records: seq<SymbolRecord>)
    requires NoDuplicates(file1) && NoDuplicates(file2)
    ensures BuildPools(file1, externalFile, records) == BuildPools(file2, externalFile, records)
  {
  }

  /** The internal labels that are not labels of `rec` itself
      (`internal_ideologies_set - set(result['Ideology'])`). */
  function OwnPool(pools: Pools, rec: SymbolRecord): (r: seq<string>)
    ensures forall x :: x in r <==> x in pools.internal && x !in rec.ideology
    decreases |pools.internal|
  {
    if pools.internal == [] then []
    else
      var x := pools.internal[0];
      var rest := OwnPool(Pools(pools.internal[1..], pools.external), rec);
      assert forall y :: y in pools.internal <==> y == x || y in pools.internal[1..];
      if x in rec.ideology then rest else [x] + rest
  }

  // ---------------------------------------------------------------------------
  // Random draws
  // ---------------------------------------------------------------------------

  /** The generator's choices for one question: which correct label, which
      internal and which external distractor, and which of the six orders
      the shuffle produces. */
  datatype Draw = Draw(correct: nat, internal: nat, external: nat, shuffle: nat)

  /** `random.sample(pool, 1)[0]`, the element being chosen by `k`; `None`
      where Python raises because the pool is empty. */
  function Sample(pool: seq<string>, k: nat): (r: Option<string>)
    ensures r.Some? <==> |pool| > 0
    ensures r.Some? ==> r.value in pool
  {
    if |pool| == 0 then None else Some(pool[k % |pool|])
  }

  /** Sampling is not restricted by the model of the draw: every element of
      the pool is the outcome of some draw. */
  lemma {:induction false} SampleReachesAll(pool: seq<string>, x: string)
    requires x in pool
    ensures exists k: nat :: Sample(pool, k) == Some(x)
  {
    var i :| 0 <= i < |pool| && pool[i] == x;
    ModOfSmaller(i, |pool|);
    assert Sample(pool, i) == Some(x);
  }

  lemma {:induction false} ModOfSmaller(i: nat, n: nat)
    requires i < n
    ensures i % n == i
  {
  }

  /** The letters A, B and C, each exactly once. */
  predicate IsLetterPermutation(abc: string) {
    && |abc| == 3
    && 'A' <= abc[0] <= 'C' && 'A' <= abc[1] <= 'C' && 'A' <= abc[2] <= 'C'
    && abc[0] != abc[1] && abc[0] != abc[2] && abc[1] != abc[2]
  }

  /** The running letter order of the script. */
  type Letters = abc: string | IsLetterPermutation(abc) witness "ABC"

  /** `random.shuffle(abc)`: one of the six orderings of the three letters,
      chosen by `k`. */
  function Shuffle(abc: string, k: nat): (r: string)
    requires |abc| == 3
    ensures |r| == 3
    ensures forall c :: c in r <==> c in abc
    ensures IsLetterPermutation(abc) ==> IsLetterPermutation(r)
  {
    var a, b, c := abc[0], abc[1], abc[2];
    var choice := k % 6;
    if choice == 0 then [a, b, c]
    else if choice == 1 then [a, c, b]
    else if choice == 2 then [b, a, c]
    else if choice == 3 then [b, c, a]
    else if choice == 4 then [c, a, b]
    else [c, b, a]
  }

  /** Every ordering of the letters can follow every other one. */
  lemma {:induction false} ShuffleReachesAll(abc: string, target: string)
    requires IsLetterPermutation(abc) && IsLetterPermutation(target)
    ensures exists k: nat :: k < 6 && Shuffle(abc, k) == target
  {
    var a, b, c := abc[0], abc[1], abc[2];
    assert target == [target[0], target[1], target[2]];
    if target[0] == a {
      if target[1] == b { assert Shuffle(abc, 0) == target; }
      else { assert Shuffle(abc, 1) == target; }
    } else if target[0] == b {
      if target[1] == a { assert Shuffle(abc, 2) == target; }
      else { assert Shuffle(abc, 3) == target; }
    } else {
      if target[1] == a { assert Shuffle(abc, 4) == target; }
      else { assert Shuffle(abc, 5) == target; }
    }
  }

  // ---------------------------------------------------------------------------
  // Options and their order
  // ---------------------------------------------------------------------------

  const NoneOfTheAbove: string := "None of the above"
  const DontKnow: string := "I don't know"

  /** One `(letter, text)` tuple of the option list. */
  datatype Labelled = Labelled(letter: char, text: string)

  /** The option list before sorting: the three drawn labels under the
      shuffled letters, then the two fixed options. */
  function RawOptions(abc: string, correct: string, internal: string, external: string): seq<Labelled>
    requires |abc| == 3
  {
    [Labelled(abc[0], correct), Labelled(abc[1], internal), Labelled(abc[2], external),
     Labelled('D', NoneOfTheAbove), Labelled('E', DontKnow)]
  }

  predicate SortedByLetter(s: seq<Labelled>) {
    forall i, j :: 0 <= i < j < |s| ==> s[i].letter <= s[j].letter
  }

  predicate StrictlySortedByLetter(s: seq<Labelled>) {
    forall i, j :: 0 <= i < j < |s| ==> s[i].letter < s[j].letter
  }

  /** Inserts `x` before the first element whose letter is not smaller. */
  function Insert(x: Labelled, s: seq<Labelled>): (r: seq<Labelled>)
    ensures |r| == |s| + 1
    ensures multiset(r) == multiset(s) + multiset{x}
    decreases |s|
  {
    if s == [] || x.letter <= s[0].letter then [x] + s
    else
      assert s == [s[0]] + s[1..];
      [s[0]] + Insert(x, s[1..])
  }

  /** Insertion keeps a list ordered; every element of the result carries
      the inserted letter or one no smaller than the old first letter. */
  lemma {:induction false} InsertSorted(x: Labelled, s: seq<Labelled>)
    requires SortedByLetter(s)
    ensures SortedByLetter(Insert(x, s))
    ensures forall k :: 0 <= k < |Insert(x, s)| ==> Insert(x, s)[k].letter == x.letter || (|s| > 0 && s[0].letter <= Insert(x, s)[k].letter)
    decreases |s|
  {
    if s != [] && x.letter > s[0].letter {
      var t := Insert(x, s[1..]);
      InsertSorted(x, s[1..]);
      assert Insert(x, s) == [s[0]] + t;
    }
  }

  /** `options.sort(key=lambda x: x[0])`, an insertion sort that, like
      Python's sort, keeps equal letters in their original order. */
  function SortByLetter(xs: seq<Labelled>): (r: seq<Labelled>)
    ensures |r| == |xs| && multiset(r) == multiset(xs)
    ensures SortedByLetter(r)
    decreases |xs|
  {
    if xs == [] then []
    else
      assert xs == [xs[0]] + xs[1..];
      var sorted := SortByLetter(xs[1..]);
      InsertSorted(xs[0], sorted);
      Insert(xs[0], sorted)
  }

  /** Removing a common element from two equal multisets. */
  lemma {:induction false} MultisetCancel<T>(m1: multiset<T>, m2: multiset<T>, x: T)
    requires multiset{x} + m1 == multiset{x} + m2
    ensures m1 == m2
  {
    assert m1 == (multiset{x} + m1) - multiset{x};
    assert m2 == (multiset{x} + m2) - multiset{x};
  }

  /** Two lists with the same elements, the first strictly ordered and the
      second ordered, start with the same element. */
  lemma {:induction false} HeadsAgree(a: seq<Labelled>, b: seq<Labelled>)
    requires |a| > 0 && StrictlySortedByLetter(a) && SortedByLetter(b)
    requires multiset(a) == multiset(b)
    ensures |b| > 0 && a[0] == b[0]
  {
    assert a[0] in multiset(b);
    var j :| 0 <= j < |b| && b[j] == a[0];
    assert b[0] in multiset(a);
    var i :| 0 <= i < |a| && a[i] == b[0];
    assert b[0].letter <= b[j].letter;
    assert a[0].letter <= a[i].letter;
  }

  /** A list ordered by pairwise distinct letters is the only ordered
      arrangement of its elements. */
  lemma {:induction false} SortedUnique(a: seq<Labelled>, b: seq<Labelled>)
    requires StrictlySortedByLetter(a) && SortedByLetter(b)
    requires multiset(a) == multiset(b)
    ensures a == b
    decreases |a|
  {
    assert |a| == |multiset(a)| == |multiset(b)| == |b|;
    if |a| > 0 {
      HeadsAgree(a, b);
      var a', b' := a[1..], b[1..];
      assert a == [a[0]] + a' && b == [b[0]] + b';
      MultisetCancel(multiset(a'), multiset(b'), a[0]);
      assert StrictlySortedByLetter(a') by {
        forall p, q | 0 <= p < q < |a'| ensures a'[p].letter < a'[q].letter {
          assert a'[p] == a[p + 1] && a'[q] == a[q + 1];
        }
      }
      assert SortedByLetter(b') by {
        forall p, q | 0 <= p < q < |b'| ensures b'[p].letter <= b'[q].letter {
          assert b'[p] == b[p + 1] && b'[q] == b[q + 1];
        }
      }
      SortedUnique(a', b');
    }
  }

  /** The options A to E with the given texts, in letter order. */
  function Lettered(candidates: seq<string>): (r: seq<Labelled>)
    requires |candidates| == 5
    ensures StrictlySortedByLetter(r)
  {
    [Labelled('A', candidates[0]), Labelled('B', candidates[1]), Labelled('C', candidates[2]),
     Labelled('D', candidates[3]), Labelled('E', candidates[4])]
  }

  /** The option text shown under letter `letter` once the three drawn labels
      have been assigned the letters of `abc`. */
  function TextUnder(abc: string, correct: string, internal: string, external: string, letter: char): string
    requires |abc| == 3
  {
    if letter == abc[0] then correct else if letter == abc[1] then internal else external
  }

  /** The candidate answers after sorting: the drawn labels at the positions
      their letters name, then the two fixed options. */
  function Placed(abc: string, correct: string, internal: string, external: string): (r: seq<string>)
    requires IsLetterPermutation(abc)
    ensures |r| == 5 && r[3] == NoneOfTheAbove && r[4] == DontKnow
    ensures r[Scoring.LetterIndex(abc[0])] == correct
    ensures r[Scoring.LetterIndex(abc[1])] == internal
    ensures r[Scoring.LetterIndex(abc[2])] == external
  {
    [TextUnder(abc, correct, internal, external, 'A'),
     TextUnder(abc, correct, internal, external, 'B'),
     TextUnder(abc, correct, internal, external, 'C'),
     NoneOfTheAbove, DontKnow]
  }

  /** The elements of a five-element list, one by one. */
  lemma {:induction false} Bag5<T>(x: T, y: T, z: T, d: T, e: T)
    ensures multiset([x, y, z, d, e]) == multiset{x} + multiset{y} + multiset{z} + multiset{d} + multiset{e}
  {
    assert [x, y, z, d, e] == [x, y, z, d] + [e];
    assert [x, y, z, d] == [x, y, z] + [d];
    assert [x, y, z] == [x, y] + [z];
    assert [x, y] == [x] + [y];
  }

  /** Exchanging the first two of five elements keeps the multiset. */
  lemma {:induction false} SwapFirst<T>(x: T, y: T, z: T, d: T, e: T)
    ensures multiset([x, y, z, d, e]) == multiset([y, x, z, d, e])
  {
    Bag5(x, y, z, d, e);
    Bag5(y, x, z, d, e);
  }

  /** Exchanging the second and third of five elements keeps the multiset. */
  lemma {:induction false} SwapSecond<T>(x: T, y: T, z: T, d: T, e: T)
    ensures multiset([x, y, z, d, e]) == multiset([x, z, y, d, e])
  {
    Bag5(x, y, z, d, e);
    Bag5(x, z, y, d, e);
  }

  /** The raw option list and the letter-ordered one hold the same options. */
  lemma {:induction false} RawOptionsPermute(abc: string, correct: string, internal: string, external: string)
    requires IsLetterPermutation(abc)
    ensures multiset(RawOptions(abc, correct, internal, external)) == multiset(Lettered(Placed(abc, correct, internal, external)))
  {
    var raw := RawOptions(abc, correct, internal, external);
    var target := Lettered(Placed(abc, correct, internal, external));
    var x, y, z := Labelled(abc[0], correct), Labelled(abc[1], internal), Labelled(abc[2], external);
    var d, e := Labelled('D', NoneOfTheAbove), Labelled('E', DontKnow);
    assert raw == [x, y, z, d, e];
    if abc[0] == 'A' && abc[1] == 'B' {
      assert target == raw;
    } else if abc[0] == 'A' {
      assert target == [x, z, y, d, e];
      SwapSecond(x, y, z, d, e);
    } else if abc[0] == 'B' && abc[1] == 'A' {
      assert target == [y, x, z, d, e];
      SwapFirst(x, y, z, d, e);
    } else if abc[0] == 'B' {
      assert target == [z, x, y, d, e];
      SwapSecond(x, y, z, d, e);
      SwapFirst(x, z, y, d, e);
    } else if abc[1] == 'A' {
      assert target == [y, z, x, d, e];
      SwapFirst(x, y, z, d, e);
      SwapSecond(y, x, z, d, e);
    } else {
      assert target == [z, y, x, d, e];
      SwapFirst(x, y, z, d, e);
      SwapSecond(y, x, z, d, e);
      SwapFirst(y, z, x, d, e);
    }
  }

  /** Sorting the raw option list by letter puts each drawn label at the
      position of its letter. */
  lemma {:induction false} SortRawOptions(abc: string, correct: string, internal: string, external: string)
    requires IsLetterPermutation(abc)
    ensures SortByLetter(RawOptions(abc, correct, internal, external)) == Lettered(Placed(abc, correct, internal, external))
  {
    RawOptionsPermute(abc, correct, internal, external);
    SortedUnique(Lettered(Placed(abc, correct, internal, external)), SortByLetter(RawOptions(abc, correct, internal, external)));
  }

  // ---------------------------------------------------------------------------
  // Question text
  // ---------------------------------------------------------------------------

  const Header: string :=
    "Answer with one letter (A, B, C, D, or E).\nWhich ideology best relates to the following image?\n"

  /** `f'{letter}) {text}'`. */
  function OptionLine(o: Labelled): string {
    [o.letter] + ") " + o.text
  }

  function OptionLines(options: seq<Labelled>): (r: seq<string>)
    ensures |r| == |options|
    ensures forall k :: 0 <= k < |options| ==> r[k] == OptionLine(options[k])
  {
    seq(|options|, k requires 0 <= k < |options| => OptionLine(options[k]))
  }

  /** The header followed by the option lines joined with newlines. */
  function QuestionText(options: seq<Labelled>): string {
    Header + Join(OptionLines(options), "\n")
  }

  /** The rendered text can be read back: after the header, splitting on
      newlines yields exactly the option lines, provided no option text
      contains a newline. */
  lemma {:induction false} QuestionTextLines(options: seq<Labelled>)
    requires |options| >= 1
    requires forall k :: 0 <= k < |options| ==> options[k].letter != '\n' && '\n' !in options[k].text
    ensures |Header| <= |QuestionText(options)| && QuestionText(options)[..|Header|] == Header
    ensures Split(QuestionText(options)[|Header|..], "\n") == OptionLines(options)
  {
    var lines := OptionLines(options);
    forall k | 0 <= k < |lines| ensures '\n' !in lines[k] {
      assert lines[k] == [options[k].letter] + ") " + options[k].text;
    }
    SplitJoin(lines, '\n');
    assert QuestionText(options)[|Header|..] == Join(lines, "\n");
  }

  // ---------------------------------------------------------------------------
  // One question
  // ---------------------------------------------------------------------------

  /** One entry of `task_data.json`. */
  datatype Question = Question(
    question: string,
    answerTarget: char,
    candidateAnswers: seq<string>,
    incorrectInternalAnswer: char,
    incorrectExternalAnswer: char,
    noneOfTheAboveAnswer: char,
    dontKnowAnswer: char,
    supersetCorrectAnswers: seq<string>,
    imagePath: string,
    sourceInfo: string,
    locations: seq<string>,
    symbolTitle: string)

  /** Whether all three samples for `rec` can be drawn. */
  predicate CanAsk(rec: SymbolRecord, pools: Pools) {
    |rec.ideology| > 0 && |OwnPool(pools, rec)| > 0 && |pools.external| > 0
  }

  /** The first sample that fails, in the script's order: the correct label,
      then the internal distractor, then the external one. */
  function AskError(rec: SymbolRecord, pools: Pools): GenError {
    if |rec.ideology| == 0 then EmptyIdeology(rec.title)
    else if |OwnPool(pools, rec)| == 0 then EmptyInternalPool(rec.title)
    else EmptyExternalPool
  }

  /** What every generated question satisfies: the letters A to C are split
      between the correct answer and the two distractors; the options under
      them come from the record, from the other records' labels and from the
      external list respectively; D and E are the fixed options; the text
      lists the options in letter order; the record fields are copied. */
  predicate WellFormed(q: Question, rec: SymbolRecord, image: string, pools: Pools) {
    && IsLetterPermutation([q.answerTarget, q.incorrectInternalAnswer, q.incorrectExternalAnswer])
    && |q.candidateAnswers| == 5
    && q.candidateAnswers[Scoring.LetterIndex(q.answerTarget)] in rec.ideology
    && q.candidateAnswers[Scoring.LetterIndex(q.incorrectInternalAnswer)] in pools.internal
    && q.candidateAnswers[Scoring.LetterIndex(q.incorrectInternalAnswer)] !in rec.ideology
    && q.candidateAnswers[Scoring.LetterIndex(q.incorrectExternalAnswer)] in pools.external
    && q.candidateAnswers[3] == NoneOfTheAbove && q.candidateAnswers[4] == DontKnow
    && q.noneOfTheAboveAnswer == 'D' && q.dontKnowAnswer == 'E'
    && q.question == QuestionText(Lettered(q.candidateAnswers))
    && q.supersetCorrectAnswers == rec.ideology
    && q.imagePath == image && q.sourceInfo == image
    && q.locations == rec.location && q.symbolTitle == rec.title
  }

  function OrFail(o: Option<string>, e: GenError): (r: Result<string, GenError>)
    ensures r.Success? <==> o.Some?
    ensures r.Success? ==> r.value == o.value
    ensures r.Failure? ==> r.error == e
  {
    match o
    case Some(v) => Success(v)
    case None => Failure(e)
  }

  /** One pass of the inner loop (lines 24-53): the question for `image` of
      `rec`, and the letter order left behind by the shuffle, which the next
      question starts from. */
  function BuildQuestion(rec: SymbolRecord, image: string, pools: Pools, abc: Letters, draw: Draw): (r: Result<(Question, Letters), GenError>)
    ensures r.Success? <==> CanAsk(rec, pools)
    ensures r.Failure? ==> r.error == AskError(rec, pools)
    ensures r.Success? ==> r.value.1 == Shuffle(abc, draw.shuffle)
    ensures r.Success? ==> r.value.0.answerTarget == r.value.1[0]
    ensures r.Success? ==> WellFormed(r.value.0, rec, image, pools)
  {
    var own := OwnPool(pools, rec);
    var correct :- OrFail(Sample(rec.ideology, draw.correct), EmptyIdeology(rec.title));
    var internal :- OrFail(Sample(own, draw.internal), EmptyInternalPool(rec.title));
    var external :- OrFail(Sample(pools.external, draw.external), EmptyExternalPool);
    var letters: Letters := Shuffle(abc, draw.shuffle);
    var options := SortByLetter(RawOptions(letters, correct, internal, external));
    SortRawOptions(letters, correct, internal, external);
    AssembleWellFormed(rec, image, pools, letters, correct, internal, external, options);
    Success((Assemble(rec, image, letters, correct, internal, external, options), letters))
  }

  /** Lines 38-53: the question text over the sorted `options` and the record
      written for the drawn labels under the shuffled letters. */
  function Assemble(rec: SymbolRecord, image: string, letters: Letters, correct: string, internal: string, external: string,
                    options: seq<Labelled>): Question {
    Question(
      QuestionText(options), letters[0], Placed(letters, correct, internal, external), letters[1], letters[2], 'D', 'E',
      rec.ideology, image, image, rec.location, rec.title)
  }

  lemma {:induction false} AssembleWellFormed(rec: SymbolRecord, image: string, pools: Pools, letters: Letters, correct: string, internal: string, external: string,
                           options: seq<Labelled>)
    requires correct in rec.ideology && internal in OwnPool(pools, rec) && external in pools.external
    requires options == Lettered(Placed(letters, correct, internal, external))
    ensures WellFormed(Assemble(rec, image, letters, correct, internal, external, options), rec, image, pools)
  {
    var q := Assemble(rec, image, letters, correct, internal, external, options);
    assert q.answerTarget == letters[0] && q.incorrectInternalAnswer == letters[1] && q.incorrectExternalAnswer == letters[2];
    assert internal in pools.internal && internal !in rec.ideology;
  }

  /** A reply that is just the target letter scores 1 against the question's
      own options and answers. */
  lemma {:induction false} TargetScoresOne(q: Question, rec: SymbolRecord, image: string, pools: Pools)
    requires WellFormed(q, rec, image, pools)
    ensures Scoring.MultipleChoiceAccuracy([q.answerTarget], q.candidateAnswers, q.supersetCorrectAnswers) == 1
  {
    var reply := [q.answerTarget];
    assert Scoring.LeadingChoiceAt(reply, 0);
    assert UpperChar(reply[0]) == q.answerTarget;
    var text := q.candidateAnswers[Scoring.LetterIndex(q.answerTarget)];
    var j :| 0 <= j < |rec.ideology| && rec.ideology[j] == text;
    assert Scoring.MatchesSomeAnswer(text, q.supersetCorrectAnswers);
    Scoring.AccuracyOfSelected(reply, q.candidateAnswers, q.supersetCorrectAnswers, q.answerTarget);
  }

  // ---------------------------------------------------------------------------
  // The whole task list
  // ---------------------------------------------------------------------------

  /** One pass of the inner loop: a record together with one of its images. */
  datatype Slot = Slot(rec: SymbolRecord, image: string)

  function ImageSlots(rec: SymbolRecord): (r: seq<Slot>)
    ensures |r| == |rec.images|
    ensures forall j :: 0 <= j < |r| ==> r[j] == Slot(rec, rec.images[j])
  {
    seq(|rec.images|, j requires 0 <= j < |rec.images| => Slot(rec, rec.images[j]))
  }

  /** The number of images over all records. */
  function TotalImages(records: seq<SymbolRecord>): nat
    decreases |records|
  {
    if records == [] then 0 else |records[0].images| + TotalImages(records[1..])
  }

  /** The passes of the nested loop, records first, then their images. */
  function Slots(records: seq<SymbolRecord>): (r: seq<Slot>)
    ensures |r| == TotalImages(records)
    decreases |records|
  {
    if records == [] then [] else ImageSlots(records[0]) + Slots(records[1..])
  }

  lemma {:induction false} SlotsAppend(a: seq<SymbolRecord>, b: seq<SymbolRecord>)
    ensures Slots(a + b) == Slots(a) + Slots(b)
    ensures TotalImages(a + b) == TotalImages(a) + TotalImages(b)
    decreases |a|
  {
    if a == [] {
      assert a + b == b;
    } else {
      assert (a + b)[0] == a[0] && (a + b)[1..] == a[1..] + b;
      SlotsAppend(a[1..], b);
    }
  }

  /** Image `j` of record `k` is visited at position
      `TotalImages(records[..k]) + j`: one pass per image, in record order
      and then in image order. */
  lemma {:induction false} SlotsIndex(records: seq<SymbolRecord>, k: nat, j: nat)
    requires k < |records| && j < |records[k].images|
    ensures TotalImages(records[..k]) + j < |Slots(records)|
    ensures Slots(records)[TotalImages(records[..k]) + j] == Slot(records[k], records[k].images[j])
  {
    assert records == records[..k] + records[k..];
    SlotsAppend(records[..k], records[k..]);
    SlotsFrom(records, k);
  }

  /** The passes from record `k` on start with the images of record `k`. */
  lemma {:induction false} SlotsFrom(records: seq<SymbolRecord>, k: nat)
    requires k < |records|
    ensures Slots(records[k..]) == ImageSlots(records[k]) + Slots(records[k + 1..])
  {
    assert records[k..][0] == records[k];
    assert records[k..][1..] == records[k + 1..];
  }

  /** Every pass belongs to some image of some record. */
  lemma {:induction false} SlotOrigin(records: seq<SymbolRecord>, i: nat)
    requires i < |Slots(records)|
    ensures exists k :: 0 <= k < |records| && Slots(records)[i].rec == records[k] && Slots(records)[i].image in records[k].images
    decreases |records|
  {
    var head := ImageSlots(records[0]);
    if i >= |head| {
      SlotOrigin(records[1..], i - |head|);
      var k :| 0 <= k < |records[1..]| && Slots(records[1..])[i - |head|].rec == records[1..][k]
               && Slots(records[1..])[i - |head|].image in records[1..][k].images;
      assert records[1..][k] == records[k + 1];
    } else {
      assert Slots(records)[i] == Slot(records[0], records[0].images[i]);
    }
  }

  /** The work of one pass: the question for a record's image, given the
      letter order so far and the pass's draw, with the letter order it
      leaves behind. */
  type Step = (Slot, Letters, Draw) -> Result<(Question, Letters), GenError>

  /** The step of lines 24-53 for fixed pools. */
  function QuestionStep(pools: Pools): Step {
    (s: Slot, abc: Letters, d: Draw) => BuildQuestion(s.rec, s.image, pools, abc, d)
  }

  /** A step fails exactly on records that cannot be asked about, with the
      error of the first missing sample. */
  ghost predicate FailsAsScript(step: Step, pools: Pools) {
    forall s: Slot, abc: Letters, d: Draw ::
      && (step(s, abc, d).Success? <==> CanAsk(s.rec, pools))
      && (step(s, abc, d).Failure? ==> step(s, abc, d).error == AskError(s.rec, pools))
  }

  /** A step that succeeds yields a well-formed question about its pass. */
  ghost predicate BuildsWellFormed(step: Step, pools: Pools) {
    forall s: Slot, abc: Letters, d: Draw ::
      step(s, abc, d).Success? ==> WellFormed(step(s, abc, d).value.0, s.rec, s.image, pools)
  }

  /** `BuildQuestion` keeps both promises of a step. */
  lemma {:induction false} QuestionStepKeepsPromises(pools: Pools)
    ensures FailsAsScript(QuestionStep(pools), pools)
    ensures BuildsWellFormed(QuestionStep(pools), pools)
  {
    forall s: Slot, abc: Letters, d: Draw
      ensures var r := QuestionStep(pools)(s, abc, d);
              && (r.Success? <==> CanAsk(s.rec, pools))
              && (r.Failure? ==> r.error == AskError(s.rec, pools))
              && (r.Success? ==> WellFormed(r.value.0, s.rec, s.image, pools))
    {
      var r := BuildQuestion(s.rec, s.image, pools, abc, d);
      assert QuestionStep(pools)(s, abc, d) == r;
    }
  }

  /** Prefixes the questions of an earlier stretch of passes. */
  function Prepend(qs: seq<Question>, r: Result<(seq<Question>, Letters), GenError>): Result<(seq<Question>, Letters), GenError> {
    match r
    case Success(v) => Success((qs + v.0, v.1))
    case Failure(e) => Failure(e)
  }

  lemma {:induction false} PrependTwice(a: seq<Question>, b: seq<Question>, r: Result<(seq<Question>, Letters), GenError>)
    ensures Prepend(a, Prepend(b, r)) == Prepend(a + b, r)
  {
    if r.Success? {
      assert a + (b + r.value.0) == (a + b) + r.value.0;
    }
  }

  lemma {:induction false} PrependNothing(r: Result<(seq<Question>, Letters), GenError>)
    ensures Prepend([], r) == r
  {
    if r.Success? {
      assert [] + r.value.0 == r.value.0;
    }
  }

  /** The questions for `slots` in order, starting from letter order `abc`
      and draw number `n`; also the letter order left behind. The first pass
      that fails stops the script. */
  function GenerateFrom(slots: seq<Slot>, step: Step, draws: nat -> Draw, abc: Letters, n: nat): (r: Result<(seq<Question>, Letters), GenError>)
    ensures r.Success? ==> |r.value.0| == |slots|
    decreases |slots|
  {
    if slots == [] then Success(([], abc))
    else
      match step(slots[0], abc, draws(n))
      case Failure(e) => Failure(e)
      case Success(first) => Prepend([first.0], GenerateFrom(slots[1..], step, draws, first.1, n + 1))
  }

  /** Pass `i` is the first one whose samples cannot be drawn. */
  predicate FirstFailure(slots: seq<Slot>, pools: Pools, i: nat) {
    && i < |slots|
    && !CanAsk(slots[i].rec, pools)
    && forall j :: 0 <= j < i ==> CanAsk(slots[j].rec, pools)
  }

  /** The passes succeed exactly when every record met can be asked about;
      otherwise the error is that of the first pass that cannot. */
  lemma {:induction false} GenerateFromOutcome(slots: seq<Slot>, step: Step, pools: Pools, draws: nat -> Draw, abc: Letters, n: nat)
    requires FailsAsScript(step, pools)
    ensures GenerateFrom(slots, step, draws, abc, n).Success? <==> forall i :: 0 <= i < |slots| ==> CanAsk(slots[i].rec, pools)
    ensures GenerateFrom(slots, step, draws, abc, n).Failure? ==>
            exists i: nat :: FirstFailure(slots, pools, i) && GenerateFrom(slots, step, draws, abc, n).error == AskError(slots[i].rec, pools)
    decreases |slots|
  {
    if slots != [] {
      var first := step(slots[0], abc, draws(n));
      if first.Success? {
        var tail := slots[1..];
        GenerateFromOutcome(tail, step, pools, draws, first.value.1, n + 1);
        var g := GenerateFrom(tail, step, draws, first.value.1, n + 1);
        assert forall i :: 1 <= i < |slots| ==> tail[i - 1] == slots[i];
        if g.Failure? {
          var i: nat :| FirstFailure(tail, pools, i) && g.error == AskError(tail[i].rec, pools);
          assert tail[i] == slots[i + 1];
          assert FirstFailure(slots, pools, i + 1);
        }
      } else {
        assert FirstFailure(slots, pools, 0);
      }
    }
  }

  /** Question `i` is a well-formed question about pass `i`. */
  lemma {:induction false} GenerateFromWellFormed(slots: seq<Slot>, step: Step, pools: Pools, draws: nat -> Draw, abc: Letters, n: nat)
    requires BuildsWellFormed(step, pools)
    requires GenerateFrom(slots, step, draws, abc, n).Success?
    ensures forall i :: 0 <= i < |slots| ==>
              WellFormed(GenerateFrom(slots, step, draws, abc, n).value.0[i], slots[i].rec, slots[i].image, pools)
    decreases |slots|
  {
    if slots != [] {
      var first := step(slots[0], abc, draws(n)).value;
      var tail := slots[1..];
      GenerateFromWellFormed(tail, step, pools, draws, first.1, n + 1);
      var qs := GenerateFrom(slots, step, draws, abc, n).value.0;
      var rest := GenerateFrom(tail, step, draws, first.1, n + 1).value.0;
      assert qs == [first.0] + rest;
      forall i | 0 <= i < |slots|
        ensures WellFormed(qs[i], slots[i].rec, slots[i].image, pools)
      {
        if i > 0 {
          assert qs[i] == rest[i - 1] && slots[i] == tail[i - 1];
        }
      }
    }
  }

  /** Running the passes of `s1` and then those of `s2` is running `s1 + s2`. */
  lemma {:induction false} GenerateAppend(s1: seq<Slot>, s2: seq<Slot>, step: Step, draws: nat -> Draw, abc: Letters, n: nat)
    requires GenerateFrom(s1, step, draws, abc, n).Success?
    ensures GenerateFrom(s1 + s2, step, draws, abc, n)
            == Prepend(GenerateFrom(s1, step, draws, abc, n).value.0,
                       GenerateFrom(s2, step, draws, GenerateFrom(s1, step, draws, abc, n).value.1, n + |s1|))
    decreases |s1|
  {
    if s1 == [] {
      assert s1 + s2 == s2;
      PrependNothing(GenerateFrom(s2, step, draws, abc, n));
    } else {
      var first := step(s1[0], abc, draws(n)).value;
      assert (s1 + s2)[0] == s1[0] && (s1 + s2)[1..] == s1[1..] + s2;
      GenerateAppend(s1[1..], s2, step, draws, first.1, n + 1);
      var tail := GenerateFrom(s1[1..], step, draws, first.1, n + 1).value;
      PrependTwice([first.0], tail.0, GenerateFrom(s2, step, draws, tail.1, n + |s1|));
    }
  }

  /** The questions of all passes, without the final letter order. */
  function Questions(r: Result<(seq<Question>, Letters), GenError>): Result<seq<Question>, GenError> {
    match r
    case Success(v) => Success(v.0)
    case Failure(e) => Failure(e)
  }

  /** The question list of lines 20-53 for already built pools: one question per
      image, in record order, then in image order. */
  function Generate(records: seq<SymbolRecord>, pools: Pools, draws: nat -> Draw): (r: Result<seq<Question>, GenError>)
    ensures r.Success? ==> |r.value| == TotalImages(records)
    ensures r.Success? ==> forall i :: 0 <= i < |r.value| ==> WellFormed(r.value[i], Slots(records)[i].rec, Slots(records)[i].image, pools)
  {
    var g := GenerateFrom(Slots(records), QuestionStep(pools), draws, "ABC", 0);
    QuestionStepKeepsPromises(pools);
    if g.Success? then
      GenerateFromWellFormed(Slots(records), QuestionStep(pools), pools, draws, "ABC", 0);
      Success(g.value.0)
    else Failure(g.error)
  }

  /** Generation fails exactly when some record that has images lacks one of
      the three samples, and then with the error of the first such record. */
  lemma {:induction false} GenerateSucceeds(records: seq<SymbolRecord>, pools: Pools, draws: nat -> Draw)
    ensures Generate(records, pools, draws).Success? <==>
            forall k :: 0 <= k < |records| && |records[k].images| > 0 ==> CanAsk(records[k], pools)
    ensures Generate(records, pools, draws).Failure? ==>
            exists k :: 0 <= k < |records| && |records[k].images| > 0 && !CanAsk(records[k], pools)
                        && Generate(records, pools, draws).error == AskError(records[k], pools)
  {
    var slots := Slots(records);
    var g := GenerateFrom(slots, QuestionStep(pools), draws, "ABC", 0);
    QuestionStepKeepsPromises(pools);
    GenerateFromOutcome(slots, QuestionStep(pools), pools, draws, "ABC", 0);
    if g.Success? {
      forall k | 0 <= k < |records| && |records[k].images| > 0
        ensures CanAsk(records[k], pools)
      {
        SlotsIndex(records, k, 0);
      }
    } else {
      var i: nat :| FirstFailure(slots, pools, i) && g.error == AskError(slots[i].rec, pools);
      SlotOrigin(records, i);
    }
  }

  /** Image `j` of record `k` gets its own well-formed question, at position
      `TotalImages(records[..k]) + j`. */
  lemma {:induction false} GenerateCoversEveryImage(records: seq<SymbolRecord>, pools: Pools, draws: nat -> Draw, k: nat, j: nat)
    requires Generate(records, pools, draws).Success?
    requires k < |records| && j < |records[k].images|
    ensures TotalImages(records[..k]) + j < |Generate(records, pools, draws).value|
    ensures WellFormed(Generate(records, pools, draws).value[TotalImages(records[..k]) + j], records[k], records[k].images[j], pools)
  {
    SlotsIndex(records, k, j);
  }

  /** A pass that succeeds appends its question to those before it. */
  lemma {:induction false} ExtendByOne(done: seq<Slot>, slot: Slot, step: Step, draws: nat -> Draw, qs: seq<Question>, abc: Letters)
    requires GenerateFrom(done, step, draws, "ABC", 0) == Success((qs, abc))
    requires step(slot, abc, draws(|qs|)).Success?
    ensures GenerateFrom(done + [slot], step, draws, "ABC", 0)
            == Success((qs + [step(slot, abc, draws(|qs|)).value.0], step(slot, abc, draws(|qs|)).value.1))
  {
    var result := step(slot, abc, draws(|qs|)).value;
    GenerateAppend(done, [slot], step, draws, "ABC", 0);
    assert [slot][0] == slot && [slot][1..] == [];
    assert [result.0] + [] == [result.0];
    assert GenerateFrom([slot], step, draws, abc, |qs|) == Success(([result.0], result.1));
  }

  /** A pass that fails ends the whole run with its error. */
  lemma {:induction false} StopAt(done: seq<Slot>, slot: Slot, later: seq<Slot>, step: Step, draws: nat -> Draw, qs: seq<Question>, abc: Letters)
    requires GenerateFrom(done, step, draws, "ABC", 0) == Success((qs, abc))
    requires step(slot, abc, draws(|qs|)).Failure?
    ensures GenerateFrom(done + ([slot] + later), step, draws, "ABC", 0) == Failure(step(slot, abc, draws(|qs|)).error)
  {
    GenerateAppend(done, [slot] + later, step, draws, "ABC", 0);
    assert ([slot] + later)[0] == slot;
  }

  /** The passes of the first `k + 1` records. */
  lemma {:induction false} SlotsOfPrefix(records: seq<SymbolRecord>, k: nat)
    requires k < |records|
    ensures Slots(records[..k + 1]) == Slots(records[..k]) + ImageSlots(records[k])
  {
    var rec := records[k];
    assert records[..k + 1] == records[..k] + [rec];
    SlotsAppend(records[..k], [rec]);
    assert [rec][0] == rec && [rec][1..] == [];
    assert Slots([rec]) == ImageSlots(rec) + Slots([]);
  }

  /** The script's nested loop over records and their images: the letter
      order carries over from one pass to the next, each pass uses the next
      draw, and the first failing pass ends the run. */
  method GenerateLoop(records: seq<SymbolRecord>, step: Step, draws: nat -> Draw) returns (r: Result<seq<Question>, GenError>)
    ensures r == Questions(GenerateFrom(Slots(records), step, draws, "ABC", 0))
  {
    var abc: Letters := "ABC";
    var qs: seq<Question> := [];
    var k := 0;
    while k < |records|
      invariant 0 <= k <= |records|
      invariant GenerateFrom(Slots(records[..k]), step, draws, "ABC", 0) == Success((qs, abc))
    {
      var rec := records[k];
      var j := 0;
      assert Slots(records[..k]) + ImageSlots(rec)[..0] == Slots(records[..k]);
      while j < |rec.images|
        invariant 0 <= j <= |rec.images|
        invariant GenerateFrom(Slots(records[..k]) + ImageSlots(rec)[..j], step, draws, "ABC", 0) == Success((qs, abc))
      {
        var done := Slots(records[..k]) + ImageSlots(rec)[..j];
        var slot := Slot(rec, rec.images[j]);
        var result := step(slot, abc, draws(|qs|));
        if result.Failure? {
          SplitAtSlot(records, k, j);
          StopAt(done, slot, ImageSlots(rec)[j + 1..] + Slots(records[k + 1..]), step, draws, qs, abc);
          return Failure(result.error);
        }
        ExtendByOne(done, slot, step, draws, qs, abc);
        ExtendPrefix(Slots(records[..k]), ImageSlots(rec), j);
        qs := qs + [result.value.0];
        abc := result.value.1;
        j := j + 1;
      }
      assert ImageSlots(rec)[..j] == ImageSlots(rec);
      SlotsOfPrefix(records, k);
      k := k + 1;
    }
    assert records[..k] == records;
    r := Success(qs);
  }

  lemma {:induction false} ExtendPrefix<T>(done: seq<T>, xs: seq<T>, j: nat)
    requires j < |xs|
    ensures (done + xs[..j]) + [xs[j]] == done + xs[..j + 1]
  {
    assert xs[..j + 1] == xs[..j] + [xs[j]];
  }

  /** The nested loop with the script's own step computes the question list. */
  method GenerateTasks(records: seq<SymbolRecord>, pools: Pools, draws: nat -> Draw) returns (r: Result<seq<Question>, GenError>)
    ensures r == Generate(records, pools, draws)
    ensures r.Success? ==> |r.value| == TotalImages(records)
  {
    r := GenerateLoop(records, QuestionStep(pools), draws);
  }

  /** The passes before and after image `j` of record `k`. */
  lemma {:induction false} SplitAtSlot(records: seq<SymbolRecord>, k: nat, j: nat)
    requires k < |records| && j < |records[k].images|
    ensures Slots(records) == (Slots(records[..k]) + ImageSlots(records[k])[..j])
                              + ([Slot(records[k], records[k].images[j])]
                                 + (ImageSlots(records[k])[j + 1..] + Slots(records[k + 1..])))
  {
    var rec := records[k];
    assert records == records[..k] + records[k..];
    SlotsAppend(records[..k], records[k..]);
    assert records[k..][1..] == records[k + 1..];
    var slots := ImageSlots(rec);
    assert Slots(records[k..]) == slots + Slots(records[k + 1..]);
    assert slots == slots[..j] + ([slots[j]] + slots[j + 1..]);
    Regroup(Slots(records[..k]), slots[..j], [slots[j]], slots[j + 1..], Slots(records[k + 1..]));
  }

  lemma {:induction false} Regroup<T>(a: seq<T>, b: seq<T>, x: seq<T>, c: seq<T>, d: seq<T>)
    ensures a + ((b + (x + c)) + d) == (a + b) + (x + (c + d))
  {
  }

  /** The whole script: the label pools, then the question list. With both
      label files free of duplicates, the run succeeds exactly when every
      record with an image can draw its three labels, and then every image
      gets its own well-formed question, in record and image order. */
  function GenerateTaskData(internalFile: seq<string>, externalFile: seq<string>, records: seq<SymbolRecord>, draws: nat -> Draw): (r: Result<seq<Question>, GenError>)
    ensures !NoDuplicates(internalFile) ==> r == Failure(DuplicateInternalLabels)
    ensures NoDuplicates(internalFile) && !NoDuplicates(externalFile) ==> r == Failure(DuplicateExternalLabels)
    ensures NoDuplicates(internalFile) && NoDuplicates(externalFile) ==>
      var pools := BuildPools(internalFile, externalFile, records).value;
      && (r.Success? <==> forall k :: 0 <= k < |records| && |records[k].images| > 0 ==> CanAsk(records[k], pools))
      && (r.Failure? ==> exists k :: 0 <= k < |records| && |records[k].images| > 0 && !CanAsk(records[k], pools)
                                     && r.error == AskError(records[k], pools))
    ensures r.Success? ==> |r.value| == TotalImages(records)
    ensures r.Success? ==> BuildPools(internalFile, externalFile, records).Success?
    ensures r.Success? ==> forall i :: 0 <= i < |r.value| ==>
      WellFormed(r.value[i], Slots(records)[i].rec, Slots(records)[i].image, BuildPools(internalFile, externalFile, records).value)
  {
    var pools :- BuildPools(internalFile, externalFile, records);
    GenerateSucceeds(records, pools, draws);
    Generate(records, pools, draws)
  }
}
