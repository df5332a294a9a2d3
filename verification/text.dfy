/** String primitives with Python's `str` semantics, restricted to ASCII:
    character classes, substring search, `split`, `join`, `replace`,
    `strip` and decimal rendering of integers. */
module Text {
  import opened Results

  // ---------------------------------------------------------------------------
  // Character classes
  // ---------------------------------------------------------------------------

  /** Python's `str.isspace` (and regex `\s`) on ASCII: space, `\t \n \v \f \r`
      and the four separators 0x1C..0x1F. */
  predicate IsSpace(c: char) {
    c == ' ' || 9 <= c as int <= 13 || 28 <= c as int <= 31
  }

  predicate IsUpper(c: char) {
    'A' <= c <= 'Z'
  }

  predicate IsLowerLetter(c: char) {
    'a' <= c <= 'z'
  }

  /** Membership in Python's `string.punctuation`, the 32 ASCII characters
      !"#$%&'()*+,-./:;<=>?@[\]^_`{|}~ */
  predicate IsPunct(c: char) {
    33 <= c as int <= 47 || 58 <= c as int <= 64 || 91 <= c as int <= 96 || 123 <= c as int <= 126
  }

  /** ASCII lower-casing of one character; every other character is kept. */
  function LowerChar(c: char): (d: char)
    ensures !IsUpper(d)
    ensures IsUpper(c) ==> d as int == c as int + 32
    ensures !IsUpper(c) ==> d == c
  {
    if IsUpper(c) then (c as int + 32) as char else c
  }

  /** ASCII upper-casing of one character; every other character is kept. */
  function UpperChar(c: char): (d: char)
    ensures !IsLowerLetter(d)
    ensures IsLowerLetter(c) ==> d as int == c as int - 32
    ensures !IsLowerLetter(c) ==> d == c
  {
    if IsLowerLetter(c) then (c as int - 32) as char else c
  }

  /** Python's `str.lower()` on ASCII text. */
  function Lower(s: string): (r: string)
    ensures |r| == |s|
    ensures forall i :: 0 <= i < |s| ==> r[i] == LowerChar(s[i])
  {
    if s == [] then [] else [LowerChar(s[0])] + Lower(s[1..])
  }

  /** Text without upper-case letters is its own lower-case form. */
  lemma {:induction false} LowerOfLowerCase(s: string)
    requires forall i :: 0 <= i < |s| ==> !IsUpper(s[i])
    ensures Lower(s) == s
  {
  }

  // ---------------------------------------------------------------------------
  // Substrings
  // ---------------------------------------------------------------------------

  /** `sub` occurs in `s` starting at index `i`. */
  predicate OccursAt(s: string, sub: string, i: nat) {
    i + |sub| <= |s| && s[i..i + |sub|] == sub
  }

  /** Python's `sub in s`. */
  predicate Contains(s: string, sub: string) {
    exists i: nat :: i <= |s| && OccursAt(s, sub, i)
  }

  /** Python's `s.endswith(suffix)`. */
  predicate EndsWith(s: string, suffix: string) {
    |suffix| <= |s| && s[|s| - |suffix|..] == suffix
  }

  lemma {:induction false} EndsWithAppend(a: string, b: string, suffix: string)
    requires EndsWith(b, suffix)
    ensures EndsWith(a + b, suffix)
  {
    assert (a + b)[|a + b| - |suffix|..] == b[|b| - |suffix|..];
  }

  /** The least index at or after `from` where `sub` occurs in `s`, if any. */
  function FindFrom(s: string, sub: string, from: nat): (r: Option<nat>)
    requires from <= |s|
    ensures r.Some? ==> from <= r.value && OccursAt(s, sub, r.value)
    ensures r.Some? ==> forall j: nat :: from <= j < r.value ==> !OccursAt(s, sub, j)
    ensures r.None? ==> forall j: nat :: from <= j ==> !OccursAt(s, sub, j)
    decreases |s| - from
  {
    if OccursAt(s, sub, from) then Some(from)
    else if from == |s| then None
    else FindFrom(s, sub, from + 1)
  }

  /** Python's `s.find(sub)`, with `None` for -1. */
  function Find(s: string, sub: string): (r: Option<nat>)
    ensures r.Some? <==> Contains(s, sub)
    ensures r.Some? ==> OccursAt(s, sub, r.value)
    ensures r.Some? ==> forall j: nat :: j < r.value ==> !OccursAt(s, sub, j)
  {
    FindFrom(s, sub, 0)
  }

  // ---------------------------------------------------------------------------
  // split / join / replace
  // ---------------------------------------------------------------------------

  /** Python's `s.split(sep)` for a non-empty separator: the pieces between
      the leftmost non-overlapping occurrences of `sep`. */
  function Split(s: string, sep: string): (parts: seq<string>)
    requires |sep| > 0
    ensures |parts| >= 1
    decreases |s|
  {
    match Find(s, sep)
    case None => [s]
    case Some(i) => [s[..i]] + Split(s[i + |sep|..], sep)
  }

  /** No piece of a split contains the separator. */
  lemma {:induction false} SplitPiecesAvoidSep(s: string, sep: string)
    requires |sep| > 0
    ensures forall k :: 0 <= k < |Split(s, sep)| ==> !Contains(Split(s, sep)[k], sep)
    decreases |s|
  {
    match Find(s, sep)
    case None =>
    case Some(i) =>
      assert !Contains(s[..i], sep) by {
        forall j: nat | j <= i && OccursAt(s[..i], sep, j)
          ensures false
        {
          assert s[j..j + |sep|] == s[..i][j..j + |sep|];
          assert OccursAt(s, sep, j);
        }
      }
      SplitPiecesAvoidSep(s[i + |sep|..], sep);
  }

  /** Python's `sep.join(parts)`. */
  function Join(parts: seq<string>, sep: string): (r: string)
    decreases |parts|
  {
    if |parts| == 0 then []
    else if |parts| == 1 then parts[0]
    else parts[0] + sep + Join(parts[1..], sep)
  }

  /** Joining the pieces of a split with the same separator gives back the
      original string. */
  lemma {:induction false} JoinSplit(s: string, sep: string)
    requires |sep| > 0
    ensures Join(Split(s, sep), sep) == s
    decreases |s|
  {
    var f := Find(s, sep);
    if f.Some? {
      var i := f.value;
      var rest := s[i + |sep|..];
      JoinSplit(rest, sep);
      SplitAt(s, sep, i);
      JoinCons(s[..i], Split(rest, sep), sep);
    }
  }

  /** Unfolds `Split` at the first occurrence `i` of the separator. */
  lemma {:induction false} SplitAt(s: string, sep: string, i: nat)
    requires |sep| > 0 && Find(s, sep) == Some(i)
    ensures i + |sep| <= |s|
    ensures Split(s, sep) == [s[..i]] + Split(s[i + |sep|..], sep)
    ensures s == s[..i] + sep + s[i + |sep|..]
  {
    SplitAtFirst(s, sep, i);
    assert OccursAt(s, sep, i);
    assert s == s[..i] + s[i..i + |sep|] + s[i + |sep|..];
  }

  lemma {:induction false} JoinCons(head: string, tail: seq<string>, sep: string)
    requires |tail| >= 1
    ensures Join([head] + tail, sep) == head + sep + Join(tail, sep)
  {
    var parts := [head] + tail;
    assert parts[1..] == tail;
  }

  /** Splitting on a one-character separator undoes a join of pieces that do
      not contain that character. */
  lemma {:induction false} SplitJoin(parts: seq<string>, c: char)
    requires |parts| >= 1
    requires forall k :: 0 <= k < |parts| ==> c !in parts[k]
    ensures Split(Join(parts, [c]), [c]) == parts
    decreases |parts|
  {
    var s := Join(parts, [c]);
    var p := parts[0];
    if |parts| == 1 {
      NoOccurrenceOfChar(p, c);
    } else {
      SplitJoin(parts[1..], c);
      assert s == p + [c] + Join(parts[1..], [c]);
      assert OccursAt(s, [c], |p|);
      forall j: nat | j < |p|
        ensures !OccursAt(s, [c], j)
      {
        assert s[j] == p[j];
      }
      assert Find(s, [c]) == Some(|p|);
      assert s[..|p|] == p;
      assert s[|p| + 1..] == Join(parts[1..], [c]);
    }
  }

  /** A one-character separator that is absent from `s` leaves it whole. */
  lemma {:induction false} NoOccurrenceOfChar(s: string, c: char)
    requires c !in s
    ensures Split(s, [c]) == [s]
  {
    forall i: nat | i + 1 <= |s|
      ensures !OccursAt(s, [c], i)
    {
      assert s[i..i + 1][0] == s[i];
      assert s[i] in s;
    }
  }

  /** A string that ends with a separator whose first character does not
      recur in it splits into at least two pieces, the last of them empty. */
  lemma {:induction false} SplitEndingInSep(s: string, sep: string)
    requires |sep| > 0 && sep[0] !in sep[1..] && EndsWith(s, sep)
    ensures |Split(s, sep)| >= 2 && Split(s, sep)[|Split(s, sep)| - 1] == []
    decreases |s|, 1
  {
    var i := FirstOccurrenceBeforeEnd(s, sep);
    if i + |sep| == |s| {
      EmptySplit(sep);
      LastPieceOfRest(s, sep, i);
    } else {
      SplitEndingInSepPast(s, sep, i);
    }
  }

  /** The recursive step of `SplitEndingInSep`, past the first occurrence. */
  lemma {:induction false} SplitEndingInSepPast(s: string, sep: string, i: nat)
    requires |sep| > 0 && sep[0] !in sep[1..] && Find(s, sep) == Some(i)
    requires i + |sep| < |s| && EndsWith(s[i + |sep|..], sep)
    ensures |Split(s, sep)| >= 2 && Split(s, sep)[|Split(s, sep)| - 1] == []
    decreases |s|, 0
  {
    SplitEndingInSep(s[i + |sep|..], sep);
    LastPieceOfRest(s, sep, i);
  }

  /** An empty last piece of the rest is the empty last piece of the whole. */
  lemma {:induction false} LastPieceOfRest(s: string, sep: string, i: nat)
    requires |sep| > 0 && Find(s, sep) == Some(i)
    requires var tail := Split(s[i + |sep|..], sep); tail[|tail| - 1] == []
    ensures |Split(s, sep)| >= 2 && Split(s, sep)[|Split(s, sep)| - 1] == []
  {
    LastPieceAfterFirst(s, sep, i);
  }

  /** In a string ending with such a separator, the first occurrence either
      is that ending or leaves a rest that again ends with it. */
  lemma {:induction false} FirstOccurrenceBeforeEnd(s: string, sep: string) returns (i: nat)
    requires |sep| > 0 && sep[0] !in sep[1..] && EndsWith(s, sep)
    ensures Find(s, sep) == Some(i) && i + |sep| <= |s|
    ensures i + |sep| == |s| ==> s[i + |sep|..] == []
    ensures i + |sep| < |s| ==> EndsWith(s[i + |sep|..], sep)
  {
    var last := |s| - |sep|;
    assert OccursAt(s, sep, last);
    assert Contains(s, sep);
    i := Find(s, sep).value;
    if i != last {
      RestEndsWithSep(s, sep, i);
    }
  }

  /** A split has one more piece than the split of what follows the first
      occurrence of the separator, and the same last piece. */
  lemma {:induction false} LastPieceAfterFirst(s: string, sep: string, i: nat)
    requires |sep| > 0 && Find(s, sep) == Some(i)
    ensures var parts := Split(s, sep); var tail := Split(s[i + |sep|..], sep);
      |parts| == |tail| + 1 && parts[|parts| - 1] == tail[|tail| - 1]
  {
    var tail := Split(s[i + |sep|..], sep);
    SplitAtFirst(s, sep, i);
    LastOfCons(s[..i], tail);
  }

  /** One step of `Split`: the piece before the first occurrence, then the
      split of the rest. */
  lemma {:induction false} SplitAtFirst(s: string, sep: string, i: nat)
    requires |sep| > 0 && Find(s, sep) == Some(i)
    ensures Split(s, sep) == [s[..i]] + Split(s[i + |sep|..], sep)
  {
  }

  lemma {:induction false} LastOfCons<T>(x: T, tail: seq<T>)
    requires tail != []
    ensures |[x] + tail| == |tail| + 1 && ([x] + tail)[|tail|] == tail[|tail| - 1]
  {
  }

  lemma {:induction false} EmptySplit(sep: string)
    requires |sep| > 0
    ensures Split([], sep) == [[]]
  {
    assert !Contains([], sep);
  }

  /** Past an earlier occurrence of the separator, the rest of `s` still ends
      with it. */
  lemma {:induction false} RestEndsWithSep(s: string, sep: string, i: nat)
    requires |sep| > 0 && sep[0] !in sep[1..] && EndsWith(s, sep)
    requires OccursAt(s, sep, i) && i < |s| - |sep|
    ensures EndsWith(s[i + |sep|..], sep)
  {
    var last := |s| - |sep|;
    assert OccursAt(s, sep, last);
    SeparatorsDoNotOverlap(s, sep, i, last);
    assert s[i + |sep|..][|s| - i - 2 * |sep|..] == s[last..];
  }

  /** Two occurrences of a separator whose first character does not recur in
      it cannot overlap. */
  lemma {:induction false} SeparatorsDoNotOverlap(s: string, sep: string, i: nat, j: nat)
    requires |sep| > 0 && sep[0] !in sep[1..]
    requires OccursAt(s, sep, i) && OccursAt(s, sep, j) && i < j
    ensures i + |sep| <= j
  {
  }

  /** The first occurrence of a separator whose first character does not
      recur in it, placed after text free of it, is the one placed. */
  lemma {:induction false} FindAfterPlain(a: string, sep: string, b: string)
    requires |sep| > 0 && sep[0] !in sep[1..] && !Contains(a, sep)
    ensures Find(a + sep + b, sep) == Some(|a|)
  {
    var s := a + sep + b;
    assert s[|a|..|a| + |sep|] == sep;
    assert OccursAt(s, sep, |a|);
    forall j: nat | j + |sep| <= |a|
      ensures !OccursAt(s, sep, j)
    {
      assert s[j..j + |sep|] == a[j..j + |sep|];
      assert !OccursAt(a, sep, j);
    }
    forall j: nat | j < |a| < j + |sep|
      ensures !OccursAt(s, sep, j)
    {
      if OccursAt(s, sep, j) {
        SeparatorsDoNotOverlap(s, sep, j, |a|);
      }
    }
  }

  lemma {:induction false} AbsentCharNotContained(s: string, c: char)
    requires c !in s
    ensures !Contains(s, [c])
  {
    forall i: nat | i + 1 <= |s|
      ensures !OccursAt(s, [c], i)
    {
      assert s[i..i + 1][0] == s[i];
    }
  }

  /** Cutting at the first occurrence of a character: text on either side
      is determined when the part before it avoids the character. */
  lemma {:induction false} CutAtChar(a: string, b: string, a2: string, b2: string, c: char)
    requires c !in a && c !in a2 && a + [c] + b == a2 + [c] + b2
    ensures a == a2 && b == b2
  {
    var s := a + [c] + b;
    var s2 := a2 + [c] + b2;
    assert s[|a|] == c && s2[|a2|] == c;
    assert forall k :: 0 <= k < |a| ==> s[k] == a[k] != c;
    assert forall k :: 0 <= k < |a2| ==> s2[k] == a2[k] != c;
    assert |a| == |a2|;
    assert a == s[..|a|] && a2 == s[..|a2|];
    assert b == s[|a| + 1..] && b2 == s[|a2| + 1..];
  }

  /** One differing character rules out an occurrence. */
  lemma {:induction false} DiffersAt(s: string, sub: string, i: nat, k: nat)
    requires k < |sub| && (i + k < |s| ==> s[i + k] != sub[k])
    ensures !OccursAt(s, sub, i)
  {
    if i + |sub| <= |s| {
      assert s[i..i + |sub|][k] == s[i + k];
    }
  }

  lemma {:induction false} MissingFirstChar(s: string, sub: string)
    requires |sub| > 0 && sub[0] !in s
    ensures !Contains(s, sub)
  {
    forall i: nat | i + |sub| <= |s|
      ensures !OccursAt(s, sub, i)
    {
      assert s[i..i + |sub|][0] == s[i];
    }
  }

  /** Text before the first occurrence of the separator is the first piece. */
  lemma {:induction false} SplitAfterPlain(a: string, sep: string, b: string)
    requires |sep| > 0 && sep[0] !in sep[1..] && !Contains(a, sep)
    ensures Split(a + sep + b, sep) == [a] + Split(b, sep)
  {
    var s := a + sep + b;
    FindAfterPlain(a, sep, b);
    assert s[..|a|] == a && s[|a| + |sep|..] == b;
  }

  /** Where the separator does not occur before index `n`, the first piece
      of the split begins with the first `n` characters. */
  lemma {:induction false} FirstPieceKeepsPrefix(s: string, sep: string, n: nat)
    requires |sep| > 0 && n <= |s|
    requires forall j: nat :: j < n ==> !OccursAt(s, sep, j)
    ensures n <= |Split(s, sep)[0]| && Split(s, sep)[0][..n] == s[..n]
  {
  }

  /** Stripping a character class from text wrapped in one character of that
      class gives back the text, when the text itself avoids the class. */
  lemma {:induction false} StripWrapped(u: string, q: char, drop: char -> bool)
    requires drop(q) && forall k :: 0 <= k < |u| ==> !drop(u[k])
    ensures Strip([q] + u + [q], drop) == u
  {
    var w := [q] + u + [q];
    assert w[1..] == u + [q];
    if u == [] {
      assert TrimStart(w, drop) == TrimStart([q], drop);
      assert [q][1..] == [];
    } else {
      assert TrimStart(w, drop) == u + [q];
      assert (u + [q])[..|u|] == u;
      assert TrimEnd(u + [q], drop) == TrimEnd(u, drop);
      assert TrimEnd(u, drop) == u;
    }
  }

  /** Joining pieces whose last one is empty ends with the separator. */
  lemma {:induction false} JoinEndingInEmpty(parts: seq<string>, sep: string)
    requires |parts| >= 2 && parts[|parts| - 1] == []
    ensures EndsWith(Join(parts, sep), sep)
    decreases |parts|
  {
    if |parts| == 2 {
      assert Join(parts[1..], sep) == [];
    } else {
      JoinEndingInEmpty(parts[1..], sep);
    }
  }

  /** Python's `s.replace("", repl)`: `repl` before every character and at the end. */
  function Interleave(s: string, repl: string): (r: string)
    ensures |r| == |s| + (|s| + 1) * |repl|
    decreases |s|
  {
    if s == [] then repl else repl + [s[0]] + Interleave(s[1..], repl)
  }

  /** Python's `s.replace(pattern, repl)`: every leftmost non-overlapping
      occurrence of `pattern` is replaced; an empty `pattern` matches between every
      pair of characters. */
  function ReplaceAll(s: string, pattern: string, repl: string): string {
    if |pattern| == 0 then Interleave(s, repl) else Join(Split(s, pattern), repl)
  }

  /** Replacing with the string itself changes nothing. */
  lemma {:induction false} ReplaceByItself(s: string, pattern: string)
    requires |pattern| > 0
    ensures ReplaceAll(s, pattern, pattern) == s
  {
    JoinSplit(s, pattern);
  }

  // ---------------------------------------------------------------------------
  // strip
  // ---------------------------------------------------------------------------

  /** Drops the longest prefix whose characters all satisfy `drop`. */
  function TrimStart(s: string, drop: char -> bool): (r: string)
    ensures |r| <= |s|
    ensures forall i :: 0 <= i < |s| - |r| ==> drop(s[i])
    ensures r != [] ==> !drop(r[0])
    decreases |s|
  {
    if s != [] && drop(s[0]) then TrimStart(s[1..], drop) else s
  }

  /** Drops the longest suffix whose characters all satisfy `drop`. */
  function TrimEnd(s: string, drop: char -> bool): (r: string)
    ensures |r| <= |s| && r == s[..|r|]
    ensures forall i :: |r| <= i < |s| ==> drop(s[i])
    ensures r != [] ==> !drop(r[|r| - 1])
    decreases |s|
  {
    if s != [] && drop(s[|s| - 1]) then TrimEnd(s[..|s| - 1], drop) else s
  }

  /** Python's `s.strip(chars)` for the character class `drop`. */
  function Strip(s: string, drop: char -> bool): (r: string)
    ensures r != [] ==> !drop(r[0]) && !drop(r[|r| - 1])
  {
    TrimEnd(TrimStart(s, drop), drop)
  }

  /** What `TrimStart` keeps is the suffix of its input after the dropped characters. */
  lemma {:induction false} TrimStartIsSuffix(s: string, drop: char -> bool)
    ensures TrimStart(s, drop) == s[|s| - |TrimStart(s, drop)|..]
    decreases |s|
  {
    if s != [] && drop(s[0]) {
      TrimStartIsSuffix(s[1..], drop);
    }
  }

  /** What `strip` keeps is one contiguous slice of its input. */
  lemma {:induction false} StripIsSlice(s: string, drop: char -> bool)
    ensures exists i, j :: 0 <= i <= j <= |s| && Strip(s, drop) == s[i..j]
  {
    var t := TrimStart(s, drop);
    var r := TrimEnd(t, drop);
    TrimStartIsSuffix(s, drop);
    assert r == s[|s| - |t|..|s| - |t| + |r|];
  }

  /** Trimming the front of `x + y` trims only `x`, unless all of `x` is
      dropped and `y` itself begins with a dropped character. */
  lemma {:induction false} TrimStartAppend(x: string, y: string, drop: char -> bool)
    requires TrimStart(x, drop) != [] || y == [] || !drop(y[0])
    ensures TrimStart(x + y, drop) == TrimStart(x, drop) + y
    decreases |x|
  {
    if x == [] {
      assert x + y == y;
    } else {
      assert (x + y)[0] == x[0] && (x + y)[1..] == x[1..] + y;
      if drop(x[0]) {
        TrimStartAppend(x[1..], y, drop);
      }
    }
  }

  // ---------------------------------------------------------------------------
  // Decimal numbers
  // ---------------------------------------------------------------------------

  predicate IsDigit(c: char) {
    '0' <= c <= '9'
  }

  function DigitChar(d: nat): (c: char)
    requires d < 10
    ensures IsDigit(c)
  {
    ('0' as int + d) as char
  }

  function DigitValue(c: char): (d: nat)
    requires IsDigit(c)
    ensures d < 10
  {
    c as int - '0' as int
  }

  /** Python's `str(n)` (and f-string rendering) for a non-negative integer. */
  function NatToString(n: nat): (s: string)
    ensures |s| >= 1
    ensures forall k :: 0 <= k < |s| ==> IsDigit(s[k])
    decreases n
  {
    if n < 10 then [DigitChar(n)] else NatToString(n / 10) + [DigitChar(n % 10)]
  }

  /** The value of a string of decimal digits. */
  function ParseDigits(s: string): nat
    requires forall k :: 0 <= k < |s| ==> IsDigit(s[k])
    decreases |s|
  {
    if s == [] then 0 else 10 * ParseDigits(s[..|s| - 1]) + DigitValue(s[|s| - 1])
  }

  /** Reading back a rendered number gives the number. */
  lemma {:induction false} ParseNatToString(n: nat)
    ensures ParseDigits(NatToString(n)) == n
    decreases n
  {
    var s := NatToString(n);
    if n >= 10 {
      ParseNatToString(n / 10);
      assert s[..|s| - 1] == NatToString(n / 10);
    }
  }

  /** Distinct numbers render as distinct strings. */
  lemma {:induction false} NatToStringInjective(m: nat, n: nat)
    requires NatToString(m) == NatToString(n)
    ensures m == n
  {
    ParseNatToString(m);
    ParseNatToString(n);
  }
}
