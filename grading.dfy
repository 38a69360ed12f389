/**
 * Checking a response against the target word: the expected answer is the
 * code-word of every character of the lower-cased word that is a key of the
 * lookup table, joined by single spaces; the response is correct when it is
 * exactly that answer once lower-cased.  Otherwise both are split on `' '`
 * and the response words are walked position by position, reporting each
 * word that differs from the expected word at its position.
 */
module Grading {
  import opened Text
  import opened Lookup

  const NotAValidWord: string := "Not a valid word"

  /** The code-words of the characters of an already lower-cased word that are keys of `lookup`. */
  function Expand(lowered: string, lookup: Table): (codewords: seq<string>)
    ensures |codewords| <= |lowered|
    ensures forall k :: 0 <= k < |codewords| ==> codewords[k] in lookup.Values
  {
    if lowered == [] then []
    else (if [lowered[0]] in lookup then [lookup[[lowered[0]]]] else []) + Expand(lowered[1..], lookup)
  }

  /** `[lookup[l] for l in word.lower() if l in lookup]` */
  function Codewords(word: string, lookup: Table): (cws: seq<string>)
    ensures |cws| <= |word|
    ensures forall k :: 0 <= k < |cws| ==> cws[k] in lookup.Values
  {
    Expand(Lower(word), lookup)
  }

  /** `' '.join(Codewords(word, lookup))`: the answer the response must match. */
  function Answer(word: string, lookup: Table): (ans: string)
    ensures Codewords(word, lookup) == [] ==> ans == ""
    ensures |Codewords(word, lookup)| == 1 ==> ans == Codewords(word, lookup)[0]
  {
    Join(Codewords(word, lookup), ' ')
  }

  /** `correct_ans == resp.lower()` */
  predicate IsCorrect(word: string, resp: string, lookup: Table)
    ensures IsCorrect(word, resp, lookup) ==> |resp| == |Answer(word, lookup)|
  {
    Answer(word, lookup) == Lower(resp)
  }

  // ---------------------------------------------------------------------
  // Answer expansion

  lemma {:induction false} ExpandAppend(a: string, b: string, lookup: Table)
    ensures Expand(a + b, lookup) == Expand(a, lookup) + Expand(b, lookup)
  {
    if a == [] {
      assert a + b == b;
    } else {
      assert (a + b)[0] == a[0];
      assert (a + b)[1..] == a[1..] + b;
      ExpandAppend(a[1..], b, lookup);
    }
  }

  /** Expansion works character by character and keeps the order of the word. */
  lemma CodewordsAppend(w1: string, w2: string, lookup: Table)
    ensures Codewords(w1 + w2, lookup) == Codewords(w1, lookup) + Codewords(w2, lookup)
  {
    LowerAppend(w1, w2);
    ExpandAppend(Lower(w1), Lower(w2), lookup);
  }

  /** One character gives its code-word when its lower-case form is a key, and nothing otherwise. */
  lemma CodewordsOfChar(c: char, lookup: Table)
    ensures Codewords([c], lookup)
      == if [LowerChar(c)] in lookup then [lookup[[LowerChar(c)]]] else []
  {
    assert Lower([c]) == [LowerChar(c)];
  }

  /** A character that is not a key contributes nothing, wherever it stands. */
  lemma UnmappedCharSkipped(a: string, c: char, b: string, lookup: Table)
    requires [LowerChar(c)] !in lookup
    ensures Codewords(a + [c] + b, lookup) == Codewords(a + b, lookup)
  {
    CodewordsAppend(a + [c], b, lookup);
    CodewordsAppend(a, [c], lookup);
    CodewordsOfChar(c, lookup);
    CodewordsAppend(a, b, lookup);
  }

  /**
   * A mapped character's code-word stands at the position given by the
   * number of code-words of the characters before it.
   */
  lemma CodewordAt(word: string, i: nat, lookup: Table)
    requires i < |word| && [LowerChar(word[i])] in lookup
    ensures var before := |Codewords(word[..i], lookup)|;
      && before < |Codewords(word, lookup)|
      && Codewords(word, lookup)[before] == lookup[[LowerChar(word[i])]]
  {
    assert word == word[..i] + [word[i]] + word[i + 1..];
    CodewordsAppend(word[..i] + [word[i]], word[i + 1..], lookup);
    CodewordsAppend(word[..i], [word[i]], lookup);
    CodewordsOfChar(word[i], lookup);
  }

  lemma {:induction false} ExpandFullLength(lowered: string, lookup: Table)
    ensures |Expand(lowered, lookup)| == |lowered|
      <==> forall i :: 0 <= i < |lowered| ==> [lowered[i]] in lookup
  {
    if lowered != [] {
      ExpandFullLength(lowered[1..], lookup);
      assert forall i :: 1 <= i < |lowered| ==> lowered[i] == lowered[1..][i - 1];
    }
  }

  /** The number of characters of `word` whose lower-case form is a key of `lookup`. */
  function MappedCount(word: string, lookup: Table): (n: nat)
    ensures n <= |word|
  {
    if word == [] then 0
    else (if [LowerChar(word[0])] in lookup then 1 else 0) + MappedCount(word[1..], lookup)
  }

  /** There are exactly as many code-words as mapped characters. */
  lemma {:induction false} CodewordsCount(word: string, lookup: Table)
    ensures |Codewords(word, lookup)| == MappedCount(word, lookup)
  {
    if word != [] {
      CodewordsCount(word[1..], lookup);
      assert word == [word[0]] + word[1..];
      CodewordsAppend([word[0]], word[1..], lookup);
      CodewordsOfChar(word[0], lookup);
    }
  }

  /** There is one code-word per character exactly when every character is mapped. */
  lemma CodewordsFullLength(word: string, lookup: Table)
    ensures |Codewords(word, lookup)| == |word|
      <==> forall i :: 0 <= i < |word| ==> [LowerChar(word[i])] in lookup
  {
    ExpandFullLength(Lower(word), lookup);
  }

  /**
   * When no code-word holds a space, the space-separated parts of the
   * answer are exactly the code-words; a word with no mapped character
   * has the empty answer.
   */
  lemma AnswerParts(word: string, lookup: Table)
    requires forall v :: v in lookup.Values ==> ' ' !in v
    ensures Codewords(word, lookup) == [] ==> Answer(word, lookup) == ""
    ensures Codewords(word, lookup) != [] ==> Split(Answer(word, lookup), ' ') == Codewords(word, lookup)
  {
    var cws := Codewords(word, lookup);
    if cws != [] {
      SplitJoin(cws, ' ');
    }
  }

  // ---------------------------------------------------------------------
  // The verdict

  /** Neither the case of the response nor that of the target word matters. */
  lemma VerdictIgnoresCase(word: string, resp: string, lookup: Table)
    ensures IsCorrect(word, resp, lookup) == IsCorrect(word, Lower(resp), lookup)
    ensures IsCorrect(word, resp, lookup) == IsCorrect(Lower(word), resp, lookup)
  {
    LowerIdempotent(resp);
    LowerIdempotent(word);
  }

  /**
   * The comparison is with the lower-cased response, so a response is
   * accepted only if the answer itself has no capital letter, and the answer
   * typed verbatim is accepted exactly then.
   */
  lemma AcceptedOnlyIfAnswerLowercase(word: string, resp: string, lookup: Table)
    ensures IsCorrect(word, resp, lookup) ==> Lower(Answer(word, lookup)) == Answer(word, lookup)
    ensures IsCorrect(word, Answer(word, lookup), lookup)
      <==> Lower(Answer(word, lookup)) == Answer(word, lookup)
  {
    LowerIdempotent(resp);
  }

  /**
   * When no code-word holds a space and the word has a mapped character, a
   * response is correct exactly when its single-space-separated words are
   * the code-words: spacing counts, so a doubled or a leading space fails.
   */
  lemma CorrectIffWordsMatch(word: string, resp: string, lookup: Table)
    requires forall v :: v in lookup.Values ==> ' ' !in v
    requires Codewords(word, lookup) != []
    ensures IsCorrect(word, resp, lookup) <==> Split(Lower(resp), ' ') == Codewords(word, lookup)
  {
    AnswerParts(word, lookup);
  }

  // ---------------------------------------------------------------------
  // The mismatch walk

  /** One line of feedback: the expected word and what the response word's first letter stands for. */
  datatype Report = Report(expected: string, heard: string)

  /**
   * How the walk ends: it runs to its end, or it stops with `IndexError`
   * at position `at`, where the response word is empty; `reports` are the
   * lines emitted before that.
   */
  datatype Walk = Finished(reports: seq<Report>) | Crashed(reports: seq<Report>, at: nat)

  /** `lookup.get(w[0], 'Not a valid word')` */
  function Heard(w: string, lookup: Table): (heard: string)
    requires w != ""
    ensures [w[0]] in lookup ==> heard in lookup.Values
    ensures [w[0]] !in lookup ==> heard == NotAValidWord
  {
    if [w[0]] in lookup then lookup[[w[0]]] else NotAValidWord
  }

  /** The number of positions the walk examines: it stops at the last expected word. */
  function Examined(respWords: seq<string>, correctWords: seq<string>): (n: nat)
    requires |correctWords| >= 1
    ensures n <= |respWords| && n <= |correctWords| - 1
    ensures n == |respWords| || n == |correctWords| - 1
  {
    if |respWords| < |correctWords| - 1 then |respWords| else |correctWords| - 1
  }

  /** The positions below `k` where the response word differs from the expected word, in order. */
  function FlaggedBelow(respWords: seq<string>, correctWords: seq<string>, k: nat): (ix: seq<nat>)
    requires k <= |respWords| && k <= |correctWords|
    ensures forall j :: 0 <= j < |ix| ==> ix[j] < k
  {
    if k == 0 then []
    else
      FlaggedBelow(respWords, correctWords, k - 1)
        + (if respWords[k - 1] != correctWords[k - 1] then [k - 1] else [])
  }

  /**
   * The flagged positions are, in increasing order, exactly the positions
   * below `k` whose response word differs from the expected word.
   */
  lemma FlaggedBelowExactly(respWords: seq<string>, correctWords: seq<string>, k: nat)
    requires k <= |respWords| && k <= |correctWords|
    ensures var ix := FlaggedBelow(respWords, correctWords, k);
      && (forall j :: 0 <= j < |ix| ==> respWords[ix[j]] != correctWords[ix[j]])
      && (forall i :: 0 <= i < k && respWords[i] != correctWords[i] ==> i in ix)
      && (forall a, b :: 0 <= a < b < |ix| ==> ix[a] < ix[b])
  {
    FlaggedBelowDiffer(respWords, correctWords, k);
    FlaggedBelowComplete(respWords, correctWords, k);
    FlaggedBelowIncreasing(respWords, correctWords, k);
  }

  lemma {:induction false} FlaggedBelowDiffer(respWords: seq<string>, correctWords: seq<string>, k: nat)
    requires k <= |respWords| && k <= |correctWords|
    ensures forall j :: 0 <= j < |FlaggedBelow(respWords, correctWords, k)| ==>
      respWords[FlaggedBelow(respWords, correctWords, k)[j]] != correctWords[FlaggedBelow(respWords, correctWords, k)[j]]
  {
    if k > 0 {
      FlaggedBelowDiffer(respWords, correctWords, k - 1);
      var ix0 := FlaggedBelow(respWords, correctWords, k - 1);
      if respWords[k - 1] != correctWords[k - 1] {
        var ix := ix0 + [k - 1];
        assert FlaggedBelow(respWords, correctWords, k) == ix;
        forall j | 0 <= j < |ix|
          ensures respWords[ix[j]] != correctWords[ix[j]]
        {
          if j < |ix0| {
            assert ix[j] == ix0[j];
          } else {
            assert ix[j] == k - 1;
          }
        }
      } else {
        assert FlaggedBelow(respWords, correctWords, k) == ix0 + [] == ix0;
      }
    }
  }

  lemma {:induction false} FlaggedBelowComplete(respWords: seq<string>, correctWords: seq<string>, k: nat)
    requires k <= |respWords| && k <= |correctWords|
    ensures forall i :: 0 <= i < k && respWords[i] != correctWords[i] ==>
      i in FlaggedBelow(respWords, correctWords, k)
  {
    if k > 0 {
      FlaggedBelowComplete(respWords, correctWords, k - 1);
      var ix0 := FlaggedBelow(respWords, correctWords, k - 1);
      if respWords[k - 1] != correctWords[k - 1] {
        var ix := ix0 + [k - 1];
        assert FlaggedBelow(respWords, correctWords, k) == ix;
        forall i | 0 <= i < k && respWords[i] != correctWords[i]
          ensures i in ix
        {
          if i < k - 1 {
            assert i in ix0;
          } else {
            assert ix[|ix0|] == i;
          }
        }
      } else {
        assert FlaggedBelow(respWords, correctWords, k) == ix0 + [] == ix0;
      }
    }
  }

  lemma {:induction false} FlaggedBelowIncreasing(respWords: seq<string>, correctWords: seq<string>, k: nat)
    requires k <= |respWords| && k <= |correctWords|
    ensures forall a, b :: 0 <= a < b < |FlaggedBelow(respWords, correctWords, k)| ==>
      FlaggedBelow(respWords, correctWords, k)[a] < FlaggedBelow(respWords, correctWords, k)[b]
  {
    if k > 0 {
      FlaggedBelowIncreasing(respWords, correctWords, k - 1);
      var ix0 := FlaggedBelow(respWords, correctWords, k - 1);
      if respWords[k - 1] != correctWords[k - 1] {
        var ix := ix0 + [k - 1];
        assert FlaggedBelow(respWords, correctWords, k) == ix;
        forall a, b | 0 <= a < b < |ix|
          ensures ix[a] < ix[b]
        {
          assert ix[a] == ix0[a] < k - 1;
          if b < |ix0| {
            assert ix[b] == ix0[b];
          } else {
            assert ix[b] == k - 1;
          }
        }
      } else {
        assert FlaggedBelow(respWords, correctWords, k) == ix0 + [] == ix0;
      }
    }
  }

  /** The positions the walk reports (or would, had it not stopped at an empty word). */
  function Flagged(respWords: seq<string>, correctWords: seq<string>): (ix: seq<nat>)
    requires |correctWords| >= 1
    ensures forall i :: 0 <= i ==>
      (i in ix <==> i < |respWords| && i < |correctWords| - 1 && respWords[i] != correctWords[i])
    ensures |correctWords| - 1 !in ix
  {
    FlaggedBelowExactly(respWords, correctWords, Examined(respWords, correctWords));
    FlaggedBelow(respWords, correctWords, Examined(respWords, correctWords))
  }

  /** The report of each position in `ix`, in order. */
  function ReportsAt(ix: seq<nat>, respWords: seq<string>, correctWords: seq<string>, lookup: Table): (rs: seq<Report>)
    requires forall j :: 0 <= j < |ix| ==>
      ix[j] < |respWords| && ix[j] < |correctWords| && respWords[ix[j]] != ""
  {
    if ix == [] then []
    else
      var last := ix[|ix| - 1];
      ReportsAt(ix[..|ix| - 1], respWords, correctWords, lookup)
        + [Report(correctWords[last], Heard(respWords[last], lookup))]
  }

  /** The walk over the first `k` positions, as the loop performs it. */
  function WalkUpTo(respWords: seq<string>, correctWords: seq<string>, lookup: Table, k: nat): (w: Walk)
    requires k <= |respWords| && k <= |correctWords|
    ensures |w.reports| <= k
    ensures w.Crashed? ==> w.at < k && respWords[w.at] == "" && respWords[w.at] != correctWords[w.at]
  {
    if k == 0 then Finished([])
    else
      var prev := WalkUpTo(respWords, correctWords, lookup, k - 1);
      var i := k - 1;
      if prev.Crashed? || respWords[i] == correctWords[i] then prev
      else if respWords[i] == "" then Crashed(prev.reports, i)
      else Finished(prev.reports + [Report(correctWords[i], Heard(respWords[i], lookup))])
  }

  /** The walk finished, having reported every position of `ix`. */
  ghost predicate ReportedAll(respWords: seq<string>, correctWords: seq<string>, lookup: Table, ix: seq<nat>, rs: seq<Report>)
  {
    && (forall j :: 0 <= j < |ix| ==> ix[j] < |respWords| && ix[j] < |correctWords|)
    && (forall j :: 0 <= j < |ix| ==> respWords[ix[j]] != "")
    && rs == ReportsAt(ix, respWords, correctWords, lookup)
  }

  /** The walk stopped at the first position of `ix` whose response word is empty. */
  ghost predicate StoppedAtFirstEmpty(respWords: seq<string>, correctWords: seq<string>, lookup: Table, ix: seq<nat>, rs: seq<Report>, at: nat)
  {
    && (forall j :: 0 <= j < |ix| ==> ix[j] < |respWords| && ix[j] < |correctWords|)
    && |rs| < |ix|
    && at == ix[|rs|]
    && respWords[at] == ""
    && (forall j :: 0 <= j < |rs| ==> respWords[ix[j]] != "")
    && rs == ReportsAt(ix[..|rs|], respWords, correctWords, lookup)
  }

  ghost predicate WalkMatchesFlagged(respWords: seq<string>, correctWords: seq<string>, lookup: Table, k: nat)
    requires k <= |respWords| && k <= |correctWords|
  {
    var ix := FlaggedBelow(respWords, correctWords, k);
    match WalkUpTo(respWords, correctWords, lookup, k)
    case Finished(rs) => ReportedAll(respWords, correctWords, lookup, ix, rs)
    case Crashed(rs, at) => StoppedAtFirstEmpty(respWords, correctWords, lookup, ix, rs, at)
  }

  /**
   * With `ix` the flagged positions below `k`: if no flagged response word
   * is empty, the walk finishes with one report per flagged position;
   * otherwise it stops at the first flagged position whose response word
   * is empty, after the reports of the flagged positions before it.
   */
  lemma {:induction false} WalkReportsFlagged(respWords: seq<string>, correctWords: seq<string>, lookup: Table, k: nat)
    requires k <= |respWords| && k <= |correctWords|
    ensures var ix := FlaggedBelow(respWords, correctWords, k);
      match WalkUpTo(respWords, correctWords, lookup, k)
      case Finished(rs) =>
        && (forall j :: 0 <= j < |ix| ==> respWords[ix[j]] != "")
        && rs == ReportsAt(ix, respWords, correctWords, lookup)
      case Crashed(rs, at) =>
        && |rs| < |ix|
        && at == ix[|rs|]
        && respWords[at] == ""
        && (forall j :: 0 <= j < |rs| ==> respWords[ix[j]] != "")
        && rs == ReportsAt(ix[..|rs|], respWords, correctWords, lookup)
  {
    WalkMatchesFlaggedUpTo(respWords, correctWords, lookup, k);
  }

  lemma {:induction false} WalkMatchesFlaggedUpTo(respWords: seq<string>, correctWords: seq<string>, lookup: Table, k: nat)
    requires k <= |respWords| && k <= |correctWords|
    ensures WalkMatchesFlagged(respWords, correctWords, lookup, k)
  {
    if k > 0 {
      WalkMatchesFlaggedUpTo(respWords, correctWords, lookup, k - 1);
      var i := k - 1;
      var prev := WalkUpTo(respWords, correctWords, lookup, i);
      if prev.Crashed? {
        StepAfterStop(respWords, correctWords, lookup, k);
      } else if respWords[i] == correctWords[i] {
        assert FlaggedBelow(respWords, correctWords, k) == FlaggedBelow(respWords, correctWords, i);
      } else if respWords[i] == "" {
        StepStop(respWords, correctWords, lookup, k);
      } else {
        StepReport(respWords, correctWords, lookup, k);
      }
    }
  }

  lemma StepAfterStop(respWords: seq<string>, correctWords: seq<string>, lookup: Table, k: nat)
    requires 0 < k <= |respWords| && k <= |correctWords|
    requires WalkMatchesFlagged(respWords, correctWords, lookup, k - 1)
    requires WalkUpTo(respWords, correctWords, lookup, k - 1).Crashed?
    ensures WalkMatchesFlagged(respWords, correctWords, lookup, k)
  {
    var prev := WalkUpTo(respWords, correctWords, lookup, k - 1);
    var ix := FlaggedBelow(respWords, correctWords, k - 1);
    var ix' := FlaggedBelow(respWords, correctWords, k);
    assert StoppedAtFirstEmpty(respWords, correctWords, lookup, ix, prev.reports, prev.at);
    var n := |prev.reports|;
    assert ix'[..n] == ix[..n] && ix'[n] == ix[n];
    assert StoppedAtFirstEmpty(respWords, correctWords, lookup, ix', prev.reports, prev.at);
  }

  lemma StepStop(respWords: seq<string>, correctWords: seq<string>, lookup: Table, k: nat)
    requires 0 < k <= |respWords| && k <= |correctWords|
    requires WalkMatchesFlagged(respWords, correctWords, lookup, k - 1)
    requires WalkUpTo(respWords, correctWords, lookup, k - 1).Finished?
    requires respWords[k - 1] != correctWords[k - 1] && respWords[k - 1] == ""
    ensures WalkMatchesFlagged(respWords, correctWords, lookup, k)
  {
    var prev := WalkUpTo(respWords, correctWords, lookup, k - 1);
    var ix := FlaggedBelow(respWords, correctWords, k - 1);
    var ix' := FlaggedBelow(respWords, correctWords, k);
    assert ReportedAll(respWords, correctWords, lookup, ix, prev.reports);
    ReportsAtLength(ix, respWords, correctWords, lookup);
    assert ix' == ix + [k - 1];
    assert ix'[..|ix|] == ix;
    assert StoppedAtFirstEmpty(respWords, correctWords, lookup, ix', prev.reports, k - 1);
  }

  lemma StepReport(respWords: seq<string>, correctWords: seq<string>, lookup: Table, k: nat)
    requires 0 < k <= |respWords| && k <= |correctWords|
    requires WalkMatchesFlagged(respWords, correctWords, lookup, k - 1)
    requires WalkUpTo(respWords, correctWords, lookup, k - 1).Finished?
    requires respWords[k - 1] != correctWords[k - 1] && respWords[k - 1] != ""
    ensures WalkMatchesFlagged(respWords, correctWords, lookup, k)
  {
    var prev := WalkUpTo(respWords, correctWords, lookup, k - 1);
    var ix := FlaggedBelow(respWords, correctWords, k - 1);
    var ix' := FlaggedBelow(respWords, correctWords, k);
    assert ReportedAll(respWords, correctWords, lookup, ix, prev.reports);
    assert ix' == ix + [k - 1];
    ReportsAtSnoc(ix, k - 1, respWords, correctWords, lookup);
    assert ReportedAll(respWords, correctWords, lookup, ix', WalkUpTo(respWords, correctWords, lookup, k).reports);
  }

  lemma {:induction false} ReportsAtLength(ix: seq<nat>, respWords: seq<string>, correctWords: seq<string>, lookup: Table)
    requires forall j :: 0 <= j < |ix| ==>
      ix[j] < |respWords| && ix[j] < |correctWords| && respWords[ix[j]] != ""
    ensures |ReportsAt(ix, respWords, correctWords, lookup)| == |ix|
  {
    if ix != [] {
      ReportsAtLength(ix[..|ix| - 1], respWords, correctWords, lookup);
    }
  }

  lemma ReportsAtSnoc(ix: seq<nat>, i: nat, respWords: seq<string>, correctWords: seq<string>, lookup: Table)
    requires forall j :: 0 <= j < |ix| ==>
      ix[j] < |respWords| && ix[j] < |correctWords| && respWords[ix[j]] != ""
    requires i < |respWords| && i < |correctWords| && respWords[i] != ""
    ensures ReportsAt(ix + [i], respWords, correctWords, lookup)
      == ReportsAt(ix, respWords, correctWords, lookup) + [Report(correctWords[i], Heard(respWords[i], lookup))]
  {
    assert (ix + [i])[..|ix|] == ix;
  }

  /** The whole walk. */
  function WalkOf(respWords: seq<string>, correctWords: seq<string>, lookup: Table): (w: Walk)
    requires |correctWords| >= 1
    ensures |w.reports| < |correctWords|
    ensures w.Crashed? ==> w.at < |respWords| && w.at < |correctWords| - 1 && respWords[w.at] == ""
  {
    WalkUpTo(respWords, correctWords, lookup, Examined(respWords, correctWords))
  }

  /** Once the walk has stopped, looking at more positions changes nothing. */
  lemma {:induction false} CrashIsFinal(respWords: seq<string>, correctWords: seq<string>, lookup: Table, k: nat, m: nat)
    requires k <= m <= |respWords| && m <= |correctWords|
    requires WalkUpTo(respWords, correctWords, lookup, k).Crashed?
    ensures WalkUpTo(respWords, correctWords, lookup, m) == WalkUpTo(respWords, correctWords, lookup, k)
  {
    if k < m {
      CrashIsFinal(respWords, correctWords, lookup, k, m - 1);
    }
  }

  /**
   * The mismatch loop of the script: split the lower-cased response and the
   * answer on `' '`, then walk the response words.
   */
  method MismatchWalk(resp: string, correctAns: string, lookup: Table) returns (w: Walk)
    ensures w == WalkOf(Split(Lower(resp), ' '), Split(correctAns, ' '), lookup)
  {
    var respWords := Split(Lower(resp), ' ');
    var correctWords := Split(correctAns, ' ');
    w := WalkWords(respWords, correctWords, lookup);
  }

  /**
   * The walk over the response words by index.  Indexing the expected
   * words is always in range, because the walk breaks at the last expected
   * word.
   */
  method WalkWords(respWords: seq<string>, correctWords: seq<string>, lookup: Table) returns (w: Walk)
    requires |correctWords| >= 1
    ensures w == WalkOf(respWords, correctWords, lookup)
  {
    var nCorrWords := |correctWords|;
    var reports: seq<Report> := [];
    var idx := 0;
    while idx < |respWords|
      invariant idx <= |respWords| && idx <= nCorrWords - 1
      invariant WalkUpTo(respWords, correctWords, lookup, idx) == Finished(reports)
    {
      if idx == nCorrWords - 1 {
        break;
      }
      var word := respWords[idx];
      if word != correctWords[idx] {
        if word == "" {
          w := Crashed(reports, idx);
          CrashIsFinal(respWords, correctWords, lookup, idx + 1, Examined(respWords, correctWords));
          return;
        }
        reports := reports + [Report(correctWords[idx], Heard(word, lookup))];
      }
      idx := idx + 1;
    }
    w := Finished(reports);
  }

  /** What one round prints after the response is in. */
  datatype Feedback =
    | Congrats
    | Incorrect(entered: string, expected: string, walk: Walk)

  /**
   * Build the answer, compare it with the lower-cased response, and on a
   * mismatch return both together with the walk.
   */
  method CheckResponse(word: string, resp: string, lookup: Table) returns (f: Feedback)
    ensures f == Congrats <==> IsCorrect(word, resp, lookup)
    ensures f.Incorrect? ==>
      && f.entered == resp
      && f.expected == Answer(word, lookup)
      && f.walk == WalkOf(Split(Lower(resp), ' '), Split(Answer(word, lookup), ' '), lookup)
  {
    var correctAns := Answer(word, lookup);
    if correctAns == Lower(resp) {
      f := Congrats;
    } else {
      var walk := MismatchWalk(resp, correctAns, lookup);
      f := Incorrect(resp, correctAns, walk);
    }
  }

  // ---------------------------------------------------------------------
  // Properties of the walk

  lemma {:induction false} WalkUpToReadsPrefix(rw1: seq<string>, rw2: seq<string>, correctWords: seq<string>, lookup: Table, k: nat)
    requires k <= |rw1| && k <= |rw2| && k <= |correctWords|
    requires rw1[..k] == rw2[..k]
    ensures WalkUpTo(rw1, correctWords, lookup, k) == WalkUpTo(rw2, correctWords, lookup, k)
  {
    if k > 0 {
      assert rw1[..k - 1] == rw2[..k - 1];
      assert rw1[k - 1] == rw1[..k][k - 1];
      WalkUpToReadsPrefix(rw1, rw2, correctWords, lookup, k - 1);
    }
  }

  /** Response words past the last examined position are never looked at. */
  lemma ExtraWordsIgnored(respWords: seq<string>, extra: seq<string>, correctWords: seq<string>, lookup: Table)
    requires |correctWords| >= 1
    requires |respWords| >= |correctWords| - 1
    ensures WalkOf(respWords + extra, correctWords, lookup) == WalkOf(respWords, correctWords, lookup)
  {
    var k := |correctWords| - 1;
    assert (respWords + extra)[..k] == respWords[..k];
    WalkUpToReadsPrefix(respWords + extra, respWords, correctWords, lookup, k);
  }

  /**
   * The last expected word is never checked: a response that gets every
   * code-word right but the last is judged incorrect, yet the walk reports
   * nothing.
   */
  lemma WrongLastWordUnreported(word: string, resp: string, lookup: Table, x: string)
    requires forall v :: v in lookup.Values ==> ' ' !in v
    requires var cws := Codewords(word, lookup);
      && cws != []
      && ' ' !in x && x != cws[|cws| - 1]
      && Lower(resp) == Join(cws[..|cws| - 1] + [x], ' ')
    ensures !IsCorrect(word, resp, lookup)
    ensures WalkOf(Split(Lower(resp), ' '), Split(Answer(word, lookup), ' '), lookup) == Finished([])
  {
    var cws := Codewords(word, lookup);
    var given := cws[..|cws| - 1] + [x];
    SplitJoin(given, ' ');
    AnswerParts(word, lookup);
    assert given != cws by {
      assert given[|cws| - 1] != cws[|cws| - 1];
    }
    var n := Examined(given, cws);
    FlaggedBelowExactly(given, cws, n);
    WalkReportsFlagged(given, cws, lookup, n);
    assert forall j :: 0 <= j < n ==> given[j] == cws[j];
    assert FlaggedBelow(given, cws, n) == [];
  }

  /** A doubled space splits into an empty piece between its neighbours. */
  lemma SplitDoubledSpace(a: string, b: string)
    requires ' ' !in a && ' ' !in b
    ensures Split(a + "  " + b, ' ') == [a, "", b]
  {
    assert a + "  " + b == a + [' '] + ("" + [' '] + b);
    SplitAfterPiece(a, "" + [' '] + b, ' ');
    SplitAfterPiece("", b, ' ');
    assert "" + [' '] + b == [' '] + b;
    SplitNoSeparator(b, ' ');
  }

  /**
   * A lower-cased response with a doubled space has an empty word, and the
   * walk stops with `IndexError` there, before any report.
   */
  lemma DoubledSpaceStopsWalk(a: string, b: string, c: string, lookup: Table)
    requires b != ""
    requires ' ' !in a && ' ' !in b
    ensures WalkOf(Split(a + "  " + b, ' '), [a, b, c], lookup) == Crashed([], 1)
  {
    SplitDoubledSpace(a, b);
    var rw, cw := [a, "", b], [a, b, c];
    assert WalkUpTo(rw, cw, lookup, 1) == Finished([]);
    assert WalkUpTo(rw, cw, lookup, 2) == Crashed([], 1);
  }
}
