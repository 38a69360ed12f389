/**
 * The word list: the text of `words.csv` split on `'\n'`, the empty pieces
 * dropped, each remaining piece stripped.  The emptiness test looks at the
 * piece before stripping, so a whitespace-only line becomes an empty word.
 */
module WordList {
  import opened Text

  /** The positions before `n` of the pieces that are not empty, in increasing order. */
  function NonEmptyPositions(pieces: seq<string>, n: nat): (ix: seq<nat>)
    requires n <= |pieces|
    ensures forall j :: 0 <= j < |ix| ==> ix[j] < n
  {
    if n == 0 then []
    else NonEmptyPositions(pieces, n - 1) + (if pieces[n - 1] != "" then [n - 1] else [])
  }

  /** The positions are exactly those of the non-empty pieces, each once and in increasing order. */
  lemma NonEmptyPositionsExactly(pieces: seq<string>, n: nat)
    requires n <= |pieces|
    ensures var ix := NonEmptyPositions(pieces, n);
      && (forall j :: 0 <= j < |ix| ==> pieces[ix[j]] != "")
      && (forall i :: 0 <= i < n && pieces[i] != "" ==> i in ix)
      && (forall a, b :: 0 <= a < b < |ix| ==> ix[a] < ix[b])
  {
    NonEmptyPositionsNonEmpty(pieces, n);
    NonEmptyPositionsComplete(pieces, n);
    NonEmptyPositionsIncreasing(pieces, n);
  }

  lemma {:induction false} NonEmptyPositionsNonEmpty(pieces: seq<string>, n: nat)
    requires n <= |pieces|
    ensures forall j :: 0 <= j < |NonEmptyPositions(pieces, n)| ==>
      pieces[NonEmptyPositions(pieces, n)[j]] != ""
  {
    if n > 0 {
      NonEmptyPositionsNonEmpty(pieces, n - 1);
      var ix0 := NonEmptyPositions(pieces, n - 1);
      if pieces[n - 1] != "" {
        var ix := ix0 + [n - 1];
        assert NonEmptyPositions(pieces, n) == ix;
        forall j | 0 <= j < |ix|
          ensures pieces[ix[j]] != ""
        {
          if j < |ix0| {
            assert ix[j] == ix0[j];
          } else {
            assert ix[j] == n - 1;
          }
        }
      } else {
        assert NonEmptyPositions(pieces, n) == ix0 + [] == ix0;
      }
    }
  }

  lemma {:induction false} NonEmptyPositionsComplete(pieces: seq<string>, n: nat)
    requires n <= |pieces|
    ensures forall i :: 0 <= i < n && pieces[i] != "" ==> i in NonEmptyPositions(pieces, n)
  {
    if n > 0 {
      NonEmptyPositionsComplete(pieces, n - 1);
      var ix0 := NonEmptyPositions(pieces, n - 1);
      if pieces[n - 1] != "" {
        var ix := ix0 + [n - 1];
        assert NonEmptyPositions(pieces, n) == ix;
        forall i | 0 <= i < n && pieces[i] != ""
          ensures i in ix
        {
          if i < n - 1 {
            assert i in ix0;
          } else {
            assert ix[|ix0|] == i;
          }
        }
      } else {
        assert NonEmptyPositions(pieces, n) == ix0 + [] == ix0;
      }
    }
  }

  lemma {:induction false} NonEmptyPositionsIncreasing(pieces: seq<string>, n: nat)
    requires n <= |pieces|
    ensures forall a, b :: 0 <= a < b < |NonEmptyPositions(pieces, n)| ==>
      NonEmptyPositions(pieces, n)[a] < NonEmptyPositions(pieces, n)[b]
  {
    if n > 0 {
      NonEmptyPositionsIncreasing(pieces, n - 1);
      var ix0 := NonEmptyPositions(pieces, n - 1);
      if pieces[n - 1] != "" {
        var ix := ix0 + [n - 1];
        assert NonEmptyPositions(pieces, n) == ix;
        forall a, b | 0 <= a < b < |ix|
          ensures ix[a] < ix[b]
        {
          assert ix[a] == ix0[a] < n - 1;
          if b < |ix0| {
            assert ix[b] == ix0[b];
          } else {
            assert ix[b] == n - 1;
          }
        }
      } else {
        assert NonEmptyPositions(pieces, n) == ix0 + [] == ix0;
      }
    }
  }

  /** `[w.strip() for w in pieces if w != '']` */
  function StripNonEmpty(pieces: seq<string>): (words: seq<string>)
    ensures |words| <= |pieces|
  {
    if pieces == [] then []
    else
      var last := pieces[|pieces| - 1];
      StripNonEmpty(pieces[..|pieces| - 1]) + (if last != "" then [Strip(last)] else [])
  }

  /** The words of the file's text. */
  function ParseWords(text: string): (words: seq<string>)
    ensures |words| <= |Split(text, '\n')|
  {
    StripNonEmpty(Split(text, '\n'))
  }

  /** The words of the first `n` pieces are the stripped non-empty pieces, position by position. */
  lemma {:induction false} StripNonEmptyAt(pieces: seq<string>, n: nat)
    requires n <= |pieces|
    ensures |StripNonEmpty(pieces[..n])| == |NonEmptyPositions(pieces, n)|
    ensures forall k :: 0 <= k < |StripNonEmpty(pieces[..n])| ==>
      StripNonEmpty(pieces[..n])[k] == Strip(pieces[NonEmptyPositions(pieces, n)[k]])
  {
    if n > 0 {
      StripNonEmptyAt(pieces, n - 1);
      var line := pieces[n - 1];
      var words0 := StripNonEmpty(pieces[..n - 1]);
      var ix0 := NonEmptyPositions(pieces, n - 1);
      assert pieces[..n] == pieces[..n - 1] + [line];
      StripNonEmptySnoc(pieces[..n - 1], line);
      if line != "" {
        var words, ix := words0 + [Strip(line)], ix0 + [n - 1];
        assert StripNonEmpty(pieces[..n]) == words;
        assert NonEmptyPositions(pieces, n) == ix;
        forall k | 0 <= k < |words|
          ensures words[k] == Strip(pieces[ix[k]])
        {
          if k < |words0| {
            assert words[k] == words0[k] && ix[k] == ix0[k];
          } else {
            assert words[k] == Strip(line) && ix[k] == n - 1;
          }
        }
      } else {
        assert StripNonEmpty(pieces[..n]) == words0 + [] == words0;
        assert NonEmptyPositions(pieces, n) == ix0 + [] == ix0;
      }
    }
  }

  /**
   * Every word is the stripped form of a line that was not empty before
   * stripping, the words keep the order of their lines, and every such
   * line gives a word.
   */
  lemma WordsComeFromNonEmptyLines(text: string)
    ensures var lines := Split(text, '\n');
      var ix := NonEmptyPositions(lines, |lines|);
      var words := ParseWords(text);
      && |words| == |ix| <= |lines|
      && (forall k :: 0 <= k < |words| ==> lines[ix[k]] != "" && words[k] == Strip(lines[ix[k]]))
      && (forall i :: 0 <= i < |lines| && lines[i] != "" ==> i in ix)
      && (forall a, b :: 0 <= a < b < |ix| ==> ix[a] < ix[b])
  {
    var lines := Split(text, '\n');
    StripNonEmptyAt(lines, |lines|);
    NonEmptyPositionsExactly(lines, |lines|);
    assert lines[..|lines|] == lines;
  }

  /** Parsing a text made of lines works line by line. */
  lemma ParseWordsOfLines(lines: seq<string>)
    requires |lines| >= 1
    requires forall k :: 0 <= k < |lines| ==> '\n' !in lines[k]
    ensures ParseWords(Join(lines, '\n')) == StripNonEmpty(lines)
  {
    SplitJoin(lines, '\n');
  }

  lemma StripNonEmptySnoc(pieces: seq<string>, line: string)
    ensures StripNonEmpty(pieces + [line])
      == StripNonEmpty(pieces) + (if line != "" then [Strip(line)] else [])
  {
    assert (pieces + [line])[..|pieces|] == pieces;
  }

  /** Words of consecutive blocks of lines come out block by block. */
  lemma {:induction false} StripNonEmptyAppend(a: seq<string>, b: seq<string>)
    ensures StripNonEmpty(a + b) == StripNonEmpty(a) + StripNonEmpty(b)
  {
    if b == [] {
      assert a + b == a;
    } else {
      var front, last := b[..|b| - 1], b[|b| - 1];
      assert b == front + [last];
      assert a + b == (a + front) + [last];
      StripNonEmptyAppend(a, front);
      StripNonEmptySnoc(a + front, last);
      StripNonEmptySnoc(front, last);
    }
  }

  /** An empty line is dropped, but a line of blanks becomes the empty word. */
  lemma BlankLines(blanks: string)
    requires |blanks| >= 1 && AllSpace(blanks)
    ensures StripNonEmpty([""]) == []
    ensures StripNonEmpty([blanks]) == [""]
  {
    assert blanks == [] + [] + blanks;
    StripExact([], [], blanks);
  }

  /** A line that is a word already: not empty, no newline, no whitespace at either end. */
  predicate IsPlainLine(w: string)
  {
    && w != []
    && '\n' !in w
    && !IsSpace(w[0]) && !IsSpace(w[|w| - 1])
  }

  lemma StripPlain(w: string)
    requires IsPlainLine(w)
    ensures Strip(w) == w
  {
    assert [] + w + [] == w;
    StripExact([], w, []);
  }

  /** An empty line, and the empty piece after a final newline, give no word. */
  lemma EmptyLinesDropped(a: string, b: string)
    requires IsPlainLine(a) && IsPlainLine(b)
    ensures ParseWords(a + "\n\n" + b + "\n") == [a, b]
  {
    var lines := [a, "", b, ""];
    JoinEmptyLines(a, b);
    ParseWordsOfLines(lines);
    EmptyLinesDroppedLines(a, b);
  }

  lemma JoinEmptyLines(a: string, b: string)
    ensures Join([a, "", b, ""], '\n') == a + "\n\n" + b + "\n"
  {
    var lines := [a, "", b, ""];
    assert Join(lines[3..], '\n') == "";
    assert Join(lines[2..], '\n') == b + "\n";
    assert Join(lines[1..], '\n') == "\n" + b + "\n";
  }

  lemma EmptyLinesDroppedLines(a: string, b: string)
    requires IsPlainLine(a) && IsPlainLine(b)
    ensures StripNonEmpty([a, "", b, ""]) == [a, b]
  {
    var l1 := [a];
    var l2 := l1 + [""];
    var l3 := l2 + [b];
    assert l3 + [""] == [a, "", b, ""];
    StripPlain(a);
    StripPlain(b);
    StripNonEmptySnoc([], a);
    assert [] + [a] == l1;
    StripNonEmptySnoc(l1, "");
    StripNonEmptySnoc(l2, b);
    StripNonEmptySnoc(l3, "");
  }

  /** A line holding only whitespace is not empty before stripping, so it gives an empty word. */
  lemma BlankLineGivesEmptyWord(a: string, blanks: string, b: string)
    requires IsPlainLine(a) && IsPlainLine(b)
    requires |blanks| >= 1 && AllSpace(blanks) && '\n' !in blanks
    ensures ParseWords(a + "\n" + blanks + "\n" + b) == [a, "", b]
  {
    var lines := [a, blanks, b];
    JoinBlankLine(a, blanks, b);
    ParseWordsOfLines(lines);
    BlankLineLines(a, blanks, b);
  }

  lemma JoinBlankLine(a: string, blanks: string, b: string)
    ensures Join([a, blanks, b], '\n') == a + "\n" + blanks + "\n" + b
  {
    var lines := [a, blanks, b];
    assert Join(lines[2..], '\n') == b;
    assert Join(lines[1..], '\n') == blanks + "\n" + b;
  }

  lemma BlankLineLines(a: string, blanks: string, b: string)
    requires IsPlainLine(a) && IsPlainLine(b)
    requires |blanks| >= 1 && AllSpace(blanks)
    ensures StripNonEmpty([a, blanks, b]) == [a, "", b]
  {
    var l1 := [a];
    var l2 := l1 + [blanks];
    assert l2 + [b] == [a, blanks, b];
    StripPlain(a);
    StripPlain(b);
    assert blanks == [] + [] + blanks;
    StripExact([], [], blanks);
    StripNonEmptySnoc([], a);
    assert [] + [a] == l1;
    StripNonEmptySnoc(l1, blanks);
    StripNonEmptySnoc(l2, b);
  }
}
