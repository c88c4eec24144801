/**
 * The greedy word wrap of `create_meme`: words are added to the last line
 * while the line still fits, and a word that would not fit starts a new
 * line.
 */
module WordWrap {
  import opened PyStr

  /** The end of the `j`-th line when lines start at the word indices `breaks` and `n` words are laid out. */
  function SpanEnd(breaks: seq<nat>, n: nat, j: nat): nat
    requires j < |breaks|
  {
    if j + 1 < |breaks| then breaks[j + 1] else n
  }

  /** `breaks` are the first words of the lines: the first is word 0, they increase, and all are among the `n` words. */
  predicate ValidBreaks(breaks: seq<nat>, n: nat) {
    && |breaks| >= 1
    && breaks[0] == 0
    && (forall j :: 0 <= j < |breaks| ==> breaks[j] < n)
    && (forall i, j :: 0 <= i < j < |breaks| ==> breaks[i] < breaks[j])
  }

  /** The line made of the words `a` up to `e`, joined by single spaces. */
  function Line(words: seq<string>, a: nat, e: nat): string
    requires a <= e <= |words|
  {
    Join(words[a..e], " ")
  }

  /** The lines that `breaks` cut the first `n` words into. */
  function LinesAt(words: seq<string>, breaks: seq<nat>, n: nat): (lines: seq<string>)
    requires ValidBreaks(breaks, n) && n <= |words|
    ensures |lines| == |breaks|
    ensures forall j {:trigger lines[j]} :: 0 <= j < |breaks| ==> lines[j] == Line(words, breaks[j], SpanEnd(breaks, n, j))
  {
    seq(|breaks|, j requires 0 <= j < |breaks| => Line(words, breaks[j], SpanEnd(breaks, n, j)))
  }

  /**
   * `breaks` is what the greedy wrap does with the first `n` words: a word
   * joined a line only if the line with it still fits, and a line was ended
   * only because its next word would not have fitted on it.
   */
  ghost predicate Greedy(words: seq<string>, fits: string -> bool, breaks: seq<nat>, n: nat) {
    && ValidBreaks(breaks, n)
    && n <= |words|
    && (forall j, e :: 0 <= j < |breaks| && breaks[j] + 1 < e <= SpanEnd(breaks, n, j) ==>
          fits(Line(words, breaks[j], e)))
    && (forall j :: 0 < j < |breaks| ==> !fits(Line(words, breaks[j - 1], breaks[j] + 1)))
  }

  /** A line with one more word is the line, a space and the word. */
  lemma JoinSnoc(words: seq<string>, b: nat, i: nat)
    requires b < i < |words|
    ensures Line(words, b, i + 1) == Line(words, b, i) + " " + words[i]
  {
    assert words[b..i + 1][..i - b] == words[b..i];
  }

  /** Adding the word `i` to the last line keeps the wrap greedy when the longer line fits. */
  lemma ExtendLine(words: seq<string>, fits: string -> bool, breaks: seq<nat>, i: nat)
    requires Greedy(words, fits, breaks, i) && i < |words|
    requires fits(Line(words, breaks[|breaks| - 1], i + 1))
    ensures Greedy(words, fits, breaks, i + 1)
  {
    var last := |breaks| - 1;
    forall j, e | 0 <= j < |breaks| && breaks[j] + 1 < e <= SpanEnd(breaks, i + 1, j)
      ensures fits(Line(words, breaks[j], e))
    {
      if j < last || e <= i {
        assert breaks[j] + 1 < e <= SpanEnd(breaks, i, j);
      }
    }
  }

  /** Adding the word `i` to the last line changes that line and no other. */
  lemma ExtendLines(words: seq<string>, breaks: seq<nat>, i: nat)
    requires ValidBreaks(breaks, i) && i < |words|
    ensures LinesAt(words, breaks, i + 1) ==
      LinesAt(words, breaks, i)[|breaks| - 1 := Line(words, breaks[|breaks| - 1], i + 1)]
  {
    var last := |breaks| - 1;
    var before := LinesAt(words, breaks, i);
    var a := LinesAt(words, breaks, i + 1);
    var b := before[last := Line(words, breaks[last], i + 1)];
    assert |a| == |b|;
    forall j | 0 <= j < |a|
      ensures a[j] == b[j]
    {
      if j < last {
        assert SpanEnd(breaks, i + 1, j) == SpanEnd(breaks, i, j);
        assert b[j] == before[j];
      }
    }
  }

  /** Starting a line at word `i`. */
  lemma ValidBreaksSnoc(breaks: seq<nat>, i: nat)
    requires ValidBreaks(breaks, i)
    ensures ValidBreaks(breaks + [i], i + 1)
  {
  }

  /** A line of one word is that word. */
  lemma LineSingle(words: seq<string>, i: nat)
    requires i < |words|
    ensures Line(words, i, i + 1) == words[i]
  {
    assert words[i..i + 1] == [words[i]];
  }

  /** Starting a new line at word `i` keeps the wrap greedy when the last line with it would not fit. */
  lemma BreakLine(words: seq<string>, fits: string -> bool, breaks: seq<nat>, i: nat)
    requires Greedy(words, fits, breaks, i) && i < |words|
    requires !fits(Line(words, breaks[|breaks| - 1], i + 1))
    ensures Greedy(words, fits, breaks + [i], i + 1)
  {
    ValidBreaksSnoc(breaks, i);
    BreakLineFits(words, fits, breaks, i);
    BreakLineEnds(words, fits, breaks, i);
  }

  /** The lines before the new one keep their words, so they still fit. */
  lemma BreakLineFits(words: seq<string>, fits: string -> bool, breaks: seq<nat>, i: nat)
    requires Greedy(words, fits, breaks, i) && i < |words|
    ensures var b := breaks + [i];
      forall j, e :: 0 <= j < |b| && b[j] + 1 < e <= SpanEnd(b, i + 1, j) ==> fits(Line(words, b[j], e))
  {
    var b := breaks + [i];
    forall j, e | 0 <= j < |b| && b[j] + 1 < e <= SpanEnd(b, i + 1, j)
      ensures fits(Line(words, b[j], e))
    {
      assert j < |breaks|;
      assert b[j] == breaks[j] && SpanEnd(b, i + 1, j) == SpanEnd(breaks, i, j);
    }
  }

  /** The new line starts because the word `i` did not fit on the last line; earlier lines ended as before. */
  lemma BreakLineEnds(words: seq<string>, fits: string -> bool, breaks: seq<nat>, i: nat)
    requires Greedy(words, fits, breaks, i) && i < |words|
    requires !fits(Line(words, breaks[|breaks| - 1], i + 1))
    ensures var b := breaks + [i];
      forall j :: 0 < j < |b| ==> !fits(Line(words, b[j - 1], b[j] + 1))
  {
    var b := breaks + [i];
    forall j | 0 < j < |b|
      ensures !fits(Line(words, b[j - 1], b[j] + 1))
    {
      if j < |breaks| {
        assert b[j - 1] == breaks[j - 1] && b[j] == breaks[j];
      }
    }
  }

  /** Starting a new line at word `i` appends a line holding only that word. */
  lemma BreakLines(words: seq<string>, breaks: seq<nat>, i: nat)
    requires ValidBreaks(breaks, i) && i < |words|
    ensures ValidBreaks(breaks + [i], i + 1)
    ensures LinesAt(words, breaks + [i], i + 1) == LinesAt(words, breaks, i) + [words[i]]
  {
    var nb := breaks + [i];
    ValidBreaksSnoc(breaks, i);
    LineSingle(words, i);
    var a := LinesAt(words, nb, i + 1);
    var b := LinesAt(words, breaks, i) + [words[i]];
    forall j | 0 <= j < |a|
      ensures a[j] == b[j]
    {
      if j < |breaks| {
        assert SpanEnd(nb, i + 1, j) == SpanEnd(breaks, i, j);
      }
    }
  }

  /** `(lines[-1] + ' ' + word).rstrip()` is the last line with the word `i` added: a word does not end in whitespace. */
  lemma ExtendedLine(words: seq<string>, breaks: seq<nat>, lines: seq<string>, i: nat)
    requires ValidBreaks(breaks, i) && i < |words| && IsWord(words[i])
    requires lines == LinesAt(words, breaks, i)
    ensures RStrip(lines[|lines| - 1] + " " + words[i], IsSpace) == Line(words, breaks[|breaks| - 1], i + 1)
  {
    var b := breaks[|breaks| - 1];
    JoinSnoc(words, b, i);
    var extended := lines[|lines| - 1] + " " + words[i];
    assert extended[|extended| - 1] == words[i][|words[i]| - 1];
    RStripKeeps(extended, IsSpace);
  }

  /** A string whose last character is not dropped survives `rstrip`. */
  lemma RStripKeeps(s: string, drop: char -> bool)
    requires s != [] && !drop(s[|s| - 1])
    ensures RStrip(s, drop) == s
  {
  }

  /** The word-wrap loop of `create_meme`, deciding with `fits` whether a line still fits the band. */
  method WrapWords(words: seq<string>, fits: string -> bool) returns (lines: seq<string>, ghost breaks: seq<nat>)
    requires words != [] && forall i :: 0 <= i < |words| ==> IsWord(words[i])
    ensures Greedy(words, fits, breaks, |words|)
    ensures lines == LinesAt(words, breaks, |words|)
    ensures Join(lines, " ") == Join(words, " ")
    ensures forall j :: 0 <= j < |lines| ==> lines[j] != ""
  {
    lines := [words[0]];
    breaks := [0];
    LineSingle(words, 0);
    var i := 1;
    while i < |words|
      invariant 1 <= i <= |words|
      invariant Greedy(words, fits, breaks, i)
      invariant lines == LinesAt(words, breaks, i)
    {
      var word := words[i];
      ExtendedLine(words, breaks, lines, i);
      var newLine := RStrip(lines[|lines| - 1] + " " + word, IsSpace);
      if !fits(newLine) {
        BreakLine(words, fits, breaks, i);
        BreakLines(words, breaks, i);
        lines := lines + [word];
        breaks := breaks + [i];
      } else {
        ExtendLine(words, fits, breaks, i);
        ExtendLines(words, breaks, i);
        lines := lines[|lines| - 1 := newLine];
      }
      i := i + 1;
    }
    WrappedLines(words, breaks);
  }

  /** The lines of a cutting of all the words are non-empty and join back to the words. */
  lemma WrappedLines(words: seq<string>, breaks: seq<nat>)
    requires ValidBreaks(breaks, |words|) && forall i :: 0 <= i < |words| ==> IsWord(words[i])
    ensures Join(LinesAt(words, breaks, |words|), " ") == Join(words, " ")
    ensures forall j :: 0 <= j < |breaks| ==> LinesAt(words, breaks, |words|)[j] != ""
  {
    LinesJoinBack(words, breaks, |words|);
    assert words[..|words|] == words;
    LinesNonEmpty(words, breaks);
  }

  /** Every line of a cutting of all the words holds at least one word, so it is not empty. */
  lemma LinesNonEmpty(words: seq<string>, breaks: seq<nat>)
    requires ValidBreaks(breaks, |words|) && forall i :: 0 <= i < |words| ==> IsWord(words[i])
    ensures forall j :: 0 <= j < |breaks| ==> LinesAt(words, breaks, |words|)[j] != ""
  {
    var lines := LinesAt(words, breaks, |words|);
    forall j | 0 <= j < |breaks|
      ensures lines[j] != ""
    {
      LineNonEmpty(words, breaks[j], SpanEnd(breaks, |words|, j));
    }
  }

  /** A line of at least one word is not empty. */
  lemma LineNonEmpty(words: seq<string>, a: nat, e: nat)
    requires a < e <= |words| && forall i :: 0 <= i < |words| ==> IsWord(words[i])
    ensures Line(words, a, e) != ""
  {
    var span := words[a..e];
    assert forall k :: 0 <= k < |span| ==> span[k] == words[a + k];
    JoinNonEmpty(span, " ");
  }

  /** Without its last line, a cutting is a cutting of the words before that line. */
  lemma LinesAtInit(words: seq<string>, breaks: seq<nat>, n: nat)
    requires ValidBreaks(breaks, n) && n <= |words| && |breaks| > 1
    ensures 0 < breaks[|breaks| - 1] < n
    ensures ValidBreaks(breaks[..|breaks| - 1], breaks[|breaks| - 1])
    ensures LinesAt(words, breaks, n)[..|breaks| - 1] == LinesAt(words, breaks[..|breaks| - 1], breaks[|breaks| - 1])
  {
    var init := breaks[..|breaks| - 1];
    var b := breaks[|breaks| - 1];
    assert breaks[0] < b;
    assert ValidBreaks(init, b);
    var lines := LinesAt(words, breaks, n);
    forall j | 0 <= j < |init|
      ensures lines[j] == LinesAt(words, init, b)[j]
    {
      assert SpanEnd(breaks, n, j) == SpanEnd(init, b, j);
    }
  }

  /** The words before `b`, a space, and the line from `b` to `n` are the first `n` words joined. */
  lemma JoinAt(words: seq<string>, b: nat, n: nat)
    requires 0 < b < n <= |words|
    ensures Join(words[..b], " ") + " " + Line(words, b, n) == Join(words[..n], " ")
  {
    JoinConcat(words[..b], words[b..n], " ");
    assert words[..b] + words[b..n] == words[..n];
  }

  /** Joining the lines with single spaces gives the words joined with single spaces. */
  lemma {:induction false} LinesJoinBack(words: seq<string>, breaks: seq<nat>, n: nat)
    requires ValidBreaks(breaks, n) && n <= |words|
    ensures Join(LinesAt(words, breaks, n), " ") == Join(words[..n], " ")
    decreases |breaks|
  {
    var lines := LinesAt(words, breaks, n);
    if |breaks| == 1 {
      assert words[0..n] == words[..n];
    } else {
      var init := breaks[..|breaks| - 1];
      var b := breaks[|breaks| - 1];
      LinesAtInit(words, breaks, n);
      LinesJoinBack(words, init, b);
      JoinAt(words, b, n);
    }
  }

  /** Two ways of cutting the words that are both greedy are the same: the greedy wrap is determined by `fits`. */
  lemma GreedyUnique(words: seq<string>, fits: string -> bool, b1: seq<nat>, b2: seq<nat>, n: nat)
    requires Greedy(words, fits, b1, n) && Greedy(words, fits, b2, n)
    ensures b1 == b2
  {
    var j := 0;
    while j + 1 < |b1| && j + 1 < |b2| && b1[j + 1] == b2[j + 1]
      invariant 0 <= j < |b1| && j < |b2|
      invariant forall i :: 0 <= i <= j ==> b1[i] == b2[i]
      decreases |b1| - j
    {
      j := j + 1;
    }
    NextBreakNotEarlier(words, fits, b1, b2, n, j);
    NextBreakNotEarlier(words, fits, b2, b1, n, j);
  }

  /** Where two greedy cuttings start line `j` at the same word and differ after it, `b1` cannot end that line earlier than `b2`. */
  lemma NextBreakNotEarlier(words: seq<string>, fits: string -> bool, b1: seq<nat>, b2: seq<nat>, n: nat, j: nat)
    requires Greedy(words, fits, b1, n) && Greedy(words, fits, b2, n)
    requires j < |b1| && j < |b2| && b1[j] == b2[j]
    requires j + 1 < |b1| && j + 1 < |b2| ==> b1[j + 1] != b2[j + 1]
    ensures j + 1 < |b1| ==> j + 1 < |b2| && b1[j + 1] > b2[j + 1]
  {
    if j + 1 < |b1| {
      assert !fits(Line(words, b1[j], b1[j + 1] + 1));
    }
  }
}
