/**
 * `parse_meme`: one `re.search` with the pattern
 *
 *     Meme Text: ("(.*?)"|(.*?))\n*\s*Image Prompt: (.*?)$
 *
 * under `re.DOTALL` (so `.` is any character), then group 2 when it took part
 * in the match, else group 3, as the caption, and group 4 as the image prompt.
 *
 * The regular expression is modelled twice: `IsMatch` and `Precedes` say which
 * ways the pattern can match a message and in which order a backtracking
 * matcher tries them; `Search` computes the match, and `ParseMeme`'s contract
 * ties the two together: the parse is the groups of the first match there is.
 */
module ResponseParser {
  import opened Results
  import opened PyStr

  const MemeLabel: string := "Meme Text: "
  const PromptLabel: string := "Image Prompt: "

  /** The dictionary `{"meme_text": ..., "image_prompt": ...}`. */
  datatype Meme = Meme(memeText: string, imagePrompt: string)

  /**
   * One way the pattern can match: where "Meme Text: " starts, which
   * alternative took the caption, where the caption ends (the closing quote
   * for the quoted alternative), where "Image Prompt: " starts and where
   * group 4 ends.
   */
  datatype RegexMatch = RegexMatch(start: nat, quoted: bool, captionEnd: nat, labelAt: nat, promptEnd: nat)
  {
    function CaptionStart(): nat { start + |MemeLabel| + (if quoted then 1 else 0) }
    function GapStart(): nat { captionEnd + (if quoted then 1 else 0) }
    function PromptStart(): nat { labelAt + |PromptLabel| }
  }

  /** `m[a..b]` is whitespace only. */
  predicate AllSpace(m: string, a: int, b: int)
    decreases b - a
  {
    0 <= a <= b <= |m| && (a == b || (IsSpace(m[a]) && AllSpace(m, a + 1, b)))
  }

  /** `$` without `re.MULTILINE`: the end of the string, or just before a newline that ends it. */
  predicate DollarAt(m: string, e: int) {
    e == |m| || (0 <= e == |m| - 1 && m[e] == '\n')
  }

  /**
   * `x` is a way the pattern matches `m`. `\n*\s*` matches exactly the
   * strings of whitespace (a newline is whitespace), so the gap is any
   * whitespace run; how it splits between the two parts changes no group.
   */
  ghost predicate IsMatch(m: string, x: RegexMatch) {
    && StartsAt(m, MemeLabel, x.start)
    && (x.quoted ==>
          x.start + |MemeLabel| < |m| && m[x.start + |MemeLabel|] == '"'
          && x.captionEnd < |m| && m[x.captionEnd] == '"')
    && x.CaptionStart() <= x.captionEnd
    && AllSpace(m, x.GapStart(), x.labelAt)
    && StartsAt(m, PromptLabel, x.labelAt)
    && x.PromptStart() <= x.promptEnd
    && DollarAt(m, x.promptEnd)
  }

  /**
   * `x` is tried before `y` by the backtracking matcher: an earlier start
   * first; then the quoted alternative before the unquoted one; then, both
   * captions being lazy, the shorter caption; then the shorter (lazy) group 4.
   * Two matches that agree up to the caption also agree on the gap
   * (`LabelUnique`), so this orders any two different matches.
   */
  ghost predicate Precedes(x: RegexMatch, y: RegexMatch) {
    || x.start < y.start
    || (x.start == y.start && x.quoted && !y.quoted)
    || (x.start == y.start && x.quoted == y.quoted && x.captionEnd < y.captionEnd)
    || (x.start == y.start && x.quoted == y.quoted && x.captionEnd == y.captionEnd && x.promptEnd < y.promptEnd)
  }

  // ---------------------------------------------------------------- the matcher

  /** The end of the whitespace run that starts at `p` (greedy `\n*\s*`). */
  function GapEnd(m: string, p: nat): (q: nat)
    requires p <= |m|
    ensures AllSpace(m, p, q)
    ensures q < |m| ==> !IsSpace(m[q])
    decreases |m| - p
  {
    if p < |m| && IsSpace(m[p]) then GapEnd(m, p + 1) else p
  }

  /** `\n*\s*Image Prompt: ` tried at `p`: where the label starts, if it matches. */
  function LabelAfter(m: string, p: nat): (r: Option<nat>)
    requires p <= |m|
    ensures r.Some? ==> AllSpace(m, p, r.value) && StartsAt(m, PromptLabel, r.value)
  {
    var q := GapEnd(m, p);
    if StartsAt(m, PromptLabel, q) then Some(q) else None
  }

  /** Lazy `(.*?)$` from `r`: the first position at or after `r` where `$` holds. */
  function LazyEnd(m: string, r: nat): (e: nat)
    requires r <= |m|
    ensures r <= e && DollarAt(m, e)
    ensures forall k :: r <= k < e ==> !DollarAt(m, k)
  {
    if r < |m| && m[|m| - 1] == '\n' then |m| - 1 else |m|
  }

  /** A `"` at `k` can close the quoted caption: the rest of the pattern matches after it. */
  predicate QuoteCloses(m: string, k: nat) {
    k < |m| && m[k] == '"' && LabelAfter(m, k + 1).Some?
  }

  /** Lazy `"(.*?)"`: the first closing quote at or after `c`. */
  function FirstClosingQuote(m: string, c: nat): (r: Option<nat>)
    requires c <= |m|
    ensures r.Some? ==> c <= r.value && QuoteCloses(m, r.value)
    ensures forall k :: c <= k < (if r.Some? then r.value else |m|) ==> !QuoteCloses(m, k)
    decreases |m| - c
  {
    if c == |m| then None
    else if QuoteCloses(m, c) then Some(c)
    else FirstClosingQuote(m, c + 1)
  }

  /** Lazy unquoted `(.*?)`: the first position at or after `p` where the rest of the pattern matches. */
  function FirstGap(m: string, p: nat): (r: Option<nat>)
    requires p <= |m|
    ensures r.Some? ==> p <= r.value <= |m| && LabelAfter(m, r.value).Some?
    ensures forall k :: p <= k <= |m| && (r.None? || k < r.value) ==> LabelAfter(m, k).None?
    decreases |m| - p
  {
    if LabelAfter(m, p).Some? then Some(p)
    else if p == |m| then None
    else FirstGap(m, p + 1)
  }

  /** The quoted alternative `"(.*?)"` tried with "Meme Text: " at `i`. */
  function QuotedAlternative(m: string, i: nat): (r: Option<RegexMatch>)
    requires StartsAt(m, MemeLabel, i)
    ensures r.Some? ==> IsMatch(m, r.value) && r.value.start == i && r.value.quoted
    ensures r.Some? ==> r.value.promptEnd == LazyEnd(m, r.value.PromptStart())
  {
    var j := i + |MemeLabel|;
    if j < |m| && m[j] == '"' then
      match FirstClosingQuote(m, j + 1)
      case None => None
      case Some(c) =>
        var q := LabelAfter(m, c + 1).value;
        QuotedIsMatch(m, i, c, q);
        Some(RegexMatch(i, true, c, q, LazyEnd(m, q + |PromptLabel|)))
    else None
  }

  /** A closing quote followed by the rest of the pattern completes a quoted match. */
  lemma QuotedIsMatch(m: string, i: nat, c: nat, q: nat)
    requires StartsAt(m, MemeLabel, i)
    requires i + |MemeLabel| < |m| && m[i + |MemeLabel|] == '"'
    requires i + |MemeLabel| + 1 <= c && QuoteCloses(m, c) && LabelAfter(m, c + 1) == Some(q)
    ensures IsMatch(m, RegexMatch(i, true, c, q, LazyEnd(m, q + |PromptLabel|)))
  {
  }

  /** The unquoted alternative `(.*?)` tried with "Meme Text: " at `i`. */
  function UnquotedAlternative(m: string, i: nat): (r: Option<RegexMatch>)
    requires StartsAt(m, MemeLabel, i)
    ensures r.Some? ==> IsMatch(m, r.value) && r.value.start == i && !r.value.quoted
    ensures r.Some? ==> r.value.promptEnd == LazyEnd(m, r.value.PromptStart())
    ensures r.Some? ==> FirstGap(m, r.value.CaptionStart()) == Some(r.value.captionEnd)
  {
    match FirstGap(m, i + |MemeLabel|)
    case None => None
    case Some(p) =>
      var q := LabelAfter(m, p).value;
      Some(RegexMatch(i, false, p, q, LazyEnd(m, q + |PromptLabel|)))
  }

  /** The pattern tried with "Meme Text: " at `i`: the quoted alternative first, then the unquoted one. */
  function MatchAt(m: string, i: nat): (r: Option<RegexMatch>)
    requires StartsAt(m, MemeLabel, i)
    ensures r.Some? ==> IsMatch(m, r.value) && r.value.start == i
    ensures r.Some? ==> r.value.promptEnd == LazyEnd(m, r.value.PromptStart())
    ensures r.Some? && !r.value.quoted ==> FirstGap(m, r.value.CaptionStart()) == Some(r.value.captionEnd)
  {
    var quoted := QuotedAlternative(m, i);
    if quoted.Some? then quoted else UnquotedAlternative(m, i)
  }

  /** The pattern matches with "Meme Text: " at `k`. */
  predicate MatchesAt(m: string, k: nat) {
    StartsAt(m, MemeLabel, k) && MatchAt(m, k).Some?
  }

  /** `re.search` from position `i` on. */
  function SearchFrom(m: string, i: nat): (r: Option<RegexMatch>)
    requires i <= |m|
    ensures r.Some? ==> IsMatch(m, r.value) && i <= r.value.start && MatchAt(m, r.value.start) == r
    ensures forall k :: i <= k <= |m| && (r.None? || k < r.value.start) ==> !MatchesAt(m, k)
    decreases |m| - i
  {
    if MatchesAt(m, i) then MatchAt(m, i)
    else if i == |m| then None
    else SearchFrom(m, i + 1)
  }

  /** `re.search(pattern, m, re.DOTALL)`. */
  function Search(m: string): (r: Option<RegexMatch>)
    ensures r.Some? ==> IsMatch(m, r.value) && MatchAt(m, r.value.start) == r
    ensures forall k :: 0 <= k <= |m| && (r.None? || k < r.value.start) ==> !MatchesAt(m, k)
  {
    SearchFrom(m, 0)
  }

  /** The caption (group 2 or group 3, whichever took part) and group 4 of a match. */
  function Groups(m: string, x: RegexMatch): Meme
    requires x.CaptionStart() <= x.captionEnd <= |m|
    requires x.PromptStart() <= x.promptEnd <= |m|
  {
    Meme(m[x.CaptionStart()..x.captionEnd], m[x.PromptStart()..x.promptEnd])
  }

  /** `parse_meme(message)`: the groups of the first match, or `None` when the pattern does not match. */
  function ParseMeme(message: string): (r: Option<Meme>)
    ensures r.Some? <==> Search(message).Some?
    ensures r.Some? ==> |MemeLabel| + |r.value.memeText| + |PromptLabel| + |r.value.imagePrompt| <= |message|
  {
    match Search(message)
    case None => None
    case Some(x) => Some(Groups(message, x))
  }

  /** `x` matches and is tried before every other match. */
  ghost predicate FirstMatch(m: string, x: RegexMatch) {
    && IsMatch(m, x)
    && x.CaptionStart() <= x.captionEnd <= |m| && x.PromptStart() <= x.promptEnd <= |m|
    && forall y :: IsMatch(m, y) && y != x ==> Precedes(x, y)
  }

  // ---------------------------------------------------------------- the matcher meets the semantics

  /** The whitespace run from `p` stops at the latest at a character that is not whitespace. */
  lemma {:induction false} GapEndBound(m: string, p: nat, b: nat)
    requires p <= b < |m| && !IsSpace(m[b])
    ensures GapEnd(m, p) <= b
    decreases b - p
  {
    if p < b && IsSpace(m[p]) {
      GapEndBound(m, p + 1, b);
    }
  }

  /** Only one whitespace run from `p` can be followed by "Image Prompt: ": the greedy one. */
  lemma {:induction false} LabelUnique(m: string, p: nat, q: nat)
    requires AllSpace(m, p, q) && StartsAt(m, PromptLabel, q)
    ensures q == GapEnd(m, p)
    ensures LabelAfter(m, p) == Some(q)
    decreases q - p
  {
    if p == q {
      assert m[q] == PromptLabel[0];
    } else {
      LabelUnique(m, p + 1, q);
    }
  }

  /** A quoted match at `i` makes the quoted alternative succeed, with a caption no longer than its own. */
  lemma QuotedAlternativeFirst(m: string, i: nat, y: RegexMatch)
    requires StartsAt(m, MemeLabel, i) && IsMatch(m, y) && y.start == i && y.quoted
    ensures var x := MatchAt(m, i); x.Some? && x.value.quoted && x.value.captionEnd <= y.captionEnd
  {
    LabelUnique(m, y.GapStart(), y.labelAt);
    assert QuoteCloses(m, y.captionEnd);
    var close := FirstClosingQuote(m, i + |MemeLabel| + 1);
    assert close.Some? && close.value <= y.captionEnd;
  }

  /** An unquoted match at `i` makes the pattern succeed at `i`: quoted, or unquoted with a caption no longer than its own. */
  lemma UnquotedAlternativeFirst(m: string, i: nat, y: RegexMatch)
    requires StartsAt(m, MemeLabel, i) && IsMatch(m, y) && y.start == i && !y.quoted
    ensures var x := MatchAt(m, i); x.Some? && (x.value.quoted || x.value.captionEnd <= y.captionEnd)
  {
    LabelUnique(m, y.GapStart(), y.labelAt);
    assert LabelAfter(m, y.captionEnd).Some?;
    var gap := FirstGap(m, i + |MemeLabel|);
    assert gap.Some? && gap.value <= y.captionEnd;
  }

  /** Two matches that agree up to the end of the caption agree on the label, and the computed one has the shorter group 4. */
  lemma SameCaptionFirst(m: string, x: RegexMatch, y: RegexMatch)
    requires IsMatch(m, x) && x.promptEnd == LazyEnd(m, x.PromptStart()) && IsMatch(m, y)
    requires x.start == y.start && x.quoted == y.quoted && x.captionEnd == y.captionEnd
    ensures x == y || Precedes(x, y)
  {
    LabelUnique(m, x.GapStart(), x.labelAt);
    LabelUnique(m, y.GapStart(), y.labelAt);
    assert x.promptEnd <= y.promptEnd;
  }

  /** The match computed at `i` is tried before every other match that starts at `i`. */
  lemma MatchAtIsFirst(m: string, i: nat, y: RegexMatch)
    requires StartsAt(m, MemeLabel, i) && IsMatch(m, y) && y.start == i
    ensures MatchAt(m, i).Some?
    ensures MatchAt(m, i).value == y || Precedes(MatchAt(m, i).value, y)
  {
    if y.quoted {
      QuotedAlternativeFirst(m, i, y);
    } else {
      UnquotedAlternativeFirst(m, i, y);
    }
    var x := MatchAt(m, i).value;
    if x.quoted == y.quoted && x.captionEnd == y.captionEnd {
      SameCaptionFirst(m, x, y);
    }
  }

  /** `Search` returns the first match there is, and nothing when there is none. */
  lemma SearchIsFirstMatch(m: string)
    ensures Search(m).None? <==> forall y :: !IsMatch(m, y)
    ensures Search(m).Some? ==> FirstMatch(m, Search(m).value)
  {
    forall y | IsMatch(m, y)
      ensures Search(m).Some?
      ensures Search(m).value == y || Precedes(Search(m).value, y)
    {
      MatchAtIsFirst(m, y.start, y);
      assert MatchesAt(m, y.start);
      var x := Search(m).value;
      if x.start == y.start {
        MatchAtIsFirst(m, y.start, y);
      }
    }
  }

  // ---------------------------------------------------------------- properties of parse_meme

  /** `parse_meme` returns `None` exactly when the pattern cannot match, and otherwise the groups of the first match. */
  lemma ParseMemeIsFirstMatch(m: string)
    ensures ParseMeme(m).None? <==> forall y :: !IsMatch(m, y)
    ensures ParseMeme(m).Some? ==> exists x :: FirstMatch(m, x) && ParseMeme(m).value == Groups(m, x)
  {
    SearchIsFirstMatch(m);
  }

  /** There is a parse exactly when some "Meme Text: " is followed, later on, by "Image Prompt: ". */
  lemma ParseMemeSomeIff(m: string)
    ensures ParseMeme(m).Some? <==>
      exists i, q :: StartsAt(m, MemeLabel, i) && i + |MemeLabel| <= q && StartsAt(m, PromptLabel, q)
  {
    SearchIsFirstMatch(m);
    if ParseMeme(m).Some? {
      var x := Search(m).value;
      assert StartsAt(m, MemeLabel, x.start) && x.start + |MemeLabel| <= x.labelAt && StartsAt(m, PromptLabel, x.labelAt);
    }
    if exists i, q :: StartsAt(m, MemeLabel, i) && i + |MemeLabel| <= q && StartsAt(m, PromptLabel, q) {
      var i, q :| StartsAt(m, MemeLabel, i) && i + |MemeLabel| <= q && StartsAt(m, PromptLabel, q);
      var y := RegexMatch(i, false, q, q, LazyEnd(m, q + |PromptLabel|));
      assert IsMatch(m, y);
    }
  }

  /** Whitespace at `p` belongs to the gap that starts at `p`. */
  lemma GapEndStep(m: string, p: nat)
    requires p < |m| && IsSpace(m[p])
    ensures GapEnd(m, p) == GapEnd(m, p + 1)
    ensures LabelAfter(m, p) == LabelAfter(m, p + 1)
  {
  }

  /** `parse_meme` returns the groups of what `re.search` found. */
  lemma ParseMemeOfSearch(m: string)
    ensures Search(m).Some? ==> ParseMeme(m) == Some(Groups(m, Search(m).value))
    ensures Search(m).None? ==> ParseMeme(m).None?
  {
  }

  /** The lazy unquoted group never stops just after whitespace: that whitespace would belong to the gap. */
  lemma FirstGapAfterNoSpace(m: string, c: nat, p: nat, t: string)
    requires c <= |m| && FirstGap(m, c) == Some(p) && t == m[c..p]
    ensures t == [] || !IsSpace(t[|t| - 1])
  {
    if p != c && IsSpace(m[p - 1]) {
      GapEndStep(m, p - 1);
      assert false;
    }
  }

  /** An unquoted caption never ends in whitespace. */
  lemma UnquotedCaptionIsTrimmed(m: string)
    requires Search(m).Some? && !Search(m).value.quoted
    ensures var t := ParseMeme(m).value.memeText; t == [] || !IsSpace(t[|t| - 1])
  {
    var x := Search(m).value;
    ParseMemeOfSearch(m);
    assert FirstGap(m, x.CaptionStart()) == Some(x.captionEnd);
    FirstGapAfterNoSpace(m, x.CaptionStart(), x.captionEnd, ParseMeme(m).value.memeText);
  }

  /** The image prompt is everything after "Image Prompt: ", except one final newline if the message ends with one. */
  lemma PromptIsRestOfMessage(m: string)
    requires Search(m).Some?
    ensures var x := Search(m).value; var prompt := ParseMeme(m).value.imagePrompt;
      && (prompt == m[x.PromptStart()..] || prompt + "\n" == m[x.PromptStart()..])
      && (prompt + "\n" == m[x.PromptStart()..] <==> m[|m| - 1] == '\n' && x.PromptStart() < |m|)
  {
    var x := Search(m).value;
    if x.promptEnd == |m| - 1 {
      assert m[x.PromptStart()..] == m[x.PromptStart()..x.promptEnd] + "\n";
    }
  }

  /** A closing quote with no closing quote before it is the one the lazy group stops at. */
  lemma {:induction false} FirstClosingQuoteIs(m: string, c: nat, k: nat)
    requires c <= k && QuoteCloses(m, k)
    requires forall j :: c <= j < k ==> !QuoteCloses(m, j)
    ensures FirstClosingQuote(m, c) == Some(k)
  {
  }

  /** A message that starts with "Meme Text: " is searched no further. */
  lemma SearchAtStart(m: string)
    requires MatchesAt(m, 0)
    ensures Search(m) == MatchAt(m, 0)
  {
  }

  /** What the match at the start of a message finds is what `parse_meme` returns. */
  lemma ParsedAtStart(m: string, x: RegexMatch)
    requires StartsAt(m, MemeLabel, 0) && MatchAt(m, 0) == Some(x)
    ensures x.CaptionStart() <= x.captionEnd <= |m| && x.PromptStart() <= x.promptEnd <= |m|
    ensures ParseMeme(m) == Some(Groups(m, x))
  {
    SearchAtStart(m);
    ParseMemeOfSearch(m);
  }

  /** Group 4 runs to the end of a message that does not end in a newline. */
  lemma LazyEndAtEnd(m: string, r: nat)
    requires r <= |m| && (r == |m| || m[|m| - 1] != '\n')
    ensures LazyEnd(m, r) == |m|
  {
  }

  /** With an opening quote that is closed, the match at the start is the quoted one, ending at the first closing quote. */
  lemma QuotedMatchAt(m: string, c: nat, q: nat, e: nat)
    requires StartsAt(m, MemeLabel, 0) && |MemeLabel| < |m| && m[|MemeLabel|] == '"'
    requires FirstClosingQuote(m, |MemeLabel| + 1) == Some(c)
    requires LabelAfter(m, c + 1) == Some(q) && q + |PromptLabel| <= |m| && LazyEnd(m, q + |PromptLabel|) == e
    ensures MatchAt(m, 0) == Some(RegexMatch(0, true, c, q, e))
  {
    QuotedAlternativeAt(m, c, q, e);
  }

  /** The quoted alternative at the start ends at the first closing quote. */
  lemma QuotedAlternativeAt(m: string, c: nat, q: nat, e: nat)
    requires StartsAt(m, MemeLabel, 0) && |MemeLabel| < |m| && m[|MemeLabel|] == '"'
    requires FirstClosingQuote(m, |MemeLabel| + 1) == Some(c)
    requires LabelAfter(m, c + 1) == Some(q) && q + |PromptLabel| <= |m| && LazyEnd(m, q + |PromptLabel|) == e
    ensures QuotedAlternative(m, 0) == Some(RegexMatch(0, true, c, q, e))
  {
  }

  /**
   * A message that opens with "Meme Text: " and a quote, has no quote until
   * the one at `close`, then a newline, "Image Prompt: " and a last line not
   * ending in a newline: the caption is what the quotes enclose and the prompt
   * the rest.
   */
  lemma QuotedParse(m: string, close: nat)
    requires StartsAt(m, MemeLabel, 0) && |MemeLabel| < close && close + 1 < |m|
    requires m[|MemeLabel|] == '"' && m[close] == '"' && m[close + 1] == '\n' && StartsAt(m, PromptLabel, close + 2)
    requires forall k :: |MemeLabel| < k < close ==> m[k] != '"'
    requires close + 2 + |PromptLabel| == |m| || m[|m| - 1] != '\n'
    ensures ParseMeme(m) == Some(Meme(m[|MemeLabel| + 1..close], m[close + 2 + |PromptLabel|..]))
  {
    var j := |MemeLabel|;
    var q := close + 2;
    LabelUnique(m, close + 1, q);
    assert QuoteCloses(m, close);
    FirstClosingQuoteIs(m, j + 1, close);
    LazyEndAtEnd(m, q + |PromptLabel|);
    QuotedMatchAt(m, close, q, |m|);
    ParsedAtStart(m, RegexMatch(0, true, close, q, |m|));
    assert m[q + |PromptLabel|..|m|] == m[q + |PromptLabel|..];
  }

  /** Where each part of `Meme Text: "caption"` newline `Image Prompt: prompt` sits. */
  lemma QuotedLayout(caption: string, prompt: string, m: string)
    requires m == MemeLabel + "\"" + caption + "\"\n" + PromptLabel + prompt
    ensures StartsAt(m, MemeLabel, 0)
    ensures m[|MemeLabel|] == '"'
    ensures var close := |MemeLabel| + 1 + |caption|;
      && close + 1 < |m| && m[close] == '"' && m[close + 1] == '\n'
      && StartsAt(m, PromptLabel, close + 2)
      && (forall k :: |MemeLabel| < k < close ==> m[k] == caption[k - |MemeLabel| - 1])
      && m[|MemeLabel| + 1..close] == caption
      && m[close + 2 + |PromptLabel|..] == prompt
      && (prompt == [] ==> close + 2 + |PromptLabel| == |m|)
      && (prompt != [] ==> m[|m| - 1] == prompt[|prompt| - 1])
  {
    var close := |MemeLabel| + 1 + |caption|;
    assert m[..|MemeLabel|] == MemeLabel;
    assert m[close + 2..close + 2 + |PromptLabel|] == PromptLabel;
  }

  /** A quoted caption without `"` and a prompt not ending in a newline, on the two lines the model is told to write, parse back. */
  lemma QuotedRoundTrip(caption: string, prompt: string)
    requires forall k :: 0 <= k < |caption| ==> caption[k] != '"'
    requires prompt == [] || prompt[|prompt| - 1] != '\n'
    ensures ParseMeme(MemeLabel + "\"" + caption + "\"\n" + PromptLabel + prompt) == Some(Meme(caption, prompt))
  {
    var m := MemeLabel + "\"" + caption + "\"\n" + PromptLabel + prompt;
    QuotedLayout(caption, prompt, m);
    var close := |MemeLabel| + 1 + |caption|;
    NoQuoteCopied(m, caption, |MemeLabel|);
    QuotedParse(m, close);
  }

  /** A caption without `"` copied to the positions after `lo` puts no `"` there. */
  lemma NoQuoteCopied(m: string, caption: string, lo: nat)
    requires lo + 1 + |caption| <= |m|
    requires forall k :: lo < k < lo + 1 + |caption| ==> m[k] == caption[k - lo - 1]
    requires forall k :: 0 <= k < |caption| ==> caption[k] != '"'
    ensures forall k :: lo < k < lo + 1 + |caption| ==> m[k] != '"'
  {
    forall k | lo < k < lo + 1 + |caption|
      ensures m[k] != '"'
    {
      assert m[k] == caption[k - lo - 1];
    }
  }

  /** The first position whose gap is followed by the label is the one the lazy unquoted group stops at. */
  lemma {:induction false} FirstGapIs(m: string, p: nat, k: nat)
    requires p <= k <= |m| && LabelAfter(m, k).Some?
    requires forall j :: p <= j < k ==> LabelAfter(m, j).None?
    ensures FirstGap(m, p) == Some(k)
  {
  }

  /** With no opening quote, the match at the start ends its caption at the first gap followed by the label. */
  lemma UnquotedMatchAt(m: string, c: nat, q: nat, e: nat)
    requires StartsAt(m, MemeLabel, 0) && |MemeLabel| < |m| && m[|MemeLabel|] != '"'
    requires FirstGap(m, |MemeLabel|) == Some(c)
    requires LabelAfter(m, c) == Some(q) && q + |PromptLabel| <= |m| && LazyEnd(m, q + |PromptLabel|) == e
    ensures MatchAt(m, 0) == Some(RegexMatch(0, false, c, q, e))
  {
    assert QuotedAlternative(m, 0).None?;
    UnquotedAlternativeAt(m, c, q, e);
  }

  /** The unquoted alternative at the start ends at the first gap followed by the label. */
  lemma UnquotedAlternativeAt(m: string, c: nat, q: nat, e: nat)
    requires StartsAt(m, MemeLabel, 0)
    requires FirstGap(m, |MemeLabel|) == Some(c)
    requires LabelAfter(m, c) == Some(q) && q + |PromptLabel| <= |m| && LazyEnd(m, q + |PromptLabel|) == e
    ensures UnquotedAlternative(m, 0) == Some(RegexMatch(0, false, c, q, e))
  {
  }

  /** The lazy unquoted caption stops at the first newline followed by the label when no whitespace precedes it. */
  lemma UnquotedCaptionEnd(m: string, e: nat)
    requires |MemeLabel| <= e < |m| && m[e] == '\n' && StartsAt(m, PromptLabel, e + 1)
    requires e == |MemeLabel| || !IsSpace(m[e - 1])
    requires forall g :: |MemeLabel| <= g < e ==> !StartsAt(m, PromptLabel, g)
    ensures FirstGap(m, |MemeLabel|) == Some(e)
    ensures LabelAfter(m, e) == Some(e + 1)
  {
    LabelUnique(m, e, e + 1);
    forall k | |MemeLabel| <= k < e
      ensures LabelAfter(m, k).None?
    {
      GapEndBound(m, k, e - 1);
    }
    FirstGapIs(m, |MemeLabel|, e);
  }

  /**
   * A message that opens with "Meme Text: " and no quote, in which
   * "Image Prompt: " first follows a newline at `e`, with no whitespace just
   * before `e` and a last line not ending in a newline: the caption is what
   * lies between the labels and the prompt the rest.
   */
  lemma UnquotedParse(m: string, e: nat)
    requires StartsAt(m, MemeLabel, 0) && |MemeLabel| <= e < |m| && m[|MemeLabel|] != '"'
    requires m[e] == '\n' && StartsAt(m, PromptLabel, e + 1)
    requires e == |MemeLabel| || !IsSpace(m[e - 1])
    requires forall g :: |MemeLabel| <= g < e ==> !StartsAt(m, PromptLabel, g)
    requires e + 1 + |PromptLabel| == |m| || m[|m| - 1] != '\n'
    ensures ParseMeme(m) == Some(Meme(m[|MemeLabel|..e], m[e + 1 + |PromptLabel|..]))
  {
    UnquotedCaptionEnd(m, e);
    LazyEndAtEnd(m, e + 1 + |PromptLabel|);
    UnquotedMatchAt(m, e, e + 1, |m|);
    ParsedAtStart(m, RegexMatch(0, false, e, e + 1, |m|));
    assert m[e + 1 + |PromptLabel|..|m|] == m[e + 1 + |PromptLabel|..];
  }

  /** Where each part of `Meme Text: caption` newline `Image Prompt: prompt` sits. */
  lemma UnquotedLayout(caption: string, prompt: string, m: string)
    requires m == MemeLabel + caption + "\n" + PromptLabel + prompt
    ensures StartsAt(m, MemeLabel, 0)
    ensures var e := |MemeLabel| + |caption|;
      && e < |m| && m[|MemeLabel|..e] == caption
      && m[e] == '\n'
      && StartsAt(m, PromptLabel, e + 1)
      && m[e + 1 + |PromptLabel|..] == prompt
      && (caption != [] ==> m[|MemeLabel|] == caption[0] && m[e - 1] == caption[|caption| - 1])
      && (prompt == [] ==> e + 1 + |PromptLabel| == |m|)
      && (prompt != [] ==> m[|m| - 1] == prompt[|prompt| - 1])
  {
    var e := |MemeLabel| + |caption|;
    assert m[..|MemeLabel|] == MemeLabel;
    assert m[e + 1..e + 1 + |PromptLabel|] == PromptLabel;
  }

  /** "Image Prompt: " holds no newline. */
  lemma NoNewlineInPromptLabel(k: int)
    requires 0 <= k < |PromptLabel|
    ensures PromptLabel[k] != '\n'
  {
  }

  /** "Image Prompt: " cannot start inside a caption that does not contain it and is followed by a newline. */
  lemma NoLabelInCaption(caption: string, m: string, e: nat, g: nat)
    requires |MemeLabel| <= e < |m| && m[|MemeLabel|..e] == caption && m[e] == '\n'
    requires !Contains(caption, PromptLabel)
    requires |MemeLabel| <= g < e
    ensures !StartsAt(m, PromptLabel, g)
  {
    var i := g - |MemeLabel|;
    if StartsAt(m, PromptLabel, g) {
      if g + |PromptLabel| <= e {
        forall t | 0 <= t < |PromptLabel|
          ensures caption[i + t] == PromptLabel[t]
        {
          assert caption[i + t] == m[g + t];
        }
        assert caption[i..i + |PromptLabel|] == PromptLabel;
        assert StartsAt(caption, PromptLabel, i);
      } else {
        assert m[e] == PromptLabel[e - g];
        NoNewlineInPromptLabel(e - g);
      }
    }
  }

  /**
   * An unquoted caption that does not open with `"`, does not end in
   * whitespace and does not contain "Image Prompt: ", with a prompt not
   * ending in a newline, parses back.
   */
  lemma UnquotedRoundTrip(caption: string, prompt: string)
    requires caption == [] || (caption[0] != '"' && !IsSpace(caption[|caption| - 1]))
    requires !Contains(caption, PromptLabel)
    requires prompt == [] || prompt[|prompt| - 1] != '\n'
    ensures ParseMeme(MemeLabel + caption + "\n" + PromptLabel + prompt) == Some(Meme(caption, prompt))
  {
    var m := MemeLabel + caption + "\n" + PromptLabel + prompt;
    UnquotedLayout(caption, prompt, m);
    var e := |MemeLabel| + |caption|;
    forall g | |MemeLabel| <= g < e
      ensures !StartsAt(m, PromptLabel, g)
    {
      NoLabelInCaption(caption, m, e, g);
    }
    UnquotedParse(m, e);
  }

  // ---------------------------------------------------------------- the fallback responses

  /** Why `send_and_receive_message` answered with a canned response instead of the model's text. */
  datatype ChatFailure =
    | NoTextInResponse  // the response had no `text` attribute
    | GenerationFailed  // `generate_content` raised
    | ModelInitFailed   // configuring or constructing the model raised

  /** The canned caption for each failure. */
  function FallbackCaption(f: ChatFailure): string {
    match f
    case NoTextInResponse => "Error: Could not generate meme text"
    case GenerationFailed => "Error: AI had trouble generating the meme"
    case ModelInitFailed => "Error: Could not initialize the AI model"
  }

  /** The canned image prompt for each failure. */
  function FallbackPrompt(f: ChatFailure): string {
    match f
    case NoTextInResponse => "A confused cat looking at a computer screen with error messages"
    case GenerationFailed => "A frustrated cat typing on a keyboard"
    case ModelInitFailed => "A cat looking confused at a broken computer"
  }

  /** The canned response text, in the two-line format the model is asked for. */
  function FallbackResponse(f: ChatFailure): string {
    MemeLabel + "\"" + FallbackCaption(f) + "\"\n" + PromptLabel + FallbackPrompt(f)
  }

  /** The canned response for a reply without text parses to its caption and prompt. */
  lemma NoTextFallbackParses()
    ensures ParseMeme(FallbackResponse(NoTextInResponse)) == Some(Meme(FallbackCaption(NoTextInResponse), FallbackPrompt(NoTextInResponse)))
  {
    QuotedRoundTrip(FallbackCaption(NoTextInResponse), FallbackPrompt(NoTextInResponse));
  }

  /** The canned response for a failed generation parses to its caption and prompt. */
  lemma GenerationFallbackParses()
    ensures ParseMeme(FallbackResponse(GenerationFailed)) == Some(Meme(FallbackCaption(GenerationFailed), FallbackPrompt(GenerationFailed)))
  {
    QuotedRoundTrip(FallbackCaption(GenerationFailed), FallbackPrompt(GenerationFailed));
  }

  /** The canned response for a model that could not be set up parses to its caption and prompt. */
  lemma ModelInitFallbackParses()
    ensures ParseMeme(FallbackResponse(ModelInitFailed)) == Some(Meme(FallbackCaption(ModelInitFailed), FallbackPrompt(ModelInitFailed)))
  {
    QuotedRoundTrip(FallbackCaption(ModelInitFailed), FallbackPrompt(ModelInitFailed));
  }

  /** Every canned response parses to its own caption and prompt. */
  lemma FallbacksParse(f: ChatFailure)
    ensures ParseMeme(FallbackResponse(f)) == Some(Meme(FallbackCaption(f), FallbackPrompt(f)))
  {
    match f
    case NoTextInResponse => NoTextFallbackParses();
    case GenerationFailed => GenerationFallbackParses();
    case ModelInitFailed => ModelInitFallbackParses();
  }
}
