/**
 * The pieces of Python's `str` behaviour that the program relies on:
 * whitespace (`str.isspace`, the `\s` class of `re`), `strip`, `lower`,
 * `split()`, `join`, `str(int)` and `int(str)`.
 */
module PyStr {
  import opened Results

  /** Python's `str.isspace` on one character; `re`'s `\s`, `str.split()` and `str.strip()` use the same set. */
  predicate IsSpace(c: char) {
    || c == ' '
    || ('\t' <= c <= '\r')
    || ('\U{1C}' <= c <= '\U{1F}')
    || c == '\U{85}' || c == '\U{A0}' || c == '\U{1680}'
    || ('\U{2000}' <= c <= '\U{200A}')
    || c == '\U{2028}' || c == '\U{2029}' || c == '\U{202F}' || c == '\U{205F}' || c == '\U{3000}'
  }

  predicate IsAsciiDigit(c: char) { '0' <= c <= '9' }

  predicate IsAsciiLetter(c: char) { ('a' <= c <= 'z') || ('A' <= c <= 'Z') }

  predicate AllDigits(s: string) { forall k :: 0 <= k < |s| ==> IsAsciiDigit(s[k]) }

  /** `s[i:i+len(pat)] == pat`. */
  predicate StartsAt(s: string, pat: string, i: int) {
    0 <= i && i + |pat| <= |s| && s[i..i + |pat|] == pat
  }

  /** `pat in s`. */
  predicate Contains(s: string, pat: string) {
    exists i :: 0 <= i <= |s| - |pat| && StartsAt(s, pat, i)
  }

  // ---------------------------------------------------------------- lower

  /** Lower-casing of one character, for the ASCII letters. */
  function LowerChar(c: char): (r: char)
    ensures IsSpace(r) <==> IsSpace(c)
    ensures 'A' <= c <= 'Z' ==> r as int == c as int + 32
    ensures !('A' <= c <= 'Z') ==> r == c
  {
    if 'A' <= c <= 'Z' then (c as int + 32) as char else c
  }

  /** `s.lower()`, restricted to ASCII letters. */
  function Lower(s: string): (r: string)
    ensures |r| == |s|
    ensures forall i :: 0 <= i < |s| ==> r[i] == LowerChar(s[i])
  {
    seq(|s|, i requires 0 <= i < |s| => LowerChar(s[i]))
  }

  /** Lower-casing a second time changes nothing. */
  lemma LowerIdempotent(s: string)
    ensures Lower(Lower(s)) == Lower(s)
  {
    assert forall i :: 0 <= i < |s| ==> Lower(Lower(s))[i] == Lower(s)[i];
  }

  /** A string lower-cases to a word of lower-case letters exactly when it spells that word in any mix of cases. */
  lemma {:induction false} LowerEqualsWord(s: string, w: string)
    requires forall k :: 0 <= k < |w| ==> 'a' <= w[k] <= 'z'
    ensures Lower(s) == w <==>
      |s| == |w| && forall k :: 0 <= k < |s| ==> s[k] == w[k] || s[k] as int == w[k] as int - 32
  {
    if Lower(s) == w {
      forall k | 0 <= k < |s| ensures s[k] == w[k] || s[k] as int == w[k] as int - 32 {
        assert LowerChar(s[k]) == w[k];
      }
    }
    if |s| == |w| && forall k :: 0 <= k < |s| ==> s[k] == w[k] || s[k] as int == w[k] as int - 32 {
      forall k | 0 <= k < |s| ensures Lower(s)[k] == w[k] {
        if s[k] != w[k] { assert 'A' <= s[k] <= 'Z'; }
      }
    }
  }

  // ---------------------------------------------------------------- strip

  /** The end of the run of dropped characters that starts at `i`. */
  function DroppedEnd(s: string, drop: char -> bool, i: nat): (n: nat)
    requires i <= |s|
    ensures i <= n <= |s|
    ensures forall k :: i <= k < n ==> drop(s[k])
    ensures n < |s| ==> !drop(s[n])
    decreases |s| - i
  {
    if i < |s| && drop(s[i]) then DroppedEnd(s, drop, i + 1) else i
  }

  /** `s.lstrip(chars)`, where `drop` says which characters are in `chars`. */
  function LStrip(s: string, drop: char -> bool): (r: string)
    ensures |r| <= |s| && r == s[|s| - |r|..]
    ensures forall k :: 0 <= k < |s| - |r| ==> drop(s[k])
    ensures r == [] || !drop(r[0])
  {
    s[DroppedEnd(s, drop, 0)..]
  }

  /** The start of the run of dropped characters that ends at `n`. */
  function DroppedStart(s: string, drop: char -> bool, n: nat): (i: nat)
    requires n <= |s|
    ensures i <= n
    ensures forall k :: i <= k < n ==> drop(s[k])
    ensures 0 < i ==> !drop(s[i - 1])
    decreases n
  {
    if 0 < n && drop(s[n - 1]) then DroppedStart(s, drop, n - 1) else n
  }

  /** `s.rstrip(chars)`. */
  function RStrip(s: string, drop: char -> bool): (r: string)
    ensures |r| <= |s| && r == s[..|r|]
    ensures forall k :: |r| <= k < |s| ==> drop(s[k])
    ensures r == [] || !drop(r[|r| - 1])
  {
    s[..DroppedStart(s, drop, |s|)]
  }

  /** `r` is `s[a..a+|r|]` and every character of `s` outside that slice is a dropped one. */
  ghost predicate SliceAfterDropping(s: string, r: string, drop: char -> bool, a: int) {
    && 0 <= a <= |s| - |r|
    && r == s[a..a + |r|]
    && (forall k :: 0 <= k < a ==> drop(s[k]))
    && (forall k :: a + |r| <= k < |s| ==> drop(s[k]))
  }

  /** `s.strip(chars)`. */
  function Strip(s: string, drop: char -> bool): (r: string)
    ensures |r| <= |s|
    ensures r == [] || (!drop(r[0]) && !drop(r[|r| - 1]))
  {
    RStrip(LStrip(s, drop), drop)
  }

  /** `strip` leaves what is left once every dropped character is gone from both ends. */
  lemma StripSpec(s: string, drop: char -> bool)
    ensures SliceAfterDropping(s, Strip(s, drop), drop, |s| - |LStrip(s, drop)|)
    ensures var r := Strip(s, drop); r == [] || (!drop(r[0]) && !drop(r[|r| - 1]))
  {
    var t := LStrip(s, drop);
    var r := RStrip(t, drop);
    var a := |s| - |t|;
    assert forall k :: a + |r| <= k < |s| ==> s[k] == t[k - a];
  }

  /** `s.strip()`. */
  function StripSpace(s: string): string {
    Strip(s, IsSpace)
  }

  /** A string that neither starts nor ends with a dropped character is left as it is. */
  lemma StripUnchanged(s: string, drop: char -> bool)
    requires s == [] || (!drop(s[0]) && !drop(s[|s| - 1]))
    ensures Strip(s, drop) == s
  {
  }

  /** One dropped character on each side of a string that `strip` leaves alone is all that `strip` removes. */
  lemma StripPair(s: string, drop: char -> bool, c: char)
    requires drop(c)
    requires s == [] || (!drop(s[0]) && !drop(s[|s| - 1]))
    ensures Strip([c] + s + [c], drop) == s
  {
    var x := [c] + s + [c];
    if s == [] {
      assert DroppedEnd(x, drop, 1) == 2;
    } else {
      assert x[1] == s[0];
      assert DroppedEnd(x, drop, 0) == 1;
      var t := x[1..];
      assert t == s + [c];
      assert t[|s| - 1] == s[|s| - 1];
      assert DroppedStart(t, drop, |t|) == |s|;
      assert t[..|s|] == s;
    }
  }

  /** Stripping twice removes only characters that either set drops. */
  lemma SliceAfterDroppingTwice(s: string, t: string, r: string, d1: char -> bool, d2: char -> bool, d: char -> bool, a: int, b: int)
    requires SliceAfterDropping(s, t, d1, a) && SliceAfterDropping(t, r, d2, b)
    requires forall c :: d1(c) ==> d(c)
    requires forall c :: d2(c) ==> d(c)
    ensures SliceAfterDropping(s, r, d, a + b)
  {
    assert forall k :: 0 <= k < |t| ==> t[k] == s[a + k];
    forall k | a <= k < a + b
      ensures d(s[k])
    {
      assert s[k] == t[k - a];
    }
    forall k | a + b + |r| <= k < a + |t|
      ensures d(s[k])
    {
      assert s[k] == t[k - a];
    }
  }

  // ---------------------------------------------------------------- split and join

  /** A word of `str.split()`: non-empty and free of whitespace. */
  predicate IsWord(w: string) {
    w != [] && forall k :: 0 <= k < |w| ==> !IsSpace(w[k])
  }

  /** The end of the run of non-whitespace characters that starts at `i`. */
  function WordEnd(s: string, i: nat): (n: nat)
    requires i <= |s|
    ensures i <= n <= |s|
    ensures n < |s| ==> IsSpace(s[n])
    ensures forall k :: i <= k < n ==> !IsSpace(s[k])
    decreases |s| - i
  {
    if i < |s| && !IsSpace(s[i]) then WordEnd(s, i + 1) else i
  }

  /** `s.split()`: the maximal runs of non-whitespace characters, in order. */
  function Split(s: string): (words: seq<string>)
    ensures forall i :: 0 <= i < |words| ==> IsWord(words[i])
    decreases |s|
  {
    var t := LStrip(s, IsSpace);
    if t == [] then []
    else
      var n := WordEnd(t, 0);
      assert IsWord(t[..n]);
      assert !IsSpace(s[|s| - |t|]);
      var rest := Split(t[n..]);
      var words := [t[..n]] + rest;
      assert forall i :: 0 < i < |words| ==> words[i] == rest[i - 1];
      words
  }

  /** `s.split()` is empty exactly when `s` holds only whitespace. */
  lemma SplitEmptyIffBlank(s: string)
    ensures Split(s) == [] <==> forall k :: 0 <= k < |s| ==> IsSpace(s[k])
  {
    var t := LStrip(s, IsSpace);
    if t != [] {
      assert !IsSpace(s[|s| - |t|]);
    }
  }

  /** `sep.join(parts)`. */
  function Join(parts: seq<string>, sep: string): string
    decreases |parts|
  {
    if |parts| == 0 then ""
    else if |parts| == 1 then parts[0]
    else Join(parts[..|parts| - 1], sep) + sep + parts[|parts| - 1]
  }

  /** Joining two non-empty lists is joining each and putting one separator between. */
  lemma {:induction false} JoinConcat(a: seq<string>, b: seq<string>, sep: string)
    requires a != [] && b != []
    ensures Join(a + b, sep) == Join(a, sep) + sep + Join(b, sep)
    decreases |b|
  {
    if |b| == 1 {
      assert (a + b)[..|a + b| - 1] == a;
    } else {
      var b' := b[..|b| - 1];
      assert (a + b)[..|a + b| - 1] == a + b';
      JoinConcat(a, b', sep);
    }
  }

  /** Joining non-empty words with a single space gives a non-empty string. */
  lemma {:induction false} JoinNonEmpty(ws: seq<string>, sep: string)
    requires ws != [] && forall i :: 0 <= i < |ws| ==> ws[i] != ""
    ensures Join(ws, sep) != ""
    decreases |ws|
  {
    if |ws| > 1 {
      JoinNonEmpty(ws[..|ws| - 1], sep);
    }
  }

  /** Joining words with single spaces and splitting again gives the words back. */
  lemma {:induction false} SplitJoin(ws: seq<string>)
    requires forall i :: 0 <= i < |ws| ==> IsWord(ws[i])
    ensures Split(Join(ws, " ")) == ws
    decreases |ws|
  {
    if |ws| == 0 {
      assert Join(ws, " ") == "";
    } else if |ws| == 1 {
      SplitJoinOne(ws);
    } else {
      WordsTail(ws);
      SplitJoin(ws[1..]);
      SplitJoinStep(ws);
    }
  }

  /** A single word splits back to itself. */
  lemma SplitJoinOne(ws: seq<string>)
    requires |ws| == 1 && IsWord(ws[0])
    ensures Split(Join(ws, " ")) == ws
  {
    var w := ws[0];
    assert Join(ws, " ") == w;
    SplitWord(w, "");
    assert w + "" == w;
    assert Split("") == [] by {
      assert LStrip("", IsSpace) == [];
    }
    assert [w] == ws;
  }

  /** The words after the first are words. */
  lemma WordsTail(ws: seq<string>)
    requires ws != [] && forall i :: 0 <= i < |ws| ==> IsWord(ws[i])
    ensures forall i :: 0 <= i < |ws| - 1 ==> IsWord(ws[1..][i])
  {
    assert forall i :: 0 <= i < |ws| - 1 ==> ws[1..][i] == ws[i + 1];
  }

  /** The inductive step of `SplitJoin`: splitting undoes the join of the first word with the rest. */
  lemma SplitJoinStep(ws: seq<string>)
    requires |ws| > 1 && IsWord(ws[0])
    requires Split(Join(ws[1..], " ")) == ws[1..]
    ensures Split(Join(ws, " ")) == ws
  {
    var rejoined := Join(ws[1..], " ");
    JoinOnFront(ws, " ");
    SplitWord(ws[0], " " + rejoined);
    SplitLeadingSpace(rejoined, " ");
    assert [ws[0]] + ws[1..] == ws;
  }

  /** `Join` peels off its first part. */
  lemma JoinOnFront(ws: seq<string>, sep: string)
    requires |ws| > 1
    ensures Join(ws, sep) == ws[0] + (sep + Join(ws[1..], sep))
  {
    assert ws == [ws[0]] + ws[1..];
    JoinConcat([ws[0]], ws[1..], sep);
  }

  /** Nothing is stripped from the left of a string that starts with a non-whitespace character. */
  lemma LStripNonSpace(s: string)
    requires s != [] && !IsSpace(s[0])
    ensures LStrip(s, IsSpace) == s
  {
    assert DroppedEnd(s, IsSpace, 0) == 0;
  }

  /** A word followed by text that is empty or starts with whitespace is one run of non-whitespace. */
  lemma WordEndOfWord(w: string, tail: string)
    requires IsWord(w)
    requires tail == [] || IsSpace(tail[0])
    ensures WordEnd(w + tail, 0) == |w|
  {
    var s := w + tail;
    var n := WordEnd(s, 0);
    assert n <= |w| by {
      assert |w| < |s| ==> s[|w|] == tail[0];
    }
    assert n >= |w| by {
      assert forall k :: 0 <= k < |w| ==> s[k] == w[k];
    }
  }

  /** Splitting a word followed by text that is empty or starts with whitespace. */
  lemma SplitWord(w: string, tail: string)
    requires IsWord(w)
    requires tail == [] || IsSpace(tail[0])
    ensures Split(w + tail) == [w] + Split(tail)
  {
    var s := w + tail;
    assert s[0] == w[0];
    LStripNonSpace(s);
    WordEndOfWord(w, tail);
    assert s[..|w|] == w && s[|w|..] == tail;
  }

  /** Leading whitespace does not change the words. */
  lemma SplitLeadingSpace(s: string, space: string)
    requires |space| == 1 && IsSpace(space[0])
    ensures Split(space + s) == Split(s)
  {
    assert (space + s)[1..] == s;
    assert LStrip(space + s, IsSpace) == LStrip(s, IsSpace);
  }

  // ---------------------------------------------------------------- str(int) and int(str)

  function DigitChar(d: nat): (c: char)
    requires d < 10
    ensures IsAsciiDigit(c) && c as int - '0' as int == d
  {
    ('0' as int + d) as char
  }

  /** `str(n)` for a non-negative integer. */
  function NatToString(n: nat): (s: string)
    ensures s != [] && AllDigits(s)
    decreases n
  {
    if n < 10 then [DigitChar(n)] else NatToString(n / 10) + [DigitChar(n % 10)]
  }

  /** The value of a string of decimal digits. */
  function DigitsValue(s: string): nat
    requires AllDigits(s)
    decreases |s|
  {
    if s == [] then 0 else DigitsValue(s[..|s| - 1]) * 10 + (s[|s| - 1] as int - '0' as int)
  }

  /** Reading back what `str(n)` wrote gives `n`. */
  lemma {:induction false} NatToStringRoundTrip(n: nat)
    ensures DigitsValue(NatToString(n)) == n
    decreases n
  {
    if n >= 10 {
      NatToStringRoundTrip(n / 10);
      var s := NatToString(n);
      assert s[..|s| - 1] == NatToString(n / 10);
    }
  }

  /**
   * The whitespace `int()` skips around its digits: the characters of
   * `str.isspace` except the separators U+001C..U+001F. CPython maps
   * non-ASCII whitespace to a space before parsing, but keeps ASCII
   * characters as they are and then skips only " \t\n\v\f\r".
   */
  predicate IsIntSpace(c: char) {
    IsSpace(c) && !('\U{1C}' <= c <= '\U{1F}')
  }

  /**
   * `int(s)` on a string: surrounding whitespace is ignored, one optional sign,
   * then one or more ASCII digits; anything else raises `ValueError` (here `None`).
   */
  function PyInt(s: string): (r: Option<int>)
    ensures r.Some? ==> Strip(s, IsIntSpace) != []
  {
    var t := Strip(s, IsIntSpace);
    if t == [] then None
    else
      var negative := t[0] == '-';
      var body := if t[0] == '-' || t[0] == '+' then t[1..] else t;
      if body != [] && AllDigits(body) then
        Some(if negative then -(DigitsValue(body) as int) else DigitsValue(body))
      else None
  }

  /** A sign `int()` accepts in front of the digits: none, `+` or `-`. */
  predicate IsSign(sign: string) {
    sign == "" || sign == "+" || sign == "-"
  }

  /**
   * `int()` on an optional sign followed by ASCII digits, padded with the
   * whitespace it skips, is the signed value of the digits.
   */
  lemma PyIntOfDigits(pre: string, sign: string, digits: string, post: string)
    requires IsSign(sign) && digits != [] && AllDigits(digits)
    requires forall k :: 0 <= k < |pre| ==> IsIntSpace(pre[k])
    requires forall k :: 0 <= k < |post| ==> IsIntSpace(post[k])
    ensures PyInt(pre + sign + digits + post)
         == Some(if sign == "-" then -(DigitsValue(digits) as int) else DigitsValue(digits))
  {
    var t := sign + digits;
    assert pre + sign + digits + post == pre + t + post;
    assert t[0] == (if sign == "" then digits[0] else sign[0]);
    assert t[|t| - 1] == digits[|digits| - 1];
    StripPadded(pre, t, post, IsIntSpace);
    PyIntOfSigned(pre + t + post, sign, digits);
  }

  /** `int()` reads a signed run of digits once the padding is gone. */
  lemma PyIntOfSigned(s: string, sign: string, digits: string)
    requires IsSign(sign) && digits != [] && AllDigits(digits)
    requires Strip(s, IsIntSpace) == sign + digits
    ensures PyInt(s) == Some(if sign == "-" then -(DigitsValue(digits) as int) else DigitsValue(digits))
  {
    var t := sign + digits;
    if sign != "" {
      assert t[1..] == digits;
    } else {
      assert t == digits;
    }
  }

  /** Dropped characters around a string whose ends are kept are all that `strip` removes. */
  lemma StripPadded(pre: string, t: string, post: string, drop: char -> bool)
    requires t != [] && !drop(t[0]) && !drop(t[|t| - 1])
    requires forall k :: 0 <= k < |pre| ==> drop(pre[k])
    requires forall k :: 0 <= k < |post| ==> drop(post[k])
    ensures Strip(pre + t + post, drop) == t
  {
    var s := pre + t + post;
    StripSpec(s, drop);
    var r := Strip(s, drop);
    var a := |s| - |LStrip(s, drop)|;
    assert s[|pre|] == t[0];
    assert s[|pre| + |t| - 1] == t[|t| - 1];
    assert forall k :: 0 <= k < |pre| ==> s[k] == pre[k];
    assert forall k :: |pre| + |t| <= k < |s| ==> s[k] == post[k - |pre| - |t|];
    assert a == |pre|;
    assert a + |r| == |pre| + |t|;
    assert s[|pre|..|pre| + |t|] == t;
  }

  /**
   * `int("\x1c5")` raises: U+001C is whitespace to `str.isspace` and
   * `split()`, but not to `int()`.
   */
  lemma PyIntRejectsSeparator()
    ensures IsSpace('\U{1C}')
    ensures PyInt("\U{1C}5") == None
  {
    var s := "\U{1C}5";
    assert !IsIntSpace(s[0]) && !IsIntSpace(s[1]);
    StripUnchanged(s, IsIntSpace);
  }

  /** `int(str(n)) == n`. */
  lemma PyIntOfNatToString(n: nat)
    ensures PyInt(NatToString(n)) == Some(n)
  {
    var s := NatToString(n);
    assert !IsIntSpace(s[0]) && !IsIntSpace(s[|s| - 1]);
    StripUnchanged(s, IsIntSpace);
    NatToStringRoundTrip(n);
  }
}
