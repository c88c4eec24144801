/**
 * `set_file_path`: the next free counter among the names already saved
 * (`get_next_counter`) and the name of the new file,
 * `base_timestamp_counter.png`.
 */
module FileNaming {
  import opened Results
  import opened PyStr

  // ---------------------------------------------------------------- fields of a name

  /** `s.split(sep)[-1]`: the text after the last `sep`, or all of `s` when there is none. */
  function LastField(s: string, sep: char): (r: string)
    ensures |r| <= |s| && r == s[|s| - |r|..]
    ensures forall k :: 0 <= k < |r| ==> r[k] != sep
    ensures |r| == |s| || s[|s| - |r| - 1] == sep
    decreases |s|
  {
    if s == [] || s[|s| - 1] == sep then []
    else
      var init := LastField(s[..|s| - 1], sep);
      LastFieldSnoc(s, init);
      init + [s[|s| - 1]]
  }

  /** The step of `LastField`: a field of `s` without its last character, extended by that character. */
  lemma LastFieldSnoc(s: string, init: string)
    requires s != [] && |init| <= |s| - 1 && init == s[..|s| - 1][|s| - 1 - |init|..]
    ensures init + [s[|s| - 1]] == s[|s| - 1 - |init|..]
  {
    assert s[..|s| - 1][|s| - 1 - |init|..] == s[|s| - 1 - |init|..|s| - 1];
  }

  /** `s.split(sep)[0]`: the text before the first `sep`, or all of `s` when there is none. */
  function FirstField(s: string, sep: char): (r: string)
    ensures |r| <= |s| && r == s[..|r|]
    ensures forall k :: 0 <= k < |r| ==> r[k] != sep
    ensures |r| == |s| || s[|r|] == sep
    decreases |s|
  {
    if s == [] || s[0] == sep then []
    else
      var rest := FirstField(s[1..], sep);
      assert [s[0]] + s[1..][..|rest|] == s[..|rest| + 1];
      [s[0]] + rest
  }

  /** The last field is what follows the last separator. */
  lemma LastFieldOf(pre: string, post: string, sep: char)
    requires forall k :: 0 <= k < |post| ==> post[k] != sep
    ensures LastField(pre + [sep] + post, sep) == post
  {
    var s := pre + [sep] + post;
    var r := LastField(s, sep);
    assert s[|pre|] == sep;
    assert s[|s| - |post|..] == post;
  }

  /** The first field is what comes before the first separator. */
  lemma FirstFieldOf(pre: string, post: string, sep: char)
    requires forall k :: 0 <= k < |pre| ==> pre[k] != sep
    ensures FirstField(pre + [sep] + post, sep) == pre
  {
    var s := pre + [sep] + post;
    var r := FirstField(s, sep);
    assert s[|pre|] == sep;
    assert s[..|pre|] == pre;
  }

  // ---------------------------------------------------------------- the counter rule

  /** `int(name.split('_')[-1].split('.')[0])`, or `None` where that raises `ValueError`. */
  function ParseCounter(name: string): Option<int> {
    PyInt(FirstField(LastField(name, '_'), '.'))
  }

  /** What the counter rule reads from each name, in order. */
  function Counters(names: seq<string>): (r: seq<Option<int>>)
    ensures |r| == |names|
    ensures forall i {:trigger r[i]} :: 0 <= i < |names| ==> r[i] == ParseCounter(names[i])
  {
    seq(|names|, i requires 0 <= i < |names| => ParseCounter(names[i]))
  }

  /** The largest counter read, starting from 0; names without a counter are skipped. */
  function MaxCounter(counters: seq<Option<int>>): (m: int)
    ensures m >= 0
    decreases |counters|
  {
    if counters == [] then 0
    else
      var m := MaxCounter(counters[..|counters| - 1]);
      match counters[|counters| - 1]
      case None => m
      case Some(c) => if c > m then c else m
  }

  /** The `i`-th name carries the counter `c`. */
  predicate HasCounter(counters: seq<Option<int>>, i: int, c: int) {
    0 <= i < |counters| && counters[i] == Some(c)
  }

  /** The counter start, 0, bounds the maximum from below, and every counter read bounds it too. */
  lemma {:induction false} MaxCounterIsUpperBound(counters: seq<Option<int>>)
    ensures MaxCounter(counters) >= 0
    ensures forall i, c :: HasCounter(counters, i, c) ==> c <= MaxCounter(counters)
    decreases |counters|
  {
    if counters != [] {
      var init := counters[..|counters| - 1];
      MaxCounterIsUpperBound(init);
      forall i, c | HasCounter(counters, i, c)
        ensures c <= MaxCounter(counters)
      {
        if i < |init| {
          assert HasCounter(init, i, c);
        }
      }
    }
  }

  /** The maximum is 0 or a counter actually read from one of the names. */
  lemma {:induction false} MaxCounterIsAttained(counters: seq<Option<int>>)
    ensures MaxCounter(counters) == 0 || exists i :: HasCounter(counters, i, MaxCounter(counters))
    decreases |counters|
  {
    if counters != [] {
      var init := counters[..|counters| - 1];
      MaxCounterIsAttained(init);
      if MaxCounter(counters) != 0 && MaxCounter(counters) == MaxCounter(init) {
        var i :| HasCounter(init, i, MaxCounter(init));
        assert HasCounter(counters, i, MaxCounter(counters));
      }
      if MaxCounter(counters) != MaxCounter(init) {
        assert HasCounter(counters, |counters| - 1, MaxCounter(counters));
      }
    }
  }

  /** `get_next_counter()` over the names the glob found. */
  method NextCounter(names: seq<string>) returns (next: int)
    ensures next == MaxCounter(Counters(names)) + 1
    ensures next >= 1
    ensures forall i, c :: HasCounter(Counters(names), i, c) ==> c < next
    ensures next == 1 || exists i :: HasCounter(Counters(names), i, MaxCounter(Counters(names)))
  {
    ghost var counters := Counters(names);
    var maxCounter := 0;
    var i := 0;
    while i < |names|
      invariant 0 <= i <= |names|
      invariant maxCounter == MaxCounter(counters[..i])
    {
      assert counters[..i + 1][..i] == counters[..i];
      match ParseCounter(names[i]) {
        case None =>
        case Some(counter) =>
          maxCounter := if counter > maxCounter then counter else maxCounter;
      }
      i := i + 1;
    }
    assert counters[..i] == counters;
    MaxCounterIsUpperBound(counters);
    MaxCounterIsAttained(counters);
    next := maxCounter + 1;
  }

  // ---------------------------------------------------------------- the file name

  /** `baseName + "_" + timestamp + "_" + str(file_counter) + ".png"`. */
  function FileName(baseName: string, timestamp: string, counter: nat): string {
    baseName + "_" + timestamp + "_" + NatToString(counter) + ".png"
  }

  /** Digits followed by ".png" hold no `_`. */
  lemma DigitsPngNoUnderscore(digits: string)
    requires AllDigits(digits)
    ensures forall k :: 0 <= k < |digits + ".png"| ==> (digits + ".png")[k] != '_'
  {
    var post := digits + ".png";
    forall k | 0 <= k < |post|
      ensures post[k] != '_'
    {
      if k < |digits| {
        assert post[k] == digits[k];
      }
    }
  }

  /** The last `_`-field of a file name is its counter's digits and ".png". */
  lemma FileNameLastField(baseName: string, timestamp: string, counter: nat)
    ensures LastField(FileName(baseName, timestamp, counter), '_') == NatToString(counter) + ".png"
  {
    var post := NatToString(counter) + ".png";
    assert FileName(baseName, timestamp, counter) == (baseName + "_" + timestamp) + ['_'] + post;
    DigitsPngNoUnderscore(NatToString(counter));
    LastFieldOf(baseName + "_" + timestamp, post, '_');
  }

  /** The fields the counter rule cuts out of a file name are the decimal digits of its counter. */
  lemma FileNameCounterField(baseName: string, timestamp: string, counter: nat)
    ensures FirstField(LastField(FileName(baseName, timestamp, counter), '_'), '.') == NatToString(counter)
  {
    var digits := NatToString(counter);
    FileNameLastField(baseName, timestamp, counter);
    assert digits + ".png" == digits + ['.'] + "png";
    assert forall k :: 0 <= k < |digits| ==> digits[k] != '.';
    FirstFieldOf(digits, "png", '.');
  }

  /** The counter rule reads back the counter a file name was built with, whatever the base name and timestamp. */
  lemma FileNameCounter(baseName: string, timestamp: string, counter: nat)
    ensures ParseCounter(FileName(baseName, timestamp, counter)) == Some(counter)
  {
    FileNameCounterField(baseName, timestamp, counter);
    PyIntOfNatToString(counter);
  }

  /** The new file's name is not among the names already there. */
  lemma NextFileIsNew(names: seq<string>, baseName: string, timestamp: string, next: nat)
    requires next == MaxCounter(Counters(names)) + 1
    ensures FileName(baseName, timestamp, next) !in names
  {
    MaxCounterIsUpperBound(Counters(names));
    FileNameCounter(baseName, timestamp, next);
    forall i | 0 <= i < |names|
      ensures names[i] != FileName(baseName, timestamp, next)
    {
      assert ParseCounter(names[i]) != Some(next) by {
        assert !HasCounter(Counters(names), i, next);
      }
    }
  }

  /** One more name adds what the counter rule reads from it. */
  lemma CountersSnoc(names: seq<string>, name: string)
    ensures Counters(names + [name]) == Counters(names) + [ParseCounter(name)]
  {
    var longer := Counters(names + [name]);
    var snoc := Counters(names) + [ParseCounter(name)];
    forall k | 0 <= k < |longer|
      ensures longer[k] == snoc[k]
    {
      if k < |names| {
        assert (names + [name])[k] == names[k];
      }
    }
  }

  /** A counter above the maximum becomes the maximum. */
  lemma MaxCounterSnoc(counters: seq<Option<int>>, c: int)
    requires c > MaxCounter(counters)
    ensures MaxCounter(counters + [Some(c)]) == c
  {
    assert (counters + [Some(c)])[..|counters|] == counters;
  }

  /** A name from which no counter can be read leaves the next counter as it was. */
  lemma UnparseableIgnored(names: seq<string>, name: string)
    requires ParseCounter(name).None?
    ensures MaxCounter(Counters(names + [name])) == MaxCounter(Counters(names))
  {
    CountersSnoc(names, name);
    assert (Counters(names) + [None])[..|names|] == Counters(names);
  }

  /** Saving the new file makes its counter the maximum, so the following counter is one larger. */
  lemma NextCounterAfterSave(names: seq<string>, baseName: string, timestamp: string, next: nat)
    requires next == MaxCounter(Counters(names)) + 1
    ensures MaxCounter(Counters(names + [FileName(baseName, timestamp, next)])) == next
  {
    CountersSnoc(names, FileName(baseName, timestamp, next));
    FileNameCounter(baseName, timestamp, next);
    MaxCounterSnoc(Counters(names), next);
  }
}
