/**
 * The validators of the script: `parseBool`, the value normalisation that
 * `get_config` applies to every setting it reads, the loop that gathers the
 * settings of all sections into one dictionary, and `validate_api_keys`.
 */
module Settings {
  import opened Results
  import opened PyStr

  // ---------------------------------------------------------------- parseBool

  /** The Python values `parseBool` can be handed: a `str`, a `bool`, or anything else. */
  datatype PyValue = PyStr(s: string) | PyBool(b: bool) | PyOther

  /** A raised `ValueError` and its message. */
  datatype ValueError = ValueError(message: string)

  /** `s` spells `word` (given in lower case) in any mix of upper and lower case. */
  predicate SpellsCaseless(s: string, word: string) {
    |s| == |word| && forall k :: 0 <= k < |s| ==> s[k] == word[k] || s[k] as int == word[k] as int - 32
  }

  /** `parseBool(value, silent)`. */
  function ParseBool(value: PyValue, silent: bool): (r: Result<PyValue, ValueError>)
    ensures r.Ok? ==> r.value.PyBool? || (silent && r.value == value)
    ensures silent && value.PyStr? ==> r.Ok?
    ensures value.PyOther? ==> r.Err?
  {
    match value
    case PyStr(s) =>
      if Lower(s) == "true" then Ok(PyBool(true))
      else if Lower(s) == "false" then Ok(PyBool(false))
      else if !silent then Err(ValueError("Invalid value \"" + s + "\". Must be \"True\" or \"False\""))
      else Ok(value)
    case PyBool(b) => Ok(PyBool(b))
    case PyOther => Err(ValueError("Not a valid boolean string"))
  }

  /**
   * A string is read as `True` or `False` exactly when it spells "true" or
   * "false" in any case; any other string is returned as it is when `silent`
   * and raises otherwise.
   */
  lemma ParseBoolOfString(s: string, silent: bool)
    ensures ParseBool(PyStr(s), silent) == Ok(PyBool(true)) <==> SpellsCaseless(s, "true")
    ensures ParseBool(PyStr(s), silent) == Ok(PyBool(false)) <==> SpellsCaseless(s, "false")
    ensures !SpellsCaseless(s, "true") && !SpellsCaseless(s, "false") ==>
      ParseBool(PyStr(s), silent) ==
        if silent then Ok(PyStr(s))
        else Err(ValueError("Invalid value \"" + s + "\". Must be \"True\" or \"False\""))
  {
    LowerEqualsWord(s, "true");
    LowerEqualsWord(s, "false");
  }

  /** A bool passes through unchanged; a value that is neither `str` nor `bool` always raises, silent or not. */
  lemma ParseBoolOfOther(b: bool, silent: bool)
    ensures ParseBool(PyBool(b), silent) == Ok(PyBool(b))
    ensures ParseBool(PyOther, silent).Err?
    ensures ParseBool(PyOther, silent) == ParseBool(PyOther, !silent)
  {
  }

  /** Feeding `parseBool` its own result changes nothing. */
  lemma ParseBoolIdempotent(v: PyValue, silent: bool)
    requires ParseBool(v, silent).Ok?
    ensures ParseBool(ParseBool(v, silent).value, silent) == ParseBool(v, silent)
  {
  }

  /** The spellings the settings files use read back as the booleans they name. */
  lemma ParseBoolSpellings(silent: bool)
    ensures ParseBool(PyStr("True"), silent) == Ok(PyBool(true))
    ensures ParseBool(PyStr("False"), silent) == Ok(PyBool(false))
    ensures ParseBool(PyStr("TRUE"), silent) == Ok(PyBool(true))
    ensures ParseBool(PyStr("false"), silent) == Ok(PyBool(false))
  {
    ParseBoolOfString("True", silent);
    ParseBoolOfString("False", silent);
    ParseBoolOfString("TRUE", silent);
    ParseBoolOfString("false", silent);
  }

  // ---------------------------------------------------------------- normalising one setting

  predicate IsDoubleQuote(c: char) { c == '"' }

  predicate IsSingleQuote(c: char) { c == '\'' }

  /** `value.strip("\"").strip("\'")`. */
  function StripQuotes(value: string): (r: string)
    ensures |r| <= |value|
    ensures r == [] || (r[0] != '\'' && r[|r| - 1] != '\'')
  {
    Strip(Strip(value, IsDoubleQuote), IsSingleQuote)
  }

  /**
   * What `get_config` stores for a value its section proxy yields: the
   * value with the quotes stripped, turned into a `bool` when `parseBool`
   * recognises it.
   */
  function NormalizeSetting(raw: string): (r: PyValue)
    ensures r.PyBool? || r == PyStr(StripQuotes(raw))
    ensures r.PyBool? ==> ParseBool(PyStr(StripQuotes(raw)), false) == Ok(r)
  {
    var v := StripQuotes(raw);
    // the second, non-silent `parseBool(settingValue)` of the source returns the same bool (`NormalizeSettingSpec`)
    match ParseBool(PyStr(v), true)
    case Ok(PyBool(b)) => PyBool(b)
    case _ => PyStr(v)
  }

  /** Stripping quotes leaves a slice of the value whose ends are not `'`, removing nothing but quote characters. */
  lemma StripQuotesSpec(value: string)
    ensures var r := StripQuotes(value);
      && (exists a :: SliceAfterDropping(value, r, IsQuote, a))
      && (r == [] || (r[0] != '\'' && r[|r| - 1] != '\''))
  {
    var t := Strip(value, IsDoubleQuote);
    var r := Strip(t, IsSingleQuote);
    var a := |value| - |LStrip(value, IsDoubleQuote)|;
    var b := |t| - |LStrip(t, IsSingleQuote)|;
    StripSpec(value, IsDoubleQuote);
    StripSpec(t, IsSingleQuote);
    SliceAfterDroppingTwice(value, t, r, IsDoubleQuote, IsSingleQuote, IsQuote, a, b);
    assert r == StripQuotes(value);
    assert SliceAfterDropping(value, StripQuotes(value), IsQuote, a + b);
  }

  /** A value without `'` also loses every surrounding `"`. */
  lemma StripQuotesNoSingle(value: string)
    requires forall k :: 0 <= k < |value| ==> value[k] != '\''
    ensures var r := StripQuotes(value); r == [] || (r[0] != '"' && r[|r| - 1] != '"')
  {
    var t := Strip(value, IsDoubleQuote);
    var a := |value| - |LStrip(value, IsDoubleQuote)|;
    StripSpec(value, IsDoubleQuote);
    if t != [] {
      assert t[0] == value[a] && t[|t| - 1] == value[a + |t| - 1];
    }
    StripUnchanged(t, IsSingleQuote);
  }

  predicate IsQuote(c: char) { c == '"' || c == '\'' }

  /**
   * A setting becomes a bool exactly when its unquoted text spells "true" or
   * "false" in some case, and then the bool it names; otherwise it stays
   * the unquoted text.
   */
  lemma NormalizeSettingSpec(raw: string)
    ensures var v := StripQuotes(raw);
      && (NormalizeSetting(raw) == PyBool(true) <==> SpellsCaseless(v, "true"))
      && (NormalizeSetting(raw) == PyBool(false) <==> SpellsCaseless(v, "false"))
      && (!SpellsCaseless(v, "true") && !SpellsCaseless(v, "false") ==> NormalizeSetting(raw) == PyStr(v))
      && (NormalizeSetting(raw).PyBool? ==> ParseBool(PyStr(v), false) == Ok(NormalizeSetting(raw)))
  {
    var v := StripQuotes(raw);
    ParseBoolOfString(v, true);
    ParseBoolOfString(v, false);
  }

  /** One pair of quotes, of either kind, around text that neither starts nor ends with a quote is removed. */
  lemma StripQuotesOfQuoted(text: string)
    requires text == [] || (!IsQuote(text[0]) && !IsQuote(text[|text| - 1]))
    ensures StripQuotes("\"" + text + "\"") == text
    ensures StripQuotes("'" + text + "'") == text
  {
    StripUnchanged(text, IsSingleQuote);
    StripPair(text, IsDoubleQuote, '"');
    assert "\"" + text + "\"" == ['"'] + text + ['"'];
    var s := ['\''] + text + ['\''];
    assert "'" + text + "'" == s;
    StripUnchanged(s, IsDoubleQuote);
    StripPair(text, IsSingleQuote, '\'');
  }

  /** A setting whose unquoted text is "True" or "False" becomes that bool. */
  lemma FlagOfUnquoted(raw: string, word: string)
    requires word == "True" || word == "False"
    requires StripQuotes(raw) == word
    ensures NormalizeSetting(raw) == PyBool(word == "True")
  {
    ParseBoolSpellings(true);
  }

  /** Quotes around a boolean word do not stop it becoming a bool. */
  lemma QuotedFlag(word: string)
    requires word == "True" || word == "False"
    ensures NormalizeSetting("\"" + word + "\"") == PyBool(word == "True")
    ensures NormalizeSetting("'" + word + "'") == PyBool(word == "True")
  {
    StripQuotesOfQuoted(word);
    FlagOfUnquoted("\"" + word + "\"", word);
    FlagOfUnquoted("'" + word + "'", word);
  }

  // ---------------------------------------------------------------- get_config

  /** The options of every section, one section after the other, in the order the section proxies yield them. */
  function Flatten(sections: seq<seq<(string, string)>>): seq<(string, string)>
    decreases |sections|
  {
    if sections == [] then [] else Flatten(sections[..|sections| - 1]) + sections[|sections| - 1]
  }

  /** The dictionary built by assigning `config[key] = value(v)` for each option `(key, v)` in turn. */
  function Assign<V>(options: seq<(string, string)>, value: string -> V): map<string, V>
    decreases |options|
  {
    if options == [] then map[]
    else Assign(options[..|options| - 1], value)[options[|options| - 1].0 := value(options[|options| - 1].1)]
  }

  /** Assigning one more option updates one key. */
  lemma AssignSnoc<V>(options: seq<(string, string)>, option: (string, string), value: string -> V)
    ensures Assign(options + [option], value) == Assign(options, value)[option.0 := value(option.1)]
  {
    assert (options + [option])[..|options|] == options;
  }

  /** Taking one more element of `s` after `a`. */
  lemma TakeOneMore<T>(a: seq<T>, s: seq<T>, j: nat)
    requires j < |s|
    ensures a + s[..j + 1] == (a + s[..j]) + [s[j]]
  {
    assert s[..j + 1] == s[..j] + [s[j]];
  }

  /** One more section appends its options. */
  lemma FlattenSnoc(sections: seq<seq<(string, string)>>, i: nat)
    requires i < |sections|
    ensures Flatten(sections[..i + 1]) == Flatten(sections[..i]) + sections[i]
  {
    assert sections[..i + 1][..i] == sections[..i];
  }

  /**
   * The loop of `get_config` over the sections that `configparser` read,
   * each the list of (key, value) pairs its section proxy yields: values
   * after `%` interpolation, with the `[DEFAULT]` options appended to every
   * section.
   */
  method GetConfig(sections: seq<seq<(string, string)>>) returns (config: map<string, PyValue>)
    ensures config == Assign(Flatten(sections), NormalizeSetting)
  {
    config := map[];
    var i := 0;
    while i < |sections|
      invariant 0 <= i <= |sections|
      invariant config == Assign(Flatten(sections[..i]), NormalizeSetting)
    {
      ghost var before := Flatten(sections[..i]);
      var section := sections[i];
      var j := 0;
      assert before + section[..j] == before;
      while j < |section|
        invariant 0 <= j <= |section|
        invariant config == Assign(before + section[..j], NormalizeSetting)
      {
        var (key, raw) := section[j];
        AssignSnoc(before + section[..j], section[j], NormalizeSetting);
        TakeOneMore(before, section, j);
        config := config[key := NormalizeSetting(raw)];
        j := j + 1;
      }
      FlattenSnoc(sections, i);
      assert section[..j] == section;
      i := i + 1;
    }
    assert sections[..i] == sections;
  }

  /** The last option with a given key, if any. */
  ghost predicate IsLastWithKey(options: seq<(string, string)>, key: string, i: int) {
    0 <= i < |options| && options[i].0 == key && forall j :: i < j < |options| ==> options[j].0 != key
  }

  /**
   * The dictionary has a key for every option read and no other, and each
   * key holds the normalised value of the last option with that key: a
   * later section overrides an earlier one.
   */
  lemma {:induction false} AssignLastWins<V>(options: seq<(string, string)>, value: string -> V)
    ensures forall key :: key in Assign(options, value) <==> exists i :: 0 <= i < |options| && options[i].0 == key
    ensures forall key, i :: IsLastWithKey(options, key, i) ==>
      key in Assign(options, value) && Assign(options, value)[key] == value(options[i].1)
    decreases |options|
  {
    if options != [] {
      var n := |options| - 1;
      var init := options[..n];
      AssignLastWins(init, value);
      forall key | key in Assign(options, value)
        ensures exists i :: 0 <= i < |options| && options[i].0 == key
      {
        if key != options[n].0 {
          assert key in Assign(init, value);
          var i :| 0 <= i < |init| && init[i].0 == key;
          assert options[i].0 == key;
        } else {
          assert options[n].0 == key;
        }
      }
      forall key, i | IsLastWithKey(options, key, i)
        ensures key in Assign(options, value) && Assign(options, value)[key] == value(options[i].1)
      {
        if i < n {
          assert IsLastWithKey(init, key, i);
        }
      }
      forall key | exists i :: 0 <= i < |options| && options[i].0 == key
        ensures key in Assign(options, value)
      {
        var i :| 0 <= i < |options| && options[i].0 == key;
        if i < n {
          assert init[i].0 == key;
        }
      }
    }
  }

  /** What `get_config` returns: every key read, holding the normalised value of its last occurrence. */
  lemma GetConfigLastWins(sections: seq<seq<(string, string)>>, key: string)
    ensures key in Assign(Flatten(sections), NormalizeSetting) <==>
      exists i :: 0 <= i < |Flatten(sections)| && Flatten(sections)[i].0 == key
    ensures forall i :: IsLastWithKey(Flatten(sections), key, i) ==>
      key in Assign(Flatten(sections), NormalizeSetting) &&
      Assign(Flatten(sections), NormalizeSetting)[key] == NormalizeSetting(Flatten(sections)[i].1)
  {
    AssignLastWins(Flatten(sections), NormalizeSetting);
  }

  // ---------------------------------------------------------------- validate_api_keys

  /** The `ApiKeysTupleClass` tuple. */
  datatype ApiKeys = ApiKeys(gemini: string, clipDrop: string, stability: string)

  /** The exceptions `validate_api_keys` raises. */
  datatype KeyError =
    | MissingGeminiKey
    | MissingApiKey(platform: string)
    | InvalidImagePlatform(given: string, valid: seq<string>)

  const ValidImagePlatforms: seq<string> := ["stability", "clipdrop"]

  /** `validate_api_keys(apiKeys, image_platform)`. */
  function ValidateApiKeys(keys: ApiKeys, imagePlatform: string): (r: Outcome<KeyError>)
    ensures r == Pass ==> keys.gemini != "" && Lower(imagePlatform) in ValidImagePlatforms
    ensures r.Fail? && r.error.InvalidImagePlatform? ==> r.error.given !in ValidImagePlatforms
    ensures r.Fail? && r.error.MissingApiKey? ==> keys.stability == "" || keys.clipDrop == ""
  {
    var platform := Lower(imagePlatform);
    if keys.gemini == "" then Fail(MissingGeminiKey)
    else if platform in ValidImagePlatforms then
      if platform == "stability" && keys.stability == "" then Fail(MissingApiKey("Stability AI"))
      else if platform == "clipdrop" && keys.clipDrop == "" then Fail(MissingApiKey("ClipDrop"))
      else Pass
    else Fail(InvalidImagePlatform(platform, ValidImagePlatforms))
  }

  /**
   * The keys pass exactly when there is a Gemini key, the platform names
   * Stability or ClipDrop in some case, and that platform has a key.
   */
  lemma ValidateApiKeysPass(keys: ApiKeys, imagePlatform: string)
    ensures ValidateApiKeys(keys, imagePlatform) == Pass <==>
      && keys.gemini != ""
      && ((SpellsCaseless(imagePlatform, "stability") && keys.stability != "")
          || (SpellsCaseless(imagePlatform, "clipdrop") && keys.clipDrop != ""))
  {
    LowerEqualsWord(imagePlatform, "stability");
    LowerEqualsWord(imagePlatform, "clipdrop");
  }

  /**
   * A missing Gemini key is reported before anything about the platform;
   * an unknown platform is reported, lower-cased, with the valid ones; a
   * known platform without its key is reported by that platform's name.
   */
  lemma ValidateApiKeysErrors(keys: ApiKeys, imagePlatform: string)
    ensures keys.gemini == "" <==> ValidateApiKeys(keys, imagePlatform) == Fail(MissingGeminiKey)
    ensures keys.gemini != "" && !SpellsCaseless(imagePlatform, "stability") && !SpellsCaseless(imagePlatform, "clipdrop") ==>
      ValidateApiKeys(keys, imagePlatform) == Fail(InvalidImagePlatform(Lower(imagePlatform), ["stability", "clipdrop"]))
    ensures keys.gemini != "" && SpellsCaseless(imagePlatform, "stability") && keys.stability == "" ==>
      ValidateApiKeys(keys, imagePlatform) == Fail(MissingApiKey("Stability AI"))
    ensures keys.gemini != "" && SpellsCaseless(imagePlatform, "clipdrop") && keys.clipDrop == "" ==>
      ValidateApiKeys(keys, imagePlatform) == Fail(MissingApiKey("ClipDrop"))
  {
    LowerEqualsWord(imagePlatform, "stability");
    LowerEqualsWord(imagePlatform, "clipdrop");
  }
}
