# AI meme generator: verified model of its core routines

The meme generator is a Python script with a small Flask front end. The script:

- asks a chat model for a caption and an image prompt;
- parses the reply with `parse_meme`;
- has an image service draw the picture;
- writes the caption into a white band above the picture (`create_meme`);
- saves the result under the next free file counter (`set_file_path`).

The front end holds an in-memory table of accounts and a session with register, login and logout, plus a `login_required` guard.

This project models those routines in Dafny, one module per concern, and proves what each of them promises.

- `Results`: `Option`, `Result` and `Outcome` (pass or a named failure).
- `PyStr`: the Python string behaviour the routines rely on:
  - `str.isspace` and the `\s` class;
  - `strip` and `lstrip`/`rstrip` with a set of characters;
  - `lower` on ASCII letters;
  - `split()` and `join`;
  - `str(n)` and `int(s)`.

  Proved: splitting words joined by single spaces gives the words back, and `int(str(n)) == n`.
- `ResponseParser`: `parse_meme`. The regular expression `Meme Text: ("(.*?)"|(.*?))\n*\s*Image Prompt: (.*?)$` under `re.DOTALL` is modelled twice:
  - a semantic description, `IsMatch`: every way the pattern can match a message;
  - `Precedes`: the order in which a backtracking matcher tries those ways;
  - a computing matcher, `Search`, proved to return the first match in that order or nothing exactly when there is no match.

  On top of that the module proves:
  - the round trips for quoted and unquoted captions;
  - when a parse exists at all;
  - that an unquoted caption never ends in whitespace;
  - that the prompt is the rest of the message less at most one final newline;
  - that the three canned fallback replies of `send_and_receive_message` parse to their own caption and prompt.
- `Settings`:
  - `parseBool`;
  - the quote stripping and boolean conversion that `get_config` applies to each value;
  - `get_config`'s nested loop over the sections as a method, proved to build the dictionary in which the last option with a key wins;
  - `validate_api_keys` with its error precedence.
- `FileNaming`:
  - `get_next_counter` as a loop over the already-globbed names, proved to give one more than the largest counter read;
  - the file name `base_timestamp_counter.png`, which the counter rule reads back, so the new name is never among the existing ones and saving it advances the next counter by one.
- `WordWrap`: the greedy wrap loop of `create_meme` as a method. It is proved:
  - to produce the lines of a greedy cutting (`Greedy`), which is unique;
  - to produce non-empty lines that join back to the words.
- `CaptionLayout`: the font-size loop of `create_meme`, the wrap it falls back to, and the band and canvas arithmetic. Pillow's text measures are function parameters.
- `Accounts`:
  - `is_valid_email`, as the language of its pattern;
  - `is_valid_password`;
  - `register` and `login` as functions of the table;
  - `login_required`;
  - an `AccountStore` class whose `users` and `session` fields are updated by `Register`, `Login` and `Logout`. The class keeps the invariant that every stored account is well formed and that the session names a registered address.

The source loop builds `lines` and then breaks out of the font loop. In the model, `ShrinkFont` reports that the loop must wrap, and `LayoutWords` performs the wrap right after it. The two orders do the same thing, because `wrapped_text` is built and the loop is left in the same iteration.

A value that is neither `str` nor `bool` makes `parseBool` raise even when `silent` is set, because that branch is the outer `else` of the type test. The model does the same.

## Model

| member | source | states |
|---|---|---|
| PyStr.Lower | AIMemeGenerator.py:150 | `s.lower()` keeps the length and lower-cases each ASCII capital, leaving every other character as it is |
| PyStr.LowerIdempotent | AIMemeGenerator.py:150 | lower-casing a second time changes nothing |
| PyStr.LowerEqualsWord | AIMemeGenerator.py:150-153 | `s.lower()` equals a lower-case word exactly when `s` has the word's length and each character is that letter or its capital |
| PyStr.LStrip | AIMemeGenerator.py:179 | the result is a suffix of the input; everything removed is a dropped character; the result does not start with one |
| PyStr.RStrip | AIMemeGenerator.py:596 | the result is a prefix of the input; everything removed is a dropped character; the result does not end with one |
| PyStr.Strip | AIMemeGenerator.py:179 | `s.strip(chars)` is no longer than `s` and neither starts nor ends with a dropped character |
| PyStr.StripSpec | AIMemeGenerator.py:179 | `strip` leaves a slice of the input with only dropped characters outside it, and the slice neither starts nor ends with one |
| PyStr.StripUnchanged | AIMemeGenerator.py:179 | a string that neither starts nor ends with a dropped character is left unchanged |
| PyStr.StripPair | AIMemeGenerator.py:179 | one dropped character on each side of an already stripped string is all that `strip` removes |
| PyStr.SliceAfterDroppingTwice | AIMemeGenerator.py:179 | two strips in a row remove only characters that one of the two sets drops |
| PyStr.Split | AIMemeGenerator.py:582 | every part `split()` returns is non-empty and holds no whitespace |
| PyStr.SplitEmptyIffBlank | AIMemeGenerator.py:582 | `split()` returns no words exactly when the string is all whitespace |
| PyStr.SplitWord | AIMemeGenerator.py:582 | a word followed by nothing or by whitespace is the first part split off |
| PyStr.SplitLeadingSpace | AIMemeGenerator.py:582 | leading whitespace does not change the parts |
| PyStr.SplitJoin | AIMemeGenerator.py:582 | splitting words joined with single spaces gives the same words back |
| PyStr.JoinConcat | AIMemeGenerator.py:601 | joining two non-empty lists is joining each, with one separator between |
| PyStr.JoinNonEmpty | AIMemeGenerator.py:601 | joining a non-empty list of non-empty strings gives a non-empty string |
| PyStr.NatToString | AIMemeGenerator.py:362 | `str(n)` is a non-empty string of decimal digits |
| PyStr.NatToStringRoundTrip | AIMemeGenerator.py:362 | the digits `str(n)` writes have the value `n` |
| PyStr.PyInt | AIMemeGenerator.py:344 | `int(s)` succeeds only on a string that is not all the whitespace `int()` skips, which is `str.isspace` less U+001C..U+001F |
| PyStr.PyIntOfDigits | AIMemeGenerator.py:344 | an optional `+` or `-` and one or more ASCII digits, padded with that whitespace, read as the signed value of the digits |
| PyStr.PyIntRejectsSeparator | AIMemeGenerator.py:344-347 | U+001C is whitespace to `str.isspace`, yet `int("\x1c5")` raises `ValueError` |
| PyStr.PyIntOfNatToString | AIMemeGenerator.py:344 | `int(str(n)) == n` |
| Settings.ParseBool | AIMemeGenerator.py:148-165 | a success is a bool, or the value itself when silent; a silent call on a string never raises; a value that is neither `str` nor `bool` always raises |
| Settings.ParseBoolOfString | AIMemeGenerator.py:149-158 | a string gives `True` or `False` exactly when it spells "true" or "false" in any case; any other string is returned as it is when silent and otherwise raises with the message naming it |
| Settings.ParseBoolOfOther | AIMemeGenerator.py:159-165 | a bool passes through; any other value raises, silent or not |
| Settings.ParseBoolIdempotent | AIMemeGenerator.py:148-165 | feeding `parseBool` its own result changes nothing |
| Settings.ParseBoolSpellings | AIMemeGenerator.py:148-153 | "True", "TRUE", "False" and "false" read as the bools they name |
| Settings.StripQuotes | AIMemeGenerator.py:179 | the stripped value is no longer than the raw one and neither starts nor ends with `'` |
| Settings.StripQuotesSpec | AIMemeGenerator.py:179 | `strip('"').strip("'")` removes only quote characters from the two ends and leaves no `'` at either end |
| Settings.StripQuotesNoSingle | AIMemeGenerator.py:179 | a value without `'` also loses every surrounding `"` |
| Settings.StripQuotesOfQuoted | AIMemeGenerator.py:179 | one pair of double or single quotes around unquoted text is removed |
| Settings.NormalizeSetting | AIMemeGenerator.py:179-183 | a setting is stored either as its unquoted text or as a bool, and a bool only when the second, non-silent `parseBool` returns that bool |
| Settings.NormalizeSettingSpec | AIMemeGenerator.py:179-183 | a setting becomes `True`/`False` exactly when its unquoted text spells that word in some case, and then the second, non-silent `parseBool` returns the same bool; otherwise it stays the unquoted text |
| Settings.FlagOfUnquoted | AIMemeGenerator.py:179-183 | a setting whose unquoted text is "True" or "False" becomes that bool |
| Settings.QuotedFlag | AIMemeGenerator.py:179-183 | a quoted "True" or "False", in either kind of quotes, becomes that bool |
| Settings.GetConfig | AIMemeGenerator.py:174-185 | the nested loop builds the dictionary that assigns each option's normalised value in the order the section proxies yield the options |
| Settings.AssignLastWins | AIMemeGenerator.py:175-183 | the dictionary holds exactly the keys read, each with the value of its last occurrence |
| Settings.GetConfigLastWins | AIMemeGenerator.py:174-185 | `get_config` has a key exactly when some section has that option, and a later option overrides an earlier one |
| Settings.ValidateApiKeys | AIMemeGenerator.py:264-279 | passing needs a Gemini key and a known platform; an unknown platform is reported as one not in the valid list; a missing platform key means one of the two image keys is empty |
| Settings.ValidateApiKeysPass | AIMemeGenerator.py:264-279 | the keys pass exactly when the Gemini key is present, the platform is "stability" or "clipdrop" in some case, and that platform's key is present |
| Settings.ValidateApiKeysErrors | AIMemeGenerator.py:264-279 | a missing Gemini key is reported first; then an unknown platform, together with the valid ones; then the missing key of the chosen platform |
| FileNaming.LastField | AIMemeGenerator.py:344 | `split(sep)[-1]` is the suffix after the last separator, or the whole string |
| FileNaming.FirstField | AIMemeGenerator.py:344 | `split(sep)[0]` is the prefix before the first separator, or the whole string |
| FileNaming.LastFieldOf | AIMemeGenerator.py:344 | the last field is what follows the last separator |
| FileNaming.FirstFieldOf | AIMemeGenerator.py:344 | the first field is what precedes the first separator |
| FileNaming.ParseCounter | AIMemeGenerator.py:344-347 | the counter a name carries is `int()` of the text between its last `_` and the next dot; a `ValueError` there gives no counter |
| FileNaming.MaxCounter | AIMemeGenerator.py:341-346 | the running maximum starts at 0 and skips names without a counter, so it is never negative |
| FileNaming.MaxCounterIsUpperBound | AIMemeGenerator.py:341-349 | the maximum is at least 0 and at least every counter read |
| FileNaming.MaxCounterIsAttained | AIMemeGenerator.py:341-349 | the maximum is 0 or a counter actually read from a name |
| FileNaming.NextCounter | AIMemeGenerator.py:336-349 | the loop returns one more than the largest counter read (from 0); the result is at least 1, above every counter read, and 1 or one more than a counter some name carries |
| FileNaming.UnparseableIgnored | AIMemeGenerator.py:343-347 | a name without a readable counter does not change the next counter |
| FileNaming.CountersSnoc | AIMemeGenerator.py:342-344 | one more name adds what the rule reads from it |
| FileNaming.MaxCounterSnoc | AIMemeGenerator.py:345 | a counter above the maximum becomes the maximum |
| FileNaming.FileName | AIMemeGenerator.py:362 | the file name `base_timestamp_counter.png` with the counter in decimal |
| FileNaming.FileNameLastField | AIMemeGenerator.py:362 | the last `_`-field of a file name is the counter's digits followed by ".png" |
| FileNaming.FileNameCounterField | AIMemeGenerator.py:344 | the fields the rule cuts out of a file name are the counter's digits |
| FileNaming.FileNameCounter | AIMemeGenerator.py:344 | the rule reads back the counter a name was built with, whatever the base name and timestamp |
| FileNaming.NextFileIsNew | AIMemeGenerator.py:349-362 | the new file name is not among the existing names |
| FileNaming.NextCounterAfterSave | AIMemeGenerator.py:336-362 | once the new file exists, the next counter is one larger |
| WordWrap.JoinSnoc | AIMemeGenerator.py:596 | a line with one more word is the line, a space and the word |
| WordWrap.ExtendedLine | AIMemeGenerator.py:596 | `(lines[-1] + ' ' + word).rstrip()` is the last line with the word added |
| WordWrap.RStripKeeps | AIMemeGenerator.py:596 | `rstrip` keeps a string whose last character is not dropped |
| WordWrap.ExtendLine | AIMemeGenerator.py:599-600 | extending the last line when the longer line fits keeps the cutting greedy |
| WordWrap.ExtendLines | AIMemeGenerator.py:600 | `lines[-1] = new_line` changes the last line and no other |
| WordWrap.BreakLine | AIMemeGenerator.py:597-598 | starting a new line when the extended line does not fit keeps the cutting greedy |
| WordWrap.BreakLineFits | AIMemeGenerator.py:597-598 | the lines before a new one keep their words, so they still fit |
| WordWrap.BreakLineEnds | AIMemeGenerator.py:597-598 | every line before the new one, the one just ended included, ended because its next word did not fit on it |
| WordWrap.BreakLines | AIMemeGenerator.py:598 | `lines.append(word)` adds a line holding only that word |
| WordWrap.WrapWords | AIMemeGenerator.py:594-601 | the loop yields the lines of a greedy cutting; they are non-empty and joined with single spaces give `' '.join(words)` |
| WordWrap.WrappedLines | AIMemeGenerator.py:594-601 | the lines of a cutting of all the words are non-empty and join back to the words |
| WordWrap.LinesNonEmpty | AIMemeGenerator.py:594-601 | every line holds at least one word, so it is not empty |
| WordWrap.LinesJoinBack | AIMemeGenerator.py:594-601 | the lines joined with single spaces are the words joined with single spaces |
| WordWrap.GreedyUnique | AIMemeGenerator.py:594-601 | two greedy cuttings of the same words under the same measure are equal |
| WordWrap.NextBreakNotEarlier | AIMemeGenerator.py:597-600 | where two greedy cuttings start a line at the same word and then differ, neither can start its next line earlier than the other, so they cannot differ |
| CaptionLayout.ShrinksLeftDecreases | AIMemeGenerator.py:590-592 | a 10% reduction that stays at or above the minimum leaves fewer reductions, so the loop ends |
| CaptionLayout.Arrange | AIMemeGenerator.py:605-624 | the layout keeps the text and font it is given; the canvas is as wide as the image and as tall as band plus image, and the image is pasted where the band ends |
| CaptionLayout.ArrangeFits | AIMemeGenerator.py:605-624 | the canvas is as wide as the image and as tall as band plus image; the image starts where the band ends; the band height is the text block height plus `int(font_size * 0.1)` plus a buffer above and below; the text is anchored at the middle of the band |
| CaptionLayout.WrapText | AIMemeGenerator.py:594-601 | the wrapped text is the greedy lines joined by newlines |
| CaptionLayout.ShrinkFont | AIMemeGenerator.py:585-603 | every font tried before the last was too wide; each reduction kept the size at or above the minimum; the loop ends with a font that fits, or with the next size below the minimum and the wrap pending |
| CaptionLayout.LayoutWords | AIMemeGenerator.py:587-624 | either the caption fits and is drawn unchanged, or the size fell below the minimum and the caption is drawn greedily wrapped with the last font loaded; with no words there, `words[0]` fails |
| CaptionLayout.LayoutCaption | AIMemeGenerator.py:576-624 | the same, with the buffer, first font size and minimum computed from the image width and the scales, and the words from `split()` |
| CaptionLayout.DefaultScalesFit | AIMemeGenerator.py:569-587 | at the default scales the first font is the image width, the buffers leave a positive width for the text, and the minimum size is positive |
| ResponseParser.GapEnd | AIMemeGenerator.py:485 | the greedy gap is a whitespace run ending before a non-whitespace character |
| ResponseParser.LabelAfter | AIMemeGenerator.py:485 | when `\n*\s*Image Prompt: ` matches at a position, the gap is whitespace and the label follows it |
| ResponseParser.LazyEnd | AIMemeGenerator.py:485 | lazy `(.*?)$` stops at the first position where `$` holds |
| ResponseParser.FirstClosingQuote | AIMemeGenerator.py:485 | lazy `"(.*?)"` stops at the first quote after which the rest of the pattern matches |
| ResponseParser.FirstGap | AIMemeGenerator.py:485 | the lazy unquoted group stops at the first position after which the rest of the pattern matches |
| ResponseParser.QuotedAlternative | AIMemeGenerator.py:485 | a successful quoted alternative is a match starting where tried, with the lazy group 4 |
| ResponseParser.UnquotedAlternative | AIMemeGenerator.py:485 | a successful unquoted alternative is a match starting where tried, stopping its caption at the first gap |
| ResponseParser.MatchAt | AIMemeGenerator.py:485 | quoted before unquoted; whatever is returned is a match starting at the position tried |
| ResponseParser.SearchFrom | AIMemeGenerator.py:487 | the match found starts at or after the position given, and no match starts between the two |
| ResponseParser.Search | AIMemeGenerator.py:485-487 | a match found is a way the pattern matches, computed at its start; no match starts before it, and none at all when nothing is found |
| ResponseParser.LabelUnique | AIMemeGenerator.py:485 | only the greedy whitespace run can be followed by "Image Prompt: " |
| ResponseParser.QuotedAlternativeFirst | AIMemeGenerator.py:485 | a quoted match makes the quoted alternative succeed, with a caption no longer than that match's |
| ResponseParser.UnquotedAlternativeFirst | AIMemeGenerator.py:485 | an unquoted match makes the pattern succeed at that position, quoted or with a caption no longer |
| ResponseParser.SameCaptionFirst | AIMemeGenerator.py:485 | matches that agree up to the caption agree on the label, and the lazy prompt comes first |
| ResponseParser.MatchAtIsFirst | AIMemeGenerator.py:485 | the match computed at a position precedes every other match starting there |
| ResponseParser.SearchIsFirstMatch | AIMemeGenerator.py:485-487 | `re.search` finds nothing exactly when no match exists, and otherwise the match tried before all others |
| ResponseParser.ParseMeme | AIMemeGenerator.py:483-498 | a parse exists exactly when the search finds a match, and then the two labels, the caption and the prompt fit in the message |
| ResponseParser.ParseMemeIsFirstMatch | AIMemeGenerator.py:485-498 | `None` exactly when the pattern cannot match; otherwise the groups of the first match |
| ResponseParser.ParseMemeSomeIff | AIMemeGenerator.py:485-498 | there is a parse exactly when some "Meme Text: " is followed later by "Image Prompt: " |
| ResponseParser.ParseMemeOfSearch | AIMemeGenerator.py:489-498 | the parse is group 2 or 3 and group 4 of the search result, and `None` without one |
| ResponseParser.UnquotedCaptionIsTrimmed | AIMemeGenerator.py:485-491 | an unquoted caption never ends in whitespace |
| ResponseParser.PromptIsRestOfMessage | AIMemeGenerator.py:485-495 | the prompt is the rest of the message after "Image Prompt: ", less one final newline exactly when the message ends with one |
| ResponseParser.QuotedParse | AIMemeGenerator.py:485-496 | a message with a closed quote after "Meme Text: ", then a newline and "Image Prompt: ", parses to the quoted text and the rest |
| ResponseParser.QuotedRoundTrip | AIMemeGenerator.py:485-496 | a caption without `"` and a prompt without a final newline, written as `Meme Text: "c"` newline `Image Prompt: p`, parse back to themselves (group 2 wins) |
| ResponseParser.UnquotedParse | AIMemeGenerator.py:485-496 | an unquoted caption followed by a newline and "Image Prompt: " parses to the caption and the rest |
| ResponseParser.UnquotedRoundTrip | AIMemeGenerator.py:485-496 | a caption that does not open with `"`, does not end in whitespace and does not contain "Image Prompt: " parses back, and so does the prompt |
| ResponseParser.NoLabelInCaption | AIMemeGenerator.py:485 | "Image Prompt: " cannot start inside a caption that does not contain it |
| ResponseParser.NoTextFallbackParses | AIMemeGenerator.py:552-557 | the reply for a response without text parses to "Error: Could not generate meme text" and its prompt |
| ResponseParser.GenerationFallbackParses | AIMemeGenerator.py:558-561 | the reply for a failed generation parses to "Error: AI had trouble generating the meme" and "A frustrated cat typing on a keyboard" |
| ResponseParser.ModelInitFallbackParses | AIMemeGenerator.py:563-566 | the reply for a model that could not be set up parses to its caption and prompt |
| ResponseParser.FallbacksParse | AIMemeGenerator.py:556-566 | every canned reply parses to its own caption and prompt |
| Accounts.IsValidEmail | app.py:27-30 | the address has the pattern's shape (see `IsValidEmailIff`), or does after one final newline is removed |
| Accounts.IsValidPassword | app.py:32-34 | a password is valid when it has at least 8 characters |
| Accounts.FirstIndexOf | app.py:29 | the index of the first `@`: no `@` before it |
| Accounts.LastIndexOf | app.py:29 | the index of the last dot: no dot after it |
| Accounts.EmailShapeIff | app.py:29-30 | the only possible cut of an address is at the first `@` and the last dot, so the pattern matches exactly when that cut has the right parts |
| Accounts.IsValidEmailIff | app.py:27-30 | `is_valid_email` holds exactly when the address, or the address less one final newline, is in the pattern's language |
| Accounts.ValidEmailHasNoInnerSpace | app.py:29-30 | a valid address holds no whitespace except the final newline `$` allows |
| Accounts.NormalizeEmail | app.py:49 | `email.strip().lower()` is no longer than the address, neither starts nor ends with whitespace, and holds no ASCII capital |
| Accounts.NormalizeEmailIdempotent | app.py:49 | normalising a normalised address changes nothing |
| Accounts.RegisterCheck | app.py:53-63 | the four checks of `register` in their order: empty field, address format, password length, duplicate (see `RegisterCheckPass` and `RegisterCheckOrder`) |
| Accounts.Registered | app.py:66-69 | the table after `register`: the new entry under the normalised address on success, the old table otherwise (see `RegisteredChangesOneEntry`) |
| Accounts.RegisterCheckPass | app.py:48-63 | `register` succeeds exactly when the stripped name and the password are present, the normalised address is valid and new, and the password has 8 characters |
| Accounts.RegisterCheckOrder | app.py:53-63 | the rejection given is the first check that fails, in the order empty field, address format, password length, duplicate |
| Accounts.RegisteredChangesOneEntry | app.py:53-69 | a rejection leaves the table as it was; a success adds exactly the new normalised address with the password and stripped name, and keeps every other entry |
| Accounts.LoginCheck | app.py:79-84 | `login` succeeds when the normalised address is stored and the password given equals the stored one |
| Accounts.RegisterThenLogin | app.py:48-84 | after a successful register, a login with the same password and any address that normalises to the same key succeeds |
| Accounts.RegisterTwice | app.py:62-69 | registering a taken address again fails and leaves the first account as it was |
| Accounts.LoginRequired | app.py:19-25 | the handler runs exactly when someone is logged in; otherwise the request is redirected |
| Accounts.RegisteredWellFormed | app.py:48-69 | `register` keeps every stored account well formed |
| Accounts.NewAccountWellFormed | app.py:66-69 | what `register` stores has a valid normalised address, a valid password and a stripped non-empty name |
| Accounts.SeedAccountWellFormed | app.py:12-17 | the built-in test account is well formed |
| Accounts.AccountStore.constructor | app.py:12-17 | the table starts with the test account alone and nobody logged in |
| Accounts.AccountStore.Register | app.py:43-71 | returns the first failed check, or success, and updates the table accordingly; the invariant is kept |
| Accounts.AccountStore.Login | app.py:74-86 | succeeds exactly when the normalised address is stored with that password; success records it in the session, failure leaves the session as it was |
| Accounts.AccountStore.Logout | app.py:89-91 | removes the logged-in user, if any, and changes nothing else |
| Accounts.AccountStore.GetUser | app.py:102-109 | behind the guard, the logged-in address and its stored name |

## Left out

- Chat, image and update services, file system, clock and console are left out. This covers Gemini, Stability AI and ClipDrop calls, `check_for_update`, `check_font`, `get_settings`, `get_api_keys`, `write_log_file`, `generate` and `generate_meme`, because they are I/O. Only the canned fallback replies of `send_and_receive_message` are modelled, as constants picked by the kind of failure.
- `set_file_path` is modelled without `glob`, `datetime.now`, `os.path` or folder creation. The names already saved and the timestamp are parameters.
- `get_config` is modelled without `configparser`. Each section is given as the (key, value) pairs its section proxy yields: values after `%` interpolation, with the `[DEFAULT]` options appended to every section. Interpolation itself, the `InterpolationSyntaxError` it raises on a lone `%` (swallowed by `get_settings`, propagated by `get_api_keys`), and the merging of `[DEFAULT]` are not modelled.
- `create_meme` is modelled without Pillow. The text width (`textbbox(...)[2]`) and the block height of `multiline_textbbox` are function parameters, and so are the image dimensions. Loading fonts, drawing, pasting, saving and the PNG buffer are not modelled.
- CaptionLayout.ShrinkFont: `font_size` is an exact real multiplied by 0.9, not an IEEE double. A float rounding that moves the size across the minimum, or changes `int(font_size)`, is not modelled.
- CaptionLayout.LayoutCaption: requires `imageWidth > 0` and `minScale > 0`. Without them the source loop need not stop, because a size that can never drop below a minimum of 0 keeps shrinking while the text does not fit.
- PyStr.Lower: lower-cases ASCII letters only. Python's `str.lower` also maps other Unicode letters.
- PyStr.PyInt: rejects the `_` digit separators and non-ASCII decimal digits that Python's `int()` accepts. Its whitespace is that of `int()`: `str.isspace` without U+001C..U+001F.
- Flask is left out: request decoding, templates, `redirect`, `jsonify` and HTTP status codes. A failed `register` or `login` is its error value. An absent JSON field is the empty string (for `password` in `login`, `None`). JSON values that are not strings are outside the model.
- Accounts.AccountStore: one session, that of a single client. Flask's signed per-client cookies are not modelled.
- Accounts.AccountStore.GetUser: the `KeyError` for a session naming an unknown address becomes the value `UnknownUser`. The store's invariant rules that case out.
- Settings.ValidateApiKeys: a missing key is the empty string. Python's other falsy values are not modelled.
- The `/generate` and page routes of the front end are left out, because they only render templates or call the script.
