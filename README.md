# snakeoil bash-file reader and argument-parser rules, modelled in Dafny

This project models `snakeoil/bash.py`, which reads shell-style configuration
files that are never executed (make.conf, libtool `.la` files), and the
self-contained rules of `src/snakeoil/cli/arghparse.py`.

The bash reader has four parts, one module each:

- **`CommentFilter`** (`comments.dfy`) models `iter_read_bash` and `read_bash`.
  Each line is stripped. Blank lines and `#` lines are dropped. When inline
  comments are allowed, a line is cut at its first `#` and right-trimmed.
- **`Interpolate`** (`interpolate.dfy`) models `var_find`, `backslash_find`,
  `_nuke_backslash` and `bash_parser.var_expand`:
  - a left-to-right scan replaces `$NAME` and `${NAME}` from an environment;
  - a reference preceded by a backslash is kept;
  - a final pass removes every backslash followed by a character other than
    a newline, keeping that character.
- **`Spans`** (`spans.dfy`) and **`Parser`** (`parser.dfy`) model the span
  recorder of `bash_parser.__setattr__` and the token assembly of
  `bash_parser.read_token`.
  - A `BashParser` class carries the recorder state, the pushback and the
    lexer input.
  - `ProtectedDict` is a class with a protected base and a written overlay.
- **`Builder`** (`builder.dfy`) models `read_bash_dict` and `BashParseError`.
  - `Run` is the specification function of the assignment loop.
  - `ReadBashDict` is the loop itself, driving a `BashParser`, and is proved
    equal to `DictResult` for the cut table it is given.

`PyFormat` (`pyformat.dfy`) holds the `%i` and `%r` conversions the error
messages use. `Wrappers` holds `Option` and `Result`.

shlex's character loop is not part of the model. The parser is driven by
what shlex produces, item by item:

- a trace of state assignments, with the text read before each one;
- a character the lexer pushed back;
- a lexer `ValueError`.

`Arghparse` (`arghparse.dfy`) models the following rules from `arghparse.py`:

- comma splitting of option values;
- the actions that extend or combine list attributes of a `Namespace` class;
- `StoreBool.boolean`;
- the `Verbosity` counter and the initial verbosity taken from argv;
- unique-prefix subcommand abbreviation;
- help and description defaulting in `_SubParser.add_parser`.

## Model

| member | source | states |
|---|---|---|
| CommentFilter.Strip | snakeoil/bash.py:50 | the result is a slice of the line with only whitespace before and after it (`StrippedAt`), so only leading and trailing whitespace is removed; it has no whitespace at either end, and is empty exactly when the line is all whitespace |
| CommentFilter.RStrip | snakeoil/bash.py:53 | the result is a prefix of the input with no trailing whitespace, and only whitespace was removed |
| CommentFilter.BeforeHash | snakeoil/bash.py:53 | the result is the prefix before the first `#` and holds no `#` |
| CommentFilter.CleanLineIsClean | snakeoil/bash.py:49-54 | a kept line is non-empty, does not start with `#` and, in inline mode, holds no `#`; a line is dropped exactly when it strips to nothing or starts with `#` |
| CommentFilter.FilterLinesAppend | snakeoil/bash.py:49-54 | the filter works line by line: filtering a concatenation is concatenating the filtered parts |
| CommentFilter.FilterLinesAreClean | snakeoil/bash.py:49-54 | no yielded line is empty or starts with `#`, and in inline mode none contains `#` |
| CommentFilter.FilterLinesMembership | snakeoil/bash.py:49-54 | a text is yielded exactly when some input line cleans to it |
| CommentFilter.ReadBash | snakeoil/bash.py:57-67 | the loop returns exactly the filtered lines in input order, all of them clean |
| Interpolate.InterpError.Message | snakeoil/bash.py:239-241 | the ValueError text begins `env key '` followed by the key |
| Interpolate.WordRunFrom | snakeoil/bash.py:145 | `\w+` is greedy: every character in the run is a word character and the next one is not |
| Interpolate.GroupAtShape | snakeoil/bash.py:145 | a group match covers exactly `$NAME` or `${NAME}` |
| Interpolate.MatchAt | snakeoil/bash.py:145 | a match names a non-empty run of word characters and is escaped exactly when it starts with a backslash |
| Interpolate.Search | snakeoil/bash.py:226 | the search returns the leftmost match at or after the start, and there is no match before it |
| Interpolate.StripSigils | snakeoil/bash.py:234 | stripping `${}` from the matched text gives the name |
| Interpolate.SubstSkip | snakeoil/bash.py:227-246 | text with no match in it is copied unchanged into the output |
| Interpolate.SubstituteRefs | snakeoil/bash.py:224-247 | the scanning loop computes the reference substitution `Subst` |
| Interpolate.ReplaceRef | snakeoil/bash.py:234-245 | one unescaped match appends the pending text and the replacement, then resumes after the match |
| Interpolate.ScanMatch | snakeoil/bash.py:228-246 | one round of the loop advances the scan and keeps the output equal to the substitution |
| Interpolate.VarExpand | snakeoil/bash.py:223-250 | var_expand computes `Expand`, which is substitution followed by backslash collapsing |
| Interpolate.NoSigilsNoMatch | snakeoil/bash.py:145 | text without `$` has no match |
| Interpolate.UnescapeIdentity | snakeoil/bash.py:146-154 | text without a backslash is unchanged by the collapsing pass |
| Interpolate.ExpandIdentity | snakeoil/bash.py:223-250 | var_expand is the identity on text with no `$` and no backslash |
| Interpolate.SubstReference | snakeoil/bash.py:234-245 | `$NAME` is replaced by env[NAME], by the empty string when the key is absent, and the scan resumes after it |
| Interpolate.SubstBracedReference | snakeoil/bash.py:234-245 | the same holds for `${NAME}` |
| Interpolate.WordRunSpan | snakeoil/bash.py:145 | the word run ends exactly at the first non-word character |
| Interpolate.ExpandRejectsNonString | snakeoil/bash.py:237-241 | a reference to a non-string binding fails with the error naming the key, its type and its repr |
| Interpolate.BackslashSigilCopied | snakeoil/bash.py:229-232 | an escaped match is kept and the scan resumes two characters on |
| Interpolate.EscapedSigilIsLiteral | snakeoil/bash.py:229-232 | `\$FOO` ends up as the literal `$FOO` |
| Interpolate.UnescapeKeepsLineContinuation | snakeoil/bash.py:146 | a backslash-newline pair is not touched by the collapsing pass |
| Interpolate.UnescapeEscapeAll | snakeoil/bash.py:146-154 | collapsing undoes backslash-escaping of every character other than a newline |
| PyFormat.Decimal | snakeoil/bash.py:260 | `%i` gives decimal digits with no leading zero |
| PyFormat.DecimalRoundTrip | snakeoil/bash.py:260 | the digits read back to the number |
| PyFormat.Repr | snakeoil/bash.py:120 | `%r` of a string is enclosed in the quote repr chooses |
| PyFormat.ReprPlain | snakeoil/bash.py:120 | printable text without quotes or backslashes is shown between single quotes as it stands |
| PyFormat.EscapeCharRoundTrip | snakeoil/bash.py:120 | each escaped character reads back to itself |
| PyFormat.ReprRoundTrip | snakeoil/bash.py:120 | repr of a byte string reads back to the string |
| Spans.SetStateValid | snakeoil/bash.py:187-196 | a state assignment keeps the recorder invariant (spans are non-empty cuts that join to the token up to `__pos`); on a cut, `__pos` moves to the end of the token; otherwise only the state changes |
| Spans.Advance | snakeoil/bash.py:187-196 | one step grows the token by what was read and assigns the state, keeping the invariant |
| Spans.Replay | snakeoil/bash.py:187-196 | after a trace, the token is everything read, the state is the last one assigned, and the invariant holds |
| Spans.ReplayAppend | snakeoil/bash.py:187-196 | replaying two traces in turn is replaying their concatenation |
| Spans.ReplayNoCuts | snakeoil/bash.py:189-190 | with no cut transition, no span is recorded |
| Spans.FinishCovers | snakeoil/bash.py:208-214 | shlex's None gives no spans; otherwise the spans plus the final span join to the whole token at end of input, and to the token up to the last cut otherwise |
| Spans.EndsOnCut | snakeoil/bash.py:191-195 | a token ending on a cut transition is covered completely by its spans |
| Spans.RemoveContinuationsIdentity | snakeoil/bash.py:218 | text without a backslash keeps its line continuations (it has none) |
| Spans.ContinuationJoinsLines | snakeoil/bash.py:218 | a backslash-newline pair is removed, joining the lines |
| Spans.AssembleAppend | snakeoil/bash.py:215-221 | assembly distributes over concatenated spans, and the first failing interpolation wins |
| Spans.AssembleVerbatim | snakeoil/bash.py:216-220 | single-quoted spans, end-of-input spans and sigil-free spans are copied verbatim |
| Spans.ReadTokenOfSpans | snakeoil/bash.py:204-221 | read_token returns the assembly of the recorded spans and leaves the last assigned state |
| Spans.WordSteps | snakeoil/bash.py:207 | the trace of an unquoted word reads exactly the word |
| Spans.ReplayWord | snakeoil/bash.py:187-196 | reading an unquoted word records no span |
| Spans.ReplaySingleQuoted | snakeoil/bash.py:187-196 | reading inside single quotes records no span |
| Spans.QuotedAfterOpening | snakeoil/bash.py:207 | a token that opens a quote is quoted, so it is never returned as None |
| Spans.WordBeforeSingleQuoteAsWritten | snakeoil/bash.py:189-190 | with the cuts as written, `w'q'` is returned as w then q, verbatim, so references in w are not interpolated |
| Spans.WordBeforeSingleQuoteCorrected | snakeoil/bash.py:189-190 | with the corrected cuts, w is interpolated and q is copied |
| Spans.WordAtEndAsWritten | snakeoil/bash.py:210-212 | with the cuts as written, an unquoted word at end of input is copied verbatim |
| Spans.WordAtEndCorrected | snakeoil/bash.py:210-212 | with the corrected cuts, the word is interpolated like any unquoted word |
| Spans.WordThenBlank | snakeoil/bash.py:189-190 | a word ended by a blank is interpolated under either set of cuts |
| Spans.WordThenCut | snakeoil/bash.py:187-221 | an unquoted word ended by a cut into a state that is not interpolated yields the interpolation of the whole word |
| Spans.LonePunctuationIsEmpty | snakeoil/bash.py:208-214 | a character returned at once from between tokens assembles to the empty token |
| Spans.DollarBeforeSingleQuote | snakeoil/bash.py:189-190 | for `$A'b'` with A=1, the code as written gives `$Ab` and the corrected cuts give `1b` |
| Spans.DollarAtEnd | snakeoil/bash.py:210-212 | for `$A` at end of input with A=1, the code as written gives `$A` and the corrected cuts give `1` |
| Spans.ReferenceValue | snakeoil/bash.py:218 | an unquoted `$NAME` span assembles to the binding of NAME |
| Spans.ReferenceToken | snakeoil/bash.py:204-221 | an unquoted `$NAME` token ended by a blank reads as the binding of NAME |
| Parser.Overlay | snakeoil/bash.py:90-91 | the environment has the keys of the base and the overlay; an overlay key reads its overlay string, any other key reads the base |
| Parser.ProtectedDict.Set | snakeoil/bash.py:134 | a write changes the overlay only |
| Parser.GetTokenResult | snakeoil/bash.py:109 | the pushback is served first, in order; a token other than None consumes input; pushback left empty stays empty |
| Parser.ReadAtEnd | snakeoil/bash.py:208-209 | past the input shlex leaves the lexer at end of input, and from between tokens returns None |
| Parser.GetTokenPushback | snakeoil/bash.py:129-130 | a pushed token is read back next, before the lexer |
| Parser.PushbackLikeLexer | snakeoil/bash.py:129-133 | a pushed-back token reads the same as the lexer producing it |
| Parser.BashParser.constructor | snakeoil/bash.py:165-185 | a parser starts between tokens, on line 1, with nothing pushed back |
| Parser.BashParser.SetState | snakeoil/bash.py:187-196 | the state hook updates the recorder as `Spans.SetState` does and touches nothing else |
| Parser.BashParser.Lex | snakeoil/bash.py:207 | reading a trace replays it through the hook and sets shlex's `quoted` flag |
| Parser.BashParser.AssembleSpans | snakeoil/bash.py:215-221 | the assembly loop computes `Assemble` |
| Parser.BashParser.ReadToken | snakeoil/bash.py:204-221 | read_token computes `ReadTokenResult` and leaves the token empty |
| Parser.BashParser.Complete | snakeoil/bash.py:208-221 | the end of read_token computes `TokenOf`: None for an empty unquoted token, otherwise the spans with the final span assembled; the token is reset and the lexer position is kept |
| Parser.BashParser.GetToken | snakeoil/bash.py:109 | get_token computes `GetTokenResult` on the parser state |
| Parser.BashParser.PushToken | snakeoil/bash.py:129-130 | push_token puts the token at the front of the pushback and changes nothing else |
| Builder.BashParseError.Message | snakeoil/bash.py:257-266 | the message starts with `error parsing '` and the file name; after the name comes `' on or before line ` and the line number in decimal, followed by `: err ` and the error when there is one and by nothing when there is none |
| Builder.Lookahead | snakeoil/bash.py:124-134 | the key is bound to the value, or to '' when the next token is `=`; other keys are unchanged; a lexer error stops the loop |
| Builder.AfterKey | snakeoil/bash.py:117-134 | an assignment binds the key and keeps the other keys; a missing `=` or a lexer error stops the loop with a failure |
| Builder.Assignment | snakeoil/bash.py:109-134 | one round consumes input and never drops a key; it stops successfully only on a None key, returning the overlay so far |
| Builder.Run | snakeoil/bash.py:106-136 | a successful loop keeps every key already bound |
| Builder.RunStopsAtEnd | snakeoil/bash.py:109-111 | at end of input the loop returns the overlay |
| Builder.RunPushedNone | snakeoil/bash.py:110-111 | a pushed-back None ends the loop |
| Builder.RunSkipsBlankKey | snakeoil/bash.py:112-116 | a whitespace-only key is skipped |
| Builder.RunKeyFails | snakeoil/bash.py:135-136 | a ValueError while reading a key fails with the parser's line |
| Builder.RunMissingEquals | snakeoil/bash.py:117-120 | a token other than `=` after a key fails with "got token %r, was expecting '='" at the parser's line |
| Builder.KeyAtEnd | snakeoil/bash.py:117-120 | a key at end of input fails with "got token None, was expecting '='" |
| Builder.RunAssigns | snakeoil/bash.py:121-134 | `key = value` binds the key to the value ('' for None), overwriting an earlier binding, and pushes the lookahead back |
| Builder.RunEmptyAssign | snakeoil/bash.py:124-131 | when the token after the value is `=`, the key is bound to '' and the value is read next as a key |
| Builder.PushedEmptyAssign | snakeoil/bash.py:126-131 | the value pushed before `=` is read back first (LIFO) |
| Builder.PushedLastAssign | snakeoil/bash.py:121-134 | a last assignment whose value is followed by end of input binds the value and ends the loop |
| Builder.EmptyAssignExample | snakeoil/bash.py:124-134 | `a= b=c` gives a='' and b='c' |
| Builder.OverlayShadowsBase | snakeoil/bash.py:90-91 | interpolation reads the overlay first, then the protected base |
| Builder.ValueReadsOverlay | snakeoil/bash.py:134 | a value referring to a key assigned earlier in the file reads that assignment |
| Builder.Handle.Close | snakeoil/bash.py:138-139 | closing marks the file closed |
| Builder.ReadLookahead | snakeoil/bash.py:124-134 | the lookahead step on the parser and the dict does what `Lookahead` specifies |
| Builder.ReadAssignment | snakeoil/bash.py:117-134 | one assignment on the parser and the dict does what `AfterKey` specifies |
| Builder.Round | snakeoil/bash.py:109-136 | one pass of the loop body on the parser and the dict: when the round ends the loop, it yields what `Assignment` stops with (a None key gives the overlay, a ValueError or a missing `=` the line and message); otherwise the parser state and the overlay are exactly those `Assignment` continues with |
| Builder.ReadBashDict | snakeoil/bash.py:70-142 | read_bash_dict, run with a given cut table, returns `DictResult` for that table: the overlay (never the caller's dict), or the BashParseError with the line and message; a file opened from a path is closed on every exit, and a caller's stream is left alone. With `AsWritten` this is the program as it stands, with `Corrected` the repaired one |
| Arghparse.Split | src/snakeoil/cli/arghparse.py:120 | `split(',')` gives at least one piece, and no piece contains a comma |
| Arghparse.SplitJoin | src/snakeoil/cli/arghparse.py:120 | splitting undoes joining with commas |
| Arghparse.JoinSplit | src/snakeoil/cli/arghparse.py:120 | joining the pieces with commas gives back the text |
| Arghparse.NonEmpty | src/snakeoil/cli/arghparse.py:120 | the kept pieces are non-empty and come from the input |
| Arghparse.Pieces | src/snakeoil/cli/arghparse.py:120 | no piece is empty or contains a comma |
| Arghparse.PiecesOfJoin | src/snakeoil/cli/arghparse.py:120 | the pieces of clean joined values are those values, in order |
| Arghparse.AllPieces | src/snakeoil/cli/arghparse.py:117-124 | every parsed item is non-empty and comma-free |
| Arghparse.ParseValues | src/snakeoil/cli/arghparse.py:117-124 | the loop returns the pieces of each value in order; a single string acts as a one-element list |
| Arghparse.ParseCleanValues | src/snakeoil/cli/arghparse.py:117-124 | clean values parse to themselves, whether given as a list or joined by commas |
| Arghparse.Namespace.Set | src/snakeoil/cli/arghparse.py:93 | setattr changes that attribute only |
| Arghparse.EnsureValue | src/snakeoil/cli/arghparse.py:80-84 | an unset or None attribute gets the default; any other value is returned and kept |
| Arghparse.Extend | src/snakeoil/cli/arghparse.py:87-93 | the attribute becomes the old list (or [] when unset or None) followed by the values; nothing else changes |
| Arghparse.StoreCommaSeparated | src/snakeoil/cli/arghparse.py:126-128 | the attribute is replaced by the parsed pieces |
| Arghparse.AppendCommaSeparated | src/snakeoil/cli/arghparse.py:131-139 | the attribute becomes the old list followed by the parsed pieces |
| Arghparse.NegatedStopsAtFailure | src/snakeoil/cli/arghparse.py:155-161 | a splitter error ends the parse with that error |
| Arghparse.ElementedStopsAtFailure | src/snakeoil/cli/arghparse.py:196-202 | a splitter error ends the parse with that error |
| Arghparse.ParseNegations | src/snakeoil/cli/arghparse.py:152-163 | the loop returns the componentwise concatenation of the splits of every value, or the first error |
| Arghparse.ParseElements | src/snakeoil/cli/arghparse.py:193-205 | the same for three lists |
| Arghparse.StoreNegations | src/snakeoil/cli/arghparse.py:165-167 | the attribute is replaced by the parsed pair; an error leaves it alone |
| Arghparse.StoreElements | src/snakeoil/cli/arghparse.py:207-209 | the attribute is replaced by the parsed triple; an error leaves it alone |
| Arghparse.AppendNegations | src/snakeoil/cli/arghparse.py:176-180 | the attribute becomes the old pair, or two empty lists, concatenated componentwise with the parsed pair; after an error the default has been stored |
| Arghparse.AppendElements | src/snakeoil/cli/arghparse.py:218-222 | the same with three lists |
| Arghparse.Lower | src/snakeoil/cli/arghparse.py:247 | lower-casing keeps the length and maps only `A`-`Z` |
| Arghparse.LowerIdempotent | src/snakeoil/cli/arghparse.py:247 | lower-casing twice is lower-casing once |
| Arghparse.Boolean | src/snakeoil/cli/arghparse.py:246-252 | True exactly for y/yes/true and False exactly for n/no/false, after lower-casing; anything else is an error |
| Arghparse.BooleanIgnoresCase | src/snakeoil/cli/arghparse.py:246-252 | the letter case of the value does not matter |
| Arghparse.YesInCapitals | src/snakeoil/cli/arghparse.py:246-252 | `YES` parses as True |
| Arghparse.Change | src/snakeoil/cli/arghparse.py:269-273 | -v adds 1, -q subtracts 1, any other option string adds 0 |
| Arghparse.Verbosity | src/snakeoil/cli/arghparse.py:272-277 | the count (0 when unset or None) is moved by the option's change |
| Arghparse.OccurrencesPositive | src/snakeoil/cli/arghparse.py:560-562 | a Counter entry is positive exactly when the string occurs |
| Arghparse.CountAfterIsDifference | src/snakeoil/cli/arghparse.py:272-277 | after repeated options the count is the number of -v less the number of -q |
| Arghparse.InitialVerbosity | src/snakeoil/cli/arghparse.py:559-566 | verbosity is 0 when switched off; otherwise it is -1 exactly when -q or --quiet occurs in argv[1:], and without them it is the number of -v plus the number of --verbose, positive exactly when one of them occurs; never below -1 |
| Arghparse.Starting | src/snakeoil/cli/arghparse.py:534 | the comprehension keeps exactly the choices the value is a prefix of |
| Arghparse.Abbreviate | src/snakeoil/cli/arghparse.py:533-536 | a choice stays itself; a changed value was the prefix of exactly one choice and became that choice |
| Arghparse.AbbreviateUnique | src/snakeoil/cli/arghparse.py:533-536 | a non-choice that is a prefix of exactly one choice becomes that choice |
| Arghparse.FirstLine | src/snakeoil/cli/arghparse.py:401 | the first line is the prefix up to the first newline and holds none |
| Arghparse.LinkHelp | src/snakeoil/cli/arghparse.py:396-401 | a given help or description is kept; a missing description takes the help; a missing help takes the first line of the description |
| Arghparse.LinkHelpSettles | src/snakeoil/cli/arghparse.py:396-401 | after linking, both or neither are present, and linking again changes nothing |
| Arghparse.SubParsers.AddParser | src/snakeoil/cli/arghparse.py:394-409 | the parser is created with linked help and description and with `cls` if given; the action's parser class is restored afterwards |

## Left out

- The character loop of shlex (quotes, escapes, punctuation, comments, line counting) is stdlib code and is not part of this model. Its output is an input here: a trace of state assignments for each token, characters it pushed back, and the ValueError it raises for an unterminated quote.
- `sourcing_command` and `bash_parser.sourcehook` (bash.py:180-181, 198-202) open included files. Including files is not modelled.
- File I/O is not modelled. This covers `readlines_utf8` in `iter_read_bash`, and `open` and `close` in `read_bash_dict`. Lines and lexer items are given as sequences, and a file handle is reduced to its closed flag.
- `ProtectedDict` lives in `snakeoil.mappings`, which is not part of this model. It is modelled as a base that is never written plus an overlay that receives every write.
- `read_bash_dict` returns `d.new`, the overlay alone. The model follows the code: when `vars_dict` is given, the result holds only the keys assigned in the file, not the merged environment the function's docstring suggests.
- The `basestring` and `raise_from` compatibility shims are reduced to their Python 2 meaning. A string argument is a path (`Source.FromPath`), and the wrapped error keeps only its message.
- Parser.ReadAtEnd: claims None only when the lexer is between tokens or at end of input. From inside quotes, shlex raises "No closing quotation" at end of input; that case comes through the input as a `LexError` item instead.
- Spans.WordBeforeSingleQuoteAsWritten: states the token only. It does not state the lexer state afterwards.
- Builder.RunAssigns: states that a later assignment overwrites an earlier one for one round of the loop, as the map update `d[k := v]`. No whole-file example of overwriting is given.
- PyFormat.Repr: models Python 2 `repr` of byte strings only. Characters above 0xff are written as `\x` escapes of their code, with no `\u` form. The round trip is stated for bytes.
- Arghparse.Boolean: `str.lower` is modelled on ASCII letters only, and the message uses the byte-string repr of `PyFormat`. Python 3 shows printable non-ASCII characters unescaped.
- `split_negations` and `split_elements` live in `snakeoil.sequences`, which is not part of this model. They are parameters of `ParseNegations` and `ParseElements`, each returning its lists or a ValueError message. That message is the ArgumentTypeError text.
- Arghparse.Extend: `copy.copy` of the old list is implicit, because values are immutable here. The aliasing the copy avoids cannot arise.
- Arghparse.AppendNegations: `zip` truncating tuples of different lengths is not modelled. The stored value is required to be unset, None, or a pair (a triple for `AppendElements`); any other value makes the source fail.
- Arghparse.Abbreviate: the `_check_value` call that follows belongs to argparse. It rejects a value that is still not a choice, and is not part of this model.
- Arghparse.SubParsers.AddParser: the rest of argparse's `add_parser` (aliases, the choices table, `prog`) is not modelled. A created parser is recorded by its name, help, description and class.
- The rest of arghparse.py is not modelled. This covers:
  - the documentation monkeypatching and `ParseStdin`;
  - `EnableDebug`, `Delayed*`, `OrderedParse`, `Expansion` and the `Namespace` attribute hooks;
  - the copied argparse internals, the help formatters, `existent_path` and `get_version`.

  These are glue around argparse, logging, the terminal and the filesystem.

## Findings

| source | as written | input that shows it | evidently intended | confidence | as-written member | corrected member |
|---|---|---|---|---|---|---|
| snakeoil/bash.py:189-190 | the cut transitions omit ('a', "'"): unquoted text running into a single quote is not cut, and is then copied verbatim with the quoted part | `X=$A'b'` with A=1 gives `$Ab` | unquoted text is interpolated wherever it ends, giving `1b` | not executed | Spans.DollarBeforeSingleQuote | Spans.WordBeforeSingleQuoteCorrected |
| snakeoil/bash.py:189-190, 210-212 | the cut transitions omit ('a', None): an unquoted word that reaches the end of input without a newline becomes a span tagged None, copied verbatim | `X=$A` as the last bytes of the file, with A=1, gives `$A` | the last word is interpolated like any other, giving `1` | not executed | Spans.DollarAtEnd | Spans.WordAtEndCorrected |

The corrected cut set (`Spans.Corrected`) adds these two transitions.
`Builder.ReadBashDict` takes the cut table as a parameter, so it states both
the program as written (`AsWritten`) and the repaired one (`Corrected`). `Spans.WordBeforeSingleQuoteAsWritten`
and `Spans.WordAtEndAsWritten` state the behaviour as written for every word.
