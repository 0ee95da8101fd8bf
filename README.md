# quizface: help-text annotator and scrubbing rules, in Dafny

quizface reads the help text that `zcash-cli help <command>` prints and turns its
"Result:" section into a type schema. The schema is a JSON value whose leaves
name Rust types (`Decimal`, `String`, `bool`, `Option<…>`). Before annotating,
a per-command scrubbing step rewrites known irregularities in the text.

This project models both parts and proves properties of them.

- `outcomes.dfy`, module `Outcomes`: `Option`, and a `Result` whose failures
  name each panic, `unwrap`, `expect`, `assert_eq!`, `todo!` and out-of-range
  index of the crate.
- `json.dfy`, module `Json`: the part of `serde_json::Value` the annotator builds.
- `rust_str.dfy`, module `RustStr`: the Rust string operations the core relies on.
  These are `split` on a pattern, `splitn(2, _)`, `split` on a character
  predicate, `split_ascii_whitespace`, `trim`, `trim_end`, `trim_matches`,
  `trim_start_matches`, `trim_end_matches`, `lines`, `find` and `replace`.
  Each is a function with its defining properties.
- `labels.dfy`, module `Labels`: `make_label`, `label_identifier`,
  `clean_viewed`, `bind_idents_labels` and `label_by_position`.
- `annotator.dfy`, module `Annotator`: `extract_name_and_result`,
  `annotate_result`, `recurse` and `interpret_raw_output`.
  - The walk over the result characters is specified by the mutually recursive
    functions `Annotate`, `ObjectFrame` and `ArrayFrame`. Each returns the
    value built, the position after the closing character, and the final
    `last_char`.
  - The crate's mutable state appears as two classes. `Context` holds the
    command name and `last_char`. `Chars` is the shared character iterator: a
    text and a position.
  - The methods `AnnotateResult` and `Recurse` update both objects in place, as
    the crate does. They are proved to agree with the functions.
- `scrubbing.dfy`, module `Scrubbing`: every rule of
  `src/utils/scrubbing.rs`, including the three macros, and the `scrub`
  dispatch on the command name.

The JSON parser that `label_by_position` calls (`serde_json::from_str`) is a
parameter `parse` of the annotator. Properties that depend on it say what they
assume about `parse`. The real parser rejects the empty text.

## Model

| member | source | states |
|---|---|---|
| RustStr.Split | src/lib.rs:85-86 | the pieces joined with the pattern give the text back; no piece contains the pattern; each separator is the leftmost occurrence after the previous piece |
| RustStr.IndexOf | src/lib.rs:85-86 | the leftmost occurrence of the pattern, or none exactly when the pattern does not occur |
| RustStr.SplitAtFirst | src/lib.rs:85-86 | splitting a text at a leftmost occurrence yields the part before it followed by the split of the rest |
| RustStr.SplitWithout | src/lib.rs:95-96 | a text without the pattern splits into itself alone |
| RustStr.SplitSingle | src/utils/scrubbing.rs:85-87 | splitting gives one piece exactly when the pattern does not occur |
| RustStr.FirstToken | src/lib.rs:90-92 | the first whitespace-separated token is non-empty and free of ASCII whitespace, is preceded only by whitespace and ends at whitespace or the end; there is none exactly when the text is all ASCII whitespace |
| RustStr.Trim | src/lib.rs:99 | the result has no whitespace at either end, and is empty exactly when the input is blank |
| RustStr.TrimIsSlice | src/lib.rs:99 | the result is a slice of the input with only whitespace before and after it |
| RustStr.TrimOffset | src/lib.rs:99 | gives the start of that slice, with blank text on both sides |
| RustStr.TrimKeepsNonWhitespace | src/lib.rs:99 | every non-whitespace character of the input survives trimming |
| RustStr.TrimEnd | src/lib.rs:276 | the result is a prefix of the input without trailing whitespace, and only whitespace was removed |
| RustStr.TrimQuotes | src/lib.rs:321 | the result of `trim_matches('"')` neither starts nor ends with a quote |
| RustStr.TrimQuotesIsSlice | src/lib.rs:321 | the result is a slice of the input with only quotes before and after it |
| RustStr.SplitOnce | src/lib.rs:317-319 | `splitn(2, ':')` gives one piece exactly when there is no colon; the first piece has no colon |
| RustStr.SplitOnceJoins | src/lib.rs:317-319 | the two pieces with the colon between them give the text back |
| RustStr.SplitWhere | src/lib.rs:340-342 | the pieces contain no parenthesis; the first is the longest parenthesis-free prefix; one piece exactly when there is no parenthesis |
| RustStr.TrimEndWhile | src/lib.rs:375-376 | `trim_end_matches` with a predicate: a prefix of the input, only characters satisfying the predicate removed, the last one kept does not satisfy it |
| RustStr.TrimStartWhile | src/lib.rs:377 | `trim_start_matches` with a predicate: a suffix of the input, only characters satisfying the predicate removed, the first one kept does not satisfy it |
| RustStr.Lines | src/utils/scrubbing.rs:58 | `str::lines`: no line contains a line feed; no lines exactly for the empty text; a text without line feed is one line |
| RustStr.LinesAreSplit | src/utils/scrubbing.rs:58 | `lines` is `split('\n')` with a `\r` dropped from the end of each piece before a line feed, and the last piece dropped when it is empty |
| RustStr.Replace | src/utils/scrubbing.rs:154-158 | no ensures; `ReplaceIsJoinOfSplit` states it as split-then-join, `ReplaceNoMatch` and `ReplaceLength` give its other facts |
| RustStr.ReplaceNoMatch | src/utils/scrubbing.rs:154-158 | a text without the pattern is returned unchanged |
| RustStr.ReplaceIsJoinOfSplit | src/utils/scrubbing.rs:154-158 | `replace` equals splitting on the pattern and joining with the replacement |
| RustStr.ReplaceLength | src/utils/scrubbing.rs:154-158 | the length changes by the difference of replacement and pattern once per non-overlapping occurrence, counted left to right by `Occurrences` |
| RustStr.OccurrencesCountSplit | src/utils/scrubbing.rs:154-158 | the occurrences `Occurrences` counts are one fewer than the pieces `split` gives |
| RustStr.NoOccurrences | src/utils/scrubbing.rs:154-158 | a text that does not contain the pattern has no occurrences to count |
| RustStr.DeleteJoins | src/utils/scrubbing.rs:27-33 | deleting a pattern that is preceded by text free of its first character and followed by text without it joins the two texts |
| RustStr.ReplaceLeavesNoOccurrence | src/utils/scrubbing.rs:154-158 | under the stated conditions on the two texts, no occurrence of the searched text remains after replacing |
| RustStr.ReplaceClearsPattern | src/utils/scrubbing.rs:72-84 | replacing `c + p` by `c + q`, where `c` occurs in neither `p` nor `q` and the two differ at their first character, leaves no `c + p` |
| RustStr.ReplaceSkipsPrefix | src/utils/scrubbing.rs:27-33 | `replace` copies a leading part that cannot start the pattern |
| RustStr.ReplaceLeading | src/utils/scrubbing.rs:27-33 | a leading occurrence is substituted and the rest processed |
| Labels.MakeLabel | src/lib.rs:348-363 | a label starting with numeric/string/boolean gives Decimal/String/bool, wrapped in `Option<…>` exactly when ", optional" occurs in it; any other label fails |
| Labels.MakeLabelReadsTypeWord | src/lib.rs:348-363 | the label text written for an annotation reads back as that annotation |
| Labels.Identifier | src/lib.rs:317-321 | the identifier (trimmed line up to the first colon, quotes stripped) contains no colon |
| Labels.AnnotationOf | src/lib.rs:340-343 | fails without a parenthesis or with an unknown type word; a success is the rendering of some annotation |
| Labels.LabelIdentifier | src/lib.rs:313-346 | the only failures are missing metadata, a missing parenthesis or an unknown type |
| Labels.LabelWithMetadata | src/lib.rs:322-346 | once a colon was found, the only failures are a missing parenthesis or an unknown type |
| Labels.LabelIdentifierNeedsColon | src/lib.rs:317-322 | fails with missing metadata exactly when the line has no colon |
| Labels.LabelIdentifierSucceeds | src/lib.rs:313-346 | on success the identifier has no colon, the line has a parenthesis and the label renders an annotation |
| Labels.LabelIdentifierReadsField | src/lib.rs:313-346 | every well-formed field line yields its identifier and the annotation its label names |
| Labels.VersionLineLabel | src/lib.rs:394-403 | the crate's unit test: the `version` line labels as ("version", "Decimal") |
| Labels.BufferLines | src/lib.rs:275-279 | the buffer has no lines exactly when it is blank |
| Labels.CleanViewed | src/lib.rs:274-289 | fails exactly on a blank buffer; otherwise the first line is removed, and the result is exactly ["..."] when that line trimmed is "..." |
| Labels.MapAll | src/lib.rs:263-269 | a success has one result per input |
| Labels.MapAllOk | src/lib.rs:263-269 | on success each element's result is in its place |
| Labels.MapAllSucceeds | src/lib.rs:263-269 | success exactly when every element succeeds |
| Labels.MapAllFails | src/lib.rs:263-269 | a failure is that of the first element that fails, all earlier ones having succeeded |
| Labels.LabelAll | src/lib.rs:265-267 | no ensures; it is `MapAll` of `LabelIdentifier`, so `MapAllSucceeds`, `MapAllOk` and `MapAllFails` state its success, its results and its failure |
| Labels.Collect | src/lib.rs:268-269 | no ensures; `CollectKeys` and `CollectLastWins` state its keys and that the last pair with a key wins |
| Labels.CollectKeys | src/lib.rs:268-269 | the keys of the collected map are exactly the identifiers |
| Labels.CollectLastWins | src/lib.rs:268-269 | the last pair with an identifier decides its value |
| Labels.BindNested | src/lib.rs:232-261 | fails with no line left; otherwise succeeds exactly when the earlier lines all label, failing as they do; the result has exactly one key, the identifier of the last line, bound to the nested value |
| Labels.BindFlat | src/lib.rs:262-269 | succeeds exactly when every line labels |
| Labels.BindFlatLastWins | src/lib.rs:262-269 | each line is bound under its identifier to the annotation of the last line with that identifier |
| Labels.BindFlatKeys | src/lib.rs:262-269 | the keys are exactly the identifiers of the lines |
| Labels.BindIdentsLabels | src/lib.rs:213-271 | a blank buffer fails; with a nested value a success is a single binding to it; without one it is the flat binding of the cleaned lines |
| Labels.EmbeddedObject | src/lib.rs:375-377 | the text handed to the parser is empty or runs from a `{` to a `}`; `EmbeddedIsBraced` and `NoOpenBeforeCloseNoObject` fix which slice it is |
| Labels.EmbeddedIsBraced | src/lib.rs:375-377 | with no `{` before a `{…}` and no `}` after it, the parser is handed exactly that `{…}`, from the first `{` through the last `}` |
| Labels.NoOpenBeforeCloseNoObject | src/lib.rs:375-377 | when no `{` comes before the last `}`, or there is no `}`, the parser is handed the empty text |
| Labels.NoBraceNoObject | src/lib.rs:375-377 | a buffer without `{` hands the parser the empty text |
| Labels.LabelByPosition | src/lib.rs:374-382 | succeeds exactly when the parser accepts the embedded object, giving an array of that one object; otherwise fails |
| Annotator.ExtractNameAndResult | src/lib.rs:84-100 | the only failures are a wrong result count, a missing name or a wrong examples count |
| Annotator.ExtractCountsResultSections | src/lib.rs:85-89 | fails with a wrong result count exactly when "Result:\n" does not split the text in two |
| Annotator.ExtractedNameIsWord | src/lib.rs:90-92 | the name extracted is a non-empty token free of ASCII whitespace |
| Annotator.ExtractedResultIsTrimmed | src/lib.rs:99 | the result extracted has no whitespace at either end |
| Annotator.ExtractFindsSections | src/lib.rs:84-100 | a success read a text of the shape head "Result:\n" body "Examples:\n" tail, where the "Result:\n" after head is the first and only one, the "Examples:\n" after body is the first and only one, the name is the first token of head and the result is body trimmed |
| Annotator.ExtractReadsSections | src/lib.rs:84-100 | conversely, a text with one "Result:\n" followed by one "Examples:\n" yields the first token of head and the trimmed body |
| Annotator.Annotate | src/lib.rs:110-209 | a success ends strictly after its start and within the text; a mode other than `{` or `[` fails as `todo!()` |
| Annotator.CloseObject | src/lib.rs:121-138 | a success closes at the given position as an object; a blank buffer adds no bindings |
| Annotator.ObjectFrame | src/lib.rs:115-168 | a success ends strictly after its start and within the text |
| Annotator.ArrayFrame | src/lib.rs:170-205 | a success ends strictly after its start and within the text |
| Annotator.Interpret | src/lib.rs:58-82 | an extraction failure is the result's failure; an empty extracted result fails as `expect("Missing first char!")`; a success extracted a result starting with `{` or `[` |
| Annotator.AnnotateReads | src/lib.rs:110-209 | a successful frame read only ASCII; the last character it read is a `}` and it built an object, or a `]` and it built an array of one element |
| Annotator.AsciiJoin | src/lib.rs:162 | ASCII runs either side of an ASCII character join into one |
| Annotator.AsciiOne | src/lib.rs:162 | a single ASCII character is an ASCII run |
| Annotator.ObjectFrameReads | src/lib.rs:115-168 | an object frame that succeeds read only ASCII, the last character it read is a `}`, and it built an object |
| Annotator.ObjectCloseReads | src/lib.rs:121-138 | the same when the frame closes at once |
| Annotator.ObjectNestedReads | src/lib.rs:139-160 | the same when the object frame starts at a nested `{` or `[` |
| Annotator.ObjectBufferReads | src/lib.rs:162-163 | the same after buffering one character |
| Annotator.ArrayFrameReads | src/lib.rs:170-205 | an array frame that succeeds read only ASCII, the last character it read is a `]`, and it built a one-element array |
| Annotator.ArrayCloseReads | src/lib.rs:174-177 | the same when the frame closes at once |
| Annotator.ArrayNestedReads | src/lib.rs:178-199 | the same when the array frame starts at a nested `{` or `[` |
| Annotator.ArrayBufferReads | src/lib.rs:201-202 | the same after buffering one character |
| Annotator.CloseOf | src/lib.rs:110-209 | the bracket-counting scan for the closer that matches a stack of open frames; a closer found lies after the start and within the text |
| Annotator.CloseOfNested | src/lib.rs:139-160 | frames opened on top of others close first: the scan for the outer frames goes on from the inner closer, and finds nothing when the inner closer is missing |
| Annotator.AnnotateCloses | src/lib.rs:110-209 | a successful walk stops exactly one past the closer that matches the frame it opened, as `CloseOf` finds it |
| Annotator.ObjectFrameMatches | src/lib.rs:115-168 | an object frame that succeeds, in any state, stops one past its matching `}` |
| Annotator.ArrayFrameMatches | src/lib.rs:170-205 | an array frame that succeeds, in any state, stops one past its matching `]` |
| Annotator.AnnotateUnclosedFails | src/lib.rs:110-209 | a walk whose matching closer never comes fails, however deeply the rest nests |
| Annotator.ObjectUnclosedFails | src/lib.rs:119-120 | an object frame, in any state, whose matching `}` never comes fails |
| Annotator.ArrayUnclosedFails | src/lib.rs:172-173 | an array frame, in any state, whose matching `]` never comes fails |
| Annotator.ObjectResumes | src/lib.rs:139-160 | after a nested frame the object frame goes on from one past the nested frame's own closer, in object mode, with an empty buffer and the nested binding appended to those made so far |
| Annotator.ArrayResumes | src/lib.rs:178-199 | after a nested frame the array frame goes on from one past the nested frame's own closer, in array mode, with its buffer kept |
| Annotator.NestedObjectBindings | src/lib.rs:115-168 | for `{ b1 { b2 } b3 }` with bracket-free pieces: succeeds exactly when the flat binding of `b2`, the binding of `b1` to that object and the flat binding of `b3` all succeed; the value is the binding of `b1`'s last identifier to the inner object, followed by the bindings of `b3` |
| Annotator.InterpretShape | src/lib.rs:58-82 | the annotated result is an object or an array |
| Annotator.ObjectPlainRun | src/lib.rs:162 | an object frame buffers a run of plain characters unchanged |
| Annotator.ArrayPlainRun | src/lib.rs:201 | an array frame buffers a run of plain characters unchanged |
| Annotator.ObjectRunsOut | src/lib.rs:120 | an object whose input ends before its `}` fails |
| Annotator.ArrayRunsOut | src/lib.rs:173 | an array whose input ends before its `]` fails |
| Annotator.ObjectFrameCloses | src/lib.rs:119-138 | plain characters up to a `}` are buffered and closed on |
| Annotator.AnnotateFlatObject | src/lib.rs:115-168 | a flat object `{body}` closes after its `}` with body as buffer; what follows is not read |
| Annotator.CloseObjectBinds | src/lib.rs:121-138 | a non-blank buffer succeeds exactly when its flat binding does, the bindings appended after those made so far |
| Annotator.FlatObjectBindings | src/lib.rs:115-168 | a flat, non-blank object is the flat binding of its cleaned lines, and fails when that does |
| Annotator.ArrayFrameCloses | src/lib.rs:172-177 | plain characters up to a `]` are buffered and handed to `label_by_position` |
| Annotator.FlatArrayText | src/lib.rs:170-177 | the characters a flat array's frame sees are its body |
| Annotator.FlatObjectText | src/lib.rs:115-138 | the characters a flat object's frame sees are its body |
| Annotator.AnnotateFlatArray | src/lib.rs:170-205 | a flat array `[body]` succeeds exactly when the parser accepts the embedded object of the body, which becomes its one element |
| Annotator.ArrayKeepsBuffer | src/lib.rs:178-188 | an array never clears its buffer: its one element is parsed from an extension of the starting buffer |
| Annotator.FinalBuffer | src/lib.rs:170-205 | the buffer handed to `label_by_position` extends the starting one and gains no `{` |
| Annotator.ArrayFrameNeedsEmptyParse | src/lib.rs:170-205 | starting from a brace-free buffer, an array frame succeeds only if the parser accepts the empty text |
| Annotator.ArrayModeFails | src/lib.rs:374-382 | with a parser that rejects the empty text, array mode never succeeds |
| Annotator.Context.constructor | src/lib.rs:105-108 | the context holds the given command name and last character |
| Annotator.Chars.constructor | src/lib.rs:73 | the iterator starts at the first character |
| Annotator.Chars.Next | src/lib.rs:120 | yields the next character and advances, or yields nothing at the end |
| Annotator.AnnotateResult | src/lib.rs:110-209 | the returned value, the iterator position and `last_char` are those `Annotate` computes from the old position and `last_char` |
| Annotator.Recurse | src/lib.rs:365-372 | sets `last_char` and then behaves as `Annotate` in the mode the character opens |
| Annotator.InterpretRawOutput | src/lib.rs:58-82 | the method computes `Interpret` |
| Scrubbing.GetBlockchainInfo | src/utils/scrubbing.rs:1-10 | no ensures; its four replacements in order (see "## Left out") |
| Scrubbing.GetChainTips | src/utils/scrubbing.rs:12-25 | no ensures; its three replacements in order (see "## Left out") |
| Scrubbing.GetSpentInfo | src/utils/scrubbing.rs:27-33 | no ensures; `SpentInfoRenamesThenDeletes` states it as the `getaddressmempool!` rule then the deletion, `SpentInfoCanRejoinNumber` that the deletion can re-form "number" |
| Scrubbing.ListAccounts | src/utils/scrubbing.rs:35-39 | no ensures; its two deletions in order (see "## Left out") |
| Scrubbing.ListReceivedByAccount | src/utils/scrubbing.rs:41-47 | no ensures; `AccountRuleNotIdempotent` states that a second pass changes "boolean" again |
| Scrubbing.ListReceivedByAddress | src/utils/scrubbing.rs:49-55 | no ensures; `ScrubRulesShared` states that it is the rule of `listreceivedbyaccount` |
| Scrubbing.ListTransactions | src/utils/scrubbing.rs:57-65 | no ensures; `ListTransactionsSplits` and `KeptLinesMembers` state which lines it keeps and how it joins them |
| Scrubbing.ZListReceivedByAddress | src/utils/scrubbing.rs:67-70 | no ensures; its two replacements in order (see "## Left out") |
| Scrubbing.ZGetOperationStatus | src/utils/scrubbing.rs:72-77 | no ensures; `OperationRulesLeaveNoArray` states that no "(array) A list of JSON objects" is left |
| Scrubbing.ZGetOperationResult | src/utils/scrubbing.rs:79-84 | no ensures; the same rule as `ZGetOperationStatus`, with the same lemma |
| Scrubbing.RewriteDeltas | src/utils/scrubbing.rs:90-127 | no ensures; the five replacements `getaddressdeltas` applies to its section (see "## Left out") |
| Scrubbing.GetBlockDeltas | src/utils/scrubbing.rs:130-136 | no ensures; `BlockDeltasLeavesNoHexString` states that neither spelling is left |
| Scrubbing.SubmitBlock | src/utils/scrubbing.rs:138-152 | no ensures; its one replacement (see "## Left out") |
| Scrubbing.GetAddressMempool | src/utils/scrubbing.rs:154-158 | no ensures; `MempoolLeavesNoNumber` states that no "number" is left |
| Scrubbing.Scrub | src/utils/scrubbing.rs:160-192 | no ensures; `ScrubUnlisted` and `ScrubRulesShared` state the fall-through and the shared rules |
| Scrubbing.GetAddressDeltas | src/utils/scrubbing.rs:85-91 | fails exactly when "(or, if chainInfo is true):" does not occur |
| Scrubbing.AddressDeltasReadsSection | src/utils/scrubbing.rs:85-91 | the rewritten section is the trimmed text between the first marker and the next marker or the end |
| Scrubbing.ScrubUnlisted | src/utils/scrubbing.rs:189-191 | a command without a rule gets its text back unchanged |
| Scrubbing.ScrubRulesShared | src/utils/scrubbing.rs:175-186 | the two account listings share a rule, as do the two operation queries |
| Scrubbing.MempoolLeavesNoNumber | src/utils/scrubbing.rs:154-158 | no "number" is left after `getaddressmempool!` |
| Scrubbing.SpentInfoRenamesThenDeletes | src/utils/scrubbing.rs:27-33 | `getspentinfo` is `getaddressmempool!` followed by deleting "  ,...\n" |
| Scrubbing.SpentInfoJoins | src/utils/scrubbing.rs:27-33 | deleting a continuation line joins the text either side of it |
| Scrubbing.SplitNumber | src/utils/scrubbing.rs:27-33 | "num", a continuation line, "ber" contains no "number" |
| Scrubbing.SpentInfoCanRejoinNumber | src/utils/scrubbing.rs:27-33 | the deletion can produce a new "number": "num", the continuation line, "ber" becomes "number" |
| Scrubbing.BlockDeltasLeavesNoHexString | src/utils/scrubbing.rs:130-136 | no "hex string" and no "hexstring" is left after `getblockdeltas!` |
| Scrubbing.OperationRulesLeaveNoArray | src/utils/scrubbing.rs:72-84 | no "(array) A list of JSON objects" is left after `z_getoperationstatus`, nor after `z_getoperationresult` |
| Scrubbing.AccountRuleNotIdempotent | src/utils/scrubbing.rs:41-47 | "bool" becomes "boolean", and a second pass "booleanean" |
| Scrubbing.KeptLinesMembers | src/utils/scrubbing.rs:57-59 | a line is kept exactly when it is an input line without the long all-space prefix |
| Scrubbing.TerminatedSplits | src/utils/scrubbing.rs:60-64 | splitting the folded text on line feeds gives back the lines and one empty piece |
| Scrubbing.ListTransactionsSplits | src/utils/scrubbing.rs:57-65 | the output is the kept lines, in order, each followed by a line feed |

## Left out

- `src/main.rs`, and `ingest_commands`, `get_command_help` and `check_success`
  of `src/lib.rs`: they run `zcash-cli`, check its exit status and write files.
  This model has no processes or files.
- `serde_json::from_str` is a parameter `parse`; the JSON library is not part of
  this model. The properties about array mode assume only that `parse` rejects
  the empty text.
- The final `to_string` of `interpret_raw_output`: `InterpretRawOutput` returns
  the value, not its JSON text. Key order of `serde_json::Map` is not
  modelled; maps are compared as maps.
- `dbg!` output and the commented-out special cases are not modelled; they do
  not affect any result.
- `cmd_name` is stored in `Context` and passed to `bind_idents_labels` and
  `label_identifier`, but only commented-out code reads it. The functions do not
  take it.
- Panics are failure values (`Outcomes.Failure`), not aborts. `unwrap` on an
  exhausted iterator, `remove(0)` and `pop` on an empty vector, indexing a
  missing split piece, `expect`, `assert_eq!` and `todo!()` each have their own
  failure.
- Text after the outermost closing character is left unread, as in the crate.
  No property is stated about it beyond the flat-object and flat-array lemmas.
- RustStr.Split: modelled for non-empty patterns only; every call in the core
  uses a non-empty literal.
- RustStr.Lines: recent `str::lines` semantics. A `\r` is dropped only before
  a `\n`; a bare `\r` at the very end is kept.
- RustStr.Replace: no ensures of its own; its behaviour is stated by
  `ReplaceIsJoinOfSplit`, `ReplaceNoMatch` and `ReplaceLength`. The
  empty-pattern branch follows the documented behaviour of `str::replace`
  (the replacement before every character and at the end), but no property is
  stated about it; no call in the core uses an empty pattern.
- Annotator.ObjectFrame, Annotator.ArrayFrame: their ensures give only the
  position bound; shape, closing character and ASCII are in the `…Reads`
  lemmas, the matching closer in the `…Matches` lemmas.
- Annotator.ObjectRunsOut: names the failure (`UnexpectedEnd`, the `unwrap`
  at src/lib.rs:120) only when the rest of the text is bracket-free. With
  nesting, `ObjectUnclosedFails` proves that the frame fails when `CloseOf`
  finds no matching `}`, but not which failure: a non-ASCII character or a
  failed binding can come first.
- Annotator.ArrayRunsOut: the same for arrays (the `unwrap` at
  src/lib.rs:173); with nesting, `ArrayUnclosedFails` proves failure without
  naming it.
- Annotator.NestedObjectBindings: one level of nesting with bracket-free
  pieces. Deeper texts are covered by `ObjectResumes` and `AnnotateCloses`
  step by step, not by a closed form.
- The nested case of `bind_idents_labels` keeps only the nested key: the
  sibling labels before it are computed into `begin_map` and then dropped
  (src/lib.rs:240-261). The crate's own TODO at src/lib.rs:254-256 says that
  returning `begin_map` with the nested key is still to be done. The model
  follows the code, and `NestedObjectBindings` shows the effect.
- Scrubbing.GetBlockchainInfo, Scrubbing.GetChainTips, Scrubbing.ListAccounts,
  Scrubbing.RewriteDeltas: the crate's `replace` chains, with no property of
  their own. Each deletes some text, and a deletion can join the text either
  side of it into a new copy of a pattern, as `SpentInfoCanRejoinNumber` shows
  for `getspentinfo`. So "none is left" does not hold for them.
- Scrubbing.ListReceivedByAccount, Scrubbing.ListReceivedByAddress: no
  property of their own. "boolean" still contains "bool"
  (`AccountRuleNotIdempotent`), and deleting "  ,...\n" can join a new copy of
  it.
- Scrubbing.ZListReceivedByAddress: no property of its own. A replacement can
  re-form its pattern with the text before it: " (sprout)  (sprout) : n,"
  becomes " (sprout) : n, <sprout> ".
- Scrubbing.SubmitBlock: no property of its own. The replacement ends in the
  pattern's first character `d`, so a text that repeats the pattern without
  its first character after a match re-forms the pattern across the boundary.
- Scrubbing.ZGetOperationStatus, Scrubbing.ZGetOperationResult: "none is left"
  does hold for these two, and is proved as `OperationRulesLeaveNoArray`.
- Scrubbing.Scrub: no ensures of its own. The dispatch properties are the
  lemmas `ScrubUnlisted` and `ScrubRulesShared`.
- Idempotence of `scrub` is false (`AccountRuleNotIdempotent`) and is not claimed.
