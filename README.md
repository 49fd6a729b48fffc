# pg_fulltext_examples tokenizers in Dafny

This project models the two tokenizers of pg_fulltext_examples, a PostgreSQL
full-text search extension, and proves properties of them.

- **Scanner** (`custom_parser.c`). `cfts_parser_start` opens a session over a
  byte buffer: a start, an end and a moving cursor (`InternalParserState`).
  Each call of `cfts_parser_nexttoken` does two things:
  - it skips a run of delimiters, which are the space and the backslash;
  - it consumes one word and reports where the word starts and how long it is.

  It returns type 1 for a word of at least two bytes. It returns 0 when no
  input is left, and also 0 for a one-byte word, after moving past that word.
  The host calls the scanner until it gets 0, so a one-byte word ends the
  stream.
- **Dictionary** (`custom_dictionary.c`). `cfts_tokendict_init` turns an
  option list into a `CFTSDict`, a pair of flags. It needs exactly one
  `tokenize_prefix` and one `tokenize_full`, with names compared without
  regard to case. `cfts_tokendict_lexize` splits a long token that starts
  with `fn` at its first and last underscores. It returns, in this order:
  - the full token, if `tokenize_full` is set;
  - the prefix before the first underscore, if `tokenize_prefix` is set;
  - the text between the first and last underscores, always.

  Every other token comes back unchanged as one lexeme.

Files:

- `basics.dfy`: bytes (characters below 256), positive lengths, `Option`
  and `Result`.
- `custom_parser.dfy`: the scanner. The `ParserState` class has a mutable
  `position` field and a `NextToken` method with the two loops of the source.
  The method is proved against the function `Next` ("what one call does").
  The host's calling loop is the function `Tokens`. The character-length
  function `pg_mblen` is a parameter, `CharLen`, that returns at least 1.
  The predicate `Aligned` states that stepping character by character from
  the cursor lands exactly on the end.
- `custom_dictionary.dfy`: the dictionary. `Init` is the option loop,
  proved equal to the fold `InitOutcome`. `LexizeOver` is the gate, the
  counted underscore loop with its cursors `p`, `su`, `act`, `eu` and
  `saw`, and the in-place filling of the result array. It is proved equal
  to the function `LexemesFor`.

Where the source's comments and its code disagree, the model follows the code:

- The comments call the scanner's separators "slashes or spaces". The code
  tests for a backslash, so `/` is an ordinary word byte: "/word1 word2"
  gives "/word1" and "word2".
- The lexize comment gives the order prefix, middle, full. The code emits
  full, prefix, middle.
- The lexize comment says "length > 20". The code accepts a length of 20.

## Model

| member | source | states |
|---|---|---|
| CustomParser.ParserState.constructor | custom_parser.c:50-60 | a new session has its cursor at start, its end at start + length, and keeps the buffer |
| CustomParser.ParserState.NextToken | custom_parser.c:90-132 | the cursor never moves back and stays within [start, end]; the returned type, the written span and the new cursor are exactly one step of `Next` from the old cursor |
| CustomParser.Next | custom_parser.c:99-131 | one call: the type is 0 or 1; type 1 iff a span of at least two bytes is written; with no span the cursor ends at end; a written span starts at a non-delimiter, ends where the cursor stops, and the cursor then stands at end or on a delimiter |
| CustomParser.WordEnd | custom_parser.c:116-120 | the word loop stops at end or on a delimiter, aligned, never before where it began |
| CustomParser.WordHasNoDelimiters | custom_parser.c:116-120 | no character the word loop passes over starts with a space or a backslash |
| CustomParser.NextSkipsDelimitersThenWord | custom_parser.c:100-120 | everything a call skips before the word is a delimiter, and the word holds no delimiter at any character start; with no word, all that remained was delimiters |
| CustomParser.NextWordOnCharStart | custom_parser.c:100-112 | the word a call returns starts on a character boundary of the remaining input |
| CustomParser.NextExhaustedIff | custom_parser.c:100-107 | a call writes no span exactly when every remaining character is a delimiter |
| CustomParser.NextAtEnd | custom_parser.c:101-107 | at end another call returns 0, writes nothing and leaves the cursor at end |
| CustomParser.TokensUnfold | custom_parser.c:79-80 | a non-empty stream begins with the word of a type-1 call and goes on from the cursor that call left |
| CustomParser.TokensFirstTwo | custom_parser.c:79-80 | the first two words of a stream are the words of the first two calls |
| CustomParser.GapBeforeWord | custom_parser.c:100-105 | a call made with the cursor on a delimiter skips at least one delimiter, and only delimiters, before its word |
| CustomParser.FirstGapIsDelimiters | custom_parser.c:100-105 | between the first two words the host receives there is a non-empty run of delimiters |
| CustomParser.TokensGapsAreDelimiters | custom_parser.c:100-105 | between any two consecutive words the host receives there is a non-empty run of delimiters |
| CustomParser.TokensAreWords | custom_parser.c:112-128 | every word the host receives lies inside [position, end], is at least two bytes long, starts at a non-delimiter and holds no delimiter |
| CustomParser.ShortWordEndsStream | custom_parser.c:122-128 | a call that consumes a one-byte word returns 0, so the host receives no further word |
| CustomParser.ShortWordStopsScanning | custom_parser.c:125-128 | on "ab a cd" the host receives only "ab"; "cd" is never produced |
| CustomParser.SlashSampleFirstWord | custom_parser.c:101-120 | on "/word1 word2" the first call returns the six-byte word "/word1" |
| CustomParser.SlashSampleSecondWord | custom_parser.c:101-120 | the second call skips the space and returns "word2", ending at the end of the buffer |
| CustomParser.SlashIsAWordByte | custom_parser.c:101-120 | the whole stream of "/word1 word2" is "/word1" then "word2": a slash does not separate words |
| CustomDictionary.Init | custom_dictionary.c:31-81 | the option loop, with its early errors and the final both-required check, yields exactly `InitOutcome` |
| CustomDictionary.InitFromCounts | custom_dictionary.c:40-78 | from any partial state, validation succeeds iff all names are known and each flag is given once in total; it reports "both required" iff all names are known, none repeats and one flag is missing; a "multiple" error implies that flag was given twice |
| CustomDictionary.InitFromNamesUnknown | custom_dictionary.c:63-69 | an "unrecognized parameter" error names an option of the list that is neither flag |
| CustomDictionary.InitFromValues | custom_dictionary.c:44-62 | on success each flag holds the value of the option that set it |
| CustomDictionary.InitSucceedsIff | custom_dictionary.c:40-80 | init succeeds iff the options are one `tokenize_prefix` and one `tokenize_full` (any case) and nothing else; the config then holds their values |
| CustomDictionary.InitRejectsDuplicateOrUnknown | custom_dictionary.c:44-69 | a repeated flag or an unknown name is an error, and not the missing-option one |
| CustomDictionary.InitRequiresBoth | custom_dictionary.c:72-78 | "both tokenize options are required" is reported iff all names are known, none repeats and a flag is absent |
| CustomDictionary.InitErrorsName | custom_dictionary.c:44-69 | each error matches the options: a "multiple" error means two occurrences; an unknown-name error carries that name |
| CustomDictionary.InitExamples | custom_dictionary.c:44-78 | upper-case names are accepted; a lone flag, a repeated flag in mixed case and an unknown name are each rejected with their own error |
| CustomDictionary.FirstUnderscore | custom_dictionary.c:135-154 | the first underscore at index 1 or later, below the bound, or none |
| CustomDictionary.LastUnderscore | custom_dictionary.c:135-154 | the last underscore at index 1 or later, below the bound, or none |
| CustomDictionary.LexizeOver | custom_dictionary.c:111-199 | the gate, the underscore loop over the bytes it tests and the result array together yield exactly `LexemesFor` |
| CustomDictionary.Lexize | custom_dictionary.c:111-199 | lexize with the loop confined to the token's bytes yields `Lexemes` |
| CustomDictionary.LexizeAsWritten | custom_dictionary.c:135-156 | lexize as written, whose loop also tests the byte after the token, yields `LexemesAsWritten` |
| CustomDictionary.SplitPointsIff | custom_dictionary.c:135-162 | the loop's cursors select a split (first '_' f, last '_' l) exactly when f is the first underscore after index 0, l the last, and l > f + 1 |
| CustomDictionary.LexemesUnchangedIff | custom_dictionary.c:118-163 | the token comes back unchanged as its single variant-1 lexeme exactly when it fails the gate or has no such split |
| CustomDictionary.LexemesWhenSplit | custom_dictionary.c:172-195 | on a split: full (v1) if tokenize_full, prefix (v2) if tokenize_prefix, then the middle (v2); the count is 1 plus one per flag; the prefix has no '_', the middle is non-empty, and nothing after the last '_' is emitted |
| CustomDictionary.ExampleSplitsAtTwoAndEleven | custom_dictionary.c:100 | the documented 40-byte token passes the gate and splits at indices 2 and 11 |
| CustomDictionary.WorkedExampleBothFlags | custom_dictionary.c:100-102 | with both flags the documented token gives the full token, "fn", "subtoken", in that order |
| CustomDictionary.WorkedExampleNoFlags | custom_dictionary.c:100-103 | with no flags the documented token gives only "subtoken" |
| CustomDictionary.UnderscoresDependOnPrefix | custom_dictionary.c:135-154 | the underscores found below a bound depend only on the bytes below it |
| CustomDictionary.AsWrittenAgreesUnlessUnderscoreFollows | custom_dictionary.c:135-156 | the byte read past the token changes the result only when it is an underscore |
| CustomDictionary.AsWrittenSplitsOnFollowingUnderscore | custom_dictionary.c:135-163 | "fn_abcdefghijklmnopq" followed by '_' is split as written, into the 17 letters; confined to the token it is returned unchanged |

## Left out

- PostgreSQL function-manager glue (argument and result marshalling, the module magic block, function registration). The model works on plain parameters and results.
- Memory management: `palloc`, `palloc0`, `pfree` and `pnstrdup`. `cfts_parser_end` only frees the state, so it is not modelled.
- `cfts_parser_lextype` and its descriptor tables: static data, no logic.
- `ereport(ERROR, ...)` becomes an `Err` result carrying an `InitError` variant. The message texts, including their spelling, are not modelled.
- `defGetBoolean`: each option value arrives as an already parsed boolean, so its parsing and its errors are not modelled.
- `pg_strcasecmp`: names are compared with ASCII case folding only; locale-specific folding is not modelled.
- The extra zeroed slot in each lexeme array is a host array convention. The model returns an exactly-sized sequence.
- `pnstrdup` stops copying at a NUL byte. PostgreSQL text holds no NUL bytes, so copies are modelled as plain slices.
- CustomParser.CharLen: `pg_mblen` is a function of the first byte that returns at least 1. Encoding internals are not modelled. Callers must supply a buffer in which stepping by characters lands exactly on the end (`Aligned`); the source would step past the end otherwise.
- CustomDictionary.LexizeOver: the underscore loop steps one byte at a time, that is, `pg_mblen` fixed at 1. Multi-byte stepping in that loop is not modelled.
- CustomParser.ParserState.NextToken: the loops advance a local copy of the cursor, which is stored in `position` once, when the call returns. Nothing reads the state during a call, so the effect is the same as the source's in-place updates.
- The 32-bit `int` and `int32` lengths of the source are unbounded integers here. Negative lengths and lengths that overflow are caller errors and are not modelled.
- The host's loop that calls the scanner until it returns 0 is modelled as the function `CustomParser.Tokens`, not as code.

## Findings

| source | as written | input that shows it | evidently intended | confidence | as-written member | corrected member |
|---|---|---|---|---|---|---|
| custom_dictionary.c:135-144 | the underscore loop runs `token_length` times and advances before it tests. Its last test reads the byte just past the token, and an underscore there counts as the last underscore | token "fn_abcdefghijklmnopq" (20 bytes, one underscore), followed in memory by '_', with both flags clear: lexize returns "abcdefghijklmnopq" | test only the token's own bytes; a token with a single underscore is returned unchanged | not executed | CustomDictionary.AsWrittenSplitsOnFollowingUnderscore | CustomDictionary.Lexize |
