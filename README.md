# The Asterisk console command registry, in Dafny

`cli.c` is the command line interface of the Asterisk PBX. It holds two tables
of commands:

- a static table of six builtins: `help`, `load`, `show channel`,
  `show channels`, `show modules`, `unload`;
- a linked list of helper commands that modules register and unregister at
  run time.

Every command is a path of words (`cmda`). Each has a handler, a one-line
summary, a usage text and, optionally, a completion generator.

On these tables the file does four things:

- It splits console lines into argument vectors (`parse_args`).
- It looks commands up in three matching modes (`find_cli`).
- It lists them for `help` (`help_workhorse`, `handle_help`).
- It completes partly typed lines (`ast_cli_generator`) and dispatches whole
  lines to handlers (`ast_cli_command`). A suggestion is printed when nothing
  matches (`find_best`).

The model has one module per layer:

- `Wrappers`: an `Option` type.
- `CliText`: the C string operations the file relies on:
  - `strcasecmp`, `strcmp`, the truncated `strncasecmp` of registration;
  - `join` and `join2`, as loop methods proved against `Joined`/`Joined2`.
- `Tokenizer`: `parse_args`.
  - It is specified by a small lexer, `Step`, which keeps the three flags
    `quoted`, `escaped` and `whitespace`. `Run` and `Tokenize` fold `Step` over
    the line.
  - It is implemented as the C loop over a character `array`: a write cursor,
    NUL terminators written in place, and `argv` slots holding buffer
    positions.
  - `ParseArgs` is proved to leave in the buffer exactly the words `Tokenize`
    computes.
- `Matching`: command entries (`Entry`, a class, since entries are linked and
  unlinked by identity) and the three `find_cli` modes (`Matches`).
  - `MatchEntry` is the inner loop of `find_cli`.
  - `FirstMatch`/`Found` are the "builtins first, first match wins" search.
- `Listing`: the walk shared by `help_workhorse` and `ast_cli_generator`.
  - It merges the builtins table with the helpers list by `strcmp` order of
    the space-joined paths.
  - It also defines the help listing and the completion choice.
- `Commands`: the specification of the registry.
  - Its invariant, `Consistent`: no entry is listed twice, no two paths are
    equal ignoring case, and no helper's path is a word prefix of a builtin's.
  - What registration refuses, where it inserts, and what unregistration
    removes.
  - The `find_best` suggestion, the reply of `handle_help`, and what a
    dispatched line prints.
- `Cli`: the registry as an object, `Cli.Registry`, with the builtins and the
  `helpers` list as fields.
  - Every operation of the file is a method whose loops follow the C loops.
  - Each method is proved to compute the `Commands` function that specifies
    it.
  - Handlers the registry does not own are function values (`Foreign`), and
    output is the sequence of lines printed.

## Model

| member | source | states |
|---|---|---|
| CliText.Lower | cli.c:262 | the case folding of strcasecmp: ASCII upper-case letters map to lower case, every other character to itself |
| CliText.EqualCI | cli.c:262 | strcasecmp(a, b) == 0: same length, equal characters after case folding |
| CliText.PrefixCI | cli.c:421 | strncasecmp(p, s, strlen(p)) == 0: p is a case-insensitive prefix of s |
| CliText.StrLess | cli.c:408 | strcmp(a, b) < 0 by character codes, a proper prefix below the longer string |
| CliText.NCaseLess | cli.c:367 | strncasecmp(a, b, n) < 0 |
| CliText.TruncatedLess | cli.c:364-367 | the compare of ast_cli_register, over the length of the shorter string |
| CliText.WordPrefixCI | cli.c:254-264 | every word of p equals, ignoring case, the word at the same position of w, and w has at least as many words |
| CliText.WordsEqualCI | cli.c:254-268 | two paths have the same number of words and equal words ignoring case |
| CliText.Joined | cli.c:288-298 | the words separated by single spaces, as join builds them |
| CliText.Joined2 | cli.c:300-308 | the words concatenated without separators, as join2 builds them |
| CliText.Join | cli.c:288-298 | the loop builds the words of the path separated by single spaces |
| CliText.Join2 | cli.c:300-308 | the loop builds the words of the path concatenated without separators |
| CliText.Joined2IsUnspacedJoined | cli.c:288-308 | for words without spaces, the join2 string is the join string with its separating spaces removed |
| CliText.JoinedPrefix | cli.c:288-298 | joining the first k words of a path gives a prefix of joining all of them |
| CliText.JoinedEqualCI | cli.c:288-298 | paths equal word by word ignoring case join to strings equal ignoring case |
| CliText.JoinedPrefixCI | cli.c:420-424 | a path that is a word prefix of another joins to a case-insensitive string prefix of the other's join, so the help filter keeps every entry the topic abbreviates |
| CliText.JoinedPrefixNotWordPrefix | cli.c:420-424 | the converse fails: the string filter keeps "show channels" for the topic "show channel", which is not a word prefix of it |
| CliText.EqualCIConcat | cli.c:288-298 | strcasecmp equality is preserved by concatenation |
| CliText.StrLessIrreflexive | cli.c:407-408 | strcmp(a, a) < 0 never holds |
| CliText.StrLessTransitive | cli.c:407-408 | the strcmp order used by the merge is transitive |
| CliText.StrLessTotal | cli.c:407-408 | two different strings are ordered one way or the other by strcmp |
| CliText.StrLessAsymmetric | cli.c:407-408 | strcmp cannot put a below b and b below a |
| CliText.StrLessAt | cli.c:407-408 | a string is below another when they agree up to a position where the first ends or has the smaller character |
| CliText.TruncatedLessPrefix | cli.c:364-367 | the compare of ast_cli_register, truncated to the shorter join2 string, never says "below" in either direction when one string starts the other ignoring case |
| CliText.NCaseLessEqual | cli.c:367 | strncasecmp over n characters that agree ignoring case is not negative |
| Tokenizer.Emit | cli.c:493-506 | the `normal:` branch keeps the lexer state well formed: at most AST_MAX_ARGS - 1 words, none empty, and a word is open only when one exists |
| Tokenizer.Step | cli.c:465-506 | one pass of the switch keeps the lexer state well formed |
| Tokenizer.Run | cli.c:464-508 | the loop over the line keeps the lexer state well formed |
| Tokenizer.Tokenize | cli.c:453-515 | the argument vector has fewer than AST_MAX_ARGS words, so argv[argc] can hold NULL, and no word is empty |
| Tokenizer.WordLen | cli.c:474-484 | the leading run of non-blank characters ends at the end of the line or at a blank |
| Tokenizer.Split | cli.c:474-484 | the reference splitter at blanks yields no empty word |
| Tokenizer.Cap | cli.c:496-499 | the truncation keeps fewer than AST_MAX_ARGS words |
| Tokenizer.RunInWord | cli.c:493-506 | inside a word, plain characters are appended to it; between quotes, blanks are appended as well |
| Tokenizer.RunFull | cli.c:496-499 | once AST_MAX_ARGS - 1 words are stored and the lexer is between words, no further character of any kind (quote, backslash, blank or other) adds an argument or changes the stored ones, and the lexer stays between words |
| Tokenizer.RunPlain | cli.c:474-506 | on a line without quotes or backslashes, parse_args splits at blanks and ignores the words after AST_MAX_ARGS - 1 of them |
| Tokenizer.RunPlainWord | cli.c:474-506 | the same for a line that starts with a word, with room left for it |
| Tokenizer.OneWord | cli.c:493-506 | the same for a line that is a single word |
| Tokenizer.RunFirstWord | cli.c:493-506 | at a word start with room left, the first word of a plain line becomes a new argument |
| Tokenizer.AfterFirstWord | cli.c:474-484 | the blank after the first word closes it, and lexing resumes at a word start on the rest of the line |
| Tokenizer.PlainTokenize | cli.c:453-515 | a line without quotes or backslashes tokenizes to its first AST_MAX_ARGS - 1 blank-separated words |
| Tokenizer.QuotedArgument | cli.c:466-473 | a double-quoted run of text, blanks included, becomes one argument without its quotes |
| Tokenizer.UnterminatedQuote | cli.c:466-473 | a quote that is never closed still yields its text as an argument, and the lexer stays quoted |
| Tokenizer.TwoWordsThenQuoted | cli.c:466-506 | two words and a quoted argument tokenize to three arguments |
| Tokenizer.QuotedChannelExample | cli.c:466-506 | `show channel "My Phone"` tokenizes to the three words show, channel, My Phone |
| Tokenizer.Word | cli.c:493-506 | a word without blanks, quotes or backslashes starts and fills exactly one new argument |
| Tokenizer.Blank | cli.c:474-484 | outside quotes and escapes a blank only marks a word start |
| Tokenizer.RunConcat | cli.c:464-508 | lexing a + b is lexing b from the state lexing a leaves |
| Tokenizer.RunSplit | cli.c:464-508 | lexing a line is lexing its tail from the state its head leaves |
| Tokenizer.EscapedBlank | cli.c:485-492 | a backslash before a blank puts the blank inside the word |
| Tokenizer.EscapedBlankExample | cli.c:485-492 | `a\ b` tokenizes to the single word `a b` |
| Tokenizer.Escaped | cli.c:485-492 | after an unescaped backslash the next character, whatever it is, goes to the `normal:` label |
| Tokenizer.EscapeAtWordStart | cli.c:485-504 | at a word start with room left, a backslash and any character make that character a new argument |
| Tokenizer.EscapeInWord | cli.c:485-506 | inside a word, a backslash and any character append that character to the word |
| Tokenizer.EscapedQuote | cli.c:466-492 | an escaped quote is a literal quote: the line `\"` + w is the one argument `"` + w |
| Tokenizer.EscapedQuoteExample | cli.c:466-492 | `\"x` tokenizes to the single word `"x` |
| Tokenizer.EscapedBackslash | cli.c:485-492 | a doubled backslash is one literal backslash: x `\\` y is the one argument x `\` y |
| Tokenizer.EscapedBackslashExample | cli.c:485-492 | `a\\b` tokenizes to the single word `a\b` |
| Tokenizer.CStrExtend | cli.c:480 | a NUL-terminated string in the buffer is unchanged by later writes after it |
| Tokenizer.CStrSnoc | cli.c:504 | writing a character at the end of an unterminated string extends that string by it |
| Tokenizer.ModelsNul | cli.c:479-480 | writing the NUL that ends a word terminates every stored word and changes none |
| Tokenizer.ModelsAppend | cli.c:504 | writing a character through the cursor extends the open word by it |
| Tokenizer.ModelsStart | cli.c:500-504 | a word started at the cursor is a new argument of one character |
| Tokenizer.OldWordsKept | cli.c:500-504 | writing after every word is terminated keeps every word and its NUL |
| Tokenizer.ModelsExtend | cli.c:510-511 | once every word is terminated, the rest of the buffer does not matter |
| Tokenizer.Out | cli.c:465-506 | one pass of the switch writes at most one character |
| Tokenizer.ModelsStep | cli.c:465-506 | one pass of the switch keeps buffer and argv spelling out exactly the lexer's words |
| Tokenizer.ModelsEmit | cli.c:493-506 | the normal branch keeps buffer and argv spelling out exactly the lexer's words |
| Tokenizer.Feed | cli.c:465-506 | one pass of the switch updates the flags as the lexer does; the buffer afterwards is the old one with the character the pass emits (a NUL, the character, or nothing) written at the cursor, and argv is the old one with the cursor stored in argv[x] exactly when a word starts |
| Tokenizer.WrittenExtends | cli.c:480-504 | writing through the cursor just past what was written extends it by that character and leaves the rest of the array alone |
| Tokenizer.ScanChar | cli.c:465-506 | one iteration of the loop keeps the written buffer and the filled argv slots spelling out exactly the lexer's words, the untouched argv slots as they were |
| Tokenizer.Scan | cli.c:463-508 | the loop leaves in the buffer and in argv exactly the words of Tokenize, the buffer written from its start, argv filled from its start and no argv slot past them touched |
| Tokenizer.ParseArgs | cli.c:453-515 | NULL exactly when the copy cannot be allocated, with argv untouched; otherwise argc words each pointing into the copy, argv[argc] NULL, the words spelling out Tokenize(s), and the slots after argv[argc] untouched |
| Matching.Entry.constructor | cli.c:234-243 | an entry holds the path, handler, summary, usage and generator it is built with |
| Matching.Matches | cli.c:253-268 | the three find_cli modes: the entry path a word prefix of the typed words (exact == 0), equal to them (exact > 0), or the typed words a word prefix of the entry path (exact < 0), words compared ignoring case |
| Matching.Found | cli.c:245-286 | the entry find_cli returns: the first builtin that matches, else the first helper, else NULL |
| Matching.MatchEntry | cli.c:253-267 | the inner loop accepts exactly when the entry matches in the mode the sign of exact selects: entry a word prefix of the typed words (0), equal (> 0), typed words a word prefix of the entry (< 0) |
| Matching.FirstMatch | cli.c:251-284 | the position found is the first entry that matches, every entry before it does not match, or it is the end |
| Matching.FoundSpec | cli.c:245-286 | find_cli returns NULL exactly when no entry matches, and otherwise an entry of the tables that matches |
| Matching.FoundConcat | cli.c:251-284 | builtins are searched first: a matching builtin hides every helper |
| Matching.MatchesSelf | cli.c:245-286 | a path matches itself in every mode |
| Matching.ModesNest | cli.c:245-286 | an exact match is a match in both inexact modes, and conversely |
| Listing.TakeHelper | cli.c:407-408 | the walk takes the helper when the builtins are used up or the helper's joined path is below the builtin's under strcmp |
| Listing.MergeFrom | cli.c:402-419 | the entries the walk visits from a pair of cursors, in order |
| Listing.Merge | cli.c:398-419 | the entries the walk visits from the start of both sources |
| Listing.MergeNoHelpers | cli.c:402-419 | with no helpers registered, the walk visits the builtins in table order |
| Listing.MergeInterleaves | cli.c:401-418 | the walk visits an interleaving of the builtins and the helpers, each in its own order |
| Listing.MergeFromInterleaves | cli.c:401-418 | from any pair of cursors, the walk visits an interleaving of the remaining builtins and helpers |
| Listing.InterleavesMultiset | cli.c:401-418 | an interleaving holds exactly the entries of both sources |
| Listing.MergeMultiset | cli.c:401-418 | the walk visits every builtin and every helper exactly once |
| Listing.TieGoesToBuiltin | cli.c:407-418 | when a helper and a builtin join to the same path, the builtin is visited first |
| Listing.NotLessTransitive | cli.c:407-408 | "not below" under strcmp is transitive |
| Listing.MergeFromElements | cli.c:401-418 | the walk from any cursors visits only remaining entries |
| Listing.MergeFromSorted | cli.c:401-418 | merging two sorted sources from any cursors gives a sorted sequence |
| Listing.MergeSorted | cli.c:401-418 | with both sources in strcmp order, the listing is in strcmp order |
| Listing.SortedCons | cli.c:401-418 | an entry no later key sorts below can lead a sorted list |
| Listing.StrictlyIncreasingSorted | cli.c:235 | a table whose neighbouring keys increase is sorted |
| Listing.SortedByKeys | cli.c:235 | a table whose keys are an increasing list is sorted |
| Listing.IncreasingFrom | cli.c:235 | in such a table every earlier key is below every later one |
| Listing.Field20 | cli.c:425 | `%20.20s` gives exactly 20 characters: the text right-aligned with blank padding, or its first 20 characters |
| Listing.ListLine | cli.c:425 | the line printed for an entry: its joined path in a 20-character field, three blanks, its summary |
| Listing.Selected | cli.c:420-424 | an entry is listed when there is no topic or its joined path starts with the joined topic, ignoring case |
| Listing.ListingOf | cli.c:402-426 | the lines the walk prints, one per selected entry, in walk order |
| Listing.ListingContains | cli.c:420-425 | a line is printed exactly when it is the line of a walked entry the topic selects |
| Listing.ListingAll | cli.c:401-425 | without a topic, one line per walked entry, in walk order |
| Listing.ListingAppend | cli.c:401-425 | the listing of a concatenation is the concatenation of the listings |
| Listing.Candidates | cli.c:552-553 | completion candidates are walked entries whose joined path the typed line starts, ignoring case |
| Listing.WordAt | cli.c:556-560 | the word at position x of a path, NULL when there is none |
| Listing.CompletionPos | cli.c:556-560 | the word completed is argv[x-1] when the word typed so far is not empty, else argv[x] |
| Listing.CompleteFrom | cli.c:552-574 | what the completion walk returns from the rest of the walk, with n candidates counted so far |
| Listing.CompleteCons | cli.c:552-574 | one entry of the completion walk: its word when it is candidate number state + 1 or later and has one, else its generator's answer when it has a generator and its path is contained in the line, else the rest of the walk |
| Listing.NoHandOff | cli.c:568 | no entry hands completion over: every entry with a generator has a joined path that does not start the line |
| Listing.CompleteAppend | cli.c:552-574 | over a stretch of the walk that hands nothing over, completion skips `state` candidates and returns the word at the completion position of the next candidate that has one; failing that it continues with the rest, the stretch's candidates counted |
| Listing.CountedCandidate | cli.c:552-563 | counting one more candidate and answering with its word when it is past `state` is taking the first word of the remaining candidates |
| Listing.CompleteByCandidates | cli.c:552-567 | when nothing in the walk hands over to a generator, completion skips `state` candidates and returns the word at the completion position of the next candidate that has one, or NULL |
| Listing.GeneratorHandOff | cli.c:552-574 | when the walk reaches an entry with a generator whose joined path starts the line, and no candidate up to and including it has answered, completion is that generator's answer for the line, the word, the completion position and state |
| Listing.HandOffAt | cli.c:568-574 | the same once the walk stands at that entry |
| Listing.TakeHelperAsWritten | cli.c:539-540 | the guard as written: `!e1->cmda` is never true, so the helper is taken only when its path sorts below the last builtin path joined |
| Listing.AsWrittenGuardStepsPastSentinel | cli.c:539-540 | as written, the generator walk does not take the remaining helper "zap" once the builtins are used up (its stale builtin path "unload" sorts below it), but the intended guard does |
| Listing.TakeHelperInBounds | cli.c:407-408 | the guard of help_workhorse always picks an entry that exists: a helper when it takes one, a builtin otherwise |
| Commands.Consistent | cli.c:349-389 | the registry invariant registration keeps: a builtin exists, no entry is listed twice, no two paths are equal ignoring case, no helper's path is a word prefix of a builtin's path, and every path has between one and AST_MAX_CMD_LEN - 1 words |
| Commands.ConsistentPathsFit | cli.c:315-317 | in a consistent registry every path fits the AST_MAX_CMD_LEN slots |
| Commands.Refused | cli.c:356 | registration is refused when find_cli(e->cmda, -1) finds an entry |
| Commands.RefusedIff | cli.c:356-360 | ast_cli_register refuses e exactly when e's path equals or abbreviates, word by word, the path of a listed command |
| Commands.InsertAt | cli.c:361-379 | e goes in front of the first helper its join2 path sorts below under the truncated compare, with every earlier helper not above it, or at the end |
| Commands.IndexOf | cli.c:331-346 | the position of the node that is e itself when it is listed, every earlier node being another one, or the end |
| Commands.Inserted | cli.c:361-386 | the helpers after a registration: e linked in at the insertion point |
| Commands.Removed | cli.c:331-346 | the helpers after an unregistration: the node that is e unlinked, if listed |
| Commands.InsertedSpec | cli.c:361-386 | registering adds exactly e to the helpers, at the insertion point |
| Commands.RemovedSpec | cli.c:331-346 | unregistering removes exactly one occurrence of e, and changes nothing when e is not listed |
| Commands.MultisetRemoveAt | cli.c:333-338 | unlinking one node removes exactly that entry |
| Commands.RegisterUnregister | cli.c:327-389 | unregistering an entry just registered restores the helpers list |
| Commands.InsertAfterPrefix | cli.c:363-367 | registration never inserts in front of a helper whose join2 path starts e's or is started by it |
| Commands.RegisterKeepsConsistent | cli.c:349-389 | a registration that is not refused keeps the registry consistent, and e is then listed exactly once |
| Commands.AddKeepsConsistent | cli.c:356-386 | adding to the helpers an entry no listed path is abbreviated by keeps the registry consistent |
| Commands.InsertDistinct | cli.c:356-360 | the refusal test keeps all paths pairwise different |
| Commands.WordsEqualSymmetric | cli.c:277 | equal paths are word prefixes of each other |
| Commands.InsertMembers | cli.c:361-386 | after a registration the listed entries are the old ones and e, each listed once |
| Commands.ConsistentShrink | cli.c:327-347 | dropping helpers keeps the registry consistent |
| Commands.UnregisterKeepsConsistent | cli.c:327-347 | ast_cli_unregister keeps the registry consistent |
| Commands.RegisteredIsFound | cli.c:245-286 | in a consistent registry the exact lookup of a listed entry's path finds that entry |
| Commands.Suggestion | cli.c:310-325 | the find_best line: the typed words up to and including the first prefix that abbreviates no path, joined with spaces |
| Commands.BestFrom | cli.c:318-322 | the count of copied words grows past the word it starts from and stays within the line |
| Commands.BestFromSpec | cli.c:318-322 | every shorter prefix find_best tried abbreviates a path, and the last one tried, unless it is the whole line, abbreviates none |
| Commands.BestFromIs | cli.c:318-322 | a count with those two properties is the one find_best reaches |
| Commands.AbbreviationFits | cli.c:315-320 | a prefix of typed words that abbreviates a path has fewer words than AST_MAX_CMD_LEN - 1 |
| Commands.BestFits | cli.c:315-320 | find_best never writes outside its AST_MAX_CMD_LEN slots when called for a line no entry starts |
| Commands.HelpListing | cli.c:391-428 | the lines help_workhorse prints for a topic, or for none |
| Commands.HelpReply | cli.c:430-451 | the result and output of handle_help: RESULT_SHOWUSAGE without words, the usage of the exact match, the listing of the entries the topic abbreviates, or "No such command" |
| Commands.HelpOnRegistered | cli.c:434-437 | "help" followed by a listed path prints exactly that command's usage |
| Commands.HelpListsEverything | cli.c:430-451 | "help" alone succeeds and prints one line per builtin and per helper, each listed entry's line among them |
| Commands.HelpOnAbbreviation | cli.c:438-441 | "help" with a topic that only abbreviates paths lists exactly the entries whose joined path starts with the joined topic |
| Commands.Dispatch | cli.c:592-604 | the output of a tokenized line: nothing without words, the handler's output and, on RESULT_SHOWUSAGE, the usage of the entry find_cli(argv, 0) finds, else the "No such command" line with the find_best suggestion |
| Commands.Completion | cli.c:529-574 | what ast_cli_generator returns: the completion walk over the merged tables for the joined tokenized line |
| Commands.LoadArgumentCompletion | cli.c:568-574 | on the builtins table with no helpers, completing the line `load x` is handed to the generator of the "load" entry, at word position 1 when a word is being typed and 2 otherwise, since "help" is no candidate and does not hand over |
| Commands.DispatchToOwner | cli.c:594-600 | when exactly one entry's path starts the typed words, its handler gets all of them, and its usage is printed exactly when it answers RESULT_SHOWUSAGE |
| Commands.DispatchUnknown | cli.c:602-603 | a line no path starts prints one line, the find_best suggestion |
| Commands.HelpCommandLists | cli.c:236 | typing "help" runs the builtin help handler, which prints the full listing |
| Commands.HelpOnHelp | cli.c:236 | typing "help help" prints the usage of the help command |
| Commands.FirstMatchIs | cli.c:251-284 | the first matching position is determined by "no earlier match, and a match or the end here" |
| Commands.InsertAtIs | cli.c:361-379 | the insertion point is determined by "no earlier helper above, and this one above or the end" |
| Commands.IndexOfIs | cli.c:331-346 | the unlink position is determined by "no earlier node is e, and this one is or it is the end" |
| Commands.ListingCons | cli.c:420-425 | the listing of a walk is its first entry's line, when selected, followed by the listing of the rest |
| Commands.MergeStep | cli.c:401-418 | one step of the walk visits the entry the guard picks and advances that cursor |
| Commands.DistinctNoDuplicates | cli.c:234-243 | a table of distinct entries lists each once |
| Commands.PathsDiffer | cli.c:262 | paths that differ in one word ignoring case are different paths |
| Commands.BuiltinPathsDiffer | cli.c:234-243 | the six builtin paths are pairwise different ignoring case |
| Commands.BuiltinsConsistent | cli.c:234-243 | the builtins table alone is a consistent registry |
| Commands.FirstLetterDiffers | cli.c:262 | words whose first letters differ ignoring case are different words |
| Commands.WordDiffers | cli.c:262 | a path with a differing word is no word prefix |
| Commands.BuiltinEntries | cli.c:234-243 | the builtin table holds help, load, show channel, show channels, show modules, unload, in that order |
| Commands.BuiltinKeys | cli.c:234-243 | the joined paths of the builtins |
| Commands.BuiltinsSorted | cli.c:235 | the builtins table is, as its comment asks, in strcmp order |
| Commands.ListingInOrder | cli.c:391-428 | with the helpers in strcmp order, help lists all commands in strcmp order |
| Commands.BuiltinKeyPairs | cli.c:235 | each builtin path sorts below the next under strcmp |
| Commands.ChannelBeforeChannels | cli.c:235 | "show channel" sorts below "show channels" |
| Commands.ChannelsBeforeModules | cli.c:235 | "show channels" sorts below "show modules" |
| Commands.ShowChannelsIsBuiltin | cli.c:251-271 | looking up "show channels" finds that builtin, whatever the helpers |
| Commands.NoBuiltinIsShow | cli.c:234-243 | no builtin path is a word prefix of "show" |
| Commands.ShowStartsShowChannel | cli.c:234-243 | a path that starts "show" starts "show channel" too |
| Commands.NothingIsShow | cli.c:251-284 | in a consistent registry no entry's path starts the line "show" |
| Commands.ShowSuggestsShow | cli.c:310-325 | the suggestion for "show" is "show" |
| Commands.ShowIsUnknown | cli.c:583-612 | typing "show" prints "No such command 'show' (type 'help' for help)" |
| Cli.UpToNull | cli.c:323 | the words of a NULL-terminated word array, as join reads it: exactly the slots before the first NULL, all of them when there is none |
| Cli.UpToNullOf | cli.c:323 | an array holding the words of w followed by NULL or its end reads as w |
| Cli.FilledWords | cli.c:315-323 | after x words are copied into find_best's NULL-padded array, the array reads as the first x typed words, which is what find_cli and join are given |
| Cli.FilledNext | cli.c:319 | copying the next word extends the filled prefix by one |
| Cli.TableOf | cli.c:234-243 | the six builtins in table order with their handlers, summaries, usage texts and generators |
| Cli.Registry.Valid | cli.c:234-389 | the registry invariant: consistent, and the builtins are the six paths of the table |
| Cli.Registry.constructor | cli.c:234-243 | the registry starts consistent with the six builtins, their handlers, summaries, usage texts and generators, and no helpers |
| Cli.Registry.Table | cli.c:234-243 | the builtins table: the six paths, distinct entries, each with its handler, summary, usage text and generator |
| Cli.Registry.FindCli | cli.c:245-286 | find_cli returns exactly the first matching entry, builtins first, or NULL |
| Cli.Registry.Register | cli.c:349-389 | -1 exactly when the path equals or abbreviates a listed one, with the list unchanged; otherwise 0, e linked in at the insertion point and listed once; the registry stays consistent |
| Cli.Registry.InsertionPoint | cli.c:361-379 | the loop stops at the insertion point |
| Cli.Registry.Unregister | cli.c:327-347 | always 0; the node that is e itself is unlinked if listed, nothing else changes, and the registry stays consistent |
| Cli.Registry.FindBest | cli.c:310-325 | find_best copies words into its NULL-padded array, looks up what the array holds after each copy and joins what it holds at the end, which is the suggestion |
| Cli.Registry.Put | cli.c:319 | storing a word changes only that slot of the word array |
| Cli.Registry.Abbreviates | cli.c:320 | one lookup of find_best's loop, on the words the array holds (the first n typed words): whether they abbreviate a path, and how that decides where the loop stops |
| Cli.Registry.Pick | cli.c:401-418 | one step of the walk returns the entry the guard picks, with its joined path, and advances that cursor |
| Cli.Registry.HelpWorkhorse | cli.c:391-428 | prints exactly the help listing: every walked entry the topic selects, in walk order |
| Cli.Registry.HandleHelp | cli.c:430-451 | returns exactly the specified help reply: usage, listing, or "No such command" |
| Cli.Registry.Generator | cli.c:517-581 | NULL when the copy cannot be allocated; otherwise exactly the specified completion of the tokenized line |
| Cli.Registry.Complete | cli.c:534-577 | the walk returns exactly the specified completion choice |
| Cli.Registry.Command | cli.c:583-612 | -1 and no output when the copy cannot be allocated; otherwise 0 and exactly the output the dispatch specification gives for the tokenized line |

## Left out

- Output: `ast_cli` writes to a file descriptor. Here the output is the sequence of lines printed; file descriptors and formatting via `vsnprintf` are not modelled.
- Locking: `clilock` and the mutex calls are left out. Every operation runs alone.
- The handlers `handle_load`, `handle_unload`, `handle_modlist`, `handle_chanlist` and `handle_showchan` call the module loader and the channel list. They are the function values passed to the constructor (`Foreign`); `handle_unload`'s flag parsing is not modelled.
- The generators `complete_ch` and `complete_fn` look at the channel list and the file system, so they are arbitrary function values as well.
- Handlers are assumed not to register or unregister commands while a line is dispatched.
- `ast_log` warnings are not modelled: the "already registered" log, the "Too many arguments" log and "Out of memory".
- CliText.Join: the 80-byte buffers and the `strncat` truncations of `join`, `join2` and the static `cmdline` of `find_best` are not modelled. Paths and lines are unbounded strings.
- Cli.Registry.FindBest: it returns a fresh string, not the static buffer that the next call overwrites.
- `e->next = NULL` in registration and unregistration, and the `next` field: the list is the `helpers` sequence.
- Usage texts are printed as text; their use as a `printf` format is not modelled.
- Cli.Registry.Generator: the copy of the line is freed on one path only (it leaks when a word or a generator answer is returned). Memory is not modelled.
- Cli.Registry.Generator: the `strdup` of the returned word is assumed to succeed.
- Listing.Field20: `%20.20s` counts bytes and the model counts characters. The two agree on ASCII paths. Multi-byte characters are not modelled.
- Listing.WordAt: `e->cmda[x-1]` with `x == 0` reads before the array, and `e->cmda[x]` past `AST_MAX_CMD_LEN` reads past it. Both are modelled as NULL.
- AST_MAX_ARGS = 64, AST_MAX_CMD_LEN = 16 and the RESULT_* codes come from `cli.h`, which is not part of this model.
- Cli.Registry.Register: it requires `|e.cmda| < MaxCmdLen`. A C entry's `cmda` array has AST_MAX_CMD_LEN slots, the last one NULL.
- Commands.InsertAt: registration keeps the helpers in order only loosely. The compare is truncated to the shorter join2 string, so a path goes after every helper it starts (for example "sh" stays after "show"). The model follows the code, not a sorted-list reading of it.
- `Commands.ListingInOrder` assumes the helpers are sorted under strcmp and does not derive that from registration, which does not guarantee it.
- A helper "show channel foo" can be registered, which `find_cli(..., -1)` allows. The builtin "show channel" shadows it when commands are dispatched. The model states this behaviour and does not rule it out.
- Cli.Registry.Complete: it follows the intended merge guard, not the one written at cli.c:539 (see Findings).

## Findings

| source | as written | input that shows it | evidently intended | confidence | as-written member | corrected member |
|---|---|---|---|---|---|---|
| cli.c:539-540 | the merge guard of ast_cli_generator tests `!e1->cmda`, the address of an array inside the entry. That address is never NULL, so the test is always false | builtins used up, one helper "zap" left: the guard compares "zap" with the stale last builtin path "unload", takes the sentinel entry instead, and `e1++` steps past the end of the builtins table | `!e1->cmda[0]`, as help_workhorse tests at cli.c:407: take the helper once the builtins are used up | not executed | Listing.TakeHelperAsWritten, Listing.AsWrittenGuardStepsPastSentinel | Listing.TakeHelper, Listing.TakeHelperInBounds |
