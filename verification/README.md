# DuckDB algorithms, modelled and proved in Dafny

This project models seven self-contained algorithms of DuckDB and proves what they are for. Each is modelled in the form
of its source: objects with fields, loops and in-place updates stay methods that are proved against functions, and what
the source promises is proved about those functions.

- **List lambdas** (`ListLambda`). `list_filter` and `list_transform` pack the elements of many lists into batches of a
  fixed size. For every batch size, every lambda and every mix of NULL rows, empty, overlapping and long lists, the
  batched form gives every row the result of running the lambda on that row alone, and the results tile the child vector.
- **PEG parser of the autocompletion** (`PegRules`, `PegRulesPrinting`, `PegGrammar`, `PegCompiler`, `PegBuilding`,
  `PegBuildingRules`, `MatcherFactories`, `PegMeaning`, `PegMatcher`, `PegLanguage`, `PegShortcut`, `PegVisits`,
  `PegSpans`, `PegPushes`, `PegTermination`, `PegCertificate`, `PegDivergence`, `PegGrammarTermination`,
  `CheckPegParser`, `Tokenizer`, `TokenizerTiling`). The whole chain: a reader that splits the grammar text into rules, a
  character-level tokenizer that steps backwards, a stack machine that reads the tokens of a rule, a factory that compiles
  rules into a cyclic graph of matchers, and the backtracking matcher. The graph derives exactly what the grammar means,
  the matcher takes exactly what ordered choice and greedy repetition take, and only what the graph derives, and every
  statement that `check_peg_parser` accepts is a statement of the grammar. Which derivable statements the end-of-input
  shortcut refuses, which runs never end, which grammars are free of such runs, and which grammars are built at all is
  stated exactly.
- **JSON paths** (`JsonPathSpec`, `JsonPathMeaning`, `JsonPath`, `JsonPathPrinting`, `JsonPathSyntax`, `JsonPathOverrun`,
  `JsonWildcard`). Readers, validator, the single-value evaluator and the wildcard evaluator with its growing worklist,
  against an independent reading of a path as steps, what the steps lead to in a value, and an independent level-order
  traversal. A path in any spelling of its steps is read as those steps.
- **Serialization compiler** (`Serialization`, `SerializationDuplicates`, `SerializationRoundTrip`,
  `SerializationTerminator`, `SerializationGenerator`). The statements it emits are values here, run by an interpreter;
  for every schema that the duplicate check accepts, the generated reader restores what the generated writer wrote.
- **Calendar arithmetic** (`Calendar`, `CalendarOrder`, `TimeBucket`, `TimeBucketRange`,
  `TimestampDifference`). Timestamp plus interval, timestamp minus timestamp, and `time_bucket` in microseconds, days and
  months, with division that rounds toward zero, the carry between microseconds and milliseconds, the order in which the
  fields of an interval are added, and hours added 32 bits at a time.
- **Range functions** (`Ranges`, `RangeRows`, `TableRange`, `ListRange`). The table functions emit one chunk per call;
  the scalar functions count first and fill afterwards. Nothing is lost or emitted twice, and both agree.
- **Extension tables** (`ExtensionTable`, `ExtensionEntries`, `ExtensionFile`, `ExtensionOverloads`,
  `ExtensionOverloadTable`, `ExtensionOverloadSort`, `LexicographicOrder`, `ExtensionViews`, `ExtensionRuns`,
  `ExtensionCollection`). Exporting a
  table into its file, cutting it out and parsing it are inverses; over any run of extensions, collecting functions
  classifies them by how many extensions have them.

`Sequences` holds what they share.

## What turned out false

The code is modelled as it is. Where it does not do what it is meant to, the exact condition is proved, with an example.

- Subtracting timestamps borrows a millisecond from the end. When the start is before the epoch and the end less than a
  millisecond after it, the borrow is lost in the division toward zero, and start + (end - start) is a millisecond more
  than the end (`TimestampDifference.SubtractThenAdd`, `TimestampDifference.BorrowExample`).
- An interval without negative fields is not always its months first and the rest afterwards: microseconds that carry
  into the next millisecond are carried before the months are added (`CalendarOrder.MonthsBeforeDays`; example
  `CalendarOrder.LastMicrosecond`). Nor is one with a negative field always its time of day first: when the microseconds
  of a timestamp before the epoch and those of the interval take away more than a millisecond, one is borrowed too few
  before the months are added (`CalendarOrder.TimeBeforeMonths`; example `CalendarOrder.BorrowedTwice`).
- A day bucket counted from an origin that is not on a whole millisecond can start after its timestamp
  (`TimeBucket.DaysBucketLaw`, `TimeBucket.SlipExample`). The default origins are safe.
- Whether the width is a constant vector decides whether a width of zero is an error for an infinite timestamp
  (`TimeBucket.ConstantWidthMakesNoDifference`).
- The table functions `range` and `generate_series` never take back the mark of an empty range, so no row behind the
  first empty range yields anything (`TableRange.RangeIsWhole`, `TableRange.EmptyRangeHides`). The list functions do
  not have this, and differ for an interval of zero as well (`ListRange.ListAgreesWithTable`).
- An array index of 19 digits is not checked for its closing bracket: whatever character comes behind the 19 digits is
  taken for it (`JsonPathOverrun.UncheckedBracket`). A path is read past its end exactly if it ends in such an index and
  the bracket would make it a path (`JsonPathOverrun.OverrunExactly`). So an index of 20 digits without a bracket at the
  end of a path is accepted, and read as its first 19 digits; with fewer than 19 digits or more than 20 it is refused
  (`JsonPathOverrun.UnclosedIndex`), and so is an index of 20 digits or more in brackets
  (`JsonPathPrinting.ReadLongNumber`). A quoted key `*` is taken for the wildcard, an empty key is refused
  (`JsonPathPrinting.PrintedPath`).
- The stack of lists and choices accepts `( A / ) )`; the bracket count kept while the rule is tokenized shuts this out
  (`PegGrammar.HalfChoiceTwice`, `PegGrammar.ParseExactly`, `PegRulesPrinting.ReadThenParsed`).
- The end-of-input shortcut of the list matcher refuses statements that are derivable. When the members that are left
  all derive no token, it refuses them exactly if a choice or a repeat is among them, or a matcher is come to that has
  been visited before (`CheckPegParser.DerivableRefused`, `PegShortcut.ShortcutMisses`; examples
  `CheckPegParser.SharedOptional`, `PegShortcut.EmptyChoice`). What has been visited is not what is
  reached, because a list is left at the first member that has been visited (`PegShortcut.CutList`); it is what is
  reached through members in front of which no list has been left (`PegVisits.VisitedExactly`, `PegVisits.FreshExactly`),
  and it is bounded by reachability from both sides (`PegShortcut.VisitedBetween`, `PegShortcut.FreshBetween`).
- Building the matchers of a grammar does not end for every grammar: it does not exactly if a rule with a parameter is
  built whose body comes to a call of that rule again while nothing new has been built in between
  (`PegBuilding.BuildingEndsExactly`, `PegBuilding.ReturnsByCalls`; example `PegBuildingRules.SelfCallExample`). When
  everything the root rule uses is well formed, that is so exactly if one of the rules it uses calls itself, directly or
  through other calls (`PegBuildingRules.WellFormedEndsExactly`).
- A refused statement has no token for the error message to name exactly if the root is a list, some of its members match
  all tokens, and the others may not be left out (`CheckPegParser.RunsOutExactly`; example
  `CheckPegParser.TruncatedStatement`).
- The serialization compiler does not keep members from having the id that ends an object. Reading then misses the end of
  the object exactly if neither such a member nor any member behind it is written
  (`SerializationTerminator.RoundTripExactly`; example `SerializationTerminator.TerminatorIsNoMember`).
- An exported table without records is not parsed as an empty table (`ExtensionTable.EmptyTableRead`), and one with the
  end marker in a string is cut short (`ExtensionFile.FunctionFileRoundTrip`).
- Parameters of parsed overloads are a list, those of loaded ones a tuple, so sorting the overloads of a function at the
  export is an error exactly if an extension whose overloads of the function were parsed is loaded and adds the function
  (`ExtensionOverloadSort.SortingFailsExactly`, `ExtensionCollection.ExtensionData.ExportFails`; example
  `ExtensionCollection.ParsedAndLoaded`).
- Exporting, parsing and exporting the overload table again changes it exactly if a type is written with an arrow, or
  splitting parameters at commas changes the order of the overloads (`ExtensionOverloadTable.OverloadTableFixpoint`;
  example `ExtensionOverloadTable.CommaReorders`).
- Over any run, a function of several extensions is exported with the overloads they contributed exactly if what was
  shown of it last, before the second of them was loaded, is what the first of them showed
  (`ExtensionCollection.ExtensionData.ExportsContributed`). An extension that shows a function of its dependency spoils
  this (`ExtensionCollection.RelabelledByDependent`). An extension that is named behind another one that depends on it is
  loaded twice (`ExtensionRuns.LoadedOnce`), and then its functions count as those of two extensions
  (`ExtensionCollection.LoadedTwice`). A run fails if it adds a function of a parsed entry that no extension has shown
  before (`ExtensionCollection.Collect`).

## Model

| member | source | states |
|---|---|---|
| ListLambda.ExecuteLambda | extension/core_functions/lambda_functions.cpp:272-361 | for every batch size, functor, lambda and rows, the result vector has exactly the per-row results, laid out row after row, and its validity marks exactly the NULL rows |
| ListLambda.FinishedRow | extension/core_functions/lambda_functions.cpp:104-160 | the entry of every row with a list slices the child vector to the in-order filter (or transform) of that row's own list; filter entries follow one another without gaps to the end |
| ListLambda.TilesCover | extension/core_functions/lambda_functions.cpp:116-153 | entries laid one behind the other select exactly their parts and cover the whole child vector |
| ListLambda.AppendFiltered | extension/core_functions/lambda_functions.cpp:104-160 | one batch keeps the invariant that ties row index, source length, length and offset to the elements judged so far, across batch boundaries, and leaves no empty list waiting |
| ListLambda.CloseEmptyLists | extension/core_functions/lambda_functions.cpp:119-124 | empty lists in front get empty entries at the current offset, and the filter state moves past them |
| ListLambda.JudgeElement | extension/core_functions/lambda_functions.cpp:126-145 | one judged element is counted into its list, dropped if NULL or false, and closes the list exactly at its last element |
| ListLambda.AllClosed | extension/core_functions/lambda_functions.cpp:148-153 | when all elements are judged and trailing empty lists closed, every list has its entry |
| ListLambda.ExecuteExpression | extension/core_functions/lambda_functions.cpp:184-220 | the lambda is run on each slot's own element, index and captured row |
| ListLambda.FlushBatch | extension/core_functions/lambda_functions.cpp:326-336 | a full batch is judged and handed on, and exactly its elements count as done |
| ListLambda.FillSlot | extension/core_functions/lambda_functions.cpp:338-346 | the next element of a row takes the next slot of the batch |
| ListLambda.ExecuteRow | extension/core_functions/lambda_functions.cpp:316-348 | the elements of a row reach the batch in order, with batches run wherever they fill up |
| ListLambda.ProcessRow | extension/core_functions/lambda_functions.cpp:302-348 | a row is announced, walked and pending; a NULL row only clears its validity |
| PegMatcher.AddSuggestion | extension/autocomplete/matcher.cpp:22-29 | terminates on cyclic graphs because visited matchers only grow; its result, visits and pushed suggestions are those of the specification |
| PegMatcher.Match | extension/autocomplete/matcher.cpp:93-123 | on every state on which it ends, result, token index, visited matchers and suggestions are those of `MatchOutcome`; what these are is said by `PegSpans.MatchIsExactly` and `PegPushes.MatchPushes`; no leaf is called at or behind the last token |
| PegMatcher.MatchList | extension/autocomplete/matcher.cpp:93-123 | members match in turn; out of tokens, the rest must be suggested as optional, and a failure leaves the index where the list stopped |
| PegMatcher.MatchChoice | extension/autocomplete/matcher.cpp:195-206 | the first alternative that matches decides, each tried on a copy of the state |
| PegMatcher.MatchOptional | extension/autocomplete/matcher.cpp:160-170 | always succeeds, moving on only if its child matches |
| PegMatcher.MatchRepeat | extension/autocomplete/matcher.cpp:238-267 | one match, then as many as there are |
| PegMatcher.MatchOutcome | extension/autocomplete/include/matcher.hpp:97-111 | the token index of a match stays within the tokens and does not go back on success |
| PegLanguage.OptionalIsNullable | extension/autocomplete/matcher.cpp:125-135 | a matcher that suggests itself as optional derives the empty token sequence |
| PegLanguage.MatchIsSound | extension/autocomplete/matcher.cpp:93-123 | a match from token i to k has a derivation of exactly the tokens in between, including the end-of-input shortcut |
| PegSpans.MatchIsExactly | extension/autocomplete/matcher.cpp:93-267 | a match takes the tokens up to a position, or fails, and leaves the token index at a place, exactly if there is evidence for that: an optional matcher takes nothing only if its child does not match, a repeat stops only where its element does not match or the tokens run out, a choice takes the first alternative that matches, and a list takes its members in turn, or leaves out those left when the tokens run out |
| PegSpans.OneEnd | extension/autocomplete/matcher.cpp:93-267 | there is evidence for at most one end |
| PegPushes.MatchPushes | extension/autocomplete/matcher.cpp:93-267 | a match pushes the suggestions of all that it has tried, matching or not, in order, and where a list or a repeat runs out of tokens those of what may come next |
| PegTermination.MatchDeeper | extension/autocomplete/matcher.cpp:93-123 | the outcome does not depend on the recursion bound once there is one |
| PegTermination.MatchConsumes | extension/autocomplete/matcher.cpp:238-267 | only a matcher that the certificate calls nullable succeeds without consuming a token |
| PegTermination.MatchTerminates | extension/autocomplete/matcher.cpp:93-267 | without left recursion and nullable repeat bodies every match ends: tokens left go down, or the left-call rank does |
| PegCertificate.CertificateExactly | extension/autocomplete/matcher.cpp:55-267 | the matchers a root uses are certified to terminate exactly if none of them runs itself before a token has been consumed, and none repeats what derives no token |
| PegGrammarTermination.GrammarTerminatesExactly | extension/autocomplete/matcher.cpp:951-1088 | the compiled matchers are certified exactly if the chains of items that may come first in one another, through rules, calls and their arguments, are bounded, and no star the root rule uses repeats what means no token |
| PegDivergence.EndsExactly | extension/autocomplete/matcher.cpp:93-267 | a match of any matcher on any tokens ends exactly if it is not part of a chain of runs and loops each of which makes another one, also behind members that succeed on no token |
| PegDivergence.NeverEndsMakes | extension/autocomplete/matcher.cpp:93-267 | a run that does not end makes a run or loop that does not end |
| PegTermination.LeftRecursionDiverges | extension/autocomplete/matcher.cpp:55-64 | matchers whose first calls stay among themselves end on no token |
| CheckPegParser.CheckPEGParser | extension/autocomplete/autocomplete_extension.cpp:420-466 | accepts exactly the texts of which there is evidence for every statement that the root takes all of its tokens, and only statements the root derives; otherwise names the first statement that fails, and the token where the root ends, unless it runs out of tokens |
| CheckPegParser.CheckStatement | extension/autocomplete/autocomplete_extension.cpp:436-452 | a statement is accepted exactly if some match of the root consumes it, which is exactly if there is evidence that the root takes all tokens; then it is in the root's language, and otherwise the index is where the evidence leaves it |
| CheckPegParser.AcceptedExactly | extension/autocomplete/autocomplete_extension.cpp:444-463 | a statement is accepted exactly if there is evidence that the root takes all of its tokens, and refused at a token exactly if there is evidence that the root ends elsewhere or nowhere and leaves the token index there |
| CheckPegParser.AcceptedIsDerivable | extension/autocomplete/autocomplete_extension.cpp:436-452 | an accepted statement is derivable from the root |
| CheckPegParser.FailureIndex | extension/autocomplete/matcher.cpp:93-123 | a failed match leaves the index where it was or behind the last token, the latter only for a list |
| CheckPegParser.StrandedExactly | extension/autocomplete/matcher.cpp:93-123 | a list fails behind the last token exactly if some proper prefix of its members matches all tokens and the others may not be left out |
| CheckPegParser.RunsOutExactly | extension/autocomplete/autocomplete_extension.cpp:444-463 | a refused statement has no token to name exactly if its root runs out of tokens in that way |
| CheckPegParser.DerivableRefused | extension/autocomplete/matcher.cpp:93-123 | when the members left derive no token, the statement is derivable, and refused exactly if there is a choice or a repeat among them or a matcher that is come to twice |
| PegShortcut.ShortcutExactly | extension/autocomplete/matcher.cpp:99-116 | out of tokens, the members left count as matched exactly if entering lists leads to optional matchers only, none of which, nor any list, has been visited before |
| PegShortcut.ShortcutMisses | extension/autocomplete/matcher.cpp:125-135 | members that all derive no token are taken for mandatory exactly if they hold a choice or a repeat, or a matcher is come to that has been visited |
| PegShortcut.VisitedBetween | extension/autocomplete/matcher.cpp:22-29 | what a suggestion visits lies between what is surely reached and what is reached, past the matchers visited before |
| PegShortcut.FreshBetween | extension/autocomplete/matcher.cpp:22-29 | nothing is come to twice if no entry is reached from an earlier one, and only if none is surely reached from an earlier optional matcher |
| PegVisits.VisitedExactly | extension/autocomplete/matcher.cpp:22-29 | what a suggestion visits, besides what was visited before, is exactly what is reached on paths on which every matcher suggests the next one when it is come to; a list does so if all members in front can be left out then |
| PegVisits.AfterExactly | extension/autocomplete/matcher.cpp:125-135 | what has been visited behind an entry of the members left is exactly the entries so far and what is come to from below the optional ones among them |
| PegVisits.FreshExactly | extension/autocomplete/matcher.cpp:99-116 | nothing is come to twice exactly if no entry was visited to begin with, occurs twice, or is come to from below an optional matcher in front of it |
| PegVisits.EachPushedOnce | extension/autocomplete/matcher.cpp:22-29 | a suggestion pushes exactly the keywords and identifiers among the matchers that it is the first to visit, each of them once |
| PegShortcut.EmptyChoice | extension/autocomplete/matcher.cpp:208-213 | a choice that derives no token is mandatory although nothing is shared |
| PegShortcut.CutList | extension/autocomplete/matcher.cpp:125-135 | a list that is left early does not visit what it refers to |
| CheckPegParser.TruncatedStatement | extension/autocomplete/autocomplete_extension.cpp:444-450 | a statement that stops early leaves no token to name |
| CheckPegParser.SharedOptional | extension/autocomplete/matcher.cpp:22-29 | a derivable statement is refused when its list refers twice to one optional matcher |
| Tokenizer.LongestSpecialOperator | extension/autocomplete/tokenizer.cpp:19-46 | the operator found is the longest of the six multi-byte operators that the text starts with at the position, and none is found only if it starts with none |
| Tokenizer.TrimNumber | extension/autocomplete/tokenizer.cpp:205-219 | a number gives back exactly the trailing characters that cannot end one |
| Tokenizer.ParserTokenizer.PushToken | extension/autocomplete/tokenizer.cpp:130-136 | appends the slice to the tokens of the current statement; an empty slice is ignored |
| Tokenizer.ParserTokenizer.OnStatementEnd | extension/autocomplete/autocomplete_extension.cpp:402-418 | ends the statement with the tokens so far and starts one without tokens |
| Tokenizer.ParserTokenizer.StandardCharacter | extension/autocomplete/tokenizer.cpp:145-204 | starts exactly the word, comment, literal or separator that the specification starts there |
| Tokenizer.ParserTokenizer.WordCharacter | extension/autocomplete/tokenizer.cpp:205-240 | continues a word, or pushes it and reads the character again; either the start of the current word or the index moves on |
| Tokenizer.ParserTokenizer.QuotedCharacter | extension/autocomplete/tokenizer.cpp:241-264 | a doubled quote continues a literal, a single one ends it |
| Tokenizer.ParserTokenizer.CommentCharacter | extension/autocomplete/tokenizer.cpp:265-280 | a comment ends at its first closer |
| Tokenizer.ParserTokenizer.ReadCharacters | extension/autocomplete/tokenizer.cpp:138-283 | the loop ends despite its backward steps, with all characters read |
| Tokenizer.ParserTokenizer.TokenizeInput | extension/autocomplete/tokenizer.cpp:138-298 | the statements are the tokens between one semicolon event and the next, the current one those behind the last, with the last word if it is not empty; nothing is completed in a comment |
| Tokenizer.ReceiveSeparates | extension/autocomplete/autocomplete_extension.cpp:402-418 | there are as many finished statements as semicolon events, and each holds exactly the slices of the token events between its semicolon and the one before |
| Tokenizer.NothingLost | extension/autocomplete/autocomplete_extension.cpp:402-418 | one behind the other, the statements hold the slices of all token events, in order |
| Tokenizer.TokenizedOneWay | extension/autocomplete/tokenizer.cpp:138-298 | the events of a text and its last word leave one way to cut it into statements |
| TokenizerTiling.LexTiles | extension/autocomplete/tokenizer.cpp:138-298 | tokens are disjoint ordered slices; between them lie only whitespace, semicolons and comments, up to an unfinished comment or last word |
| TokenizerTiling.StepShape | extension/autocomplete/tokenizer.cpp:145-204 | every step makes one token where it starts, ends a statement at a semicolon, skips one separator, or stops |
| TokenizerTiling.CommentEndIsFirst | extension/autocomplete/tokenizer.cpp:265-280 | the end of a comment is the first closer, or the end of the text |
| TokenizerTiling.QuoteEndExactly | extension/autocomplete/tokenizer.cpp:241-264 | a literal ends exactly at the first quote that is not paired, what is in it being a text with its quotes doubled, and does not end exactly if the rest of the input is such a text |
| TokenizerTiling.StepToken | extension/autocomplete/tokenizer.cpp:138-264 | a token is a closed literal, the longest operator of its own, a single character, a number up to the last character of the run that can end one, or a whole run of operator or keyword characters, and starts with nothing that separates tokens |
| TokenizerTiling.LexTokens | extension/autocomplete/tokenizer.cpp:138-298 | all tokens of an input are of that shape, and its last word is empty, an open literal, or a run up to the end |
| PegGrammar.ParsePrinted | extension/autocomplete/matcher.cpp:984-1083 | printed items are read back as those items |
| PegGrammar.ParsedIsPrinted | extension/autocomplete/matcher.cpp:1084-1088 | whatever is read with one root left is printed by its items as soon as the brackets balance, and never has more opening than closing brackets |
| PegGrammar.ParseExactly | extension/autocomplete/matcher.cpp:881-943 | with no more closing than opening brackets, reading succeeds exactly on the tokens of proper items: `?`, `*` and `/` take the last item, every `/` has a right operand, brackets balance, `!` is ignored |
| PegGrammar.HalfChoiceTwice | extension/autocomplete/matcher.cpp:914-926 | without that, half a choice is accepted twice in a group |
| PegRules.PEGParser.ParseRules | extension/autocomplete/matcher.cpp:675-859 | the loop over the text, with its states, bracket count and waiting `/`, adds exactly the rules of the character-by-character specification to those there are, or gives its error |
| PegRules.PEGParser.NextToken | extension/autocomplete/matcher.cpp:763-847 | the token at the cursor of a definition and the cursor behind it |
| PegRules.PEGParser.AddRule | extension/autocomplete/matcher.cpp:644-650 | a name is defined once |
| PegRulesPrinting.ReadExactly | extension/autocomplete/matcher.cpp:675-859 | some text defines exactly these rules if and only if names, parameters and tokens are well formed, no rule is empty or closes a bracket too early, and at most one rule (the last) has an open bracket or ends in `/` |
| PegRulesPrinting.ReadPrintedRules | extension/autocomplete/matcher.cpp:675-859 | printing rules with different names, an open one last, and reading the text gives the rules back |
| PegRulesPrinting.TurnKeepsHealth | extension/autocomplete/matcher.cpp:683-846 | at every character the bracket count is that of the tokens so far, none was closed too early, and a newline leaves only closed rules behind |
| PegRulesPrinting.TokenWellFormed | extension/autocomplete/matcher.cpp:763-840 | a token read is a name, an operator, or text whose closer occurs only escaped |
| PegRulesPrinting.ReadThenParsed | extension/autocomplete/matcher.cpp:820-837 | a rule that comes from a text is compiled exactly if its tokens are those of proper items, so half a choice is never put twice in a group |
| PegGrammar.StepReads | extension/autocomplete/matcher.cpp:986-1082 | after any tokens there are at least as many open lists as open brackets, and if no more, the stack is what the tokens say |
| PegCompiler.FitsKept | extension/autocomplete/matcher.cpp:951-971 | what a finished matcher stands for does not change while other matchers are created and filled |
| PegCompiler.AddToFits | extension/autocomplete/matcher.cpp:881-900 | adding a matcher fills the list on top, or completes the choice on top and takes it off the stack; the matchers then stand for the items of the token stack |
| PegCompiler.WrapLastFits | extension/autocomplete/matcher.cpp:1012-1032 | `?` and `*` put an optional, or an optional repeat, around the last matcher of the list on top only |
| PegCompiler.OpenChoiceFits | extension/autocomplete/matcher.cpp:1033-1055 | `/` replaces the last matcher of the list by a choice that waits for its other side |
| PegCompiler.ClosePlain | extension/autocomplete/matcher.cpp:914-925 | a bracket that ends no call adds its list to what is below it |
| PegCompiler.CloseCall | extension/autocomplete/matcher.cpp:926-942 | a bracket that ends a call adds the matcher made for that rule and that argument |
| PegCompiler.ReadAll | extension/autocomplete/matcher.cpp:1084-1088 | when all tokens are read and one root is left, the rule and all rules it needed are complete and nothing is left unfinished |
| MatcherFactories.MatcherFactory.CreateMatcher | extension/autocomplete/matcher.cpp:951-1089 | whenever building ends, the matcher or the error, and the rules that have matchers afterwards, are those it comes to; a rule without argument has exactly one matcher, the one in the cache, also for recursive references; every rule built is the list of its items; an error blames a rule that is really wrong in that way |
| PegBuilding.BuildDeeper | extension/autocomplete/matcher.cpp:951-1089 | what building a rule comes to does not depend on the bound on bodies inside one another once it comes to something |
| PegBuilding.BuildBlames | extension/autocomplete/matcher.cpp:964-1086 | the error it comes to names a rule that is missing, has too many parameters, is given another number of arguments than it has parameters, or has a body that cannot be read |
| PegBuilding.NeededEnds | extension/autocomplete/matcher.cpp:998-999 | whatever rule a body comes to before any error is built with fewer bodies inside one another, so that building never ends if that one does not |
| PegBuilding.BuildingEndsExactly | extension/autocomplete/matcher.cpp:951-1089 | building a rule ends exactly if it does not come to building a rule that comes to building that rule with the same rules built; no more than (n + 1)^2 bodies are inside one another then, for n rules |
| PegBuilding.ReturnsByCalls | extension/autocomplete/matcher.cpp:952-971 | whatever returns in that way is a call, and so is all between, because a rule without argument is remembered before its body is read |
| PegBuildingRules.NoCallCycleEnds | extension/autocomplete/matcher.cpp:951-1089 | building ends for every grammar, well formed or not, in which no rule used by the root calls itself |
| PegBuildingRules.WellFormedEndsExactly | extension/autocomplete/matcher.cpp:951-1089 | when all that the root uses is well formed, building ends exactly if no rule used by the root calls itself, and then without error |
| PegBuildingRules.BuildCovers | extension/autocomplete/matcher.cpp:991-1003 | when a rule has been built, all rules that it and the rules built on the way refer to have matchers, and all their calls were built |
| PegBuildingRules.CallCloses | extension/autocomplete/matcher.cpp:1003-1006 | in a body that can be read, every call is closed by a bracket |
| PegBuildingRules.SelfCallExample | extension/autocomplete/matcher.cpp:922-943 | a function whose body calls it is never built, and does no harm to a grammar that does not use it |
| MatcherFactories.MatcherFactory.FillMatcher | extension/autocomplete/matcher.cpp:973-1089 | the matcher of a rule is filled from its tokens, with one root left |
| MatcherFactories.MatcherFactory.Keyword | extension/autocomplete/matcher.cpp:529-535 | a keyword with a matcher of its own gets that, any other a new one |
| MatcherFactories.MatcherList.AddMatcher | extension/autocomplete/matcher.cpp:881-900 | the state of matchers and stack after the step |
| MatcherFactories.MatcherList.Wrap | extension/autocomplete/matcher.cpp:1012-1032 | fails exactly if the top is no list or is empty |
| MatcherFactories.MatcherList.Or | extension/autocomplete/matcher.cpp:1033-1055 | fails exactly if the top is no list or is empty |
| MatcherFactories.MatcherList.ReadReference | extension/autocomplete/matcher.cpp:991-1001 | a reference is to the argument or to the matcher of the rule |
| MatcherFactories.MatcherList.PassArguments | extension/autocomplete/matcher.cpp:931-935 | one argument is passed as it is, any other number as a list |
| MatcherFactories.MatcherList.CloseBracket | extension/autocomplete/matcher.cpp:914-943 | closes what the token stack closes, or fails where that fails |
| MatcherFactories.MatcherList.ReadToken | extension/autocomplete/matcher.cpp:984-1083 | a token does to the matchers what it does to the token stack, with the same errors |
| MatcherFactories.MatcherList.ReadNext | extension/autocomplete/matcher.cpp:984-1083 | the next token is read, or is the reason why the rule is not built |
| MatcherFactories.MatcherList.ReadTokens | extension/autocomplete/matcher.cpp:984-1083 | all tokens of a rule do what reading them does |
| PegMeaning.MeaningPreserved | extension/autocomplete/matcher.cpp:951-1089 | the trees derived from a compiled matcher are exactly the derivations of the item it stands for, through recursive rules, calls and their arguments |
| PegMeaning.RulePreserved | extension/autocomplete/matcher.cpp:951-1089 | the matcher of a rule derives exactly what the body of the rule means under its argument |
| PegMeaning.CompileGrammar | extension/autocomplete/matcher.cpp:1100-1130 | for every grammar whose building ends: the error that it comes to, which blames a wrong rule, or a closed graph whose root derives exactly what the grammar means |
| PegMeaning.AcceptedIsInGrammar | extension/autocomplete/autocomplete_extension.cpp:436-466 | a statement accepted by the compiled grammar has a derivation in the grammar |
| JsonPath.ReadString | extension/json/json_common.cpp:67-105 | reads a quoted or bare key, with escapes, exactly as specified |
| JsonPath.ReadInteger | extension/json/json_common.cpp:107-132 | reads the digits up to 19, its value staying below the wildcard sentinel without wrapping in 64 bits |
| JsonPath.SafeDigits | extension/json/json_common.cpp:107-132 | 19 digits stay below the sentinel |
| JsonPath.ReadKey | extension/json/json_common.cpp:134-171 | reads a key with its wildcard and recursion marks exactly as specified |
| JsonPath.ReadArrayIndex | extension/json/json_common.cpp:173-211 | reads an index; it is the sentinel exactly for a wildcard |
| JsonPath.ValidatePath | extension/json/json_common.cpp:213-250 | calls a path regular, wildcard or invalid according to the steps that an independent reading gives |
| JsonPath.GetPath | extension/json/json_common.cpp:252-295 | on a path validated as regular, the fold of the plain lookups over the value, which is the value that the steps lead to and no other |
| JsonPathMeaning.LookupAllExactly | extension/json/json_common.cpp:252-295 | the single-value evaluator yields exactly the value that the steps lead to, one member or element after the other, or nothing if they lead nowhere |
| JsonPathMeaning.IndexSelects | extension/json/json_common.cpp:281-286 | an index k from the back selects the k-th element from the end, or nothing if there are fewer; from the front the element with that index; and 0 from the back the first one |
| JsonPathMeaning.KeySelects | extension/json/json_common.cpp:260-268 | a key selects the value of the first member that has it |
| JsonPath.PlainTurn | extension/json/json_common.cpp:213-250 | a step of a regular path is a plain step, and the rest is regular |
| JsonPathPrinting.PrintedPath | extension/json/json_common.cpp:67-250 | a printed list of steps is validated as regular exactly if keys are not empty, none is a star, and indices have at most 19 digits, and is then read back as those steps; it is invalid exactly if a step is not printable |
| JsonPathPrinting.PrintedIndexSelects | extension/json/json_common.cpp:173-295 | a path that is one printed index, from the front or the back, selects the element that it counts to |
| JsonPathSyntax.WrittenPath | extension/json/json_common.cpp:67-250 | a path in any spelling of its steps is read as what it stands for: keys with and without quotes, wildcards, descents, and indices from the front, behind `-` or `#-`, or `#` |
| JsonPathMeaning.BareEndExactly | extension/json/json_common.cpp:95-104 | an unquoted key ends exactly at the first dot or bracket, or at the end of the path |
| JsonPathPrinting.ReadPrintedSteps | extension/json/json_common.cpp:67-211 | printed steps are read back one by one, or make the path invalid |
| JsonPathPrinting.ReadLongNumber | extension/json/json_common.cpp:107-132 | the twentieth digit of an index is skipped as if it were the bracket, and no step is found behind it |
| JsonPathOverrun.OverrunExactly | extension/json/json_common.cpp:107-211 | a path is read past its end exactly if it ends in an index of 19 digits, possibly behind `-` or `#-`, without its bracket, and the bracket would make it a path |
| JsonPathOverrun.UncheckedBracket | extension/json/json_common.cpp:107-132 | of an index of 19 digits or more the first 19 are read, and the path goes on behind one more character, whatever it is |
| JsonPathOverrun.UnclosedIndex | extension/json/json_common.cpp:107-211 | an index at the end of a path without its bracket takes the cursor past the end with 19 digits, is accepted with 20, and refused with any other number |
| JsonWildcard.GetWildcardPath | extension/json/json_common.cpp:386-391 | appends exactly the step-by-step meaning of any validated path, whose values are exactly those that the steps lead to |
| JsonPathMeaning.SelectExactly | extension/json/json_common.cpp:297-391 | a value is selected exactly if the steps lead to it: a wildcard to every child, a descent to everything inside, and to the value itself unless the path ends there |
| JsonPathMeaning.SelectInOrder | extension/json/json_common.cpp:297-384 | what a path selects is what its rest selects in each of the values that its first step leads to, in their order |
| JsonPathMeaning.NextInOrder | extension/json/json_common.cpp:334-343 | the values of an array or an object are taken in the order in which they stand there |
| JsonPathMeaning.DescentReaches | extension/json/json_common.cpp:306-330 | level order comes to exactly what is inside a value, at any depth |
| JsonWildcard.GetWildcardPathInternal | extension/json/json_common.cpp:297-384 | the recursion ends and appends what the rest of the path selects; what that is, and in which order, is stated by `JsonPathMeaning.SelectExactly` and `JsonPathMeaning.SelectInOrder` |
| JsonWildcard.VisitDescendants | extension/json/json_common.cpp:306-330 | the growing worklist visits the subtree in level order |
| JsonWildcard.TakeUp | extension/json/json_common.cpp:306-330 | taking up a node and queueing its children keeps the order of the whole visit and leaves less work |
| JsonWildcard.QueueIsLevelOrder | extension/json/json_common.cpp:306-330 | the order of the worklist is level order |
| JsonWildcard.LevelOrderVisitsOnce | extension/json/json_common.cpp:306-330 | level order visits every node of the subtree exactly once |
| JsonWildcard.RecursiveKeyAgain | extension/json/json_common.cpp:297-330 | a recursive key is read again as a plain key for every node |
| JsonWildcard.EvaluatorsAgree | extension/json/json_common.cpp:252-391 | on a regular path the wildcard evaluator yields the one value of the single-value evaluator, or nothing |
| Serialization.ConstructorPrefixIs | scripts/generate_serialization.py:619-677 | a member is read before the constructor is called exactly if the constructor takes it or one behind it |
| Serialization.FirstNamedIs | scripts/generate_serialization.py:632-643 | the first member with a name is the one a constructor entry means |
| SerializationGenerator.GenerateBaseClassCode | scripts/generate_serialization.py:525-610 | emits the reads, the dispatch and the assignments of the members that are routed nowhere else; refused exactly if a read-only member has no default |
| SerializationGenerator.GenerateClassCode | scripts/generate_serialization.py:613-745 | emits reads before the constructor, the call, assignments, and reads behind it; refused exactly if the constructor takes an unknown member or a read-only member has no default |
| SerializationGenerator.ConstructorParameters | scripts/generate_serialization.py:619-677 | the arguments in order and the number of members to read first; refused exactly if a member is unknown |
| SerializationDuplicates.CheckChildrenForDuplicateMembers | scripts/generate_serialization.py:748-766 | accepts a class exactly if no inheritance path down from it repeats an id or a name |
| SerializationDuplicates.CheckMembers | scripts/generate_serialization.py:750-762 | the members of one class are fresh exactly if none repeats an id or a name seen before |
| SerializationRoundTrip.RoundTrip | scripts/generate_serialization.py:525-745 | for every accepted schema the base reader, run on the output of a child's writer, dispatches to that child, restores exactly the members expected, with defaults left out and filled in again, and stops at the end of the object |
| SerializationRoundTrip.ReadsPath | scripts/generate_serialization.py:525-745 | the same along any inheritance path, base classes first |
| SerializationRoundTrip.SerializeIs | scripts/generate_serialization.py:679-686 | the writers along a path write all members in order, base classes first |
| SerializationRoundTrip.ReadMany | scripts/generate_serialization.py:220-256 | reading members takes exactly what writing them put into the stream, and no absent member takes the id of a later one |
| SerializationRoundTrip.LeafReads | scripts/generate_serialization.py:613-745 | a class with a constructor is read back from its own members |
| SerializationRoundTrip.BaseReads | scripts/generate_serialization.py:525-610 | a base class reads its members, then the child its enum member names, then assigns |
| SerializationTerminator.RoundTripExactly | src/common/serializer/binary_deserializer.cpp:19-42 | for every accepted schema and every object, reading stops at the end of the object exactly if no member with the id of the object end is left out together with all members behind it; if a field id or nothing follows, it fails otherwise |
| SerializationTerminator.PathMisses | src/common/serializer/binary_deserializer.cpp:19-42 | a member sought at the end of the object takes its end mark, in a class or in any class below it |
| SerializationTerminator.TerminatorIsNoMember | src/common/serializer/binary_deserializer.cpp:19-42 | a member with the id of the object end, left out for its default, is sought there and reading fails |
| SerializationTerminator.TerminatorInFront | src/common/serializer/binary_deserializer.cpp:19-42 | left out too, but with a member behind it that is written, it does no harm |
| Calendar.SetTime | extension/icu/icu-datefunc.cpp:133-148 | the millisecond at or below a timestamp, and the microseconds above it, from division toward zero |
| Calendar.GetTime | extension/icu/icu-datefunc.cpp:101-131 | the timestamp of a millisecond and microseconds, or an overflow |
| Calendar.CalendarAddHour | extension/icu/icu-dateadd.cpp:47-65 | the 32-bit pieces add up to all hours, in both directions, and the loop ends |
| Calendar.SplitTime | extension/icu/icu-dateadd.cpp:99-108 | milliseconds, seconds, minutes and hours of a time add up to it |
| Calendar.AddFields | extension/icu/icu-dateadd.cpp:110-130 | months before days, the time of day first for negative intervals; that the order is this one is stated by `CalendarOrder.MonthsBeforeDays` and `CalendarOrder.TimeBeforeMonths` |
| Calendar.AddInterval | extension/icu/icu-dateadd.cpp:67-133 | timestamp plus interval as specified, with its overflow checks; the order of its fields is stated in `CalendarOrder` |
| Calendar.MovedMicros | extension/icu/icu-dateadd.cpp:74-85 | the carry between microseconds and milliseconds loses nothing |
| Calendar.SumIsExact | extension/icu/icu-dateadd.cpp:67-133 | without months, the sum is exactly the timestamp plus all days and microseconds |
| CalendarOrder.MonthsBeforeDays | extension/icu/icu-dateadd.cpp:74-130 | without negative fields, the sum is that of the months alone, and then of days and time of day, exactly unless the microseconds carry into the next millisecond and months take that one elsewhere |
| CalendarOrder.CarryMonthsDays | extension/icu/icu-dateadd.cpp:74-130 | without exception, it is the sum of the microseconds that make up no millisecond, then of the months, then of the days and the rest |
| CalendarOrder.TimeBeforeMonths | extension/icu/icu-dateadd.cpp:74-119 | with a negative field, the sum is that of the time of day, then of the months, then of the days, exactly unless the microseconds take away more than a millisecond and months take the next one elsewhere |
| CalendarOrder.ThirtiethOfJanuary | extension/icu/icu-dateadd.cpp:120-122 | 30 January and a month and a day is 1 March, and would be 28 February with days first |
| CalendarOrder.LastMicrosecond | extension/icu/icu-dateadd.cpp:77-81 | a month and a microsecond after the last microsecond of 30 January is 28 February, not 1 March |
| CalendarOrder.BorrowedTwice | extension/icu/icu-dateadd.cpp:77-85 | a month less 999 microseconds, added before the epoch, is a day less than the microseconds and then the month |
| CalendarOrder.AlternatingIsValid | extension/icu/icu-dateadd.cpp:117-122 | there are months such as the calendar is taken to have: of 31 and 28 days in turn |
| CalendarOrder.SumInRange | extension/icu/icu-dateadd.cpp:87-91 | without months, there is a sum exactly if it is in range, and so are its whole milliseconds before and after days and time of day have been added |
| CalendarOrder.OrdinarySum | extension/icu/icu-dateadd.cpp:67-133 | without months, there is a sum whenever it and the timestamp are two milliseconds from the ends of the range |
| TimestampDifference.SubtractTimestamps | extension/icu/icu-dateadd.cpp:146-180 | days and microseconds between two timestamps as specified |
| TimestampDifference.FieldDifferences | extension/icu/icu-datefunc.cpp:159-168 | five successive field differences add up to the milliseconds between |
| TimestampDifference.MicrosSurvive | extension/icu/icu-dateadd.cpp:158-177 | the unsigned 64-bit detour and the 32-bit cast of the microseconds do no harm |
| TimestampDifference.BorrowIsExact | extension/icu/icu-dateadd.cpp:160-165 | the borrow is exact unless it crosses the epoch |
| TimestampDifference.SubtractThenAdd | extension/icu/icu-dateadd.cpp:67-180 | start plus the difference is the end, exactly unless the borrow crosses the epoch; then it is one millisecond off |
| TimestampDifference.BorrowExample | extension/icu/icu-dateadd.cpp:160-165 | 300 microseconds before the epoch and 500 after it are 1800 apart |
| TimeBucket.ClassifiersAgree | extension/icu/icu-timebucket.cpp:29-62 | both classifiers agree on every width but zero |
| TimeBucket.WidthConvertibleToMicrosCommon | extension/icu/icu-timebucket.cpp:64-78 | the microsecond bucket as specified, with its overflow checks |
| TimeBucket.TruncateThenStepBack | extension/icu/icu-timebucket.cpp:71-75 | rounding toward zero and stepping back is rounding down |
| TimeBucket.MicrosBucketLaw | extension/icu/icu-timebucket.cpp:64-78 | bucket <= ts < bucket + width, and bucket - origin is a multiple of the width |
| TimeBucket.WidthConvertibleToDaysCommon | extension/icu/icu-timebucket.cpp:80-100 | the day bucket as specified |
| TimeBucket.DaysBucketLaw | extension/icu/icu-timebucket.cpp:80-100 | the same law for days holds exactly unless the bucket slips |
| TimeBucket.WholeOriginNeverSlips | extension/icu/icu-timebucket.cpp:20-25 | an origin on a whole millisecond never lets a bucket slip |
| TimeBucket.SlipExample | extension/icu/icu-timebucket.cpp:80-100 | a bucket that starts after its timestamp |
| TimeBucket.WidthConvertibleToMonthsCommon | extension/icu/icu-timebucket.cpp:102-131 | the month bucket as specified, with its 32-bit checks |
| TimeBucket.MonthsBetween | extension/icu/icu-timebucket.cpp:110-120 | the months from the truncated origin to the truncated timestamp |
| TimeBucket.MonthsBucketLaw | extension/icu/icu-timebucket.cpp:102-131 | the bucket is the start of the group of months, counted from the origin's month, that holds the timestamp |
| TimeBucket.MonthBucketUnique | extension/icu/icu-timebucket.cpp:119-128 | a timestamp lies in one group of months only |
| TimeBucket.BucketUnique | extension/icu/icu-timebucket.cpp:64-100 | a point lies in one bucket only |
| TimeBucket.BucketMonotone | extension/icu/icu-timebucket.cpp:64-100 | later points lie in later buckets |
| TimeBucket.BinaryOperator | extension/icu/icu-timebucket.cpp:160-204 | the width is checked before the timestamp is looked at; infinite timestamps are their own bucket |
| TimeBucket.ConstantWidthOperator | extension/icu/icu-timebucket.cpp:378-413 | a constant width is classified by the quick classifier |
| TimeBucket.ConstantWidthMakesNoDifference | extension/icu/icu-timebucket.cpp:367-420 | both ways give the same, exactly unless the width is zero and the timestamp infinite |
| TimeBucket.TimeBucketLaw | extension/icu/icu-timebucket.cpp:160-204 | without an origin, a finite timestamp lies in the bucket it is given, whatever the kind of width |
| TimeBucketRange.MicrosBucketInRange | extension/icu/icu-timebucket.cpp:64-78 | a bucket in microseconds is given, and holds the timestamp, whenever it is in range and the distances to the origin are 64-bit numbers |
| TimeBucketRange.DaysBucketInRange | extension/icu/icu-timebucket.cpp:80-100 | a bucket in days is given whenever the day it is counted to is in range; the days never leave 32 bits |
| TimeBucketRange.MonthsBucketInRange | extension/icu/icu-timebucket.cpp:102-131 | a bucket in months is given whenever the months it is counted from and to start in range and are a 32-bit number apart |
| TimeBucketRange.MonthsInRange | extension/icu/icu-timebucket.cpp:115-118 | the months between two timestamps never leave 32 bits |
| Ranges.ValuesAre | extension/icu/icu-list-range.cpp:104-121 | the values start at the start, are one step apart, lie before the bound, and the next one does not |
| RangeRows.RowYieldsExactly | extension/icu/icu-table-range.cpp:111-153 | a row yields exactly the steps from its start that do not lie beyond its end, the end itself only in the inclusive form, provided that the one behind them is in range; a row with a NULL yields nothing |
| RangeRows.RowFailsExactly | extension/icu/icu-table-range.cpp:130-143 | a row fails exactly for infinite bounds, an interval of zero, mixed signs, or a step in bounds behind which the sum is out of range |
| RangeRows.EndIncludedExactly | extension/icu/icu-table-range.cpp:94-108 | the inclusive form yields what the other one does, and behind it the end exactly if some number of steps leads to it |
| RangeRows.EmptyExactly | extension/icu/icu-table-range.cpp:142-151 | a row is marked as empty exactly if its start lies beyond its end, and yields nothing exactly if its start is not in bounds |
| Ranges.CalendarAdderIsMonotone | extension/icu/icu-dateadd.cpp:67-133 | adding an interval without months moves every timestamp the way it points |
| TableRange.ICURangeLocalState.GenerateRangeDateTimeParameters | extension/icu/icu-table-range.cpp:111-153 | the parameters of a row or its error; the mark of an empty range is set and never taken back; what a row yields with its parameters is stated by `RangeRows.RowYieldsExactly` |
| TableRange.ICURangeLocalState.Finished | extension/icu/icu-table-range.cpp:94-108 | whether the bound is passed, in either direction |
| TableRange.ICURangeLocalState.FillChunk | extension/icu/icu-table-range.cpp:209-220 | the chunk and what is left of the series make up the series |
| TableRange.ICURangeLocalState.ICUTableRangeFunction | extension/icu/icu-table-range.cpp:183-230 | what was left before a call is the chunk followed by what is left after it; every call comes closer to the end |
| TableRange.AllChunks | extension/icu/icu-table-range.cpp:183-230 | for any chunk capacity the chunks concatenate to what the rows yield |
| TableRange.RangeStops | extension/icu/icu-table-range.cpp:142-151 | rows up to the first empty range are emitted in full, those behind it not at all |
| TableRange.RangeIsWhole | extension/icu/icu-table-range.cpp:142-151 | all rows are emitted exactly if, behind the first row whose start lies beyond its end, every row has its start at or beyond its end |
| TableRange.EmptyRangeHides | extension/icu/icu-table-range.cpp:202-208 | an empty range hides the row behind it |
| ListRange.ListLength | extension/icu/icu-list-range.cpp:79-123 | the number of values, or an error exactly where the list has one, including more than 2^32 - 1 elements; what the values are is stated by `RangeRows.RowYieldsExactly` and `RangeRows.EndIncludedExactly` |
| ListRange.CountRows | extension/icu/icu-list-range.cpp:147-158 | offsets and lengths of all lists, and NULLs |
| ListRange.FillRow | extension/icu/icu-list-range.cpp:164-175 | the second pass fills in exactly the values that were counted, and no addition fails |
| ListRange.ICUListRangeFunction | extension/icu/icu-list-range.cpp:126-181 | the lists lie one behind the other and fill the child vector exactly |
| ListRange.ListAgreesWithTable | extension/icu/icu-table-range.cpp:134-136 | list and table agree exactly unless the interval is zero or the list too long |
| ListRange.ChunksAreList | extension/icu/icu-list-range.cpp:126-181 | the chunks of the table function for a row are its list |
| ExtensionTable.ParseRecords | scripts/generate_extensions_function.py:98-135 | the records of a text as specified character by character |
| ExtensionTable.TableRoundTrip | scripts/generate_extensions_function.py:98-135 | parsing an exported table restores its records exactly if there are any and no string is empty, holds a quote or has blanks around it |
| ExtensionTable.EmptyTableRead | scripts/generate_extensions_function.py:98-135 | a table without records is read as one empty record |
| ExtensionEntries.ExportFunctions | scripts/generate_extensions_function.py:658-669 | the function table, record by record |
| ExtensionEntries.CreateFunctionMap | scripts/generate_extensions_function.py:183-189 | the map of parsed records, or a failure on a short record or an unknown type |
| ExtensionEntries.TypeFromValue | scripts/generate_extensions_function.py:70-81 | every catalog type is recovered from its text |
| ExtensionEntries.FunctionTableRoundTrip | scripts/generate_extensions_function.py:658-669 | exporting and parsing restores the function map exactly if it is not empty and its strings are plain |
| ExtensionFile.FunctionFileRoundTrip | scripts/generate_extensions_function.py:717-720 | in a file in which the name and the end marker come no earlier, exporting the table, cutting it out and parsing it restores the map exactly if it is not empty, its strings are plain, and none of them holds the marker |
| ExtensionFile.SliceFromTable | scripts/generate_extensions_function.py:717-720 | the slice goes from the name of the table to the first marker behind it |
| ExtensionOverloads.SignatureFixpoint | scripts/generate_extensions_function.py:166-170 | a signature shows itself again after parsing exactly if no type is written with an arrow |
| ExtensionOverloads.SignatureRoundTrip | scripts/generate_extensions_function.py:166-170 | parameters and return type come back exactly if there are parameters, no arrows, and no commas in parameters |
| ExtensionOverloadTable.OverloadTableFixpoint | scripts/generate_extensions_function.py:671-687 | export, parse, export gives the same records exactly if no type is written with an arrow, and splitting parameters at commas leaves the overloads of every function sorted |
| ExtensionOverloadTable.FixpointWithoutCommas | scripts/generate_extensions_function.py:671-687 | without arrows, commas and empty names in types it always does |
| ExtensionOverloadTable.CommaReorders | scripts/generate_extensions_function.py:166-170 | `DECIMAL(4)` and `DECIMAL(4,2)` change places |
| ExtensionOverloadTable.ExportFunctionOverloads | scripts/generate_extensions_function.py:671-687 | the overload table, record by record, the overloads of each function sorted |
| ExtensionOverloadSort.SortingFailsExactly | scripts/generate_extensions_function.py:677-677 | however members are compared, sorting fails exactly if a parsed and a loaded overload agree in extension, name and type; otherwise it gives the sorted overloads |
| ExtensionOverloadSort.TwoAreSorted | scripts/generate_extensions_function.py:677-677 | comparing two overloads is a way to sort them |
| ExtensionOverloadTable.GroupOverloads | scripts/generate_extensions_function.py:160-175 | parsed overloads grouped by function |
| ExtensionOverloadTable.AgainAt | scripts/generate_extensions_function.py:160-175 | what is parsed has the same functions, each with its sorted overloads as their signatures are parsed |
| ExtensionCollection.ExtensionData.BaseFunctions | scripts/generate_extensions_function.py:598-604 | the functions of the database and of all dependencies, or a failure if one has not been added |
| ExtensionCollection.ExtensionData.AddFunctions | scripts/generate_extensions_function.py:593-626 | what is stored of every function afterwards; fails exactly on an unknown dependency or a known entry without overloads |
| ExtensionCollection.ExtensionData.LoadExtension | scripts/generate_extensions_function.py:500-516 | an extension whose dependencies are there adds what it shows to what is stored, or fails exactly if that cannot be done |
| ExtensionCollection.ExtensionData.AddExtension | scripts/generate_extensions_function.py:490-532 | an extension is loaded behind those of its dependencies that have not been added |
| ExtensionCollection.ExtensionData.AddExtensions | scripts/generate_extensions_function.py:954-957 | over a whole run, what is stored is what loading the extensions in their order makes of the parsed entries, for every function |
| ExtensionCollection.ExtensionData.MapsClassify | scripts/generate_extensions_function.py:611-626 | after any run from nothing, the maps tell which extensions have added each function, and how many |
| ExtensionCollection.ExtensionData.ExportsContributed | scripts/generate_extensions_function.py:613-625 | after any run, a function of several extensions is exported with the overloads they contributed exactly if what was shown last before the second one is what the first one showed |
| ExtensionCollection.ExtensionData.ExportFails | scripts/generate_extensions_function.py:671-677 | after any run, exporting a function fails exactly if overloads of it were parsed, and one of their extensions has been loaded and has added it |
| ExtensionCollection.ParsedAndLoaded | scripts/generate_extensions_function.py:490-494 | overloads parsed for avro, and a run of iceberg alone, which loads avro: the export fails |
| ExtensionCollection.Collect | scripts/generate_extensions_function.py:944-957 | a run succeeds exactly if all extensions and their dependencies are there, and no function of a parsed entry is added before it has been shown |
| ExtensionRuns.OrderIsKnown | scripts/generate_extensions_function.py:490-494 | dependencies come before the extensions that have them |
| ExtensionRuns.LoadedOnce | scripts/generate_extensions_function.py:954-957 | no extension is loaded twice exactly if none is named twice, or behind one that depends on it |
| ExtensionViews.RunIsClassified | scripts/generate_extensions_function.py:611-626 | over any run, one function is in the map its number of extensions says, and its history is what was loaded |
| ExtensionViews.ExportedAreContributed | scripts/generate_extensions_function.py:613-625 | the same condition for one function over any run |
| ExtensionViews.ShowingKeepsClassified | scripts/generate_extensions_function.py:611-626 | one extension keeps the classification, and needs no overloads that are not there |
| ExtensionViews.StepKeepsGenuine | scripts/generate_extensions_function.py:613-621 | the overloads of a function stay those contributed exactly if they were |
| ExtensionViews.ShowingRelabels | scripts/generate_extensions_function.py:625-625 | an extension that shows a function without adding it spoils the labels exactly if a single extension has the function under another label |
| ExtensionCollection.RelabelledByDependent | scripts/generate_extensions_function.py:578-626 | a run of avro, parquet, iceberg and a fourth extension that exports a function of avro under the name of iceberg |
| ExtensionCollection.LoadedTwice | scripts/generate_extensions_function.py:954-957 | a run of iceberg and avro that exports a function of avro alone as one of two extensions |

## Left out

- ICU itself: the calendar is a clock of milliseconds with days of equal length, months are any strictly increasing sequence of midnights that adding months respects, and time zones and daylight saving are not modelled; neither are the time zone and offset variants of `time_bucket`.
- `GetTimeUnsafe` and the borrow in timestamp subtraction are computed without the 64-bit wrap-around they would have at the very ends of the range.
- Vector formats, selection of constant vectors, validity mask layout, bind data and function registration. A constant result vector of the list functions is not modelled.
- Leaf matchers and what tokens they accept are parameters; scoring of suggestions, file suggestions and the catalog are not modelled.
- PegRules.PEGParser.ParseRules: grammar text has no NUL inside. Text that ends inside a regular expression or behind a backslash is an error here; the source moves its cursor past the end of such a text.
- PegMatcher.Match: is stated for states on which it ends, with a ghost bound on the recursion; when it ends is stated by PegTermination.MatchTerminates and PegDivergence.EndsExactly.
- MatcherFactories.MatcherFactory.CreateMatcher: is stated for calls that end, with a ghost bound on how many bodies are read inside one another; when it ends is stated by PegBuilding.BuildingEndsExactly.
- PegCompiler.Fits: the keyword overrides are a lookup function, because the source compares them without regard to case.
- JsonPathSyntax.WrittenPath: indices are written without leading zeros.
- JSON text is taken as bytes without a NUL inside; reading one character past the end of a path gives the terminating NUL. The yyjson library is modelled as values with ordered members; what paths lead to is stated for values whose arrays have fewer than 2^64 elements.
- The member `property` of the serialization schema is identified with its name; custom switch code, custom implementations, templates, includes and storage versions are not modelled. `Set` and `Unset` of parameters leave no trace in the stream and are not modelled.
- SerializationRoundTrip.RoundTrip: takes constructors to store what they are given, because constructors are written by hand; a value that is read equals the value that was written.
- The JSON serializer and deserializer; their value formats are not part of this model.
- The functions of a table may be exported in any order; the overloads of one function are sorted. Settings, secret types and copy functions, whose tables are written and read in the same way, are left out, and so is cutting the overload table out of its file.
- ExtensionOverloadTable.OverloadTableFixpoint: compares records; their text is a function of them, and each map is taken to have no function without overloads, because none is ever made.
- ExtensionCollection.ExtensionData.AddExtensions: extension names are lower case; what loading an extension shows is a parameter. The stored function lists, filtering parsed entries by extension and the one hardcoded entry are not modelled.
- Loading extensions, running the shell, and the optimizer named in the repository's own README.
