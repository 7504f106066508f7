# A verified model of mrsh

mrsh is a minimal POSIX shell written in C. This project models five connected pieces of it in
Dafny 4.11 and proves what they promise. `dafny verify dfyconfig.toml` checks everything.

## What is modelled

**Word expansion and field splitting.** Words are trees of strings, parameters and lists
(`Words`). Expansion replaces parameters, pulls `$@` out of its double quotes (`Expansion`,
`WordRunner`), and a two-flag walk cuts the tree into fields (`FieldSplitting`,
`FieldSplitter`). The reference for all of it is one left-to-right scan of a flat stream of
atoms, characters that may be split and texts that may not. On top of that stand the rules for
`"$@"` and `"$*"` (`QuotedParams`) and those for the same without quotes (`UnquotedParams`,
`ParameterArguments`), the comparison with the field splitting of section 2.6.5 of POSIX.1-2017
XCU (`PosixSplitting`, and `PosixFields` for text without quotes), tilde and pathname expansion
(`WordExpansion`), the patterns handed to `glob` and the arguments that come of its answers
(`Patterns`), and the removal of prefixes and suffixes of section 2.6.2 (`Trim`).

**The character source.** A growing buffer (`Buffers`) is filled from a file descriptor that
delivers its input in pieces of any size; peeking and reading through it is a plain cursor over
the input, with offset, line and column (`Parsers`).

**Quoting and words.** `print_escaped` (`Quoting`) and the word parser (`WordGrammar` is what it
makes of its input, `WordParser` the parser itself) undo each other (`QuotedWords`), and the
word that is read expands to the string that was printed (`EndToEnd`). `WordLanguage` says how a
word may be written and proves that exactly these texts are read, as what they mean.

**Arithmetic.** `ArithmGrammar` says what each of the mutually recursive levels makes of its
input and whether it sets an error, `ArithmParser` is the parser on the character source.
`ArithmPrint` says how an expression may be written, with its parentheses, white space and
digits, and has a printer. `ArithmRoundTrip` and `ArithmLaws` prove that the parser reads back
whatever is written, and how chains of operators group; `ArithmSpaces` proves where white space
makes it fail; `ArithmLanguage` proves that nothing else is accepted without an error, and what
happens to prefixes that fail.

**The hash table.** Linked buckets on the heap agree with a finite map, and iteration survives
the deletion of the current entry (`HashTables`).

**Jobs and processes.** The job and process tables, the foreground job and the owner of the
terminal, with waiting, status reports and the destruction of terminated jobs (`Jobs`). The
system keeps a record of what `waitpid` answered, and the states of the processes are those after
its answers. `JobSession` proves the same over whole runs of operations; `Sequences` holds the
facts about removing elements from an array that is being walked.

Loops, buffers, tables and the parser are imperative: classes and methods with loop invariants,
proved against functions, and the laws are lemmas about those functions.

## Where the code departs from its standard or from its own grammar

The model follows the code. For each departure it is proved exactly when it matters (for dropped
prefixes, what each kind leaves), and there is an input at which it does.

- The delimiter that ends a field does not set `in_ifs_non_space`, so `a::b` with IFS `:` gives
  two fields, and a double-quoted list does not clear `in_ifs`, so `"a"$x` with a blank and b in
  x gives one (`PosixSplitting.ScansLikePosixIff`; `PosixFields.AdjacentColonsLoseAField`,
  `PosixSplitting.QuotedTextSwallowsBlank`).
- Unquoted `$@` is joined before it is split, so separators of neighbouring parameters can make
  a field together (`UnquotedParams.UnquotedPositionalFields`, `UnquotedParams.NeighboursMakeAField`).
- An empty IFS makes one field of the whole word, even for `"$@"` with two parameters
  (`QuotedParams.AtSignExactlyWhen`).
- A backslash outside quotes is dropped by the parser, so what follows it is like any other text:
  `\*` is globbed and `\~` is the home directory, unlike in section 2.2.1 of POSIX.1-2017 XCU
  (`EndToEnd.BackslashesComeBackIff`; `EndToEnd.BackslashedStarIsPattern`,
  `EndToEnd.BackslashedTildeIsHome`).
- A quoted backslash gets no backslash of its own in the pattern handed to `glob`, so a quoted
  backslash before an unquoted star makes the star an ordinary character
  (`Patterns.PatternMeansWordIff`, `Patterns.QuotedBackslashHidesStar`).
- `trim_pattern` never tries the cut position len (`Trim.TrimsLikePosixIff`,
  `Trim.LargestStarLeavesACharacter`).
- A name directly followed by `==` is taken for an assignment, and fails
  (`ArithmSpaces.EqualChainExactlyWhen`, `ArithmSpaces.NameBeforeEqualFails`).
- The levels from `<<` to `||` group to the right, and a unary operator takes everything after it
  as its operand, so `1<<2<<3` is `1<<(2<<3)` and `-1+2` is `-(1+2)`, unlike in ISO C, which
  section 2.6.4 of POSIX.1-2017 XCU asks for (`ArithmLaws.ChainLikeCIff`,
  `ArithmLaws.UnaryTakesChain`, `ArithmLaws.UnlikeC`).
- A prefix of a term that fails is dropped, with an error on record that the caller does not look
  at when there is a tree: a parenthesis without an expression in it or without its closing one,
  digits that are no literal, an assignment without a value. So `(1==)2` is read as 2, `(1~2` as
  `~2`, and `08a` as `a`; empty pairs of parentheses go without an error
  (`ArithmLanguage.AcceptedIff`, `ArithmLanguage.FailedParenIsDropped`,
  `ArithmLanguage.BadLiteralIsDropped`, `ArithmLanguage.FailedAssignmentIsDropped`,
  `ArithmLanguage.DroppedPrefixes`).
- White space after `==`, `!=`, `?`, `:`, an assignment operator or a unary operator makes an
  arithmetic expression fail, so `1 == 2` is rejected (`ArithmSpaces.SpaceAfterBinaryIff`,
  `ArithmSpaces.SpaceAfterUnaryIff`, `ArithmSpaces.SpaceAfterAssignmentIff`,
  `ArithmSpaces.SpaceInConditionIff`).
- After one parameter in a word, the look-up of the next parameter's token skips blanks and
  comments after the dollar sign, so `"$a$#"` is rejected and `"$a$ b"` is read as `"$a$b"`
  (`EndToEnd.SecondDollarExactlyWhen`, `WordLanguage.WordReadIff`, `EndToEnd.SecondHashIsRejected`,
  `EndToEnd.SecondDollarSkipsBlank`).
- A stopped process counts as stopped even when it has terminated (`Jobs.Process.Poll`,
  `JobSession.StoppedThenKilled`).
- A job number that does not fit an `int` names another job or none
  (`Jobs.NumberNamesAnotherJobIff`, `Jobs.LargeNumberNamesJobOne`).

## Model

| member | source | states |
|---|---|---|
| Words.CopyKeepsText | ast.c:1042-1083 | A copied word has the same text, although the copy forgets which strings may be split |
| FieldSplitting.SplitCharsIsScan | shell/word.c:166-197 | Splitting one string, with its pending buffer, equals scanning its characters one by one, for any state of the two flags |
| FieldSplitting.WalkIsScan | shell/word.c:154-214 | The recursive tree walk with its carried flags computes the field texts and flags of one left-to-right scan of the flattened word |
| FieldSplitting.ScanConcat | shell/word.c:154-214 | Scanning two pieces of a word one after the other is scanning their concatenation: nothing but the scan state crosses the border |
| FieldReference.FieldTextsAreScan | shell/word.c:216-250 | For an unset or non-empty IFS the field texts are those of one scan |
| FieldReference.SameFlatteningSameFields | shell/word.c:154-243 | Cutting splittable text into children, nesting it in unquoted lists or padding it with empty strings never changes the fields |
| FieldReference.SplittingConservesText | shell/word.c:145-243 | The concatenated field texts are the word's text with exactly the IFS characters of splittable unquoted strings deleted |
| FieldReference.QuotedPartsStayWhole | shell/word.c:145-214 | Every part that may not be split lies uncut in one field, and in its own place: the fields before that one and what precedes the part in it are exactly the text kept of what comes before it |
| FieldReference.SplittableWordFields | shell/word.c:154-243 | A word made only of splittable text gives the fields of that text, however it is cut up and nested |
| FieldReference.SplitTextByRuns | shell/word.c:166-197 | What the code does to splittable text in terms of its runs of IFS characters: the extra empty fields of a run follow from its non-white-space characters alone |
| PosixSplitting.PosixSplitIsFrom | shell/word.c:154-243 | Section 2.6.5 of POSIX.1-2017 XCU, skipping one delimiter after another, is the automaton that reads one quoted text or character at a time |
| PosixSplitting.Compare | shell/word.c:154-243 | Side by side with that automaton the code never makes more fields, and makes the same ones exactly where it makes as many |
| PosixSplitting.ScansLikePosixIff | shell/word.c:154-243 | For every stream of quoted texts and splittable characters the code's fields are those of section 2.6.5 if and only if the stream conforms: in terms of its runs of separators, the white space at their start, and the fields that hold double-quoted text only |
| PosixSplitting.WordSplitsLikePosixIff | shell/word.c:154-243 | The same for the field texts of any expanded word, with any unset or non-empty IFS |
| PosixSplitting.ExpansionSplitsLikePosixIff | shell/task/word.c:673-702 | The same from any word before its expansion |
| PosixSplitting.QuotedTextSwallowsBlank | shell/word.c:201-204 | The input `"a"$x` with a blank and b in x: one field `ab`, where the standard asks for two |
| PosixFields.SplitsLikePosixIff | shell/word.c:154-243 | For text that may be split everywhere: the standard's fields exactly when no non-white-space separator precedes the first field and none follows another one that itself ended a field |
| PosixFields.AdjacentColonsLoseAField | shell/word.c:177-186 | The input `a::b` with IFS `:` gives two fields, where the standard asks for an empty one between them |
| PosixFields.WhiteSpaceIfsGivesRuns | shell/word.c:154-243 | With an all-white-space IFS the fields are exactly the maximal non-empty runs of other characters |
| PosixFields.SplitUndoesJoin | shell/word.c:154-243 | Splitting gives back non-empty, IFS-free pieces that were joined by any one IFS character |
| FieldSplitter.SplitFieldsData.AddToCurField | shell/word.c:145-152 | Adding a word opens a field if none is open and changes no earlier field |
| FieldSplitter.SplitFieldsData.SplitString | shell/word.c:166-197 | The character loop, with its reused buffer, leaves the state that the specification gives |
| FieldSplitter.SplitFieldsData.SplitFields | shell/word.c:154-214 | The recursive method on the mutable state does exactly what the specified walk does |
| FieldSplitter.SplitFields | shell/word.c:216-243 | The whole operation returns the specified fields; an empty IFS gives one field, a copy of the word |
| Expansion.PositionalWordsMean | shell/task/word.c:202-229 | The list made for `$@` or `$*` has the joined parameters as text, and as atoms the parameters with splittable separators between them |
| Expansion.RunWordMeans | shell/task/word.c:465-667 | Any expansion without error has the plain text and the stream of atoms that a reference reads off the word, whatever the nesting and the quotes |
| Expansion.UnquoteMeans | shell/task/word.c:625-660 | Moving `$@` out of its double quotes keeps the text and leaves each quoted stretch one atom |
| Expansion.ExpansionIsScan | shell/task/word.c:673-702 | Expand, re-nest, split and read the text is one scan of the atoms of the original word |
| Expansion.UnboundIff | shell/task/word.c:534-541 | Expansion fails exactly if unset parameters are errors and some parameter in the word, however deep, other than `$@` and `$*` is unset |
| UnquotedParams.UnquotedParameterFields | shell/task/word.c:473-550 | An unquoted parameter other than `$@` and `$*` gives the split fields of its value |
| UnquotedParams.CompareJoined | shell/word.c:166-197 | Splitting joined texts gives the fields of each, in order, exactly when no separator of one takes part in a field of its neighbours, and more fields otherwise |
| UnquotedParams.UnquotedPositionalFields | shell/task/word.c:202-229 | Unquoted `$@` and `$*` give the split fields of the parameters joined by a blank, if IFS is unset, or by the first IFS character; and the fields of each parameter on its own (section 2.5.2 XCU) if and only if the parameters are kept apart |
| UnquotedParams.WhiteSpaceKeepsApart | shell/task/word.c:202-229 | With white space only in the IFS the parameters are always kept apart |
| UnquotedParams.NeighboursMakeAField | shell/task/word.c:202-229 | The parameters `a:` and `:b` with IFS `:` give the fields a, the empty string and b, where each on its own gives a and b only |
| ParameterArguments.UnquotedPositionalArguments | shell/task/word.c:202-229 | From unquoted `$@` or `$*` to the arguments, for every IFS: the parameters joined by a blank, by nothing or by the first IFS character, cut into the fields of that text (one field if IFS is empty), each field replaced by the paths it matches; an error exactly if `glob` fails for a field |
| ParameterArguments.UnquotedValueArguments | shell/task/word.c:473-550 | The same for any other parameter and its value; unset ones count as empty, or are an error |
| QuotedParams.DoubleQuotedFields | shell/task/word.c:597-664 | The fields of any double-quoted word: its parts glued together, each `$@` standing for one field per positional parameter |
| QuotedParams.AtSignFields | shell/task/word.c:202-229 | `"pre$@post"` gives one field per parameter, unchanged and in order, pre joined to the first and post to the last; one field or none when there are no parameters |
| QuotedParams.StarFields | shell/task/word.c:202-229 | For every environment `"pre$*post"` has one field: the parameters joined by a blank if IFS is unset, by nothing if it is empty, and else by its first character, between pre and post |
| QuotedParams.AtSignExactlyWhen | shell/word.c:220-223 | `"$@"` gives back the parameters exactly when IFS is unset or non-empty or there is one parameter: an empty IFS joins them |
| WordExpansion.TildeLeavesAlone | shell/word.c:60-131 | A word in which no unquoted string starts with a tilde is not touched by tilde expansion |
| WordExpansion.TildeIff | shell/word.c:13-58 | A tilde prefix is found if and only if the string starts with a tilde, only letters, digits, dots, underscores and hyphens follow up to a slash, or up to the end of the last part of the word, and they name a known home directory |
| WordExpansion.TildeInFirstPart | shell/word.c:114-125 | Of a list only the first part is looked at, as the last part too only if it is the only one |
| WordExpansion.QuietWordFields | shell/word.c:264-367 | A word whose pattern characters are all quoted, or are separators that are split away, gives its field texts as arguments, whatever `glob` would answer |
| Patterns.GlobIsAskedIff | shell/word.c:264-290 | Pathname expansion is wanted exactly when some pattern character of the word is outside quotes |
| Patterns.PatternMeansWordIff | shell/word.c:292-335 | Read with its escapes, the pattern handed to `glob` is the text of the word with exactly its unquoted pattern characters active, if and only if every backslash in the text is its last character |
| Patterns.QuotedBackslashHidesStar | shell/word.c:292-335 | The word made of a quoted backslash and an unquoted star: its pattern is an escaped star, which matches a star only |
| Patterns.CopyKeepsMarks | ast.c:1042-1083 | A copied word has the same characters, each quoted if it was |
| Patterns.PathnamesAre | shell/word.c:337-367 | For all lists of fields: the arguments are the concatenation, in order, of one list per field, the paths found if the field has a pattern character outside quotes and globbing is on, and else its text; an error if and only if `glob` fails for such a field |
| Patterns.ExpandWordArguments | shell/task/word.c:673-702 | The same from the word: the fields are those of the expanded word, and the only other error is an unset parameter in it |
| WordExpansion.DoubleQuotedArguments | shell/task/word.c:673-702 | Any double-quoted word gives its glued fields as arguments, or all its text as one if IFS is empty, with globbing on or off and whatever the files |
| WordExpansion.AtSignArguments | shell/task/word.c:673-702 | `"pre$@post"` as a command argument for every IFS, through tilde, parameter, field and pathname expansion |
| WordRunner.WordStr | ast.c:811-837 | The loop appends exactly the word's text to the buffer |
| WordRunner.MarkWordSplitFields | shell/task/word.c:231-246 | Every string of the tree becomes a candidate for splitting and nothing else changes |
| WordRunner.PositionalWordsSettled | shell/task/word.c:542-542 | Marking the list made for `$@` changes nothing in it: its strings are candidates already |
| WordRunner.RunExpanded | shell/task/word.c:543-548 | Running an expanded word again changes nothing |
| WordRunner.ExpandPositionalParams | shell/task/word.c:202-229 | The loop builds the specified list for any parameters and IFS |
| WordRunner.RunParameter | shell/task/word.c:473-550 | A parameter becomes the specified word, or the unbound variable error |
| WordRunner.RunWordIn | shell/task/word.c:465-667 | The expansion with its loops returns what the recursive specification does |
| WordRunner.RunChildren | shell/task/word.c:600-623 | The children loop expands each child in place and notes where the `$@` are; the first error ends it |
| WordRunner.MoveOutOfQuotes | shell/task/word.c:625-660 | The loop over the noted positions builds the specified unquoted list |
| WordRunner.ExpandPathnames | shell/word.c:337-367 | The loop returns what the specification does for any fields: each becomes its matches, or its text when nothing matches or no pattern character is unquoted; a `glob` failure ends it |
| WordRunner.ExpandWord | shell/task/word.c:673-702 | The whole expansion of a command word, as specified |
| Trim.TrimPattern | shell/task/word.c:361-400 | Cuts at the extremal matching position among 0..len-1 (least for `#` and `%%`, greatest for `##` and `%`) or returns the string, with the scratch buffer restored each round |
| Trim.TrimsLikePosixIff | shell/task/word.c:361-400 | The result is that of section 2.6.2 XCU exactly when the never-tried position len makes no difference: a condition on whether the empty string, the whole string and any of the tried parts match |
| Trim.LargestStarLeavesACharacter | shell/task/word.c:361-400 | Removing the largest prefix `*` from `ab` leaves `b`, where the standard leaves nothing |
| Trim.CutIsUnique | shell/task/word.c:361-400 | The specification of a cut determines the result |
| Trim.TrimStr | shell/task/word.c:347-359 | The result is the standard's removal of the pattern that matches the fixed string only, smallest and largest match alike, all positions 0..len counted |
| Trim.TrimStrIsStandard | shell/task/word.c:347-359 | A fixed string can be cut off at one position at most, and cutting there, or nowhere, is what the standard asks for |
| Buffers.GrownCapacity | buffer.c:5-25 | The larger of what is needed and twice the capacity, 32 at first |
| Buffers.Buffer.Reserve | buffer.c:5-25 | Room is made for more characters and the contents stay |
| Buffers.Buffer.Append | buffer.c:37-45 | The characters are appended to the contents |
| Buffers.Buffer.AppendChar | buffer.c:47-55 | One character is appended |
| Buffers.Buffer.DropFront | parser/parser.c:189-190 | The front is removed and the rest moves down |
| Buffers.Buffer.Steal | buffer.c:57-62 | The block with the contents is handed over and the buffer is empty |
| Parsers.FileDescriptor.Read | parser/parser.c:92-114 | `read` delivers a prefix of the pending input of any size, and nothing exactly at its end |
| Parsers.Parser.PeekFd | parser/parser.c:92-114 | Reads until enough more characters are buffered or the input ends, keeping what was buffered |
| Parsers.Parser.Peek | parser/parser.c:137-168 | However the input arrives, the buffer then starts with exactly the characters asked for of the remaining input and its NULs, as many as there are |
| Parsers.Parser.Read | parser/parser.c:176-195 | Exactly the first characters leave, and the position moves over them |
| Parsers.Parser.Advance | parser/parser.c:179-187 | After the loop offset, line and column are those of the whole text read |
| Parsers.PositionAfterLine | parser/parser.c:179-187 | The column counts from the last newline and the line counts newlines |
| Parsers.PerformAll | parser/parser.c:137-195 | Any run of peeks and reads, from wherever the parser stands, shows what a plain cursor over the remaining input shows, step by step |
| Parsers.TakenIsFront | parser/parser.c:176-195 | Reads of any sizes take the front of the input, as long as all they ask for together |
| Parsers.Run | parser/parser.c:137-195 | However the input is chunked, each peek and each read of a run returns what the specification of (input, steps) says, and offset, line and column are those of the text read |
| Parsers.Parser.SetError | parser/parser.c:222-237 | The first error stays, with its position |
| Parsers.Parser.FindSymbol | parser/parser.c:253-306 | Skips blanks and comments and finds the kind of the next token, as specified |
| Chars.ClassesByCode | parser/parser.c:209-220 | White space, blanks, digits, letters and the first characters of operators, by their codes in ASCII |
| Parsers.OperatorIff | parser/parser.c:17-28 | The operator found is the longest one that the text starts with, by a table of its own |
| Parsers.Parser.IsSymbol | parser/parser.c:308-321 | A token kind is looked up once and remembered |
| Parsers.Parser.PeekName | parser/word.c:50-74 | The length of the longest name at the cursor, none where no token is, and none for a leading digit outside braces |
| Parsers.NameIff | parser/word.c:50-74 | The names that are taken are the non-empty strings of letters, digits and underscores that do not start with a digit |
| ArithmGrammar.ParseExpr | parser/arithm.c:509-516 | Terminates on every input by (remaining input, level); a success takes at least one character |
| ArithmGrammar.ParseTernary | parser/arithm.c:403-439 | The same for `ternary` |
| ArithmGrammar.FactorLoop | parser/arithm.c:188-214 | The loop of `factor` never adds input |
| ArithmShape.ExprSound | parser/arithm.c:73-516 | Whatever the input, a suffix of it is left and every tree returned is well formed: literals in 0..LONG_MAX, proper names |
| ArithmShape.ParsedIsWellFormed | parser/arithm.c:518-534 | Every tree that the parser accepts is well formed |
| ArithmPrint.DecimalIsLiteral | parser/arithm.c:73-93 | The decimal digits of every `long` stand for it, and `strtol` in base 0 reads it back |
| ArithmPrint.LiteralIs | parser/arithm.c:73-93 | Digits are read as the number that they stand for, in base 8 after a leading zero and else in base 10, if all are digits of the base and the number fits a `long`, and as nothing otherwise |
| ArithmPrint.AssignTexts | parser/arithm.c:441-489 | Each assignment operator is looked for by the text of the binary operator that it performs, if any, and an equality sign |
| ArithmPrint.OperatorStops | parser/arithm.c:182-401 | Before any binary operator all deeper levels stop: a single ampersand is never taken from a double one, nor a bar from a double bar, nor `<` from `<<` or `<=` |
| ArithmPrint.OperatorIsNotAssigned | parser/arithm.c:463-489 | No binary operator except `==` can be mistaken for an assignment operator |
| ArithmPrint.ClosingStops | parser/arithm.c:182-516 | At the end of input, `)` and `:` every level stops |
| ArithmPrint.PrintedIsLegal | parser/arithm.c:73-534 | Every well-formed tree can be written: the printer puts parentheses where the grammar needs them, and the tree that is meant is the one printed |
| ArithmRoundTrip.AssignParses | parser/arithm.c:457-507 | A name and the text of any assignment operator (that of its binary operator and an equality sign) are read as that assignment of what follows |
| ArithmRoundTrip.RightParses | parser/arithm.c:251-401 | At the shift, comparison, equality, bitwise and logical levels, an operator joins its left operand with all that its own level reads after it |
| ArithmRoundTrip.TextParses | parser/arithm.c:73-534 | At every level up to `factor`, any written expression that may stand there is read back as the tree that is meant, with the white space after it and without an error, up to any text at which the level stops |
| ArithmRoundTrip.TermParses | parser/arithm.c:158-180 | The same at the level of terms, which leave the white space after them, but for a unary operator, whose operand takes it |
| ArithmRoundTrip.HollowFails | parser/arithm.c:140-156 | Empty pairs of parentheses, one inside the other, are passed over without an error |
| ArithmLaws.WrittenParses | parser/arithm.c:518-534 | Every written expression is read back as the tree that is meant, without an error: any number of pairs of parentheses around any part, each occurrence on its own, any white space at every place where the grammar takes it, and literals in any notation |
| ArithmLaws.PrintParses | parser/arithm.c:518-534 | Parsing what the printer writes for any well-formed tree returns the tree |
| ArithmLaws.ReparsesToItself | parser/arithm.c:518-534 | Print-then-parse is the identity on all parser results, those with an error on record included |
| ArithmLaws.TextTellsTree | parser/arithm.c:518-534 | Expressions written with the same text mean the same tree |
| ArithmLaws.LeftChain | parser/arithm.c:182-249 | Chains of any length at `factor` and `addend` are read as the left fold |
| ArithmLaws.RightChain | parser/arithm.c:251-401 | Chains of any length at the shift, comparison, equality, bitwise and logical levels are read as the right fold |
| ArithmLaws.ChainLikeCIff | parser/arithm.c:182-401 | A chain of operators of one level is grouped as in ISO C (which section 2.6.4 XCU asks for) exactly at the two levels that loop, or when it has at most one operator |
| ArithmLaws.UnaryTakesChain | parser/arithm.c:110-138 | A unary operator takes the whole chain after it as its operand, which is how ISO C reads it exactly when the chain has no operator |
| ArithmLaws.UnlikeC | parser/arithm.c:110-276 | The inputs `1<<2<<3`, grouped to the right, and `-1+2`, read as the negation of a sum |
| ArithmSpaces.NothingAt | parser/arithm.c:158-439 | A text that does not start like an expression is left untouched, without an error, by every level from `term` to `ternary` |
| ArithmSpaces.NothingAtAll | parser/arithm.c:509-516 | And by `arithm_expr` |
| ArithmSpaces.SpaceAfterBinaryIff | parser/arithm.c:311-335 | White space after a binary operator changes nothing, except after `==` and `!=`, where any makes the whole parse return nothing |
| ArithmSpaces.SpaceAfterUnaryIff | parser/arithm.c:110-138 | A unary operation is read back if and only if no white space follows its operator; else the parse returns nothing |
| ArithmSpaces.SpaceAfterAssignmentIff | parser/arithm.c:457-507 | An assignment is read back if and only if no white space follows its operator; else the parse returns nothing |
| ArithmSpaces.SpaceInConditionIff | parser/arithm.c:403-439 | A condition is read back if and only if no white space follows its `?` and its `:`; else the parse returns nothing |
| ArithmSpaces.NameBeforeEqualFails | parser/arithm.c:465-507 | A name directly followed by `==` makes the whole parse return nothing, whatever comes after |
| ArithmSpaces.WrittenExactlyWhen | parser/arithm.c:465-516 | What is written legally but for that is read back if and only if it does not start with a bare name directly before `==` |
| ArithmSpaces.EqualChainExactlyWhen | parser/arithm.c:311-335 | As a whole expression, a chain of equality comparisons is read as its right fold exactly when it does not start with a bare name directly before `==` |
| ArithmLanguage.AcceptedIff | parser/arithm.c:518-534 | The language of the parser: a text is accepted without an error, with a tree, if and only if it is a written expression that means the tree, with white space around it |
| ArithmLanguage.ExprReads | parser/arithm.c:509-516 | Whatever `arithm_expr` takes from any input without an error is a written expression that means the tree returned |
| ArithmLanguage.ExprSilent | parser/arithm.c:140-180 | The only text taken by a failure without an error is empty pairs of parentheses, one inside the other |
| ArithmLanguage.FailedParenIsDropped | parser/arithm.c:140-180 | A parenthesis without an expression in it, or that nothing closes after one, is dropped: the term is what would be read without it, unless another parenthesis follows |
| ArithmLanguage.FailedParenBefore | parser/arithm.c:140-180 | As a whole text, such a parenthesis before a literal, a name or a unary operation leaves that one alone |
| ArithmLanguage.BadLiteralIsDropped | parser/arithm.c:73-108 | Digits that stand for no `long` (a bad octal digit, or too large) are dropped before a name, with an error on record |
| ArithmLanguage.BadLiteralBefore | parser/arithm.c:73-108 | As a whole text, such digits and a name are read as the name alone |
| ArithmLanguage.FailedAssignmentIsDropped | parser/arithm.c:465-516 | An assignment without a value is dropped: a condition is read from where the value failed |
| ArithmLanguage.DroppedPrefixes | parser/arithm.c:140-180 | The inputs `(1==)2`, read as 2, `(1~2`, where nothing closes the parenthesis, read as the complement of 2, and `08a`, read as a |
| ArithmParser.ParseChar | parser/arithm.c:9-15 | One character is taken if it is the wanted one |
| ArithmParser.ExpectChar | parser/arithm.c:31-39 | The same, and an error is on record if it is not there |
| ArithmParser.ConsumeWhitespace | parser/arithm.c:17-29 | The loop takes all white space and nothing else |
| ArithmParser.ParseStr | parser/arithm.c:41-54 | A text is taken whole or not at all |
| ArithmParser.ParseBinopText | parser/arithm.c:337-358 | An operator is taken unless another bar or ampersand follows it |
| ArithmParser.PeekAssignOp | parser/arithm.c:441-489 | The first matching assignment operator is found and nothing is taken |
| ArithmParser.PeekLiteral | parser/arithm.c:56-71 | The loop counts the digits at the cursor |
| ArithmParser.LiteralTerm | parser/arithm.c:73-93 | Digits become a literal; ones that `strtol` rejects are consumed and give an error |
| ArithmParser.VariableTerm | parser/arithm.c:95-106 | A name becomes a variable |
| ArithmParser.UnopTerm | parser/arithm.c:110-138 | A unary operator and its operand, as the grammar says |
| ArithmParser.Paren | parser/arithm.c:140-156 | Parentheses, as the grammar says: the closing one is taken even after no expression |
| ArithmParser.Term | parser/arithm.c:158-180 | The four alternatives, each going on where the failed one before it stopped |
| ArithmParser.Factor | parser/arithm.c:182-215 | The loop returns the tree and leaves the input that the grammar says |
| ArithmParser.Addend | parser/arithm.c:217-249 | The same for `+` and `-` |
| ArithmParser.Shift | parser/arithm.c:251-278 | The same for shifts |
| ArithmParser.Comp | parser/arithm.c:280-309 | The same for comparisons |
| ArithmParser.EqualLevel | parser/arithm.c:311-335 | The same for `==` and `!=` |
| ArithmParser.BinopLevel | parser/arithm.c:360-401 | The same for the five bitwise and logical levels |
| ArithmParser.Ternary | parser/arithm.c:403-439 | The same for conditions |
| ArithmParser.Assignment | parser/arithm.c:457-507 | The same for assignments; the token kind is looked up here, once |
| ArithmParser.ArithmExpr | parser/arithm.c:509-516 | An assignment, or else a condition from where the failed assignment stopped |
| ArithmParser.ParseArithmExpr | parser/arithm.c:518-534 | The parser on its character source returns what the grammar says, and a tree only if all input is read |
| WordGrammar.DoubleLoop | parser/word.c:567-627 | Terminates on every input, taking at least the closing quote when it succeeds |
| WordGrammar.WordLoop | parser/word.c:654-716 | Terminates on every input and never adds to it |
| WordParser.SingleQuoteWord | parser/word.c:14-48 | Text up to the next quote, or the error of a missing one |
| WordParser.DollarWord | parser/word.c:392-465 | `$name` and the special parameters, with the error of an invalid name; the kind of the name's token is looked up if it is not known |
| WordParser.ReadToken | parser/word.c:154-173 | The token's text, and the token kind is forgotten |
| WordParser.DoubleQuoteWord | parser/word.c:558-636 | The loop returns the children, the position and the error that the grammar says |
| WordParser.ReadParts | parser/word.c:654-716 | The loop of `word`, as the grammar says |
| WordParser.ReadWord | parser/word.c:638-733 | A whole word, nothing where none starts, or the first error |
| Quoting.PrintEscaped | builtin/builtin.c:115-136 | The printed text: the value itself if it is non-empty and safe, else in single quotes with each quote in double quotes |
| Quoting.PlainIff | builtin/builtin.c:115-124 | A string is printed without quotes if and only if it is not empty and has only letters, digits and the characters `@%+=:,./-` |
| Quoting.EscapedAtQuote | builtin/builtin.c:115-136 | Inside the single quotes each quote is put in double quotes between two quoted strings, and everything else stays as it is |
| QuotedWords.QuotedParsesIff | parser/word.c:638-733 | `word` reads a printed string back and stops exactly at its end if and only if a word terminator, or nothing, follows |
| QuotedWords.StopsExactlyWhen | parser/word.c:654-716 | The word loop stops exactly at terminators |
| WordLanguage.WordReadIff | parser/word.c:638-733 | The language of words: from any text a word is read, up to a given rest, if and only if it is written there: blanks, then any pieces that may be written (text, backslashes, joined lines, both kinds of quotes, parameters), up to something that ends a word; and the word is what the pieces mean |
| WordLanguage.WrittenWordParsesIff | parser/word.c:638-733 | Any written pieces are read back as what they mean, stopping exactly at their end, if and only if a terminator follows |
| WordLanguage.ParameterReads | parser/word.c:392-465 | A dollar sign and a name, read to its end, or one of the special parameters, is that parameter; after another parameter of the word blanks may come before a name, and `#` may not be one |
| WordLanguage.BackslashesParseIff | parser/word.c:703-717 | A non-empty string without newlines, with a backslash before each character, is one word with that string as its text, up to a terminator and only then |
| WordLanguage.JoinedAddsNothing | parser/word.c:703-711 | A backslash before a newline, anywhere in a word, adds nothing to it |
| WordLanguage.SingleNotTerminated | parser/word.c:14-48 | After any written pieces, a single quote that nothing closes gives the error of it and reads all input |
| WordLanguage.DoubleNotTerminated | parser/word.c:558-636 | So do double quotes, with any pieces in them |
| WordLanguage.NoParameterName | parser/word.c:392-465 | Before the first parameter of a word, a dollar sign followed by neither a name, a special parameter, a brace nor a parenthesis gives the error of an invalid name |
| WordLanguage.BackslashAtEnd | parser/word.c:703-717 | A backslash at the end of the input makes an assertion fail |
| EndToEnd.InertExpands | shell/task/word.c:673-702 | A word without parameters, splittable text, tilde or unquoted pattern characters expands to its text alone, under any IFS |
| EndToEnd.TildeStaysWhole | shell/word.c:19-131 | A tilde prefix becomes the home directory, whole: the directory is never split nor taken for a pattern, under any IFS |
| EndToEnd.PrintedStringComesBack | builtin/builtin.c:115-136 | For every string and every terminator after it: print, parse and expand gives that one string, with no tilde, splitting or pathname effect, even with an empty IFS |
| EndToEnd.PrintParseExpand | builtin/builtin.c:115-136 | The same for the printing, parsing and expanding methods run one after the other |
| EndToEnd.DoubleQuotedComesBack | parser/word.c:558-636 | Any string written in double quotes, with backslashes where needed, is one word that expands to that string |
| EndToEnd.PositionalParamsEndToEnd | parser/word.c:558-636 | From the text `"pre$@post"` or `"pre$*post"` to the arguments, for every IFS: one per parameter, or all joined by a blank, by the first IFS character or by nothing (section 2.5.2 XCU); an empty IFS joins `$@` as well |
| EndToEnd.PlainTextArguments | shell/task/word.c:673-702 | Any text outside quotes without parameters, as a word: a tilde prefix becomes its directory, quoted, and if a pattern character follows, `glob` of that decides between the paths, the text and an error |
| EndToEnd.BackslashesComeBackIff | parser/word.c:703-717 | A string with a backslash before each character comes back as the one argument if and only if it is the one path that `glob` finds, or `glob` is not asked or finds nothing and no tilde prefix changes it |
| EndToEnd.BackslashedStarIsPattern | parser/word.c:703-717 | The input `\*` becomes all the paths that `glob` finds for a star |
| EndToEnd.BackslashedTildeIsHome | parser/word.c:703-717 | The input `\~` becomes the home directory |
| EndToEnd.SecondDollarExactlyWhen | parser/word.c:392-465 | A parameter after another one is read like the first exactly when neither a comment sign nor blanks and then a letter or an underscore follow its dollar sign: the token look-up skips them |
| EndToEnd.SecondHashIsRejected | parser/word.c:392-465 | `"$a$#` followed by anything is no word, and no error is reported, for every name in place of a |
| EndToEnd.SecondDollarSkipsBlank | parser/word.c:392-465 | `"$a$ b` followed by anything is read exactly as `"$a$b`, for all names in place of a and b |
| HashTables.Djb2 | hashtable.c:6-13 | The loop computes the 32-bit hash with signed characters |
| HashTables.HashesCollide | hashtable.c:6-13 | Two different keys have the same hash, so chains must compare keys |
| HashTables.Table.constructor | include/mrsh/hashtable.h:6-15 | A new table stands for the empty map |
| HashTables.Table.Find | hashtable.c:30-45 | The walk finds the one entry with the key and the link before it, or the end of the chain |
| HashTables.Table.Get | hashtable.c:15-28 | The map's value for the key, or nothing |
| HashTables.Table.Set | hashtable.c:30-59 | The map is updated at the key only, and its old value is returned; chains stay acyclic, correctly bucketed and without duplicates |
| HashTables.Table.Del | hashtable.c:69-95 | The key leaves the map and its old value is returned; of its chain exactly one entry goes, in place |
| HashTables.Table.Unlink | hashtable.c:69-95 | One link changes and one entry leaves its chain |
| HashTables.Table.VisitBucket | hashtable.c:108-118 | The iterator is called on each entry of the chain, in order, also while it deletes the current one |
| HashTables.Table.ForEach | hashtable.c:108-118 | The iterator is called exactly once for each entry present at the start, with its value, and exactly the keys it deletes are gone afterwards |
| HashTables.Run | hashtable.c:15-95 | Any sequence of get, set and del returns the results of a finite map and leaves that map, despite hash collisions |
| HashTables.UnaliasAll | builtin/unalias.c:12-42 | Deleting every key from inside the iteration visits each alias once and leaves the table empty |
| Jobs.Process.Poll | shell/process.c:41-55 | Running, stopped or terminated, where being stopped hides having terminated; the exit code of a process that exited, and more than 128 for one killed by a signal |
| Jobs.Job.JobPoll | shell/job.c:197-216 | The loop returns running if any process runs, else stopped if any is, else the last one's status |
| Jobs.Job.RunningProcess | shell/job.c:254-262 | A running process of the job, or null exactly when there is none |
| Jobs.Shell.StatusMeans | shell/job.c:197-216 | What each value of a job's status says about all its processes |
| Jobs.Shell.ProcessCreate | shell/process.c:12-20 | A new process enters the table at its end |
| Jobs.Shell.ProcessDestroy | shell/process.c:22-39 | The process leaves the table and the others keep their order |
| Jobs.Shell.UpdateProcess | shell/process.c:57-82 | The first entry with the pid, and no other, takes the reported status: stopped with the signal, or terminated with the status |
| Jobs.ReplayMeans | shell/process.c:57-82 | After any answers of `waitpid` the first process with its pid is stopped if it was or a stop was reported, and terminated, with the status reported last, if it was or an end was reported |
| Jobs.ReplayStartsNone | shell/process.c:57-82 | No answers start a process, and none lets a stopped one go on |
| Jobs.Shell.NextJobId | shell/job.c:72-83 | One more than the largest job id in use |
| Jobs.Shell.JobCreate | shell/job.c:72-92 | The new job comes last and ids stay strictly increasing |
| Jobs.Shell.JobDestroy | shell/job.c:94-118 | The job leaves the array, exactly its processes leave the table, and a foreground job gives the terminal back |
| Jobs.Shell.JobAddProcess | shell/job.c:120-130 | The first process gives the job its group; if `setpgid` fails the process is not added |
| Jobs.Shell.JobQueueNotification | shell/job.c:132-141 | A background job whose status changed gets a notification |
| Jobs.Shell.JobSetForeground | shell/job.c:143-195 | The terminal moves to the job or back to the shell; only a stopped job is continued, all of its processes; then its status is recorded and a notification is due if that is news in the background |
| Jobs.Shell.UpdateJob | shell/job.c:313-336 | The first process with the pid takes exactly the reported status; the foreground job, if any, is the old one and still runs; every job that does not run has its status recorded, and a notification due if that is news, unless it terminated in the foreground |
| Jobs.Shell.WaitForProcess | shell/job.c:220-252 | `waitpid` is called once for the pid, asking for stopped processes in the main shell only; what it reports, and nothing else, is recorded; with job control a report then takes a foreground job that does not run to the background and notes the status of every job that does not run; only a failure of `waitpid` is an error |
| Jobs.Shell.JobWait | shell/job.c:264-277 | With distinct pids waiting terminates and never returns the waiting status; `waitpid` is asked, without end, about running processes of the job only, and the states are those after its answers; a status >= 0 is the exit status reported last for the last process, with all processes terminated, stopped means none runs and some are stopped, and an error that `waitpid` failed; the old foreground job stays there if there was no report or it still runs |
| Jobs.Shell.RefreshJobsStatus | shell/job.c:292-307 | Each job with a running process is asked for news of one of them, without blocking, and no other process is; the calls of `waitpid` are exactly these, the states those after its answers, and the foreground job stays if there was no report or it still runs; it fails exactly if `waitpid` does |
| Jobs.Shell.DestroyTerminated | shell/task/task.c:414-431 | Destroying while walking the array leaves exactly the jobs with a negative status, in order, and removes exactly the processes of the others |
| Jobs.Shell.DestroyTerminatedJobs | shell/task/task.c:406-432 | After looking for news of every job with a running process, up to a failure, with all states those after the answers, exactly the jobs with a status of 0 or more (all processes terminated and none counted as stopped) are destroyed, the others keep their order, and exactly the processes of the destroyed ones leave the table |
| Jobs.Shell.JobById | shell/job.c:339-442 | The searches return the job that the specification names, or none |
| Jobs.CurrentIff | shell/job.c:350-370 | `%%` and `%+` name the last stopped job, or if none is stopped the last running one |
| Jobs.PreviousIff | shell/job.c:371-395 | `%-` names the last stopped job but one, or if there is none the last running one but one |
| Jobs.PrefixNamesFirst | shell/job.c:421-436 | `%text` names the first job whose command starts with the text |
| Jobs.PartNamesFirst | shell/job.c:421-436 | `%?text` names the first job whose command contains the text |
| Jobs.CurrentIsNotPrevious | shell/job.c:339-442 | In any table `%+` and `%-` never name the same job, and `%-` names none where `%+` does not |
| Jobs.StrtolSaturates | shell/job.c:399-402 | The digits of a job number stand for their decimal value, or for the largest `long` if that is too large |
| Jobs.NumberNamesOneJob | shell/job.c:339-442 | `%n` finds the one job whose id is n converted to an `int`, or nothing, for every number |
| Jobs.NumberNamesAnotherJobIff | shell/job.c:339-442 | A number names a job with another id exactly when it does not fit an `int` |
| Jobs.LargeNumberNamesJobOne | shell/job.c:339-442 | The number 4294967297 names job 1 |
| JobSession.Perform | shell/job.c:66-336 | Each event does to the arrays, the states of the processes and the terminal what its transition says: a report with the status reported, a refresh with each running job asked about, a wait until the job does not run or `waitpid` fails; and one that is not permitted does nothing |
| JobSession.Run | shell/job.c:66-336 | For any events, `update_process` alone included: after each one the view of the tables follows from the view before by its transition, ids increase along the array, and the terminal owner is the group of the foreground job, a member of the array, or else the shell's |
| JobSession.StoppedThenKilled | shell/process.c:41-82 | A process that is stopped and then killed ends up terminated and still counted as stopped, and destroying terminated jobs leaves its job in the array |

## Left out

- WordRunner.RunWordIn: works on word values, so in-place replacement of nodes, their identity and the half-rewritten tree after an error are not captured; `$@` children are known by their index instead of their address.
- FieldReference.FieldTextsAreScan: an IFS that is a set of characters; the missing NUL at the end of `ifs_non_space` (shell/word.c:226) is not modelled.
- WordExpansion.AtSignArguments: home directories are a map and `glob` is any function from patterns to results; the tilde expansion of assignments (a tilde after each colon) is not modelled.
- Trim.TrimPattern: `fnmatch` is any predicate on strings.
- Expansion.RunWordMeans: parameters without an operator; the conditional operators `:-`, `:=`, `:?`, `:+`, the length and the trimming operators inside words, command substitution and arithmetic inside words, and LINENO (a variable like any other here) are not part of this model.
- WordRunner.RunParameter: the same, and LINENO has no value of its own.
- WordExpansion.TildeLeavesAlone: says when a tilde does nothing; EndToEnd.TildeStaysWhole says what an expanded one becomes.
- WordParser.DollarWord: ends outside the model at `{` and `(` after the dollar sign.
- WordParser.DoubleQuoteWord: ends outside the model there, and at back quotes.
- WordParser.ReadParts: the same.
- WordParser.ReadWord: the same.
- WordGrammar.WordLoop: `${..}`, `$(..)` and back quotes end in an outcome that says nothing; nor does the model keep source positions of words.
- WordLanguage.WordReadIff: the words without these three.
- WordLanguage.NoParameterName: the first parameter of a word; after another one the look-up of the token decides which error there is.
- Parsers.Parser.Peek: read errors, interrupted reads, parsers that read from a caller's buffer, alias substitution, `mrsh_parser_reset` and the continuation-line flag are not modelled; the input holds no NUL.
- Parsers.Parser.PeekFd: `read` does not fail, so there is no error return.
- Parsers.FileDescriptor.Read: neither errors nor interruptions.
- Parsers.Parser.Read: a caller never reads past the end of the input, which the code asserts.
- ArithmParser.ParseArithmExpr: the texts of errors are set as in the code; that an error is on record is part of the contract, which one is not.
- ArithmGrammar.ParseExpr: the evaluator (shell/arithm.c) is not part of this model.
- ArithmLaws.PrintParses: mrsh has no printer for arithmetic trees; the written expressions and the printer here are the reference that the parser is checked against.
- ArithmLanguage.FailedParenIsDropped: the texts accepted with an error on record are given by laws for each kind of dropped prefix, not by a grammar of their own.
- Patterns.PatternMeansWordIff: a backslash at the end of a pattern, which the standard leaves open, stands for itself; matching itself, and bracket expressions, are left to `glob`.
- ArithmLaws.ChainLikeCIff: chains of one level and unary operators before them, not every tree printed with the parentheses of ISO C.
- JobSession.Run: what an operation returns is said by its own contract, not by the transition.
- HashTables.Table.ForEach: the iterator may delete the current key only, as the header asks; `mrsh_hashtable_finish` and the release of memory are not modelled.
- HashTables.Djb2: characters are signed bytes and `unsigned int` has 32 bits.
- Jobs.Shell.JobSetForeground: at most one foreground job at a time, which the code asserts, is a precondition; `tcsetpgrp` always succeeds and terminal modes are not modelled.
- Jobs.Shell.JobWait: distinct pids are a precondition, since `update_process` takes the first entry with the pid; `waitpid` is an oracle that keeps a record of its answers and never repeats EINTR for ever.
- Jobs.Shell.DestroyTerminated: the printed notifications are not modelled; a pending one is only cleared.
- Jobs.Shell.JobAddProcess: `setpgid` and `kill` are booleans given by the caller.
- Character classes are those of ASCII in the C locale.
- Memory allocation never fails.
- Fork, exec, pipes, redirections, signals, turning job control on and off in the middle of a run, and the builtins.
- Loop control, `and_or` lists, here-documents and the rest of the command grammar.
- Aliases: substitution in `apply_aliases` need not terminate.
