# Objective-J editor support: bracket balancing and Cappuccino completions

This project models two pieces of an editor bundle for Objective-J. It
proves properties of both models.

**Bracket balancing** (`Support/lib/objj_parser.rb`). When the user types `]`,
the command works out where the matching `[` belongs and prints a snippet
that replaces the current line. The pieces modelled:

- `ObjcParser` walks a token list from its end. It covers `match_bracket`,
  `selector_loop`, `methodList`, `find_object_start`, `eat_star` and
  `get_position`.
- `escape_snippet`.
- The main block:
  - it counts brackets outside string literals;
  - it chooses and assembles one of the three edits.

**Completion generation** (`Plugin-generate_capp_completions.py`). The
generator walks a Cappuccino source tree and parses every
`CP*`/`CG*`/`CA*` `.j` file. It collects:

- class names and superclasses;
- class and instance method signatures;
- functions and constants.

It writes them out as `.completions` lists of `(trigger, contents)` pairs.
The contents are snippets with `${n:default}` fields.

Modules:

- `Wrappers` (`Option`) and `Text`. `Text` holds word characters, counting,
  ASCII lower-casing, the lexicographic order Python uses on strings,
  `join`, and decimal numerals.
- `ObjjParser`. Tokens, the scanning functions, and the `Parser` class, which
  holds the mutable `list`.
- `ObjjBalance`. `escape_snippet`, the bracket counter and the snippet
  assembly. Its partner is the snippet reader `Plain`. `Plain` gives the
  text the editor inserts for the part of TextMate's snippet language the
  balancer prints: backslash escapes, and tab stops written `$` plus digits
  (the longest run) or `${n}`.
- `CappSignature`. `STRIPPED_SIGNATURE_RE` and `SIGNATURE_RE` as `findall`
  scanners, and the `add_method_signature` normalisation.
- `CappSnippet`. `make_snippet` and the function templates. A parser for the
  snippet subset reads them back.
- `CappSort`. Python's stable `sorted` with a key.
- `CappTable`. The `.completions` text and a reader for it.
- `CappSources`. `SOURCE_RE` and the `os.walk` traversal with `Resources`
  pruned.
- `CappState`. The generator's tables as a value, and `parse_*` as folds
  over what the regular expressions matched.
- `CappGenerator`. The class `CompletionsGenerator` with the six fields of
  `__init__`. Its methods are proved against `CappState`, and its writers
  return the text of each file.

## Model

| member | source | states |
|---|---|---|
| ObjjParser.Parser.constructor | Support/lib/objj_parser.rb:119-121 | the parser holds the token list it was given |
| ObjjParser.Parser.MatchBracket | Support/lib/objj_parser.rb:179-195 | pops tokens until the bracket depth, started at 1 for the closer, reaches 0; returns that opener's offset and the tokens left, exactly as the reference `BracketMatch` |
| ObjjParser.BracketMatchFirstZero | Support/lib/objj_parser.rb:179-195 | the match found is the first point where the depth is 0; no match means the depth never reaches 0 |
| ObjjParser.Parser.SelectorLoop | Support/lib/objj_parser.rb:162-177 | the result and the remaining list are those of the reference `SelectorScan` |
| ObjjParser.SelectorScanWithoutGroups | Support/lib/objj_parser.rb:162-177 | with no closing token, the scan returns the last selector or open token, and nil if that token is an opener or there is none; the list is cut just before that token |
| ObjjParser.SelectorScanSkipsGroup | Support/lib/objj_parser.rb:169-170 | a balanced bracketed group before the end is skipped as a whole |
| ObjjParser.Parser.MethodList | Support/lib/objj_parser.rb:142-160 | the answer and the new list are those of `MethodListOutcome`; on false the list is restored; the new list is always a prefix of the old one |
| ObjjParser.ChainBreaksWithoutGroups | Support/lib/objj_parser.rb:146-155 | with no closing token, the inner loop stops early exactly when an opener is left or the first token is not a selector |
| ObjjParser.EatStar | Support/lib/objj_parser.rb:220-228 | eats the star (returns the current offset and true) exactly when the list is empty or ends in one of the six openings; otherwise it keeps the previous offset |
| ObjjParser.Parser.FindObjectStart | Support/lib/objj_parser.rb:197-218 | the offset and the new list are those of the reference `ObjectStart` |
| ObjjParser.ObjectStartStopsAtBoundary | Support/lib/objj_parser.rb:200 | the walk stops at an empty list, at an opening token, or at a star it could not eat |
| ObjjParser.ObjectStartOrigin | Support/lib/objj_parser.rb:203-214 | the start found is the incoming one, nil, or the offset of a token the walk popped |
| ObjjParser.ObjectStartAfterNil | Support/lib/objj_parser.rb:210-211 | a `nil` token right after an opening resets the start to nil |
| ObjjParser.ObjectStartAfterGroup | Support/lib/objj_parser.rb:204-206 | a bracketed group right after an opening gives the offset of its opening bracket |
| ObjjParser.Parser.GetPosition | Support/lib/objj_parser.rb:123-140 | the insertion point, the message flag and the new list are those of the reference `Position` |
| ObjjParser.PositionAfterEnding | Support/lib/objj_parser.rb:131-132 | an identifier after one of the ending tokens always counts as a message |
| ObjjParser.PositionWithoutMessage | Support/lib/objj_parser.rb:134-136 | when there is no message, the result is the object start of the whole list |
| ObjjParser.PositionIsTokenOffset | Support/lib/objj_parser.rb:123-140 | any insertion point is the offset of a token that was consumed |
| ObjjBalance.Escape | Support/lib/objj_parser.rb:231-233 | the escaped text is longer by one for each `$`, backquote and backslash |
| ObjjBalance.EscapeSnippet | Support/lib/objj_parser.rb:231-233 | nil gives the empty string; any other value is escaped |
| ObjjBalance.EscapeRoundTrip | Support/lib/objj_parser.rb:231-233 | reading back an escaped string gives the string |
| ObjjBalance.EscapeIsWellEscaped | Support/lib/objj_parser.rb:231-233 | no special character is left unescaped in the output |
| ObjjBalance.EscapeOfPlain | Support/lib/objj_parser.rb:231-233 | every well-escaped text is the escape of what it reads back as, so the escape is a bijection onto well-escaped texts |
| ObjjBalance.BracketDepth | Support/lib/objj_parser.rb:240-250 | `up` is the net count of `[` over `]` among the scanned items |
| ObjjBalance.DepthWithoutQuotes | Support/lib/objj_parser.rb:240-250 | on a line without quotes, `up` is the number of `[` minus the number of `]` |
| ObjjBalance.ScanSkipsLiteral | Support/lib/objj_parser.rb:241-243 | a complete string literal is one item, so brackets inside it do not count |
| ObjjBalance.UnclosedQuoteCounts | Support/lib/objj_parser.rb:241-243 | after a quote that no later quote closes, the brackets count as if there were no quote, whatever backslashes follow |
| ObjjBalance.BalanceLine | Support/lib/objj_parser.rb:240-322 | the snippet printed is the reference `Balance` of the line, caret and tokens |
| ObjjBalance.BalanceWithIsOneEdit | Support/lib/objj_parser.rb:252-322 | whatever the parser reports, the snippet inserts one of three edits, provided its closing text ends the tab stop where it is printed. The edits: a `]` after the caret; the line kept, with the `]` after the caret overwritten; or a `[` at the offset `get_position` returned, before the caret, and a `]` after the caret. In the third edit the `]` has a space before it exactly when there is no message and the caret character is not whitespace |
| ObjjBalance.BalanceIsOneEdit | Support/lib/objj_parser.rb:252-322 | the snippet as printed, with `]$0`, makes one of those edits when neither the character after the caret nor the one after that is a digit |
| ObjjBalance.DigitAfterCaretLost | Support/lib/objj_parser.rb:257-259 | on `[a b1` with the caret on `b`, the snippet is `[a b]$01`; the editor reads it as `[a b]`, which is none of the edits |
| ObjjBalance.BracedBalanceIsOneEdit | Support/lib/objj_parser.rb:252-322 | with `]${0}` in place of `]$0`, the snippet makes one of the three edits on every line |
| ObjjBalance.BalanceWhenUnbalanced | Support/lib/objj_parser.rb:252-260 | with unbalanced brackets, or the caret at the line start, the edit is a plain `]` after the caret, when the closing text ends its tab stop before the text after the caret |
| ObjjBalance.PlainOverwriteClose | Support/lib/objj_parser.rb:304-307 | overwriting the `]` after the caret leaves the line text unchanged, when the closing text ends its tab stop before what follows that `]` |
| CappSignature.KeywordsAreLabels | Plugin-generate_capp_completions.py:13 | the `findall` of `STRIPPED_SIGNATURE_RE` returns only word runs ending in a colon |
| CappSignature.PairsAreKeywords | Plugin-generate_capp_completions.py:12 | the `findall` of `SIGNATURE_RE` returns pairs whose first group is such a keyword |
| CappSignature.PairsNoColon | Plugin-generate_capp_completions.py:12 | with no colon left, there are no pairs |
| CappSignature.PairsNoParen | Plugin-generate_capp_completions.py:12 | with no parenthesis left, there are no pairs |
| CappSignature.Normalize | Plugin-generate_capp_completions.py:56-63 | parameters are absent exactly when the signature has no colon, and then the key is the signature itself; otherwise the key is the keywords run together and the parameters are the pairs |
| CappSignature.DeclarationPairs | Plugin-generate_capp_completions.py:12 | on a declaration `kw:(type)name kw:(type)name …`, the pairs are exactly its keywords with their `(type)name` parts |
| CappSignature.DeclarationKeywords | Plugin-generate_capp_completions.py:13 | on such a declaration, the stripped keywords are exactly its labels |
| CappSignature.NormalizeDeclaration | Plugin-generate_capp_completions.py:56-63 | a well-formed declaration and colon-free tail normalize to the labels run together and the parameter list |
| CappSignature.NormalizeExample | Plugin-generate_capp_completions.py:56-63 | `setValue:(id)aValue` normalizes to the key `setValue:` and one parameter |
| CappSnippet.MakeSnippet | Plugin-generate_capp_completions.py:118-124 | the loop builds the reference `Snippet`: `keyword${n:typeAndName}` pieces numbered from 1 and joined by spaces |
| CappSnippet.ParseRender | Plugin-generate_capp_completions.py:17-26 | reading back a rendered canonical snippet gives its segments |
| CappSnippet.MakeSnippetReadsBack | Plugin-generate_capp_completions.py:118-124 | the snippet of n parameters reads back as n fields numbered 1..n holding each `(type)name`, led by the keywords |
| CappSnippet.PairsAreSnippetSafe | Plugin-generate_capp_completions.py:12 | the pairs of any signature contain no character that would break a snippet field |
| CappSnippet.SnippetOfNone | Plugin-generate_capp_completions.py:118-124 | no parameters give the empty snippet |
| CappSnippet.SnippetExample | Plugin-generate_capp_completions.py:118-124 | one parameter gives `setValue:${1:(id)aValue}` |
| CappSnippet.SplitArgsCount | Plugin-generate_capp_completions.py:108 | `re.split(r",\s*", args)` gives one more part than there are commas |
| CappSnippet.SplitFromNoCommas | Plugin-generate_capp_completions.py:108 | no part of `re.split(r",\s*", args)` contains a comma |
| CappSnippet.SplitJoin | Plugin-generate_capp_completions.py:108 | splitting names joined by `", "` gives back the names |
| CappSnippet.FunctionCompletion | Plugin-generate_capp_completions.py:105-111 | the loop builds the reference `FunctionTemplate`: `name(` then the numbered argument fields joined by `", "` then `)` |
| CappSnippet.FunctionCompletionReadsBack | Plugin-generate_capp_completions.py:105-111 | for an argument text without `}`, `$` or backslash, the completion reads back as field k+1 holding the k-th argument, for every argument |
| CappSnippet.FunctionOfNoArgs | Plugin-generate_capp_completions.py:108-111 | an empty argument text still gives one empty field `${1:}` |
| CappSnippet.FunctionExample | Plugin-generate_capp_completions.py:105-111 | `CPThemeBlendColors` with `color1, color2` gives two numbered fields |
| Text.Lower | Plugin-generate_capp_completions.py:127 | lower-casing is per character and keeps the length |
| Text.LexLeTotal | Plugin-generate_capp_completions.py:127 | the string order is total, so every pair of keys compares |
| Text.LexLeTransitive | Plugin-generate_capp_completions.py:127 | the string order is transitive |
| Text.LexLeAntisymmetric | Plugin-generate_capp_completions.py:145 | two strings that compare both ways are equal |
| Text.NatToStringRoundTrip | Plugin-generate_capp_completions.py:109 | the decimal numeral that `format` writes for a field number reads back as that number |
| CappSort.SortBySorted | Plugin-generate_capp_completions.py:127 | `sorted` orders by key and is a permutation of its input |
| CappSort.SortByStable | Plugin-generate_capp_completions.py:177 | `sorted` is stable: elements with equal keys keep their order |
| CappSort.SortByListing | Plugin-generate_capp_completions.py:127 | sorting distinct keys gives a sorted listing of the same distinct keys |
| CappSort.IncreasingUnique | Plugin-generate_capp_completions.py:145 | a set has exactly one sorted listing, so the plain sort of class names is determined |
| CappTable.ReadTableOfTable | Plugin-generate_capp_completions.py:20-25 | reading a written completions list gives back its entries in order |
| CappTable.ReadClassTableOfClassTable | Plugin-generate_capp_completions.py:28-32 | reading a written class file gives back its superclass and its entries |
| CappTable.EmptyTable | Plugin-generate_capp_completions.py:20-23 | with no entries the file is `completions = [`, a blank line and `]` |
| CappSources.SourceNameIff | Plugin-generate_capp_completions.py:9 | a file name matches exactly when it is `CP`, `CG` or `CA`, then one or more word characters, then `.j`, with one optional final newline |
| CappSources.SourceNameOfParts | Plugin-generate_capp_completions.py:9 | every name built that way matches |
| CappSources.WalkComplete | Plugin-generate_capp_completions.py:47-54 | every matching file not under a pruned `Resources` directory is parsed |
| CappSources.WalkSound | Plugin-generate_capp_completions.py:47-54 | every file parsed matches and lies on a path without a pruned `Resources` directory |
| CappSources.WalkAllSound | Plugin-generate_capp_completions.py:49-50 | the walk of the children only descends into directories other than `Resources` |
| CappState.InstanceLastWriterWins | Plugin-generate_capp_completions.py:73 | after parsing a body, each instance method key holds the parameters of its last public occurrence, and keys not in the body are unchanged |
| CappState.InstanceIgnoresClass | Plugin-generate_capp_completions.py:73 | instance methods are shared across classes: the table does not depend on the class name |
| CappState.ClassMethodsAppended | Plugin-generate_capp_completions.py:65-71 | the class methods of a body are appended in order to that class's list, and the list is created only when there is one |
| CappState.DuplicateClassMethodKept | Plugin-generate_capp_completions.py:68-71 | a class method declared twice appears twice |
| CappState.PrivateMethodSkipped | Plugin-generate_capp_completions.py:81-82 | a method whose signature starts with `_` changes nothing |
| CappState.ParseImplKeeps | Plugin-generate_capp_completions.py:75-85 | parsing a body changes only the two method tables |
| CappState.PrivateClassSkipped | Plugin-generate_capp_completions.py:95 | a class whose name starts with `_` changes nothing |
| CappState.RecordPublicClass | Plugin-generate_capp_completions.py:95-101 | a public class is added to the names; its superclass is recorded only when there is no category and the superclass is not empty; its methods are parsed |
| CappState.MethodTablesIgnoreRest | Plugin-generate_capp_completions.py:75-85 | the method tables after a body depend only on the method tables before it |
| CappState.ImplementationsKeep | Plugin-generate_capp_completions.py:92-101 | implementations do not touch functions or constants |
| CappState.ClassNamesCollected | Plugin-generate_capp_completions.py:94-96 | the class names are the old ones plus every public class name |
| CappState.FunctionLastWins | Plugin-generate_capp_completions.py:103-111 | each function name maps to the completion of its last definition, and other names are unchanged |
| CappState.FunctionsKeep | Plugin-generate_capp_completions.py:103-111 | functions do not touch constants or class names |
| CappState.ConstantsAccumulate | Plugin-generate_capp_completions.py:113-116 | the constants are the old ones followed by every file's constants, in order and with duplicates |
| CappState.FallbackDiffers | Plugin-generate_capp_completions.py:133-136 | a signature without parameters completes to itself in both writers; an empty parameter list gives empty instance contents, but on a class method it falls back to the key |
| CappState.ColonWithoutTypes | Plugin-generate_capp_completions.py:58-60 | a signature with a colon and no `(type)name` has an empty parameter list, so its instance completion is empty and its class completion is its key |
| CappState.Contents | Plugin-generate_capp_completions.py:52-54 | one parsed source for each file found |
| CappGenerator.ListOf | Plugin-generate_capp_completions.py:127 | listing a set or the keys of a dict gives each element exactly once, in an unspecified order |
| CappGenerator.CompletionsGenerator.constructor | Plugin-generate_capp_completions.py:37-45 | all six tables start empty |
| CappGenerator.CompletionsGenerator.AddMethodSignature | Plugin-generate_capp_completions.py:56-73 | the new tables are `AddSignature` of the old ones |
| CappGenerator.CompletionsGenerator.ParseImplementation | Plugin-generate_capp_completions.py:75-85 | the loop leaves the tables that the fold `ParseImpl` specifies |
| CappGenerator.CompletionsGenerator.ParseImplementations | Plugin-generate_capp_completions.py:92-101 | the loop leaves the tables that the fold `AddImplementations` specifies |
| CappGenerator.CompletionsGenerator.ParseFunctions | Plugin-generate_capp_completions.py:103-111 | the loop leaves the tables that the fold `AddFunctions` specifies |
| CappGenerator.CompletionsGenerator.ParseSource | Plugin-generate_capp_completions.py:87-116 | one file's implementations, functions and constants are added as `ParseSourceSpec` says |
| CappGenerator.CompletionsGenerator.ParseSourceDirectory | Plugin-generate_capp_completions.py:47-54 | every file the pruned walk finds is parsed, in walk order |
| CappGenerator.CompletionsGenerator.WriteInstanceMethods | Plugin-generate_capp_completions.py:126-140 | the methods are every instance key once, sorted case-insensitively; the text is the list of their entries: the key alone without parameters, and the snippet otherwise |
| CappGenerator.CompletionsGenerator.WriteClasses | Plugin-generate_capp_completions.py:142-150 | every class name once, in increasing order, each completing to itself |
| CappGenerator.CompletionsGenerator.WriteConstants | Plugin-generate_capp_completions.py:152-160 | the constants sorted with duplicates kept, each completing to itself |
| CappGenerator.CompletionsGenerator.WriteFunctions | Plugin-generate_capp_completions.py:162-170 | every function name once, in increasing order; the trigger is `name()` and the contents are its completion |
| CappGenerator.CompletionsGenerator.ClassMethodsFile | Plugin-generate_capp_completions.py:175-185 | a class file is its superclass (empty when unknown) and its class methods sorted stably by lower-cased key |
| CappGenerator.CompletionsGenerator.WriteClassMethods | Plugin-generate_capp_completions.py:172-186 | there is one file for each class name, and it holds `ClassFile` of that class |
| CappGenerator.CompletionsGenerator.Generate | Plugin-generate_capp_completions.py:211-217 | AppKit is parsed and then Foundation; the class files and the constants list are written from the resulting tables |

## Left out

- The `Lexer` class (`Support/lib/objj_parser.rb:29-112`). The main block
  takes the token list as an argument: its `tt`, `text` and `beg` fields, with
  whitespace and terminator tokens already dropped. `BalanceIsOneEdit` holds
  for every token list.
- `ENV`, `print` and `exit` in the main block. The line and caret are
  arguments, and the printed snippet is the result. The caret is
  `TM_LINE_INDEX - 1`, from -1 up to the line length minus one.
- The multiline regular expressions `IMPLEMENTATION_RE`, `METHOD_RE`,
  `FUNCTION_RE` and `CONSTANT_RE`. What they match (their groups) is the input
  of `parse_source` in the model (`SourceMatches`).
- `open`/`read`/`write` and the real file system. A directory tree is a value
  (`Dir`), with:
  - each file's content already parsed;
  - no symbolic links;
  - paths as sequences of names, not joined strings.
- `libPath` and the output file paths. The writers return the text, and class
  files are keyed by class name.
- `run`, the settings, `is_enabled`, `show_input_panel`, `error_message` and
  the `isdir` checks in `generate`. `Generate` starts once those checks have
  passed.
- CappGenerator.CompletionsGenerator.Generate: its contract fixes the final
  tables, the class files and the constants text. The instance, class and
  function texts are those of the writers it calls, whose own contracts state
  them.
- CappGenerator.CompletionsGenerator.WriteInstanceMethods: keys that differ
  only in case come out in the dict's own order, which Python leaves
  unspecified. The contract states the sort and the entries, not that order.
- CappState.IsPrivate: an empty signature counts as public. `METHOD_RE`
  cannot produce one. Python would raise `IndexError` there.
- CappTable.ReadTableOfTable: the reader needs entries without a double
  quote. `SNIPPET_TEMPLATE` does not escape quotes, so other texts are
  ambiguous.
- CappTable.ReadClassTableOfClassTable: the same holds for the entries, and
  the superclass must also be free of double quotes. Otherwise the first
  quote in it would end the `superclass = "..."` line early.
- CappSnippet.MakeSnippetReadsBack: it reads back only the subset of the
  snippet language these templates produce: verbatim literal text and
  numbered `${n:default}` fields. The reader refuses a `$` or backslash
  anywhere else, rather than guess what the editor makes of it. The pairs
  `SIGNATURE_RE` finds never contain either character
  (`CappSnippet.PairsAreSnippetSafe`).
- CappSnippet.FunctionCompletionReadsBack: stated only for argument texts
  with no `}`, `$` or backslash. `FUNCTION_RE`'s `(.*?)` accepts any of them,
  and `FUNCTION_ARG_TEMPLATE` does not escape them. The editor would end the
  field at a `}`, and would read a `$` (legal in a JavaScript name) inside a
  default as a variable. The reader refuses such texts, so the lemma does
  not describe them.
- ObjjBalance.BalanceIsOneEdit: the source's snippet is shown to make one of
  the three edits only when no digit follows the printed `]$0`. Otherwise the
  editor takes the digit into the tab stop and it is lost; see "## Findings".
  `ObjjBalance.BracedBalanceIsOneEdit` states the edit for the corrected
  snippet on every line. `ObjjBalance.BalanceWhenUnbalanced` and
  `ObjjBalance.PlainOverwriteClose` carry the same condition for `]$0`.
- Python 2's `cmp`-based sorted. It is modelled as a stable sort on the key;
  the comparison is byte order, as for Python 2 `str`.
- The other plugins (`Plugin-balance_brackets.py`,
  `Plugin-cappuccino_completions.py`, `Plugin-lookup_symbol.py`) are not part
  of this model.

## Findings

| source | as written | input that shows it | evidently intended | confidence | as-written member | corrected member |
|---|---|---|---|---|---|---|
| Support/lib/objj_parser.rb:253-321 | `]$0` is printed right before the escaped rest of the line (lines 253, 258, 297, 306, 312, 319, 321), and `escape_snippet` leaves digits alone | line `[a b1`, caret on `b` (`TM_LINE_INDEX` 4): the brackets do not balance, the snippet is `[a b]$01`, and the editor reads `$01` as tab stop 1, so the line becomes `[a b]` and the `1` is lost | a tab stop that ends where it is written, `]${0}`, so the line becomes `[a b]1` | high (not executed) | ObjjBalance.DigitAfterCaretLost | ObjjBalance.BracedBalanceIsOneEdit |
