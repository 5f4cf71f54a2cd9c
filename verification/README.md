# Makefile target extractor

A model of `MakefileParser` from `src/parser.ts`. The parser reads a Makefile
as text and reports its targets. Each target record carries:

- the target's name and dependencies;
- a description taken from the comment above the declaration;
- a usage hint taken from a `# Usage:`-style comment;
- the variables its recipe uses, each with its default, whether it is
  required, and a description.

The document is the sequence of its `\n`-separated lines. Every regular
expression of the source is a hand-written matcher over `seq<char>`. For
each pattern applied at one position (target, assignment, operator,
`^name\s*:`, reference, `ifdef` and usage), a predicate spells out the shape
the expression describes, and lemmas show the matcher agrees with it in
both directions. The unanchored usage search is also stated both ways: the
hint is the capture of the leftmost match. The global `exec` loops are
stated more weakly, as listed under "Left out". Every extraction is a pure
function of the lines.

Modules, in dependency order:

- `Wrappers` (wrappers.dfy): `Option`, and `Lookup` for `Map.get`.
- `Text` (text.dfy): the character classes (`\s` and `trim()` share one
  whitespace set, `\w` is `[A-Za-z0-9_]`, `.` excludes the four ECMAScript
  line terminators), `trim`, `split`, `split(/\s+/)`, and greedy runs.
- `Model` (model.dfy): the `MakeVariable` and `MakeTarget` records.
- `Bindings` (bindings.dfy): a left fold of per-line bindings into a map,
  where a later binding of a name overwrites an earlier one.
- `GlobalVars` (globals.dfy): `parseGlobalVariables`, the assignment
  matcher and the global table.
- `Comments` (comments.dfy): `extractDescription` and `extractUsageHint`.
- `Recipe` (recipe.dfy): `extractTargetVariables` and
  `findVariableDescription`. This covers the recipe block, the
  `$(NAME)`/`${NAME}` and `ifdef`/`ifndef` scans, the `seenVars`
  de-duplication and the variable records.
- `Targets` (targets.dfy): `parseTargets`, meaning which lines declare
  targets and what record each yields. It also has `Parse`, the whole
  constructor-then-`parseTargets` pipeline on a string.
- `Examples` (examples.dfy): concrete lines and small documents from the
  source's own test cases and its quirks.

The source's quirks are kept:

- targets are matched on the trimmed line, so a tab-indented `foo: bar` is
  a target;
- the `%` test can never fire;
- the variable scan starts at the first raw line matching `^name\s*:`;
- conditional keywords are bare prefixes, so `elsewhere` counts as `else`;
- the comment test in the block uses the raw line, so an indented `#` line
  ends the block;
- `$(X}` counts as a reference;
- a variable's description comes from its first definition, while its
  default comes from its last assignment;
- the fallback description is the raw line's text before its first colon;
- the `ifdef` scan's `\s+` may run across line breaks.

## Model

| member | source | states |
|---|---|---|
| Text.Split | src/parser.ts:23 | splitting on a separator yields at least one piece, no piece holds the separator, and joining the pieces with it gives back the input |
| Text.SplitJoin | src/parser.ts:23 | splitting pieces that were joined with a separator they do not contain gives back exactly those pieces |
| Text.TrimOf | src/parser.ts:36 | `trim()` is the unique infix between a whitespace prefix and a whitespace suffix that starts and ends with non-space |
| Text.SplitWs | src/parser.ts:61 | `split(/\s+/)` yields whitespace-free pieces whose concatenation is the input's non-space characters, in order. Where it cuts is stated by `Text.SplitWsGaps` and `Text.SplitWsSpaced` |
| Text.SplitWsGaps | src/parser.ts:61 | take whitespace-free words and put a non-empty whitespace run between each two neighbours (only the first and last word may be empty). `split(/\s+/)` of the result gives back exactly those words, so it cuts exactly at the runs |
| Text.SplitWsSpaced | src/parser.ts:61 | conversely, any string is its `split(/\s+/)` pieces with non-empty whitespace runs between them, and only the first and last piece can be empty |
| Bindings.TableIsLastBinding | src/parser.ts:32-38 | a name is in the folded table exactly when some line binds it, and its value comes from the last such line |
| Bindings.LaterLineWins | src/parser.ts:36 | when the last two lines both bind the same name, the table is that of the earlier lines with the name set to the last line's value. `Bindings.TableIsLastBinding` states the general case |
| Bindings.NoBindingsEmptyTable | src/parser.ts:24-38 | when no line binds anything, the table is empty |
| GlobalVars.OpEnd | src/parser.ts:30 | the operator matcher accepts `?=`, `:=` or `=` at a position and rejects everything else |
| GlobalVars.AssignMatchIff | src/parser.ts:30-36 | a line yields a binding exactly when it is a word run at column 0, optional whitespace, an operator, and a remainder `.` can cover; the value is the trimmed remainder |
| GlobalVars.GlobalTableIsLastBinding | src/parser.ts:28-39 | the global table maps each bound name to the trimmed value of its last assignment line |
| GlobalVars.IndentedLineNeverBinds | src/parser.ts:30 | a line that does not start with a word character, such as a tab-indented recipe line, never binds |
| GlobalVars.OtherOperatorsNeverBind | src/parser.ts:30 | `NAME += v` and `NAME != v` bind nothing |
| GlobalVars.AssignmentLineBinds | src/parser.ts:30-36 | a word, whitespace, any of the three operators, whitespace and a trimmed one-line value binds the word to that value |
| Comments.CommentTextOf | src/parser.ts:76-78 | a `#` between whitespace and a trimmed text is a comment line whose text is exactly that text |
| Comments.CommentAbove | src/parser.ts:75-80 | a comment is found above line `i` exactly when `i > 0` and line `i - 1` is a comment line, and its text is trimmed |
| Comments.ExtractDescription | src/parser.ts:73-83 | the description is the comment above when there is one; otherwise it is the fallback prefix plus the raw line's text up to its first colon or its end |
| Comments.LabelEndOf | src/parser.ts:92 | a label spelled `Usage`, `Args`, `Arguments` or `Example` in any case, followed by a colon, is matched just past that colon |
| Comments.UsageAtOf | src/parser.ts:92-94 | `#`, whitespace, a label, a colon, whitespace and a trimmed one-line text match at the `#`, and the hint is that text |
| Comments.CaptureAfterSound | src/parser.ts:92 | what the capture matcher returns is a capture of `\s*(.+)`. It starts at the furthest position `\s*` can reach from which `(.+)` still matches, and runs to the end of its line |
| Comments.CaptureAfterComplete | src/parser.ts:92 | every such capture is what the capture matcher returns |
| Comments.UsageAtIff | src/parser.ts:92 | the matcher reports hint `h` at a position exactly when the pattern matches there. That means `#`, whitespace, a label in any case, `:`, and a capture of `\s*(.+)` whose trimmed text is `h` |
| Comments.LineHintIff | src/parser.ts:92-94 | a line's hint is `h` exactly when the pattern matches its trimmed text at some position with trimmed capture `h`, and at no earlier position |
| Comments.LineHintNone | src/parser.ts:92-94 | a line offers no hint exactly when the pattern matches nowhere in its trimmed text |
| Comments.LabelledCommentHint | src/parser.ts:92-94 | a comment line written as `#`, a label, `:` and a text gives that text as its hint |
| Comments.ScanUpSpec | src/parser.ts:88-96 | the upward scan returns the value of the nearest line in the unbroken comment block within the window that has one, and nothing when none has |
| Comments.UsageHint | src/parser.ts:85-99 | the hint comes from the nearest hint-bearing comment among at most `UsageWindow` (4) lines of the unbroken block above; absent when none has one |
| Recipe.StartsDeclIff | src/parser.ts:109 | `^name\s*:` matches a raw line exactly when the line starts with the name and a colon follows after whitespace only |
| Recipe.DeclLine | src/parser.ts:106-113 | the variable scan's start line is the first raw line matching `^name\s*:`, and is absent when none does |
| Recipe.CollectIsFilter | src/parser.ts:121-138 | the collection loop keeps exactly the kept lines before the first line that breaks the block, in order |
| Recipe.RecipeBlock | src/parser.ts:117-140 | the block is the tab and conditional lines after the declaration, up to the first non-blank raw line that is not `#` and not kept; nothing later is included |
| Recipe.IndentedCommentEndsBlock | src/parser.ts:131-135 | a space-indented `#` line is neither a recipe line nor a conditional, and it ends the block |
| Recipe.MatchesSound | src/parser.ts:146 | every name a global `exec` loop reports is the capture of a match at some position |
| Recipe.MatchesComplete | src/parser.ts:146 | a match at `j` is reported when no earlier match runs past `j` |
| Recipe.RefAtIff | src/parser.ts:143 | the reference matcher succeeds at `i` with `name` exactly when `$`, an opening bracket, the word and a closing bracket of either kind are written there |
| Recipe.RefNamesIff | src/parser.ts:143-147 | a name is among the references of the block exactly when a reference to it is written somewhere in the block |
| Recipe.IfdefAtSound | src/parser.ts:163 | a match of the `ifdef` matcher at a line start is whitespace, `ifdef` or `ifndef`, whitespace, then the whole captured word |
| Recipe.IfdefAtComplete | src/parser.ts:163 | a test written in that shape at a line start is matched there with its name |
| Recipe.IfdefNamesSound | src/parser.ts:163-165 | every name the `ifdef` scan reports is tested by a written `ifdef`/`ifndef` at some line start |
| Recipe.Dedup | src/parser.ts:148-149 | the `seenVars` filter keeps exactly the names not seen before, each once |
| Recipe.DedupOrder | src/parser.ts:146-160 | the kept names are in order of first occurrence |
| Recipe.MkVars | src/parser.ts:151-156 | each record has its name in order, the table's value as default, the document's description, and is required exactly when it comes from a reference and the name has no table entry |
| Recipe.VariablesOf | src/parser.ts:143-178 | the variables are pairwise distinct and are exactly the referenced or tested names. Their names are the `seenVars` filter of the references, followed by the filter of the tests with the referenced names already seen. Each carries the table default and the document's description. Each is required exactly when referenced and unbound, so `ifdef` names are never required |
| Recipe.VariablesOrder | src/parser.ts:146-178 | the referenced names come first, in order of first reference, then the remaining tested names in order of first test. An entry is in the first group exactly when its name is referenced |
| Recipe.TargetVariablesOrder | src/parser.ts:140-178 | for a declared target, the variables list the block's referenced names in order of first reference, then its other `ifdef`-tested names in order of first test |
| Recipe.TargetVariables | src/parser.ts:101-181 | a name with no declaration line has no variables. Otherwise the names are distinct and are exactly those referenced or `ifdef`-tested in the block after the first declaration line, with referenced names first. A name is required exactly when it is referenced and unbound, and each record carries the table default and the document's description |
| Recipe.DefLine | src/parser.ts:185-186 | the definition line is the first line where, at a line start, the name is followed by optional whitespace and `?=`, `:=` or `=` |
| Recipe.VariableDescriptionOf | src/parser.ts:183-196 | with `d` the first defining line, the description is the comment text of line `d - 1`, and is absent when `d` is 0 or that line is no comment |
| Recipe.UndefinedHasNoDescription | src/parser.ts:186-195 | a name that no line defines has no description |
| Recipe.DefinesOnlyAtStart | src/parser.ts:185 | within one line, the definition pattern can only match at column 0 |
| Recipe.BindingDefines | src/parser.ts:185 | every line that binds a name in the global table also matches that name's definition pattern |
| Recipe.DefaultHasDefinition | src/parser.ts:186 | a name with a default always has a definition line |
| Targets.TargetMatchIff | src/parser.ts:51 | the target matcher yields captures exactly when the line is a target name, optional whitespace, a colon and a remainder `.` can cover. The name is the first capture and the remainder without leading whitespace is the second |
| Targets.DeclarationIff | src/parser.ts:45-56 | a raw line declares a target exactly when its trimmed text has the target shape and contains no `=` |
| Targets.ShapeIsNoComment | src/parser.ts:48-56 | a line with the target shape is neither empty nor a comment, and its name holds no `%`, so those tests never reject it |
| Targets.NoPercentInName | src/parser.ts:56 | a name the pattern admits contains no `%` |
| Targets.OddStartDeclaresNothing | src/parser.ts:51 | a line starting with neither whitespace nor a letter or `_`, such as `%.o: %.c` or `.PHONY: help`, declares nothing |
| Targets.Dependencies | src/parser.ts:61 | the dependency list is empty exactly when the text is blank. Its words are whitespace-free, they concatenate to the text's non-space characters, and none is empty for trimmed text |
| Targets.DependenciesOfWords | src/parser.ts:61 | non-empty whitespace-free words, separated by whitespace runs of any length, come back as exactly those words |
| Targets.DependenciesLayout | src/parser.ts:61 | conversely, the dependencies of non-blank trimmed text, with whitespace runs between them, spell out that text exactly. So each cut falls on a whitespace run and no character is lost |
| Targets.DeclarationIndices | src/parser.ts:44-56 | the declaring line indices are strictly increasing, each declares a target, and every declaring line is among them |
| Targets.ParseTargetsIndices | src/parser.ts:41-71 | there is exactly one record per declaring line, in document order, and the `k`-th record is the one built for the `k`-th declaring line |
| Targets.RecordAtShape | src/parser.ts:44-67 | line `i` contributes the record `t` exactly when its trimmed text has the target shape with some captures and contains no `=`, and `t` is the record built from those captures |
| Targets.ParsedRecordsWellFormed | src/parser.ts:51-64 | every reported target has a pattern name without `%`, non-empty whitespace-free dependencies and distinct variable names |
| Targets.NoDeclarationsNoTargets | src/parser.ts:47-48 | a document of comments and blank lines has no targets |
| Targets.UnindentedDeclarationFound | src/parser.ts:107-113 | for a declaration written at column 0, the variable scan's start line exists and is at or before it |
| Targets.FallbackDescription | src/parser.ts:82 | without a comment above, `name: rest` is described as the fallback prefix plus `name` |
| Targets.SameLineFeedsBoth | src/parser.ts:76-94 | one `# Usage: text` line right above a target gives both the description `Usage: text` and the hint `text` |
| Targets.NearestHint | src/parser.ts:88-94 | a hint on the line right above the target is its usage hint |
| Targets.IndentedLineDeclares | src/parser.ts:45-51 | a tab-indented `name: deps` line is itself a target declaration |
| Targets.EmptyDocument | src/parser.test.ts:159-163 | the empty document has no targets |
| Examples.AssignmentIsNoTarget | src/parser.test.ts:60 | `CC := gcc` declares no target |
| Examples.PatternRuleIsNoTarget | src/parser.test.ts:57 | `%.o: %.c` declares no target |
| Examples.PhonyIsNoTarget | src/parser.test.ts:177 | `.PHONY: help` declares no target |
| Examples.DependencyLists | src/parser.test.ts:50-52 | no dependency text gives no dependencies, and `build test` gives `build`, `test` |
| Examples.LooseKeyword | src/parser.ts:131 | `elsewhere` is kept as a conditional |
| Examples.IndentedNoteEndsBlock | src/parser.ts:135 | `  # note` ends the block |
| Examples.LooseBrackets | src/parser.ts:143 | `$(X}` is a reference to `X` |
| Examples.UsageLineGivesHint | src/parser.test.ts:128-135 | `# Usage: text` gives the hint `text` |
| Examples.CommentDescription | src/parser.test.ts:8-22 | `# text` above a declaration gives the description `text` |
| Examples.FallbackForFirstLine | src/parser.ts:82 | `build:` on the first line is described as the fallback prefix plus `build` |
| Examples.AppendBindsNothing | src/parser.ts:30 | `FLAGS += -O2` binds nothing |
| Examples.IndentedRecipeLineIsTarget | src/parser.ts:45-51 | `\tfoo: bar` declares `foo` with dependency text `bar` |
| Examples.SimpleBinding | src/parser.test.ts:140 | `V = d` binds `V` to `d` |
| Examples.FirstDescription | src/parser.ts:186-191 | a variable defined twice takes its description from the comment above its first definition |

## Left out

- `src/index.ts` is not part of this model. It holds the MCP request
  handlers, file reading, subprocess launching and process exit. All of
  that is I/O and foreign-library plumbing.
- `src/parser.test.ts` is the Jest test suite. Its cases appear only as the
  `Examples` lemmas.
- The `content` field and the `inRecipe` flag (`src/parser.ts:22,119,128`)
  are left out. Neither affects the output.
- The parser object and its mutable map are replaced by pure functions of
  the line sequence. The table built in the constructor is
  `GlobalVars.GlobalTable`, passed to each extraction.
- Strings are sequences of code points, not UTF-16 code units. Every
  character class the patterns test lies in the Basic Multilingual Plane,
  so the two views agree on what matches.
- The regular-expression engine is replaced by one hand-written matcher
  per pattern. Only the behaviour those patterns can show is modelled.
- Comments.CommentText: its contract states only that the text is
  trimmed. `Comments.CommentTextOf` gives its value on a written comment.
- Recipe.VariableDescription: its contract states only that a description
  is trimmed. `Recipe.VariableDescriptionOf` gives the exact value.
- Recipe.TargetVariables: its contract states which names appear and what
  each record holds. The order of the names is stated separately, by
  `Recipe.TargetVariablesOrder`.
- Recipe.IfdefNamesSound: soundness only. The scan is not complete. In
  `ifdef\nifdef B`, the first match's `\s+` crosses the line break and
  captures `ifdef`, so the test of `B` is never reached.
- Recipe.MatchesComplete: stated only for a match that no earlier match
  overlaps, which is the case for references (`Recipe.RefsComplete`).
- Comments.CaptureAfter: the branch giving an empty hint, where `\s*`
  backs off so that `(.+)` takes one whitespace character, is modelled.
  No trimmed line can reach it.
