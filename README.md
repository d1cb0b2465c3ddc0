# LuckChecker core in Dafny

LuckChecker (`Luck.py`) rewrites type names across a source tree. A
configuration file lists the folders to search, the file extensions to
consider and a `Swap = { ... }` block of substitution rules. The rules are
`src/dest` pairs or `typedef old new;` declarations. The configuration
file has its own small C-preprocessor language: `#define`, `#ifdef`,
`#ifndef`, `#if`, `#elif`, `#else` and `#endif` decide which of its lines
are read. This project models the two halves of the program and proves
properties of each:

- **Reading the configuration.**
  - `directives.dfy` (module `Directives`) holds the directive evaluator:
    - a state-transition function `Step` over the macro table with its definition order, the condition stack and the skip flag;
    - a `Preprocessor` class whose `Process` method updates those fields in place, as the source does.
  - `config.dfy` (module `Config`) holds the rest of the reader:
    - the one-line configuration parser;
    - the line loop of `parse_config`, with its keyword check and its end-of-file checks;
    - the de-duplicating `Folder` and `Files` list builders.
  - `rules.dfy` (module `Rules`) turns the `Swap` value into rules:
    - the typedef form is parsed;
    - a repeated source discards the whole rule set;
    - the result is stably sorted by decreasing source length.
- **Substituting.**
  - `substitution.dfy` (module `Substitution`) holds the matcher:
    - the match positions that the guarded pattern `(?<![a-zA-Z0-9_<])src(?![a-zA-Z0-9_>])` yields under `finditer`;
    - `subn` with a literal replacement;
    - the back-to-front splice and the offset arithmetic of the preview display.
  - `replacements.dfy` (module `Replacements`) holds:
    - the per-line span collection of `collect_replacements`, with its overlap test;
    - the apply pass of `apply_replacements`;
    - the write guard of `process_file`.

`text.dfy` models the few Python string operations the source relies on:
`strip`, `split`, `split(sep, 1)`, `find`, `startswith` and `in`.
`wrappers.dfy` holds an `Option` type.

The evaluation of `#if`/`#elif` expressions is a parameter, `cond`: a
function from the macro table, its names in the order they were first
defined, and the expression text to an `Evaluation`. The source substitutes
the macros in that order (the insertion order of its dict), and the result
can depend on it: after `#define A B`, `#define B 1` the expression `A`
becomes `1`, while with the two lines swapped it becomes `B`. The evaluator
state therefore keeps that order next to the table
(`DefinitionOrderFollowsFile`).
It is `Value(b)` for an expression with truth value `b`, and `EvalError`
when `eval` fails, which the source catches and counts as false. It is
`SubstitutionError` when the macro substitution itself raises, which the
source does not catch, so the whole parse stops. This parameter stands for
the source's macro substitution followed by `eval`. Every result below holds
for every such function.

Behaviours of the code worth knowing:
- `#elif` and `#else` look at `any(condition_stack[:-1])`, which is every enclosing entry and not the earlier siblings. So after a taken `#ifdef A`, an `#elif` is taken again when its own test holds (`TakenIfdefThenElifStaysActive`). An `#else` whose enclosing entry is true keeps its top entry true, so a later `#ifdef` inside it is active again (`ElseUnderTrueThenIfdefReactivates`).
- For the same reason an `#else` nested in a false branch becomes active when every entry below its own is false: `#ifdef A`, `#ifdef B`, `#else` with neither defined reads the lines after `#else` (`NestedElseEscapesFalseBranch`). A branch is therefore not always active only when every enclosing entry is true.
- A `}` outside a block and a line without `=` are ignored, not errors.
- An unclosed conditional at end of file is only reported.
- A one-line `Swap = { a/b }` opens a block and drops the rest of the line.
- Only `Folder`, `Files` and `Swap` accumulate; there are no exclusion keys or exclusion headings in this file.
- The overlap test treats spans as closed intervals, so a span that starts where an accepted one ends is dropped.
- Apply mode re-scans each rule against the already-rewritten line. It can therefore produce a line different from the one the preview shows (`MeetingMatchesDiverge`, `ChainedRulesDiverge`).

## Model

| member | source | states |
|---|---|---|
| Directives.DefinedAt | Luck.py:87 | a `defined(...)` capture found at a position is non-empty, holds no `)`, and `defined` occurs there |
| Directives.DefinedAtIsShape | Luck.py:87 | the pattern matches at a position with capture g exactly when the text there is `defined`, white space, `(`, g and `)`, with g non-empty and free of `)` |
| Directives.SearchDefined | Luck.py:87-89 | the first `defined\s*\(([^)]+)\)` capture in the line is non-empty and free of `)` |
| Directives.SearchDefinedIsLeftmost | Luck.py:87-89 | `re.search` finds g exactly when some position matches with capture g and no earlier position matches |
| Directives.SearchDefinedMissing | Luck.py:87-89 | `re.search` finds nothing exactly when no position matches |
| Directives.Classify | Luck.py:42-195 | a `#define` keeps the text after its keyword; a line falls through every branch exactly when it starts with none of the seven keyword prefixes; an expression test is chosen only when the line does not mention `defined` (`defined(` for `#elif`) |
| Directives.Apply | Luck.py:42-195 | one directive changes the depth of the condition stack by at most one and leaves every entry below the innermost one as it was |
| Directives.Step | Luck.py:42-195 | one directive line touches the macro table only when it is a `#define`, and changes the depth by at most one |
| Directives.DefineInSkippedBranch | Luck.py:47-49 | `#define` inside a skipped branch changes nothing |
| Directives.DefineBindsName | Luck.py:47-55 | `#define NAME` binds NAME to "1"; `#define NAME VALUE` binds the first word to the rest; the stack and the skip flag are kept |
| Directives.ApplyKeepsDefinitionOrder | Luck.py:47-55 | every directive keeps the definition order listing each macro exactly once; earlier names keep their places, and only a `#define` of a new name appends it, as dict insertion order does |
| Directives.DefinitionOrderFollowsFile | Luck.py:47-55 | `#define A B`, `#define B 1` and the same two lines swapped give the same table but the orders [A, B] and [B, A], which the substitution loop of Luck.py:114-115 follows |
| Directives.MacrosOnlyGrow | Luck.py:42-195 | no directive removes a macro, and only `#define` changes the table |
| Directives.OpeningPushesOneEntry | Luck.py:58-128 | `#ifdef`, `#ifndef`, `#if defined(...)` (when matched) and `#if EXPR` push exactly one entry; it is the test when the enclosing top is true or the stack is empty, and false otherwise; skip becomes its negation |
| Directives.FalseBranchDoesNotEvaluate | Luck.py:103-107 | inside a false branch, `#if EXPR` pushes false without evaluating: the result is the same for every evaluator |
| Directives.FailedEvaluationPushesFalse | Luck.py:118-127 | when the expression cannot be evaluated, false is pushed and the level is skipped |
| Directives.UnpairedDirectiveKeepsStack | Luck.py:131-193 | `#elif`, `#else` and `#endif` on an empty stack leave the stack empty; the first two change nothing at all |
| Directives.EndifPopsOneEntry | Luck.py:185-193 | `#endif` pops one entry and recomputes skip from the new top |
| Directives.OpenThenEndifRestoresStack | Luck.py:58-193 | an opening directive followed by `#endif` restores the stack and the macros, and skip equals "top is false" |
| Directives.ElifUnderTrueEnclosingIsFalse | Luck.py:136-140 | when any entry below the top is true, `#elif` sets the top to false and skips |
| Directives.ElifIgnoresEarlierBranch | Luck.py:150-165 | otherwise `#elif EXPR` replaces the top with its own value, whatever the top was |
| Directives.ElseInvertsOrSkips | Luck.py:170-182 | `#else` inverts the top when no entry below it is true, and otherwise keeps the stack and skips |
| Directives.StepKeepsSkipMatchingTop | Luck.py:42-195 | skip == "stack non-empty and top false" is preserved by every directive except `#else` with a true top under a true enclosing entry |
| Directives.IgnoredValidDirective | Luck.py:366-395 | a line passes the keyword check yet falls through every branch only when its keyword is `define`, `ifdef`, `ifndef`, `if` or `elif` and is not followed by a space |
| Directives.IgnoredKeyword | Luck.py:374-378 | the same, stated for the keyword and the line content |
| Directives.TakenIfdefThenElifStaysActive | Luck.py:131-149 | after a taken `#ifdef A`, `#elif defined(A)` keeps the branch active |
| Directives.NestedElseEscapesFalseBranch | Luck.py:170-182 | `#ifdef A` (false), `#ifdef B` (false), `#else` gives stack [false, true] and an active level |
| Directives.ElseUnderTrueThenIfdefReactivates | Luck.py:170-182 | `#else` under a true enclosing entry skips but keeps its top true, so a following `#ifdef A` is active |
| Directives.NestedIfdefInFalseBranchSkips | Luck.py:58-69 | a true `#ifdef B` nested in a false `#ifdef A` pushes false and skips |
| Directives.Preprocessor.constructor | Luck.py:339-344 | the evaluator starts with no macros, an empty definition order, an empty stack and no skipping |
| Directives.Preprocessor.Process | Luck.py:42-195 | evaluating one directive line updates the fields in place to exactly the transition `Step`; it raises, leaving them as they were, exactly when an evaluated expression's macro substitution fails |
| Directives.Preprocessor.DefineMacro | Luck.py:47-55 | the `#define` branch, appending a newly defined name to the definition order |
| Directives.Preprocessor.OpenBranch | Luck.py:58-99 | the `#ifdef`, `#ifndef` and `#if defined(...)` branches |
| Directives.Preprocessor.OpenExprBranch | Luck.py:102-128 | the `#if EXPR` branch; it raises only outside a false branch, when the substitution fails |
| Directives.Preprocessor.ChooseBranch | Luck.py:131-167 | the `#elif` branch |
| Directives.Preprocessor.ElseBranch | Luck.py:170-182 | the `#else` branch |
| Directives.Preprocessor.CloseBranch | Luck.py:185-193 | the `#endif` branch |
| Config.Accumulate | Luck.py:222-227 | appending a piece adds the key and keeps every other key's value |
| Config.Assign | Luck.py:216-229 | a `key = value` line changes only its stripped key; the new value is the line's value, or, when the key is `Folder`, `Files` or `Swap` and already set, the old value, a comma and the line's value |
| Config.ConfigLine | Luck.py:198-231 | an error exactly for a nested `Swap = {` or a typedef outside a block, with config and block flag kept; otherwise the block flag after the line; a typedef line inside a block is appended to `Swap`; any other line with `=` is an assignment; `Swap = {` and lines without `=` leave the table unchanged |
| Config.AccumulateSplits | Luck.py:212-227 | an accumulated value splits on commas into the earlier pieces followed by the new ones |
| Config.AssignmentLine | Luck.py:216-229 | `KEY = VALUE` sets KEY, or appends to it for `Folder`, `Files` and `Swap`; no error, block flag kept |
| Config.SettingLineParts | Luck.py:217-220 | such a line splits at the first `=` into the stripped key and the value |
| Config.NotBlockOrTypedef | Luck.py:199-208 | such a line neither opens a block nor is a typedef line |
| Text.IndexOfFirst | Luck.py:217 | `split('=', 1)` cuts at the first separator |
| Config.TrailingCommaDropped | Luck.py:218-220 | one trailing comma after the value is removed |
| Config.EntriesAreUniquePieces | Luck.py:234-251 | the folder/extension list has no duplicates and no empty entry, and holds exactly the non-empty stripped pieces |
| Config.AbortIsFinal | Luck.py:380-419 | after a fatal line, further lines cannot revive the parse |
| Config.ReadLineEffects | Luck.py:357-419 | only directive lines change the evaluator; only active, non-comment, non-directive lines change the table or the block flag |
| Config.ReadLine | Luck.py:357-419 | a blank or comment line, and a setting line inside a false branch, change nothing; reading stops only at a directive line or an active setting line; at most one condition opens per line; the definition order keeps listing every macro once |
| Config.ReadLines | Luck.py:357-419 | no more conditions are open than lines were read, and the definition order lists every macro exactly once |
| Config.ParseConfig | Luck.py:334-438 | a non-empty result means every line was read without error and no `Swap` block was left open |
| Config.InvalidDirectiveAborts | Luck.py:366-389 | a `#` line whose first word is not one of the seven keywords aborts the parse |
| Config.RaisingSubstitutionAborts | Luck.py:392-403 | a `#if EXPR` or `#elif EXPR` whose evaluated macro substitution raises aborts the reading, and the parse yields three empty lists whatever follows |
| Config.ParsedRulesAreCompiled | Luck.py:434-438 | the parsed rules have non-empty sources and destinations, distinct sources and non-increasing source length |
| Config.ParsedListsAreUnique | Luck.py:434-438 | the parsed folder and extension lists have no duplicates and no empty entries |
| Config.UnclosedSwapBlockYieldsNothing | Luck.py:424-427 | a file that ends inside a `Swap` block yields three empty lists |
| Config.ParseList | Luck.py:234-251 | `parse_folders` and `parse_files` return the de-duplicated pieces of `Folder` and `Files` |
| Config.CollectEntries | Luck.py:237-240 | the shared loop computes the de-duplicated non-empty stripped pieces |
| Config.ParseConfigLines | Luck.py:334-438 | the line loop, driving a `Preprocessor` object, returns exactly the folders, files and rules of `ParseConfig` |
| Config.ReadOne | Luck.py:357-422 | one pass of the loop aborts exactly when `ReadLine` does, and otherwise leaves the preprocessor, the table and the block flag as `ReadLine` says |
| Rules.CutCommentLeavesNoOpener | Luck.py:255-259 | what is left holds no `/*`, and no `//` when the piece had no `/*`; a piece with a comment opener gets shorter |
| Rules.LazyFrom | Luck.py:263 | the lazy group's end lies between its start and the end of the part |
| Rules.LazyFromIsFirstTail | Luck.py:263 | the lazy group ends at the first position where `\s+(\w+)\s*;` matches, without crossing a newline |
| Rules.LazyFromFinds | Luck.py:263 | conversely the first such position is the one found |
| Rules.MatchTypedef | Luck.py:263-266 | a match only succeeds on a part starting with `typedef` |
| Rules.TypedefSwap | Luck.py:254-268 | a typedef yields a pair text holding `/` |
| Rules.TypedefOfDeclaration | Luck.py:254-268 | `typedef A B;` with trimmed A and a word B yields `A/B` |
| Rules.MatchDeclaration | Luck.py:263-266 | the regex captures exactly A and B |
| Rules.NoCommentOpener | Luck.py:255-259 | such a declaration has no comment to cut |
| Rules.TailAtDeclaration | Luck.py:263 | the tail `\s+(\w+)\s*;` matches right after A |
| Rules.NoEarlierTail | Luck.py:263 | and at no earlier position inside A |
| Rules.PairsOf | Luck.py:284-295 | at most one pair text per comma piece; `PairsOfConcat`, `PairsOfBlankPieces`, `PairsOfPlainPieces` and `PairsOfTypedefPiece` say which |
| Rules.PairsOfConcat | Luck.py:284-295 | each piece is read on its own: the pair texts of two runs of pieces are concatenated |
| Rules.PairsOfBlankPieces | Luck.py:285-287 | pieces that are blank after stripping give no pair text |
| Rules.PairsOfPlainPieces | Luck.py:285-295 | trimmed, non-empty pieces that are not typedefs are their own pair texts, in order |
| Rules.PairsOfTypedefPiece | Luck.py:289-293 | a piece `typedef A B;` gives the pair text `A/B` |
| Rules.UnquoteRoundTrip | Luck.py:304-308 | unquoting a quoted text gives the text back; unquoting removes at most one pair of surrounding quotes |
| Rules.RuleOf | Luck.py:300-309 | a pair text without `/` yields no rule; a rule has non-empty source and destination; `RuleOfSplitsAtFirstSlash` gives the rule itself |
| Rules.RuleOfSplitsAtFirstSlash | Luck.py:300-309 | `A/B` with no `/` in A gives the rule from A stripped and unquoted to B stripped and unquoted exactly when both are non-empty, and no rule otherwise; later slashes belong to B |
| Rules.RuleOfPair | Luck.py:300-309 | `A/B` with trimmed sides gives the rule from unquoted A to unquoted B |
| Rules.CandidatesNonEmpty | Luck.py:309 | every candidate rule has a non-empty source and destination |
| Rules.PresentNonEmpty | Luck.py:298-326 | keeping the parsed pairs preserves non-emptiness |
| Rules.InsertPermutes | Luck.py:329 | one insertion step adds exactly the inserted rule |
| Rules.InsertKeepsOrder | Luck.py:329 | one insertion step keeps the order by decreasing source length |
| Rules.InsertKeepsTies | Luck.py:329 | one insertion step puts the new rule after the rules of equal length |
| Rules.WithLengthAbsent | Luck.py:329 | a sorted list whose longest source is shorter than n has no rule of length n |
| Rules.SortByLengthIsStableSort | Luck.py:329 | the sort is ordered by decreasing source length, is a permutation, and keeps equal-length rules in declaration order |
| Rules.WithLengthAppend | Luck.py:329 | the rules of length n of an extended list are those of the list, then the new rule if it has length n |
| Rules.DistinctUnderPermutation | Luck.py:310-329 | sorting keeps the sources distinct |
| Rules.CountAtMostOne | Luck.py:310-326 | with distinct sources, no rule occurs twice |
| Rules.CompileRules | Luck.py:271-331 | at most one rule per comma piece of `Swap`, and none without it |
| Rules.CompiledRules | Luck.py:271-331 | the compiled rules have non-empty src/dest, distinct sources and non-increasing length; they are a stable sort of the candidates, and nothing when a source repeats or `Swap` is absent |
| Rules.PresentOfPrefix | Luck.py:298-326 | the rules from fewer pairs are a prefix of the rules from more |
| Rules.ParseSwaps | Luck.py:271-331 | `parse_swaps` returns exactly `CompileRules` |
| Rules.CollectPairs | Luck.py:280-295 | the piece loop computes the pair texts |
| Rules.CollectRules | Luck.py:297-326 | the pair loop reports whether the sources are distinct and, if so, returns the candidates in order |
| Rules.AppendFreshSource | Luck.py:324-326 | recording a new source keeps the sources distinct |
| Rules.RepeatedSourceIsFinal | Luck.py:311-323 | a repeated source means the complete candidate list is not distinct, so returning early is right |
| Rules.SourceIndex | Luck.py:311-315 | a recorded source belongs to some earlier rule |
| Substitution.MatchesFrom | Luck.py:488-490 | the first reported match lies in the line at or after the scan start, and there are no more matches than characters left |
| Substitution.MatchesFromSound | Luck.py:488-490 | every reported position is a guarded match, and consecutive matches do not overlap |
| Substitution.MatchesFromComplete | Luck.py:488-490 | every guarded match is reported or lies inside a reported one |
| Substitution.MatchSpansLaid | Luck.py:490 | the spans of the matches lie in the line, in order, without overlap |
| Substitution.SpansRecorded | Luck.py:504-505 | each span's text is the line's text at its offsets |
| Substitution.Replaced | Luck.py:612-613 | `subn` with a rule that maps a source to itself leaves the line as it is |
| Substitution.ReplacedIsRebuilt | Luck.py:612-613 | `subn` with one rule equals splicing the destination into every match span |
| Substitution.ReplacedWithoutMatch | Luck.py:613 | without a match `subn` returns the line unchanged |
| Substitution.OffsetAppend | Luck.py:574 | the running offset grows by `len(dest) - len(original)` per span |
| Substitution.DestAtShiftedStart | Luck.py:568-574 | in the rebuilt line, each span's destination sits at its start plus the offset of the earlier spans |
| Substitution.RebuiltLength | Luck.py:543-546 | the rebuilt line's length is the line's length plus the total offset |
| Substitution.LaidSuffix | Luck.py:544-546 | the spans after a cut point lie in the line after it |
| Substitution.SpliceStep | Luck.py:546 | one back-to-front splice extends the rebuilt suffix by one span |
| Substitution.SpliceLine | Luck.py:543-546 | splicing from the last span to the first yields the front-to-back rebuilt line |
| Substitution.NewPositions | Luck.py:568-574 | each new position is the start plus the offset of the earlier spans |
| Substitution.DisplayLine | Luck.py:543-574 | the new line is the rebuilt line, and each recorded position points at the span's destination in it |
| Replacements.MatchTextIsSource | Luck.py:505-509 | the text of a match is always the source, so the `original == src` test never rejects |
| Replacements.ConsiderEffect | Luck.py:493-513 | a match is appended exactly when it overlaps no accepted span (closed intervals) |
| Replacements.AcceptMatchesExtends | Luck.py:490-513 | scanning a rule's matches only appends spans |
| Replacements.AcceptMatchesSound | Luck.py:490-513 | appended spans are matches of the rule and overlap no earlier span |
| Replacements.AcceptMatchesComplete | Luck.py:490-513 | every match of the rule ends up overlapping an accepted span: accepted or blocked |
| Replacements.ReportedTail | Luck.py:490 | the remaining matches of a scan are still reported matches |
| Replacements.BlockedLater | Luck.py:494-501 | a blocked span stays blocked as spans are appended |
| Replacements.AcceptRulesExtends | Luck.py:485-513 | processing further rules only appends spans |
| Replacements.AcceptRulesSound | Luck.py:485-513 | every accepted span is a match of some rule, and no two accepted spans touch |
| Replacements.AcceptRulesComplete | Luck.py:485-513 | every match of every rule overlaps some accepted span |
| Replacements.AcceptedIffMatch | Luck.py:478-515 | a line gets spans exactly when some rule matches it |
| Replacements.InsertByStartPermutes | Luck.py:517 | one step of the sort by start adds exactly the inserted span |
| Replacements.SortPermutes | Luck.py:517 | sorting by start is a permutation |
| Replacements.InsertLaid | Luck.py:517 | inserting a separated span keeps the spans in order within the line |
| Replacements.SortLaid | Luck.py:515-517 | separated spans, sorted by start, are in order and disjoint within the line |
| Replacements.LinePreview | Luck.py:478-517 | the preview of a line holds exactly the accepted spans, re-ordered |
| Replacements.PreviewLaid | Luck.py:478-517 | the preview of a line is a permutation of the accepted spans, ordered, disjoint, with its recorded text, each a match of some rule |
| Replacements.AcceptedInLine | Luck.py:504-513 | every accepted span lies within the line |
| Replacements.PreviewFromRules | Luck.py:504-517 | after sorting, each span still records the line's text and is a match of some rule |
| Replacements.Rewrite | Luck.py:607-616 | when no rule's `subn` substitutes anything the line comes back unchanged |
| Replacements.ChangedIffMatch | Luck.py:607-616 | the apply pass reports a change on a line exactly when some rule matches the original line |
| Replacements.PreviewIffChanged | Luck.py:515-519 | a line has preview spans exactly when the apply pass changes it |
| Replacements.EntriesStep | Luck.py:515-518 | a line's entry is appended after those of earlier lines, only when it has spans |
| Replacements.EntriesAreLines | Luck.py:515-518 | each entry names a line with its non-empty preview, in increasing line order |
| Replacements.EntriesCoverLines | Luck.py:515-518 | every line with spans has an entry |
| Replacements.SpanCountPositive | Luck.py:515-519 | the total is positive exactly when some line has spans |
| Replacements.UnmodifiedIsIdentity | Luck.py:604-618 | when nothing was substituted the lines come back unchanged |
| Replacements.TotalIffModified | Luck.py:632-635 | a positive preview total and a modification by the apply pass coincide |
| Replacements.Overlaps | Luck.py:494-499 | the scan finds an overlap exactly when some processed range shares a point with [start, end] |
| Replacements.ConsiderMatch | Luck.py:491-513 | one match step updates the accepted spans and the tracked ranges together |
| Replacements.CollectLine | Luck.py:478-517 | the nested loops over rules and matches compute exactly the line's preview |
| Replacements.CollectReplacements | Luck.py:473-521 | the entries are the lines with spans, in order, and the total is their number of spans |
| Replacements.RewriteStep | Luck.py:609-615 | one rule's `subn` feeds the next rule, and the change flag accumulates |
| Replacements.ApplyReplacements | Luck.py:602-618 | the loop returns the rewritten lines and whether any line changed |
| Replacements.ProcessFile | Luck.py:620-639 | the total is the preview count; the file is written exactly when changes are to be applied, the total is positive and the apply pass changed something, and then with the rewritten lines |
| Replacements.WriteGuard | Luck.py:632-637 | writing happens exactly when changes are to be applied and some rule matches some line; an unmodified file is never rewritten with different content |
| Replacements.MeetingMatchesDiverge | Luck.py:494-513 | on `**` with `*`→`x` the preview accepts one span and shows `x*`, while apply writes `xx` |
| Replacements.ChainedRulesDiverge | Luck.py:609-613 | with `long`→`int` and `int`→`short` the preview shows `int` for `long`, while apply writes `short` |

## Left out

- Reading files, walking folders, file encodings and writing files. Lines are given as sequences of strings, and a write is the returned `Some(lines)` of `Replacements.ProcessFile`.
- Directives.Preprocessor.OpenExprBranch: the `\b` macro substitution and the `eval` call are fused into the evaluator parameter `cond`, which receives the macros with their first-definition order. The model states how the result is used, not what an expression evaluates to. The source passes each macro value to `re.sub` as a replacement template (Luck.py:115, 156). So a value such as `C:\dir`, whose `\d` is a bad escape, raises `re.error` at any evaluated `#if EXPR` or `#elif EXPR`, and the reading stops (Luck.py:396-403). The model has this outcome as `SubstitutionError` and aborts on it (`Config.RaisingSubstitutionAborts`). Which macro values raise is left to `cond` and is not decided by the model.
- Directives.Preprocessor.ChooseBranch: the same evaluator parameter stands for the `#elif EXPR` substitution and `eval`.
- The catch-all around the reading loop (Luck.py:420-422) is not modelled. Apart from the macro substitution above, the modelled operations are total, and I/O errors are outside the model.
- Replacements.ApplyReplacements: the destination is a literal string. Python's `re.sub` would interpret backslash escapes and group references in it.
- Rules.MatchTypedef: `\w` is taken as ASCII letters, digits and underscore. Python 3's Unicode word class is wider. The guard characters of the substitution pattern are spelled out as ASCII in the source, so they are exact.
- `Replacements.CollectLine` requires every rule source to be non-empty. `Rules.CompiledRules` guarantees this for every rule set the reader produces. An empty pattern is never compiled by the program.
- `Substitution.DisplayLine` takes the spans already sorted by start, as `collect_replacements` leaves them. The display's own re-sorts (Luck.py:545, 571) are therefore the identity.
- The coloured segments, `print_replace_info`, the line-number prefixes and all printing are not modelled. The `line_map` and `source_locations` tables only feed error messages and are not modelled either.
- The `pre` and `post` context fields of a span (Luck.py:504, 506) are computed but only used for printing. No property is stated about them.
- The configuration table is returned as a new map rather than mutated in place. No caller keeps another reference to it.
- `main`, argument parsing, `show_configuration`, `check_config`, `process_matching_files` (the folder walk) and `display_results` are not part of this model.
