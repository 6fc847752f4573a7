# Obsidian checklist plugin — verified model of the checklist logic

This project is a Dafny model of the checklist core of the Obsidian
checklist plugin, with proofs about that model. The plugin collects
Markdown task lines (`- [ ] text`, `* [x] text`, `1. [ ] text`) from the
vault, groups them by page or by tag, and shows them in a side panel. Clicking
an item toggles its status back in the file. The model covers:

- **Line grammar** (`LineGrammar`, `JsText`). Each regular expression of
  `src/utils/helpers.ts` that recognises, reads or rewrites a checklist line
  appears twice. It is a character-level predicate that says when the
  expression matches at given positions. It is also a deterministic scanner
  that finds those positions. Lemmas prove that the two agree. JavaScript's
  `\s`, `\S`, `.` and `$` are written out character by character.
- **Tags, file lines, names** (`Tags`, `FileLines`). These cover:
  - `getTagMeta`, `retrieveTag` and `removeTagFromText`;
  - the frontmatter tag filter;
  - `split(/\r?\n/)` and `join("\n")`;
  - `getFileLabelFromName`, `ensureMdExtension` and `classifyString`;
  - `mapLinkMeta`.
- **Sorting** (`Sorting`). `sortGenericItemsInplace` is an in-place stable
  sort on an `array`. It is proved equal to an insertion sort that is a
  sorted, stable permutation. `localeCompare` is a parameter: any total
  preorder on strings.
- **Grouping** (`Groups`, `GroupProperties`). `groupTodos` has these parts:
  - the single find-or-create pass over the items;
  - the running newest/oldest timestamps;
  - the empty-group filter;
  - the group sort;
  - either the item sort or one level of subgroups on the other axis.
- **Toggle** (`Tasks`). The vault is a class holding a map from path to
  content. `toggleTodoItem` resolves the file, reads and splits it, checks
  that the stored text is still on the target line, rewrites that line in
  place, flips `checked`, and writes the joined lines back.
- **Link-block scanning** (`ParseFiles`). This is `findAllTodosFromLinkBlock`
  (a loop that stops at the first empty line), the `-`-only line predicates
  it uses, and `parseTodosFromFiles`, all of `src/utils/parse-files.ts`.
  `src/_utils.ts` has identical copies of the loop and the line predicates.
  Its `parseTodosFromFiles` differs: it builds one record per file and drops
  the empty ones (`LegacyUtils`).
- **The older utilities** (`LegacyUtils`) of `src/_utils.ts`:
  - the per-file records;
  - the `-`-only `setLineTo`;
  - `setTodoStatusAtLineTo` on cached data;
  - the unguarded toggle.
- **Markdown-it helper** (`PluginHelper`). This is the HTML `escape` chain.
  It also covers the rule built by `regexPlugin`: the anchored source, the
  flag string, and the `"regexp-" + counter++` id allocation, held in a
  registry class.

## Model

| member | source | states |
|---|---|---|
| JsText.RunEnd | src/utils/helpers.ts:49 | The end of a greedy `p*` run: every character before it satisfies `p`, and the next one does not (or the line ends) |
| JsText.RunEndUnique | src/utils/helpers.ts:49 | Any position that closes a maximal run is the one `RunEnd` returns, so a greedy prefix has one match |
| JsText.Trim | src/utils/helpers.ts:26-27 | `trim()`: the result is a slice of the input with only white space cut at both ends, and it starts and ends with non-white space |
| LineGrammar.ParseHead | src/utils/helpers.ts:49 | The scanner for the `(\s\|>)*` + (`-`, `*` or `N.`) + `\s[` prefix only returns positions where that prefix matches |
| LineGrammar.ParseHeadComplete | src/utils/helpers.ts:49 | Every match of the prefix is the one the scanner finds |
| LineGrammar.HeadUnique | src/utils/helpers.ts:49 | The prefix of a line matches in at most one way |
| LineGrammar.ParseSet | src/utils/helpers.ts:49 | The `setLineTo` scanner only returns a match of the whole `^prefix([^\]]+)(\].*$)` pattern |
| LineGrammar.ParseSetComplete | src/utils/helpers.ts:49 | Any match of the `setLineTo` pattern is the one the scanner returns |
| LineGrammar.ParseSetUnique | src/utils/helpers.ts:49 | Every match of the `setLineTo` pattern is the scanner's result, so there is only one |
| LineGrammar.ParseSetIff | src/utils/helpers.ts:49 | The scanner finds a match if and only if the `setLineTo` pattern matches the line |
| LineGrammar.SetLineTo | src/utils/helpers.ts:47-51 | The rewrite never makes the line longer: the bracket contents, at least one character, become one |
| LineGrammar.SetLineToNoMatch | src/utils/helpers.ts:47-51 | A line where the pattern does not match is returned unchanged |
| LineGrammar.SetLineToAt | src/utils/helpers.ts:47-51 | At any match, the rewrite is the prefix through `[`, then the status character, then the line from `]` |
| LineGrammar.SetLineToShape | src/utils/helpers.ts:47-51 | A rewritten line still matches, with a one-character status equal to the requested one |
| LineGrammar.RewriteTwice | src/utils/helpers.ts:47-51 | Two rewrites leave the original line with only the last status written |
| LineGrammar.SetLineToIdempotent | src/utils/helpers.ts:47-51 | Setting a status twice equals setting it once, on every line |
| LineGrammar.SetLineToRestores | src/utils/helpers.ts:47-51 | On a line whose status is already the one-character status for `b`, setting `!b` and then `b` gives back the line |
| LineGrammar.ParseTodo | src/utils/helpers.ts:55-59 | The scanner for `prefix[.]\s{1,4}` only returns positions where text begins inside the line |
| LineGrammar.ParseTodoSound | src/utils/helpers.ts:55-59 | The scanner only returns true matches: one status character, `]`, 1–4 white spaces, then non-white space |
| LineGrammar.ParseTodoComplete | src/utils/helpers.ts:55-59 | Any such match is the one the scanner returns |
| LineGrammar.ParseTodoIff | src/utils/helpers.ts:55-59 | The scanner succeeds if and only if the `lineIsValidTodo` pattern matches |
| LineGrammar.LineIsValidTodo | src/utils/helpers.ts:55-57 | `lineIsValidTodo` holds exactly when the line matches `^(\s\|>)*([-*]\|[0-9]+\.)\s\[.\]\s{1,4}\S+` |
| LineGrammar.ExtractTextFromTodoLine | src/utils/helpers.ts:58-59 | The text is non-empty, starts with non-white space and is a suffix of the line, and the line satisfies `lineIsValidTodo` |
| LineGrammar.ExtractTextIff | src/utils/helpers.ts:58-59 | The text is defined if and only if the todo pattern matches and the rest of the line from the text has no line terminator |
| LineGrammar.ExtractTextAt | src/utils/helpers.ts:58-59 | At any match, the extracted text is everything after the 1–4 white spaces that follow `]` |
| LineGrammar.GetIndentationSpacesFromTodoLine | src/utils/helpers.ts:60-62 | The count stays within the line and covers only white space |
| LineGrammar.IndentationOfTodo | src/utils/helpers.ts:60-62 | At a match of the `^(\s*)…` pattern the count is the length of the leading white space; without a match it is 0 |
| LineGrammar.TodoLineIsChecked | src/utils/helpers.ts:63-64 | True if and only if the prefix is followed by `[` + one non-white character + `]`, so any such status counts, not only `x` |
| LineGrammar.CheckedAfterSetLineTo | src/utils/helpers.ts:47-51 | After `setLineTo(l, b)` on a matching line, `todoLineIsChecked` gives `b` |
| LineGrammar.BlankStatusUnchecked | src/utils/helpers.ts:63-64 | A line whose status character is white space is not checked |
| Tags.GetTagMeta | src/utils/helpers.ts:30-35 | No `#`, a bare `#` or `#/` give null/null. Otherwise `main` is non-empty without `/`, `sub` is the non-empty rest after the first `/`, and `#a` and `#a/` have no sub |
| Tags.GetTagMetaMatches | src/utils/helpers.ts:31-32 | `main` is present if and only if the regular expression `^#([^/]+)/?(.*)?$` matches some cut of the tag |
| Tags.GreedyMain | src/utils/helpers.ts:31 | Whenever the pattern matches, `main` runs to the first `/` (the greedy cut) |
| Tags.RetrieveTag | src/utils/helpers.ts:37-39 | Returns `main` when non-empty, otherwise `sub` when non-empty, otherwise "" |
| Tags.RetrieveTagOfParsed | src/utils/helpers.ts:30-39 | For a parsed tag, `retrieveTag` returns its main name |
| Tags.JoinTagOfParsed | src/utils/helpers.ts:30-35 | Joining the parsed parts with `#` and `/` gives back the tag (the trailing `/` of `#a/` is dropped) |
| Tags.JoinTagInjective | src/utils/groups.ts:15 | Tag keys built from slash-free main names are equal only for equal main and sub parts |
| Tags.StripTag | src/utils/helpers.ts:27 | The global replace of `\s?#tag[^\s]*` never makes the text longer |
| Tags.StripTagKeepsBlankStart | src/utils/helpers.ts:27 | Removing occurrences keeps a blank start blank |
| Tags.StripTagShape | src/utils/helpers.ts:27 | The output starts with an unchanged prefix of the input followed by white space or the end; without an occurrence of the tag that prefix is the whole input |
| Tags.StripTagAbsent | src/utils/helpers.ts:27 | Text in which the tag does not occur passes through the replace unchanged |
| Tags.StripTagRemovesAll | src/utils/helpers.ts:27 | After the replace, the tag does not occur anywhere in the text |
| Tags.KeptCharNoOccurrence | src/utils/helpers.ts:27 | A kept character followed by a tag-free remainder produces no new occurrence of the tag |
| Tags.RemoveTagFromText | src/utils/helpers.ts:24-28 | Empty text gives "". An empty tag gives `text.trim()`. The result is always trimmed |
| Tags.RemoveTagFromTextAbsent | src/utils/helpers.ts:24-28 | Text in which `#tag` does not occur is only trimmed |
| Tags.RemoveTagFromTextRemovesTag | src/utils/helpers.ts:24-28 | For a literal, non-blank tag name, `#tag` does not occur in the result |
| Tags.FilterByMain | src/utils/helpers.ts:112-114 | The filter never yields more tags than it is given |
| Tags.FilterByMainMembers | src/utils/helpers.ts:112-114 | Keeps exactly the tags whose main part is in `todoTags` |
| Tags.FilterByMainAppend | src/utils/helpers.ts:112-114 | The filter of a concatenation is the concatenation of the filters, so order is kept |
| Tags.FilterByMainOne | src/utils/helpers.ts:112-114 | One tag is kept exactly when its main part is listed; with the append lemma, duplicates are kept as often as they occur |
| Tags.GetFrontmatterTags | src/utils/helpers.ts:105-116 | No filter tags gives every frontmatter tag. Otherwise the result is the order-keeping filter `FilterByMain`: exactly the tags whose main part is listed |
| Tags.GetAllTagsFromMetadata | src/utils/helpers.ts:118-123 | No cache gives []. Otherwise frontmatter tags, then block tags |
| FileLines.GetAllLinesFromFile | src/utils/helpers.ts:53 | `split(/\r?\n/)` gives at least one line |
| FileLines.LinesNoNewline | src/utils/helpers.ts:53 | No line of the split contains `\n` |
| FileLines.CombineFileLines | src/utils/helpers.ts:54 | `join("\n")`; `CombineSplit`, `SplitCombine` and `LineCount` relate it to the split |
| FileLines.CombineSplit | src/utils/helpers.ts:53-54 | Joining the split lines gives the text with every `\r\n` replaced by `\n` |
| FileLines.LineCount | src/utils/helpers.ts:53 | The number of lines is the number of `\n` plus one |
| FileLines.SplitPrepend | src/utils/helpers.ts:53 | Text without a line break in front of more text joins the first line of the split |
| FileLines.SplitCombine | src/utils/helpers.ts:53-54 | Splitting joined lines gives them back, when no line has `\n` and no inner line ends in `\r` |
| FileLines.GetFileLabelFromName | src/utils/helpers.ts:65-66 | Defined if and only if the name is `label.md` with a non-empty label free of line terminators; then returns that label |
| FileLines.EnsureMdExtension | src/utils/helpers.ts:100-103 | A path ending in `.md` is returned unchanged. Any other path gets `.md` appended |
| FileLines.EnsureMdExtensionIdempotent | src/utils/helpers.ts:100-103 | Applying it twice equals applying it once |
| FileLines.LabelOfEnsuredName | src/utils/helpers.ts:65-66 | The label of `ensureMdExtension(p)` is `p`, for a non-empty one-line `p` without `.md` |
| FileLines.Sanitize | src/utils/helpers.ts:13 | Removing the non-alphanumeric characters leaves only ASCII letters and digits |
| FileLines.SanitizeAlnum | src/utils/helpers.ts:13 | An already alphanumeric string is unchanged |
| FileLines.LowerFirst | src/utils/helpers.ts:15-18 | Only the first character is lower-cased |
| FileLines.DasherizeFromAlnum | src/utils/helpers.ts:14-20 | On alphanumeric text, the separator branch of the replace never fires |
| FileLines.DasherizeAlnum | src/utils/helpers.ts:14-20 | On alphanumeric text, the dasherizing replace only lower-cases an upper-case first letter |
| FileLines.ClassifyString | src/utils/helpers.ts:12-22 | The class name is the sanitized string with its first letter lowered: alphanumeric and not starting upper-case |
| FileLines.ClassifyStringIdempotent | src/utils/helpers.ts:12-22 | Classifying a class name again changes nothing |
| FileLines.MapLinkMeta | src/utils/helpers.ts:41-45 | The map has exactly the file paths of the links as keys. Each maps to the last link with that path |
| Sorting.LeTotal | src/utils/helpers.ts:78-97 | For a total-preorder collation, the comparator of every direction is total |
| Sorting.LeTransitive | src/utils/helpers.ts:78-97 | For a total-preorder collation, the comparator of every direction is transitive |
| Sorting.Insert | src/utils/helpers.ts:68-98 | One insertion step makes the list one element longer |
| Sorting.InsertPermutes | src/utils/helpers.ts:68-98 | One insertion step adds exactly the inserted element (multiset) |
| Sorting.InsertionSort | src/utils/helpers.ts:68-98 | The sort keeps the length of the list |
| Sorting.InsertionSortPermutes | src/utils/helpers.ts:68-98 | The sort result is a permutation of the input |
| Sorting.InsertSorted | src/utils/helpers.ts:68-98 | Inserting into a sorted list keeps it sorted |
| Sorting.InsertionSortSorted | src/utils/helpers.ts:78-97 | The result is ordered by name for `a->z`/`z->a`, by descending time for `new->old` and by ascending time for `old->new` |
| Sorting.InsertionSortNoSort | src/utils/helpers.ts:68-98 | Any other direction leaves the list untouched |
| Sorting.TiedWithAppend | src/utils/helpers.ts:68-98 | The elements tied with a key distribute over concatenation |
| Sorting.InsertStable | src/utils/helpers.ts:68-98 | Insertion puts the new element after every element tied with it |
| Sorting.InsertionSortStable | src/utils/helpers.ts:68-98 | The sort is stable: elements that compare equal keep their input order, as `Array.prototype.sort` guarantees |
| Sorting.SortGenericItemsInplace | src/utils/helpers.ts:68-98 | The array afterwards is the stable sort of its old contents: a permutation, sorted for a total collation, unchanged for other directions |
| Sorting.InsertAt | src/utils/helpers.ts:68-98 | Shifting element `i` left into the sorted prefix performs one insertion and keeps the rest of the array |
| Groups.NewGroup | src/utils/groups.ts:17-37 | A new group has the item's key, empty todos, no subgroups. A page group's `sortName` is the file name. A tag group's is `mainTag + (subTag ?? "0")`, an absent main tag printing as `undefined`, with its tags copied |
| Groups.Key | src/utils/groups.ts:14-15 | The file path for pages; a tag key always starts with `#` |
| Groups.KeysDistinct | src/utils/groups.ts:13-45 | The group keys are pairwise distinct |
| Groups.KeysOccur | src/utils/groups.ts:13-45 | A key has a group if and only if some item has that key |
| Groups.MembersHaveKey | src/utils/groups.ts:13-45 | A group's items are exactly the input items with its key |
| Groups.NewestIsMax | src/utils/groups.ts:25-41 | `newestItem` is the maximum member `ctime` with floor 0 |
| Groups.OldestIsMin | src/utils/groups.ts:24-42 | `oldestItem` is Infinity only for no members; otherwise it is the minimum member `ctime` |
| Groups.MembersOfKey | src/utils/groups.ts:13-45 | Every key has at least one member |
| Groups.GroupFor | src/utils/groups.ts:13-45 | The group for a key holds its members in input order, with the running newest/oldest bounds |
| Groups.Collected | src/utils/groups.ts:13-45 | The pass yields one group per key, in order of first occurrence |
| Groups.KeysAppend | src/utils/groups.ts:14-40 | An item with a new key adds that key at the end; a known key adds nothing |
| Groups.MembersAppend | src/utils/groups.ts:44 | An item joins only its own key's member list, at the end |
| Groups.NewestAppend | src/utils/groups.ts:41 | One more item raises `newestItem` exactly when its `ctime` is larger |
| Groups.OldestAppend | src/utils/groups.ts:42 | One more item lowers `oldestItem` exactly when its `ctime` is smaller |
| Groups.BuildAppend | src/utils/groups.ts:41-44 | Adding an item to a group updates both bounds and appends it |
| Groups.GroupForStep | src/utils/groups.ts:16-44 | An item with a known key updates only that key's group |
| Groups.MembersOfNonKey | src/utils/groups.ts:13-45 | A key no item has has no members |
| Groups.GroupForNew | src/utils/groups.ts:17-44 | An item with a new key produces a fresh group holding only it |
| Groups.CollectedStepExisting | src/utils/groups.ts:16-44 | A known key updates the found group in place and leaves the others alone |
| Groups.CollectedStepNew | src/utils/groups.ts:17-44 | A new key appends a new group at the end |
| Groups.FindGroup | src/utils/groups.ts:16 | `find` returns the first group with the key, or none when no group has it |
| Groups.CollectGroups | src/utils/groups.ts:12-45 | The loop computes the per-key grouping |
| Groups.NonEmptyGroups | src/utils/groups.ts:47 | Keeps exactly the groups with todos |
| Groups.NonEmptyGroupsKeepsAll | src/utils/groups.ts:47 | The filter removes nothing from the collected groups |
| Groups.CollectedNonEmpty | src/utils/groups.ts:41-47 | No collected group is empty |
| Groups.MapGroupsAppend | src/utils/groups.ts:56-59 | A `for` loop over groups maps one more group with one more step |
| Groups.SortTodos | src/utils/groups.ts:56 | A group's items are sorted by the stable item sort |
| Groups.CollectAndSort | src/utils/groups.ts:12-54 | Collecting, filtering and sorting in place gives the sorted per-key groups |
| Groups.SortItemsOfEach | src/utils/groups.ts:56 | Without subgroups, each group's item list is sorted |
| Groups.AddSubgroups | src/utils/groups.ts:57-59 | With subgroups, each group gets the grouping of its items on the other axis without subgroups |
| Groups.Grouping | src/utils/groups.ts:4-62 | The closed form of `groupTodos`; the `GroupProperties` lemmas state its properties |
| Groups.GroupTodos | src/utils/groups.ts:4-62 | `groupTodos` returns the specified grouping, whose properties are the `GroupProperties` lemmas |
| GroupProperties.MapGroupsAt | src/utils/groups.ts:56-59 | The per-group loops change each group separately and keep the count |
| GroupProperties.CollectedDistinct | src/utils/groups.ts:13-45 | The collected groups are pairwise different |
| GroupProperties.SortedGroupIsGroupFor | src/utils/groups.ts:47-54 | Each sorted group is the group of one of the keys |
| GroupProperties.SortedGroupsCoverKeys | src/utils/groups.ts:47-54 | Every key still has a group after the sort |
| GroupProperties.SortedGroupsIdsDistinct | src/utils/groups.ts:47-54 | After the sort, there is one group per key and ids are unique |
| GroupProperties.GroupingIsGroupFor | src/utils/groups.ts:4-62 | Each returned group is the finished group of its key |
| GroupProperties.FinishedKeeps | src/utils/groups.ts:56-59 | Finishing a group only touches its todos (a permutation) or its subgroups |
| GroupProperties.GroupingAt | src/utils/groups.ts:4-62 | Each returned group holds exactly the items with its id, with that key's timestamp bounds |
| GroupProperties.GroupingPartition | src/utils/groups.ts:13-44 | Every input item is in exactly one top-level group, the one whose id is its key |
| GroupProperties.GroupingIdsUnique | src/utils/groups.ts:15-16 | Top-level group ids are unique |
| GroupProperties.TotalConcat | src/utils/groups.ts:44 | Item totals add over concatenation |
| GroupProperties.TotalUpdate | src/utils/groups.ts:44 | Replacing one group changes the total by the difference in its size |
| GroupProperties.TotalPermutation | src/utils/groups.ts:49-54 | Reordering groups keeps the item total |
| GroupProperties.CollectedTotal | src/utils/groups.ts:13-45 | The pass places every item exactly once: the total equals the input length |
| GroupProperties.TotalMap | src/utils/groups.ts:56-59 | Size-preserving per-group steps keep the total |
| GroupProperties.GroupingTotal | src/utils/groups.ts:4-62 | The returned groups hold as many items as the input |
| GroupProperties.GroupingTimestamps | src/utils/groups.ts:24-47 | Every returned group is non-empty. `newestItem` is the max member `ctime` (floor 0). `oldestItem` is finite and the min member `ctime` |
| GroupProperties.MembersFirst | src/utils/groups.ts:16-44 | A key's first member is its first occurrence in the input |
| GroupProperties.GroupingNames | src/utils/groups.ts:28-36 | A group's names come from the first item with its key: the file name for pages, `mainTag + (subTag ?? "0")` for tags |
| GroupProperties.SortedMap | src/utils/groups.ts:49-59 | Steps that keep the sort keys keep the groups sorted |
| GroupProperties.GroupingSorted | src/utils/groups.ts:49-54 | The top-level groups are sorted by `sortGroups` |
| GroupProperties.SubgroupsOfKeepsKeys | src/utils/groups.ts:57-59 | Adding subgroups keeps `sortName` and both timestamps |
| GroupProperties.GroupOrderingMeaning | src/utils/groups.ts:49-54 | The group order is by `sortName` for the alphabetic directions, by `newestItem` for `new->old`, and by `oldestItem` for `old->new` |
| GroupProperties.GroupingItemsSorted | src/utils/groups.ts:56 | Without subgroups, each group's todos are a sorted permutation of its members |
| GroupProperties.GroupingSubgroups | src/utils/groups.ts:57-59 | With subgroups, todos stay in input order, and `groups` is the other-axis grouping whose groups have no further subgroups |
| GroupProperties.TagKeysSeparate | src/utils/groups.ts:15 | Tag keys are equal if and only if main and sub tags are equal, so `#work` and `#work/urgent` are separate groups |
| GroupProperties.KeysFirstOccurrence | src/utils/groups.ts:16-44 | Before sorting, a group with an earlier position has an earlier first item |
| GroupProperties.MembersConcat | src/utils/groups.ts:44 | A key's members distribute over concatenation, so input order is kept |
| Tasks.ResolvePath | src/utils/helpers.ts:125-131 | A path resolves to itself when present, otherwise to the path the name index gives for it. It is unresolved exactly when neither is in the vault |
| Tasks.Vault.constructor | src/utils/tasks.ts:129 | The vault starts with the given contents and name index |
| Tasks.Vault.Modify | src/utils/tasks.ts:141 | `vault.modify` replaces exactly the given file's content |
| Tasks.ItemRef.constructor | src/utils/tasks.ts:128 | A reference to a mutable todo item |
| Tasks.SetTodoStatusAtLineTo | src/utils/tasks.ts:146-153 | Only the target array element is rewritten, by `setLineTo`; the result is the joined lines |
| Tasks.Toggle | src/utils/tasks.ts:128-142 | Without a toggle, the files and the item are unchanged; the item keeps its file, line and text. `ToggleGuard` and `ToggleWrites` give the rest |
| Tasks.ToggleTodoItem | src/utils/tasks.ts:128-142 | The method's effect on the vault and on the item is the toggle specification |
| Tasks.ToggleGuard | src/utils/tasks.ts:129-133 | An unresolved file or a stale line is reported exactly then. Without a toggle, nothing is written and `checked` is unchanged |
| Tasks.ToggleWrites | src/utils/tasks.ts:134-141 | On success, `checked` flips and only the resolved file changes. Its new lines are the old ones with only `item.line` rewritten to `setLineTo(old, !checked)` |
| Tasks.SpliceKeepsBreaks | src/utils/tasks.ts:151 | Replacing one character keeps a line free of `\n` and keeps whether it ends in `\r` |
| Tasks.SetLineToKeepsBreaks | src/utils/tasks.ts:151 | `setLineTo` keeps a line free of `\n` and keeps whether it ends in `\r` |
| Tasks.SetLineToKeepsBreaksAt | src/utils/tasks.ts:151 | The same, for a line where the pattern matches |
| Tasks.RewrittenReadBack | src/utils/tasks.ts:151-153 | Reading back the written data gives exactly the rewritten lines |
| Tasks.ToggleReadBack | src/utils/tasks.ts:131-141 | Reading the file back after a toggle gives its old lines with only the target rewritten |
| Tasks.ToggleTwiceRestoresChecked | src/utils/tasks.ts:140 | Two successful toggles restore `item.checked` |
| Tasks.ResolveAfterWrite | src/utils/tasks.ts:129-141 | Writing a resolved file keeps the path resolving to it |
| Tasks.ToggledEffect | src/utils/tasks.ts:134-141 | A successful toggle writes the joined rewritten lines and flips `checked` |
| Tasks.ToggleAgain | src/utils/tasks.ts:128-142 | A second toggle rewrites the once-rewritten lines back with the original status |
| Tasks.ToggleTwiceRestoresFile | src/utils/tasks.ts:128-142 | Two toggles of a line with a blank or `x` status matching `checked` restore the file, up to `\r\n` becoming `\n` |
| ParseFiles.DashStatus | src/utils/parse-files.ts:34-36 | The scanner for `^\s*-\s\[(\s\|x)\]` only returns true matches |
| ParseFiles.DashStatusComplete | src/utils/parse-files.ts:34-36 | Any match of that pattern is the one the scanner returns, so the match is unique |
| ParseFiles.LineIsTodo | src/utils/parse-files.ts:34 | `lineIsTodo` as the head scan; `LineIsTodoIff` gives its meaning |
| ParseFiles.LineIsTodoIff | src/utils/parse-files.ts:34 | A line counts if and only if it has optional white space, `-`, one white space, and `[` + (white space or `x`) + `]` |
| ParseFiles.DashLineIsChecked | src/utils/parse-files.ts:36 | A checked line is a todo line; `DashLineIsCheckedIff` gives the rest |
| ParseFiles.DashLineIsCheckedIff | src/utils/parse-files.ts:36 | Checked if and only if the line counts and its status is `x` |
| ParseFiles.DashExtractText | src/utils/parse-files.ts:35 | Text is only extracted from a line that counts as a todo |
| ParseFiles.DashExtractTextIff | src/utils/parse-files.ts:35 | Defined if and only if the full pattern matches. The text is the rest after `]` and at most one white space, and is a suffix of the line |
| ParseFiles.BlockEnd | src/utils/parse-files.ts:17-19 | The scan ends at the first zero-length line from the link line on, or at the end of the file |
| ParseFiles.FindAllTodosFromLinkBlock | src/utils/parse-files.ts:12-31 | The loop returns exactly the block's todos in order, and [] without cached data |
| ParseFiles.BlockTodosStep | src/utils/parse-files.ts:17-27 | One loop step: stop at an empty line, otherwise emit the line if it is a todo and go on |
| ParseFiles.BlockTodosOrdered | src/utils/parse-files.ts:17-27 | Emitted line numbers strictly increase, starting at the link line and ending before the first empty line |
| ParseFiles.BlockTodosEntries | src/utils/parse-files.ts:20-27 | Each emitted item carries that line's status, text, file path and index |
| ParseFiles.BlockTodosComplete | src/utils/parse-files.ts:17-27 | A line inside the block is emitted if and only if it is a todo |
| ParseFiles.NoCachedTextNoTodos | src/utils/parse-files.ts:13-14 | Missing or empty cached content yields no items |
| ParseFiles.OnlyEmptyLinesStop | src/utils/parse-files.ts:19 | Only a zero-length line stops the scan; a whitespace-only line does not |
| ParseFiles.LinksOnPage | src/utils/parse-files.ts:7 | No link metadata gives no links. Otherwise the links used are exactly those whose `link` equals the page link |
| ParseFiles.FilterLinks | src/utils/parse-files.ts:7 | Every kept link targets the page |
| ParseFiles.FilterLinksMembers | src/utils/parse-files.ts:7 | Keeps exactly the links to the page |
| ParseFiles.FilterLinksAppend | src/utils/parse-files.ts:7 | The filter of a concatenation is the concatenation of the filters, so link order is kept |
| ParseFiles.FilterLinksOne | src/utils/parse-files.ts:7 | One link is kept exactly when it targets the page; with the append lemma, duplicates are kept as often as they occur |
| ParseFiles.ParseTodosFromFiles | src/utils/parse-files.ts:4-10 | `flatMap` over files of `flatMap` over the page's links; `ParseTodosAppend`, `TodosOfLinksAppend` and `ParseTodosSource` give its meaning |
| ParseFiles.ParseTodosAppend | src/utils/parse-files.ts:4-10 | Results concatenate in file order |
| ParseFiles.TodosOfLinksAppend | src/utils/parse-files.ts:8 | Results concatenate in link order, with no de-duplication |
| ParseFiles.TodosOfLinksSource | src/utils/parse-files.ts:8 | An item comes from one file exactly when it is in the block of one of the links used |
| ParseFiles.ParseTodosSource | src/utils/parse-files.ts:4-10 | An item is returned if and only if it is in the block of a matching link of some file |
| LegacyUtils.ParseTodosFromFiles | src/_utils.ts:7-19 | At most one record per file; `RecordsFlatten` and `RecordsOfFiles` give its meaning |
| LegacyUtils.FlattenAppend | src/_utils.ts:7-19 | Flattening the records distributes over concatenation |
| LegacyUtils.RecordsFlatten | src/_utils.ts:7-19 | The per-file records hold, in order, exactly the todos that the newer `parseTodosFromFiles` returns |
| LegacyUtils.RecordsOfFiles | src/_utils.ts:7-19 | Each record is some file's non-empty record, and every file with todos has its record |
| LegacyUtils.RecordsAppend | src/_utils.ts:7-19 | Records are produced in file order |
| LegacyUtils.DashMatchIsQuotedMatch | src/_utils.ts:65-66 | On a `-` line with white-space indentation, the older and newer `setLineTo` agree |
| LegacyUtils.StarItemOlder | src/_utils.ts:65-66 | The older `setLineTo` leaves a `*` item unchanged |
| LegacyUtils.StarItemNewer | src/utils/helpers.ts:47-51 | The newer `setLineTo` rewrites the same `*` item |
| LegacyUtils.DashCheckedAfterSetLineTo | src/_utils.ts:65-72 | After the older rewrite to `b`, the line counts as a todo and reads as checked exactly when `b` |
| LegacyUtils.SetTodoStatusAtLineTo | src/_utils.ts:57-63 | Without cached content the result is undefined. Otherwise only the line at the index is rewritten, and the lines are joined |
| LegacyUtils.StatusAtLine | src/_utils.ts:57-63 | The outcome of `setTodoStatusAtLineTo`; `StatusAtLineOnlyLine` gives its meaning |
| LegacyUtils.StatusAtLineOnlyLine | src/_utils.ts:57-63 | Reading back the result gives the same lines with only the target one rewritten |
| LegacyUtils.FindFile | src/_utils.ts:23 | `find` returns a file with the path, and none exactly when no file has it |
| LegacyUtils.ToggleTodoItem | src/_utils.ts:22-26 | The unguarded toggle always writes `setLineTo(…, !checked)` when the file has content, with no staleness check |
| LegacyUtils.ToggleOf | src/_utils.ts:22-26 | The request the unguarded toggle makes; `ToggleIgnoresText` and `ToggleWritesFlippedStatus` give its meaning |
| LegacyUtils.ToggleIgnoresText | src/_utils.ts:22-26 | The written data does not depend on the item's text |
| LegacyUtils.ToggleWritesFlippedStatus | src/_utils.ts:22-26 | On a `-` todo line the write keeps every other line and sets the status to `!checked` |
| PluginHelper.Escape | src/plugins/plugin-helper.ts:3-9 | The five chained global replaces, `&` first; `EscapeIsEachChar`, `EscapeNoMarkup`, `EscapeAmpersands` and `EscapeLength` give its meaning |
| PluginHelper.EntityOf | src/plugins/plugin-helper.ts:3-9 | Only `& " ' < >` are replaced; every other character maps to itself |
| PluginHelper.ReplaceAllAppend | src/plugins/plugin-helper.ts:5-9 | A global single-character replace distributes over concatenation |
| PluginHelper.EscapeAppend | src/plugins/plugin-helper.ts:3-9 | `escape` distributes over concatenation |
| PluginHelper.EscapeChar | src/plugins/plugin-helper.ts:3-9 | `escape` of one character is its entity or the character itself |
| PluginHelper.EscapeSpecial | src/plugins/plugin-helper.ts:3-9 | Each of the five special characters becomes its entity and is not escaped again |
| PluginHelper.EscapeAmp | src/plugins/plugin-helper.ts:5 | `&` becomes `&amp;` once, because `&` is replaced first |
| PluginHelper.EscapeQuot | src/plugins/plugin-helper.ts:6 | `"` becomes `&quot;` |
| PluginHelper.EscapeApos | src/plugins/plugin-helper.ts:7 | `'` becomes `&#39;` |
| PluginHelper.EscapeLt | src/plugins/plugin-helper.ts:8 | `<` becomes `&lt;` |
| PluginHelper.EscapeGt | src/plugins/plugin-helper.ts:9 | `>` becomes `&gt;` |
| PluginHelper.ReplaceAllSingle | src/plugins/plugin-helper.ts:5-9 | Replacing in one character replaces it or keeps it |
| PluginHelper.ReplaceAllAbsent | src/plugins/plugin-helper.ts:5-9 | A replace of a character that does not occur changes nothing |
| PluginHelper.EscapeIsEachChar | src/plugins/plugin-helper.ts:3-9 | The five-pass chain equals escaping each character once, left to right |
| PluginHelper.EscapePlain | src/plugins/plugin-helper.ts:3-9 | Text without special characters passes through unchanged, and "" gives "" |
| PluginHelper.EscapeNoMarkup | src/plugins/plugin-helper.ts:3-9 | The output contains no raw `<`, `>`, `"` or `'` |
| PluginHelper.EscapeAmpersands | src/plugins/plugin-helper.ts:5-9 | Every `&` in the output begins one of the five entities |
| PluginHelper.EscapeLength | src/plugins/plugin-helper.ts:3-9 | The output length is the input length plus 4·`&` + 5·`"` + 4·`'` + 3·`<` + 3·`>` |
| PluginHelper.DecimalString | src/plugins/plugin-helper.ts:27 | The counter is written in decimal digits without leading zeros |
| PluginHelper.DecimalRoundTrip | src/plugins/plugin-helper.ts:27 | Reading the decimal string back gives the counter value |
| PluginHelper.RuleIdInjective | src/plugins/plugin-helper.ts:27 | Different counter values give different `regexp-N` ids |
| PluginHelper.Flags | src/plugins/plugin-helper.ts:25 | The flag string holds `g`, `m`, `i` exactly when set, in that order, and nothing else |
| PluginHelper.RuleRegistry.constructor | src/plugins/plugin-helper.ts:15 | The counter starts at 0 with no ids issued |
| PluginHelper.RuleRegistry.RegexPlugin | src/plugins/plugin-helper.ts:21-28 | Each call takes id `"regexp-" + counter`, never issued before, then increments the counter. The rule's source is `"^" + source` with exactly the g/m/i flags |

## Left out

- `parseTodos` and `mapper` (src/utils/tasks.ts:41-126) are not part of this model. They are built on the Dataview API, markdown-it rendering and asynchronous vault reads, all foreign calls.
- The markdown-it plugins (src/plugins/link.ts, tag.ts, highlight.ts, comment.ts) and the ruler/renderer registration in `regexPlugin` (src/plugins/plugin-helper.ts:29-48) are left out. They run inside markdown-it, whose code is not part of this model. The model keeps only the rule that `regexPlugin` builds.
- `localeCompare(…, navigator.language, …)` is a host call. Every sort takes the collation as a parameter `strLe`. The sortedness results assume only that it is a total preorder.
- `Sorting.SortGenericItemsInplace` is proved sorted only when `strLe` is a total preorder. A collation that is not one has no well-defined sorted order.
- `parseFrontMatterTags` is an Obsidian call. `Tags.GetFrontmatterTags` takes its result, the list of frontmatter tags, as an input.
- `getFileFromPath` queries the vault. It is modelled as `Tasks.ResolvePath`: a lookup by path, then by name through a name-to-path map.
- `isMacOS` and `isMetaPressed` are environment queries and are left out.
- The plugin lifecycle, view, settings, navigation (`src/utils/files.ts`), DOM directives and the worker experiment are left out, as UI, timers or concurrency.
- `async`/`await` is left out. The toggle is a sequential read-modify-write. No other edit can happen between the read and the write.
- In the toggle, an `item.line` past the end of the file makes the source throw a `TypeError`. The model reports this as the outcome `Throws`, and nothing is written.
- The float `Infinity`, the initial `oldestItem` of a group, is modelled by the datatype `Extended`. Groups that reach the sort always hold an item, so their `oldestItem` is finite.
- A group's `className` (`classifyString` of its name) is computed, but its only contract is the one `FileLines.ClassifyString` states.
- `item.file.name()` is a method call in the source. The model treats it as a field `name` of the file.
- Strings are sequences of Unicode scalar values. JavaScript strings are UTF-16 code units, so characters outside the Basic Multilingual Plane are not split into surrogate pairs here.
- `Tasks.ToggleReadBack` requires that no line but the last ends in `\r` (text containing `\r\r\n`). The property does not hold for such text: joining with `\n` creates a new `\r\n` pair.
- `Tasks.ToggleAgain` carries the same requirement as `Tasks.ToggleReadBack`.
- `LegacyUtils.StatusAtLineOnlyLine` carries the same requirement as `Tasks.ToggleReadBack`.
- `LegacyUtils.ToggleWritesFlippedStatus` carries the same requirement as `Tasks.ToggleReadBack`.
- `Tasks.ToggleTwiceRestoresFile` restores the file only up to `\r\n` becoming `\n`, because the source writes lines joined with `\n`. It also requires that the status already agrees with `checked` (blank when unchecked, `x` when checked). Otherwise the first toggle rewrites it to a different character.
- `LegacyUtils.ToggleTodoItem`: when the file has no cached content, the source writes `undefined` through `vault.modify`. The model reports that request and leaves the vault unchanged. A missing file, or a line past the end, is reported as a request that fails.
- `PluginHelper.RuleRegistry.RegexPlugin` keeps the counter as an unbounded natural. JavaScript numbers above 2^53 lose precision, and their decimal form switches to exponent notation above 10^21.
- `Tags.RemoveTagFromText` requires a tag name without regular-expression syntax characters (`\ ^ $ . | ? * + ( ) [ ] { }`). The source splices the name into `new RegExp(…)`, so such a name either fails to compile (`c++` throws a `SyntaxError`) or changes the pattern (`a|b` becomes an alternation, `a.b` also removes `#aXb`). Modelling that needs a full regular-expression engine, which is not part of this model.
- `FileLines.MapLinkMeta` returns an unordered map. A JavaScript `Map` also remembers the order in which keys were first inserted. Nothing in the modelled code iterates that map, so the order is not modelled.
- The block scan of `findAllTodosFromLinkBlock` stops at the first zero-length line, as the code does. A line holding only white space does not end a block.
