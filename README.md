# Condor results file explorer — a Dafny model of its data-shaping core

The explorer is a single browser script (`script.js`). It fetches the flat list
of keys held in a key-value store, such as `2024/day1/summary.xlsx`, and
rebuilds a folder tree from them (`buildFileTree`). It reads the folder to show
from the browser location (`renderFileTree`), then walks the tree to that
folder (`getSubtree`). It draws a breadcrumb trail of links back to each
ancestor folder (`renderNavigation`).

A folder that holds only files is shown grouped (`renderTreeView`,
`renderGroupedFiles`). `groupFiles` sorts the file names into seven fixed
groups, using a first-match chain of extension and substring tests. The
groups are shown in a fixed order. A folder holding sub-folders is listed
entry by entry instead: a file gets a click action chosen by its extension
(open in a new tab, download, or show as text), and a folder gets a link one
level down.

The model keeps the script's own structure. Its loops stay loops:
- the `forEach` over the keys and over one key's segments;
- the `for ... of` descent of `getSubtree`;
- the `forEach` that pushes names onto the group lists;
- the `pathSoFar` accumulator of the breadcrumbs.

Each loop is proved against a pure specification function, and the promised
properties are proved about those functions.

Modules:
- `Wrappers`: the `Option` type.
- `Strings`: the JavaScript string operations the script relies on.
- `FileTree`: tree building and subtree lookup.
- `Categorize`: the grouping.
- `Render`: breadcrumbs, views, click actions and the page.

Design decisions:
- **Folders.** A JavaScript object used as a folder is an insertion-ordered
  `seq<Entry>`. Assigning to an existing key keeps its place. Assigning to a
  new key appends it. A file is the `null` marker, here `Leaf`.
- **The tree cursor.** `buildFileTree` writes through a `current` reference
  into the nested objects. `FileTree.InsertKey` replays this on values. It
  walks down and keeps the folders it passes, writes the file, then writes
  each folder back into its parent. It is proved equal to the recursive
  `Insert`.
- **The grouping reference.** `Categorize.Classify` is a first-match table:
  the groups in priority order, each with its test. The method
  `Categorize.AddFileName` follows the script's nested `if` chain and its
  `grouped` flag. `Categorize.ClassifyFollowsChain` proves that the table
  gives the chain's group, and `Categorize.AddFileName`'s contract ties the
  flag to it.
- **Walking into a file.** `null[part]` raises a TypeError in the script. A
  walk that reaches a file with segments left is the explicit outcome
  `ThroughLeaf`. A location that ends on a file gives the view `NotAFolder`,
  because `Object.keys(null)` raises too.
- **Keys whose paths overlap.** One might expect the files of the built tree
  to be exactly the keys. The code makes that true only when no key's path
  runs through another key's path.
  A later `a/b` turns the earlier file `a` into a folder, because `!null` is
  true. A later `a` turns the folder `a` back into a file. The model follows
  the code:
  - `FileTree.BuildLeavesAreKeys`: every file is some key.
  - `FileTree.LastKeyIsLeaf`: the last key is always a file.
  - `FileTree.BuildKeepsAllKeys`: when `PrefixFree` holds, every key is a
    file.
- **A key that starts with `/`.** Splitting it gives an empty first segment,
  so the tree gets a top-level folder named by the empty string. That
  folder's link is `/`, which is the root again, so the page cannot open it
  (`Render.LeadingSlashKeyIsUnreachable`). In the same way, a pathname such
  as `//x` has the parts `""` and `x`, and the breadcrumb of the empty first
  segment is `/`, the root (`Render.BreadcrumbLeadsToPrefix`).

## Model

| member | source | states |
|---|---|---|
| Strings.ToLower | script.js:71 | `toLowerCase` keeps the length, keeps every character that is not an upper-case ASCII letter, and maps each upper-case letter to the lower-case letter at the same place in the alphabet |
| Strings.TrimStart | script.js:66 | strips exactly the leading white space: the result is a suffix, all removed characters are white space, and the result does not start with one |
| Strings.TrimEnd | script.js:66 | strips exactly the trailing white space, symmetrically |
| Strings.BlankIffAllWhiteSpace | script.js:66 | `fileName.trim() === ''` holds exactly when every character is white space |
| Strings.ContainsIffOccurs | script.js:75 | `includes` / `indexOf(...) !== -1` holds exactly when the substring occurs at some index |
| Strings.Split | script.js:24 | `split('/')` gives at least one piece, and no piece contains `/` |
| Strings.JoinSplit | script.js:323 | joining the pieces of `split('/')` with `/` gives the string back |
| Strings.SplitJoin | script.js:323 | splitting a `/`-join of `/`-free pieces gives the pieces back |
| Strings.JoinSnoc | script.js:305 | appending a segment to a non-empty join adds `/` and the segment |
| FileTree.FindPutSame | script.js:28-31 | after `level[name] = node`, reading `name` gives `node` |
| FileTree.FindPutOther | script.js:28-31 | assigning one key leaves every other key's value unchanged |
| FileTree.NamesPut | script.js:28-31 | an assignment keeps the key order: an existing key stays in place, and a new key goes last |
| FileTree.PutEntries | script.js:28-31 | every entry after an assignment is an old entry or the new one |
| FileTree.PutKeepsDistinct | script.js:28-31 | an assignment never makes a key appear twice |
| FileTree.InsertKey | script.js:25-35 | the cursor walk for one key (create missing folders, replace a file in the way by `{}`, set the last segment to `null`) gives exactly `Insert(tree, parts)` |
| FileTree.BuildFileTree | script.js:21-38 | recording every key's segments, in list order, gives `Build(keys)` |
| FileTree.GetSubtree | script.js:41-51 | the descent loop gives `Resolve`: `{}` at the first missing segment, and `ThroughLeaf` when it must index into a file |
| FileTree.ResolveAppend | script.js:43-49 | walking `p + q` is walking `p`, then `q` from where `p` ended; a failure on `p` stays a failure |
| FileTree.MissingSegmentGivesEmpty | script.js:44-47 | once a segment is absent at its level, the result is `{}` whatever segments follow |
| FileTree.ThroughLeafOnlyAtFile | script.js:44-45 | the walk raises exactly when some proper prefix of the path ends on a file |
| FileTree.InsertReachesLeaf | script.js:23-35 | after recording a key, walking its segments from the root reaches a file |
| FileTree.InsertTopLevel | script.js:26-34 | at the top level, only the first segment changes and keeps its place. A one-segment key makes it a file even over a folder. A longer key descends into an existing folder there, and creates a fresh folder where the segment is missing or holds a file |
| FileTree.InsertIdempotent | script.js:23-35 | recording the same key twice gives the same tree as recording it once |
| FileTree.PutTwice | script.js:28-31 | assigning the same value to the same key twice equals assigning it once |
| FileTree.InsertLeavesSound | script.js:23-35 | a file reachable after recording a key is that key's path or was already a file |
| FileTree.InsertKeepsLeaf | script.js:23-35 | recording a key keeps every file that is neither on the key's way nor below it |
| FileTree.BuildLeavesAreKeys | script.js:21-38 | every file of the built tree is the segment path of some key |
| FileTree.LastKeyIsLeaf | script.js:21-38 | the last key recorded is always a file of the built tree (last write wins) |
| FileTree.BuildKeepsAllKeys | script.js:21-38 | when no key's path runs through another's, every key is a file of the built tree |
| FileTree.InsertKeepsWellFormed | script.js:23-35 | recording a key keeps every folder free of repeated keys |
| FileTree.ChildWellFormed | script.js:30-33 | the folder the cursor moves into is well formed when its parent is |
| FileTree.BuildWellFormed | script.js:21-38 | no folder of the built tree lists a key twice |
| Categorize.FirstMatchInOrder | script.js:75-102 | the first match is always one of the groups tried |
| Categorize.FirstMatchIsEarliest | script.js:75-102 | a name goes to a group exactly when it passes that group's test and fails every earlier test |
| Categorize.FirstMatchFindsSome | script.js:75-102 | if any group's test passes, the name is placed |
| Categorize.ClassifyTotal | script.js:65-102 | a name is dropped exactly when it is blank; every other name is placed, Other at the latest |
| Categorize.ExtensionsExclusive | script.js:75-98 | a name ending in `.html`, or in `.csv`, ends in none of the chain's other suffixes |
| Categorize.ClassifyFollowsChain | script.js:71-102 | the priority table gives the same group as the script's nested chain of tests, including its two fall-throughs to Other: an `.html` without either marker and a `.csv` without `slim_summary` |
| Categorize.CondorClubFirst | script.js:75-97 | a `.txt` whose original name contains `Competition_day_`, or a `_task_image.jpg`, is Condor Club, ahead of the `.jpg` image rule |
| Categorize.HtmlFallsThroughToOther | script.js:82-102 | an `.html` with neither marker goes to Other |
| Categorize.SlimSummaryCsv | script.js:90-94 | a `.csv` containing `slim_summary` is a simplified summary |
| Categorize.CsvFallsThroughToOther | script.js:90-102 | a `.csv` without `slim_summary` goes to Other |
| Categorize.GroupOfStep | script.js:65-103 | one more name extends only the list of the group it is sent to, at the end |
| Categorize.AddFileName | script.js:65-103 | the callback leaves the groups alone for a blank name, and otherwise appends the name to its group's list and to no other |
| Categorize.AddKeepsGroups | script.js:65-103 | one callback step keeps every list equal to its group over the names seen so far |
| Categorize.GroupFiles | script.js:54-105 | the `groups` object has a list for every group, and each list is exactly the input names classified to it, in input order (`GroupsOf`) |
| Categorize.GroupMembers | script.js:65-103 | a name is in a group exactly when it is an input name sent there |
| Categorize.AssignedMembers | script.js:65-103 | a name is kept exactly when it is an input name sent to some group |
| Categorize.ExactlyOneGroup | script.js:65-102 | a listed name that is not blank is in exactly one group; a blank one is in none |
| Categorize.ValidNamesAreNotBlank | script.js:66-69 | the kept names are exactly the input names that are not blank |
| Categorize.ConcatStep | script.js:65-103 | one more name adds one copy of it to the lists of distinct groups, if it goes to one of them |
| Categorize.DisplayOrderListsEachCategoryOnce | script.js:113-121 | the display order lists each of the seven groups exactly once |
| Categorize.EveryCategoryDisplayed | script.js:113-121 | every group appears in the display order |
| Categorize.GroupsPartition | script.js:54-105 | counted with repetitions, the seven lists together hold exactly the names sent to a group |
| Categorize.GroupsPartitionValidNames | script.js:54-105 | counted with repetitions, the seven lists hold exactly the names that are not blank |
| Categorize.GroupKeepsInputOrder | script.js:65-103 | a group's k-th name is the input name at the k-th index sent there; those indices increase |
| Categorize.XlsxIsSummary | script.js:79-81 | a non-blank `.xlsx` is a summary spreadsheet |
| Categorize.JpgIsImage | script.js:95-97 | a non-blank `.jpg` that is not a task image is an image |
| Categorize.CompetitionDayTxtIsCondorClub | script.js:75-78 | `Competition_day_1_results.txt` is Condor Club |
| Categorize.PlainHtmlIsOther | script.js:82-102 | `report.html` goes to Other |
| Categorize.SlimSummaryCsvIsSimplified | script.js:90-94 | `data_slim_summary.csv` is a simplified summary |
| Categorize.FullCsvIsOther | script.js:90-102 | `data_full.csv` goes to Other |
| Categorize.WorkbookIsSummaryXlsx | script.js:79-81 | `summary.xlsx` is a summary spreadsheet |
| Categorize.PhotoIsImage | script.js:95-97 | `photo.jpg` is an image |
| Categorize.BlankNameIsDropped | script.js:66-69 | the empty name and a name of white space go to no group |
| Render.ParseLocation | script.js:319-323 | at most one leading `/` is stripped. The parts are empty exactly for the empty path. Otherwise they are `/`-free pieces whose join is the stripped path |
| Render.FullPath | script.js:132 | at the root the key is the name. Below a folder, the key's segments are the folder's segments followed by the name |
| Render.FolderLinkGoesOneLevelDown | script.js:238-285 | parsing a folder link's href `'/' + fullPath` gives the current parts plus the folder's name |
| Render.RenderNavigation | script.js:295-311 | the trail is the Home link, then per segment a ` / ` separator and a link to `/` plus the join of the segments up to it (`pathSoFar`) |
| Render.ParseExample | script.js:319-323 | `/2024/day1` has the path `2024/day1` and the parts `2024`, `day1` |
| Render.TwoSegmentTrail | script.js:295-311 | the trail of two segments is Home, `/a`, `/a/b`, with separators |
| Render.LeadingSlashKeyIsUnreachable | script.js:24-33 | a key `/x` builds a top-level folder named by the empty string, and that folder's link `/` (script.js:285) parses to the root |
| Render.BreadcrumbLeadsToPrefix | script.js:305-307 | the breadcrumb of segment i leads to the location whose parts are the first i + 1 segments, except when segment 0 is empty (the pathname `//x`): that breadcrumb is `/`, which parses to the root |
| Render.PrefixLinkParses | script.js:305-323 | a link to `/` plus the join of `/`-free segments parses back to exactly those segments, unless the segments are a single empty one |
| Render.ClickAction | script.js:180-213 | a new tab exactly for a lower-cased `.html`; a download exactly for `.csv`, `.xlsx` or `.zip`; the text view otherwise. The same function serves the folder view (script.js:247-280) |
| Render.ActionByGroup | script.js:136-213 | for a name that is not blank, the linked groups' click actions: downloads for Summary xlsx, Download IGCs and Simplified Summaries; a new tab for Thermal & Glide; and in Other, a fallen-through `.html` still opens and a fallen-through `.csv` still downloads |
| Render.RenderItem | script.js:130-216 | each name gets one list item, which fetches `currentPath/name`. In Condor Club, a `.txt` gets the "Race Results" link, a task image is inline, and any other file is an empty item. An image of the Images group is inline. Every other group gets a link with the name's click action |
| Render.RenderGroupedFiles | script.js:108-223 | the k-th section is headed by the label of the k-th non-empty group in display order, and its items render that group's names, in input order, with the group's widget. No section is empty, and the names listed are the groups' lists one after another |
| Render.SectionsAreOccupiedGroups | script.js:123-132 | for any classifier, the sections are exactly the non-empty groups of the given order, each with its label and its rendered list |
| Render.OccupiedMembers | script.js:123-124 | a group gets a section exactly when it is in the order and not empty |
| Render.OccupiedDistinct | script.js:113-124 | an order that lists each group once gives each non-empty group one section |
| Render.GroupedViewSections | script.js:113-127 | the grouped view's headings are the labels of the non-empty groups, one each, in display order |
| Render.GroupedViewPlacesEachName | script.js:108-216 | every non-blank name is an item under the heading of its own group, rendered with that group's widget |
| Render.SectionsPlaceName | script.js:123-132 | for any classifier, a name sent to a group of the order is an item of that group's section |
| Render.SectionsShowGroups | script.js:123-132 | for any classifier, the names shown are the groups' lists, one after another, and no section is empty |
| Render.GroupedViewShowsValidNames | script.js:108-132 | the grouped view gives each non-blank name one list item per time it was listed, and lists nothing else |
| Render.WidgetByGroup | script.js:132-216 | a name that is not blank has a group, and its item fetches `currentPath/name`. Condor Club shows a results link (`.txt`) or an inline image, never an empty item. Images are inline. Every other group shows a link with the folder view's click action |
| Render.RenderTreeView | script.js:226-292 | a file gives `NotAFolder`. A folder is grouped exactly when every entry is a file, and then it is the grouped view of its entry names in key order; otherwise it is a listing with one item per entry |
| Render.FolderOfFilesShowsItsNames | script.js:229-233 | a folder of files only is grouped, and it lists exactly its non-blank entry names, each as often as it occurs |
| Render.ViewChoice | script.js:229-288 | grouped view exactly when every entry is a file (an empty folder gives no section). Otherwise every entry is listed in key order: a file with its key and click action, a folder with `'/' + fullPath` |
| Render.EmptySections | script.js:123-124 | groups that are all empty or absent show no section |
| Render.SectionsAppend | script.js:123-124 | the sections of two runs of groups are those of the first run, then those of the second |
| Render.RenderFileTree | script.js:314-331 | with no key list, the page is "No files found". Otherwise the breadcrumbs are the trail of the parsed parts, and the view is that of the subtree of the built tree at those parts |
| Render.ExampleTreeShape | script.js:21-38 | three keys under one folder, two sharing a sub-folder, build two sub-folders in key order |
| Render.ExampleGroups | script.js:65-103 | two names sent to different groups make two one-name lists and leave the rest empty |
| Render.ExampleSections | script.js:113-132 | a workbook and a photo render a Summary xlsx section, then an Images section |
| Render.ExampleGroupedView | script.js:229-233 | a folder of a workbook and a photo shows a download link under Summary xlsx and an inline image under Images |
| Render.ThreeSegmentKey | script.js:24 | a key of three `/`-free segments splits into them |
| Render.ExampleResolve | script.js:41-51 | walking `2024/day1` reaches the `day1` folder |
| Render.ExampleTree | script.js:21-51 | the keys `2024/day1/summary.xlsx`, `2024/day1/photo.jpg` and `2024/day2/results.zip` build `2024` holding `day1` and `day2`, and walking `2024/day1` reaches its two files |
| Render.ExampleDayView | script.js:226-233 | at `2024/day1`, the workbook is a download under Summary xlsx, and the photo is inline under Images |

## Left out

- Network: `fetchFileList` and every `fetch`, `.json()`, `.blob()` and `.text()` are outside the model. `RenderFileTree` takes the key list as a parameter, with `None` for a failed fetch or a reply without keys. The click actions are named, not performed.
- DOM and browser effects: element creation, `innerHTML`/`innerText`, `window.open`, `window.location` and object URLs. Pages, sections and links are values. The location path is a parameter.
- Render.FolderLinkGoesOneLevelDown: speaks of the href string, not of the location a browser makes of it. A browser percent-encodes the href, so a folder named `day 1` arrives as `day%201`, which `getSubtree` does not find; a `#` or `?` in a name cuts the path. The model assumes names that need no encoding.
- Asynchrony: the `async` click handlers and the `DOMContentLoaded` hook.
- Logging: `console.error` for a blank name is the name being dropped; `console.log` is not modelled.
- `encodeURIComponent`: an item carries the store key it fetches (`FullPath`) before encoding; the worker URL is not part of the model.
- The `typeof fileName !== 'string'` test: every input here is a string, so only the blank test remains.
- `Strings.ToLower`: lowers ASCII letters only, not full Unicode case mapping.
- `Strings.IsWhiteSpace`: a fixed set of white space and line terminator characters, not the Unicode category.
- `Object.keys` order: integer-like keys are not moved first. Folders keep plain insertion order.
- Keys such as `constructor` or `__proto__`, which an object can inherit, are not modelled. A folder holds only its own keys.
- `FileTree.InsertKey`: the in-place writes through the shared `current` reference are replayed on values. The resulting tree is the same, but aliasing between folders is not modelled.
- The Race Results link of a Condor Club `.txt`, which navigates to the URL stored in the file, is named (`RaceResultsLink`) but not followed.
- The inline images' `alt` text and size limit are not modelled.
