# arch-backup: a verified model of the package-list backup

`backup.js` records which Arch Linux packages a machine has installed.
It runs `pacman -Qge` to learn which packages came in through groups.
It runs `pacman -Qeim` and `pacman -Qein` to read the records of the
explicitly installed packages from the AUR and from the official
repositories. It writes the group names to `grouplist`. It writes to
`pkglist` the explicitly installed packages that no group brought in.
It then reports `git diff --numstat` for each file.

This project models that text processing in Dafny and proves what it
does:

- `js_string.dfy` (module `JsString`) holds the JavaScript string
  operations the script relies on: `trim()`, `split` with a string
  separator, `split(/\s+/)` and `join`, with their round trips.
- `helpers.dfy` (module `Helpers`) holds `_groupBy`, `_mapValues` and
  `_flat`. A plain JavaScript object is modelled as `Obj`: the keys in
  insertion order plus a map from each key to its value. `_groupBy` and
  `_mapValues` update an object step by step, so they are methods with
  loops. Each is proved equal to a function (`Grouped`, `MapObj`), and
  the grouping properties are lemmas about that function.
- `package_info.dfy` (module `PackageInfo`) holds `_parsePackageInfo`.
  It is a method with a loop, proved equal to the fold `InfoOf`, with
  lemmas on field names, "last line wins" and values cut at a second `:`.
- `git_diff.dfy` (module `GitDiff`) holds the token parse inside
  `_gitDiff`.
- `backup.dfy` (module `Backup`) holds the pipelines of
  `backupPackageLists`:
  - the group listing;
  - the record blocks and their names;
  - the filter that builds `explicitly`;
  - the text written to each file.

  The method `BackupPackageLists` runs the pipelines by calling the
  imperative helpers. It is proved to produce the contents the pipeline
  functions describe.

JavaScript's `undefined` is `Option.None`. It appears in three places:

- the package of a `pacman -Qg` line with a single word;
- the `Name` of a record block without such a field;
- the `Name` of a record block whose last line naming `Name` has no `:`.
  The field then exists, and its value is `undefined`
  (`PackageInfo.EntryWithoutColon`).

Writing `undefined` into a file produces the text `undefined`.

## Model

| member | source | states |
|---|---|---|
| JsString.Trim | backup.js:51 | the result neither starts nor ends with white space, holds only characters of the input, and is the input itself when that has no white space |
| JsString.TrimKeepsMiddle | backup.js:51 | the result is the slice of the input that starts right after the leading white space, and only white space lies before and after it, so inner white space is kept |
| JsString.TrimIdempotent | backup.js:38 | trimming a trimmed string changes nothing |
| JsString.SplitOn | backup.js:36 | `split` with a string separator always yields at least one piece; for a separator of any length, `SplitOnFirst` states that it cuts at the leftmost occurrence and `SplitOnNone` that a text without it stays whole |
| JsString.SplitOnNone | backup.js:59 | a text in which the separator never occurs, whatever its length, splits into itself alone |
| JsString.SplitOnFirst | backup.js:59 | for a separator of any length, a piece in which the separator does not start, followed by the separator, is cut off whole as the first piece, and the rest is split on its own |
| JsString.JoinSplitOn | backup.js:52 | joining the pieces of a split with the separator gives back the text |
| JsString.SplitOnChars | backup.js:37 | every character of a piece comes from the split text |
| JsString.SplitOnCharPieces | backup.js:36 | no piece of a split at a one-character separator contains that character |
| JsString.SplitOnNoChar | backup.js:37 | a text without the separator splits into itself alone |
| JsString.SplitOnCharPrefix | backup.js:37 | a separator-free prefix followed by the separator is cut off whole as the first piece |
| JsString.SplitOnJoin | backup.js:74 | joining separator-free pieces and splitting again gives back the pieces |
| JsString.SplitWs | backup.js:53 | `split(/\s+/)` yields at least one piece and no piece holds white space |
| JsString.SplitWsPrefix | backup.js:53 | a word followed by white space is the first piece and the white-space run vanishes |
| JsString.SplitWsTwoWords | backup.js:45 | two words each followed by white space are the first two pieces |
| JsString.SplitWsWord | backup.js:45 | a single word splits into itself alone |
| JsString.SplitWsBlank | backup.js:45 | text made only of white space splits into `[""]` when it is empty and into `["", ""]` otherwise |
| Helpers.GroupBy | backup.js:14-22 | the loop over the items builds exactly the object `Grouped` describes |
| Helpers.GroupedSpec | backup.js:14-22 | the keys are the distinct item keys in order of first appearance; a key is present exactly when some item has it; its bucket is exactly the items with that key, in input order |
| Helpers.GroupedKeys | backup.js:15-19 | the result is a well-formed object whose keys are exactly the keys of the items |
| Helpers.GroupedPartition | backup.js:18-19 | each bucket holds exactly the items with its key, every item is in its own key's bucket, and no bucket is empty |
| Helpers.GroupedKeyOrder | backup.js:16-19 | the keys appear in the order in which they first occur among the items |
| Helpers.GroupedSizes | backup.js:14-22 | reading all buckets in key order yields the items rearranged, each exactly once |
| Helpers.GroupedCount | backup.js:14-22 | the bucket sizes sum to the number of items |
| Helpers.FlatGrouped | backup.js:55-56 | flattening the buckets in key order, each mapped element by element, yields every item's image exactly once |
| Helpers.FirstSeen | backup.js:18-19 | the distinct elements, without repeats, with the same membership as the input |
| Helpers.FirstSeenOrder | backup.js:18-19 | the distinct elements are listed in the order of their first occurrences |
| Helpers.GatherGrouped | backup.js:54-56 | reading the buckets of the first-seen keys one after the other is a permutation of the items |
| Helpers.MapValues | backup.js:24-30 | same keys in the same order, each value replaced by its image, and a well-formed result |
| Helpers.MapObj | backup.js:24-30 | mapping the values of a well-formed object gives a well-formed object |
| Helpers.Flat | backup.js:32 | an element is in the flattened array exactly when it is in one of the arrays |
| Helpers.FlatConcat | backup.js:32 | flattening two non-empty lists of arrays one after the other gives the two flattened results concatenated |
| Helpers.FlatPair | backup.js:69 | flattening two arrays concatenates them |
| Helpers.FlatBuckets | backup.js:56 | flattening the mapped buckets of a list of keys reads them back one after the other |
| Helpers.Grouped | backup.js:14-22 | the object built is well formed, and has a key as soon as there is an item |
| PackageInfo.InfoOf | backup.js:35-39 | the record built line by line is a well-formed object |
| PackageInfo.ParsePackageInfo | backup.js:34-41 | the loop over the lines builds exactly the record `ParsedInfo` describes |
| PackageInfo.InfoKeys | backup.js:36-39 | the field names are the trimmed parts before the first `:`, each once, in order of first appearance; a field exists exactly when a line names it |
| PackageInfo.LastWins | backup.js:39 | the value of a field is the value on the last line that names it |
| PackageInfo.EntryOfPair | backup.js:37-39 | a line `k:v` gives the field `trim(k)` the value `trim(v)` |
| PackageInfo.EntryTruncated | backup.js:37-39 | in a line `k:v:rest` everything after the second `:` is dropped |
| PackageInfo.EntryWithoutColon | backup.js:39 | a line without `:` names the field `trim(line)` and gives it the value `undefined` |
| PackageInfo.EntryKey | backup.js:37-38 | computes the trimmed part of a line before its first `:`; `EntryOfPair`, `EntryTruncated`, `EntryWithoutColon` and `EntryNoColon` state what it yields |
| PackageInfo.EntryValue | backup.js:37-39 | computes the trimmed part between the first and the second `:`, `undefined` when there is none; `EntryHasValue`, `EntryOfPair`, `EntryTruncated` and `EntryNoColon` state what it yields |
| PackageInfo.EntryHasValue | backup.js:37-39 | a line has a value exactly when it holds a `:` |
| PackageInfo.EntryNoColon | backup.js:37-38 | neither a field name nor a value holds a `:` |
| PackageInfo.EntryValueChars | backup.js:37-38 | a value holds only characters of its line |
| PackageInfo.InfoValuesOneLine | backup.js:36-39 | when the lines hold no newline, no value does |
| PackageInfo.Field | backup.js:62 | `i.Name`: the field's value, `undefined` when the record lacks it; `NameFromLine` and `NameMissing` state both cases for `Name` |
| PackageInfo.NameOf | backup.js:61-62 | the `Name` of one record block; `NameFromLine`, `NameMissing` and `Backup.InstalledNamesOneLine` state what it yields |
| PackageInfo.NameFromLine | backup.js:62 | `i.Name` is the value of the last line naming `Name` |
| PackageInfo.NameMissing | backup.js:62 | a block with no line naming `Name` has the name `undefined` |
| GitDiff.ToNumber | backup.js:45 | a non-zero result comes only from a non-empty token of decimal digits |
| GitDiff.Decimal | backup.js:44 | the printed form of a count is a non-empty string of digits |
| GitDiff.DecimalRoundTrip | backup.js:45 | a printed count reads back as itself |
| GitDiff.DiffStat | backup.js:44-46 | the first two white-space-separated tokens read as counts, each 0 when missing or not a number; `DiffStatWords`, `DiffStatNumstat`, `DiffStatOneWord`, `DiffStatEmpty`, `DiffStatBlank` and `DiffStatBinary` state the cases |
| GitDiff.DiffStatWords | backup.js:44-46 | the first two words give `a` and `d` |
| GitDiff.DiffStatNumstat | backup.js:44-46 | a numstat line `a`, white space, `d`, white space, anything gives back `{a, d}` |
| GitDiff.DiffStatOneWord | backup.js:44 | with a single word, `d` defaults to 0 |
| GitDiff.DiffStatEmpty | backup.js:44-46 | empty output gives `{0, 0}` |
| GitDiff.DiffStatBlank | backup.js:44-46 | output made only of white space gives `{0, 0}` |
| GitDiff.DiffStatBinary | backup.js:45 | the `-` columns of a binary file count as 0 |
| GitDiff.DiffStatExample | backup.js:44-46 | the line `3`, tab, `1`, tab, `grouplist`, newline, as `git diff --numstat` prints it, gives `{3, 1}` |
| Backup.GroupRows | backup.js:51-53 | the trimmed output cut into lines and each line into words; `GroupsAreWords` and `PackagesInGroupCount` state what the rows give |
| Backup.PackageOf | backup.js:55 | the second word of a line, `undefined` for a one-word line; `ListGroupsEmpty` shows the `undefined` case and `PackagesInGroupOrder` how the packages are collected |
| Backup.GroupOf | backup.js:54 | `l => l[0]`: the first word of a line; `GroupsOfListing` states that the groups are these first words |
| Backup.Members | backup.js:55 | `l => l.map(([, p]) => p)`: the package of each line of a group, in order; `PackagesInGroupOrder` states how they make up `pkgsInGroup` |
| Backup.ListGroups | backup.js:50-56 | the pair `[groups, pkgsInGroup]`; `GroupsOfListing`, `GroupsAreWords`, `PackagesInGroupOrder`, `PackagesInGroupCount` and `ListGroupsEmpty` state its properties |
| Backup.GroupsOfListing | backup.js:50-56 | `groups` is the first words of the lines, without repeats, in order of first appearance; a group is listed exactly when some line starts with it |
| Backup.GroupsAreWords | backup.js:53 | no group name holds white space |
| Backup.PackagesInGroupOrder | backup.js:54-56 | `pkgsInGroup` lists the second words group by group, in the order of `groups`, keeping line order within each group |
| Backup.PackagesInGroupCount | backup.js:50-56 | `pkgsInGroup` has one entry per output line and is a rearrangement of the lines' second words |
| Backup.ListGroupsEmpty | backup.js:50-56 | empty output yields the single group `""` with one `undefined` package |
| Backup.NonEmpty | backup.js:60 | `.filter(i => i)` on strings; `NonEmptyMembers` states that it keeps exactly the non-empty ones, `NonEmptyAppend` that it keeps their order and `NonEmptyCounts` that it keeps every copy |
| Backup.Blocks | backup.js:59-60 | the non-empty pieces of the output cut at each `\n\n`, leftmost first; `BlocksCons` and `BlocksNone` state where the cuts fall, `BlocksExample` that `"a\n\n\nb"` gives `a` and `\nb`, and `NonEmptyMembers`, `NonEmptyAppend` and `NonEmptyCounts` that exactly the non-empty pieces are kept, in output order, every copy |
| Backup.BlocksCons | backup.js:59-60 | a non-empty block in which no `\n\n` starts, followed by `\n\n`, is the first block, and the rest of the output is cut on its own |
| Backup.BlocksNone | backup.js:59-60 | non-empty output without `\n\n` is one single block |
| Backup.BlocksExample | backup.js:59-60 | a run of three newlines is cut at its first two: `"a\n\n\nb"` gives the blocks `a` and `\nb` |
| Backup.NonEmptyAppend | backup.js:60 | filtering a concatenation filters each part and keeps the parts in order |
| Backup.NonEmptyCounts | backup.js:60 | an empty string is dropped every time, and any other string keeps every copy |
| Backup.InstalledNames | backup.js:58-62 | the `Name` of each record block in order; `ReadNames` is proved to compute it and `InstalledNamesOneLine` states that every name fits on one line |
| Backup.NonEmptyMembers | backup.js:60 | the filter keeps exactly the non-empty blocks |
| Backup.ReadNames | backup.js:58-62 | the loop over the blocks yields the `Name` of each record, in order |
| Backup.Without | backup.js:69 | no kept package is excluded and the list does not grow; `WithoutMembers`, `WithoutAppend`, `WithoutCounts` and `WithoutIdempotent` state the rest |
| Backup.WithoutMembers | backup.js:69 | a package is kept exactly when it is listed and not in a group |
| Backup.WithoutAppend | backup.js:69 | filtering keeps the relative order of the packages |
| Backup.WithoutCounts | backup.js:69 | a kept package keeps every copy, so nothing is deduplicated |
| Backup.WithoutIdempotent | backup.js:69 | filtering twice is filtering once |
| Backup.Explicitly | backup.js:69 | no package of `explicitly` is in a group, and it is no longer than the two lists together; `ExplicitlySpec` states the order and the membership |
| Backup.ExplicitlySpec | backup.js:69 | the AUR packages come first, then the repository packages; a package is listed exactly when installed and in no group, as often as installed |
| Backup.ExplicitlyIdempotent | backup.js:69 | filtering `explicitly` again changes nothing |
| Backup.ExplicitlyExample | backup.js:69 | `yay` from the AUR stays, `bash` from the `base` group goes, `vim` stays |
| Backup.ExplicitlyKeepsDuplicates | backup.js:69 | a package installed from both sources is listed twice |
| Backup.Show | backup.js:74 | `i + '\n'` prints a name as itself and `undefined` as the text `undefined`; `PackageListRoundTrip` states that `pkglist` reads back as the shown names |
| Backup.Text | backup.js:74 | an empty list gives the empty text; otherwise the text ends with a newline |
| Backup.TextIsJoin | backup.js:74 | the text is the names joined by newlines, followed by a final newline |
| Backup.TextRoundTrip | backup.js:74 | names without a newline are read back exactly as written |
| Backup.PackageList | backup.js:58-69 | `explicitly` as computed from the three command outputs: the filter of `Explicitly` over the names read from the AUR and repository records, against `pkgsInGroup`; `PackageListOneLine` and `PackageListRoundTrip` state its properties |
| Backup.GroupListFile | backup.js:73-74 | the text of `grouplist`: each group followed by a newline; `GroupListRoundTrip` states that it reads back as `groups` |
| Backup.PackageListFile | backup.js:73-74 | the text of `pkglist`: each entry of `explicitly`, `undefined` as text, followed by a newline; `PackageListRoundTrip` states that it reads back as those entries |
| Backup.BackupPackageLists | backup.js:49-81 | run on the three command outputs, `GroupBy`, `MapValues` and `ReadNames` produce exactly `GroupListFile` and `PackageListFile` |
| Backup.InstalledNamesOneLine | backup.js:58-62 | every name read from a record fits on one line |
| Backup.GroupListRoundTrip | backup.js:73-74 | reading `grouplist` back gives `groups` |
| Backup.PackageListOneLine | backup.js:69 | every package written to `pkglist` fits on one line |
| Backup.ShowOneLine | backup.js:74 | a name without a newline, and `undefined`, are written without a newline |
| Backup.PackageListRoundTrip | backup.js:73-74 | reading `pkglist` back gives the explicitly installed packages |

## Left out

- Running `pacman` and `git` (`_exec`, backup.js:11-12), writing the files (`_writeFile`, backup.js:10, 75-76), console output (`_println`, `_log`), `Promise.all` and the command-line dispatch (backup.js:83-89): these are process, file system and concurrency effects. The command outputs are parameters and the file contents are results.
- The 2 MiB `maxBuffer` limit of `_exec`: larger outputs make the real script fail, and the model has no such limit.
- `_groupBy` with a `keyMap` that is not a function (backup.js:17): the script always passes a function, so only that branch is modelled.
- `Obj` keeps keys in insertion order. JavaScript lists integer-like keys (such as a group named `123`) first, in ascending order. The model does not.
- Keys that clash with `Object.prototype` (such as `constructor` or `__proto__`) behave specially with `in` and assignment in JavaScript. The model treats every key as an ordinary one.
- GitDiff.ToNumber: `+tok` is modelled for decimal digit strings only. Forms such as `0x10`, `1e3` or `Infinity` read as 0 in the model, not as JavaScript numbers. Counts are unbounded integers rather than doubles.
- Helpers.Flat: `[].concat.call()` with no arrays throws in JavaScript. The model requires at least one array. Every call in the script passes one.
- In backup.js:73-80 the value returned to the caller and the `_gitDiff` calls on the written files are not composed into `BackupPackageLists`. `GitDiff.DiffStat` models the parse on its own, with the `git diff` output as a parameter.
- Deduplication: the filter at backup.js:69 keeps every copy of a package that appears in both lists, or twice in one. A reading of the tool in which the explicit list is deduplicated does not match the code, and the model follows the code (`Backup.WithoutCounts`, `Backup.ExplicitlyKeepsDuplicates`).
