# zim_updater — a verified model of its decision logic

`zim_updater.py` is a command-line tool that keeps a directory of Kiwix
archives ("zims", files named `<canonical>_<YYYY-MM>.zim`) up to date:

- `update` reads the Kiwix OPDS catalog (an Atom feed), finds the local
  archives that have a newer version in the catalog, and downloads a torrent
  file for each;
- `clean` finds local archives that are present in several versions and
  deletes all but the newest.

This project models the deterministic core of both commands: the naming
convention, the date parsing and comparison, the catalog lookup, the choice
of updated entries and their torrent links, the grouping of duplicates with
the stable newest-first sort, and the list of files `clean` deletes. Each
module follows one part of the program:

| module | models |
|---|---|
| `Wrappers` | `Option` and `Result`; `Err` stands for a raised `ValueError` |
| `PyStr` | `str.split`, `str.join`, `[-1]`, `[:-1]`, `str.endswith`, `str.replace` |
| `Calendar` | `datetime.strptime` for `%Y-%m` and `%Y-%m-%d`, `date.toordinal`, the proleptic Gregorian calendar of years 1–9999 |
| `NameCodec` | `strip_date_from_file_name`, `get_file_name_issued_date` |
| `CatalogIndex` | catalog entries, `get_element_file_name`, `get_element_issued_date`, `get_element_by_file_name`, `torrent_link_for_element` |
| `Collections` | dict comprehensions (a later key overwrites an earlier one), sequences without repetitions, and a loop that gathers values and stops at the first step that raises |
| `UpdateReconciler` | `element_newer_than_file`, `get_updated_elements`, `get_torrents_from_elements`, and the pure part of `find_updates` |
| `StableSort` | `sorted(..., key=k, reverse=True)`: descending, stable |
| `DuplicateResolver` | the `.zim` filter of `list_zims_in_path`, `list_old_zims`, and the deletion list built in `clean` |

A catalog entry is a record of the three strings the program reads from it:
the `issued` text, the `href` of the `text/html` link and the `href` of the
`application/x-zim` link. The catalog is the sequence of entries in document
order. A Python dict is modelled as a sequence in insertion order when the
model iterates it (`stripped_map`, `olds`), and as a `map` otherwise: for
`stripped_date_map`, which is only looked up, and for the returned torrent
map, whose key order is used only by the download step (see "## Left out").
Loops that build values step by step (`get_element_by_file_name`,
`get_updated_elements`, both loops of `list_old_zims`, the `extend` loop of
`clean`) are methods with loop invariants. Each is proved equal to a
function, and the properties are proved as lemmas about that function.

Dates are compared by day number. Both sides of the subtraction in
`element_newer_than_file` are at midnight, so "more than 31 days" is a
comparison of `toordinal()` values. `NewerByMonths` restates the rule in
calendar terms. An entry issued in the local file's month, or earlier, is
never newer. One issued two or more months later always is. One issued in
the next month is newer exactly when its day is past
`32 - (length of the local file's month)`.

## Model

| member | source | states |
|---|---|---|
| PyStr.Split | zim_updater.py:36 | `split` on a one-character separator gives at least one piece and no piece contains the separator |
| PyStr.JoinSplit | zim_updater.py:41 | joining the pieces of a split with the same separator gives the string back |
| PyStr.SplitAround | zim_updater.py:41 | splitting `a + sep + b` gives the pieces of `a` followed by those of `b` |
| PyStr.SplitLength | zim_updater.py:41 | the separator occurs in a string exactly when it splits into two or more pieces |
| PyStr.JoinSnoc | zim_updater.py:41 | joining two or more pieces puts the separator before the last piece |
| PyStr.ReplaceAbsent | zim_updater.py:56 | `replace` leaves a string without the pattern unchanged |
| PyStr.ReplaceAround | zim_updater.py:56 | when `pat` does not occur in `a` and its first character does not recur in it, `replace` on `a + pat + b` gives `a + rep` followed by `replace` on `b`: every occurrence is replaced, from left to right |
| PyStr.Join | zim_updater.py:41 | models `sep.join(parts)`; its properties are `JoinSplit` and `JoinSnoc` |
| PyStr.Replace | zim_updater.py:56 | models `s.replace(pat, rep)` as a left-to-right scan; its properties are `ReplaceAbsent` and `ReplaceAround` |
| Calendar.Ordinal | zim_updater.py:71 | models `date.toordinal()` (1 January of year 1 is day 1); its properties are `DaysBeforeNextYear`, `MonthStartIsOrdinal` and the month lemmas below |
| Calendar.DaysInMonth | zim_updater.py:71 | every month has 28 to 31 days |
| Calendar.DaysBeforeNextYear | zim_updater.py:71 | the `toordinal` year offsets grow by exactly the length of each year (365, or 366 in a leap year) |
| Calendar.NextMonthStart | zim_updater.py:71 | the first of the next month is the first of this month plus the length of this month, across a year's end too |
| Calendar.MonthStartIsOrdinal | zim_updater.py:71 | counting month lengths forward from January of year 1 gives the `toordinal` of each month's first day |
| Calendar.MonthsLater | zim_updater.py:71 | `n` months span between `28n` and `31n` days |
| Calendar.OrdinalWithinMonth | zim_updater.py:71 | a valid date's day number lies between its month's first day and the next month's first day |
| Calendar.EarlierMonthEarlierDay | zim_updater.py:71 | a date in an earlier month has a smaller day number |
| Calendar.NotLaterMonthDays | zim_updater.py:71 | a date no later in the month sequence than the first of a month is at most 30 days after that first |
| Calendar.NextMonthDays | zim_updater.py:71 | a date in the next month is `(length of the month) + day - 1` days after the first of the month |
| Calendar.LaterMonthDays | zim_updater.py:71 | a date two or more months later is at least 56 days after the first of the month |
| Calendar.ParseYearMonth | zim_updater.py:61 | a successful `strptime(s, "%Y-%m")` gives a valid date on the first of its month |
| Calendar.ParseDate | zim_updater.py:29 | a successful `strptime(s, "%Y-%m-%d")` gives a valid date (the day exists in that month) |
| Calendar.YearFieldPad4 | zim_updater.py:61 | `%Y` reads a four-digit zero-padded year back |
| Calendar.MonthFieldSpelling | zim_updater.py:61 | `%m` reads every spelling of a month (two digits, or one below 10) back whole, when the end or a `-` follows |
| Calendar.DaySpellingRead | zim_updater.py:29 | `%d` reads every spelling of a day (two digits, or below 10 one digit alone or after a space) back whole |
| Calendar.ParseYearMonthOfSpelling | zim_updater.py:61 | `%Y-%m` parses every spelling of a month back to its first day |
| Calendar.ParseDateOfSpelling | zim_updater.py:29 | `%Y-%m-%d` parses every spelling of a valid date back to that date |
| Calendar.ParseFormatYearMonth | zim_updater.py:61 | `%Y-%m` parses the canonical `YYYY-MM` spelling of every month back to its first day |
| Calendar.ParseFormatDate | zim_updater.py:29 | `%Y-%m-%d` parses the canonical `YYYY-MM-DD` spelling of every valid date back to that date |
| Calendar.YearFieldSpelled | zim_updater.py:61 | the four characters `%Y` reads are the zero-padded spelling of the year it returns |
| Calendar.MonthFieldSpelled | zim_updater.py:61 | the characters `%m` reads are a spelling of the month it returns |
| Calendar.DayFieldSpelled | zim_updater.py:29 | the characters `%d` reads are a spelling of the day it returns |
| Calendar.ParseYearMonthSpelled | zim_updater.py:61 | every string `%Y-%m` accepts is four year digits, `-` and a spelling of the month; with `ParseYearMonthOfSpelling`, these are exactly the accepted strings |
| Calendar.ParseDateSpelled | zim_updater.py:29 | every string `%Y-%m-%d` accepts is four year digits, `-`, a month spelling, `-` and a day spelling; with `ParseDateOfSpelling`, these are exactly the accepted strings |
| NameCodec.StripDate | zim_updater.py:39-41 | the canonical name is a prefix of the name, and empty for a name without `_` |
| NameCodec.VersionSegment | zim_updater.py:61 | the version segment is the end of the name and holds no `_` |
| NameCodec.FileNameIssuedDate | zim_updater.py:59-61 | the local version is the last `_`-segment read as a month: success gives a valid first-of-month date, failure is the error for that name |
| NameCodec.StripDateOfVersioned | zim_updater.py:39-41 | `c + "_" + v` with `v` free of `_` has canonical name `c` and version segment `v` |
| NameCodec.StripDateOfUnversioned | zim_updater.py:39-41 | a name without `_` has the empty canonical name and is all version segment |
| NameCodec.NameSplitsAtLastUnderscore | zim_updater.py:39-41 | a name with a `_` is its canonical name, `_`, and a version segment free of `_`: the split is at the last `_` |
| NameCodec.LocalFileNameRoundTrip | zim_updater.py:59-61 | the name `c_YYYY-MM` of a month's archive decodes to canonical name `c` and to that month's first day |
| NameCodec.FileNameVersionSpelled | zim_updater.py:59-61 | a name whose version parses has as last segment a spelling of that month: any other last segment raises |
| NameCodec.FileNameIssuedDateOfSpelling | zim_updater.py:59-61 | a name whose last segment spells a month is read as the first of that month |
| CatalogIndex.ElementFileName | zim_updater.py:32-36 | the file name of an entry holds no `/` |
| CatalogIndex.ElementFileNameOfPath | zim_updater.py:32-36 | the file name of a link `dir/file` is `file` |
| CatalogIndex.EntryCanonicalName | zim_updater.py:47-48 | models `strip_date_from_file_name(get_element_file_name(e))`, also used at lines 92 and 133-134; its properties are those of `StripDate` and `ElementFileName` |
| CatalogIndex.Matches | zim_updater.py:47-49 | models the comparison of `get_element_by_file_name`: an entry answers for a local name when their canonical names are equal; `LookupFirstMatch` and `Lookup` state what the scan finds with it |
| CatalogIndex.ElementIssuedDate | zim_updater.py:26-29 | the issued date is a valid date, or the error naming the entry's `issued` text |
| CatalogIndex.IssuedDateOfStamp | zim_updater.py:26-29 | a stamp `YYYY-MM-DDT<time>` is read as that calendar day, whatever the time part |
| CatalogIndex.FindEntry | zim_updater.py:44-50 | the scan with early return gives the first entry whose canonical name is the local name's, or none |
| CatalogIndex.LookupFirstMatch | zim_updater.py:44-50 | nothing is found exactly when no entry matches; what is found is the first matching entry in document order |
| CatalogIndex.Lookup | zim_updater.py:44-50 | a found entry is in the catalog and matches the name it was looked up by; `LookupFirstMatch` adds that it is the first one |
| CatalogIndex.TorrentLink | zim_updater.py:53-56 | models `torrent_link_for_element` as `replace` on the x-zim link; its properties are the three lemmas below |
| CatalogIndex.TorrentLinkAround | zim_updater.py:53-56 | the first `.meta4` of a link becomes `.torrent` and the rest of the link is rewritten the same way, so every `.meta4` is replaced |
| CatalogIndex.TorrentLinkOfMetalink | zim_updater.py:53-56 | a Metalink link `p.meta4` becomes `p.torrent` |
| CatalogIndex.TorrentLinkWithoutMetalink | zim_updater.py:53-56 | a link without `.meta4` is returned unchanged |
| UpdateReconciler.ElementNewerThanFile | zim_updater.py:64-71 | a malformed local name raises before the entry is read, a malformed `issued` text raises next, and the test answers exactly when both dates parse |
| UpdateReconciler.NewerByMonths | zim_updater.py:64-71 | the 31-day rule in calendar terms: never newer in the same or an earlier month, always newer two or more months later, newer in the next month exactly when the day is past `32 - (month length)` |
| UpdateReconciler.NewerExample | zim_updater.py:64-71 | an entry issued 2023-07-05 is newer than `wiki_en_2023-06` (34 days) and not newer than `wiki_en_2023-07` (4 days) |
| UpdateReconciler.Verdict | zim_updater.py:79-84 | one iteration of the loop: a name no entry answers for is skipped, and a selected entry is in the catalog and answers for the name |
| UpdateReconciler.UpdatedElements | zim_updater.py:74-86 | models the result of `get_updated_elements` as the verdicts gathered in name order; its properties are the `UpdatedElements` lemmas below |
| UpdateReconciler.GetUpdatedElements | zim_updater.py:74-86 | the loop over the local names computes the updated entries, or the error of the first failing comparison |
| UpdateReconciler.UpdatedElementsFails | zim_updater.py:74-86 | the run fails exactly when the comparison of some local name with its entry fails |
| UpdateReconciler.UpdatedElementsFirstFailure | zim_updater.py:74-86 | a failed run reports the error of the first local name whose comparison fails, and no earlier one fails |
| UpdateReconciler.UpdatedElementsSelect | zim_updater.py:74-86 | a successful run lists, in the order of the local names, exactly the entries newer than their name; every other name has no entry or an entry that is not newer |
| UpdateReconciler.UpdatedElementsAnswer | zim_updater.py:79-84 | every updated entry has the canonical name of some local name |
| UpdateReconciler.TorrentsFromElements | zim_updater.py:89-94 | models the dict comprehension of `get_torrents_from_elements`; its properties are the two lemmas below |
| UpdateReconciler.TorrentsFromElementsKeys | zim_updater.py:89-94 | the torrent map's keys are exactly the canonical names of the updated entries |
| UpdateReconciler.TorrentsFromElementsLastWins | zim_updater.py:89-94 | each key holds the torrent link of the last entry with that canonical name |
| UpdateReconciler.StrippedDateMap | zim_updater.py:128 | models `stripped_date_map`, canonical name to the last local name with it; see `FindUpdatesReport` |
| UpdateReconciler.ReportLines | zim_updater.py:132-138 | one summary line per updated entry; `ReportLinesAt` states what each line holds |
| UpdateReconciler.FindUpdates | zim_updater.py:128-139 | models the pure part of `find_updates`: the summary lines and the torrent map, or the error of `get_updated_elements`; see `FindUpdatesReport` |
| UpdateReconciler.UpdatedInStrippedMap | zim_updater.py:128-135 | the lookup `stripped_date_map[canonical_name]` never misses |
| UpdateReconciler.ReportLinesAt | zim_updater.py:132-138 | line `i` of the summary holds the canonical name of the `i`-th updated entry, the version of its local file and the catalog's version |
| UpdateReconciler.FindUpdatesReport | zim_updater.py:128-139 | one summary line per updated entry, in order, each naming the entry's version and that of the last local file with its canonical name; the returned map has a key for exactly the reported names |
| UpdateReconciler.ReportedTorrents | zim_updater.py:132-139 | the torrent map's keys are the canonical names in the summary |
| Collections.DictFrom | zim_updater.py:91-94 | models a dict comprehension, here and at line 128, as a `map`; its properties are `DictFromKeys` and `DictFromLastWins` |
| Collections.Collect | zim_updater.py:76-85 | models a loop that gathers values and stops at the first step that raises, here and at lines 160-165; its properties are `CollectFails`, `CollectFirstFailure` and `CollectOk` |
| Collections.DictFromKeys | zim_updater.py:91-94 | a dict comprehension has a key exactly for each element's key |
| Collections.DictFromLastWins | zim_updater.py:128 | a dict comprehension holds the value of the last element with each key |
| Collections.CollectFails | zim_updater.py:76-85 | a loop that stops at a raising step fails exactly when some step raises |
| Collections.CollectFirstFailure | zim_updater.py:76-85 | it reports the error of the first raising step |
| Collections.CollectOk | zim_updater.py:76-85 | a successful run holds, in step order, exactly the values the steps found |
| StableSort.SortedBy | zim_updater.py:162-164 | models `sorted(names, key=f, reverse=True)` as the descending insertion sort on the names paired with their keys; it returns as many names as it is given, and its properties are the `SortedBy` lemmas below |
| StableSort.SortDescCorrect | zim_updater.py:162-164 | the descending sort is ordered, a permutation, and keeps the input order of equal keys |
| StableSort.SortedByPermutes | zim_updater.py:162-164 | `sorted(names, key=f, reverse=True)` is a permutation of `names` |
| StableSort.SortedByFirstIsMax | zim_updater.py:162-164 | its first name has the largest key |
| StableSort.SortedByOrdered | zim_updater.py:162-164 | its keys do not increase |
| StableSort.SortedByStable | zim_updater.py:162-164 | names with equal keys keep their input order |
| DuplicateResolver.ZimNames | zim_updater.py:149 | models the `.zim` filter of `list_zims_in_path`; its properties are the three lemmas below |
| DuplicateResolver.ZimNamesMembers | zim_updater.py:149 | a name is listed exactly when the directory holds that name plus `.zim` |
| DuplicateResolver.ZimNamesDistinct | zim_updater.py:149 | distinct file names give distinct local names |
| DuplicateResolver.ZimNamesExample | zim_updater.py:149 | two `.zim` files and a text file give the two names without suffix, in directory order |
| DuplicateResolver.GroupByCanonical | zim_updater.py:155-158 | the grouping loop gives each canonical name the list of its local names in order, with the keys in order of first appearance |
| DuplicateResolver.WithCanonical | zim_updater.py:155-158 | models `stripped_map[c]`, the local names with canonical name `c` in order; see `WithCanonicalMembers` |
| DuplicateResolver.CanonicalOrder | zim_updater.py:155-158 | models the key order of `stripped_map`; see `CanonicalOrderMembers` |
| DuplicateResolver.WithCanonicalMembers | zim_updater.py:157-158 | a group holds exactly the local names with its canonical name |
| DuplicateResolver.WithCanonicalDistinct | zim_updater.py:157-158 | groups of distinct names have distinct members |
| DuplicateResolver.CanonicalOrderMembers | zim_updater.py:155-160 | the key order lists each canonical name once, and lists exactly those with a non-empty group |
| DuplicateResolver.MonthKey | zim_updater.py:163 | models the sort key, the month of a name as a day number; `ResolveKeepsNewest` and `ResolveOlderOrdered` are stated with it |
| DuplicateResolver.FirstMalformed | zim_updater.py:162-164 | the error of the first key `sorted` fails to compute is a `MalformedName` error; `FirstMalformedIsFirst` says which name it carries |
| DuplicateResolver.FirstMalformedIsFirst | zim_updater.py:162-164 | the error names the first member whose version is malformed, and every earlier member parses, as the keys are computed in list order before any comparison |
| DuplicateResolver.Resolve | zim_updater.py:161-165 | models one group of the second loop of `list_old_zims`; its properties are the `Resolve` lemmas below |
| DuplicateResolver.FirstMalformedNone | zim_updater.py:162-164 | no sort key raises exactly when every member's version parses |
| DuplicateResolver.ResolveGroup | zim_updater.py:161-165 | a resolved group has two or more members, all parsing, and `[keep] + old` is their descending sort, a permutation of the group |
| DuplicateResolver.ResolveKeepsNewest | zim_updater.py:162-165 | `keep` has the latest month of its group |
| DuplicateResolver.ResolveOlderOrdered | zim_updater.py:162-165 | `old` is in non-increasing month order |
| DuplicateResolver.ResolveStable | zim_updater.py:162-165 | names of the same month keep their order within `[keep] + old` |
| DuplicateResolver.ResolveFails | zim_updater.py:161-164 | resolving a group raises exactly when it has two or more members and one of them is malformed |
| DuplicateResolver.ResolveLarge | zim_updater.py:161-165 | a group of two or more that does not raise is resolved |
| DuplicateResolver.OldZims | zim_updater.py:153-166 | models the result of `list_old_zims`; its properties are the `OldZims` lemmas below |
| DuplicateResolver.ListOldZims | zim_updater.py:153-166 | the two loops compute exactly `OldZims`: the duplicates in key order, or the error of the first group that raises, as `OldZimsFirstFailure` states |
| DuplicateResolver.OldZimsResolved | zim_updater.py:160-166 | each entry of the result resolves its own group, in key order, and every key without an entry has nothing to resolve |
| DuplicateResolver.OldZimsNamesDistinct | zim_updater.py:160-166 | no canonical name has two entries |
| DuplicateResolver.OldZimsCovers | zim_updater.py:160-166 | every canonical name that occurs at least twice has an entry |
| DuplicateResolver.OldZimsOnlyDuplicates | zim_updater.py:160-166 | every entry is for a canonical name that occurs at least twice |
| DuplicateResolver.OldZimsKeys | zim_updater.py:153-166 | the keys are distinct and are exactly the canonical names that occur at least twice |
| DuplicateResolver.OldZimsFirstFailure | zim_updater.py:160-165 | a failed run reports the error of `FirstMalformed` of the first group, in key order, of two or more members that raises; every earlier group resolves |
| DuplicateResolver.OldZimsFails | zim_updater.py:153-166 | `list_old_zims` raises exactly when a name in a group of two or more is malformed |
| DuplicateResolver.OldZimsEntry | zim_updater.py:160-166 | each entry's `[keep] + old` is a permutation of its group of two or more |
| DuplicateResolver.OlderInGroup | zim_updater.py:160-166 | for distinct local names, each old name is in its entry's group and is not that entry's `keep` |
| DuplicateResolver.KeepInGroup | zim_updater.py:160-166 | each `keep` is a local name with its entry's canonical name |
| DuplicateResolver.KeepNotOlder | zim_updater.py:160-166 | for distinct local names, no entry keeps a name that any entry lists as old |
| DuplicateResolver.OldZimsPair | zim_updater.py:153-166 | two names with one canonical name whose versions parse, the older first, give one entry that keeps the newer |
| DuplicateResolver.OldZimsTwoVersions | zim_updater.py:153-166 | two local versions of one archive, the older listed first, are distinct and give one entry that keeps the newer name and lists the older one as old |
| DuplicateResolver.DeletionPlan | zim_updater.py:237-242 | models `to_delete`; its properties are `DeletionPlanMembers`, `DeletionPlanSound` and `DeletionPlanComplete` |
| DuplicateResolver.WithZimSuffix | zim_updater.py:242 | models `[n + ".zim" for n in status["old"]]`; `DeletionPlanMembers` states what the plan built from it holds |
| DuplicateResolver.PlanDeletions | zim_updater.py:237-242 | the `extend` loop builds every group's old names with `.zim` appended, in order |
| DuplicateResolver.DeletionPlanMembers | zim_updater.py:238-242 | a file is planned for deletion exactly when it is some group's old name plus `.zim` |
| DuplicateResolver.PlannedIsOlder | zim_updater.py:238-242 | each planned file names an old name of some group |
| DuplicateResolver.DeletionPlanSound | zim_updater.py:238-242 | for distinct local names, a planned file is a local name whose canonical name occurs at least twice, and no group keeps it |
| DuplicateResolver.DeletionPlanComplete | zim_updater.py:238-242 | every local name whose canonical name occurs at least twice, and that no group keeps, is planned for deletion |

## Left out

- Fetching the catalog over HTTP (`load_current_lib`, zim_updater.py:10-13). The catalog is a parameter: the sequence of its entries.
- Parsing XML and querying it with XPath. Entries are records of the three strings read from them. `get_element_by_name` (zim_updater.py:16-18) is unused by both commands and is not part of this model.
- A missing `issued` element, `text/html` link or `application/x-zim` link. This raises `AttributeError` in the program. Every entry here has all three.
- Downloading torrents and verifying them with `torrentool` (zim_updater.py:103-120). This is network I/O and a foreign library.
- Listing the directory (`os.listdir`, `os.path.isfile`, zim_updater.py:148) and deleting files (`os.remove`, zim_updater.py:251). The file names are a parameter, and the model stops at the list of files to delete.
- `load_old_file_names` (zim_updater.py:97-100). It reads and evaluates a local file, and neither command uses it.
- The click command line, the confirmation prompts and all printed output (zim_updater.py:21-23, 169-257). The summary `find_updates` prints is modelled as data (`ReportLine`).
- The re-raising wrapper in `find_updates` (zim_updater.py:141-143). A raised `ValueError` is an `Err` that propagates.
- Calendar.YearField and Calendar.DayField accept only the ASCII digits `0`–`9`. Python's `%Y` also accepts any other Unicode decimal digit in each of its four positions, and so does the second position of `%d`'s `[12]`-and-a-digit alternative. Python's `%m` and the other `%d` positions are ASCII-only, as here.
- Exceptions other than the `ValueError` of a malformed date. Only that error is modelled.
- DuplicateResolver.MonthKey gives a malformed name the key 0. That key is never compared: a group with a malformed member fails before it is sorted, as in Python, where computing the key raises.
- DuplicateResolver.OlderInGroup, DuplicateResolver.KeepNotOlder and DuplicateResolver.DeletionPlanSound assume distinct local names. A directory listing never repeats a name, and `ZimNamesDistinct` carries this over to the `.zim` names.
- UpdateReconciler.TorrentsFromElements returns a `map`, so it does not model the key order of Python's dict. In that order each canonical name sits at its first position and holds its last value, and `update` uses it as the download order when it iterates `.values()` (zim_updater.py:207). Only the download step, which is outside this model, depends on that order.
- The field that Python names `old` in each `olds` entry is `older` here, because `old` is a reserved word in Dafny.
