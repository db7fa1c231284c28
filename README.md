# us-libraries / us-pls in Dafny

A verified model of the core of the `us_pls` and `us_libraries` packages, which fetch
and organise the data of the Public Libraries Survey.

- **The variable taxonomy** (`PlsVariables`, `variables.dfy`). A `Variables` object
  is a tree. Each attribute is either a leaf (short variable code → long name) or a
  nested `Variables` category. Its attribute dictionary is an insertion-ordered
  `Dict` whose `Put` replaces a key in place or appends it. The module models
  `from_dict`/`to_dict`, the path-prefixed flat dictionary, `flatten`, `invert` and
  the order-independent `__eq__`. The parts that change the object
  (`__init__`, `__setitem__`, `from_dict`) are methods of a `Variables` class.
- **The download service** (`Download`, `download.dfy`). The year's data directory
  is an ordered tree of files and sub-directories. HTTP is a function from URL to
  bytes, unpacking a zip archive is a function from bytes to a listing, and the
  logger and the HTTP client append to one event log. The module models the
  three-resource download, the missing-resource and no-data paths, writing,
  unpacking, renaming archive members to their canonical names, and removing the
  emptied sub-directories.
- **The scraper** (`Scraper`, `scraper.dfy`). The parsed survey page is the list of
  its `<label>` elements, each with all the siblings that follow it, past any later label. The module models
  the year parse, the year → link text → route collection loop, and the
  cache-or-scrape rule around `urls.json`.
- **The on-disk cache** (`Cache`, `cache.dfy`). It models `pathlib` parsing and
  joining, the cache directory `<cache_dir>/<year>`, and `get`/`put` over a file
  system of CSV files and directories. CSV writing and reading are functions
  the object is given.
- **`VariableSet.add_variables` and `DataFileType`** (`VariableSets`,
  `variable_set.dfy`), and **`ModuleFilter.filter`** (`LogFilters`, `filters.dfy`).

`collections.dfy` holds Python's `dict` as the code uses it, plus `Assign`: the map
that a run of `m[k] = v` assignments leaves behind. "The last write wins" is stated
through `Assign` throughout. `strings.dfy` holds the `str` operations used, and
`config.dfy` holds the frozen `Config` record.

## Model

| member | source | states |
|---|---|---|
| Collections.Put | us_pls/_variables/models.py:108-109 | `d[k] = v`: `k` then maps to `v` and every other key keeps its value; an existing key keeps its position, a new one is appended; keys stay unique |
| Collections.Remove | us_libraries/_download/download_service.py:100-101 | taking an entry out of a directory: the key is gone, every other key keeps its value, keys stay unique |
| Collections.AssignLastWins | us_pls/_variables/models.py:76 | after a run of assignments, a key holds the value of the last assignment to it |
| Collections.AssignAppend | us_pls/_variables/models.py:76 | `dict.update`: two runs of assignments leave the first run's map updated by the second's |
| PlsVariables.Variables.constructor | us_pls/_variables/models.py:5-6 | the keyword arguments, in order, become the attributes |
| PlsVariables.Variables.SetItem | us_pls/_variables/models.py:108-109 | the attributes become `Put(old, k, v)`: an existing attribute is replaced in place, a new one is added last; the tree stays well formed |
| PlsVariables.Variables.FromDict | us_pls/_variables/models.py:8-17 | returns a fresh object whose attributes are `TreeOf(d)`; nested dicts become nested objects, strings become leaves, in the dict's order |
| PlsVariables.TreeOf | us_pls/_variables/models.py:8-17 | the tree built from a nested dict has unique keys at every level |
| PlsVariables.ToDict | us_pls/_variables/models.py:19-29 | `to_dict()` has exactly the tree's keys |
| PlsVariables.FromDictToDict | us_pls/_variables/models.py:8-31 | `from_dict(t.to_dict())` rebuilds `t` exactly, order included, for every well-formed tree |
| PlsVariables.FromDictToDictEqual | tests/unit/variables/variables_test.py:92 | `Variables.from_dict(v.to_dict()) == v` under `__eq__` |
| PlsVariables.FlatDictIsLeafAssignments | us_pls/_variables/models.py:33-42 | `__to_flat_dict(prefix)` is the run of assignments `prefix + ancestors_ + code → long name` over the leaves in document order |
| PlsVariables.FlatDictKeys | us_pls/_variables/models.py:33-42 | the keys of `to_dict(flatten=True)` are exactly the leaves' ancestor keys, each followed by `_`, then the leaf key |
| PlsVariables.FlatDictLeafValue | us_pls/_variables/models.py:38 | the value under a leaf's flat key is that leaf's long name, unchanged, when no later leaf has the same flat key |
| PlsVariables.FlatDictSize | us_pls/_variables/models.py:33-42 | with distinct flat keys, the flat dictionary has one entry per leaf |
| PlsVariables.FlattenIsLeafAssignments | us_pls/_variables/models.py:63-78 | `flatten(prefix)` is the run of assignments `code → renamed column` over the leaves at every depth, so a later leaf with the same code wins |
| PlsVariables.FlattenKeys | us_pls/_variables/models.py:63-78 | the keys of `flatten()` are exactly the leaf codes at any depth, never prefixed |
| PlsVariables.FlattenLeafValue | us_pls/_variables/models.py:67-76 | the last leaf with a code maps to the code itself when code and name agree, else to `prefix + ancestors_ + name` |
| PlsVariables.FlattenSize | us_pls/_variables/models.py:63-78 | with distinct codes, `flatten()` has one entry per leaf |
| PlsVariables.FlattenDocExample | us_pls/_variables/models.py:58-60 | the docstring example: `First/Second/CODE_1, CODE_2` flattens to `First_Second_Value1`, `First_Second_Value2` |
| PlsVariables.Invert | us_pls/_variables/models.py:80-106 | the inverted tree is well formed and its keys are each category key and each leaf's long name |
| PlsVariables.InvertLeaves | us_pls/_variables/models.py:91-106 | when `Invertible` holds (at every level, no two sibling leaves share a long name and no long name equals a sibling category's key; otherwise `setattr` overwrites one attribute with another), inverting keeps every category with prefix `prefix + k + "_"`, and turns each leaf `k → v` into `v → k` when `k == v`, else `v → prefix + v`, in order |
| PlsVariables.InvertLeafCount | us_pls/_variables/models.py:91-106 | when `Invertible` holds (at every level, no two sibling leaves share a long name and no long name equals a sibling category's key; otherwise `setattr` overwrites one attribute with another), inverting keeps the number of leaves |
| PlsVariables.InvertSelfNamed | us_pls/_variables/models.py:96-99 | on a tree whose every leaf maps to itself, `invert()` returns the same tree |
| PlsVariables.InvertSelfNamedEqual | us_pls/_variables/models.py:96-99 | such a tree's inversion is `==` to it |
| PlsVariables.FlattenAgreesWithInvert | us_pls/_variables/models.py:53-106 | with distinct codes and under `Invertible` (at every level, no two sibling leaves share a long name and no long name equals a sibling category's key; otherwise `setattr` overwrites one attribute with another), every leaf's `flatten()[code]` is the value `invert()` stores under its long name at the same category path |
| PlsVariables.Eq | us_pls/_variables/models.py:117-128 | `__eq__` is false for anything but a `Variables` and for a different number of attributes; when true, every key of `self` is a key of the other |
| PlsVariables.EqualReflexive | us_pls/_variables/models.py:117-128 | every tree equals itself |
| PlsVariables.EqualSymmetric | us_pls/_variables/models.py:117-128 | equality is symmetric |
| PlsVariables.EqualIgnoresOrder | us_pls/_variables/models.py:117-128 | two trees with the same attributes in another order are equal |
| PlsVariables.EqualTransitive | us_pls/_variables/models.py:117-128 | equality is transitive on well-formed trees, nested categories included |
| PlsVariables.EqualReplaceChild | us_pls/_variables/models.py:117-128 | replacing one attribute's value by an equal value (a string by itself, a nested category by an equal one) gives an equal tree |
| PlsVariables.EqualPermutedSub | us_pls/_variables/models.py:117-128 | reordering the attributes of a nested category gives an equal tree, since `!=` on the nested `Variables` compares by key |
| Download.FileNamesDistinct | us_libraries/_download/models.py:4-12 | the six download types have six distinct file names |
| Download.ShouldUnzipOnlyCsvZip | us_libraries/_download/download_service.py:69 | content is unzipped if and only if the type is `CsvZip`, the one file name ending in `.zip` |
| Download.Url | us_libraries/_download/download_service.py:62 | the URL is `https://www.imls.gov/` followed by the route, unchanged |
| Download.WriteFile | us_libraries/_download/download_service.py:75-78 | writing succeeds unless a directory has the name; the file then holds the content, replacing a file in place or adding it |
| Download.ExtractFresh | us_libraries/_download/download_service.py:81-82 | extracting an archive whose names are all new appends its listing to the directory |
| Download.ArchiveNameIdempotent | us_libraries/_download/download_service.py:92-98 | classifying a canonical name again keeps it |
| Download.ArchiveNameSystemData | us_libraries/_download/download_service.py:93-94 | `pls_AE_18.csv` becomes `SystemDataFile.csv`: the marker is found whatever its case; `pls_ae_outlet_18.csv` does too, since `_ae_` is checked first |
| Download.ArchiveNameOutletData | us_libraries/_download/download_service.py:95-96 | `pls_Outlet_18.csv`, with `_outlet_` and no `_ae_`, becomes `OutletData.csv` |
| Download.ArchiveNameStateSummary | us_libraries/_download/download_service.py:97-98 | `pls_STATE_18.csv`, with only `_state_`, becomes `StateSummaryAndCharacteristicData.csv` |
| Download.ArchiveNameKept | us_libraries/_download/download_service.py:92 | `notes.txt`, with no marker, keeps its name |
| Download.MoveMembersFiles | us_libraries/_download/download_service.py:91-100 | moving the files of a sub-directory succeeds, leaves it empty, and puts each file under its canonical name, the last one moved winning |
| Download.MoveAllFrom | us_libraries/_download/download_service.py:88-101 | for a `Movable` data directory (unique names; every sub-directory holds only files, none of them renamed onto a sub-directory's name), the outer loop, from any listing position, succeeds and leaves the top-level files plus all moved files |
| Download.MoveContentFiles | us_libraries/_download/download_service.py:87-101 | `_move_content` succeeds, removes every sub-directory, keeps each top-level file unless a moved member takes its name, and adds every member under its canonical name, the last moved winning; only files remain |
| Download.WriteContentPlain | us_libraries/_download/download_service.py:75-80 | without unzipping, only the file is written |
| Download.WriteContentZip | us_libraries/_download/download_service.py:75-85 | with unzipping, the archive is written, extracted and its members moved, then `csvs.zip` is removed; only files remain |
| Download.TryResourceMissing | us_libraries/_download/download_service.py:56-60 | an absent or empty route logs "The resource `…` does not exist for {year}"; no request, no write |
| Download.TryResourcePlain | us_libraries/_download/download_service.py:62-70 | for a type other than `CsvZip`, when no directory has the type's file name, a present route makes exactly one GET, to the base URL and route, and writes the content under the type's file name |
| Download.TryResourceEvent | us_libraries/_download/download_service.py:53-70 | each attempt appends exactly one event, and only an attempt that made a request can fail |
| Download.DownloadNoData | us_libraries/_download/download_service.py:37-39 | no entry or an empty entry for the year logs "There is no data for {year}" and attempts nothing |
| Download.DownloadEvents | us_libraries/_download/download_service.py:41-51 | otherwise `Documentation`, `CSV`, `Data Element Definitions` are attempted in that order; a failure stops the run right after its request |
| Download.DownloadService.constructor | us_libraries/_download/download_service.py:103-106 | the data prefix is `<data_dir>/<year>` |
| Download.DownloadService.Download | us_libraries/_download/download_service.py:34-51 | the new directory, log and outcome are those of `DownloadRun` on the old state |
| Download.DownloadService.TryDownloadResource | us_libraries/_download/download_service.py:53-70 | the new directory, log and outcome are those of `TryResource` on the old state |
| Download.DownloadService.WriteContent | us_libraries/_download/download_service.py:72-85 | the new directory is `WriteContentStep` of the old one; the log is unchanged |
| Download.DownloadService.MoveContent | us_libraries/_download/download_service.py:87-101 | the nested loops leave the directory `MoveContentStep` gives for the old one |
| Scraper.Matching | us_libraries/_scraper/scraping_service.py:49-51 | the labels visited are exactly those whose text contains `FY dddd` anywhere |
| Scraper.MatchingAppend | us_libraries/_scraper/scraping_service.py:49-51 | the labels are picked in document order: those of the page's first part, then those of the rest |
| Scraper.MatchingSingle | us_libraries/_scraper/scraping_service.py:49-51 | one label is picked once when its text holds `FY dddd` and otherwise not at all |
| Scraper.YearOf | us_libraries/_scraper/scraping_service.py:68-74 | the year is the four digits right after a leading `FY `, trailing text ignored; any other text raises "this should have matched" |
| Scraper.YearOfWrittenYear | us_libraries/_scraper/scraping_service.py:68-74 | a label starting `FY ` and a year between 1000 and 9999 reads back that year |
| Scraper.YearOfExamples | tests/unit/scraper/scraping_service_test.py:46-56 | `"FY 1234"` gives `"1234"`; `"banana"` raises "this should have matched" |
| Scraper.FilterPicksUnparsableLabel | us_libraries/_scraper/scraping_service.py:49-52 | a label with the year later in its text, like "Data for FY 2019", is visited and then raises |
| Scraper.FillAnchorsAssigns | us_libraries/_scraper/scraping_service.py:60-64 | anchors are recorded text → href, a repeated text keeping its last href; a missing `href` raises |
| Scraper.FillSiblingsAssigns | us_libraries/_scraper/scraping_service.py:56-64 | the anchors of all following element siblings are recorded in document order; bare strings are skipped |
| Scraper.CollectFromAssigns | us_libraries/_scraper/scraping_service.py:49-64 | the loop raises exactly when a visited label is unreadable; otherwise each label assigns its links to its year in turn |
| Scraper.CollectUrlsRaises | us_libraries/_scraper/scraping_service.py:49-72 | `_scrape_files` succeeds exactly when every visited label starts with its year and every anchor has an `href` |
| Scraper.CollectUrlsYears | us_libraries/_scraper/scraping_service.py:49-54 | the years scraped are exactly those of the visited labels |
| Scraper.CollectUrlsLastLabelWins | us_libraries/_scraper/scraping_service.py:52-54 | a year holds the links of the last label for it; earlier labels for the year are discarded |
| Scraper.ScrapingService.constructor | us_libraries/_scraper/scraping_service.py:25-26 | the service holds the configuration, and no request has been made |
| Scraper.ScrapingService.ScrapeFiles | us_libraries/_scraper/scraping_service.py:28-40 | with `urls.json` present and no overwrite, the cached map is returned with no fetch and no write; otherwise the scraped map is written there and the same map returned |
| Scraper.ScrapingService.ScrapeListing | us_libraries/_scraper/scraping_service.py:42-66 | one fetch of the survey page; the nested loops return `CollectUrls` of the page |
| Cache.ParseJoin | us_libraries/_cache/on_disk_cache.py:45 | `Path(f"{a}/{b}")` is `Path(a) / Path(b)` for a non-empty `a` and a relative `b` |
| Cache.CachePathShape | us_libraries/_cache/on_disk_cache.py:44-46 | the cache path is `<cache_dir>/<year>`: its name is the year and its parent, the root cache, is `cache_dir` |
| Cache.Stored | us_libraries/_cache/on_disk_cache.py:19-28 | `get` misses exactly when the full path does not exist; a hit reads the file named by the full path's last component |
| Cache.Written | us_libraries/_cache/on_disk_cache.py:36-42 | `put` writes the CSV to the full path's last component in the current directory and changes no other file |
| Cache.PutThenGetMisses | us_libraries/_cache/on_disk_cache.py:25-42 | for a resource that did not exist, a successful `put` followed by a `get` of the same resource still misses whenever the full path is more than a bare name |
| Cache.PutThenGetMissesExample | us_libraries/_cache/on_disk_cache.py:25-42 | with cache `cache` and year 2020, `put("urls.csv")` writes `./urls.csv` and the next `get("urls.csv")` returns an empty table |
| Cache.StoredAtPath | us_libraries/_cache/on_disk_cache.py:28 | reading the full path itself: a miss exactly when it does not exist |
| Cache.WrittenAtPath | us_libraries/_cache/on_disk_cache.py:42 | writing the full path itself succeeds unless it is a directory or has no name |
| Cache.PutThenGetAtPath | us_libraries/_cache/on_disk_cache.py:25-42 | with both at the full path, a written CSV reads back and no other path changes |
| Cache.PutThenGetAtPathExample | us_libraries/_cache/on_disk_cache.py:25-42 | with cache `cache` and year 2020, the CSV put at `cache/2020/urls.csv` is read back |
| Cache.OnDiskCache.constructor | us_libraries/_cache/on_disk_cache.py:11-14 | the cache path is `CachePath(config)`, and it and every parent directory exist afterwards |
| Cache.OnDiskCache.Get | us_libraries/_cache/on_disk_cache.py:16-28 | an empty table when the full path does not exist; otherwise the table read from the bare name, or an error when that file is missing; nothing changes |
| Cache.OnDiskCache.Put | us_libraries/_cache/on_disk_cache.py:30-42 | the files become `Written` of the old files; directories are unchanged |
| VariableSets.AppliedCount | us_libraries/_variables/models.py:10-12 | the records before the first one lacking `short_name` or `variable_name` are all complete |
| VariableSets.AddedLastWins | us_libraries/_variables/models.py:9-14 | each short name holds the variable name of the last applied record carrying it |
| VariableSets.AddedKeepsOthers | us_libraries/_variables/models.py:10-14 | attributes no applied record names keep their values |
| VariableSets.AddedNothing | us_libraries/_variables/models.py:10-14 | an empty list, or a first record without `short_name`, changes nothing |
| VariableSets.VariableSet.constructor | us_libraries/_variables/models.py:6-7 | a new set has no attributes |
| VariableSets.VariableSet.AddVariables | us_libraries/_variables/models.py:9-14 | the attributes become `Added(old, records)`; it raises `KeyError` with the missing key exactly when a record is incomplete, and the records before it stay applied |
| VariableSets.DataFileType.Value | us_libraries/_variables/models.py:17-20 | each member's value is one of `system_data`, `state_summary`, `outlet_data` |
| VariableSets.DataFileTypeOf | us_libraries/_variables/models.py:17-20 | `DataFileType(v)` finds the member with value `v`, and nothing for any other string |
| VariableSets.DataFileTypeValues | us_libraries/_variables/models.py:17-20 | each member is found again by its value, so the three values are distinct |
| LogFilters.StartsWithAny | us_libraries/_logger/filters.py:8-12 | true exactly when the name starts with one of the listed modules |
| LogFilters.Filter | us_libraries/_logger/filters.py:5-12 | a record passes exactly when its name starts with `us_libraries` or with `urllib3` |
| LogFilters.FilterIsPrefixTest | us_libraries/_logger/filters.py:6-12 | sub-loggers and longer names pass; the empty name, `us_pls` and `requests.urllib3` do not |
| LogFilters.FilterAcceptsSubLoggers | us_libraries/_logger/filters.py:8-10 | any name that starts with a listed module passes, whatever follows |

## Left out

- `items`, `keys`, `values`, `__repr__` and `__str__` of `Variables` are views or printing; the model reads the attribute sequence directly.
- Aliasing between `Variables` objects: a nested category is held as a value, so sharing one sub-object between two parents is not modelled.
- HTTP, `zipfile`, `bs4`, `json` and pandas CSV I/O are foreign. The content `requests.get` returns, the listing an archive unpacks to, the labels of the parsed page and the CSV writer and reader are given as functions or values.
- Network exceptions from `requests.get` (connection errors, time-outs), which end `download()` in Python, are not modelled: the fetch function always returns content.
- `Variables` attributes live in the object's own namespace. Keys that name members of the class (`items`, `to_dict`, `flatten`, `invert`, ...) or class attributes such as `__module__` are not modelled. In Python such a key hides the method, so `to_dict()`, `flatten()`, `invert()` and `==` raise `TypeError`, and `getattr(o, k, None)` can fall back to the class attribute. The tree lemmas hold for trees whose keys are not such names.
- `from_dict` accepts any non-dict value as a leaf, and `to_dict` then raises `AttributeError` on it. The model's nested dictionary holds only strings and nested dictionaries, so non-string leaves are not modelled.
- `DownloadService` never checks a response's status code and never skips files already present, so neither is modelled.
- The scraper is called by `download()`. `Download.DownloadService.Download` takes its result as a parameter.
- PlsVariables.FlatDict and PlsVariables.Flatten return a `map`: the keys and values are modelled, but not the insertion order in which the Python dicts built by `__to_flat_dict` and `flatten` list their keys (the order of the tree walk).
- `iterdir` order is the order of the modelled listing. The outer `_move_content` loop works on the listing taken before it starts.
- Operating-system errors are modelled only where the model's own file system decides them: writing over a directory, renaming onto a non-empty directory or a file onto a directory, removing a non-empty directory. Permissions, full disks and races are not modelled.
- Download.MoveContentFiles: proved for data directories whose sub-directories hold only files and whose members are never renamed onto a sub-directory. Other shapes are covered only by the step functions `MoveAll`/`MoveMembers`, with failures reported as `ok == false`.
- Download.WriteContentZip: proved when the archive's names do not clash with the directory's; `Extract` itself also models merging into existing directories.
- Scraper.Matching: `re.compile(r"FY \d{4}")` is searched for in the label's text with `\d` as an ASCII digit. Python also counts other Unicode decimal digits, and `bs4` matches only labels with a single string child. Both are not modelled.
- Scraper.YearOf: `\d` is an ASCII digit here, as for the filter.
- `urls.json` holds the map itself; JSON encoding, and a file holding something else, are not modelled.
- Cache.Parse: models `pathlib` splitting on `/` and dropping empty and `.` components. `..` is kept as a name, as `pathlib` does. The POSIX `//` root is not modelled.
- Cache.OnDiskCache.constructor: requires that no file sits where the cache directory or one of its parents should be; `mkdir` raises `FileExistsError` there instead.
- Cache.OnDiskCache.Put and Cache.OnDiskCache.Get use the CSV writer and reader they are given, so `read_csv(to_csv(t))` is not claimed to be `t`. pandas writes the index as an extra column.
- Download.DownloadService.constructor: `mkdir` of the data prefix is not modelled; the directory model starts from what the prefix already holds.
- LogFilters.Filter reads only the record's name; the rest of `logging.LogRecord` is reduced to a level and a message.
- `flatten_and_invert`, `reorient` and imputation flags appear only in the tests, not in `us_pls/_variables/models.py`, so they are not modelled.
- Logging configuration, the dependency container, the stats service and the commented-out extraction code are outside this model.

## Findings

| source | as written | input that shows it | evidently intended | confidence | as-written member | corrected member |
|---|---|---|---|---|---|---|
| us_libraries/_cache/on_disk_cache.py:28 | `get` checks that `full_path` exists, but `put` writes and `get` reads `full_path.name`, a bare file name in the current directory | cache dir `cache`, year 2020: `put("urls.csv", t)` writes `./urls.csv`; `get("urls.csv")` then finds no `cache/2020/urls.csv` and returns an empty table | `put` writes and `get` reads `full_path` itself, so a stored table reads back; the tests of the older `us_pls` cache expect `read_csv` to be called with the full path | high, not executed | Cache.PutThenGetMissesExample | Cache.PutThenGetAtPathExample |
