# appleLoops catalog builder in Dafny

This project models how `AppleLoops` in `appleLoops.py` (Logic Pro and GarageBand loop
downloader) builds its package catalog. The model covers:

- the URL join of `build_url`;
- the deduplicating `add_loop`, which appends six-field `Loop` records to `master_list`
  and records repeats once in `duplicate_loops_list`;
- the per-package steps of `process_plist`:
  - the `../` rewrite of the download name and URL;
  - the `IsMandatory` default;
  - the year taken from the first URL segment that contains `lp10_ms3`;
  - the digit-stripped `loop_for` category of the feed file;
- the two nested loops of `build_loops_master_list`.

Layout, one module per file:

- `wrappers.dfy`: `Option` and `Result`.
- `text.dfy`, module `Text`: the Python string and `os.path` operations the code uses,
  with Python 2 semantics:
  - `str.split('/')` and `'/'.join`;
  - `str.rfind`;
  - `posixpath.basename`;
  - the root of `posixpath.splitext`;
  - `x[-4:]`;
  - the digit filter.
- `catalog.dfy`, module `Catalog`: the `Loop` record, and `add_loop` as a function on the
  pair of lists (`Insert`, and `InsertAll` for a run of calls). Also the invariants every
  run keeps.
- `feeds.dfy`, module `Feeds`:
  - the base URL and `build_url`;
  - year extraction, the `../` rewrite, the mandatory default and `loop_for`;
  - one package (`ResolvePackage`), one feed document (`ResolveFeed`), and the two location
    tables (`RunDocs`, `RunYears`, `BuildRun`), all as functions.
- `apple_loops.dfy`, module `Downloader`: the class `AppleLoops`. Its fields are
  `downloadLocation`, `masterList` and `duplicateLoopsList`, and its methods update the
  two lists in place:
  - `AddLoop` appends at most one record;
  - `ProcessPlist` loops over the packages of one feed document;
  - `ProcessYear` (the inner loop) and `ProcessLocations` (the outer loop) make up
    `BuildLoopsMasterList`.

  Each method's postcondition ties the new lists to the `Catalog`/`Feeds` function of the
  old lists. Each method also keeps the `Valid()` invariant: no repeats in either list, and
  every duplicate also in the master list.

The network is replaced by inputs:

- A feed document is its file name plus its parsed `Packages` entries. It is given as a
  `FeedDoc`.
- Each entry (`Package`) holds:
  - its `DownloadName`;
  - an optional `IsMandatory`;
  - the stripped `Content-Length` string that probing its URL returned.
- The location tables are given as sequences of (year, feed documents).

A package whose URL has no segment with the marker makes the comprehension index `[0]` of
an empty list. That raises `IndexError` in the source. The model returns it as the error
`NoYearSegment(url)`. Processing stops there, and the records added before it stay in the
lists, as they do when the exception propagates in the source.

Facts about the code that its own comments do not say, which the model follows:

- `pkg_size` is the stripped `Content-Length` header text, a string. The comment at
  appleLoops.py:142 calls it the size "in bytes", but it is never converted to a number.
  The note at appleLoops.py:175-177 says the header is used because the size in the feed
  can be wrong. The feed's own size is never read, so nothing falls back to it.
- `pkg_loop_for` is the feed file's stem without digits, whatever that is. The comment at
  appleLoops.py:144 says "logicpro or garageband", but `logicpro1000_en.plist` gives
  `logicpro_en` (`EnglishFeedCategory`).
- `pkg_year` is the last four characters of the first URL segment that contains
  `lp10_ms3`, whatever they are. The comment at appleLoops.py:143 calls it the release
  year. It is `loop_year` when the name has no `../`, and `loop_year` has four characters
  and no `/` (`BuildUrlYear`, `ResolvePlain`). A `../` name ignores `loop_year`
  (`ResolveParent`), though its marked segment may happen to end in the same four
  characters.
- Only `../` names are cut to their final component. A plain `DownloadName` containing
  `/` is stored as is (`ResolvePlain`). So "no separator in the name" holds for rewritten
  names only (`Locate`).

## Model

| member | source | states |
|---|---|---|
| Feeds.BaseUrlValue | appleLoops.py:81-83 | the base URL is `http://audiocontentdownload.apple.com/lp10_ms3_content_` |
| Feeds.HostUrlValue | appleLoops.py:200 | the prefix that replaces `../` is `http://audiocontentdownload.apple.com/` |
| Feeds.BuildUrl | appleLoops.py:154-156 | `build_url(y, f)` is the base URL, then `y`, then `/`, then `f` |
| Feeds.BuildUrlPieces | appleLoops.py:154-156 | for a year without `/`, the built URL splits into `http:`, an empty piece, the host, the content directory with the year, then the pieces of the file name |
| Feeds.HostUrlPieces | appleLoops.py:200 | a host-rooted URL splits into `http:`, an empty piece, the host, then the pieces of the rest |
| Text.StartsWith | appleLoops.py:199 | `name.startswith('../')` holds exactly when the name is `../` followed by the rest of the name |
| Text.Contains | appleLoops.py:204 | `'lp10_ms3' in x` never holds for a marker longer than the piece; with `ContainsAt` and `ContainsWitness` it holds exactly when the marker occurs at some position |
| Text.ContainsWitness | appleLoops.py:204 | when `sub in s` holds, `sub` occurs in `s` at some position |
| Text.Join | appleLoops.py:156 | `'/'.join` is at least as long as the first part plus one separator per further part; `JoinPair`, `JoinSplit`, `SplitJoin` and `JoinSeparators` state the rest |
| Text.JoinSeparators | appleLoops.py:156 | joining `/`-free parts puts exactly one `/` between neighbours |
| Text.Split | appleLoops.py:204 | `url.split('/')` yields at least one piece, and no piece contains `/` |
| Text.JoinSplit | appleLoops.py:204 | joining the pieces of a split with `/` gives back the string |
| Text.SplitJoin | appleLoops.py:156 | splitting a `/`-join of `/`-free pieces gives back the pieces |
| Text.SplitAppend | appleLoops.py:204 | splitting at a `/` splits both sides independently |
| Text.JoinPair | appleLoops.py:156 | joining two parts puts one `/` between them |
| Text.RFind | appleLoops.py:201 | `rfind` gives -1 or an index of the character, with no later occurrence |
| Text.Basename | appleLoops.py:201 | `os.path.basename` is a `/`-free tail of the path that is the whole path or follows a `/` |
| Text.BasenameUnique | appleLoops.py:201 | only one tail has those properties, so the basename is determined by them |
| Text.BasenameIsLastPiece | appleLoops.py:201 | the basename is the last piece of the `/`-split |
| Text.SplitExtRoot | appleLoops.py:181 | the `splitext` root is a prefix of the name; when shorter, it ends at a `.` after which no `/` or `.` follows |
| Text.SplitExtRootOf | appleLoops.py:181 | a `/`-free stem with a non-dot character, plus one extension, has the stem as its root |
| Text.SplitExtRootNoDot | appleLoops.py:181 | a name without `.` is its own root |
| Text.LastFour | appleLoops.py:204 | `x[-4:]` is the last four characters, or all of `x` when shorter |
| Text.StripDigits | appleLoops.py:182-183 | the digit filter leaves no character `0`-`9` and never lengthens the text |
| Text.StripDigitsAppend | appleLoops.py:182-183 | the digit filter distributes over concatenation |
| Text.StripDigitsCounts | appleLoops.py:182-183 | every non-digit keeps its number of occurrences, and every digit is removed |
| Text.StripDigitsUnchanged | appleLoops.py:182-183 | the filter changes a text exactly when the text has a digit |
| Text.NoDigitsLeft | appleLoops.py:182-183 | a run of digits vanishes |
| Text.StripDigitsIdempotent | appleLoops.py:182-183 | filtering twice is filtering once |
| Text.ContainsAt | appleLoops.py:204 | `sub in s` holds when `sub` occurs at any position |
| Text.NotContains | appleLoops.py:204 | `sub in s` fails when a character of `sub` is missing from `s` |
| Catalog.Insert | appleLoops.py:158-172 | after one `add_loop`, the record is in the master list, both lists only grew, and by at most one record in all; `InsertDeduplicated` states the invariant it keeps |
| Catalog.InsertAll | appleLoops.py:158-172 | a run of `add_loop` calls adds at most one record per call; `InsertAllMembers`, `InsertAllDuplicates`, `InsertAllPrefix` and `InsertAllFirstOrder` state what it adds |
| Catalog.InsertDeduplicated | appleLoops.py:168-172 | one `add_loop` keeps both lists free of repeats, with every duplicate in the master list |
| Catalog.InsertAllDeduplicated | appleLoops.py:168-172 | any run of `add_loop` calls keeps that invariant |
| Catalog.InsertAllPrefix | appleLoops.py:168-172 | a run only appends: the old lists are prefixes of the new ones |
| Catalog.InsertAllMembers | appleLoops.py:168-169 | a record is in the new master list exactly when it was before or was added |
| Catalog.InsertAllDuplicates | appleLoops.py:170-172 | a record is in the new duplicate list exactly when it was before, or was seen at least twice counting the old master list |
| Catalog.InsertAllAppend | appleLoops.py:158-172 | two runs one after the other are one run of both |
| Catalog.InsertAllFirstOrder | appleLoops.py:168-169 | from empty lists, the master list holds every inserted record and nothing else, in order of first appearance |
| Catalog.FirstOrderedAppend | appleLoops.py:168-169 | a record first seen at the end of the calls comes after every record seen before it |
| Catalog.FirstIndex | appleLoops.py:168-169 | the first occurrence of a record: no earlier element equals it |
| Feeds.MarkedYears | appleLoops.py:204 | the comprehension has at most one entry per piece, each at most four characters; `MarkedYearsEmpty`, `MarkedYearsFirst` and `MarkedYearsUnmarked` state which entries it has |
| Feeds.MarkedYearsEmpty | appleLoops.py:204 | the comprehension is empty exactly when no piece contains `lp10_ms3` |
| Feeds.MarkedYearsFirst | appleLoops.py:204 | element 0 of the comprehension is the last four characters of the first marked piece |
| Feeds.MarkedYearsUnmarked | appleLoops.py:204 | unmarked leading pieces contribute nothing |
| Feeds.YearFromUrl | appleLoops.py:204 | the year is the last four characters of the first piece containing `lp10_ms3`; `NoYearSegment` exactly when no piece does |
| Feeds.BuildUrlYear | appleLoops.py:187 | a URL built from a year without `/` never fails and gives the last four characters of `lp10_ms3_content_` + year; for a four-character year, the year itself |
| Feeds.ContentDirMarked | appleLoops.py:204 | the content directory segment of a built URL contains the marker |
| Feeds.ContentDirYear | appleLoops.py:204 | a four-character year is the last four characters of its content directory segment |
| Feeds.MarkedYearsOf | appleLoops.py:204 | after unmarked pieces, the comprehension starts with the year of the first marked piece |
| Feeds.HostPiecesUnmarked | appleLoops.py:204 | none of the scheme, empty and host segments contains the marker |
| Feeds.YearOfPieces | appleLoops.py:204 | the year comes from the first marked piece, whatever follows it |
| Feeds.HostUrlYear | appleLoops.py:200 | for a host-rooted URL, the year comes from the pieces of the rest alone, and fails exactly when none of them is marked |
| Feeds.Locate | appleLoops.py:199-201 | a `../` name gets URL host prefix + `name[3:]` and is stored by a `/`-free basename of that URL; any other name keeps its name and the built URL |
| Feeds.ParentBasename | appleLoops.py:199-201 | the basename of a `../` name equals the basename of its rewritten URL |
| Feeds.MandatoryOf | appleLoops.py:189-194 | a missing `IsMandatory` is `False`; a present one is its value |
| Feeds.LoopFor | appleLoops.py:181-183 | the category has no digit and is no longer than the feed file name |
| Feeds.LoopForOf | appleLoops.py:181-183 | the category of a `/`-free stem with one extension is the stem without digits |
| Feeds.PlistCategory | appleLoops.py:181-183 | the category of `<stem>.plist` is the stem without digits |
| Feeds.FeedStemDigits | appleLoops.py:182-183 | a family, a digit code and a suffix lose exactly the code |
| Feeds.FeedCategory | appleLoops.py:181-183 | a feed named family + digit code + suffix + `.plist` has category family + suffix |
| Feeds.LogicCategory | appleLoops.py:90-91 | `logicpro1023.plist` has category `logicpro` |
| Feeds.EnglishFeedCategory | appleLoops.py:102 | `logicpro` + digits + `_en.plist` has category `logicpro_en` |
| Feeds.ResolvePackage | appleLoops.py:186-211 | one package's record has the `IsMandatory` default, the probed size and the feed's `loop_for`; its only error is `NoYearSegment` of the package's URL after the `../` rewrite; `ResolvePlain` and `ResolveParent` state the rest |
| Feeds.ResolvePlain | appleLoops.py:186-211 | a name without `../` and a year without `/` always resolve: the record keeps the name, gets the built URL and the right mandatory flag, size and category, and its year is `loop_year` when that has four characters |
| Feeds.ResolveParent | appleLoops.py:196-204 | a `../` name ignores the loop year: it fails exactly when no piece after `../` holds the marker; otherwise the record has the basename, the host-rooted URL and the year of the first marked piece |
| Feeds.Collect | appleLoops.py:185-211 | the records up to the first error are never more than the outcomes, and there is no error exactly when every outcome gave a record |
| Feeds.CollectRecords | appleLoops.py:185-211 | every record is the outcome at its own position |
| Feeds.CollectError | appleLoops.py:185-211 | an error is the outcome just after the records |
| Feeds.CollectStops | appleLoops.py:204 | once an outcome is an error, later outcomes are never looked at |
| Feeds.ResolveFeed | appleLoops.py:185-211 | a feed yields at most one record per package, and no error exactly when every package gave one; `ResolveFeedShape` states which records and which error |
| Feeds.ResolveFeedShape | appleLoops.py:185-211 | a feed yields, in order, the records of its leading packages that resolve; there is an error exactly when a package is left over, and it is that package's error |
| Feeds.ResolveFeedStep | appleLoops.py:185-211 | one more package after a clean prefix adds its record or stops with its error |
| Feeds.ResolveFeedStops | appleLoops.py:204 | after the first failing package, later packages are never looked at |
| Feeds.ProcessDoc | appleLoops.py:174-214 | one feed document only extends both lists |
| Feeds.RunDocs | appleLoops.py:218-219 | the feed documents of a year only extend both lists; `RunDocsStep`, `RunDocsStops` and `RunDocsDeduplicated` state the rest |
| Feeds.RunYears | appleLoops.py:217-219 | the years of a table only extend both lists; `RunYearsStep`, `RunYearsStops` and `RunYearsDeduplicated` state the rest |
| Feeds.BuildRun | appleLoops.py:216-223 | both tables together only extend both lists; `BuildRunDeduplicated` states the invariant it keeps |
| Feeds.RunDocsStep | appleLoops.py:218-219 | one more feed document after a clean prefix is `process_plist` of it |
| Feeds.RunYearsStep | appleLoops.py:217-219 | one more year after a clean prefix runs its feed documents |
| Feeds.RunDocsStops | appleLoops.py:218-219 | after a feed document raises, the later ones of that year are not processed |
| Feeds.RunYearsStops | appleLoops.py:217-219 | after a year raises, the later years are not processed |
| Feeds.RunDocsDeduplicated | appleLoops.py:218-219 | processing the feed documents of a year keeps the lists deduplicated and only extends the master list |
| Feeds.RunYearsDeduplicated | appleLoops.py:217-219 | processing a location table keeps the lists deduplicated and only extends the master list |
| Feeds.BuildRunDeduplicated | appleLoops.py:216-223 | however the feeds resolve, and even when an error stops the run, both tables leave deduplicated lists that extend the starting master list |
| Downloader.AppleLoops.constructor | appleLoops.py:72-76 | an absent or empty location becomes `/tmp`, any other is kept; both lists start empty and valid |
| Downloader.AppleLoops.AddLoop | appleLoops.py:158-172 | a new record is appended to the master list; a known record is appended to the duplicate list once; otherwise nothing changes; the invariant is kept |
| Downloader.AppleLoops.ResolvePackageSteps | appleLoops.py:186-204 | the loop body's steps up to `add_loop` compute `ResolvePackage` |
| Downloader.AppleLoops.ProcessPlist | appleLoops.py:174-214 | the lists become `InsertAll` of the old lists with the records of `ResolveFeed` for the feed's `loop_for`; the error is the feed's error; the invariant is kept |
| Downloader.AppleLoops.ProcessYear | appleLoops.py:218-219 | the lists and error are `RunDocs` of the old lists over the year's feed documents |
| Downloader.AppleLoops.ProcessLocations | appleLoops.py:217-219 | the lists and error are `RunYears` of the old lists over one location table |
| Downloader.AppleLoops.BuildLoopsMasterList | appleLoops.py:216-223 | the lists and error are `BuildRun` of the old lists: the Logic Pro table, then the GarageBand table unless the first raised |

## Left out

- Plist decoding (`readPlistFromString` and the Foundation bridge, appleLoops.py:33-68). It
  is a foreign platform call. Feed documents are given already parsed.
- All `urllib2` traffic: the feed fetch (appleLoops.py:178-180, 214) and the
  `Content-Length` probe (appleLoops.py:206-208). The stripped size string is an input
  field of each package. A missing header (a `None` in the source) is not modelled.
- The location tables' contents (appleLoops.py:92-117) and Python 2 dict iteration order
  (appleLoops.py:185, 216-223). Packages, years and feed documents are given as sequences
  in some order. No lemma depends on a particular order of the tables.
- `premium_loops` (appleLoops.py:119-135) and the `sleep` import. Neither is used.
- The module-level script and its `print` output (appleLoops.py:226-232). It is I/O only.
- A `KeyError` for an entry without `DownloadName`. Every `Package` has a name.
- Feeds.MandatoryOf: `IsMandatory` is modelled as an optional boolean. A non-boolean value,
  which the source would store unchanged, is not modelled. The bare `except:` around the
  lookup is modelled only for its one failure, the missing key.
