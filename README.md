# Dataset coverage dashboard — verified model of the coverage engine

The dashboard audits an archive of digitised journal pages. It is laid out as
`<root>/<journal>/<profile path parts>/<year>/<page>.<ext>`. The source images
(`images/jpg/<year>/*.jpg`) decide which pages exist. For every page, the
dashboard then checks whether each other profile has its derivative file. Those
profiles are the text editions under `texts/` (two OCR engines) and the
standard derivatives (XML, ALTO-XML, metadata).

This project models, in Dafny, the logic of `dataset-webapp-latest-working.py`:

- `parse_year_string`, which decides which folder names are year folders
  (`YearNames`);
- the split of the profile registry into the source, the text editions and the
  standard profiles (`Profiles`);
- `scan_all_journals`. `Coverage` states what it computes as functions of the
  archive, `CoverageLaws` states what the numbers mean, and `Scanner` holds
  the nested counting loops as methods proved to compute exactly `Coverage.Scan`;
- the year classification and missing-page listing of `generate_ocr_candidates`
  (`OcrCandidates`);
- the per-profile missing-file listing of `year_detail` (`YearDetails`).

The archive is a value: `Archive.FileSystem` maps each directory to the entry
names it lists, in listing order, and holds the set of regular files. Paths
are sequences of components below the scan root. The scan's per-profile
dictionaries are sequences of counters, aligned with
`Profiles.StandardProfiles(ps)` and `Profiles.TextProfiles(ps)` in registry
order. The `results` and `years` dictionaries are Dafny maps.

Text editions are the profiles whose first path part is `texts`. A page's
derivative is looked up in the folder with exactly the image year folder's
name. Journals and years are scanned in sorted name order and stored in that
order, so the OCR report lists its years by journal name, then year name. The
pages of one year follow the order of the directory listing.

## Model

| member | source | states |
|---|---|---|
| YearNames.MatchYearPattern | dataset-webapp-latest-working.py:38 | a match yields four-digit groups, and the string is those groups (`first` or `first-second`), optionally followed by one newline |
| YearNames.MatchGroupsText | dataset-webapp-latest-working.py:38 | conversely, four digits or `YYYY-YYYY`, with or without one final newline (Python's `$`), match into exactly those groups |
| YearNames.ParseYearString | dataset-webapp-latest-working.py:37-43 | an accepted name has length 4, 5, 9 or 10 and starts with four digits |
| YearNames.RenderedNameAccepted | dataset-webapp-latest-working.py:37-43 | a single year, or a range `start-end`, is accepted exactly when it is a single year or `start <= end` |
| YearNames.AcceptedNameIsRendered | dataset-webapp-latest-working.py:37-43 | every accepted name is a single year or an ascending range, optionally followed by one newline |
| YearNames.YearStringExamples | dataset-webapp-latest-working.py:37-43 | "1890", "1891-1892" and "1890-1890" are accepted; "1892-1891", "189", "1890-" and "18a0" are rejected |
| YearNames.FourDigitsRoundTrip | dataset-webapp-latest-working.py:41-42 | `int()` of the zero-padded spelling of a year below 10000 is that year |
| YearNames.FourDigitsOfValue | dataset-webapp-latest-working.py:41-42 | a four-digit group is the zero-padded spelling of its `int()` value |
| Strings.Lower | dataset-webapp-latest-working.py:85-86 | lower-casing keeps the length and maps every character on its own |
| Strings.BaseName | dataset-webapp-latest-working.py:99 | the page id is the longest prefix of the file name without a '.', followed by '.' when shorter than the name |
| Strings.Sort | dataset-webapp-latest-working.py:58 | `sorted()` returns an ascending permutation of the listing |
| Strings.SortMembers | dataset-webapp-latest-working.py:79 | sorting a listing keeps exactly its names |
| Profiles.SourceProfile | dataset-webapp-latest-working.py:52 | `PROFILES['images']` is the registry entry named "images" |
| Profiles.TextProfiles | dataset-webapp-latest-working.py:53-54 | the text editions are exactly the profiles whose first path part is "texts", with distinct names |
| Profiles.KeepStandard | dataset-webapp-latest-working.py:55-56 | a profile is kept exactly when it is neither "images" nor a text edition name |
| Profiles.ProfilePartition | dataset-webapp-latest-working.py:52-56 | every profile is "images", a text edition or a standard profile; no profile is both a text edition and a standard one, and "images" is never standard |
| Profiles.ShippedRegistryValid | dataset-webapp-latest-working.py:16-23 | the shipped registry has unique names, an "images" entry (the first) and path parts for every profile |
| Profiles.ShippedTextProfiles | dataset-webapp-latest-working.py:53-54 | the shipped text editions are texts-tesseract-v1 and texts-ra-ocr, in that order |
| Profiles.ShippedStandardProfiles | dataset-webapp-latest-working.py:55-56 | the shipped standard profiles are xml, altoxml and metadata-v1, in that order |
| Coverage.FilterImages | dataset-webapp-latest-working.py:85-86 | a name is a page exactly when it is listed, is a file and its lower-cased name ends in the source extension |
| Coverage.CountAbsent | dataset-webapp-latest-working.py:102-106 | the pages lacking a derivative are at most the pages |
| Coverage.CountPresent | dataset-webapp-latest-working.py:110-115 | the pages one text edition has are at most the pages |
| Coverage.CountUncovered | dataset-webapp-latest-working.py:108-118 | the pages no text edition has are at most the pages |
| Coverage.StoredYears | dataset-webapp-latest-working.py:79-88 | a year folder is stored exactly when it is a directory, its name is accepted and it holds a page |
| Coverage.ScannedJournals | dataset-webapp-latest-working.py:58-64 | a root entry is scanned exactly when it is a directory with an images/jpg directory |
| Coverage.YearSummary | dataset-webapp-latest-working.py:90-118 | a year's entry: its page count and, per profile, the counters the scan keeps, one per standard profile and per text edition (their meaning is `CoverageLaws.YearSummaryMeaning`) |
| Coverage.JournalSpec | dataset-webapp-latest-working.py:67-132 | a journal's entry: the summed counters and the stored years, each with one counter per profile (which years, and the sum, are `CoverageLaws.StoredYear` and `CoverageLaws.JournalSummaryIsSumOfYears`) |
| Coverage.Scan | dataset-webapp-latest-working.py:48-138 | the `results` of a scan: every journal summary keeps one counter per profile (which journals, and their entries, are `CoverageLaws.ScannedJournal`) |
| Coverage.AddSummary | dataset-webapp-latest-working.py:120-128 | adding a year into a journal summary keeps one counter per profile |
| CoverageLaws.AbsentPresentSplit | dataset-webapp-latest-working.py:102-106 | for every profile, absent plus present pages equal all pages, so each standard count lies in 0..images |
| CoverageLaws.CoveredSplit | dataset-webapp-latest-working.py:108-118 | `missing_coverage` plus the pages some edition has equal all pages |
| CoverageLaws.EditionWithinCovered | dataset-webapp-latest-working.py:108-115 | each edition count is at most the number of pages some edition has |
| CoverageLaws.UnionBound | dataset-webapp-latest-working.py:108-115 | pages covered by all editions are at most those covered by all but the last plus those the last has |
| CoverageLaws.CoveredWithinEditions | dataset-webapp-latest-working.py:108-115 | the pages some edition has are at most the sum of the edition counts |
| CoverageLaws.YearSummaryMeaning | dataset-webapp-latest-working.py:90-118 | a year summary's counters are page counts: standard count plus present pages = images, `missing_coverage` plus covered pages = images, each edition count ≤ covered ≤ sum of edition counts |
| CoverageLaws.NoEditionIffNoCoverage | dataset-webapp-latest-working.py:108-118 | a year's edition counts sum to 0 exactly when `missing_coverage` equals `images` |
| CoverageLaws.ScannedJournal | dataset-webapp-latest-working.py:58-64 | a journal is in the results exactly when it is a root directory with an images/jpg directory, whatever years it holds; its entry is the journal's scan |
| CoverageLaws.StoredYear | dataset-webapp-latest-working.py:79-88 | a year is stored exactly when it is listed, is a directory, its name is accepted and it holds a file ending in `.jpg` once lower-cased; its entry is the year's counts |
| CoverageLaws.SumOver | dataset-webapp-latest-working.py:120-128 | summing stored year summaries keeps one counter per profile |
| CoverageLaws.SumYearsIsSumOver | dataset-webapp-latest-working.py:120-130 | the running journal summary is the sum of the summaries stored in `years` |
| CoverageLaws.StoredYearsNoDuplicates | dataset-webapp-latest-working.py:79-81 | a listing without repeated names yields each stored year once |
| CoverageLaws.JournalSummaryIsSumOfYears | dataset-webapp-latest-working.py:68-130 | the journal summary is the sum of its stored years' summaries, each counted once; with no stored year it is all zeros |
| Scanner.CheckStandard | dataset-webapp-latest-working.py:101-106 | every standard counter grows by one exactly when the page lacks that derivative |
| Scanner.CheckTexts | dataset-webapp-latest-working.py:108-115 | every edition counter grows by one exactly when the edition has the page; the flag tells whether any edition has it |
| Scanner.ScanYear | dataset-webapp-latest-working.py:83-118 | no summary exactly when the folder holds no page; otherwise the year's counts |
| Scanner.Accumulate | dataset-webapp-latest-working.py:120-128 | the journal summary becomes the counter-wise sum with the year summary |
| Scanner.ScanYearFolder | dataset-webapp-latest-working.py:79-130 | a stored year is added into the summary and stored under its name; any other folder changes nothing |
| Scanner.ScanJournal | dataset-webapp-latest-working.py:67-132 | a journal's data is its specification `JournalSpec` |
| Scanner.ScanAllJournals | dataset-webapp-latest-working.py:48-138 | fails exactly when the root is not a directory (where `iterdir()` raises); otherwise the results are exactly `Scan` of the archive |
| OcrCandidates.ClassifyYears | dataset-webapp-latest-working.py:262-277 | a stored year is in `missing_years` exactly when its edition counts sum to 0 and it has images; in `incomplete_years` exactly when it is not missing and `missing_coverage > 0`; no year is listed twice or in both lists |
| OcrCandidates.HasTextCoverage | dataset-webapp-latest-working.py:291-297 | the early-exit search finds a text file exactly when some edition has the page |
| OcrCandidates.PageRows | dataset-webapp-latest-working.py:298-303 | one row per uncovered page, carrying the journal, the year and the page's file name |
| OcrCandidates.YearMissingPages | dataset-webapp-latest-working.py:281-303 | the year's rows when its image folder is a directory, the listing error otherwise |
| OcrCandidates.ListMissingPages | dataset-webapp-latest-working.py:279-303 | succeeds exactly when every incomplete year's image folder is a directory, with the rows of each year in list order; a failure names the folder of a listed year that is not a directory |
| OcrCandidates.GenerateOcrCandidates | dataset-webapp-latest-working.py:257-303 | a successful report is classified and listed as above; it fails exactly when some incomplete year of the results has an image folder that is not a directory, with the error naming such a folder; against the archive the results were scanned from, it always succeeds |
| OcrCandidates.StoredYearsAreDirectories | dataset-webapp-latest-working.py:285-287 | the image folder of every year a scan stored is a directory |
| OcrCandidates.UncoveredImagesCount | dataset-webapp-latest-working.py:289-303 | the uncovered pages listed for a year are as many as `missing_coverage` counts, and each is an uncovered page |
| OcrCandidates.RowsOfConcat | dataset-webapp-latest-working.py:279-303 | selecting a year's rows distributes over appending rows |
| OcrCandidates.RowsOfPageRows | dataset-webapp-latest-working.py:298-303 | a year's rows hold only that year |
| OcrCandidates.RowsComeFromRefs | dataset-webapp-latest-working.py:279-303 | every missing-page row belongs to a year of `incomplete_years` |
| OcrCandidates.RowsOfListedYear | dataset-webapp-latest-working.py:279-303 | the rows of a year listed once are exactly its uncovered pages; a year not listed has none |
| OcrCandidates.OcrReportMeaning | dataset-webapp-latest-working.py:262-303 | against the scanned archive: a missing year has no covered page; an incomplete year has some covered and some uncovered pages; each incomplete year has exactly `missing_coverage` rows; no row comes from a missing year |
| YearDetails.MissingFiles | dataset-webapp-latest-working.py:214-220 | the names a profile lacks, page by page |
| YearDetails.AddProfile | dataset-webapp-latest-working.py:211-223 | a profile gets the sorted list of its missing names, only when that list is non-empty, and no other key changes |
| YearDetails.MissingFilesByProfile | dataset-webapp-latest-working.py:210-223 | every profile but "images" is listed as above, and every key is such a profile |
| YearDetails.YearDetail | dataset-webapp-latest-working.py:198-223 | NotFound unless the journal and year are in the results; otherwise succeeds exactly when the year's image folder is a directory, with the detail map, and fails with the `iterdir()` error naming that folder when it is not |
| YearDetails.MissingNamesMeaning | dataset-webapp-latest-working.py:214-220 | the missing names are exactly the page ids plus the profile's extension for pages lacking the derivative, one per such page |
| YearDetails.ListedCount | dataset-webapp-latest-working.py:219-223 | a profile is listed exactly when it lacks some page, with one sorted name per lacking page |
| YearDetails.StandardDetailMeaning | dataset-webapp-latest-working.py:210-223 | against the scanned archive, a standard profile is listed exactly when its `profile_counts` entry is positive, with that many names, sorted |
| YearDetails.TextDetailMeaning | dataset-webapp-latest-working.py:210-223 | against the scanned archive, a text edition is listed exactly when its edition count is below `images`, with `images` minus that count names, sorted |

## Left out

- Flask routes, redirects, templates, the session and the 404 text are not modelled: they are web plumbing. The 404 is the `NotFound` error of `YearDetails.YearDetail`.
- The "scan not performed" case (`SCAN_RESULTS is None`) is not modelled. The reports take the scan results as a parameter.
- JSON state save/load, the temporary report files named by `uuid`, and CSV writing are left out. They are I/O through libraries outside this model.
- The changelog page and its Markdown rendering are left out. They use a foreign library and file I/O.
- Command-line parsing, `print` logging and the `root_dir`/`scan_time` metadata are left out. They are I/O or depend on the clock.
- Directory traversal and `exists()` are replaced by the `Archive.FileSystem` value. Unreadable folders, permission errors and changes to the archive during a scan are not modelled.
- `iterdir()` order is modelled as an arbitrary, fixed order per directory. `sorted()` on paths is modelled as sorting entry names, since all the entries share one parent.
- OcrCandidates.ClassifyYears: leaves open the order of `missing_years` and `incomplete_years`, which the source fixes: it visits the results in insertion order, which after a scan is journal name, then year name. The model keeps the results in maps, which have no insertion order, and visits them in an unspecified order. Membership, uniqueness and disjointness are fully stated. The row order of `missing_pages` across years follows this list order and is left open in the same way.
- YearDetails.YearDetail and OcrCandidates.GenerateOcrCandidates: the archive is a parameter. The source reopens the `root_dir` saved with the scan, and the model does not relate that path to the parameter.
- YearDetails.TextDetailMeaning: says nothing about a text edition named "images". Such a profile is the source itself and is skipped by `year_detail`.
- Python's `\d` also matches non-ASCII digits, and `str.lower()` also folds non-ASCII letters. The model covers ASCII only.
- A profile named `texts_group` would collide with the text-group key in `profile_counts`. Counters here are kept per profile in sequences, so the model does not reproduce that collision.
- Joining a derivative path whose extension contains `/` is not modelled. Path components are taken as given.
