/**
 * What a full scan computes, stated as functions of the archive: which
 * journals and years it stores, and for every stored year how many pages
 * lack each standard derivative, how many pages each text edition covers
 * and how many pages no text edition covers. The scanner's methods are
 * proved to compute exactly `Scan`; the lemmas here state what its numbers
 * mean.
 *
 * Per-profile counters, which the dashboard keeps in dictionaries keyed by
 * profile name, are sequences aligned with `StandardProfiles(ps)` and
 * `TextProfiles(ps)` (registry order).
 */
module Coverage {
  import opened Strings
  import opened YearNames
  import opened Profiles
  import opened Archive

  datatype TextGroup = TextGroup(missingCoverage: nat, editionCounts: seq<nat>)

  /** The summary of a year (`images`) or of a journal (`total_images`). */
  datatype Summary = Summary(images: nat, profileCounts: seq<nat>, textsGroup: TextGroup)

  datatype JournalData = JournalData(summary: Summary, years: map<string, Summary>)

  type ScanResults = map<string, JournalData>

  // ---------------------------------------------------------------- paths

  function ImagesRoot(src: Profile, journal: string): Path
  {
    [journal] + src.pathParts
  }

  function YearDir(src: Profile, journal: string, year: string): Path
  {
    ImagesRoot(src, journal) + [year]
  }

  /** Where the derivative of `image` under profile `p` must be. */
  function Target(p: Profile, journal: string, year: string, image: string): Path
  {
    [journal] + p.pathParts + [year, BaseName(image) + p.extension]
  }

  predicate HasDerivative(fs: FileSystem, p: Profile, journal: string, year: string, image: string)
  {
    Exists(fs, Target(p, journal, year, image))
  }

  // ---------------------------------------------------------------- pages

  /** An entry of `dir` that is a file whose lower-cased name ends in `ext`. */
  predicate IsImageFile(fs: FileSystem, dir: Path, ext: string, name: string)
  {
    IsFile(fs, dir + [name]) && EndsWith(Lower(name), ext)
  }

  function FilterImages(fs: FileSystem, dir: Path, ext: string, names: seq<string>): (r: seq<string>)
    ensures forall n :: n in r <==> n in names && IsImageFile(fs, dir, ext, n)
    ensures |r| <= |names|
  {
    if names == [] then []
    else
      var last := names[|names| - 1];
      assert names == names[..|names| - 1] + [last];
      FilterImages(fs, dir, ext, names[..|names| - 1]) + (if IsImageFile(fs, dir, ext, last) then [last] else [])
  }

  /** The image files of a year folder, in listing order (the pages). */
  function ImageFiles(fs: FileSystem, src: Profile, journal: string, year: string): seq<string>
  {
    var dir := YearDir(src, journal, year);
    FilterImages(fs, dir, src.extension, Listing(fs, dir))
  }

  // ---------------------------------------------------------------- counts

  /** Pages whose derivative under `p` is absent. */
  function CountAbsent(fs: FileSystem, p: Profile, journal: string, year: string, images: seq<string>): (n: nat)
    ensures n <= |images|
  {
    if images == [] then 0
    else
      CountAbsent(fs, p, journal, year, images[..|images| - 1])
      + (if HasDerivative(fs, p, journal, year, images[|images| - 1]) then 0 else 1)
  }

  /** Pages whose derivative under `p` is present. */
  function CountPresent(fs: FileSystem, p: Profile, journal: string, year: string, images: seq<string>): (n: nat)
    ensures n <= |images|
  {
    if images == [] then 0
    else
      CountPresent(fs, p, journal, year, images[..|images| - 1])
      + (if HasDerivative(fs, p, journal, year, images[|images| - 1]) then 1 else 0)
  }

  /** Some text edition has a file for the page. */
  predicate Covered(fs: FileSystem, texts: seq<Profile>, journal: string, year: string, image: string)
  {
    exists k :: 0 <= k < |texts| && HasDerivative(fs, texts[k], journal, year, image)
  }

  /** Pages no text edition has a file for. */
  function CountUncovered(fs: FileSystem, texts: seq<Profile>, journal: string, year: string, images: seq<string>): (n: nat)
    ensures n <= |images|
  {
    if images == [] then 0
    else
      CountUncovered(fs, texts, journal, year, images[..|images| - 1])
      + (if Covered(fs, texts, journal, year, images[|images| - 1]) then 0 else 1)
  }

  /** Pages at least one text edition has a file for. */
  function CountCovered(fs: FileSystem, texts: seq<Profile>, journal: string, year: string, images: seq<string>): (n: nat)
    ensures n <= |images|
  {
    if images == [] then 0
    else
      CountCovered(fs, texts, journal, year, images[..|images| - 1])
      + (if Covered(fs, texts, journal, year, images[|images| - 1]) then 1 else 0)
  }

  function AbsentCounts(fs: FileSystem, std: seq<Profile>, journal: string, year: string, images: seq<string>): (r: seq<nat>)
    ensures |r| == |std|
  {
    seq(|std|, q requires 0 <= q < |std| => CountAbsent(fs, std[q], journal, year, images))
  }

  function EditionCounts(fs: FileSystem, texts: seq<Profile>, journal: string, year: string, images: seq<string>): (r: seq<nat>)
    ensures |r| == |texts|
  {
    seq(|texts|, k requires 0 <= k < |texts| => CountPresent(fs, texts[k], journal, year, images))
  }

  /** The summary of a year whose pages are `images`. */
  function CountsFor(fs: FileSystem, std: seq<Profile>, texts: seq<Profile>, journal: string, year: string, images: seq<string>): Summary
  {
    Summary(|images|, AbsentCounts(fs, std, journal, year, images),
            TextGroup(CountUncovered(fs, texts, journal, year, images), EditionCounts(fs, texts, journal, year, images)))
  }

  function YearSummary(fs: FileSystem, ps: seq<Profile>, journal: string, year: string): (s: Summary)
    requires ValidRegistry(ps)
    ensures Shaped(s, ps)
  {
    CountsFor(fs, StandardProfiles(ps), TextProfiles(ps), journal, year, ImageFiles(fs, SourceProfile(ps), journal, year))
  }

  // ---------------------------------------------------------------- sums

  function SumSeq(s: seq<nat>): nat
  {
    if s == [] then 0 else SumSeq(s[..|s| - 1]) + s[|s| - 1]
  }

  function Zeros(n: nat): (r: seq<nat>)
    ensures |r| == n && forall i :: 0 <= i < n ==> r[i] == 0
  {
    seq(n, i => 0)
  }

  function AddSeq(a: seq<nat>, b: seq<nat>): (r: seq<nat>)
    requires |a| == |b|
    ensures |r| == |a| && forall i :: 0 <= i < |a| ==> r[i] == a[i] + b[i]
  {
    seq(|a|, i requires 0 <= i < |a| => a[i] + b[i])
  }

  /** A summary with one counter per standard profile and per text edition. */
  predicate Shaped(s: Summary, ps: seq<Profile>)
    requires forall i :: 0 <= i < |ps| ==> |ps[i].pathParts| > 0
  {
    |s.profileCounts| == |StandardProfiles(ps)| && |s.textsGroup.editionCounts| == |TextProfiles(ps)|
  }

  function ZeroSummary(ps: seq<Profile>): (s: Summary)
    requires forall i :: 0 <= i < |ps| ==> |ps[i].pathParts| > 0
    ensures Shaped(s, ps)
  {
    Summary(0, Zeros(|StandardProfiles(ps)|), TextGroup(0, Zeros(|TextProfiles(ps)|)))
  }

  /** Adds every counter of `b` into `a` (the aggregation step of `scan_all_journals`). */
  function AddSummary(a: Summary, b: Summary): (r: Summary)
    requires |a.profileCounts| == |b.profileCounts|
    requires |a.textsGroup.editionCounts| == |b.textsGroup.editionCounts|
    ensures |r.profileCounts| == |a.profileCounts|
    ensures |r.textsGroup.editionCounts| == |a.textsGroup.editionCounts|
  {
    Summary(a.images + b.images, AddSeq(a.profileCounts, b.profileCounts),
            TextGroup(a.textsGroup.missingCoverage + b.textsGroup.missingCoverage,
                      AddSeq(a.textsGroup.editionCounts, b.textsGroup.editionCounts)))
  }

  // ---------------------------------------------------------------- years and journals

  predicate IsStoredYear(fs: FileSystem, ps: seq<Profile>, journal: string, year: string)
    requires ValidRegistry(ps)
  {
    var src := SourceProfile(ps);
    IsDir(fs, YearDir(src, journal, year)) && ParseYearString(year) && |ImageFiles(fs, src, journal, year)| > 0
  }

  function StoredYears(fs: FileSystem, ps: seq<Profile>, journal: string, names: seq<string>): (r: seq<string>)
    requires ValidRegistry(ps)
    ensures forall y :: y in r <==> y in names && IsStoredYear(fs, ps, journal, y)
  {
    if names == [] then []
    else
      var last := names[|names| - 1];
      assert names == names[..|names| - 1] + [last];
      StoredYears(fs, ps, journal, names[..|names| - 1]) + (if IsStoredYear(fs, ps, journal, last) then [last] else [])
  }

  /** The stored years of a journal, in the scan's (sorted) order. */
  function YearEntries(fs: FileSystem, ps: seq<Profile>, journal: string): seq<string>
    requires ValidRegistry(ps)
  {
    StoredYears(fs, ps, journal, Sort(Listing(fs, ImagesRoot(SourceProfile(ps), journal))))
  }

  function SumYears(fs: FileSystem, ps: seq<Profile>, journal: string, years: seq<string>): (s: Summary)
    requires ValidRegistry(ps)
    ensures Shaped(s, ps)
  {
    if years == [] then ZeroSummary(ps)
    else AddSummary(SumYears(fs, ps, journal, years[..|years| - 1]), YearSummary(fs, ps, journal, years[|years| - 1]))
  }

  function YearsMap(fs: FileSystem, ps: seq<Profile>, journal: string, years: seq<string>): map<string, Summary>
    requires ValidRegistry(ps)
  {
    map y | y in years :: YearSummary(fs, ps, journal, y)
  }

  /** A journal's entry in `results`: its summed counters and its stored years. */
  function JournalSpec(fs: FileSystem, ps: seq<Profile>, journal: string): (j: JournalData)
    requires ValidRegistry(ps)
    ensures Shaped(j.summary, ps)
    ensures forall y :: y in j.years ==> Shaped(j.years[y], ps)
  {
    var years := YearEntries(fs, ps, journal);
    JournalData(SumYears(fs, ps, journal, years), YearsMap(fs, ps, journal, years))
  }

  predicate IsJournal(fs: FileSystem, ps: seq<Profile>, journal: string)
    requires ValidRegistry(ps)
  {
    IsDir(fs, [journal]) && IsDir(fs, ImagesRoot(SourceProfile(ps), journal))
  }

  function ScannedJournals(fs: FileSystem, ps: seq<Profile>, names: seq<string>): (r: seq<string>)
    requires ValidRegistry(ps)
    ensures forall j :: j in r <==> j in names && IsJournal(fs, ps, j)
  {
    if names == [] then []
    else
      var last := names[|names| - 1];
      assert names == names[..|names| - 1] + [last];
      ScannedJournals(fs, ps, names[..|names| - 1]) + (if IsJournal(fs, ps, last) then [last] else [])
  }

  function JournalsMap(fs: FileSystem, ps: seq<Profile>, journals: seq<string>): ScanResults
    requires ValidRegistry(ps)
  {
    map j | j in journals :: JournalSpec(fs, ps, j)
  }

  /** The `results` of `scan_all_journals` over the archive rooted at []. */
  function Scan(fs: FileSystem, ps: seq<Profile>): (r: ScanResults)
    requires ValidRegistry(ps)
    ensures forall j :: j in r ==> Shaped(r[j].summary, ps)
  {
    JournalsMap(fs, ps, ScannedJournals(fs, ps, Sort(Listing(fs, []))))
  }
}
