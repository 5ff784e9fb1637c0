/**
 * `year_detail`: for one stored year, the names of the files each profile
 * other than "images" lacks, sorted, listing only profiles that lack some.
 */
module YearDetails {
  import opened Outcomes
  import opened Strings
  import opened Profiles
  import opened Archive
  import opened Coverage
  import opened CoverageLaws
  import opened OcrCandidates

  /** The file names profile `p` lacks for the pages `images`, in page order. */
  function MissingNames(fs: FileSystem, p: Profile, journal: string, year: string, images: seq<string>): seq<string>
  {
    if images == [] then []
    else
      var last := images[|images| - 1];
      MissingNames(fs, p, journal, year, images[..|images| - 1])
      + (if HasDerivative(fs, p, journal, year, last) then [] else [BaseName(last) + p.extension])
  }

  /** How the detail `d` must list profile `p`: sorted missing names, and only when there are some. */
  ghost predicate Lists(fs: FileSystem, p: Profile, journal: string, year: string, images: seq<string>,
                        d: map<string, seq<string>>)
  {
    var missing := MissingNames(fs, p, journal, year, images);
    && (p.name in d <==> missing != [])
    && (p.name in d ==> d[p.name] == Sort(missing))
  }

  /** What `missing_files_by_profile` must be for the year's pages. */
  ghost predicate IsYearDetail(fs: FileSystem, ps: seq<Profile>, journal: string, year: string, d: map<string, seq<string>>)
    requires ValidRegistry(ps)
  {
    var images := ImageFiles(fs, SourceProfile(ps), journal, year);
    && (forall p :: p in ps && p.name != SOURCE_NAME ==> Lists(fs, p, journal, year, images, d))
    && (forall n :: n in d ==> n != SOURCE_NAME && exists p :: p in ps && p.name == n)
  }

  /** `year_detail`, the inner loop: the names of the files `p` lacks, page by page. */
  method MissingFiles(fs: FileSystem, p: Profile, journal: string, year: string, images: seq<string>)
    returns (names: seq<string>)
    ensures names == MissingNames(fs, p, journal, year, images)
  {
    names := [];
    var i := 0;
    while i < |images|
      invariant 0 <= i <= |images|
      invariant names == MissingNames(fs, p, journal, year, images[..i])
    {
      assert images[..i + 1][..i] == images[..i];
      var target := Target(p, journal, year, images[i]);
      if !Exists(fs, target) {
        names := names + [target[|target| - 1]];
      }
      i := i + 1;
    }
    assert images[..i] == images;
  }

  /** `year_detail`, one profile: lists its missing files when there are some. */
  method AddProfile(fs: FileSystem, p: Profile, journal: string, year: string, images: seq<string>,
                    d: map<string, seq<string>>) returns (d': map<string, seq<string>>)
    requires p.name !in d
    ensures Lists(fs, p, journal, year, images, d')
    ensures forall n :: n != p.name ==> (n in d' <==> n in d) && (n in d ==> d'[n] == d[n])
    ensures forall n :: n in d' ==> n in d || n == p.name
  {
    var missing := MissingFiles(fs, p, journal, year, images);
    d' := d;
    if missing != [] {
      d' := d'[p.name := Sort(missing)];
    }
  }

  /** `year_detail`, the profile loop: the detail map for the pages `images`, profile by profile. */
  method MissingFilesByProfile(fs: FileSystem, ps: seq<Profile>, journal: string, year: string, images: seq<string>)
    returns (d: map<string, seq<string>>)
    requires DistinctNames(ps)
    ensures forall p :: p in ps && p.name != SOURCE_NAME ==> Lists(fs, p, journal, year, images, d)
    ensures forall n :: n in d ==> n != SOURCE_NAME && exists p :: p in ps && p.name == n
  {
    d := map[];
    var i := 0;
    while i < |ps|
      invariant 0 <= i <= |ps|
      invariant forall t :: 0 <= t < i && ps[t].name != SOURCE_NAME ==> Lists(fs, ps[t], journal, year, images, d)
      invariant forall n :: n in d ==> n != SOURCE_NAME && exists t :: 0 <= t < i && ps[t].name == n
    {
      if ps[i].name != SOURCE_NAME {
        ghost var before := d;
        d := AddProfile(fs, ps[i], journal, year, images, d);
        forall t | 0 <= t < i && ps[t].name != SOURCE_NAME
          ensures Lists(fs, ps[t], journal, year, images, d)
        {
          assert Lists(fs, ps[t], journal, year, images, before);
        }
      }
      i := i + 1;
    }
    forall p | p in ps && p.name != SOURCE_NAME ensures Lists(fs, p, journal, year, images, d) {
      var t :| 0 <= t < |ps| && ps[t] == p;
    }
  }

  /**
   * `year_detail` without its rendering: NotFound (the 404) unless the
   * journal and year are in the results; the error `iterdir()` raises when
   * the year's image folder is not a directory; otherwise the detail map.
   * Against the archive the results were scanned from it never fails, since
   * every stored year's folder is a directory (`StoredYearsAreDirectories`).
   */
  method YearDetail(fs: FileSystem, ps: seq<Profile>, results: ScanResults, journal: string, year: string)
    returns (res: Result<map<string, seq<string>>, Failure>)
    requires ValidRegistry(ps)
    ensures !InResults(results, YearRef(journal, year)) ==> res == Err(NotFound)
    ensures InResults(results, YearRef(journal, year)) ==>
              (res.Ok? <==> IsDir(fs, YearDir(SourceProfile(ps), journal, year)))
    ensures InResults(results, YearRef(journal, year)) && !IsDir(fs, YearDir(SourceProfile(ps), journal, year)) ==>
              res == Err(NotADirectory(YearDir(SourceProfile(ps), journal, year)))
    ensures res.Ok? ==> IsYearDetail(fs, ps, journal, year, res.value)
  {
    if !(journal in results && year in results[journal].years) {
      return Err(NotFound);
    }
    var src := SourceProfile(ps);
    var dir := YearDir(src, journal, year);
    if !IsDir(fs, dir) {
      return Err(NotADirectory(dir));
    }
    var d := MissingFilesByProfile(fs, ps, journal, year, ImageFiles(fs, src, journal, year));
    res := Ok(d);
  }

  // ---------------------------------------------------------------- what the detail means

  /**
   * The names a profile lacks are exactly the page base names plus its
   * extension for pages without its derivative; there is one per such page.
   */
  lemma {:induction false} MissingNamesMeaning(fs: FileSystem, p: Profile, journal: string, year: string, images: seq<string>)
    ensures |MissingNames(fs, p, journal, year, images)| == CountAbsent(fs, p, journal, year, images)
    ensures forall n :: n in MissingNames(fs, p, journal, year, images) <==>
              exists image :: image in images && !HasDerivative(fs, p, journal, year, image)
                              && n == BaseName(image) + p.extension
  {
    if images != [] {
      var init, last := images[..|images| - 1], images[|images| - 1];
      MissingNamesMeaning(fs, p, journal, year, init);
      assert images == init + [last];
    }
  }

  /** A listed profile has one name per page it lacks, in sorted order. */
  lemma ListedCount(fs: FileSystem, p: Profile, journal: string, year: string, images: seq<string>,
                    d: map<string, seq<string>>)
    requires Lists(fs, p, journal, year, images, d)
    ensures p.name in d <==> CountAbsent(fs, p, journal, year, images) > 0
    ensures p.name in d ==> |d[p.name]| == CountAbsent(fs, p, journal, year, images) && SortedStrings(d[p.name])
  {
    MissingNamesMeaning(fs, p, journal, year, images);
  }

  /**
   * Against the archive the results were scanned from, the detail agrees
   * with the stored year's counters: a standard profile is listed exactly
   * when its count is positive, with that many names, sorted.
   */
  lemma StandardDetailMeaning(fs: FileSystem, ps: seq<Profile>, journal: string, year: string, d: map<string, seq<string>>)
    requires ValidRegistry(ps)
    requires InResults(Scan(fs, ps), YearRef(journal, year))
    requires IsYearDetail(fs, ps, journal, year, d)
    ensures var s := YearOf(Scan(fs, ps), YearRef(journal, year));
            var std := StandardProfiles(ps);
            forall q :: 0 <= q < |std| ==>
              && (std[q].name in d <==> s.profileCounts[q] > 0)
              && (std[q].name in d ==> |d[std[q].name]| == s.profileCounts[q] && SortedStrings(d[std[q].name]))
  {
    ScannedJournal(fs, ps, journal);
    StoredYear(fs, ps, journal, year);
    var images := ImageFiles(fs, SourceProfile(ps), journal, year);
    var std := StandardProfiles(ps);
    var s := YearSummary(fs, ps, journal, year);
    forall q | 0 <= q < |std|
      ensures std[q].name in d <==> s.profileCounts[q] > 0
      ensures std[q].name in d ==> |d[std[q].name]| == s.profileCounts[q] && SortedStrings(d[std[q].name])
    {
      assert std[q] in std;
      assert s.profileCounts[q] == CountAbsent(fs, std[q], journal, year, images);
      ListedCount(fs, std[q], journal, year, images, d);
    }
  }

  /**
   * Likewise for the text editions: one is listed exactly when it covers
   * fewer pages than the year has, with one name per page it lacks, sorted.
   */
  lemma TextDetailMeaning(fs: FileSystem, ps: seq<Profile>, journal: string, year: string, d: map<string, seq<string>>)
    requires ValidRegistry(ps)
    requires InResults(Scan(fs, ps), YearRef(journal, year))
    requires IsYearDetail(fs, ps, journal, year, d)
    ensures var s := YearOf(Scan(fs, ps), YearRef(journal, year));
            var texts := TextProfiles(ps);
            forall k :: 0 <= k < |texts| && texts[k].name != SOURCE_NAME ==>
              && (texts[k].name in d <==> s.textsGroup.editionCounts[k] < s.images)
              && (texts[k].name in d ==> |d[texts[k].name]| + s.textsGroup.editionCounts[k] == s.images
                                         && SortedStrings(d[texts[k].name]))
  {
    ScannedJournal(fs, ps, journal);
    StoredYear(fs, ps, journal, year);
    var images := ImageFiles(fs, SourceProfile(ps), journal, year);
    var texts := TextProfiles(ps);
    var s := YearSummary(fs, ps, journal, year);
    forall k | 0 <= k < |texts| && texts[k].name != SOURCE_NAME
      ensures texts[k].name in d <==> s.textsGroup.editionCounts[k] < s.images
      ensures texts[k].name in d ==> |d[texts[k].name]| + s.textsGroup.editionCounts[k] == s.images
                                     && SortedStrings(d[texts[k].name])
    {
      assert texts[k] in texts;
      assert s.textsGroup.editionCounts[k] == CountPresent(fs, texts[k], journal, year, images);
      ListedCount(fs, texts[k], journal, year, images, d);
      AbsentPresentSplit(fs, texts[k], journal, year, images);
    }
  }
}
