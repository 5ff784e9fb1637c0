/**
 * `scan_all_journals`: the nested loops over journals, year folders, pages
 * and profiles that fill the results dictionaries, each proved to compute
 * the corresponding function of `Coverage`.
 */
module Scanner {
  import opened Outcomes
  import opened Strings
  import opened YearNames
  import opened Profiles
  import opened Archive
  import opened Coverage

  /** `scan_all_journals`, the standard-profile check: one page checked against every standard profile. */
  method CheckStandard(fs: FileSystem, std: seq<Profile>, journal: string, year: string, image: string,
                       absent: seq<nat>) returns (r: seq<nat>)
    requires |absent| == |std|
    ensures |r| == |std|
    ensures forall q :: 0 <= q < |std| ==>
              r[q] == absent[q] + (if HasDerivative(fs, std[q], journal, year, image) then 0 else 1)
  {
    r := absent;
    var q := 0;
    while q < |std|
      invariant 0 <= q <= |std| && |r| == |std|
      invariant forall t :: 0 <= t < q ==>
                  r[t] == absent[t] + (if HasDerivative(fs, std[t], journal, year, image) then 0 else 1)
      invariant forall t :: q <= t < |std| ==> r[t] == absent[t]
    {
      if !Exists(fs, Target(std[q], journal, year, image)) {
        r := r[q := r[q] + 1];
      }
      q := q + 1;
    }
  }

  /**
   * `scan_all_journals`, the text-profile check: one page checked against every text edition; counts each
   * edition that has the page and tells whether any has it.
   */
  method CheckTexts(fs: FileSystem, texts: seq<Profile>, journal: string, year: string, image: string,
                    editions: seq<nat>) returns (r: seq<nat>, covered: bool)
    requires |editions| == |texts|
    ensures |r| == |texts|
    ensures forall k :: 0 <= k < |texts| ==>
              r[k] == editions[k] + (if HasDerivative(fs, texts[k], journal, year, image) then 1 else 0)
    ensures covered == Covered(fs, texts, journal, year, image)
  {
    r := editions;
    covered := false;
    var k := 0;
    while k < |texts|
      invariant 0 <= k <= |texts| && |r| == |texts|
      invariant covered <==> exists t :: 0 <= t < k && HasDerivative(fs, texts[t], journal, year, image)
      invariant forall t :: 0 <= t < k ==>
                  r[t] == editions[t] + (if HasDerivative(fs, texts[t], journal, year, image) then 1 else 0)
      invariant forall t :: k <= t < |texts| ==> r[t] == editions[t]
    {
      if Exists(fs, Target(texts[k], journal, year, image)) {
        covered := true;
        r := r[k := r[k] + 1];
      }
      k := k + 1;
    }
  }

  /** How every page count grows by one page. */
  lemma CountStep(fs: FileSystem, std: seq<Profile>, texts: seq<Profile>, journal: string, year: string,
                  images: seq<string>, i: nat)
    requires i < |images|
    ensures forall q :: 0 <= q < |std| ==>
              CountAbsent(fs, std[q], journal, year, images[..i + 1])
              == CountAbsent(fs, std[q], journal, year, images[..i])
                 + (if HasDerivative(fs, std[q], journal, year, images[i]) then 0 else 1)
    ensures forall k :: 0 <= k < |texts| ==>
              CountPresent(fs, texts[k], journal, year, images[..i + 1])
              == CountPresent(fs, texts[k], journal, year, images[..i])
                 + (if HasDerivative(fs, texts[k], journal, year, images[i]) then 1 else 0)
    ensures CountUncovered(fs, texts, journal, year, images[..i + 1])
            == CountUncovered(fs, texts, journal, year, images[..i])
               + (if Covered(fs, texts, journal, year, images[i]) then 0 else 1)
  {
    assert images[..i + 1][..i] == images[..i];
  }

  /**
   * `scan_all_journals`, one year folder: counts the pages of one year folder against every standard
   * profile and every text edition; None when the folder holds no image file
   * (the year is then skipped).
   */
  method ScanYear(fs: FileSystem, ps: seq<Profile>, journal: string, year: string) returns (r: Option<Summary>)
    requires ValidRegistry(ps)
    ensures r.None? <==> |ImageFiles(fs, SourceProfile(ps), journal, year)| == 0
    ensures r.Some? ==> r.value == YearSummary(fs, ps, journal, year)
  {
    var src := SourceProfile(ps);
    var std, texts := StandardProfiles(ps), TextProfiles(ps);
    var images := ImageFiles(fs, src, journal, year);
    if |images| == 0 {
      return None;
    }
    var absent := Zeros(|std|);
    var missingCoverage := 0;
    var editions := Zeros(|texts|);
    var i := 0;
    while i < |images|
      invariant 0 <= i <= |images|
      invariant |absent| == |std| && |editions| == |texts|
      invariant forall q :: 0 <= q < |std| ==> absent[q] == CountAbsent(fs, std[q], journal, year, images[..i])
      invariant missingCoverage == CountUncovered(fs, texts, journal, year, images[..i])
      invariant forall k :: 0 <= k < |texts| ==> editions[k] == CountPresent(fs, texts[k], journal, year, images[..i])
    {
      CountStep(fs, std, texts, journal, year, images, i);
      absent := CheckStandard(fs, std, journal, year, images[i], absent);
      var covered;
      editions, covered := CheckTexts(fs, texts, journal, year, images[i], editions);
      if !covered {
        missingCoverage := missingCoverage + 1;
      }
      i := i + 1;
    }
    assert images[..i] == images;
    assert absent == AbsentCounts(fs, std, journal, year, images);
    assert editions == EditionCounts(fs, texts, journal, year, images);
    r := Some(Summary(|images|, absent, TextGroup(missingCoverage, editions)));
  }

  /** `scan_all_journals`, the aggregation: adds a year's counters into the journal's summary. */
  method Accumulate(total: Summary, year: Summary) returns (r: Summary)
    requires |total.profileCounts| == |year.profileCounts|
    requires |total.textsGroup.editionCounts| == |year.textsGroup.editionCounts|
    ensures r == AddSummary(total, year)
  {
    var counts := total.profileCounts;
    var q := 0;
    while q < |counts|
      invariant 0 <= q <= |counts| == |year.profileCounts|
      invariant forall t :: 0 <= t < q ==> counts[t] == total.profileCounts[t] + year.profileCounts[t]
      invariant forall t :: q <= t < |counts| ==> counts[t] == total.profileCounts[t]
    {
      counts := counts[q := counts[q] + year.profileCounts[q]];
      q := q + 1;
    }
    var editions := total.textsGroup.editionCounts;
    var k := 0;
    while k < |editions|
      invariant 0 <= k <= |editions| == |year.textsGroup.editionCounts|
      invariant forall t :: 0 <= t < k ==> editions[t] == total.textsGroup.editionCounts[t] + year.textsGroup.editionCounts[t]
      invariant forall t :: k <= t < |editions| ==> editions[t] == total.textsGroup.editionCounts[t]
    {
      editions := editions[k := editions[k] + year.textsGroup.editionCounts[k]];
      k := k + 1;
    }
    r := Summary(total.images + year.images, counts,
                 TextGroup(total.textsGroup.missingCoverage + year.textsGroup.missingCoverage, editions));
  }

  lemma StoredYearsStep(fs: FileSystem, ps: seq<Profile>, journal: string, entries: seq<string>, i: nat)
    requires ValidRegistry(ps)
    requires i < |entries|
    ensures var before := StoredYears(fs, ps, journal, entries[..i]);
            var y := entries[i];
            StoredYears(fs, ps, journal, entries[..i + 1])
            == if IsStoredYear(fs, ps, journal, y) then before + [y] else before
  {
    assert entries[..i + 1][..i] == entries[..i];
  }

  lemma AddYearStep(fs: FileSystem, ps: seq<Profile>, journal: string, years: seq<string>, y: string)
    requires ValidRegistry(ps)
    ensures SumYears(fs, ps, journal, years + [y])
            == AddSummary(SumYears(fs, ps, journal, years), YearSummary(fs, ps, journal, y))
    ensures YearsMap(fs, ps, journal, years + [y])
            == YearsMap(fs, ps, journal, years)[y := YearSummary(fs, ps, journal, y)]
  {
    assert (years + [y])[..|years|] == years;
  }

  /**
   * `scan_all_journals`, one pass of the year loop: a year folder is skipped unless it is a
   * directory with a valid year name holding image files; otherwise its
   * summary is stored and added into the journal's summary.
   */
  method ScanYearFolder(fs: FileSystem, ps: seq<Profile>, journal: string, year: string,
                        summary: Summary, years: map<string, Summary>)
    returns (summary': Summary, years': map<string, Summary>)
    requires ValidRegistry(ps)
    requires Shaped(summary, ps)
    ensures IsStoredYear(fs, ps, journal, year) ==>
              && summary' == AddSummary(summary, YearSummary(fs, ps, journal, year))
              && years' == years[year := YearSummary(fs, ps, journal, year)]
    ensures !IsStoredYear(fs, ps, journal, year) ==> summary' == summary && years' == years
  {
    summary', years' := summary, years;
    var src := SourceProfile(ps);
    if IsDir(fs, YearDir(src, journal, year)) && ParseYearString(year) {
      var r := ScanYear(fs, ps, journal, year);
      if r.Some? {
        summary' := Accumulate(summary, r.value);
        years' := years[year := r.value];
      }
    }
  }

  /** `scan_all_journals`, one journal: scans the year folders of one journal, in sorted order. */
  method ScanJournal(fs: FileSystem, ps: seq<Profile>, journal: string) returns (jd: JournalData)
    requires ValidRegistry(ps)
    ensures jd == JournalSpec(fs, ps, journal)
  {
    var src := SourceProfile(ps);
    var entries := Sort(Listing(fs, ImagesRoot(src, journal)));
    var summary := ZeroSummary(ps);
    var years: map<string, Summary> := map[];
    var i := 0;
    while i < |entries|
      invariant 0 <= i <= |entries|
      invariant summary == SumYears(fs, ps, journal, StoredYears(fs, ps, journal, entries[..i]))
      invariant years == YearsMap(fs, ps, journal, StoredYears(fs, ps, journal, entries[..i]))
    {
      StoredYearsStep(fs, ps, journal, entries, i);
      AddYearStep(fs, ps, journal, StoredYears(fs, ps, journal, entries[..i]), entries[i]);
      summary, years := ScanYearFolder(fs, ps, journal, entries[i], summary, years);
      i := i + 1;
    }
    assert entries[..i] == entries;
    jd := JournalData(summary, years);
  }

  lemma JournalStep(fs: FileSystem, ps: seq<Profile>, entries: seq<string>, i: nat)
    requires ValidRegistry(ps)
    requires i < |entries|
    ensures var before := ScannedJournals(fs, ps, entries[..i]);
            var j := entries[i];
            JournalsMap(fs, ps, ScannedJournals(fs, ps, entries[..i + 1]))
            == if IsJournal(fs, ps, j) then JournalsMap(fs, ps, before)[j := JournalSpec(fs, ps, j)]
               else JournalsMap(fs, ps, before)
  {
    assert entries[..i + 1][..i] == entries[..i];
  }

  /**
   * `scan_all_journals`: the results for every journal folder under the
   * root, or the error `iterdir()` raises when the root is not a directory.
   */
  method ScanAllJournals(fs: FileSystem, ps: seq<Profile>) returns (res: Result<ScanResults, Failure>)
    requires ValidRegistry(ps)
    ensures res.Err? <==> !IsDir(fs, [])
    ensures res.Err? ==> res.error == NotADirectory([])
    ensures res.Ok? ==> res.value == Scan(fs, ps)
  {
    if !IsDir(fs, []) {
      return Err(NotADirectory([]));
    }
    var src := SourceProfile(ps);
    var entries := Sort(Listing(fs, []));
    var results := map[];
    var i := 0;
    while i < |entries|
      invariant 0 <= i <= |entries|
      invariant results == JournalsMap(fs, ps, ScannedJournals(fs, ps, entries[..i]))
    {
      var journal := entries[i];
      JournalStep(fs, ps, entries, i);
      if IsDir(fs, [journal]) && IsDir(fs, ImagesRoot(src, journal)) {
        var jd := ScanJournal(fs, ps, journal);
        results := results[journal := jd];
      }
      i := i + 1;
    }
    assert entries[..i] == entries;
    res := Ok(results);
  }
}
