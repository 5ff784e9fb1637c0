/**
 * `generate_ocr_candidates`: sorts every scanned year into "missing" (no
 * text edition file at all) or "incomplete" (some page without text), then
 * lists, for the incomplete years only, every page no text edition covers.
 */
module OcrCandidates {
  import opened Outcomes
  import opened Strings
  import opened Profiles
  import opened Archive
  import opened Coverage
  import opened CoverageLaws

  datatype YearRef = YearRef(journal: string, year: string)

  /** A row of the "missing pages" report. */
  datatype MissingPage = MissingPage(journal: string, year: string, imageFile: string)

  datatype OcrReport = OcrReport(missingYears: seq<YearRef>, incompleteYears: seq<YearRef>, missingPages: seq<MissingPage>)

  /** `generate_ocr_candidates`' first test: no text edition file at all in a year that has pages. */
  predicate IsMissingYear(s: Summary)
  {
    SumSeq(s.textsGroup.editionCounts) == 0 && s.images > 0
  }

  /** `generate_ocr_candidates`' second test: not a missing year, but some page lacks a text. */
  predicate IsIncompleteYear(s: Summary)
  {
    !IsMissingYear(s) && s.textsGroup.missingCoverage > 0
  }

  predicate InResults(results: ScanResults, r: YearRef)
  {
    r.journal in results && r.year in results[r.journal].years
  }

  function YearOf(results: ScanResults, r: YearRef): Summary
    requires InResults(results, r)
  {
    results[r.journal].years[r.year]
  }

  // ---------------------------------------------------------------- classification

  /** The condition for `missing_years` and `incomplete_years` after `done` journals (and `doneYears` of `current`). */
  ghost predicate ClassifiedSoFar(results: ScanResults, done: set<string>, current: string, doneYears: set<string>,
                            missingYears: seq<YearRef>, incompleteYears: seq<YearRef>)
  {
    && (forall r :: r in missingYears <==>
          InResults(results, r) && (r.journal in done || (r.journal == current && r.year in doneYears))
          && IsMissingYear(YearOf(results, r)))
    && (forall r :: r in incompleteYears <==>
          InResults(results, r) && (r.journal in done || (r.journal == current && r.year in doneYears))
          && IsIncompleteYear(YearOf(results, r)))
    && NoDuplicates(missingYears) && NoDuplicates(incompleteYears)
  }

  /**
   * `generate_ocr_candidates`, the year loops: every stored (journal, year) goes into `missing_years`
   * when it is a missing year, into `incomplete_years` when it is an
   * incomplete one, and nowhere else; each at most once. The dictionaries
   * are visited in an unspecified order, where the source follows their
   * insertion order (sorted journals, then sorted years, after a scan).
   */
  method ClassifyYears(results: ScanResults) returns (missingYears: seq<YearRef>, incompleteYears: seq<YearRef>)
    ensures forall r :: r in missingYears <==> InResults(results, r) && IsMissingYear(YearOf(results, r))
    ensures forall r :: r in incompleteYears <==> InResults(results, r) && IsIncompleteYear(YearOf(results, r))
    ensures NoDuplicates(missingYears) && NoDuplicates(incompleteYears)
    ensures forall r :: !(r in missingYears && r in incompleteYears)
  {
    missingYears, incompleteYears := [], [];
    var journals := results.Keys;
    ghost var done: set<string> := {};
    while journals != {}
      invariant done == results.Keys - journals
      invariant ClassifiedSoFar(results, done, "", {}, missingYears, incompleteYears)
      decreases journals
    {
      var journal :| journal in journals;
      var years := results[journal].years.Keys;
      ghost var doneYears: set<string> := {};
      while years != {}
        invariant doneYears == results[journal].years.Keys - years
        invariant ClassifiedSoFar(results, done, journal, doneYears, missingYears, incompleteYears)
        decreases years
      {
        var year :| year in years;
        var s := results[journal].years[year];
        var r := YearRef(journal, year);
        assert r !in missingYears && r !in incompleteYears;
        if SumSeq(s.textsGroup.editionCounts) == 0 && s.images > 0 {
          missingYears := missingYears + [r];
        } else if s.textsGroup.missingCoverage > 0 {
          incompleteYears := incompleteYears + [r];
        }
        years := years - {year};
        doneYears := doneYears + {year};
      }
      journals := journals - {journal};
      done := done + {journal};
    }
  }

  // ---------------------------------------------------------------- missing pages

  /** The pages of `images` no text edition has a file for, in order. */
  function UncoveredImages(fs: FileSystem, texts: seq<Profile>, journal: string, year: string, images: seq<string>): seq<string>
  {
    if images == [] then []
    else
      var last := images[|images| - 1];
      UncoveredImages(fs, texts, journal, year, images[..|images| - 1])
      + (if Covered(fs, texts, journal, year, last) then [] else [last])
  }

  function PageRows(journal: string, year: string, names: seq<string>): (rows: seq<MissingPage>)
    ensures |rows| == |names|
    ensures forall i :: 0 <= i < |rows| ==> rows[i] == MissingPage(journal, year, names[i])
  {
    if names == [] then [] else [MissingPage(journal, year, names[0])] + PageRows(journal, year, names[1..])
  }

  /** The report rows of one year: its uncovered pages, in listing order. */
  function YearRows(fs: FileSystem, ps: seq<Profile>, r: YearRef): seq<MissingPage>
    requires ValidRegistry(ps)
  {
    var images := ImageFiles(fs, SourceProfile(ps), r.journal, r.year);
    PageRows(r.journal, r.year, UncoveredImages(fs, TextProfiles(ps), r.journal, r.year, images))
  }

  function MissingPageRows(fs: FileSystem, ps: seq<Profile>, refs: seq<YearRef>): seq<MissingPage>
    requires ValidRegistry(ps)
  {
    if refs == [] then [] else MissingPageRows(fs, ps, refs[..|refs| - 1]) + YearRows(fs, ps, refs[|refs| - 1])
  }

  /** `generate_ocr_candidates`, the `is_covered` loop: whether any text edition has the page, stopping at the first that does. */
  method HasTextCoverage(fs: FileSystem, texts: seq<Profile>, journal: string, year: string, image: string)
    returns (covered: bool)
    ensures covered == Covered(fs, texts, journal, year, image)
  {
    covered := false;
    var k := 0;
    while k < |texts|
      invariant 0 <= k <= |texts|
      invariant !exists t :: 0 <= t < k && HasDerivative(fs, texts[t], journal, year, image)
    {
      if Exists(fs, Target(texts[k], journal, year, image)) {
        covered := true;
        break;
      }
      k := k + 1;
    }
  }

  /** `generate_ocr_candidates`, one incomplete year: the rows for one incomplete year, or the error `iterdir()` raises. */
  method YearMissingPages(fs: FileSystem, ps: seq<Profile>, r: YearRef) returns (res: Result<seq<MissingPage>, Failure>)
    requires ValidRegistry(ps)
    ensures res.Ok? <==> IsDir(fs, YearDir(SourceProfile(ps), r.journal, r.year))
    ensures res.Ok? ==> res.value == YearRows(fs, ps, r)
    ensures res.Err? ==> res.error == NotADirectory(YearDir(SourceProfile(ps), r.journal, r.year))
  {
    var src := SourceProfile(ps);
    var texts := TextProfiles(ps);
    var dir := YearDir(src, r.journal, r.year);
    if !IsDir(fs, dir) {
      return Err(NotADirectory(dir));
    }
    var images := ImageFiles(fs, src, r.journal, r.year);
    var rows: seq<MissingPage> := [];
    var i := 0;
    while i < |images|
      invariant 0 <= i <= |images|
      invariant rows == PageRows(r.journal, r.year, UncoveredImages(fs, texts, r.journal, r.year, images[..i]))
    {
      assert images[..i + 1][..i] == images[..i];
      var covered := HasTextCoverage(fs, texts, r.journal, r.year, images[i]);
      if !covered {
        rows := rows + [MissingPage(r.journal, r.year, images[i])];
      }
      i := i + 1;
    }
    assert images[..i] == images;
    res := Ok(rows);
  }

  /** `generate_ocr_candidates`, the page loops: the missing-page rows of every incomplete year, in order. */
  method ListMissingPages(fs: FileSystem, ps: seq<Profile>, incompleteYears: seq<YearRef>)
    returns (res: Result<seq<MissingPage>, Failure>)
    requires ValidRegistry(ps)
    ensures res.Ok? <==> forall r :: r in incompleteYears ==> IsDir(fs, YearDir(SourceProfile(ps), r.journal, r.year))
    ensures res.Ok? ==> res.value == MissingPageRows(fs, ps, incompleteYears)
    ensures res.Err? ==> exists r :: r in incompleteYears && !IsDir(fs, YearDir(SourceProfile(ps), r.journal, r.year))
                                     && res.error == NotADirectory(YearDir(SourceProfile(ps), r.journal, r.year))
  {
    var pages: seq<MissingPage> := [];
    var i := 0;
    while i < |incompleteYears|
      invariant 0 <= i <= |incompleteYears|
      invariant forall r :: r in incompleteYears[..i] ==> IsDir(fs, YearDir(SourceProfile(ps), r.journal, r.year))
      invariant pages == MissingPageRows(fs, ps, incompleteYears[..i])
    {
      assert incompleteYears[..i + 1][..i] == incompleteYears[..i];
      var rows := YearMissingPages(fs, ps, incompleteYears[i]);
      if rows.Err? {
        return Err(rows.error);
      }
      pages := pages + rows.value;
      i := i + 1;
    }
    assert incompleteYears[..i] == incompleteYears;
    res := Ok(pages);
  }

  /** What a generated report must be for `results` against the archive `fs`. */
  ghost predicate IsOcrReport(fs: FileSystem, ps: seq<Profile>, results: ScanResults, report: OcrReport)
    requires ValidRegistry(ps)
  {
    && (forall r :: r in report.missingYears <==> InResults(results, r) && IsMissingYear(YearOf(results, r)))
    && (forall r :: r in report.incompleteYears <==> InResults(results, r) && IsIncompleteYear(YearOf(results, r)))
    && NoDuplicates(report.missingYears) && NoDuplicates(report.incompleteYears)
    && report.missingPages == MissingPageRows(fs, ps, report.incompleteYears)
  }

  /**
   * `generate_ocr_candidates` without its I/O: classifies the years of the
   * results, then lists the uncovered pages of the incomplete ones. It
   * fails exactly when some incomplete year's image folder is not a
   * directory (the error `iterdir()` raises for that folder), which cannot
   * happen against the archive the results were scanned from but can with
   * results loaded from an earlier scan.
   */
  method GenerateOcrCandidates(fs: FileSystem, ps: seq<Profile>, results: ScanResults)
    returns (res: Result<OcrReport, Failure>)
    requires ValidRegistry(ps)
    ensures res.Ok? ==> IsOcrReport(fs, ps, results, res.value)
    ensures res.Err? <==> exists r :: InResults(results, r) && IsIncompleteYear(YearOf(results, r))
                                     && !IsDir(fs, YearDir(SourceProfile(ps), r.journal, r.year))
    ensures res.Err? ==> exists r :: InResults(results, r) && IsIncompleteYear(YearOf(results, r))
                                     && res.error == NotADirectory(YearDir(SourceProfile(ps), r.journal, r.year))
    ensures results == Scan(fs, ps) ==> res.Ok?
  {
    var missingYears, incompleteYears := ClassifyYears(results);
    if results == Scan(fs, ps) {
      StoredYearsAreDirectories(fs, ps, incompleteYears);
    }
    var pages := ListMissingPages(fs, ps, incompleteYears);
    if pages.Err? {
      return Err(pages.error);
    }
    res := Ok(OcrReport(missingYears, incompleteYears, pages.value));
  }

  // ---------------------------------------------------------------- what the report means

  /** The image folder of every year a scan stored is a directory. */
  lemma StoredYearsAreDirectories(fs: FileSystem, ps: seq<Profile>, refs: seq<YearRef>)
    requires ValidRegistry(ps)
    requires forall r :: r in refs ==> InResults(Scan(fs, ps), r)
    ensures forall r :: r in refs ==> IsDir(fs, YearDir(SourceProfile(ps), r.journal, r.year))
  {
    forall r | r in refs ensures IsDir(fs, YearDir(SourceProfile(ps), r.journal, r.year)) {
      ScannedJournal(fs, ps, r.journal);
      StoredYear(fs, ps, r.journal, r.year);
    }
  }

  lemma {:induction false} UncoveredImagesCount(fs: FileSystem, texts: seq<Profile>, journal: string, year: string, images: seq<string>)
    ensures |UncoveredImages(fs, texts, journal, year, images)| == CountUncovered(fs, texts, journal, year, images)
    ensures forall n :: n in UncoveredImages(fs, texts, journal, year, images) ==>
              n in images && !Covered(fs, texts, journal, year, n)
  {
    if images != [] {
      UncoveredImagesCount(fs, texts, journal, year, images[..|images| - 1]);
    }
  }

  /** The rows of `rows` that belong to the year `r`. */
  function RowsOf(rows: seq<MissingPage>, r: YearRef): seq<MissingPage>
  {
    if rows == [] then []
    else
      var last := rows[|rows| - 1];
      RowsOf(rows[..|rows| - 1], r) + (if last.journal == r.journal && last.year == r.year then [last] else [])
  }

  lemma {:induction false} RowsOfConcat(a: seq<MissingPage>, b: seq<MissingPage>, r: YearRef)
    ensures RowsOf(a + b, r) == RowsOf(a, r) + RowsOf(b, r)
  {
    if b != [] {
      RowsOfConcat(a, b[..|b| - 1], r);
      assert (a + b)[..|a + b| - 1] == a + b[..|b| - 1];
      assert (a + b)[|a + b| - 1] == b[|b| - 1];
    } else {
      assert a + b == a;
    }
  }

  lemma {:induction false} RowsOfPageRows(journal: string, year: string, names: seq<string>, r: YearRef)
    ensures RowsOf(PageRows(journal, year, names), r)
            == if journal == r.journal && year == r.year then PageRows(journal, year, names) else []
  {
    var rows := PageRows(journal, year, names);
    if names != [] {
      var init := PageRows(journal, year, names[..|names| - 1]);
      RowsOfPageRows(journal, year, names[..|names| - 1], r);
      assert rows[..|rows| - 1] == init;
      assert rows == init + [rows[|rows| - 1]];
      assert rows[|rows| - 1] == MissingPage(journal, year, names[|names| - 1]);
    }
  }

  /** Every missing-page row comes from a year of `refs`. */
  lemma {:induction false} RowsComeFromRefs(fs: FileSystem, ps: seq<Profile>, refs: seq<YearRef>)
    requires ValidRegistry(ps)
    ensures forall row :: row in MissingPageRows(fs, ps, refs) ==> YearRef(row.journal, row.year) in refs
  {
    if refs != [] {
      var init, last := refs[..|refs| - 1], refs[|refs| - 1];
      RowsComeFromRefs(fs, ps, init);
      forall row | row in YearRows(fs, ps, last) ensures YearRef(row.journal, row.year) == last {
        var rows := YearRows(fs, ps, last);
        var i :| 0 <= i < |rows| && rows[i] == row;
      }
    }
  }

  /** The rows of a year listed once in `refs` are its uncovered pages. */
  lemma {:induction false} RowsOfListedYear(fs: FileSystem, ps: seq<Profile>, refs: seq<YearRef>, r: YearRef)
    requires ValidRegistry(ps)
    requires NoDuplicates(refs)
    ensures RowsOf(MissingPageRows(fs, ps, refs), r) == if r in refs then YearRows(fs, ps, r) else []
  {
    if refs != [] {
      var init, last := refs[..|refs| - 1], refs[|refs| - 1];
      assert NoDuplicates(init);
      RowsOfListedYear(fs, ps, init, r);
      RowsOfConcat(MissingPageRows(fs, ps, init), YearRows(fs, ps, last), r);
      var images := ImageFiles(fs, SourceProfile(ps), last.journal, last.year);
      RowsOfPageRows(last.journal, last.year, UncoveredImages(fs, TextProfiles(ps), last.journal, last.year, images), r);
      assert r in refs <==> r in init || r == last;
      assert last !in init;
    }
  }

  /**
   * Against the archive the results were scanned from: a missing year is a
   * year none of whose pages has a text; an incomplete year is one where
   * some but not all pages have one; and the pages of the report for an
   * incomplete year number exactly its `missing_coverage`, while a missing
   * year has no row at all.
   */
  lemma OcrReportMeaning(fs: FileSystem, ps: seq<Profile>, report: OcrReport)
    requires ValidRegistry(ps)
    requires IsOcrReport(fs, ps, Scan(fs, ps), report)
    ensures forall r :: r in report.missingYears ==>
              var s := YearOf(Scan(fs, ps), r);
              s.images > 0 && s.textsGroup.missingCoverage == s.images
    ensures forall r :: r in report.incompleteYears ==>
              var s := YearOf(Scan(fs, ps), r);
              0 < s.textsGroup.missingCoverage < s.images
    ensures forall r :: r in report.incompleteYears ==>
              |RowsOf(report.missingPages, r)| == YearOf(Scan(fs, ps), r).textsGroup.missingCoverage
    ensures forall r :: r in report.missingYears ==> RowsOf(report.missingPages, r) == []
    ensures forall row :: row in report.missingPages ==> YearRef(row.journal, row.year) !in report.missingYears
  {
    var results := Scan(fs, ps);
    forall r | InResults(results, r)
      ensures YearOf(results, r) == YearSummary(fs, ps, r.journal, r.year)
      ensures YearOf(results, r).images > 0
    {
      ScannedJournal(fs, ps, r.journal);
      StoredYear(fs, ps, r.journal, r.year);
    }
    forall r | r in report.missingYears || r in report.incompleteYears
      ensures var s := YearOf(results, r);
              SumSeq(s.textsGroup.editionCounts) == 0 <==> s.textsGroup.missingCoverage == s.images
      ensures YearOf(results, r).textsGroup.missingCoverage <= YearOf(results, r).images
    {
      NoEditionIffNoCoverage(fs, ps, r.journal, r.year);
    }
    forall r | r in report.incompleteYears || r in report.missingYears
      ensures RowsOf(report.missingPages, r) == if r in report.incompleteYears then YearRows(fs, ps, r) else []
    {
      RowsOfListedYear(fs, ps, report.incompleteYears, r);
    }
    forall r | r in report.incompleteYears
      ensures |YearRows(fs, ps, r)| == YearOf(results, r).textsGroup.missingCoverage
    {
      var images := ImageFiles(fs, SourceProfile(ps), r.journal, r.year);
      UncoveredImagesCount(fs, TextProfiles(ps), r.journal, r.year, images);
    }
    RowsComeFromRefs(fs, ps, report.incompleteYears);
  }
}
