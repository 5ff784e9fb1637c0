/**
 * What the numbers of a scan mean: every counter is a number of pages, the
 * text group follows an OR over the editions, a journal's summary is the
 * sum of its stored years, and the scan stores exactly the journals and
 * years the archive's layout calls for.
 */
module CoverageLaws {
  import opened Strings
  import opened YearNames
  import opened Profiles
  import opened Archive
  import opened Coverage

  // ---------------------------------------------------------------- page counts

  /** Every page either has its derivative or lacks it. */
  lemma {:induction false} AbsentPresentSplit(fs: FileSystem, p: Profile, journal: string, year: string, images: seq<string>)
    ensures CountAbsent(fs, p, journal, year, images) + CountPresent(fs, p, journal, year, images) == |images|
  {
    if images != [] {
      AbsentPresentSplit(fs, p, journal, year, images[..|images| - 1]);
    }
  }

  /** Every page is either covered by some text edition or by none. */
  lemma {:induction false} CoveredSplit(fs: FileSystem, texts: seq<Profile>, journal: string, year: string, images: seq<string>)
    ensures CountUncovered(fs, texts, journal, year, images) + CountCovered(fs, texts, journal, year, images) == |images|
  {
    if images != [] {
      CoveredSplit(fs, texts, journal, year, images[..|images| - 1]);
    }
  }

  /** A page one edition has is a covered page: each edition count is at most the covered count. */
  lemma {:induction false} EditionWithinCovered(fs: FileSystem, texts: seq<Profile>, k: nat, journal: string, year: string, images: seq<string>)
    requires k < |texts|
    ensures CountPresent(fs, texts[k], journal, year, images) <= CountCovered(fs, texts, journal, year, images)
  {
    if images != [] {
      EditionWithinCovered(fs, texts, k, journal, year, images[..|images| - 1]);
    }
  }

  /** Covering by `texts` is covering by its first editions or by its last. */
  lemma {:induction false} UnionBound(fs: FileSystem, texts: seq<Profile>, journal: string, year: string, images: seq<string>)
    requires |texts| > 0
    ensures CountCovered(fs, texts, journal, year, images)
            <= CountCovered(fs, texts[..|texts| - 1], journal, year, images)
               + CountPresent(fs, texts[|texts| - 1], journal, year, images)
  {
    if images != [] {
      UnionBound(fs, texts, journal, year, images[..|images| - 1]);
      var x := images[|images| - 1];
      if Covered(fs, texts, journal, year, x) {
        var k :| 0 <= k < |texts| && HasDerivative(fs, texts[k], journal, year, x);
        if k < |texts| - 1 {
          assert texts[..|texts| - 1][k] == texts[k];
        }
      }
    }
  }

  /** A covered page is counted by at least one edition: covered <= sum of edition counts. */
  lemma {:induction false} CoveredWithinEditions(fs: FileSystem, texts: seq<Profile>, journal: string, year: string, images: seq<string>)
    ensures CountCovered(fs, texts, journal, year, images) <= SumSeq(EditionCounts(fs, texts, journal, year, images))
  {
    if texts == [] {
      NothingCovered(fs, texts, journal, year, images);
    } else {
      var init := texts[..|texts| - 1];
      CoveredWithinEditions(fs, init, journal, year, images);
      UnionBound(fs, texts, journal, year, images);
      var e := EditionCounts(fs, texts, journal, year, images);
      assert e[..|e| - 1] == EditionCounts(fs, init, journal, year, images);
    }
  }

  lemma {:induction false} NothingCovered(fs: FileSystem, texts: seq<Profile>, journal: string, year: string, images: seq<string>)
    requires texts == []
    ensures CountCovered(fs, texts, journal, year, images) == 0
  {
    if images != [] {
      NothingCovered(fs, texts, journal, year, images[..|images| - 1]);
    }
  }

  lemma {:induction false} SumSeqZero(s: seq<nat>)
    ensures SumSeq(s) == 0 <==> forall i :: 0 <= i < |s| ==> s[i] == 0
  {
    if s != [] {
      SumSeqZero(s[..|s| - 1]);
      assert forall i :: 0 <= i < |s| - 1 ==> s[..|s| - 1][i] == s[i];
    }
  }

  /**
   * What a year summary means. Each standard count is the number of pages
   * lacking that derivative; the uncovered pages and the pages some edition
   * has add up to all pages; every edition count is at most the covered
   * pages, which are at most the sum of the edition counts.
   */
  lemma YearSummaryMeaning(fs: FileSystem, ps: seq<Profile>, journal: string, year: string)
    requires ValidRegistry(ps)
    ensures var s := YearSummary(fs, ps, journal, year);
            var std, texts := StandardProfiles(ps), TextProfiles(ps);
            var images := ImageFiles(fs, SourceProfile(ps), journal, year);
            var covered := CountCovered(fs, texts, journal, year, images);
            && s.images == |images|
            && (forall q :: 0 <= q < |std| ==>
                  s.profileCounts[q] + CountPresent(fs, std[q], journal, year, images) == s.images)
            && s.textsGroup.missingCoverage + covered == s.images
            && (forall k :: 0 <= k < |texts| ==> s.textsGroup.editionCounts[k] <= covered)
            && covered <= SumSeq(s.textsGroup.editionCounts)
  {
    var std, texts := StandardProfiles(ps), TextProfiles(ps);
    var images := ImageFiles(fs, SourceProfile(ps), journal, year);
    forall q | 0 <= q < |std| {
      AbsentPresentSplit(fs, std[q], journal, year, images);
    }
    CoveredSplit(fs, texts, journal, year, images);
    forall k | 0 <= k < |texts| {
      EditionWithinCovered(fs, texts, k, journal, year, images);
    }
    CoveredWithinEditions(fs, texts, journal, year, images);
  }

  /** A year has no edition files at all exactly when none of its pages is covered. */
  lemma NoEditionIffNoCoverage(fs: FileSystem, ps: seq<Profile>, journal: string, year: string)
    requires ValidRegistry(ps)
    ensures var s := YearSummary(fs, ps, journal, year);
            SumSeq(s.textsGroup.editionCounts) == 0 <==> s.textsGroup.missingCoverage == s.images
  {
    var s := YearSummary(fs, ps, journal, year);
    YearSummaryMeaning(fs, ps, journal, year);
    SumSeqZero(s.textsGroup.editionCounts);
  }

  // ---------------------------------------------------------------- what is stored

  /**
   * A journal is in the results exactly when it is a directory directly
   * under the root with an images/jpg folder, whatever years it holds.
   */
  lemma ScannedJournal(fs: FileSystem, ps: seq<Profile>, journal: string)
    requires ValidRegistry(ps)
    ensures journal in Scan(fs, ps) <==> journal in Listing(fs, []) && IsJournal(fs, ps, journal)
    ensures journal in Scan(fs, ps) ==> Scan(fs, ps)[journal] == JournalSpec(fs, ps, journal)
  {
    SortMembers(Listing(fs, []), journal);
  }

  /**
   * A year is stored under a journal exactly when its folder is a directory
   * of the images tree, its name passes `ParseYearString`, and it holds a
   * file whose lower-cased name ends in the source extension.
   */
  lemma StoredYear(fs: FileSystem, ps: seq<Profile>, journal: string, year: string)
    requires ValidRegistry(ps)
    ensures var src := SourceProfile(ps);
            var dir := YearDir(src, journal, year);
            year in JournalSpec(fs, ps, journal).years
            <==> && year in Listing(fs, ImagesRoot(src, journal))
                 && IsDir(fs, dir)
                 && ParseYearString(year)
                 && exists n :: n in Listing(fs, dir) && IsImageFile(fs, dir, src.extension, n)
    ensures year in JournalSpec(fs, ps, journal).years ==>
              JournalSpec(fs, ps, journal).years[year] == YearSummary(fs, ps, journal, year)
  {
    var src := SourceProfile(ps);
    SortMembers(Listing(fs, ImagesRoot(src, journal)), year);
    var images := ImageFiles(fs, src, journal, year);
    if |images| > 0 {
      assert images[0] in images;
    }
  }

  // ---------------------------------------------------------------- journal sums

  /** The sum of the summaries `m` stores for `years`, in that order. */
  function SumOver(ps: seq<Profile>, years: seq<string>, m: map<string, Summary>): (s: Summary)
    requires forall i :: 0 <= i < |ps| ==> |ps[i].pathParts| > 0
    requires forall y :: y in years ==> y in m && Shaped(m[y], ps)
    ensures Shaped(s, ps)
  {
    if years == [] then ZeroSummary(ps)
    else
      var last := years[|years| - 1];
      assert last in years && Shaped(m[last], ps);
      AddSummary(SumOver(ps, years[..|years| - 1], m), m[last])
  }

  lemma {:induction false} SumYearsIsSumOver(fs: FileSystem, ps: seq<Profile>, journal: string, years: seq<string>, all: seq<string>)
    requires ValidRegistry(ps)
    requires forall y :: y in years ==> y in all
    ensures forall y :: y in years ==> y in YearsMap(fs, ps, journal, all)
    ensures SumYears(fs, ps, journal, years) == SumOver(ps, years, YearsMap(fs, ps, journal, all))
  {
    if years != [] {
      SumYearsIsSumOver(fs, ps, journal, years[..|years| - 1], all);
    }
  }

  lemma {:induction false} NoDuplicatesMultiset(s: seq<string>)
    ensures NoDuplicates(s) <==> forall x :: multiset(s)[x] <= 1
  {
    if s != [] {
      var init, last := s[..|s| - 1], s[|s| - 1];
      NoDuplicatesMultiset(init);
      assert s == init + [last];
      assert multiset(s) == multiset(init) + multiset{last};
      if NoDuplicates(s) {
        assert NoDuplicates(init);
        assert last !in init;
      }
      if forall x :: multiset(s)[x] <= 1 {
        assert forall x :: multiset(init)[x] <= multiset(s)[x];
        assert multiset(init)[last] == 0;
        forall i, j | 0 <= i < j < |s| ensures s[i] != s[j] {
          if j == |s| - 1 {
            assert s[i] in init;
          } else {
            assert init[i] == s[i] && init[j] == s[j];
          }
        }
      }
    }
  }

  lemma {:induction false} StoredYearsNoDuplicates(fs: FileSystem, ps: seq<Profile>, journal: string, names: seq<string>)
    requires ValidRegistry(ps)
    requires NoDuplicates(names)
    ensures NoDuplicates(StoredYears(fs, ps, journal, names))
  {
    if names != [] {
      var init := names[..|names| - 1];
      assert NoDuplicates(init);
      StoredYearsNoDuplicates(fs, ps, journal, init);
      assert names[|names| - 1] !in init;
    }
  }

  /**
   * A journal's summary is the sum of the summaries of its stored years,
   * each stored year counted exactly once; a journal with no stored year
   * has a summary of zeros.
   */
  lemma JournalSummaryIsSumOfYears(fs: FileSystem, ps: seq<Profile>, journal: string)
    requires ValidRegistry(ps)
    requires WellFormed(fs)
    ensures var jd := JournalSpec(fs, ps, journal);
            var order := YearEntries(fs, ps, journal);
            && NoDuplicates(order)
            && (forall y :: y in order <==> y in jd.years)
            && (forall y :: y in order ==> Shaped(jd.years[y], ps))
            && jd.summary == SumOver(ps, order, jd.years)
    ensures JournalSpec(fs, ps, journal).years == map[] ==> JournalSpec(fs, ps, journal).summary == ZeroSummary(ps)
  {
    var src := SourceProfile(ps);
    var listing := Listing(fs, ImagesRoot(src, journal));
    assert NoDuplicates(listing);
    NoDuplicatesMultiset(listing);
    NoDuplicatesMultiset(Sort(listing));
    StoredYearsNoDuplicates(fs, ps, journal, Sort(listing));
    var order := YearEntries(fs, ps, journal);
    SumYearsIsSumOver(fs, ps, journal, order, order);
    if order != [] {
      assert order[0] in JournalSpec(fs, ps, journal).years;
    }
  }
}
