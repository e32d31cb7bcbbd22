/** The consolidator unzip_merge.py with its file system taken out: the
    listing of `Downloads` and the `*.nc` files of the chosen run are
    inputs, and the result says which run was chosen, which files would be
    handed to the merge in which order, and under which name the merged
    file would be written. */
module Consolidate {
  import opened Wrappers
  import opened Digits
  import Lex
  import Sorting
  import opened Years

  /** Where the downloaders put their runs (line 8) and where the merge is
      written (lines 9 and 79). */
  const BaseInputDir: string := "Downloads"
  const OutputDir: string := "Merged"

  /** One name in a directory listing, and whether it is a directory. */
  datatype DirEntry = DirEntry(name: string, isDir: bool)

  /** What phase 3 does with the NetCDF files of the run. */
  datatype MergeOutcome =
    | NothingToMerge                                 // no `.nc` file: a message, no error
    | NoYearFound                                    // `min([])` raises; the merge is aborted
    | Merge(inputs: seq<string>, outputPath: string) // concatenated in this order, written to this path

  /** What the whole script does. */
  datatype Outcome =
    | NoRunDirectories                               // FileNotFoundError: the script exits
    | Ran(runDir: string, merge: MergeOutcome)

  /** `os.path.join(dir, name)` for a relative `name`. */
  function Join(dir: string, name: string): string
  {
    dir + "/" + name
  }

  /** The list comprehension at line 18: the names of the directories in
      the listing, in listing order. */
  function RunDirectories(listing: seq<DirEntry>): (runs: seq<string>)
    ensures |runs| <= |listing|
    ensures forall x :: x in runs <==> DirEntry(x, true) in listing
  {
    if listing == [] then []
    else
      var rest := RunDirectories(listing[1..]);
      assert listing == [listing[0]] + listing[1..];
      if listing[0].isDir then [listing[0].name] + rest else rest
  }

  /** `sorted(all_runs)[-1]`, or `None` where the script raises
      FileNotFoundError on an empty list. */
  function LatestRun(runs: seq<string>): (latest: Option<string>)
    ensures latest.None? <==> runs == []
    ensures latest.Some? ==> latest.value in runs
    ensures latest.Some? ==> forall x :: x in runs ==> Lex.LessEq(x, latest.value)
  {
    if runs == [] then None
    else
      Sorting.LastIsGreatest(runs);
      Some(Sorting.Sort(runs)[|runs| - 1])
  }

  /** The latest run is THE greatest name: any run that no other run
      exceeds is the one chosen. */
  lemma LatestRunIsTheMaximum(runs: seq<string>, x: string)
    requires x in runs
    requires forall y :: y in runs ==> Lex.LessEq(y, x)
    ensures LatestRun(runs) == Some(x)
  {
    var latest := LatestRun(runs).value;
    Lex.LessEqAntisymmetric(latest, x);
  }

  /** The f-string at line 78. */
  function OutputName(startYear: nat, endYear: nat): string
  {
    "saudi_wind_speed_" + NatToString(startYear) + "-" + NatToString(endYear) + "_MERGED.nc"
  }

  /** In a numeral followed by `-`, the first `-` is the one after the
      numeral. */
  lemma DashAfterNumeral(a: string, b: string)
    requires AllDigits(a)
    ensures (a + "-" + b)[|a|] == '-'
    ensures forall k :: 0 <= k < |a| ==> (a + "-" + b)[k] != '-'
  {
  }

  /** A numeral followed by `-` can be split off unambiguously, since a
      numeral holds no `-`. */
  lemma SplitAtDash(a: string, b: string, c: string, d: string)
    requires AllDigits(a) && AllDigits(c)
    requires a + "-" + b == c + "-" + d
    ensures a == c && b == d
  {
    var s := a + "-" + b;
    DashAfterNumeral(a, b);
    DashAfterNumeral(c, d);
    assert s[|a|] == '-' && s[|c|] == '-';
    assert a == s[..|a|] == c;
    assert b == s[|a| + 1..] == d;
  }

  /** Different year ranges give different output names: the name records
      the range it was made from. */
  lemma OutputNameInjective(s1: nat, e1: nat, s2: nat, e2: nat)
    requires OutputName(s1, e1) == OutputName(s2, e2)
    ensures s1 == s2 && e1 == e2
  {
    var prefix, suffix := "saudi_wind_speed_", "_MERGED.nc";
    var m1 := NatToString(s1) + "-" + NatToString(e1);
    var m2 := NatToString(s2) + "-" + NatToString(e2);
    var n1, n2 := OutputName(s1, e1), OutputName(s2, e2);
    assert n1 == prefix + m1 + suffix;
    assert n2 == prefix + m2 + suffix;
    assert m1 == n1[|prefix|..|n1| - |suffix|];
    assert m2 == n2[|prefix|..|n2| - |suffix|];
    SplitAtDash(NatToString(s1), NatToString(e1), NatToString(s2), NatToString(e2));
  }

  /** What lines 50-65 and 68-78 decide for the `*.nc` paths of the run,
      as returned by `glob` in any order. */
  function MergePlan(ncListing: seq<string>): MergeOutcome
  {
    var files := Sorting.Sort(ncListing);
    if files == [] then NothingToMerge
    else
      match YearRange(YearsOf(files))
      case None => NoYearFound
      case Some((startYear, endYear)) => Merge(files, Join(OutputDir, OutputName(startYear, endYear)))
  }

  /** The loop at lines 68-72: every file is opened, in order, and the
      list handed to the concatenation is the list of files. A dataset is
      represented by the path it was opened from. */
  method OpenDatasets(files: seq<string>) returns (datasets: seq<string>)
    ensures datasets == files
  {
    datasets := [];
    for i := 0 to |files|
      invariant datasets == files[..i]
    {
      datasets := datasets + [files[i]];
    }
    assert files[..|files|] == files;
  }

  /** Phase 3, lines 50-88, step by step as the script runs it. */
  method MergePhase(ncListing: seq<string>) returns (outcome: MergeOutcome)
    ensures outcome == MergePlan(ncListing)
  {
    var files := Sorting.Sort(ncListing);
    if files == [] {
      return NothingToMerge;
    }
    var years := CollectYears(files);
    if years == [] {
      return NoYearFound;
    }
    var startYear, endYear := MinOf(years), MaxOf(years);
    var datasets := OpenDatasets(files);
    var outputPath := Join(OutputDir, OutputName(startYear, endYear));
    outcome := Merge(datasets, outputPath);
  }

  /** The whole script: phase 1 picks the run, phase 3 merges its files.
      `listing` is what `os.listdir('Downloads')` returns, `None` where it
      raises FileNotFoundError because `Downloads` does not exist; the
      handler at lines 28-30 catches that error too. `ncFilesIn(dir)` is
      what `glob(os.path.join(dir, '*.nc'))` returns once the archives of
      phase 2 are extracted. */
  method Run(listing: Option<seq<DirEntry>>, ncFilesIn: string -> seq<string>) returns (outcome: Outcome)
    ensures outcome.NoRunDirectories? <==>
      listing.None? || forall e :: e in listing.value ==> !e.isDir
    ensures outcome.Ran? ==>
      var latest := LatestRun(RunDirectories(listing.value)).value;
      outcome.runDir == Join(BaseInputDir, latest) &&
      outcome.merge == MergePlan(ncFilesIn(outcome.runDir))
  {
    if listing.None? {
      return NoRunDirectories;
    }
    var runs := RunDirectories(listing.value);
    if runs == [] {
      assert forall e :: e in listing.value ==> !e.isDir by {
        forall e | e in listing.value ensures !e.isDir {
          assert e.isDir ==> e.name in runs;
        }
      }
      return NoRunDirectories;
    }
    assert runs[0] in runs;
    var latest := LatestRun(runs).value;
    var runDir := Join(BaseInputDir, latest);
    var merge := MergePhase(ncFilesIn(runDir));
    outcome := Ran(runDir, merge);
  }

  /** Paths in one directory sort as their file names do, so sorting what
      `glob` returns sorts the files by name. */
  lemma JoinOrder(dir: string, a: string, b: string)
    ensures Lex.Less(Join(dir, a), Join(dir, b)) <==> Lex.Less(a, b)
  {
    Lex.LessConcat(dir + "/", a, dir + "/", b);
    Lex.LessIrreflexive(dir + "/");
  }

  /** An empty listing of `.nc` files is not an error: nothing is merged
      and no name is made. */
  lemma NothingToMergeExactlyWhenEmpty(ncListing: seq<string>)
    ensures MergePlan(ncListing) == NothingToMerge <==> ncListing == []
  {
  }

  /** The merge is aborted, with no output name, exactly when there are
      files but none of their base names holds four digits in a row. */
  lemma NoYearFoundExactly(ncListing: seq<string>)
    ensures MergePlan(ncListing) == NoYearFound <==>
      ncListing != [] && forall f :: f in ncListing ==> FileYear(f).None?
  {
    var files := Sorting.Sort(ncListing);
    assert |files| == |multiset(files)| == |multiset(ncListing)| == |ncListing|;
    YearsOfEmpty(files);
    assert forall f :: f in files <==> f in ncListing by {
      forall f ensures f in files <==> f in ncListing {
        assert f in files <==> f in multiset(files);
        assert f in ncListing <==> f in multiset(ncListing);
      }
    }
    assert (forall i :: 0 <= i < |files| ==> FileYear(files[i]).None?) <==>
      (forall f :: f in files ==> FileYear(f).None?);
  }

  /** When the merge goes ahead its input is all the `.nc` files, sorted:
      the same files as many times as listed, the ones without a year
      included. */
  lemma MergeInputsAreAllFilesSorted(ncListing: seq<string>)
    requires MergePlan(ncListing).Merge?
    ensures var inputs := MergePlan(ncListing).inputs;
      Sorting.Sorted(inputs) && multiset(inputs) == multiset(ncListing) &&
      |inputs| == |ncListing|
  {
    var inputs := MergePlan(ncListing).inputs;
    assert |inputs| == |multiset(inputs)| == |multiset(ncListing)| == |ncListing|;
  }

  /** A year is among those collected from the sorted listing exactly
      when some file of the listing carries it. */
  lemma SortedYearsMembership(ncListing: seq<string>, y: nat)
    ensures y in YearsOf(Sorting.Sort(ncListing)) <==>
      exists f :: f in ncListing && FileYear(f) == Some(y)
  {
    var files := Sorting.Sort(ncListing);
    Sorting.SortSameMembers(ncListing);
    YearsOfMembership(files, y);
    if exists f :: f in ncListing && FileYear(f) == Some(y) {
      var f :| f in ncListing && FileYear(f) == Some(y);
      var k :| 0 <= k < |files| && files[k] == f;
    }
  }

  /** Two paths in one directory are equal only for equal names. */
  lemma JoinInjective(dir: string, a: string, b: string)
    requires Join(dir, a) == Join(dir, b)
    ensures a == b
  {
    assert a == Join(dir, a)[|dir| + 1..];
    assert b == Join(dir, b)[|dir| + 1..];
  }

  /** When the merge goes ahead under `Merged/` and the name made from
      `startYear` and `endYear`, both are years some file carries, in
      order, and every file's year lies between them. */
  lemma MergeNameFromYearRange(ncListing: seq<string>, startYear: nat, endYear: nat)
    requires MergePlan(ncListing).Merge?
    requires MergePlan(ncListing).outputPath == Join(OutputDir, OutputName(startYear, endYear))
    ensures startYear <= endYear
    ensures exists f :: f in ncListing && FileYear(f) == Some(startYear)
    ensures exists f :: f in ncListing && FileYear(f) == Some(endYear)
    ensures forall f :: f in ncListing && FileYear(f).Some? ==> startYear <= FileYear(f).value <= endYear
  {
    var years := YearsOf(Sorting.Sort(ncListing));
    var (s, e) := YearRange(years).value;
    JoinInjective(OutputDir, OutputName(s, e), OutputName(startYear, endYear));
    OutputNameInjective(s, e, startYear, endYear);
    SortedYearsMembership(ncListing, s);
    SortedYearsMembership(ncListing, e);
    forall f | f in ncListing && FileYear(f).Some?
      ensures startYear <= FileYear(f).value <= endYear
    {
      SortedYearsMembership(ncListing, FileYear(f).value);
    }
  }

  /** The year of a file returned by `glob` in the run directory comes
      from its own name only: the run directory's name, full of digits,
      never counts. */
  lemma YearIgnoresRunDirectory(runDir: string, name: string)
    requires '/' !in name
    ensures FileYear(Join(runDir, name)) == YearOf(name)
  {
    FileYearIgnoresDirectory(runDir, name);
  }

  /** The worked example: three files, one of them without a year, give
      the range 2010-2015 and all three are merged, in name order. */
  lemma ThreeFileExample(a: string, b: string, c: string)
    requires a == "wind_2010.nc" && b == "wind_2015.nc" && c == "wind_notayear.nc"
    ensures MergePlan([c, b, a]) == Merge([a, b, c], Join(OutputDir, "saudi_wind_speed_2010-2015_MERGED.nc"))
  {
    ExampleSorted(a, b, c);
    assert multiset([a, b, c]) == multiset([c, b, a]);
    Sorting.SortedUnique(Sorting.Sort([c, b, a]), [a, b, c]);
    ExampleYears(a, b, c);
    ExampleName();
    var files := Sorting.Sort([c, b, a]);
    assert files == [a, b, c];
    assert YearRange(YearsOf(files)) == Some((2010, 2015));
  }

  lemma ExampleName()
    ensures OutputName(2010, 2015) == "saudi_wind_speed_2010-2015_MERGED.nc"
  {
  }

  lemma ExampleSorted(a: string, b: string, c: string)
    requires a == "wind_2010.nc" && b == "wind_2015.nc" && c == "wind_notayear.nc"
    ensures Sorting.Sorted([a, b, c])
  {
    Lex.LessConcat("wind_201", "0.nc", "wind_201", "5.nc");
    assert Lex.Less("0.nc", "5.nc");
    assert a == "wind_201" + "0.nc" && b == "wind_201" + "5.nc";
    Lex.LessConcat("wind_", "2015.nc", "wind_", "notayear.nc");
    assert Lex.Less("2015.nc", "notayear.nc");
    assert b == "wind_" + "2015.nc" && c == "wind_" + "notayear.nc";
    Lex.LessTransitive(a, b, c);
  }

  lemma ExampleYears(a: string, b: string, c: string)
    requires a == "wind_2010.nc" && b == "wind_2015.nc" && c == "wind_notayear.nc"
    ensures YearsOf([a, b, c]) == [2010, 2015]
  {
    ExampleYear2010(a);
    ExampleYear2015(b);
    ExampleNoYear(c);
    YearsOfThree(a, b, c);
  }

  lemma ExampleYear2010(a: string)
    requires a == "wind_2010.nc"
    ensures FileYear(a) == Some(2010)
  {
    ExampleFileYear(a, "2010");
    ExampleValueOf("2010");
  }

  lemma ExampleYear2015(b: string)
    requires b == "wind_2015.nc"
    ensures FileYear(b) == Some(2015)
  {
    ExampleFileYear(b, "2015");
    ExampleValueOf("2015");
  }

  lemma ExampleNoYear(c: string)
    requires c == "wind_notayear.nc"
    ensures FileYear(c) == None
  {
    BasenameOfPlainName(c);
    NoDigitNoYear(c);
  }

  lemma YearsOfThree(a: string, b: string, c: string)
    ensures YearsOf([a, b, c]) == YearOfAsList(a) + YearOfAsList(b) + YearOfAsList(c)
  {
    assert [a, b, c][..2] == [a, b] && [a, b][..1] == [a] && [a][..0] == [];
    assert YearsOf([a]) == YearOfAsList(a);
    assert YearsOf([a, b]) == YearOfAsList(a) + YearOfAsList(b);
  }

  /** `wind_<dddd>.nc` carries the year `dddd`. */
  lemma ExampleFileYear(name: string, d: string)
    requires |d| == 4 && AllDigits(d) && name == "wind_" + d + ".nc"
    ensures FileYear(name) == Some(ValueOf(d))
  {
    BasenameOfPlainName(name);
    YearOfLongRun("wind_", d, ".nc");
    assert d[..4] == d;
  }

  /** The value of a four-digit numeral, digit by digit. */
  lemma ExampleValueOf(d: string)
    requires |d| == 4 && AllDigits(d)
    ensures ValueOf(d) == 1000 * DigitValue(d[0]) + 100 * DigitValue(d[1]) + 10 * DigitValue(d[2]) + DigitValue(d[3])
  {
    assert d[..3][..2] == d[..2] && d[..2][..1] == d[..1] && d[..1][..0] == [];
    assert ValueOf(d[..1]) == DigitValue(d[0]);
    assert ValueOf(d[..2]) == 10 * DigitValue(d[0]) + DigitValue(d[1]);
    assert ValueOf(d[..3]) == 100 * DigitValue(d[0]) + 10 * DigitValue(d[1]) + DigitValue(d[2]);
  }
}
