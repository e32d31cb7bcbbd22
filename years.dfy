/** Phase 3 of unzip_merge.py, first half: the year each NetCDF file name
    carries and the year range of the merged output. */
module Years {
  import opened Wrappers
  import opened Digits

  /** `os.path.basename(p)`: the text after the last `/`. */
  function Basename(p: string): (b: string)
    ensures |b| <= |p| && '/' !in b
  {
    if p == [] || p[|p| - 1] == '/' then []
    else Basename(p[..|p| - 1]) + [p[|p| - 1]]
  }

  /** The base name is the longest suffix of `p` without a `/`: a suffix of
      `p`, and either all of `p` or preceded by a `/`. */
  lemma {:induction false} BasenameIsLastComponent(p: string)
    ensures var b := Basename(p);
            b == p[|p| - |b|..] && (|b| < |p| ==> p[|p| - |b| - 1] == '/')
    decreases |p|
  {
    if p != [] && p[|p| - 1] != '/' {
      var init := p[..|p| - 1];
      BasenameIsLastComponent(init);
      var bi := Basename(init);
      assert Basename(p) == bi + [p[|p| - 1]];
      assert p[|p| - |bi| - 1..] == init[|init| - |bi|..] + [p[|p| - 1]];
    }
  }

  /** A name without a `/` is its own base name. */
  lemma {:induction false} BasenameOfPlainName(name: string)
    requires '/' !in name
    ensures Basename(name) == name
    decreases |name|
  {
    if name != [] {
      var init := name[..|name| - 1];
      assert name[|name| - 1] in name;
      assert forall c :: c in init ==> c in name;
      BasenameOfPlainName(init);
      assert name == init + [name[|name| - 1]];
    }
  }

  /** The base name of a file inside a directory is the file's own name,
      whatever the directory part holds. */
  lemma {:induction false} BasenameOfJoin(dir: string, name: string)
    requires '/' !in name
    ensures Basename(dir + "/" + name) == name
    decreases |name|
  {
    var p := dir + "/" + name;
    if name == [] {
      assert p[|p| - 1] == '/';
    } else {
      var init := name[..|name| - 1];
      assert p[..|p| - 1] == dir + "/" + init;
      assert p[|p| - 1] == name[|name| - 1];
      assert name[|name| - 1] in name;
      assert forall c :: c in init ==> c in name;
      BasenameOfJoin(dir, init);
      assert name == init + [name[|name| - 1]];
    }
  }

  /** `\d{4}` matches at position `j` of `s`. */
  predicate FourDigitsAt(s: string, j: int)
  {
    0 <= j && j + 4 <= |s| &&
    IsDigit(s[j]) && IsDigit(s[j + 1]) && IsDigit(s[j + 2]) && IsDigit(s[j + 3])
  }

  /** `re.search(r'\d{4}', s)` started at position `i`: the leftmost
      position from `i` on where four digits follow each other. */
  function MatchFrom(s: string, i: nat): (m: Option<nat>)
    requires i <= |s|
    ensures m.Some? ==> i <= m.value && FourDigitsAt(s, m.value)
    ensures m.Some? ==> forall k :: i <= k < m.value ==> !FourDigitsAt(s, k)
    ensures m.None? ==> forall k :: i <= k ==> !FourDigitsAt(s, k)
    decreases |s| - i
  {
    if i + 4 > |s| then None
    else if FourDigitsAt(s, i) then Some(i)
    else MatchFrom(s, i + 1)
  }

  /** The start of `re.search(r'\d{4}', s)`, if there is a match. */
  function YearMatch(s: string): Option<nat>
  {
    MatchFrom(s, 0)
  }

  /** `int(match.group(0))` for the match in `name`, or no year. */
  function YearOf(name: string): (y: Option<nat>)
    ensures y.Some? ==> y.value <= 9999
    ensures y.None? <==> forall k :: !FourDigitsAt(name, k)
  {
    match YearMatch(name)
    case None => None
    case Some(j) =>
      var digits := name[j..j + 4];
      assert AllDigits(digits);
      ValueOfBound(digits);
      assert Pow10(4) == 10000;
      Some(ValueOf(digits))
  }

  /** The year read from a file path: only its base name is searched. */
  function FileYear(path: string): Option<nat>
  {
    YearOf(Basename(path))
  }

  /** The year of a file never comes from its directory part. */
  lemma FileYearIgnoresDirectory(dir: string, name: string)
    requires '/' !in name
    ensures FileYear(dir + "/" + name) == YearOf(name)
  {
    BasenameOfJoin(dir, name);
  }

  /** A base name without any digit carries no year. */
  lemma NoDigitNoYear(path: string)
    requires forall k :: 0 <= k < |Basename(path)| ==> !IsDigit(Basename(path)[k])
    ensures FileYear(path) == None
  {
  }

  /** The year is read from where a run of digits begins: the digit before
      the match, if any, is not a digit. */
  lemma YearMatchStartsRun(s: string)
    requires YearMatch(s).Some?
    ensures var j := YearMatch(s).value;
            j == 0 || !IsDigit(s[j - 1])
  {
    var j := YearMatch(s).value;
    if j > 0 {
      var k: int := j - 1;
      assert !FourDigitsAt(s, k);
    }
  }

  /** In a name whose first run of four or more digits is `digits`, the
      year is the value of its first four digits; the rest are ignored. */
  lemma YearOfLongRun(pre: string, digits: string, post: string)
    requires forall k :: !FourDigitsAt(pre, k)
    requires pre == [] || !IsDigit(pre[|pre| - 1])
    requires |digits| >= 4 && AllDigits(digits)
    ensures YearOf(pre + digits + post) == Some(ValueOf(digits[..4]))
  {
    var s := pre + digits + post;
    assert FourDigitsAt(s, |pre|);
    forall k | 0 <= k < |pre| ensures !FourDigitsAt(s, k) {
      if k + 4 <= |pre| {
        assert !FourDigitsAt(pre, k);
      } else {
        assert s[|pre| - 1] == pre[|pre| - 1];
      }
    }
    var j := YearMatch(s).value;
    assert j == |pre|;
    assert s[j..j + 4] == digits[..4];
  }

  /** The years of `files`, in file order, one per file that has a year:
      the list built by the loop at lines 57-62. */
  function YearsOf(files: seq<string>): (years: seq<nat>)
    ensures |years| <= |files|
    ensures forall y :: y in years ==> y <= 9999
  {
    if files == [] then []
    else YearsOf(files[..|files| - 1]) + YearOfAsList(files[|files| - 1])
  }

  /** What one file adds to the year list: its year, or nothing. */
  function YearOfAsList(path: string): (r: seq<nat>)
    ensures |r| <= 1 && forall y :: y in r ==> y <= 9999
    ensures r == [] <==> FileYear(path).None?
    ensures FileYear(path).Some? ==> r == [FileYear(path).value]
  {
    match FileYear(path)
    case Some(y) => [y]
    case None => []
  }

  /** Collecting over two lists in turn gives the two collections one
      after the other: the order of the files is kept. */
  lemma {:induction false} YearsOfAppend(a: seq<string>, b: seq<string>)
    ensures YearsOf(a + b) == YearsOf(a) + YearsOf(b)
    decreases |b|
  {
    if b == [] {
      assert a + b == a;
    } else {
      var b', last := b[..|b| - 1], b[|b| - 1];
      assert (a + b)[..|a + b| - 1] == a + b';
      assert (a + b)[|a + b| - 1] == last;
      YearsOfAppend(a, b');
      calc {
        YearsOf(a + b);
        YearsOf(a + b') + YearOfAsList(last);
        YearsOf(a) + YearsOf(b') + YearOfAsList(last);
        YearsOf(a) + (YearsOf(b') + YearOfAsList(last));
        YearsOf(a) + YearsOf(b);
      }
    }
  }

  /** A year is collected exactly when some file carries it. */
  lemma {:induction false} YearsOfMembership(files: seq<string>, y: nat)
    ensures y in YearsOf(files) <==> exists i :: 0 <= i < |files| && FileYear(files[i]) == Some(y)
    decreases |files|
  {
    if files != [] {
      var init, last := files[..|files| - 1], files[|files| - 1];
      assert YearsOf(files) == YearsOf(init) + YearOfAsList(last);
      assert y in YearsOf(files) <==> y in YearsOf(init) || y in YearOfAsList(last);
      assert y in YearOfAsList(last) <==> FileYear(last) == Some(y);
      YearsOfMembership(init, y);
      if y in YearsOf(init) {
        var i :| 0 <= i < |init| && FileYear(init[i]) == Some(y);
        assert files[i] == init[i];
      } else if FileYear(last) == Some(y) {
        assert files[|files| - 1] == last;
      } else {
        forall i | 0 <= i < |files| ensures FileYear(files[i]) != Some(y) {
          if i < |init| {
            assert files[i] == init[i];
          }
        }
      }
    }
  }

  /** The collected list is empty exactly when no file carries a year. */
  lemma YearsOfEmpty(files: seq<string>)
    ensures YearsOf(files) == [] <==> forall i :: 0 <= i < |files| ==> FileYear(files[i]).None?
  {
    if YearsOf(files) != [] {
      YearsOfMembership(files, YearsOf(files)[0]);
    } else {
      forall i | 0 <= i < |files| ensures FileYear(files[i]).None? {
        if FileYear(files[i]).Some? {
          YearsOfMembership(files, FileYear(files[i]).value);
        }
      }
    }
  }

  /** The loop at lines 57-62: append the year of each file that has one. */
  method CollectYears(files: seq<string>) returns (years: seq<nat>)
    ensures years == YearsOf(files)
  {
    years := [];
    for i := 0 to |files|
      invariant years == YearsOf(files[..i])
    {
      assert files[..i + 1][..i] == files[..i];
      match FileYear(files[i]) {
        case Some(y) => years := years + [y];
        case None =>
      }
    }
    assert files[..|files|] == files;
  }

  /** Only the files that carry a year decide the output name: dropping
      the others from the listing gives the same name. */
  lemma {:induction false} YearsOfKeepsOnlyDated(files: seq<string>)
    ensures YearsOf(files) == YearsOf(Dated(files))
    decreases |files|
  {
    if files != [] {
      var init, last := files[..|files| - 1], files[|files| - 1];
      assert files == init + [last];
      YearsOfKeepsOnlyDated(init);
      DatedAppend(init, [last]);
      YearsOfAppend(Dated(init), Dated([last]));
      assert Dated([last]) == if FileYear(last).Some? then [last] else [];
      if FileYear(last).Some? {
        assert [last][..0] == [];
        assert YearsOf([last]) == [FileYear(last).value];
      }
    }
  }

  /** The files of `files` that carry a year, in order. */
  function Dated(files: seq<string>): (r: seq<string>)
    ensures |r| <= |files|
    ensures forall f :: f in r <==> f in files && FileYear(f).Some?
  {
    if files == [] then []
    else
      assert files == [files[0]] + files[1..];
      var rest := Dated(files[1..]);
      if FileYear(files[0]).Some? then [files[0]] + rest else rest
  }

  lemma {:induction false} DatedAppend(a: seq<string>, b: seq<string>)
    ensures Dated(a + b) == Dated(a) + Dated(b)
    decreases |a|
  {
    if a != [] {
      assert (a + b)[1..] == a[1..] + b;
      assert (a + b)[0] == a[0];
      DatedAppend(a[1..], b);
    } else {
      assert a + b == b;
    }
  }

  /** The collected list holds one year per file that carries one, in
      the order of those files. */
  lemma {:induction false} YearsOfDated(files: seq<string>)
    ensures |YearsOf(files)| == |Dated(files)|
    ensures forall i :: 0 <= i < |Dated(files)| ==> FileYear(Dated(files)[i]) == Some(YearsOf(files)[i])
    decreases |files|
  {
    if files != [] {
      var init, last := files[..|files| - 1], files[|files| - 1];
      assert files == init + [last];
      YearsOfDated(init);
      DatedAppend(init, [last]);
      assert [last][1..] == [];
      assert Dated([last]) == if FileYear(last).Some? then [last] else [];
    }
  }

  /** `min(years)` for a non-empty list. */
  function MinOf(years: seq<nat>): (m: nat)
    requires years != []
    ensures m in years
    ensures forall y :: y in years ==> m <= y
  {
    if |years| == 1 then years[0]
    else
      var rest := MinOf(years[1..]);
      assert years == [years[0]] + years[1..];
      if years[0] <= rest then years[0] else rest
  }

  /** `max(years)` for a non-empty list. */
  function MaxOf(years: seq<nat>): (m: nat)
    requires years != []
    ensures m in years
    ensures forall y :: y in years ==> y <= m
  {
    if |years| == 1 then years[0]
    else
      var rest := MaxOf(years[1..]);
      assert years == [years[0]] + years[1..];
      if years[0] >= rest then years[0] else rest
  }

  /** `start_year, end_year = min(years), max(years)`; `None` where `min`
      raises on an empty list. */
  function YearRange(years: seq<nat>): (r: Option<(nat, nat)>)
    ensures r.None? <==> years == []
    ensures r.Some? ==> r.value.0 <= r.value.1
    ensures r.Some? ==> r.value.0 in years && r.value.1 in years
    ensures r.Some? ==> forall y :: y in years ==> r.value.0 <= y <= r.value.1
  {
    if years == [] then None else Some((MinOf(years), MaxOf(years)))
  }

  /** The range depends only on which years occur, not on their order or
      on how often they occur. */
  lemma YearRangeBySet(a: seq<nat>, b: seq<nat>)
    requires forall y :: y in a <==> y in b
    ensures YearRange(a) == YearRange(b)
  {
  }
}
