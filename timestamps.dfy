/** The names the downloaders give their runs: `run_` followed by the
    time of the run written with `strftime('%Y-%m-%d_%H-%M-%S')`. Every
    field has a fixed width and is padded with zeros, so comparing two
    names as strings compares the times they record; this is what lets the
    consolidator take the greatest name as the newest run. */
module Timestamps {
  import opened Wrappers
  import opened Digits
  import Lex
  import Consolidate

  /** A local date and time as `datetime.now()` gives it, to the second. */
  datatype Timestamp = Timestamp(year: nat, month: nat, day: nat, hour: nat, minute: nat, second: nat)

  /** The ranges `datetime` allows. Years below 1000 are excluded: `%Y`
      does not pad them to four digits on every platform. */
  predicate Valid(t: Timestamp)
  {
    1000 <= t.year <= 9999 && 1 <= t.month <= 12 && 1 <= t.day <= 31 &&
    t.hour < 24 && t.minute < 60 && t.second < 60
  }

  /** `t1` is earlier than `t2`: the first field in which they differ,
      from the year down to the second, is smaller in `t1`. */
  predicate Before(t1: Timestamp, t2: Timestamp)
  {
    t1.year < t2.year || (t1.year == t2.year &&
    (t1.month < t2.month || (t1.month == t2.month &&
    (t1.day < t2.day || (t1.day == t2.day &&
    (t1.hour < t2.hour || (t1.hour == t2.hour &&
    (t1.minute < t2.minute || (t1.minute == t2.minute &&
    t1.second < t2.second)))))))))
  }

  /** `v` written with exactly `width` digits, zeros in front: `%Y` for
      width 4, `%m`, `%d`, `%H`, `%M`, `%S` for width 2. */
  function Pad(v: nat, width: nat): (s: string)
    requires v < Pow10(width)
    ensures |s| == width && AllDigits(s)
    ensures ValueOf(s) == v
  {
    if width == 0 then []
    else
      var s := Pad(v / 10, width - 1) + [DigitChar(v % 10)];
      assert s[..|s| - 1] == Pad(v / 10, width - 1);
      s
  }

  /** A padded field followed by a separator and the rest of the text. */
  function Field(v: nat, width: nat, sep: char, rest: string): string
    requires v < Pow10(width)
  {
    Pad(v, width) + ([sep] + rest)
  }

  /** `t.strftime('%Y-%m-%d_%H-%M-%S')`. */
  function Format(t: Timestamp): string
    requires Valid(t)
  {
    Field(t.year, 4, '-', Field(t.month, 2, '-', Field(t.day, 2, '_',
      Field(t.hour, 2, '-', Field(t.minute, 2, '-', Pad(t.second, 2))))))
  }

  /** `f'run_{timestamp}'`, the name of the run directory. */
  function RunName(t: Timestamp): string
    requires Valid(t)
  {
    "run_" + Format(t)
  }

  /** Two numbers padded to the same width compare as strings as they do
      as numbers. */
  lemma {:induction false} PadOrder(a: nat, b: nat, width: nat)
    requires a < Pow10(width) && b < Pow10(width)
    ensures Lex.Less(Pad(a, width), Pad(b, width)) <==> a < b
    decreases width
  {
    if width > 0 {
      var pa, pb := Pad(a / 10, width - 1), Pad(b / 10, width - 1);
      var da, db := DigitChar(a % 10), DigitChar(b % 10);
      PadOrder(a / 10, b / 10, width - 1);
      Lex.LessConcat(pa, [da], pb, [db]);
      assert pa == pb <==> a / 10 == b / 10;
      assert Lex.Less([da], [db]) <==> a % 10 < b % 10;
      assert a < b <==> a / 10 < b / 10 || (a / 10 == b / 10 && a % 10 < b % 10);
    }
  }

  /** Text that starts with equally wide padded fields and the same
      separator compares by the fields first, then by the rest. */
  lemma FieldOrder(a: nat, b: nat, width: nat, sep: char, r1: string, r2: string)
    requires a < Pow10(width) && b < Pow10(width)
    ensures Lex.Less(Field(a, width, sep, r1), Field(b, width, sep, r2)) <==>
      a < b || (a == b && Lex.Less(r1, r2))
  {
    PadOrder(a, b, width);
    Lex.LessConcat(Pad(a, width), [sep] + r1, Pad(b, width), [sep] + r2);
    Lex.LessConcat([sep], r1, [sep], r2);
    Lex.LessIrreflexive([sep]);
    assert Pad(a, width) == Pad(b, width) <==> a == b;
  }

  /** The formatted time of one run sorts before that of another exactly
      when the first run is earlier. */
  lemma FormatOrder(t1: Timestamp, t2: Timestamp)
    requires Valid(t1) && Valid(t2)
    ensures Lex.Less(Format(t1), Format(t2)) <==> Before(t1, t2)
  {
    assert Pow10(2) == 100 && Pow10(4) == 10000;
    PadOrder(t1.second, t2.second, 2);
    var s1 := Pad(t1.second, 2);
    var s2 := Pad(t2.second, 2);
    FieldOrder(t1.minute, t2.minute, 2, '-', s1, s2);
    var n1 := Field(t1.minute, 2, '-', s1);
    var n2 := Field(t2.minute, 2, '-', s2);
    FieldOrder(t1.hour, t2.hour, 2, '-', n1, n2);
    var h1 := Field(t1.hour, 2, '-', n1);
    var h2 := Field(t2.hour, 2, '-', n2);
    FieldOrder(t1.day, t2.day, 2, '_', h1, h2);
    var d1 := Field(t1.day, 2, '_', h1);
    var d2 := Field(t2.day, 2, '_', h2);
    FieldOrder(t1.month, t2.month, 2, '-', d1, d2);
    var m1 := Field(t1.month, 2, '-', d1);
    var m2 := Field(t2.month, 2, '-', d2);
    FieldOrder(t1.year, t2.year, 4, '-', m1, m2);
  }

  /** Run names sort in the order of the times they record. */
  lemma RunNameOrder(t1: Timestamp, t2: Timestamp)
    requires Valid(t1) && Valid(t2)
    ensures Lex.Less(RunName(t1), RunName(t2)) <==> Before(t1, t2)
  {
    FormatOrder(t1, t2);
    Lex.LessConcat("run_", Format(t1), "run_", Format(t2));
    Lex.LessIrreflexive("run_");
  }

  /** Distinct times give distinct run names. */
  lemma RunNameInjective(t1: Timestamp, t2: Timestamp)
    requires Valid(t1) && Valid(t2)
    requires RunName(t1) == RunName(t2)
    ensures t1 == t2
  {
    RunNameOrder(t1, t2);
    RunNameOrder(t2, t1);
    Lex.LessIrreflexive(RunName(t1));
  }

  /** The run directories named after the times `runs`, in order. */
  function RunNames(runs: seq<Timestamp>): (names: seq<string>)
    requires forall t :: t in runs ==> Valid(t)
    ensures |names| == |runs|
    ensures forall i :: 0 <= i < |runs| ==> names[i] == RunName(runs[i])
  {
    if runs == [] then [] else [RunName(runs[0])] + RunNames(runs[1..])
  }

  /** A run that does not follow `newest` has a name not above its name. */
  lemma NameOfEarlierRun(newest: Timestamp, t: Timestamp)
    requires Valid(newest) && Valid(t)
    requires !Before(newest, t)
    ensures Lex.LessEq(RunName(t), RunName(newest))
  {
    RunNameOrder(newest, t);
    Lex.LessTotal(RunName(t), RunName(newest));
  }

  /** Among runs named by the downloaders, the consolidator picks the one
      made last: the name it chooses is that of a run no other run
      follows. */
  lemma LatestRunIsNewest(runs: seq<Timestamp>, newest: Timestamp)
    requires forall t :: t in runs ==> Valid(t)
    requires newest in runs
    requires forall t :: t in runs ==> !Before(newest, t)
    ensures Consolidate.LatestRun(RunNames(runs)) == Some(RunName(newest))
  {
    var names := RunNames(runs);
    var k :| 0 <= k < |runs| && runs[k] == newest;
    assert names[k] == RunName(newest);
    forall i | 0 <= i < |names| ensures Lex.LessEq(names[i], RunName(newest)) {
      assert runs[i] in runs;
      NameOfEarlierRun(newest, runs[i]);
    }
    Consolidate.LatestRunIsTheMaximum(names, RunName(newest));
  }

  /** A run whose name is not below the name of `chosen` does not follow it. */
  lemma RunNotAfterChosen(chosen: Timestamp, t: Timestamp)
    requires Valid(chosen) && Valid(t)
    requires Lex.LessEq(RunName(t), RunName(chosen))
    ensures !Before(chosen, t)
  {
    RunNameOrder(chosen, t);
    Lex.LessAsymmetric(RunName(chosen), RunName(t));
    Lex.LessIrreflexive(RunName(t));
  }

  /** And conversely: the run whose name is chosen is not followed by any
      other run. */
  lemma LatestRunFollowsNoRun(runs: seq<Timestamp>, chosen: Timestamp)
    requires forall t :: t in runs ==> Valid(t)
    requires chosen in runs
    requires Consolidate.LatestRun(RunNames(runs)) == Some(RunName(chosen))
    ensures forall t :: t in runs ==> !Before(chosen, t)
  {
    var names := RunNames(runs);
    forall t | t in runs ensures !Before(chosen, t) {
      var i :| 0 <= i < |runs| && runs[i] == t;
      assert names[i] == RunName(t);
      RunNotAfterChosen(chosen, t);
    }
  }

  /** The two runs of January and June 2024, listed in either order: the
      June run is chosen. */
  lemma JanuaryJuneExample(first: Timestamp, second: Timestamp)
    requires first == Timestamp(2024, 1, 1, 0, 0, 0)
    requires second == Timestamp(2024, 6, 1, 0, 0, 0)
    ensures Consolidate.LatestRun(RunNames([first, second])) == Some(RunName(second))
    ensures Consolidate.LatestRun(RunNames([second, first])) == Some(RunName(second))
  {
    LatestRunIsNewest([first, second], second);
    LatestRunIsNewest([second, first], second);
  }
}
