/** `generateDutyCycle` (index.js:50-85): the next duty cycle from the history and the
    configuration. The configuration is a parameter (index.js:51 reads it from a file), and so is
    the random draw of selectRandom. */
module Rotation {
  import opened Wrappers
  import opened Failures
  import opened StringOrder
  import opened CivilDate
  import opened IsoDate
  import opened Sampler

  /** One key of a stored duty cycle: a triager and the components assigned to them. */
  datatype Entry = Entry(name: string, components: seq<string>)

  /** A stored duty cycle is a JSON object; its keys keep their insertion order, which is how
      the source tells the first triager from the second (index.js:59, index.js:77-79). */
  type DutyCycle = seq<Entry>

  /** The duty-cycle history: date key to duty cycle. */
  type History = map<string, DutyCycle>

  /** The two lists generateDutyCycle reads from config.json: the triager names in key order
      (index.js:65) and the components (index.js:51). */
  datatype Config = Config(triagers: seq<string>, components: seq<string>)

  const CycleLengthDays: nat := 7

  function Names(cycle: DutyCycle): seq<string>
  {
    seq(|cycle|, i requires 0 <= i < |cycle| => cycle[i].name)
  }

  /** `Array.prototype.indexOf`: the first index of `x`, or -1. */
  function IndexOf<T(==)>(s: seq<T>, x: T): (r: int)
    ensures -1 <= r < |s|
    ensures r == -1 <==> x !in s
    ensures 0 <= r ==> s[r] == x && x !in s[..r]
  {
    if |s| == 0 then -1
    else if s[0] == x then 0
    else var i := IndexOf(s[1..], x); if i == -1 then -1 else i + 1
  }

  /** In a list without repeats, the index of an element is its position. */
  lemma IndexOfDistinct<T>(s: seq<T>, i: nat)
    requires Distinct(s) && i < |s|
    ensures IndexOf(s, s[i]) == i
  {
  }

  /** `components.filter(c => firstComponentSet.indexOf(c) === -1)` (index.js:76). */
  function Without(s: seq<string>, excluded: seq<string>): (r: seq<string>)
    ensures forall x :: multiset(r)[x] == if x in excluded then 0 else multiset(s)[x]
    ensures IsSubsequence(r, s)
  {
    if |s| == 0 then []
    else
      assert s == [s[0]] + s[1..];
      if s[0] in excluded then Without(s[1..], excluded)
      else [s[0]] + Without(s[1..], excluded)
  }

  /** `r` is `s` with some elements left out, in the order of `s`. */
  predicate IsSubsequence<T(==)>(r: seq<T>, s: seq<T>)
    decreases |s|
  {
    |r| == 0 || (|s| > 0 && ((r[0] == s[0] && IsSubsequence(r[1..], s[1..])) || IsSubsequence(r, s[1..])))
  }

  /** `obj[key] = value` on a JavaScript object (index.js:78-79): an existing key keeps its
      place and takes the new value, a new key goes last, and every other key keeps its place
      and value. An object never holds a key twice. */
  function Put(obj: DutyCycle, key: string, value: seq<string>): (r: DutyCycle)
    ensures Names(r) == if key in Names(obj) then Names(obj) else Names(obj) + [key]
    ensures key !in Names(obj) ==> r[|obj|] == Entry(key, value)
    ensures Distinct(Names(obj)) ==>
      forall i :: 0 <= i < |obj| ==> r[i] == if obj[i].name == key then Entry(key, value) else obj[i]
    ensures Distinct(Names(obj)) ==> Distinct(Names(r))
  {
    var i := IndexOf(Names(obj), key);
    assert forall j :: 0 <= j < |obj| ==> Names(obj)[j] == obj[j].name;
    if i == -1 then obj + [Entry(key, value)] else obj[i := Entry(key, value)]
  }

  /** index.js:77-79: the duty cycle object built from the pair. When both names are the same
      (a one-triager roster) the second assignment overwrites the first. */
  function PairCycle(first: string, second: string, firstSet: seq<string>, secondSet: seq<string>): (c: DutyCycle)
    ensures first != second ==> c == [Entry(first, firstSet), Entry(second, secondSet)]
    ensures first == second ==> c == [Entry(first, secondSet)]
    ensures Distinct(Names(c))
  {
    var one := Put([], first, firstSet);
    Put(one, second, secondSet)
  }

  /** The keys of the built cycle are the pair in order. */
  lemma PairCycleNames(first: string, second: string, firstSet: seq<string>, secondSet: seq<string>)
    ensures Names(PairCycle(first, second, firstSet, secondSet)) == if first != second then [first, second] else [first]
  {
    var c := PairCycle(first, second, firstSet, secondSet);
    assert first != second ==> Names(c) == [first, second];
  }

  /** The date key after `key` as index.js:72-74 computes it: `new Date(key)` (UTC midnight),
      plus seven days, written back by `toISOString` with the time part cut off. A key that is
      not a date makes `toISOString` throw. Years past 9999 are written with a sign and six
      digits. */
  function NextDutyDateAsWritten(key: string): (r: Result<string, Failure>)
    ensures r.Err? <==> ParseDate(key).None?
  {
    match ParseDate(key)
    case None => Err(InvalidDate(key))
    case Some(d) => Ok(FormatDate(AddDays(Normalize(d), CycleLengthDays)))
  }

  /** Once the step crosses into year 10000, the key written has an expanded year
      (`+010000-01-01`): it starts with '+' and sorts before the key it was stepped from, and so
      before every existing key. Run again on the map index.js:91 leaves, generateDutyCycle reads
      the same last cycle and computes the same date (AsWrittenUpdateRepeats). */
  lemma AsWrittenExpandedKeySortsFirst(key: string)
    requires ParseDate(key).Some?
    requires AddDays(Normalize(ParseDate(key).value), CycleLengthDays).year > 9999
    ensures NextDutyDateAsWritten(key).Ok?
    ensures NextDutyDateAsWritten(key).value[0] == '+'
    ensures Less(NextDutyDateAsWritten(key).value, key)
  {
    var next := AddDays(Normalize(ParseDate(key).value), CycleLengthDays);
    ExpandedYearSortsFirst(next, key);
  }

  /** The last start date of year 9999 is such a key: its successor is written +010000-01-01. */
  lemma AsWrittenNextDateSortsFirst()
    ensures NextDutyDateAsWritten("9999-12-25").Ok?
    ensures NextDutyDateAsWritten("9999-12-25").value[0] == '+'
    ensures Less(NextDutyDateAsWritten("9999-12-25").value, "9999-12-25")
  {
    ParseLastFourDigitYearKey("9999-12-25");
    YearEndStep();
    AsWrittenExpandedKeySortsFirst("9999-12-25");
  }

  lemma ParseLastFourDigitYearKey(key: string)
    requires key == "9999-12-25"
    ensures ParseDate(key) == Some(Date(9999, 12, 25))
  {
    assert key[0] == key[1] == key[2] == key[3] == '9' && key[4] == key[7] == '-';
    assert key[5] == '1' && key[6] == '2' && key[8] == '2' && key[9] == '5';
    ParseDateDigits(key);
  }

  lemma YearEndStep()
    ensures AddDays(Normalize(Date(9999, 12, 25)), CycleLengthDays) == Date(10000, 1, 1)
  {
  }

  /** The date step with the expanded-year case turned into an error, so that every key it
      produces sorts after the key it started from. Where the two agree is stated below. */
  function NextDutyDate(key: string): (r: Result<string, Failure>)
    ensures ParseDate(key).None? ==> r == Err(InvalidDate(key))
    ensures r.Ok? ==> r == NextDutyDateAsWritten(key)
    ensures r.Ok? ==> Less(key, r.value)
    ensures r.Ok? ==>
      ParseDate(r.value).Some? &&
      DayNumber(ParseDate(r.value).value) == DayNumber(ParseDate(key).value) + CycleLengthDays
    ensures r.Err? && ParseDate(key).Some? ==>
      r == Err(DateOutOfRange(key)) && Less(NextDutyDateAsWritten(key).value, key)
  {
    match ParseDate(key)
    case None => Err(InvalidDate(key))
    case Some(d) =>
      var next := AddDays(Normalize(d), CycleLengthDays);
      if next.year > 9999 then
        ExpandedYearSortsFirst(next, key);
        Err(DateOutOfRange(key))
      else
        FormatParseDate(key);
        LaterDayNumberIsLater(d, next);
        FormatDateOrder(d, next);
        ParseFormatDate(next);
        Ok(FormatDate(next))
  }

  /** `(i + 1) % triagers.length` for an index `i` of the roster (index.js:70-71), written without
      the remainder; NextIndexIsMod states that the two agree. */
  function NextIndex(i: nat, n: nat): (r: nat)
    requires i < n
    ensures r < n
  {
    if i + 1 < n then i + 1 else 0
  }

  lemma NextIndexIsMod(i: nat, n: nat)
    requires i < n
    ensures NextIndex(i, n) == (i + 1) % n
  {
  }

  /** Position `s` moved `k` places along a roster of `n`, wrapping around. */
  function Advance(s: nat, k: nat, n: nat): (r: nat)
    requires s < n
    ensures r < n
  {
    if k == 0 then s else NextIndex(Advance(s, k - 1, n), n)
  }

  lemma {:induction false} AdvanceIsMod(s: nat, k: nat, n: nat)
    requires s < n
    ensures Advance(s, k, n) == (s + k) % n
  {
    if k > 0 {
      var m := Advance(s, k - 1, n);
      AdvanceIsMod(s, k - 1, n);
      NextIndexIsMod(m, n);
      ModSucc(s + k - 1, n);
    }
  }

  lemma ModSucc(a: nat, n: nat)
    requires n > 0
    ensures (a % n + 1) % n == (a + 1) % n
  {
    var q, r := a / n, a % n;
    if r + 1 < n {
      ModUnique(a + 1, n, q, r + 1);
      ModUnique(r + 1, n, 0, r + 1);
    } else {
      ModUnique(a + 1, n, q + 1, 0);
      ModUnique(r + 1, n, 1, 0);
    }
  }

  /** The remainder is the only one: x == q * n + r with 0 <= r < n fixes r. */
  lemma ModUnique(x: nat, n: nat, q: nat, r: nat)
    requires r < n && x == q * n + r
    ensures x % n == r
  {
    var q2, r2 := x / n, x % n;
    assert x == q2 * n + r2;
    if q2 > q {
      MulMono(q + 1, q2, n);
    } else if q2 < q {
      MulMono(q2 + 1, q, n);
    }
  }

  lemma {:induction false} MulMono(a: nat, b: nat, n: nat)
    requires a <= b
    ensures a * n <= b * n
    decreases b - a
  {
    if a < b {
      MulMono(a, b - 1, n);
      assert b * n == (b - 1) * n + n;
    }
  }

  /** Which date step a run uses: the one index.js:72-74 performs, or the corrected one. */
  datatype DateStep = AsWritten | Corrected

  function StepDate(step: DateStep, key: string): Result<string, Failure>
  {
    match step
    case AsWritten => NextDutyDateAsWritten(key)
    case Corrected => NextDutyDate(key)
  }

  /** generateDutyCycle (index.js:50-85) with the given date step. Returns the new date key and
      duty cycle. */
  function GenerateWith(step: DateStep, history: History, config: Config, draws: seq<nat>): (r: Result<(string, DutyCycle), Failure>)
    requires DrawsFit(draws, |config.components|, |config.components| / 2)
    ensures r.Ok? ==> Distinct(Names(r.value.1))
  {
    if history == map[] then Err(NoHistory)
    else
      var lastDutyDate := GreatestKey(history.Keys);
      var lastTriagePair := Names(history[lastDutyDate]);
      if |lastTriagePair| != 2 then Err(InvalidTriagerData)
      else
        var triagers := config.triagers;
        var lastTriagerIdx := IndexOf(triagers, lastTriagePair[1]);
        if lastTriagerIdx == -1 then Err(UnknownTriager(lastTriagePair[1]))
        else
          var nextTriagerIdx := NextIndex(lastTriagerIdx, |triagers|);
          var nextTriagePair := [triagers[nextTriagerIdx], triagers[NextIndex(nextTriagerIdx, |triagers|)]];
          match StepDate(step, lastDutyDate)
          case Err(e) => Err(e)
          case Ok(nextDutyDate) =>
            var components := config.components;
            var firstComponentSet := Sample(components, |components| / 2, draws).value;
            var secondComponentSet := Without(components, firstComponentSet);
            Ok((nextDutyDate, PairCycle(nextTriagePair[0], nextTriagePair[1], firstComponentSet, secondComponentSet)))
  }

  /** generateDutyCycle with the corrected date step, as the rest of the model uses it. Every
      cycle it builds holds each triager once, as a JSON object does. */
  function GenerateDutyCycle(history: History, config: Config, draws: seq<nat>): (r: Result<(string, DutyCycle), Failure>)
    requires DrawsFit(draws, |config.components|, |config.components| / 2)
    ensures r.Ok? ==> Distinct(Names(r.value.1))
  {
    GenerateWith(Corrected, history, config, draws)
  }

  /** Proof helper that unfolds GenerateWith once: a run that gets past every check returns the
      step's date and the cycle built from the next pair and the drawn split. */
  lemma GenerateOkShape(step: DateStep, history: History, config: Config, draws: seq<nat>,
                        i: nat, date: string, first: seq<string>)
    requires DrawsFit(draws, |config.components|, |config.components| / 2)
    requires history != map[] && |Names(history[GreatestKey(history.Keys)])| == 2
    requires IndexOf(config.triagers, Names(history[GreatestKey(history.Keys)])[1]) == i
    requires StepDate(step, GreatestKey(history.Keys)) == Ok(date)
    requires Sample(config.components, |config.components| / 2, draws) == Ok(first)
    ensures i < |config.triagers|
    ensures var roster := config.triagers;
      var a := NextIndex(i, |roster|);
      GenerateWith(step, history, config, draws)
        == Ok((date, PairCycle(roster[a], roster[NextIndex(a, |roster|)], first, Without(config.components, first))))
  {
  }

  /** Proof helper, the converse unfolding: a run that returns a cycle got past every check, and
      the cycle is built from the pair after the last second triager and the drawn split. */
  lemma GenerateOkFacts(step: DateStep, history: History, config: Config, draws: seq<nat>)
    requires DrawsFit(draws, |config.components|, |config.components| / 2)
    requires GenerateWith(step, history, config, draws).Ok?
    ensures history != map[] && |Names(history[GreatestKey(history.Keys)])| == 2
    ensures var roster, last := config.triagers, GreatestKey(history.Keys);
      var i := IndexOf(roster, Names(history[last])[1]);
      && 0 <= i < |roster| && StepDate(step, last).Ok?
      && var a := NextIndex(i, |roster|);
      var first := Sample(config.components, |config.components| / 2, draws).value;
      GenerateWith(step, history, config, draws).value
        == (StepDate(step, last).value, PairCycle(roster[a], roster[NextIndex(a, |roster|)], first, Without(config.components, first)))
  {
  }

  /** Wherever the corrected generateDutyCycle returns a cycle, index.js returns the same one;
      the two differ only where the corrected step refuses with DateOutOfRange. */
  lemma CorrectedAgreesAsWritten(history: History, config: Config, draws: seq<nat>)
    requires DrawsFit(draws, |config.components|, |config.components| / 2)
    ensures var r := GenerateDutyCycle(history, config, draws);
      r == GenerateWith(AsWritten, history, config, draws)
      || (history != map[] && r == Err(DateOutOfRange(GreatestKey(history.Keys))))
  {
    if history != map[] {
      var last := GreatestKey(history.Keys);
      if NextDutyDate(last) == NextDutyDateAsWritten(last) {
        GenerateSameStep(history, config, draws);
      } else {
        GenerateRefused(history, config, draws);
      }
    }
  }

  /** Where the corrected step refuses, the corrected run fails as index.js does before the date
      step, or with that refusal. */
  lemma GenerateRefused(history: History, config: Config, draws: seq<nat>)
    requires DrawsFit(draws, |config.components|, |config.components| / 2)
    requires history != map[]
    requires NextDutyDate(GreatestKey(history.Keys)) == Err(DateOutOfRange(GreatestKey(history.Keys)))
    ensures var r := GenerateWith(Corrected, history, config, draws);
      r == GenerateWith(AsWritten, history, config, draws) || r == Err(DateOutOfRange(GreatestKey(history.Keys)))
  {
  }

  /** Where both date steps give the same outcome, so do both runs. */
  lemma GenerateSameStep(history: History, config: Config, draws: seq<nat>)
    requires DrawsFit(draws, |config.components|, |config.components| / 2)
    requires history != map[]
    requires StepDate(Corrected, GreatestKey(history.Keys)) == StepDate(AsWritten, GreatestKey(history.Keys))
    ensures GenerateWith(Corrected, history, config, draws) == GenerateWith(AsWritten, history, config, draws)
  {
  }

  /** The run depends on the history only through its greatest key and that key's cycle: two
      histories that agree there give the same outcome and the same date. */
  lemma GenerateSameLast(step: DateStep, h1: History, h2: History, config: Config, d1: seq<nat>, d2: seq<nat>)
    requires DrawsFit(d1, |config.components|, |config.components| / 2)
    requires DrawsFit(d2, |config.components|, |config.components| / 2)
    requires h1 != map[] && h2 != map[]
    requires GreatestKey(h1.Keys) == GreatestKey(h2.Keys)
    requires h1[GreatestKey(h1.Keys)] == h2[GreatestKey(h2.Keys)]
    ensures GenerateWith(step, h1, config, d1).Ok? <==> GenerateWith(step, h2, config, d2).Ok?
    ensures GenerateWith(step, h1, config, d1).Ok? ==>
      GenerateWith(step, h1, config, d1).value.0 == GenerateWith(step, h2, config, d2).value.0
  {
  }

  /** index.js as written, once its date step reaches year 10000: the key it stores sorts before
      the last key, so in the map index.js:91 leaves the last key stays the greatest, and
      generateDutyCycle run on that map computes the same date again from the same cycle.
      (index.js's own next `update` throws before that: writeHistory stores the bare map, and
      readHistory then finds no `duty-start-dates` field.) */
  lemma AsWrittenUpdateRepeats(history: History, config: Config, draws: seq<nat>, nextDraws: seq<nat>)
    requires DrawsFit(draws, |config.components|, |config.components| / 2)
    requires DrawsFit(nextDraws, |config.components|, |config.components| / 2)
    requires history != map[] && ParseDate(GreatestKey(history.Keys)).Some?
    requires AddDays(Normalize(ParseDate(GreatestKey(history.Keys)).value), CycleLengthDays).year > 9999
    requires GenerateWith(AsWritten, history, config, draws).Ok?
    ensures var (date, cycle) := GenerateWith(AsWritten, history, config, draws).value;
      var updated := history[date := cycle];
      && Less(date, GreatestKey(history.Keys))
      && GreatestKey(updated.Keys) == GreatestKey(history.Keys)
      && GenerateWith(AsWritten, updated, config, nextDraws).Ok?
      && GenerateWith(AsWritten, updated, config, nextDraws).value.0 == date
  {
    var last := GreatestKey(history.Keys);
    var (date, cycle) := GenerateWith(AsWritten, history, config, draws).value;
    AsWrittenExpandedKeySortsFirst(last);
    StaleKeyKeepsGreatest(history, date, cycle);
    GenerateSameLast(AsWritten, history, history[date := cycle], config, draws, nextDraws);
  }

  /** Storing a cycle under a key that sorts before the greatest key leaves that key the
      greatest, with its cycle. */
  lemma StaleKeyKeepsGreatest(history: History, date: string, cycle: DutyCycle)
    requires history != map[] && Less(date, GreatestKey(history.Keys))
    ensures var last := GreatestKey(history.Keys);
      GreatestKey(history[date := cycle].Keys) == last && history[date := cycle][last] == history[last]
  {
    var last := GreatestKey(history.Keys);
    var updated := history[date := cycle];
    LessIrreflexive(last);
    assert IsGreatest(last, updated.Keys);
    GreatestUnique(GreatestKey(updated.Keys), last, updated.Keys);
  }

  /** generateDutyCycle throws exactly when the history is empty, when its last cycle does not
      have two triagers, when that cycle's second triager is not in the roster, or when the last
      date key cannot be stepped (index.js:54-56, index.js:61-63, index.js:67-69, index.js:72-74). */
  lemma GenerateFailures(history: History, config: Config, draws: seq<nat>)
    requires DrawsFit(draws, |config.components|, |config.components| / 2)
    ensures var r := GenerateDutyCycle(history, config, draws);
      && (r == Err(NoHistory) <==> history == map[])
      && (history != map[] ==>
            var last := GreatestKey(history.Keys);
            var names := Names(history[last]);
            && (r == Err(InvalidTriagerData) <==> |names| != 2)
            && (|names| == 2 ==>
                  && (r == Err(UnknownTriager(names[1])) <==> names[1] !in config.triagers)
                  && (names[1] in config.triagers ==>
                        (r.Err? <==> NextDutyDate(last).Err?)
                        && (r.Err? ==> r.error == NextDutyDate(last).error))))
  {
    if history != map[] {
      var last := GreatestKey(history.Keys);
      var names := Names(history[last]);
      if |names| == 2 && names[1] in config.triagers {
        var r := GenerateDutyCycle(history, config, draws);
        assert r.Err? ==> r.error == NextDutyDate(last).error;
        assert NextDutyDate(last).Err? ==> NextDutyDate(last).error != UnknownTriager(names[1]);
      }
    }
  }

  /** The new date key is exactly seven days after the greatest existing key, and so sorts
      after every key of the history (index.js:52-58, index.js:72-74). */
  lemma GenerateDateIsNext(history: History, config: Config, draws: seq<nat>)
    requires DrawsFit(draws, |config.components|, |config.components| / 2)
    requires GenerateDutyCycle(history, config, draws).Ok?
    ensures history != map[]
    ensures var date := GenerateDutyCycle(history, config, draws).value.0;
      var last := GreatestKey(history.Keys);
      && ParseDate(last).Some? && ParseDate(date).Some?
      && DayNumber(ParseDate(date).value) == DayNumber(ParseDate(last).value) + CycleLengthDays
      && (forall k :: k in history ==> Less(k, date))
      && date !in history
  {
    var date := GenerateDutyCycle(history, config, draws).value.0;
    var last := GreatestKey(history.Keys);
    assert Less(last, date);
    forall k | k in history
      ensures Less(k, date)
    {
      if k != last {
        LessTransitive(k, last, date);
      }
    }
    if date in history {
      LessIrreflexive(date);
    }
  }

  /** The next pair is the two roster members after the last cycle's second triager, wrapping
      around (index.js:65-73), whichever date step the run uses. With one roster member both
      slots name it and the cycle has one key. */
  lemma GeneratePair(step: DateStep, history: History, config: Config, draws: seq<nat>)
    requires DrawsFit(draws, |config.components|, |config.components| / 2)
    requires GenerateWith(step, history, config, draws).Ok?
    ensures history != map[] && |Names(history[GreatestKey(history.Keys)])| == 2
    ensures var roster, cycle := config.triagers, GenerateWith(step, history, config, draws).value.1;
      var n := |roster|;
      var i := IndexOf(roster, Names(history[GreatestKey(history.Keys)])[1]);
      && 0 <= i < n
      && (Distinct(roster) && n >= 2 ==> Names(cycle) == [roster[Advance(i, 1, n)], roster[Advance(i, 2, n)]])
      && (n == 1 ==> Names(cycle) == [roster[0]])
  {
    GenerateOkFacts(step, history, config, draws);
    var roster := config.triagers;
    var n := |roster|;
    var i := IndexOf(roster, Names(history[GreatestKey(history.Keys)])[1]);
    var a := NextIndex(i, n);
    var b := NextIndex(a, n);
    var first := Sample(config.components, |config.components| / 2, draws).value;
    PairCycleNames(roster[a], roster[b], first, Without(config.components, first));
    AdvanceOneTwo(i, n);
  }

  /** One and two places along the roster are one and two wrap-around steps. */
  lemma AdvanceOneTwo(i: nat, n: nat)
    requires i < n
    ensures Advance(i, 1, n) == NextIndex(i, n)
    ensures Advance(i, 2, n) == NextIndex(NextIndex(i, n), n)
  {
    assert Advance(i, 0, n) == i;
  }

  /** An exhaustive, disjoint split of components without repeats. */
  lemma {:induction false} DistinctCount(s: seq<string>, x: string)
    requires Distinct(s)
    ensures multiset(s)[x] == if x in s then 1 else 0
  {
    if |s| > 0 {
      DistinctCount(s[1..], x);
      assert s == [s[0]] + s[1..];
    }
  }

  lemma SplitIsPartition(components: seq<string>, first: seq<string>)
    requires Distinct(components) && Distinct(first)
    requires forall x :: x in first ==> x in components
    ensures multiset(first) + multiset(Without(components, first)) == multiset(components)
  {
    var second := Without(components, first);
    forall x
      ensures (multiset(first) + multiset(second))[x] == multiset(components)[x]
    {
      DistinctCount(components, x);
      DistinctCount(first, x);
    }
  }

  /** The category split of index.js:75-79, whichever date step the run uses: the first triager
      gets |components| / 2 of them drawn at random, the second the rest in config order; without
      repeats in the components the two sets are disjoint and together are exactly the
      components. */
  lemma GenerateSplit(step: DateStep, history: History, config: Config, draws: seq<nat>)
    requires DrawsFit(draws, |config.components|, |config.components| / 2)
    requires GenerateWith(step, history, config, draws).Ok?
    requires Distinct(config.triagers) && |config.triagers| >= 2
    ensures var cycle, components := GenerateWith(step, history, config, draws).value.1, config.components;
      && |cycle| == 2
      && |cycle[0].components| == |components| / 2
      && (forall x :: x in cycle[0].components ==> x in components)
      && cycle[1].components == Without(components, cycle[0].components)
      && IsSubsequence(cycle[1].components, components)
      && (Distinct(components) ==>
            && Distinct(cycle[0].components)
            && (forall x :: x in cycle[0].components ==> x !in cycle[1].components)
            && multiset(cycle[0].components) + multiset(cycle[1].components) == multiset(components)
            && |cycle[1].components| == |components| - |components| / 2)
  {
    GeneratePair(step, history, config, draws);
    GenerateOkFacts(step, history, config, draws);
    var components := config.components;
    var n := |components| / 2;
    var first := Sample(components, n, draws).value;
    SampleOfDistinct(components, n, draws);
    if Distinct(components) {
      SplitIsPartition(components, first);
      var second := Without(components, first);
      assert |multiset(first) + multiset(second)| == |multiset(components)|;
    }
  }

  /** Two updates in a row: the second cycle starts two roster positions after the first, and
      its date sorts after the first's (index.js:65-74 applied to the history index.js:91
      leaves). Its only possible failure is the expanded-year date. */
  lemma ConsecutiveCyclesAdvanceByTwo(history: History, config: Config, draws: seq<nat>, nextDraws: seq<nat>)
    requires DrawsFit(draws, |config.components|, |config.components| / 2)
    requires DrawsFit(nextDraws, |config.components|, |config.components| / 2)
    requires Distinct(config.triagers) && |config.triagers| >= 2
    requires GenerateDutyCycle(history, config, draws).Ok?
    ensures var (date, cycle) := GenerateDutyCycle(history, config, draws).value;
      var roster, n := config.triagers, |config.triagers|;
      var later := GenerateDutyCycle(history[date := cycle], config, nextDraws);
      && |cycle| == 2
      && var s := IndexOf(roster, cycle[0].name);
      && 0 <= s < n
      && Names(cycle) == [roster[s], roster[Advance(s, 1, n)]]
      && (later.Err? ==> later == Err(DateOutOfRange(date)))
      && (later.Ok? ==> Names(later.value.1) == [roster[Advance(s, 2, n)], roster[Advance(s, 3, n)]])
      && (later.Ok? ==> Less(date, later.value.0))
  {
    var (date, cycle) := GenerateDutyCycle(history, config, draws).value;
    var roster, n := config.triagers, |config.triagers|;
    GeneratePair(Corrected, history, config, draws);
    GenerateDateIsNext(history, config, draws);
    var i := IndexOf(roster, Names(history[GreatestKey(history.Keys)])[1]);
    var s := Advance(i, 1, n);
    var t := Advance(i, 2, n);
    assert Names(cycle) == [roster[s], roster[t]];
    assert |cycle| == |Names(cycle)| && cycle[0].name == Names(cycle)[0];
    IndexOfDistinct(roster, s);
    IndexOfDistinct(roster, t);
    assert Advance(s, 1, n) == t;
    var h2 := history[date := cycle];
    assert IsGreatest(date, h2.Keys);
    GreatestUnique(GreatestKey(h2.Keys), date, h2.Keys);
    assert Names(h2[GreatestKey(h2.Keys)])[1] == roster[t];
    var later := GenerateDutyCycle(h2, config, nextDraws);
    if later.Ok? {
      GeneratePair(Corrected, h2, config, nextDraws);
      GenerateDateIsNext(h2, config, nextDraws);
      assert Advance(s, 2, n) == Advance(t, 1, n);
      assert Advance(s, 3, n) == Advance(t, 2, n);
    } else {
      assert NextDutyDate(date).Err?;
    }
  }

  /** With a roster of two, every cycle has the same pair in the same order (index.js:71-73). */
  lemma TwoTriagerRosterRepeatsPair(history: History, config: Config, draws: seq<nat>, nextDraws: seq<nat>)
    requires DrawsFit(draws, |config.components|, |config.components| / 2)
    requires DrawsFit(nextDraws, |config.components|, |config.components| / 2)
    requires Distinct(config.triagers) && |config.triagers| == 2
    requires GenerateDutyCycle(history, config, draws).Ok?
    ensures var r := GenerateDutyCycle(history, config, draws).value;
      var later := GenerateDutyCycle(history[r.0 := r.1], config, nextDraws);
      later.Ok? ==> Names(later.value.1) == Names(r.1)
  {
    ConsecutiveCyclesAdvanceByTwo(history, config, draws, nextDraws);
    var r := GenerateDutyCycle(history, config, draws).value;
    var s := IndexOf(config.triagers, r.1[0].name);
    assert Advance(s, 2, 2) == s;
    assert Advance(s, 3, 2) == Advance(s, 1, 2);
  }

  /** With a roster of one, the cycle written has a single key (index.js:78-79 write the same
      key twice), so the next update throws "Invalid triager data" (index.js:61-63). */
  lemma OneTriagerRosterStalls(history: History, config: Config, draws: seq<nat>, nextDraws: seq<nat>)
    requires DrawsFit(draws, |config.components|, |config.components| / 2)
    requires DrawsFit(nextDraws, |config.components|, |config.components| / 2)
    requires |config.triagers| == 1
    requires GenerateDutyCycle(history, config, draws).Ok?
    ensures var r := GenerateDutyCycle(history, config, draws).value;
      GenerateDutyCycle(history[r.0 := r.1], config, nextDraws) == Err(InvalidTriagerData)
  {
    var r := GenerateDutyCycle(history, config, draws).value;
    GeneratePair(Corrected, history, config, draws);
    GenerateDateIsNext(history, config, draws);
    var h2 := history[r.0 := r.1];
    assert IsGreatest(r.0, h2.Keys);
    GreatestUnique(GreatestKey(h2.Keys), r.0, h2.Keys);
    assert |Names(h2[r.0])| == 1;
  }
}
