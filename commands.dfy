/** `commandUpdate` (index.js:87-93): the `update` command appends the next duty cycle to the
    history it read, in place. The history file itself is not modelled: the object holds the
    date map that readHistory returns and that writeHistory is then given. */
module Commands {
  import opened Wrappers
  import opened Failures
  import opened StringOrder
  import opened IsoDate
  import opened Sampler
  import opened Rotation

  class DutyHistory {
    /** The `duty-start-dates` object: date key to duty cycle. */
    var cycles: History

    /** Each stored cycle is a JSON object, so it names each triager once. This records what JSON
        guarantees of every history readHistory can return; CommandUpdate keeps it, and none of
        CommandUpdate's other promises depends on it. */
    predicate Valid()
      reads this
    {
      forall k :: k in cycles ==> Distinct(Names(cycles[k]))
    }

    /** Every key is a date key generateDutyCycle can step from. index.js does not require this
        (only the greatest key is read), so it is not part of the invariant. */
    predicate AllKeysAreDates()
      reads this
    {
      forall k :: k in cycles ==> ParseDate(k).Some?
    }

    /** The history as readHistory returns it (index.js:19-25). */
    constructor (initial: History)
      requires forall k :: k in initial ==> Distinct(Names(initial[k]))
      ensures cycles == initial && Valid()
    {
      cycles := initial;
    }

    /** index.js:88-92: generate the next cycle from the current history and store it under its
        date. When generateDutyCycle throws, nothing is stored. Returns the new date key. */
    method CommandUpdate(config: Config, draws: seq<nat>) returns (r: Result<string, Failure>)
      requires Valid() && DrawsFit(draws, |config.components|, |config.components| / 2)
      modifies this
      ensures var g := GenerateDutyCycle(old(cycles), config, draws);
        && (g.Err? ==> r == Err(g.error) && cycles == old(cycles))
        && (g.Ok? ==> r == Ok(g.value.0) && cycles == old(cycles)[g.value.0 := g.value.1])
      ensures r.Ok? ==>
        && r.value !in old(cycles)
        && cycles.Keys == old(cycles).Keys + {r.value}
        && (forall k :: k in old(cycles) ==> Less(k, r.value) && cycles[k] == old(cycles)[k])
        && IsGreatest(r.value, cycles.Keys)
      ensures Valid()
      ensures old(AllKeysAreDates()) ==> AllKeysAreDates()
    {
      var g := GenerateDutyCycle(cycles, config, draws);
      if g.Err? {
        return Err(g.error);
      }
      GenerateDateIsNext(cycles, config, draws);
      cycles := cycles[g.value.0 := g.value.1];
      r := Ok(g.value.0);
    }
  }
}
