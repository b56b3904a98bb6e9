/** One generateDutyCycle step worked through on a small history. */
module Scenarios {
  import opened Wrappers
  import opened StringOrder
  import opened CivilDate
  import opened IsoDate
  import opened Sampler
  import opened Rotation

  /** With alice and bob on duty from 2024-01-01 and the roster alice, bob, carol, the next
      cycle starts on 2024-01-08 with carol first and alice second; the draw picks the second
      component for carol and alice gets the other one. */
  lemma FirstUpdate()
    ensures
      var history := map["2024-01-01" := [Entry("alice", ["css"]), Entry("bob", ["layout"])]];
      var config := Config(["alice", "bob", "carol"], ["css", "layout"]);
      GenerateDutyCycle(history, config, [1])
        == Ok(("2024-01-08", [Entry("carol", ["layout"]), Entry("alice", ["css"])]))
  {
    FirstRun(map["2024-01-01" := [Entry("alice", ["css"]), Entry("bob", ["layout"])]],
             Config(["alice", "bob", "carol"], ["css", "layout"]));
    FirstRest();
  }

  /** The run gets past every check and builds the cycle from carol, alice and the drawn
      component. */
  lemma FirstRun(history: History, config: Config)
    requires history == map["2024-01-01" := [Entry("alice", ["css"]), Entry("bob", ["layout"])]]
    requires config == Config(["alice", "bob", "carol"], ["css", "layout"])
    ensures DrawsFit([1], |config.components|, |config.components| / 2)
    ensures GenerateWith(Corrected, history, config, [1])
      == Ok(("2024-01-08", PairCycle("carol", "alice", ["layout"], Without(["css", "layout"], ["layout"]))))
  {
    FirstLastKey(history);
    FirstRoster(config);
    FirstDateStep();
    assert StepDate(Corrected, GreatestKey(history.Keys)) == Ok("2024-01-08");
    GenerateOkShape(Corrected, history, config, [1], 1, "2024-01-08", ["layout"]);
  }

  /** bob is at index 1 of the roster, and the draw 1 gives carol's component. */
  lemma FirstRoster(config: Config)
    requires config == Config(["alice", "bob", "carol"], ["css", "layout"])
    ensures IndexOf(config.triagers, "bob") == 1
    ensures |config.components| / 2 == 1 && DrawsFit([1], |config.components|, 1)
    ensures Sample(config.components, |config.components| / 2, [1]) == Ok(["layout"])
  {
    assert IndexOf(config.triagers, "bob") == 1;
    assert |config.components| / 2 == 1;
    FirstDraw(config.components);
  }

  lemma FirstLastKey(history: History)
    requires history == map["2024-01-01" := [Entry("alice", ["css"]), Entry("bob", ["layout"])]]
    ensures history != map[] && GreatestKey(history.Keys) == "2024-01-01"
    ensures Names(history["2024-01-01"]) == ["alice", "bob"]
  {
    var key := "2024-01-01";
    assert IsGreatest(key, history.Keys);
    GreatestUnique(GreatestKey(history.Keys), key, history.Keys);
  }

  /** The component the draw left goes to the second triager. */
  lemma FirstRest()
    ensures Without(["css", "layout"], ["layout"]) == ["css"]
    ensures PairCycle("carol", "alice", ["layout"], ["css"]) == [Entry("carol", ["layout"]), Entry("alice", ["css"])]
  {
    assert ["css", "layout"][1..] == ["layout"];
  }

  /** 2024-01-01 plus seven days is 2024-01-08. */
  lemma FirstDateStep()
    ensures NextDutyDate("2024-01-01") == Ok("2024-01-08")
  {
    ParseFirstKey("2024-01-01");
    FirstAddDays();
    FormatNextKey();
  }

  lemma FormatNextKey()
    ensures FormatDate(Date(2024, 1, 8)) == "2024-01-08"
  {
    ParseNextKey("2024-01-08");
    FormatParseDate("2024-01-08");
  }

  lemma ParseNextKey(key: string)
    requires key == "2024-01-08"
    ensures ParseDate(key) == Some(Date(2024, 1, 8))
  {
    assert key[0] == '2' && key[1] == '0' && key[2] == '2' && key[3] == '4' && key[4] == key[7] == '-';
    assert key[5] == '0' && key[6] == '1' && key[8] == '0' && key[9] == '8';
    ParseDateDigits(key);
  }

  lemma FirstAddDays()
    ensures AddDays(Normalize(Date(2024, 1, 1)), CycleLengthDays) == Date(2024, 1, 8)
  {
    assert Normalize(Date(2024, 1, 1)) == Date(2024, 1, 1);
  }

  lemma ParseFirstKey(key: string)
    requires key == "2024-01-01"
    ensures ParseDate(key) == Some(Date(2024, 1, 1))
  {
    assert key[0] == '2' && key[1] == '0' && key[2] == '2' && key[3] == '4' && key[4] == key[7] == '-';
    assert key[5] == '0' && key[6] == '1' && key[8] == '0' && key[9] == '1';
    ParseDateDigits(key);
  }

  /** Choosing one of two components with the draw 1 picks the second. */
  lemma FirstDraw(components: seq<string>)
    requires components == ["css", "layout"]
    ensures Sample(components, 1, [1]) == Ok(["layout"])
  {
    var pool := Iota(2);
    assert pool == [0, 1];
    assert Picks(pool, [1], 1) == Picks(Remaining(pool, 1), [], 0) + [1];
    assert DrawnPositions(2, 1, [1]) == [1];
    var r := Sample(components, 1, [1]);
    assert r.value[0] == "layout";
    assert r.value == ["layout"];
  }
}
