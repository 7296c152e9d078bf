/** The expectations of the repository's unit and output tests, stated on the model. */
module Oracles {
  import opened Wrappers
  import opened Text
  import opened Framework
  import opened Config
  import opened Program
  import A = AppConfigProvider
  import C = CommandLineConfigProvider

  const TestDivisors: Dictionary := [Entry(4, "Test4"), Entry(10, "Test10"), Entry(19, "Test19")]

  lemma TestDivisorsWellFormed()
    ensures DistinctKeys(TestDivisors) && NonZeroKeys(TestDivisors)
  {
  }

  /** Small decimal texts, spelled out. */
  lemma SmallDecimals()
    ensures IntToDecimal(1) == "1" && IntToDecimal(2) == "2" && IntToDecimal(4) == "4"
    ensures IntToDecimal(7) == "7" && IntToDecimal(8) == "8" && IntToDecimal(10) == "10"
    ensures IntToDecimal(11) == "11" && IntToDecimal(13) == "13" && IntToDecimal(14) == "14"
    ensures IntToDecimal(15) == "15" && IntToDecimal(19) == "19"
  {
  }

  /** The textbook game, written independently of the dictionary machinery. */
  function ClassicFizzBuzz(round: int): string {
    if round % 3 == 0 && round % 5 == 0 then "Fizz Buzz"
    else if round % 3 == 0 then "Fizz"
    else if round % 5 == 0 then "Buzz"
    else IntToDecimal(round)
  }

  /** The first `n` lines of the textbook game. */
  function ClassicGame(n: nat): (lines: seq<string>)
    ensures |lines| == n
    ensures forall i :: 0 <= i < n ==> lines[i] == ClassicFizzBuzz(i + 1)
  {
    if n == 0 then [] else ClassicGame(n - 1) + [ClassicFizzBuzz(n)]
  }

  /** With the default configuration and any round count the game is the textbook one. */
  lemma DefaultGameIsClassic(n: nat)
    ensures GameLines(AppConfig(n, DefaultDivisors, false)) == ClassicGame(n)
  {
    var classic := ClassicGame(n);
    forall i | 0 <= i < n ensures classic[i] == RoundText(DefaultDivisors, i + 1, false) {
      DefaultRoundIsClassic(i + 1);
    }
    EvaluatedGame(AppConfig(n, DefaultDivisors, false), classic);
  }

  /** One round of the default game is the textbook round. */
  lemma DefaultRoundIsClassic(round: int)
    ensures RoundText(DefaultDivisors, round, false) == ClassicFizzBuzz(round)
  {
    assert DistinctKeys(DefaultDivisors);
    var asc := DefaultMatches(round);
    DefaultMatchesListing(round);
    RoundTextAscending(DefaultDivisors, round, false, asc);
  }

  /** The default divisors that divide `round`, in ascending order. */
  function DefaultMatches(round: int): Dictionary {
    (if round % 3 == 0 then [Entry(3, "Fizz")] else []) + (if round % 5 == 0 then [Entry(5, "Buzz")] else [])
  }

  lemma DefaultMatchesListing(round: int)
    ensures var asc := DefaultMatches(round);
            && StrictlyAscending(asc)
            && (forall e :: e in asc <==> e in DefaultDivisors && Matches(e.key, round, false))
            && (asc == [] ==> ClassicFizzBuzz(round) == IntToDecimal(round))
            && (asc != [] ==> Join(" ", Values(asc)) == ClassicFizzBuzz(round))
  {
    var asc := DefaultMatches(round);
    assert Values(asc) == (if round % 3 == 0 then ["Fizz"] else []) + (if round % 5 == 0 then ["Buzz"] else []);
  }

  /** Five more rounds of the textbook game extend its lines by those rounds' texts. */
  lemma ClassicBlock(n: nat, block: seq<string>)
    requires |block| == 5 && forall i :: 0 <= i < 5 ==> block[i] == ClassicFizzBuzz(n + i + 1)
    ensures ClassicGame(n + 5) == ClassicGame(n) + block
  {
  }

  lemma FirstFiveRounds()
    ensures ClassicGame(5) == ["1", "2", "Fizz", "4", "Buzz"]
  {
    SmallDecimals();
    ClassicBlock(0, ["1", "2", "Fizz", "4", "Buzz"]);
  }

  lemma SecondFiveRounds()
    ensures ClassicGame(10) == ClassicGame(5) + ["Fizz", "7", "8", "Fizz", "Buzz"]
  {
    SmallDecimals();
    ClassicBlock(5, ["Fizz", "7", "8", "Fizz", "Buzz"]);
  }

  lemma ThirdFiveRounds()
    ensures ClassicGame(15) == ClassicGame(10) + ["11", "Fizz", "13", "14", "Fizz Buzz"]
  {
    SmallDecimals();
    ClassicBlock(10, ["11", "Fizz", "13", "14", "Fizz Buzz"]);
  }

  /** The round texts of a fifteen-round default game, which the program joins with ", ". */
  lemma FifteenRounds()
    ensures ClassicGame(15)
            == ["1", "2", "Fizz", "4", "Buzz", "Fizz", "7", "8", "Fizz", "Buzz", "11", "Fizz", "13", "14", "Fizz Buzz"]
  {
    FirstFiveRounds();
    SecondFiveRounds();
    ThirdFiveRounds();
  }

  /** A lone "rounds=<n>" argument, which reaches the program as a rounds section holding the
      decimal text of `n`, prints `n` rounds of the textbook game on one line. */
  lemma RoundsOnlyRun(n: int, args: seq<string>)
    requires 1 <= n <= MaxInt32 && !IsHelpRequest(args)
    ensures Outcome(map[A.RoundsArgName := A.Section(Some(IntToDecimal(n)), [])], args)
            == Printed(Join(", ", ClassicGame(n)))
  {
    var root := map[A.RoundsArgName := A.Section(Some(IntToDecimal(n)), [])];
    assert !A.HasUnknownKey(root);
    A.RoundsConfigOfDecimal(root, n);
    assert A.LoadedConfig(root) == Success(AppConfig(n, DefaultDivisors, false));
    DefaultGameIsClassic(n);
  }

  /** An unknown parameter ends the run with exit code 1 and a message on standard error. */
  lemma UnknownParameterExits()
    ensures Outcome(map["notavalidparam" := A.Section(Some("true"), [])], ["notavalidparam=true"])
            == Exited(1, A.UnknownArgumentMessage)
  {
    A.UnknownKeyWins(map[], "notavalidparam", A.Section(Some("true"), []));
  }

  /** A lone "help" argument, which the configuration library reads as no setting at all,
      prints the help. */
  lemma HelpAnswered()
    ensures Outcome(map[], [A.HelpArgName]) == Help
  {
    A.EmptyRootDefaults();
  }

  /** What a round prints with the test divisors 4, 10 and 19: the texts of the divisors that
      divide the round or, when contains matching is on, whose digits occur in it, in that order. */
  function TestDivisorText(round: int, matchByContains: bool): string {
    var hits := (if Matches(4, round, matchByContains) then ["Test4"] else [])
                + (if Matches(10, round, matchByContains) then ["Test10"] else [])
                + (if Matches(19, round, matchByContains) then ["Test19"] else []);
    if hits == [] then IntToDecimal(round) else Join(" ", hits)
  }

  lemma TestDivisorsRound(round: int, matchByContains: bool)
    ensures RoundText(TestDivisors, round, matchByContains) == TestDivisorText(round, matchByContains)
  {
    TestDivisorsWellFormed();
    var asc := TestMatches(round, matchByContains);
    TestMatchesListing(round, matchByContains);
    RoundTextAscending(TestDivisors, round, matchByContains, asc);
  }

  /** The test divisors that match at `round`, in ascending order. */
  function TestMatches(round: int, matchByContains: bool): Dictionary {
    (if Matches(4, round, matchByContains) then [Entry(4, "Test4")] else [])
    + (if Matches(10, round, matchByContains) then [Entry(10, "Test10")] else [])
    + (if Matches(19, round, matchByContains) then [Entry(19, "Test19")] else [])
  }

  lemma TestMatchesListing(round: int, matchByContains: bool)
    ensures var asc := TestMatches(round, matchByContains);
            && StrictlyAscending(asc)
            && (forall e :: e in asc <==> e in TestDivisors && Matches(e.key, round, matchByContains))
            && (asc == [] ==> TestDivisorText(round, matchByContains) == IntToDecimal(round))
            && (asc != [] ==> Join(" ", Values(asc)) == TestDivisorText(round, matchByContains))
  {
    var asc := TestMatches(round, matchByContains);
    assert Values(asc) == (if Matches(4, round, matchByContains) then ["Test4"] else [])
                          + (if Matches(10, round, matchByContains) then ["Test10"] else [])
                          + (if Matches(19, round, matchByContains) then ["Test19"] else []);
  }

  /** The first `n` lines with the test divisors. */
  function TestDivisorGame(n: nat, matchByContains: bool): (lines: seq<string>)
    ensures |lines| == n
    ensures forall i :: 0 <= i < n ==> lines[i] == TestDivisorText(i + 1, matchByContains)
  {
    if n == 0 then [] else TestDivisorGame(n - 1, matchByContains) + [TestDivisorText(n, matchByContains)]
  }

  /** With the test divisors and any round count, the game is `TestDivisorGame`. */
  lemma TestDivisorGameLines(n: nat, matchByContains: bool)
    ensures GameLines(AppConfig(n, TestDivisors, matchByContains)) == TestDivisorGame(n, matchByContains)
  {
    TestDivisorsWellFormed();
    TestDivisorGameRounds(n, matchByContains);
    EvaluatedGame(AppConfig(n, TestDivisors, matchByContains), TestDivisorGame(n, matchByContains));
  }

  /** Line i of `TestDivisorGame` is what round i + 1 prints with the test divisors. */
  lemma TestDivisorGameRounds(n: nat, matchByContains: bool)
    ensures forall i :: 0 <= i < n ==>
              TestDivisorGame(n, matchByContains)[i] == RoundText(TestDivisors, i + 1, matchByContains)
  {
    forall i | 0 <= i < n ensures TestDivisorGame(n, matchByContains)[i] == RoundText(TestDivisors, i + 1, matchByContains) {
      TestDivisorGameRound(n, matchByContains, i);
    }
  }

  lemma TestDivisorGameRound(n: nat, matchByContains: bool, i: nat)
    requires i < n
    ensures TestDivisorGame(n, matchByContains)[i] == RoundText(TestDivisors, i + 1, matchByContains)
  {
    var line := TestDivisorGame(n, matchByContains)[i];
    assert line == TestDivisorText(i + 1, matchByContains);
    TestDivisorsRound(i + 1, matchByContains);
  }

  /** The children "divisors:4=Test4", "divisors:10=Test10" and "divisors:19=Test19" give, in the
      numeric key order the configuration library lists them in. */
  const TestChildren: seq<A.Child> := [A.Child("4", Some("Test4")), A.Child("10", Some("Test10")), A.Child("19", Some("Test19"))]

  /** A child keyed by a digit run, with a text that does not start with white space, is valid. */
  lemma TestChildValid(c: A.Child, key: string, text: string)
    requires c == A.Child(key, Some(text))
    requires |key| > 0 && AllDigits(key) && 1 <= DigitsValue(key) <= MaxInt32
    requires |text| > 0 && !IsWhiteSpace(text[0])
    ensures A.ValidateDivisorChild(c) == Success(Entry(DigitsValue(key), text))
  {
    A.DigitsChild(key, Some(text));
  }

  /** Each test child validates to the test divisor at its place. */
  lemma TestChildFourValid()
    ensures A.ValidateDivisorChild(TestChildren[0]) == Success(TestDivisors[0])
  {
    assert DigitsValue("4") == 4;
    TestChildValid(TestChildren[0], "4", "Test4");
  }

  lemma TestChildTenValid()
    ensures A.ValidateDivisorChild(TestChildren[1]) == Success(TestDivisors[1])
  {
    assert DigitsValue("10") == 10;
    TestChildValid(TestChildren[1], "10", "Test10");
  }

  lemma TestChildNineteenValid()
    ensures A.ValidateDivisorChild(TestChildren[2]) == Success(TestDivisors[2])
  {
    assert DigitsValue("19") == 19;
    TestChildValid(TestChildren[2], "19", "Test19");
  }

  lemma TestChildrenLoad(children: seq<A.Child>)
    requires children == TestChildren
    ensures AllParse(children, A.ValidateDivisorChild)
    ensures ParsedAll(children, A.ValidateDivisorChild) == TestDivisors
  {
    TestChildFourValid();
    TestChildTenValid();
    TestChildNineteenValid();
    ParsedAllOfThree(children, A.ValidateDivisorChild, TestDivisors);
  }

  /** Three items that parse one by one to three entries parse together to those entries. */
  lemma ParsedAllOfThree<T>(items: seq<T>, parse: T -> Result<Entry, ConfigError>, d: Dictionary)
    requires |items| == 3 && |d| == 3
    requires parse(items[0]) == Success(d[0]) && parse(items[1]) == Success(d[1]) && parse(items[2]) == Success(d[2])
    ensures AllParse(items, parse) && ParsedAll(items, parse) == d
  {
    assert forall i :: 0 <= i < |items| ==> parse(items[i]) == Success(d[i]);
  }

  /** A divisors section holding the test children loads to the test divisors. */
  lemma TestDivisorsSection(root: A.ConfigRoot)
    requires A.DivisorsArgName in root && root[A.DivisorsArgName] == A.Section(None, TestChildren)
    ensures A.DivisorConfig(root) == Success(Some(TestDivisors))
  {
    A.DivisorConfigLoadsChildren(root);
    TestChildrenLoad(TestChildren);
    TestDivisorsWellFormed();
  }

  /** The arguments "divisors:4=Test4 divisors:10=Test10 divisors:19=Test19" load to 100 rounds of
      the test divisors without contains matching. */
  lemma TestDivisorsTreeLoads(root: A.ConfigRoot)
    requires root.Keys == {A.DivisorsArgName}
    requires root[A.DivisorsArgName] == A.Section(None, TestChildren)
    ensures A.LoadedConfig(root) == Success(AppConfig(100, TestDivisors, false))
  {
    assert !A.HasUnknownKey(root);
    TestDivisorsSection(root);
  }

  /** That run prints the 100 lines of the test divisors. */
  lemma TestDivisorsRun(root: A.ConfigRoot, args: seq<string>)
    requires root.Keys == {A.DivisorsArgName}
    requires root[A.DivisorsArgName] == A.Section(None, TestChildren)
    requires !IsHelpRequest(args)
    ensures Outcome(root, args) == Printed(Join(", ", TestDivisorGame(100, false)))
  {
    TestDivisorsTreeLoads(root);
    TestDivisorGameLines(100, false);
  }

  /** The arguments "rounds=100 matchByContains=true" and the three test divisors load to 100
      rounds of the test divisors with contains matching: the lower-case "true" is accepted. */
  lemma ContainsMatchingTreeLoads(root: A.ConfigRoot)
    requires root.Keys == {A.RoundsArgName, A.MatchByContainsArgName, A.DivisorsArgName}
    requires root[A.RoundsArgName] == A.Section(Some("100"), [])
    requires root[A.MatchByContainsArgName] == A.Section(Some("true"), [])
    requires root[A.DivisorsArgName] == A.Section(None, TestChildren)
    ensures A.LoadedConfig(root) == Success(AppConfig(100, TestDivisors, true))
  {
    ContainsMatchingKeysKnown(root);
    HundredRounds(root);
    LowerCaseTrue(root);
    TestDivisorsSection(root);
    A.LoadedOfParts(root, Some(100), Some(TestDivisors), Some(true));
  }

  lemma ContainsMatchingKeysKnown(root: A.ConfigRoot)
    requires root.Keys == {A.RoundsArgName, A.MatchByContainsArgName, A.DivisorsArgName}
    ensures !A.HasUnknownKey(root)
  {
  }

  /** A rounds value of "100" gives 100 rounds. */
  lemma HundredRounds(root: A.ConfigRoot)
    requires A.RoundsArgName in root && root[A.RoundsArgName] == A.Section(Some("100"), [])
    ensures A.ParseRoundsConfig(root) == Success(Some(100))
  {
    assert IntToDecimal(100) == "100";
    A.RoundsConfigOfDecimal(root, 100);
  }

  /** A matchByContains value of "true" turns contains matching on. */
  lemma LowerCaseTrue(root: A.ConfigRoot)
    requires A.MatchByContainsArgName in root && root[A.MatchByContainsArgName] == A.Section(Some("true"), [])
    ensures A.ParseMatchByContainsConfig(root) == Success(Some(true))
  {
    assert "" + "true" + "" == "true";
    LowerCaseBools();
    A.MatchByContainsOfAnyCase(root, "", "true", "", true);
  }

  /** That run prints the 100 lines of the test divisors with contains matching. */
  lemma ContainsMatchingRun(root: A.ConfigRoot, args: seq<string>)
    requires root.Keys == {A.RoundsArgName, A.MatchByContainsArgName, A.DivisorsArgName}
    requires root[A.RoundsArgName] == A.Section(Some("100"), [])
    requires root[A.MatchByContainsArgName] == A.Section(Some("true"), [])
    requires root[A.DivisorsArgName] == A.Section(None, TestChildren)
    requires !IsHelpRequest(args)
    ensures Outcome(root, args) == Printed(Join(", ", TestDivisorGame(100, true)))
  {
    ContainsMatchingTreeLoads(root);
    TestDivisorGameLines(100, true);
  }

  /** With the single test divisor 4, a round prints "Test4" when 4 divides it and its number otherwise. */
  lemma SingleTestDivisorRound(round: int)
    ensures RoundText([Entry(4, "Test4")], round, false) == if round % 4 == 0 then "Test4" else IntToDecimal(round)
  {
    var d: Dictionary := [Entry(4, "Test4")];
    var asc: Dictionary := if round % 4 == 0 then d else [];
    assert forall e :: e in asc <==> e in d && Matches(e.key, round, false);
    RoundTextAscending(d, round, false, asc);
    assert Values(d) == ["Test4"];
  }

  /** The tree of "divisors:4=Test4" loads to 100 rounds of that one divisor. */
  lemma SingleTestDivisorTreeLoads(root: A.ConfigRoot)
    requires root == map[A.DivisorsArgName := A.Section(None, [A.Child("4", Some("Test4"))])]
    ensures A.LoadedConfig(root) == Success(AppConfig(100, [Entry(4, "Test4")], false))
  {
    assert root.Keys == {A.DivisorsArgName};
    DivisorsKeyKnown(root);
    SingleTestDivisorSection(root);
    A.LoadedOfParts(root, None, Some([Entry(4, "Test4")]), None);
  }

  lemma DivisorsKeyKnown(root: A.ConfigRoot)
    requires root.Keys == {A.DivisorsArgName}
    ensures !A.HasUnknownKey(root)
    ensures A.ParseRoundsConfig(root) == Success(None) && A.ParseMatchByContainsConfig(root) == Success(None)
  {
  }

  /** A divisors section holding the one child "4" = "Test4" loads to that divisor. */
  lemma SingleTestDivisorSection(root: A.ConfigRoot)
    requires A.DivisorsArgName in root && root[A.DivisorsArgName] == A.Section(None, [A.Child("4", Some("Test4"))])
    ensures A.DivisorConfig(root) == Success(Some([Entry(4, "Test4")]))
  {
    var children := root[A.DivisorsArgName].children;
    TestChildFourValid();
    assert A.ValidateDivisorChild(children[0]) == Success(Entry(4, "Test4"));
    A.DivisorConfigLoadsChildren(root);
    assert ParsedAll(children, A.ValidateDivisorChild) == [Entry(4, "Test4")];
  }


  /** Round 40 is divisible by 4 and 10, and the texts come out in ascending divisor order. */
  lemma RoundFortyTestDivisors()
    ensures TestDivisorText(40, false) == "Test4 Test10"
  {
    assert Matches(4, 40, false) && Matches(10, 40, false) && !Matches(19, 40, false);
    var hits: seq<string> := ["Test4"] + ["Test10"] + [];
    assert hits == ["Test4", "Test10"] && hits[1..] == ["Test10"];
    assert Join(" ", hits) == "Test4" + " " + "Test10";
  }

  /** Round 14 is not divisible by any test divisor, but "14" contains "4". */
  lemma RoundFourteenByContains()
    ensures TestDivisorText(14, false) == "14"
    ensures TestDivisorText(14, true) == "Test4"
  {
    SmallDecimals();
    assert "14"[1..][..1] == "4";
    assert Contains("14", "4");
    assert !Contains("14", "10") && !Contains("14", "19");
  }

  /** With contains matching, rounds 41 to 49 all print "Test4": their text starts with '4'. */
  lemma FortiesByContains(round: int)
    requires 41 <= round <= 49
    ensures TestDivisorText(round, true) == "Test4"
  {
    SmallDecimals();
    var s := IntToDecimal(round);
    assert s == NatToDecimal(4) + [DigitChar(round % 10)];
    assert s[..1] == "4";
    assert Contains(s, "4");
    assert s[..2] != "10" && s[..2] != "19";
    assert !Contains(s[1..], "10") && !Contains(s[1..], "19");
    assert round % 10 != 0 && round % 19 != 0;
    assert !Matches(10, round, true) && !Matches(19, round, true);
  }

  /** The configuration-tree provider rejects "not a bool" for matchByContains. */
  lemma MatchByContainsNotABool(root: A.ConfigRoot)
    requires A.MatchByContainsArgName in root && root[A.MatchByContainsArgName].value == Some("not a bool")
    ensures A.ParseMatchByContainsConfig(root) == Failure(ValidationError(A.MatchByContainsNotBoolMessage))
  {
    TryParseBoolRejectsFirst("not a bool");
  }

  /** The command-line provider rejects a rounds argument that is not a number as malformed. */
  lemma RoundsNotANumberMalformed()
    ensures C.ConfigFromArgs(["rounds=not a number", "divisor=3=Fizz"]) == Failure(LoadingError(C.RoundsMalformedMessage))
  {
    var args := ["rounds=not a number", "divisor=3=Fizz"];
    assert !C.IsUnknownArgument(args[0]) && !C.IsUnknownArgument(args[1]);
    assert args[1][0] != C.RoundsPrefix[0];
    C.RoundsArgMalformed(args, 0, 7);
  }

  /** The command-line provider keeps an empty divisor text. */
  lemma EmptyDivisorTextKept()
    ensures C.ParseDivisorArg("divisor=5=") == Success(Entry(5, ""))
  {
    DivisorTextKept("divisor=5=", "");
  }

  /** The command-line provider keeps a divisor text holding '='. */
  lemma DivisorTextWithEqualsKept()
    ensures C.ParseDivisorArg("divisor=5=Buzz=Zzub") == Success(Entry(5, "Buzz=Zzub"))
  {
    var text := "Buzz=Zzub";
    assert forall i :: 0 <= i < |text| ==> text[i] != '\n';
    DivisorTextKept("divisor=5=Buzz=Zzub", text);
  }

  lemma DivisorTextKept(arg: string, text: string)
    requires forall i :: 0 <= i < |text| ==> text[i] != '\n'
    requires arg == C.DivisorPrefix + "5" + "=" + text
    ensures C.ParseDivisorArg(arg) == Success(Entry(5, text))
  {
    assert DigitsValue("5") == 5;
    C.DivisorArgOfDigits("5", text);
  }

  /** "divisors=Fizz" gives a divisors section with a value and no children, which is malformed. */
  lemma DivisorsWithoutIndexRejected()
    ensures A.LoadedConfig(map[A.DivisorsArgName := A.Section(Some("Fizz"), [])])
            == Failure(ValidationError(A.DivisorsMalformedMessage))
  {
    var root := map[A.DivisorsArgName := A.Section(Some("Fizz"), [])];
    assert !A.HasUnknownKey(root);
    A.DivisorsWithoutChildren(root);
  }

  /** "divisors:not a number=Fizz" is rejected: the child's key is not an integer. */
  lemma DivisorKeyNotANumberRejected(root: A.ConfigRoot)
    requires root == map[A.DivisorsArgName := A.Section(None, [A.Child("not a number", Some("Fizz"))])]
    ensures A.LoadedConfig(root) == Failure(ValidationError(A.DivisorKeyNotIntegerMessage))
  {
    var children := root[A.DivisorsArgName].children;
    assert !A.HasUnknownKey(root);
    A.DivisorKeyNotANumber(children[0], 0);
    AddAllStopAt([], children, A.ValidateDivisorChild, 0);
    assert children[0..] == children;
  }

  /** The configuration-tree provider rejects the same empty text. */
  lemma EmptyDivisorTextRejected()
    ensures A.ValidateDivisorChild(A.Child("5", Some(""))) == Failure(ValidationError(A.DivisorTextMissingMessage))
  {
    A.DivisorChildOfDecimal(5, Some(""));
  }
}
