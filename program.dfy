/** `Program.Main`: loads the configuration, answers a lone "help" argument, and otherwise
    plays the rounds, each printed as the texts of its matching divisors in ascending divisor
    order or, when none matches, as the round number. */
module Program {
  import opened Wrappers
  import opened Text
  import opened Framework
  import opened Config
  import AppConfigProvider

  /** A `%` by a zero divisor throws, so every key the game uses must be non-zero. */
  predicate NonZeroKeys(d: Dictionary) {
    forall e | e in d :: e.key != 0
  }

  /** The `Where` condition: the key divides the round, or contains matching is on and the
      key's decimal text occurs in the round's. Whether a remainder is zero does not depend on
      the sign convention of `%`, so Dafny's operator stands for the source's. */
  predicate Matches(key: int, round: int, matchByContains: bool)
    requires key != 0
  {
    round % key == 0 || (matchByContains && Contains(IntToDecimal(round), IntToDecimal(key)))
  }

  /** `divisors.Where(...)`: the matching entries in enumeration order. */
  function MatchingEntries(d: Dictionary, round: int, matchByContains: bool): (r: Dictionary)
    requires NonZeroKeys(d)
    ensures forall e :: e in r <==> e in d && Matches(e.key, round, matchByContains)
    ensures DistinctKeys(d) ==> DistinctKeys(r)
  {
    if d == [] then []
    else
      var rest := MatchingEntries(d[1..], round, matchByContains);
      if Matches(d[0].key, round, matchByContains) then
        if DistinctKeys(d) then
          DistinctTail(d);
          DistinctCons(d[0], rest);
          [d[0]] + rest
        else [d[0]] + rest
      else
        if DistinctKeys(d) then DistinctTail(d); rest else rest
  }

  lemma DistinctTail(d: Dictionary)
    requires d != [] && DistinctKeys(d)
    ensures DistinctKeys(d[1..]) && d[0].key !in KeysOf(d[1..])
  {
  }

  lemma DistinctCons(x: Entry, rest: Dictionary)
    requires DistinctKeys(rest) && x.key !in KeysOf(rest)
    ensures DistinctKeys([x] + rest)
  {
    var d := [x] + rest;
    forall i, j | 0 <= i < j < |d| ensures d[i].key != d[j].key {
      assert d[j] == rest[j - 1];
      if i == 0 {
        assert d[j] in rest;
      } else {
        assert d[i] == rest[i - 1];
      }
    }
  }

  predicate SortedByKey(d: Dictionary) {
    forall i, j :: 0 <= i < j < |d| ==> d[i].key <= d[j].key
  }

  predicate StrictlyAscending(d: Dictionary) {
    forall i, j :: 0 <= i < j < |d| ==> d[i].key < d[j].key
  }

  /** Inserts `e` in front of the first entry whose key is not smaller, so that when `e` came
      first in the input it stays ahead of equal keys; builds the stable `OrderBy`. */
  function InsertByKey(e: Entry, sorted: Dictionary): (r: Dictionary)
    ensures multiset(r) == multiset(sorted) + multiset{e}
  {
    if sorted == [] || e.key <= sorted[0].key then [e] + sorted
    else
      assert sorted == [sorted[0]] + sorted[1..];
      [sorted[0]] + InsertByKey(e, sorted[1..])
  }

  /** `.OrderBy(d => d.Key)`: a stable insertion sort by key. */
  function OrderByKey(d: Dictionary): (r: Dictionary)
    ensures multiset(r) == multiset(d)
  {
    if d == [] then []
    else
      assert d == [d[0]] + d[1..];
      InsertByKey(d[0], OrderByKey(d[1..]))
  }

  /** An entry is in `d` exactly when it is in `multiset(d)`. */
  lemma InMultiset(d: Dictionary, x: Entry)
    ensures x in d <==> x in multiset(d)
  {
  }

  /** Every entry after the first of `sorted` ranks at least as high as `sorted[0]`; with
      strictly ascending keys, higher. */
  lemma HeadBelowTail(sorted: Dictionary, x: Entry)
    requires sorted != [] && SortedByKey(sorted) && x in sorted[1..]
    ensures sorted[0].key <= x.key
    ensures StrictlyAscending(sorted) ==> sorted[0].key < x.key
  {
    var k :| 0 <= k < |sorted[1..]| && sorted[1..][k] == x;
    assert sorted[k + 1] == x;
  }

  /** Inserting keeps the order sorted, and strictly ascending when the key is new. */
  lemma {:induction false} InsertSorted(e: Entry, sorted: Dictionary)
    requires SortedByKey(sorted)
    ensures SortedByKey(InsertByKey(e, sorted))
    ensures StrictlyAscending(sorted) && e.key !in KeysOf(sorted) ==> StrictlyAscending(InsertByKey(e, sorted))
    decreases |sorted|
  {
    if sorted == [] || e.key <= sorted[0].key {
      InsertInFront(e, sorted);
    } else {
      InsertSorted(e, sorted[1..]);
      InsertBehind(e, sorted);
    }
  }

  lemma InsertInFront(e: Entry, sorted: Dictionary)
    requires SortedByKey(sorted) && (sorted == [] || e.key <= sorted[0].key)
    ensures SortedByKey(InsertByKey(e, sorted))
    ensures StrictlyAscending(sorted) && e.key !in KeysOf(sorted) ==> StrictlyAscending(InsertByKey(e, sorted))
  {
    var r := InsertByKey(e, sorted);
    assert forall j | 1 <= j < |r| :: r[j] == sorted[j - 1];
    if sorted != [] {
      assert sorted[0] in sorted;
      forall j | 1 <= j < |sorted| ensures sorted[0].key <= sorted[j].key { }
    }
  }

  /** The step past a smaller head: the head stays in front of the sorted insertion into the tail. */
  lemma InsertBehind(e: Entry, sorted: Dictionary)
    requires SortedByKey(sorted) && sorted != [] && sorted[0].key < e.key
    requires SortedByKey(InsertByKey(e, sorted[1..]))
    requires StrictlyAscending(sorted[1..]) && e.key !in KeysOf(sorted[1..]) ==> StrictlyAscending(InsertByKey(e, sorted[1..]))
    ensures SortedByKey(InsertByKey(e, sorted))
    ensures StrictlyAscending(sorted) && e.key !in KeysOf(sorted) ==> StrictlyAscending(InsertByKey(e, sorted))
  {
    var r := InsertByKey(e, sorted);
    var tail := InsertByKey(e, sorted[1..]);
    assert r == [sorted[0]] + tail;
    assert forall j | 1 <= j < |r| :: r[j] == tail[j - 1];
    forall j | 0 <= j < |tail|
      ensures sorted[0].key <= tail[j].key
      ensures StrictlyAscending(sorted) ==> sorted[0].key < tail[j].key
    {
      BehindHead(e, sorted, tail[j]);
    }
    if StrictlyAscending(sorted) && e.key !in KeysOf(sorted) {
      assert KeysOf(sorted[1..]) <= KeysOf(sorted) by {
        forall x | x in sorted[1..] ensures x in sorted { }
      }
    }
  }

  /** Every entry of the insertion into the tail ranks above the head. */
  lemma BehindHead(e: Entry, sorted: Dictionary, x: Entry)
    requires SortedByKey(sorted) && sorted != [] && sorted[0].key < e.key
    requires x in InsertByKey(e, sorted[1..])
    ensures sorted[0].key <= x.key
    ensures StrictlyAscending(sorted) ==> sorted[0].key < x.key
  {
    InMultiset(InsertByKey(e, sorted[1..]), x);
    if x != e {
      InMultiset(sorted[1..], x);
      HeadBelowTail(sorted, x);
    }
  }

  /** The sort orders by key, strictly when the keys are distinct. */
  lemma {:induction false} OrderSorted(d: Dictionary)
    ensures SortedByKey(OrderByKey(d))
    ensures DistinctKeys(d) ==> StrictlyAscending(OrderByKey(d))
  {
    if d != [] {
      var rest := OrderByKey(d[1..]);
      OrderSorted(d[1..]);
      if DistinctKeys(d) {
        DistinctTail(d);
        assert KeysOf(rest) == KeysOf(d[1..]) by {
          forall x ensures x in rest <==> x in d[1..] {
            InMultiset(rest, x);
            InMultiset(d[1..], x);
          }
        }
      }
      InsertSorted(d[0], rest);
    }
  }

  /** `.Select(d => d.Value)`. */
  function Values(d: Dictionary): (r: seq<string>)
    ensures |r| == |d| && forall i :: 0 <= i < |d| ==> r[i] == d[i].value
  {
    if d == [] then [] else [d[0].value] + Values(d[1..])
  }

  /** The line one round contributes: the matched texts joined by spaces, or the round number. */
  function RoundText(d: Dictionary, round: int, matchByContains: bool): string
    requires NonZeroKeys(d)
  {
    var divisorMatchedTerms := Values(OrderByKey(MatchingEntries(d, round, matchByContains)));
    if |divisorMatchedTerms| > 0 then Join(" ", divisorMatchedTerms) else IntToDecimal(round)
  }

  /** Two strictly ascending listings of the same entries are the same listing. */
  lemma {:induction false} AscendingUnique(a: Dictionary, b: Dictionary)
    requires StrictlyAscending(a) && StrictlyAscending(b)
    requires forall x :: x in a <==> x in b
    ensures a == b
    decreases |a|
  {
    assert a != [] ==> a[0] in b;
    assert b != [] ==> b[0] in a;
    if a != [] {
      SameHead(a, b);
      forall x ensures x in a[1..] <==> x in b[1..] {
        SameTail(a, b, x);
        SameTail(b, a, x);
      }
      AscendingUnique(a[1..], b[1..]);
      assert a == [a[0]] + a[1..] && b == [b[0]] + b[1..];
    }
  }

  /** The smallest entry of both listings comes first in each. */
  lemma SameHead(a: Dictionary, b: Dictionary)
    requires StrictlyAscending(a) && StrictlyAscending(b) && a != [] && b != []
    requires a[0] in b && b[0] in a
    ensures a[0] == b[0]
  {
    var i :| 0 <= i < |b| && b[i] == a[0];
    var j :| 0 <= j < |a| && a[j] == b[0];
    assert b[0].key <= a[0].key && a[0].key <= b[0].key;
    assert i == 0;
  }

  /** An entry behind the shared head of one listing is behind it in the other. */
  lemma SameTail(a: Dictionary, b: Dictionary, x: Entry)
    requires StrictlyAscending(a) && StrictlyAscending(b) && a != [] && b != [] && a[0] == b[0]
    requires forall y :: y in a <==> y in b
    ensures x in a[1..] ==> x in b[1..]
  {
    if x in a[1..] {
      var k :| 0 <= k < |a[1..]| && a[1..][k] == x;
      assert a[k + 1] == x && a[0].key < x.key;
      assert x in a;
      var m :| 0 <= m < |b| && b[m] == x;
      assert m != 0;
      assert b[1..][m - 1] == x;
    }
  }

  /** What a round prints, independently of how the dictionary enumerates: for any listing of
      the matching entries in strictly ascending key order, their texts joined by spaces, or the
      round number when nothing matches. */
  lemma RoundTextAscending(d: Dictionary, round: int, matchByContains: bool, asc: Dictionary)
    requires NonZeroKeys(d) && DistinctKeys(d)
    requires StrictlyAscending(asc)
    requires forall e :: e in asc <==> e in d && Matches(e.key, round, matchByContains)
    ensures RoundText(d, round, matchByContains)
            == if asc == [] then IntToDecimal(round) else Join(" ", Values(asc))
  {
    var matching := MatchingEntries(d, round, matchByContains);
    var ordered := OrderByKey(matching);
    OrderSorted(matching);
    forall e ensures e in ordered <==> e in asc {
      InMultiset(ordered, e);
      InMultiset(matching, e);
    }
    AscendingUnique(ordered, asc);
  }

  /** Two dictionaries holding the same pairs print the same round, whatever order they
      enumerate in. */
  lemma RoundTextIgnoresEnumerationOrder(d1: Dictionary, d2: Dictionary, round: int, matchByContains: bool)
    requires NonZeroKeys(d1) && DistinctKeys(d1) && NonZeroKeys(d2) && DistinctKeys(d2)
    requires ToMap(d1) == ToMap(d2)
    ensures RoundText(d1, round, matchByContains) == RoundText(d2, round, matchByContains)
  {
    var matching := MatchingEntries(d1, round, matchByContains);
    var asc := OrderByKey(matching);
    OrderSorted(matching);
    SameEntries(d1, d2);
    forall e ensures e in asc <==> e in d2 && Matches(e.key, round, matchByContains) {
      InMultiset(asc, e);
      InMultiset(matching, e);
    }
    RoundTextAscending(d2, round, matchByContains, asc);
  }

  /** Dictionaries with distinct keys and the same map view hold the same entries. */
  lemma SameEntries(d1: Dictionary, d2: Dictionary)
    requires DistinctKeys(d1) && DistinctKeys(d2) && ToMap(d1) == ToMap(d2)
    ensures forall e :: e in d1 <==> e in d2
  {
    forall e ensures e in d1 <==> e in d2 {
      EntryInToMap(d1, e);
      EntryInToMap(d2, e);
    }
  }

  /** The printed round texts of a whole game, one per round from 1 to `rounds`. */
  function GameLines(config: AppConfig): (lines: seq<string>)
    requires NonZeroKeys(config.divisors)
    ensures |lines| == if config.rounds < 0 then 0 else config.rounds
  {
    var n := if config.rounds < 0 then 0 else config.rounds;
    seq(n, i requires 0 <= i < n => RoundText(config.divisors, i + 1, config.matchByContains))
  }

  /** The `for` loop over the rounds, adding each round's text to `roundsOutput`. */
  method EvaluateRounds(config: AppConfig) returns (roundsOutput: seq<string>)
    requires NonZeroKeys(config.divisors)
    ensures |roundsOutput| == if config.rounds < 0 then 0 else config.rounds
    ensures forall i :: 0 <= i < |roundsOutput| ==>
              roundsOutput[i] == RoundText(config.divisors, i + 1, config.matchByContains)
  {
    roundsOutput := [];
    var round := 1;
    while round <= config.rounds
      invariant 1 <= round <= (if config.rounds < 0 then 0 else config.rounds) + 1
      invariant |roundsOutput| == round - 1
      invariant forall i :: 0 <= i < |roundsOutput| ==>
                  roundsOutput[i] == RoundText(config.divisors, i + 1, config.matchByContains)
      decreases config.rounds - round
    {
      var divisorMatchedTerms := Values(OrderByKey(MatchingEntries(config.divisors, round, config.matchByContains)));
      roundsOutput := roundsOutput + [if |divisorMatchedTerms| > 0 then Join(" ", divisorMatchedTerms)
                                      else IntToDecimal(round)];
      round := round + 1;
    }
  }

  /** The lines the loop produces are the game's lines. */
  lemma EvaluatedGame(config: AppConfig, lines: seq<string>)
    requires NonZeroKeys(config.divisors)
    requires |lines| == if config.rounds < 0 then 0 else config.rounds
    requires forall i :: 0 <= i < |lines| ==> lines[i] == RoundText(config.divisors, i + 1, config.matchByContains)
    ensures lines == GameLines(config)
  {
  }

  /** A help request is exactly one argument, "help". */
  predicate IsHelpRequest(args: seq<string>) {
    |args| == 1 && args[0] == AppConfigProvider.HelpArgName
  }

  /** How a run ends: the help text, one printed line of round texts, or an exit with a code
      and the error message written to standard error. */
  datatype RunOutcome = Help | Printed(line: string) | Exited(code: int, message: string)

  /** The outcome of `Main` for the arguments and the configuration tree built from them. */
  function Outcome(root: AppConfigProvider.ConfigRoot, args: seq<string>): (o: RunOutcome)
    ensures o.Exited? <==> AppConfigProvider.LoadedConfig(root).Failure?
    ensures o.Exited? ==> o.code == 1 && o.message == AppConfigProvider.LoadedConfig(root).error.Message()
    ensures o == Help <==> AppConfigProvider.LoadedConfig(root).Success? && IsHelpRequest(args)
  {
    match AppConfigProvider.LoadedConfig(root)
    case Failure(e) => Exited(1, e.Message())
    case Success(config) =>
      if IsHelpRequest(args) then Help
      else
        AppConfigProvider.LoadedConfigValid(root);
        Printed(Join(", ", GameLines(config)))
  }

  method Run(root: AppConfigProvider.ConfigRoot, args: seq<string>) returns (o: RunOutcome)
    ensures o == Outcome(root, args)
  {
    var loaded := AppConfigProvider.Load(root);
    if loaded.Failure? {
      return Exited(1, loaded.error.Message());
    }
    var config := loaded.value;
    if |args| == 1 && args[0] == AppConfigProvider.HelpArgName {
      return Help;
    }
    AppConfigProvider.LoadedConfigValid(root);
    var roundsOutput := EvaluateRounds(config);
    EvaluatedGame(config, roundsOutput);
    return Printed(Join(", ", roundsOutput));
  }
}
