/** `CommandLineConfigProvider`: reads the configuration straight from the raw argument list,
    accepting `rounds=<digits>` once and any number of `divisor=<digits>=<text>`, and raising
    `AppConfigLoadingException` otherwise. */
module CommandLineConfigProvider {
  import opened Wrappers
  import opened Text
  import opened Framework
  import opened Config

  const RoundsArgName := "rounds"
  const DivisorsArgName := "divisor"
  const RoundsPrefix := RoundsArgName + "="
  const DivisorPrefix := DivisorsArgName + "="

  const UnknownArgumentsMessage := "Unknown arguments given"
  const DuplicateRoundsMessage := "Duplicate rounds argument"
  const RoundsMalformedMessage := "Argument rounds is malformed"
  const RoundsNotNumberMessage := "Argument rounds is not a number"
  const RoundsNotPositiveMessage := "rounds argument must be greater than 0"
  const DivisorMalformedMessage := "Argument divisor is malformed"
  const DivisorKeyNotNumberMessage := "Key argument for divisor is not a number"
  const DivisorKeyNotPositiveMessage := "divisor key argument must be greater than 0"

  /** An argument that starts neither with "divisor=" nor with "rounds=". */
  predicate IsUnknownArgument(a: string) {
    !StartsWith(a, DivisorPrefix) && !StartsWith(a, RoundsPrefix)
  }

  predicate HasUnknownArguments(args: seq<string>) {
    exists i :: 0 <= i < |args| && IsUnknownArgument(args[i])
  }

  /** `args.Where(a => a.StartsWith(prefix))`: the arguments with that prefix, in their order. */
  function WithPrefix(args: seq<string>, prefix: string): (r: seq<string>)
    ensures |r| <= |args|
    ensures forall a :: a in r <==> a in args && StartsWith(a, prefix)
  {
    if args == [] then []
    else
      (if StartsWith(args[0], prefix) then [args[0]] else []) + WithPrefix(args[1..], prefix)
  }

  predicate NotLineFeed(c: char) {
    c != '\n'
  }

  /** Where the regular expression anchor `$` holds: at the end, or just before a final line feed. */
  predicate AtEndAnchor(s: string, i: nat) {
    i == |s| || (i == |s| - 1 && s[i] == '\n')
  }

  /** The `rounds` group of `^rounds=(?<rounds>[0-9]+)$` when the argument matches. */
  function MatchRoundsArg(arg: string): (r: Option<string>)
    ensures r.Some? ==> |r.value| > 0 && AllDigits(r.value)
  {
    if !StartsWith(arg, RoundsPrefix) then None
    else
      var rest := arg[|RoundsPrefix|..];
      var n := Span(rest, IsAsciiDigit);
      if n > 0 && AtEndAnchor(rest, n) then Some(rest[..n]) else None
  }

  /** The `key` and `text` groups of `^divisor=((?<key>[0-9]+)=(?<text>.*))$` when the argument
      matches; `.` does not match a line feed. */
  function MatchDivisorArg(arg: string): (r: Option<(string, string)>)
    ensures r.Some? ==> |r.value.0| > 0 && AllDigits(r.value.0)
    ensures r.Some? ==> forall i :: 0 <= i < |r.value.1| ==> r.value.1[i] != '\n'
  {
    if !StartsWith(arg, DivisorPrefix) then None
    else
      var rest := arg[|DivisorPrefix|..];
      var n := Span(rest, IsAsciiDigit);
      if n == 0 || n == |rest| || rest[n] != '=' then None
      else
        var tail := rest[n + 1..];
        var m := Span(tail, NotLineFeed);
        if AtEndAnchor(tail, m) then Some((rest[..n], tail[..m])) else None
  }

  /** `ParseRoundCountArgument`: absent gives null; a second rounds argument, a mismatch with
      the pattern, an overflow and a count below 1 each fail with their own message. */
  function ParseRoundCountArgument(args: seq<string>): (r: Result<Option<int>, ConfigError>)
    ensures r == Success(None) <==> forall i :: 0 <= i < |args| ==> !StartsWith(args[i], RoundsPrefix)
    ensures r.Success? && r.value.Some? ==> 1 <= r.value.value <= MaxInt32
    ensures r.Failure? ==> r.error.LoadingError?
  {
    var roundsArgs := WithPrefix(args, RoundsPrefix);
    assert forall i :: 0 <= i < |args| ==> (args[i] in roundsArgs <==> StartsWith(args[i], RoundsPrefix));
    if |roundsArgs| == 0 then Success(None)
    else
      assert roundsArgs[0] in roundsArgs;
      if |roundsArgs| > 1 then Failure(LoadingError(DuplicateRoundsMessage))
      else
        match MatchRoundsArg(roundsArgs[0])
        case None => Failure(LoadingError(RoundsMalformedMessage))
        case Some(digits) =>
          match TryParseInt32(Some(digits))
          case None => Failure(LoadingError(RoundsNotNumberMessage))
          case Some(rounds) =>
            if rounds < 1 then Failure(LoadingError(RoundsNotPositiveMessage)) else Success(Some(rounds))
  }

  /** The checks one divisor argument goes through, in the order of the loop body of
      `ParseDivisorArguments`. */
  function ParseDivisorArg(arg: string): (r: Result<Entry, ConfigError>)
    ensures r.Success? ==> 1 <= r.value.key <= MaxInt32
    ensures r.Failure? ==> r.error.LoadingError?
  {
    match MatchDivisorArg(arg)
    case None => Failure(LoadingError(DivisorMalformedMessage))
    case Some((key, text)) =>
      match TryParseInt32(Some(key))
      case None => Failure(LoadingError(DivisorKeyNotNumberMessage))
      case Some(divisor) =>
        if divisor < 1 then Failure(LoadingError(DivisorKeyNotPositiveMessage)) else Success(Entry(divisor, text))
  }

  /** What `ParseDivisorArguments` returns: null without divisor arguments, otherwise the
      dictionary they load into. */
  function DivisorArguments(args: seq<string>): (r: Result<Option<Dictionary>, ConfigError>)
    ensures r == Success(None) <==> forall i :: 0 <= i < |args| ==> !StartsWith(args[i], DivisorPrefix)
  {
    var divisorArgs := WithPrefix(args, DivisorPrefix);
    assert forall i :: 0 <= i < |args| ==> (args[i] in divisorArgs <==> StartsWith(args[i], DivisorPrefix));
    if |divisorArgs| == 0 then Success(None)
    else
      var divisors :- AddAll([], divisorArgs, ParseDivisorArg);
      Success(Some(divisors))
  }

  /** What `GetConfig()` returns or throws: unknown arguments first, then rounds, then divisors;
      this provider never sets matchByContains. */
  function ConfigFromArgs(args: seq<string>): Result<AppConfig, ConfigError> {
    if HasUnknownArguments(args) then Failure(LoadingError(UnknownArgumentsMessage))
    else
      var rounds :- ParseRoundCountArgument(args);
      var divisors :- DivisorArguments(args);
      Success(AppConfig(rounds.GetOr(DefaultRounds), divisors.GetOr(DefaultDivisors), DefaultMatchByContains))
  }

  class CommandLineConfigProvider {
    const commandLineArgs: seq<string>

    /** A null argument array counts as an empty one. */
    constructor(commandLineArgs: Option<seq<string>>)
      ensures this.commandLineArgs == commandLineArgs.GetOr([])
    {
      this.commandLineArgs := commandLineArgs.GetOr([]);
    }

    method GetConfig() returns (r: Result<AppConfig, ConfigError>)
      ensures r == ConfigFromArgs(commandLineArgs)
    {
      if exists i :: 0 <= i < |commandLineArgs| && IsUnknownArgument(commandLineArgs[i]) {
        return Failure(LoadingError(UnknownArgumentsMessage));
      }
      var rounds :- ParseRoundCountArgument(commandLineArgs);
      var divisors :- ParseDivisorArguments();
      return Success(AppConfig(rounds.GetOr(DefaultRounds), divisors.GetOr(DefaultDivisors), DefaultMatchByContains));
    }

    /** The `foreach` loop over the divisor arguments. */
    method ParseDivisorArguments() returns (r: Result<Option<Dictionary>, ConfigError>)
      ensures r == DivisorArguments(commandLineArgs)
    {
      var divisorArgs := WithPrefix(commandLineArgs, DivisorPrefix);
      if |divisorArgs| == 0 {
        return Success(None);
      }
      var returnDict: Dictionary := [];
      for i := 0 to |divisorArgs|
        invariant DistinctKeys(returnDict)
        invariant AddAll(returnDict, divisorArgs[i..], ParseDivisorArg) == AddAll([], divisorArgs, ParseDivisorArg)
      {
        var arg := divisorArgs[i];
        var match_ := MatchDivisorArg(arg);
        if match_.None? {
          AddAllStopAt(returnDict, divisorArgs, ParseDivisorArg, i);
          return Failure(LoadingError(DivisorMalformedMessage));
        }
        var (keyText, text) := match_.value;
        var key := TryParseInt32(Some(keyText));
        if key.None? {
          AddAllStopAt(returnDict, divisorArgs, ParseDivisorArg, i);
          return Failure(LoadingError(DivisorKeyNotNumberMessage));
        }
        if key.value < 1 {
          AddAllStopAt(returnDict, divisorArgs, ParseDivisorArg, i);
          return Failure(LoadingError(DivisorKeyNotPositiveMessage));
        }
        var added := Add(returnDict, Entry(key.value, text));
        if added.Failure? {
          AddAllStopAt(returnDict, divisorArgs, ParseDivisorArg, i);
          return Failure(added.error);
        }
        AddAllStepAt(returnDict, divisorArgs, ParseDivisorArg, i);
        returnDict := added.value;
      }
      assert divisorArgs[|divisorArgs|..] == [];
      return Success(Some(returnDict));
    }
  }

  /** The rounds pattern matches exactly "rounds=" followed by one or more digits and at most
      a final line feed, and captures the digits. */
  lemma MatchRoundsArgIff(arg: string, digits: string)
    ensures MatchRoundsArg(arg) == Some(digits) <==>
            |digits| > 0 && AllDigits(digits) && (arg == RoundsPrefix + digits || arg == RoundsPrefix + digits + "\n")
  {
    if |digits| > 0 && AllDigits(digits) && (arg == RoundsPrefix + digits || arg == RoundsPrefix + digits + "\n") {
      var rest := arg[|RoundsPrefix|..];
      assert StartsWith(arg, RoundsPrefix);
      assert rest[..|digits|] == digits;
      SpanIs(rest, IsAsciiDigit, |digits|);
    }
    if MatchRoundsArg(arg) == Some(digits) {
      var rest := arg[|RoundsPrefix|..];
      assert arg == RoundsPrefix + rest;
      if |rest| == |digits| {
        assert rest == digits;
      } else {
        assert rest == digits + "\n";
      }
    }
  }

  /** An argument of the divisor form: "divisor=", a key of one or more digits, "=", a text
      without line feeds, and at most a final line feed. */
  predicate IsDivisorForm(arg: string, key: string, text: string) {
    && |key| > 0 && AllDigits(key) && (forall i :: 0 <= i < |text| ==> text[i] != '\n')
    && (arg == DivisorPrefix + key + "=" + text || arg == DivisorPrefix + key + "=" + text + "\n")
  }

  /** The divisor pattern matches exactly the arguments of the divisor form, and captures
      their key and text. */
  lemma MatchDivisorArgIff(arg: string, key: string, text: string)
    ensures MatchDivisorArg(arg) == Some((key, text)) <==> IsDivisorForm(arg, key, text)
  {
    if IsDivisorForm(arg, key, text) {
      DivisorFormMatches(arg, key, text);
    }
    if MatchDivisorArg(arg) == Some((key, text)) {
      MatchIsDivisorForm(arg, key, text);
    }
  }

  lemma DivisorFormMatches(arg: string, key: string, text: string)
    requires IsDivisorForm(arg, key, text)
    ensures MatchDivisorArg(arg) == Some((key, text))
  {
    if arg == DivisorPrefix + key + "=" + text {
      DivisorTailMatches(arg, key, text, text);
    } else {
      DivisorTailMatches(arg, key, text, text + "\n");
    }
  }

  lemma DivisorTailMatches(arg: string, key: string, text: string, tail: string)
    requires |key| > 0 && AllDigits(key) && (forall i :: 0 <= i < |text| ==> text[i] != '\n')
    requires tail == text || tail == text + "\n"
    requires arg == DivisorPrefix + key + "=" + tail
    ensures MatchDivisorArg(arg) == Some((key, text))
  {
    var rest := key + "=" + tail;
    assert arg == DivisorPrefix + rest;
    PrefixRest(arg, DivisorPrefix, rest);
    KeyTextSpan(rest, key, tail);
    SpanIs(tail, NotLineFeed, |text|);
    assert tail[..|text|] == text;
  }

  /** An argument built as `prefix + rest` starts with the prefix, and `rest` follows it. */
  lemma PrefixRest(arg: string, prefix: string, rest: string)
    requires arg == prefix + rest
    ensures StartsWith(arg, prefix) && arg[|prefix|..] == rest
  {
    assert arg[..|prefix|] == prefix;
  }

  /** In `key + "=" + tail` the digit run is the key and the tail follows the '='. */
  lemma KeyTextSpan(rest: string, key: string, tail: string)
    requires |key| > 0 && AllDigits(key) && rest == key + "=" + tail
    ensures Span(rest, IsAsciiDigit) == |key| && |key| < |rest| && rest[|key|] == '='
    ensures rest[..|key|] == key && rest[|key| + 1..] == tail
  {
    SpanIs(rest, IsAsciiDigit, |key|);
  }

  lemma MatchIsDivisorForm(arg: string, key: string, text: string)
    requires MatchDivisorArg(arg) == Some((key, text))
    ensures IsDivisorForm(arg, key, text)
  {
    var tail := MatchedDivisorTail(arg, key, text);
    var p := DivisorPrefix + key + "=";
    if |tail| == |text| {
      assert tail == text;
    } else {
      assert tail == text + "\n";
      assert arg == p + text + "\n";
    }
  }

  /** A matched divisor argument is the prefix, the key, '=' and a tail that starts with the
      text and ends where the anchor holds. */
  lemma MatchedDivisorTail(arg: string, key: string, text: string) returns (tail: string)
    requires MatchDivisorArg(arg) == Some((key, text))
    ensures arg == DivisorPrefix + key + "=" + tail
    ensures AtEndAnchor(tail, |text|) && |text| <= |tail| && tail[..|text|] == text
  {
    var rest := arg[|DivisorPrefix|..];
    tail := rest[|key| + 1..];
    RestSplit(rest, |key|, tail);
    assert arg == DivisorPrefix + rest;
    assert DivisorPrefix + rest == DivisorPrefix + key + "=" + tail;
  }

  /** A string whose character at `n` is '=' is its first `n` characters, "=" and the rest. */
  lemma RestSplit(rest: string, n: nat, tail: string)
    requires n < |rest| && rest[n] == '=' && tail == rest[n + 1..]
    ensures rest == rest[..n] + "=" + tail
  {
  }

  /** Two arguments with the prefix both survive the filter, so it holds at least two. */
  lemma {:induction false} WithPrefixTwo(args: seq<string>, prefix: string, i: nat, j: nat)
    requires i < j < |args| && StartsWith(args[i], prefix) && StartsWith(args[j], prefix)
    ensures |WithPrefix(args, prefix)| >= 2
  {
    if i == 0 {
      assert args[j] == args[1..][j - 1];
      assert args[j] in WithPrefix(args[1..], prefix);
    } else {
      assert args[i] == args[1..][i - 1] && args[j] == args[1..][j - 1];
      WithPrefixTwo(args[1..], prefix, i - 1, j - 1);
    }
  }

  /** When only the argument at `i` has the prefix, the filter holds exactly that argument. */
  lemma {:induction false} WithPrefixOne(args: seq<string>, prefix: string, i: nat)
    requires i < |args| && StartsWith(args[i], prefix)
    requires forall k :: 0 <= k < |args| && k != i ==> !StartsWith(args[k], prefix)
    ensures WithPrefix(args, prefix) == [args[i]]
  {
    if i == 0 {
      forall k | 0 <= k < |args[1..]| ensures !StartsWith(args[1..][k], prefix) {
        assert args[1..][k] == args[k + 1];
      }
      WithPrefixNone(args[1..], prefix);
    } else {
      forall k | 0 <= k < |args[1..]| && k != i - 1 ensures !StartsWith(args[1..][k], prefix) {
        assert args[1..][k] == args[k + 1];
      }
      assert args[1..][i - 1] == args[i];
      WithPrefixOne(args[1..], prefix, i - 1);
    }
  }

  /** Without an argument that has the prefix, the filter is empty. */
  lemma {:induction false} WithPrefixNone(args: seq<string>, prefix: string)
    requires forall k :: 0 <= k < |args| ==> !StartsWith(args[k], prefix)
    ensures WithPrefix(args, prefix) == []
  {
    if args != [] {
      forall k | 0 <= k < |args[1..]| ensures !StartsWith(args[1..][k], prefix) {
        assert args[1..][k] == args[k + 1];
      }
      WithPrefixNone(args[1..], prefix);
    }
  }

  /** `Span` is the one length whose prefix satisfies `p` and which `p` does not extend. */
  lemma SpanIs(s: string, p: char -> bool, n: nat)
    requires n <= |s| && (forall i :: 0 <= i < n ==> p(s[i])) && (n < |s| ==> !p(s[n]))
    ensures Span(s, p) == n
  {
  }

  /** What every configuration this provider accepts satisfies; unlike the configuration-tree
      provider it lets an empty divisor text through. */
  predicate ValidCommandLineConfig(c: AppConfig) {
    && 1 <= c.rounds <= MaxInt32
    && |c.divisors| > 0
    && DistinctKeys(c.divisors)
    && (forall e | e in c.divisors :: 1 <= e.key <= MaxInt32)
    && !c.matchByContains
  }

  /** An argument starting with neither prefix is rejected whatever else is given. */
  lemma UnknownArgumentWins(args: seq<string>, i: nat)
    requires i < |args| && IsUnknownArgument(args[i])
    ensures ConfigFromArgs(args) == Failure(LoadingError(UnknownArgumentsMessage))
  {
  }

  /** Two rounds arguments are rejected, even when both are well formed. */
  lemma DuplicateRoundsRejected(args: seq<string>, i: nat, j: nat)
    requires i < j < |args| && StartsWith(args[i], RoundsPrefix) && StartsWith(args[j], RoundsPrefix)
    ensures ParseRoundCountArgument(args) == Failure(LoadingError(DuplicateRoundsMessage))
  {
    WithPrefixTwo(args, RoundsPrefix, i, j);
  }

  /** A single `rounds=<n>` argument in decimal gives `n`; zero is rejected as below 1 and a
      value beyond Int32 as not a number. */
  lemma RoundsArgOfDecimal(args: seq<string>, i: nat, n: nat)
    requires i < |args| && args[i] == RoundsPrefix + NatToDecimal(n)
    requires forall k :: 0 <= k < |args| && k != i ==> !StartsWith(args[k], RoundsPrefix)
    ensures ParseRoundCountArgument(args)
            == if n == 0 then Failure(LoadingError(RoundsNotPositiveMessage))
               else if n <= MaxInt32 then Success(Some(n))
               else Failure(LoadingError(RoundsNotNumberMessage))
  {
    assert StartsWith(args[i], RoundsPrefix);
    WithPrefixOne(args, RoundsPrefix, i);
    MatchRoundsArgIff(args[i], NatToDecimal(n));
    DecimalRoundTrip(n);
    TryParseInt32OfDigits(NatToDecimal(n));
  }

  /** Whatever follows "rounds=" must be digits: any other character, except a final line
      feed, makes the single rounds argument malformed. */
  lemma RoundsArgMalformed(args: seq<string>, i: nat, k: nat)
    requires i < |args| && StartsWith(args[i], RoundsPrefix)
    requires forall j :: 0 <= j < |args| && j != i ==> !StartsWith(args[j], RoundsPrefix)
    requires |RoundsPrefix| <= k < |args[i]| && !IsAsciiDigit(args[i][k]) && !(k == |args[i]| - 1 && args[i][k] == '\n')
    ensures ParseRoundCountArgument(args) == Failure(LoadingError(RoundsMalformedMessage))
  {
    WithPrefixOne(args, RoundsPrefix, i);
    RoundsArgNoMatch(args[i], k);
  }

  /** A character after the prefix that is neither a digit nor a final line feed defeats the pattern. */
  lemma RoundsArgNoMatch(arg: string, k: nat)
    requires StartsWith(arg, RoundsPrefix)
    requires |RoundsPrefix| <= k < |arg| && !IsAsciiDigit(arg[k]) && !(k == |arg| - 1 && arg[k] == '\n')
    ensures MatchRoundsArg(arg) == None
  {
    var rest := arg[|RoundsPrefix|..];
    var j := k - |RoundsPrefix|;
    assert rest[j] == arg[k];
    var n := Span(rest, IsAsciiDigit);
    assert n <= j;
  }

  /** A divisor argument with a decimal key and a text without line feeds gives that entry;
      a zero key is rejected as below 1 and one beyond Int32 as not a number. */
  lemma DivisorArgOfDecimal(n: nat, text: string)
    requires forall i :: 0 <= i < |text| ==> text[i] != '\n'
    ensures ParseDivisorArg(DivisorPrefix + NatToDecimal(n) + "=" + text)
            == if n == 0 then Failure(LoadingError(DivisorKeyNotPositiveMessage))
               else if n <= MaxInt32 then Success(Entry(n, text))
               else Failure(LoadingError(DivisorKeyNotNumberMessage))
  {
    var key := NatToDecimal(n);
    DivisorFormMatches(DivisorPrefix + key + "=" + text, key, text);
    DecimalRoundTrip(n);
    TryParseInt32OfDigits(key);
  }

  /** A divisor argument whose key is any run of digits, leading zeros included, gives the
      value of those digits when it is a positive Int32. */
  lemma DivisorArgOfDigits(key: string, text: string)
    requires |key| > 0 && AllDigits(key) && 1 <= DigitsValue(key) <= MaxInt32
    requires forall i :: 0 <= i < |text| ==> text[i] != '\n'
    ensures ParseDivisorArg(DivisorPrefix + key + "=" + text) == Success(Entry(DigitsValue(key), text))
  {
    DivisorFormMatches(DivisorPrefix + key + "=" + text, key, text);
    TryParseInt32OfDigits(key);
  }

  /** An argument with the divisor prefix is known and is not a rounds argument. */
  lemma DivisorArgIsKnown(arg: string, key: string, text: string)
    requires arg == DivisorPrefix + key + "=" + text
    ensures StartsWith(arg, DivisorPrefix) && !StartsWith(arg, RoundsPrefix) && !IsUnknownArgument(arg)
  {
    var rest := key + "=" + text;
    assert arg == DivisorPrefix + rest;
    PrefixRest(arg, DivisorPrefix, rest);
    assert arg[0] == 'd' && RoundsPrefix[0] == 'r';
  }

  /** "divisor=3=a" and "divisor=03=b" name the same key, and the second `Add` fails with the
      dictionary's own error rather than `AppConfigLoadingException`. */
  lemma RepeatedDivisorArguments(args: seq<string>)
    requires args == [DivisorPrefix + "3" + "=" + "a", DivisorPrefix + "03" + "=" + "b"]
    ensures ConfigFromArgs(args) == Failure(DuplicateKey(3))
    ensures !ConfigFromArgs(args).error.LoadingError?
  {
    DivisorArgIsKnown(args[0], "3", "a");
    DivisorArgIsKnown(args[1], "03", "b");
    WithPrefixNone(args, RoundsPrefix);
    assert WithPrefix(args, DivisorPrefix) == args;
    RepeatedDivisorLoad(args);
  }

  lemma RepeatedDivisorLoad(args: seq<string>)
    requires args == [DivisorPrefix + "3" + "=" + "a", DivisorPrefix + "03" + "=" + "b"]
    ensures AddAll([], args, ParseDivisorArg) == Failure(DuplicateKey(3))
  {
    ThreeArg(args[0]);
    ZeroThreeArg(args[1]);
    AddAllRepeatedPair(args, ParseDivisorArg);
  }

  lemma ThreeArg(arg: string)
    requires arg == DivisorPrefix + "3" + "=" + "a"
    ensures ParseDivisorArg(arg) == Success(Entry(3, "a"))
  {
    assert "3"[..0] == [] && DigitsValue("3") == 3;
    DivisorArgOfDigits("3", "a");
  }

  lemma ZeroThreeArg(arg: string)
    requires arg == DivisorPrefix + "03" + "=" + "b"
    ensures ParseDivisorArg(arg) == Success(Entry(3, "b"))
  {
    assert "03"[..1] == "0" && "0"[..0] == [] && DigitsValue("03") == 3;
    DivisorArgOfDigits("03", "b");
  }


  /** An argument after "divisor=" that does not begin with a digit is malformed. */
  lemma DivisorArgWithoutKey(arg: string)
    requires StartsWith(arg, DivisorPrefix) && (|arg| == |DivisorPrefix| || !IsAsciiDigit(arg[|DivisorPrefix|]))
    ensures ParseDivisorArg(arg) == Failure(LoadingError(DivisorMalformedMessage))
  {
    var rest := arg[|DivisorPrefix|..];
    assert rest == [] || rest[0] == arg[|DivisorPrefix|];
  }

  /** The divisor arguments load exactly when each parses and their keys are distinct, into one
      entry per argument in argument order. */
  lemma DivisorArgumentsLoad(args: seq<string>)
    requires WithPrefix(args, DivisorPrefix) != []
    ensures var divisorArgs := WithPrefix(args, DivisorPrefix);
            && (DivisorArguments(args).Success? <==>
                  AllParse(divisorArgs, ParseDivisorArg) && DistinctKeys(ParsedAll(divisorArgs, ParseDivisorArg)))
            && (DivisorArguments(args).Success? ==>
                  DivisorArguments(args) == Success(Some(ParsedAll(divisorArgs, ParseDivisorArg))))
  {
    var divisorArgs := WithPrefix(args, DivisorPrefix);
    AddAllSucceeds([], divisorArgs, ParseDivisorArg);
    if AllParse(divisorArgs, ParseDivisorArg) {
      assert [] + ParsedAll(divisorArgs, ParseDivisorArg) == ParsedAll(divisorArgs, ParseDivisorArg);
    }
  }

  /** Failed divisor arguments report the first one that does not parse or repeats a key. */
  lemma DivisorArgumentsFirstFault(args: seq<string>)
    requires DivisorArguments(args).Failure?
    ensures exists n :: FirstFault(WithPrefix(args, DivisorPrefix), ParseDivisorArg, n, DivisorArguments(args).error)
  {
    var divisorArgs := WithPrefix(args, DivisorPrefix);
    AddAllFirstFault([], divisorArgs, ParseDivisorArg);
    var n :| 0 <= n < |divisorArgs| && CleanPrefix([], divisorArgs, ParseDivisorArg, n)
             && FaultIs([] + ParsedAll(divisorArgs[..n], ParseDivisorArg), divisorArgs[n],
                        ParseDivisorArg, DivisorArguments(args).error);
    assert [] + ParsedAll(divisorArgs[..n], ParseDivisorArg) == ParsedAll(divisorArgs[..n], ParseDivisorArg);
    assert FirstFault(divisorArgs, ParseDivisorArg, n, DivisorArguments(args).error);
  }

  /** Without a rounds argument the count is 100, without divisor arguments the divisors are
      3 "Fizz" and 5 "Buzz", and contains matching is always off. */
  lemma ConfigFromArgsDefaults(args: seq<string>)
    requires ConfigFromArgs(args).Success?
    ensures var c := ConfigFromArgs(args).value;
            && ((forall i :: 0 <= i < |args| ==> !StartsWith(args[i], RoundsPrefix)) ==> c.rounds == DefaultRounds)
            && ((forall i :: 0 <= i < |args| ==> !StartsWith(args[i], DivisorPrefix)) ==> c.divisors == DefaultDivisors)
            && !c.matchByContains
  {
  }

  /** Every configuration `GetConfig()` returns is valid: the invariants its tests assert. */
  lemma ConfigFromArgsValid(args: seq<string>)
    requires ConfigFromArgs(args).Success?
    ensures ValidCommandLineConfig(ConfigFromArgs(args).value)
  {
    if WithPrefix(args, DivisorPrefix) != [] {
      DivisorArgumentsLoad(args);
      ParsedArgsValid(WithPrefix(args, DivisorPrefix));
    } else {
      assert DistinctKeys(DefaultDivisors);
    }
  }

  /** Every entry that parsed divisor arguments give has a positive Int32 key. */
  lemma ParsedArgsValid(divisorArgs: seq<string>)
    requires AllParse(divisorArgs, ParseDivisorArg)
    ensures forall e | e in ParsedAll(divisorArgs, ParseDivisorArg) :: 1 <= e.key <= MaxInt32
  {
    var d := ParsedAll(divisorArgs, ParseDivisorArg);
    forall e | e in d ensures 1 <= e.key <= MaxInt32 {
      var i :| 0 <= i < |d| && d[i] == e;
      assert ParseDivisorArg(divisorArgs[i]).Success?;
    }
  }

}
