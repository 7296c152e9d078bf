/** `AppConfigProvider`: validates the configuration tree the command-line configuration
    library builds from `key=value` and `divisors:<n>=<text>` arguments, and assembles the
    `AppConfig`, raising `AppConfigValidationException` on the first problem it finds. */
module AppConfigProvider {
  import opened Wrappers
  import opened Text
  import opened Framework
  import opened Config

  /** A child of a section: its key and its value, null when the child only has children itself. */
  datatype Child = Child(key: string, value: Option<string>)

  /** A configuration section: its own value (null when absent) and its children in the
      order the configuration library enumerates them. */
  datatype Section = Section(value: Option<string>, children: seq<Child>)

  /** The configuration root: its top-level sections by key. */
  type ConfigRoot = map<string, Section>

  const RoundsArgName := "rounds"
  const DivisorsArgName := "divisors"
  const MatchByContainsArgName := "matchByContains"
  const HelpArgName := "help"

  /** The names of the configuration item descriptions, in their declared order. */
  const ConfigItemNames: seq<string> := [RoundsArgName, DivisorsArgName, MatchByContainsArgName, HelpArgName]

  const UnknownArgumentMessage := "Unknown argument"
  const RoundsNotNumberMessage := "Argument rounds is not a number"
  const RoundsNotPositiveMessage := "rounds argument must be greater than 0"
  const DivisorsMalformedMessage := "divisors argument malformed"
  const DivisorKeyNotIntegerMessage := "divisors argument index is not a invalid integer"
  const DivisorKeyNotPositiveMessage := "divisors must be greater than 0"
  const DivisorTextMissingMessage := "divisors argument replacement text missing"
  const MatchByContainsNotBoolMessage := "Argument matchByContains is not a boolean value"

  /** `IConfigurationSection.Exists()`: the section has a value or has children. */
  predicate Exists(s: Section) {
    s.value.Some? || |s.children| > 0
  }

  /** `GetSection(name)`: a missing section is an empty one, which does not exist. */
  function GetSection(root: ConfigRoot, name: string): Section {
    if name in root then root[name] else Section(None, [])
  }

  /** A top-level key that no configuration item describes and whose path is not "divisors:". */
  predicate IsUnknownKey(key: string) {
    key !in ConfigItemNames && key != DivisorsArgName + ":"
  }

  predicate HasUnknownKey(root: ConfigRoot) {
    exists key | key in root :: IsUnknownKey(key)
  }

  /** `ParseRoundsConfig`: absent gives null, otherwise an Int32 of at least 1. */
  function ParseRoundsConfig(root: ConfigRoot): (r: Result<Option<int>, ConfigError>)
    ensures r == Success(None) <==> !Exists(GetSection(root, RoundsArgName))
    ensures r.Success? && r.value.Some? ==> 1 <= r.value.value <= MaxInt32
  {
    var section := GetSection(root, RoundsArgName);
    if !Exists(section) then Success(None)
    else
      match TryParseInt32(section.value)
      case None => Failure(ValidationError(RoundsNotNumberMessage))
      case Some(rounds) =>
        if rounds < 1 then Failure(ValidationError(RoundsNotPositiveMessage)) else Success(Some(rounds))
  }

  /** The checks one child of the divisors section goes through, in the order of the loop body
      of `ParseDivisorConfig`: an Int32 key, at least 1, and a value that is not null or white space. */
  function ValidateDivisorChild(c: Child): (r: Result<Entry, ConfigError>)
    ensures r.Success? ==> 1 <= r.value.key <= MaxInt32 && c.value == Some(r.value.value)
                           && !IsNullOrWhiteSpace(c.value)
  {
    match TryParseInt32(Some(c.key))
    case None => Failure(ValidationError(DivisorKeyNotIntegerMessage))
    case Some(divisor) =>
      if divisor < 1 then Failure(ValidationError(DivisorKeyNotPositiveMessage))
      else if IsNullOrWhiteSpace(c.value) then Failure(ValidationError(DivisorTextMissingMessage))
      else Success(Entry(divisor, c.value.value))
  }

  /** What `ParseDivisorConfig` returns: null when the section is absent, an error when it has
      no children, otherwise the dictionary its children load into. */
  function DivisorConfig(root: ConfigRoot): (r: Result<Option<Dictionary>, ConfigError>)
    ensures r == Success(None) <==> !Exists(GetSection(root, DivisorsArgName))
  {
    var section := GetSection(root, DivisorsArgName);
    if !Exists(section) then Success(None)
    else if |section.children| == 0 then Failure(ValidationError(DivisorsMalformedMessage))
    else
      var divisors :- AddAll([], section.children, ValidateDivisorChild);
      Success(Some(divisors))
  }

  /** `ParseDivisorConfig`: the `foreach` loop that validates each child and adds it. */
  method ParseDivisorConfig(root: ConfigRoot) returns (r: Result<Option<Dictionary>, ConfigError>)
    ensures r == DivisorConfig(root)
  {
    var configSection := GetSection(root, DivisorsArgName);
    if !Exists(configSection) {
      return Success(None);
    }
    if |configSection.children| == 0 {
      return Failure(ValidationError(DivisorsMalformedMessage));
    }
    var configItems := configSection.children;
    var returnDict: Dictionary := [];
    for i := 0 to |configItems|
      invariant DistinctKeys(returnDict)
      invariant AddAll(returnDict, configItems[i..], ValidateDivisorChild) == AddAll([], configItems, ValidateDivisorChild)
    {
      var divisorConfig := configItems[i];
      var parsed := TryParseInt32(Some(divisorConfig.key));
      if parsed.None? {
        AddAllStopAt(returnDict, configItems, ValidateDivisorChild, i);
        return Failure(ValidationError(DivisorKeyNotIntegerMessage));
      }
      var divisor := parsed.value;
      if divisor < 1 {
        AddAllStopAt(returnDict, configItems, ValidateDivisorChild, i);
        return Failure(ValidationError(DivisorKeyNotPositiveMessage));
      }
      if IsNullOrWhiteSpace(divisorConfig.value) {
        AddAllStopAt(returnDict, configItems, ValidateDivisorChild, i);
        return Failure(ValidationError(DivisorTextMissingMessage));
      }
      var added := Add(returnDict, Entry(divisor, divisorConfig.value.value));
      if added.Failure? {
        AddAllStopAt(returnDict, configItems, ValidateDivisorChild, i);
        return Failure(added.error);
      }
      AddAllStepAt(returnDict, configItems, ValidateDivisorChild, i);
      returnDict := added.value;
    }
    assert configItems[|configItems|..] == [];
    return Success(Some(returnDict));
  }

  /** `ParseMatchByContainsConfig`: absent gives null, otherwise a boolean literal. */
  function ParseMatchByContainsConfig(root: ConfigRoot): (r: Result<Option<bool>, ConfigError>)
    ensures r == Success(None) <==> !Exists(GetSection(root, MatchByContainsArgName))
  {
    var section := GetSection(root, MatchByContainsArgName);
    if !Exists(section) then Success(None)
    else
      match TryParseBool(section.value)
      case None => Failure(ValidationError(MatchByContainsNotBoolMessage))
      case Some(b) => Success(Some(b))
  }

  /** What the constructor leaves in `_appConfig`, or the exception it throws: the unknown-key
      check first, then rounds, divisors and matchByContains in the order the initializer runs. */
  function LoadedConfig(root: ConfigRoot): Result<AppConfig, ConfigError> {
    if HasUnknownKey(root) then Failure(ValidationError(UnknownArgumentMessage))
    else
      var rounds :- ParseRoundsConfig(root);
      var divisors :- DivisorConfig(root);
      var matchByContains :- ParseMatchByContainsConfig(root);
      Success(AppConfig(rounds.GetOr(DefaultRounds), divisors.GetOr(DefaultDivisors),
                        matchByContains.GetOr(DefaultMatchByContains)))
  }

  /** The constructor `AppConfigProvider(configRoot)`; on success `GetConfig()` returns `r.value`. */
  method Load(root: ConfigRoot) returns (r: Result<AppConfig, ConfigError>)
    ensures r == LoadedConfig(root)
  {
    if exists key | key in root :: IsUnknownKey(key) {
      return Failure(ValidationError(UnknownArgumentMessage));
    }
    var rounds :- ParseRoundsConfig(root);
    var divisors :- ParseDivisorConfig(root);
    var matchByContains :- ParseMatchByContainsConfig(root);
    return Success(AppConfig(rounds.GetOr(DefaultRounds), divisors.GetOr(DefaultDivisors),
                             matchByContains.GetOr(DefaultMatchByContains)));
  }

  /** What every configuration this provider accepts satisfies. */
  predicate ValidAppConfig(c: AppConfig) {
    && 1 <= c.rounds <= MaxInt32
    && |c.divisors| > 0
    && DistinctKeys(c.divisors)
    && forall e | e in c.divisors :: 1 <= e.key <= MaxInt32 && !IsNullOrWhiteSpace(Some(e.value))
  }

  /** A key outside the described items is rejected whatever the rest of the configuration holds,
      so the check wins over a bad value elsewhere. */
  lemma UnknownKeyWins(root: ConfigRoot, key: string, section: Section)
    requires IsUnknownKey(key)
    ensures LoadedConfig(root[key := section]) == Failure(ValidationError(UnknownArgumentMessage))
  {
    assert key in root[key := section];
  }

  /** The decimal text of any Int32 is read back as that number, rejected when below 1. */
  lemma RoundsConfigOfDecimal(root: ConfigRoot, n: int)
    requires InInt32(n) && RoundsArgName in root && root[RoundsArgName].value == Some(IntToDecimal(n))
    ensures ParseRoundsConfig(root) == if n < 1 then Failure(ValidationError(RoundsNotPositiveMessage))
                                       else Success(Some(n))
  {
    TryParseInt32OfDecimal(n);
  }

  /** A rounds section without a value, or one holding a character that cannot be part of a
      number, is "not a number". */
  lemma RoundsConfigNotANumber(root: ConfigRoot, i: nat)
    requires RoundsArgName in root && Exists(root[RoundsArgName])
    requires match root[RoundsArgName].value
             case None => true
             case Some(v) => i < |v| && !IsAsciiDigit(v[i]) && !IsNumberWhite(v[i]) && v[i] != '-' && v[i] != '+'
    ensures ParseRoundsConfig(root) == Failure(ValidationError(RoundsNotNumberMessage))
  {
    if root[RoundsArgName].value.Some? {
      TryParseInt32RejectsStray(root[RoundsArgName].value.value, i);
    }
  }

  /** A divisors section with a value but no children, as "divisors=Fizz" gives, is malformed. */
  lemma DivisorsWithoutChildren(root: ConfigRoot)
    requires DivisorsArgName in root && root[DivisorsArgName].value.Some? && root[DivisorsArgName].children == []
    ensures DivisorConfig(root) == Failure(ValidationError(DivisorsMalformedMessage))
  {
  }

  /** A child keyed by the decimal text of an Int32 is accepted exactly when the number is at
      least 1 and its text is not blank. */
  lemma DivisorChildOfDecimal(k: int, value: Option<string>)
    requires InInt32(k)
    ensures ValidateDivisorChild(Child(IntToDecimal(k), value))
            == if k < 1 then Failure(ValidationError(DivisorKeyNotPositiveMessage))
               else if IsNullOrWhiteSpace(value) then Failure(ValidationError(DivisorTextMissingMessage))
               else Success(Entry(k, value.value))
  {
    TryParseInt32OfDecimal(k);
  }

  /** A child whose key holds a character that is neither a digit, a sign nor number white space
      is rejected as not an integer, whatever its text. */
  lemma DivisorKeyNotANumber(c: Child, i: nat)
    requires i < |c.key| && !IsAsciiDigit(c.key[i]) && !IsNumberWhite(c.key[i]) && c.key[i] != '-' && c.key[i] != '+'
    ensures ValidateDivisorChild(c) == Failure(ValidationError(DivisorKeyNotIntegerMessage))
  {
    TryParseInt32RejectsStray(c.key, i);
  }

  /** The divisors section loads exactly when it has children that all validate with distinct
      keys, and then holds one entry per child, in the children's order. */
  lemma DivisorConfigLoadsChildren(root: ConfigRoot)
    requires Exists(GetSection(root, DivisorsArgName))
    ensures var children := GetSection(root, DivisorsArgName).children;
            && (DivisorConfig(root).Success? <==>
                  |children| > 0 && AllParse(children, ValidateDivisorChild)
                  && DistinctKeys(ParsedAll(children, ValidateDivisorChild)))
            && (DivisorConfig(root).Success? ==>
                  DivisorConfig(root) == Success(Some(ParsedAll(children, ValidateDivisorChild))))
  {
    var children := GetSection(root, DivisorsArgName).children;
    AddAllSucceeds([], children, ValidateDivisorChild);
    if AllParse(children, ValidateDivisorChild) {
      assert [] + ParsedAll(children, ValidateDivisorChild) == ParsedAll(children, ValidateDivisorChild);
    }
  }

  /** A divisors section with children that fails reports the first child that does not
      validate or repeats a key parsed from an earlier child. */
  lemma DivisorConfigFirstFault(root: ConfigRoot)
    requires |GetSection(root, DivisorsArgName).children| > 0 && DivisorConfig(root).Failure?
    ensures exists n :: FirstFault(GetSection(root, DivisorsArgName).children, ValidateDivisorChild, n,
                                   DivisorConfig(root).error)
  {
    var children := GetSection(root, DivisorsArgName).children;
    AddAllFirstFault([], children, ValidateDivisorChild);
    var n :| 0 <= n < |children| && CleanPrefix([], children, ValidateDivisorChild, n)
             && FaultIs([] + ParsedAll(children[..n], ValidateDivisorChild), children[n],
                        ValidateDivisorChild, DivisorConfig(root).error);
    assert [] + ParsedAll(children[..n], ValidateDivisorChild) == ParsedAll(children[..n], ValidateDivisorChild);
    assert FirstFault(children, ValidateDivisorChild, n, DivisorConfig(root).error);
  }

  /** matchByContains reads back what `bool.ToString()` writes. */
  lemma MatchByContainsOfToString(root: ConfigRoot, b: bool)
    requires MatchByContainsArgName in root && root[MatchByContainsArgName].value == Some(BoolToString(b))
    ensures ParseMatchByContainsConfig(root) == Success(Some(b))
  {
    TryParseBoolOfToString(b);
  }

  /** matchByContains accepts "true" and "false" in any ASCII letter case, with white space
      and null characters around them. */
  lemma MatchByContainsOfAnyCase(root: ConfigRoot, pre: string, core: string, post: string, b: bool)
    requires forall i :: 0 <= i < |pre| ==> IsWhiteSpaceOrNull(pre[i])
    requires forall i :: 0 <= i < |post| ==> IsWhiteSpaceOrNull(post[i])
    requires EqualsIgnoreCase(core, BoolToString(b))
    requires MatchByContainsArgName in root && root[MatchByContainsArgName].value == Some(pre + core + post)
    ensures ParseMatchByContainsConfig(root) == Success(Some(b))
  {
    TryParseBoolOfAnyCase(pre, core, post, b);
  }

  /** The constructor assembles the three parsed settings, each absent one taking its default. */
  lemma LoadedOfParts(root: ConfigRoot, rounds: Option<int>, divisors: Option<Dictionary>, mbc: Option<bool>)
    requires !HasUnknownKey(root)
    requires ParseRoundsConfig(root) == Success(rounds) && DivisorConfig(root) == Success(divisors)
    requires ParseMatchByContainsConfig(root) == Success(mbc)
    ensures LoadedConfig(root)
            == Success(AppConfig(rounds.GetOr(DefaultRounds), divisors.GetOr(DefaultDivisors), mbc.GetOr(DefaultMatchByContains)))
  {
  }

  /** Every configuration the provider produces is valid: the invariants its tests assert. */
  lemma LoadedConfigValid(root: ConfigRoot)
    requires LoadedConfig(root).Success?
    ensures ValidAppConfig(LoadedConfig(root).value)
  {
    if Exists(GetSection(root, DivisorsArgName)) {
      DivisorConfigLoadsChildren(root);
      ValidatedChildrenValid(GetSection(root, DivisorsArgName).children);
    } else {
      DefaultDivisorsValid();
    }
  }

  /** Every entry that validated children give has a positive Int32 key and a non-blank text. */
  lemma ValidatedChildrenValid(children: seq<Child>)
    requires AllParse(children, ValidateDivisorChild)
    ensures forall e | e in ParsedAll(children, ValidateDivisorChild) ::
              1 <= e.key <= MaxInt32 && !IsNullOrWhiteSpace(Some(e.value))
  {
    var d := ParsedAll(children, ValidateDivisorChild);
    forall e | e in d ensures 1 <= e.key <= MaxInt32 && !IsNullOrWhiteSpace(Some(e.value)) {
      var i :| 0 <= i < |d| && d[i] == e;
      assert ValidateDivisorChild(children[i]).Success?;
    }
  }

  /** The default divisors 3 "Fizz" and 5 "Buzz" have distinct positive keys and non-blank texts. */
  lemma DefaultDivisorsValid()
    ensures |DefaultDivisors| > 0 && DistinctKeys(DefaultDivisors)
    ensures forall e | e in DefaultDivisors :: 1 <= e.key <= MaxInt32 && !IsNullOrWhiteSpace(Some(e.value))
  {
    assert !IsWhiteSpace("Fizz"[0]) && !IsWhiteSpace("Buzz"[0]);
  }

  /** Each absent setting takes its default, and each present one the value parsed from it. */
  lemma LoadedDefaults(root: ConfigRoot)
    requires LoadedConfig(root).Success?
    ensures var c := LoadedConfig(root).value;
            var rounds, mbc := GetSection(root, RoundsArgName), GetSection(root, MatchByContainsArgName);
            && (if Exists(rounds) then TryParseInt32(rounds.value) == Some(c.rounds) else c.rounds == DefaultRounds)
            && (if Exists(GetSection(root, DivisorsArgName)) then DivisorConfig(root) == Success(Some(c.divisors))
                else c.divisors == DefaultDivisors)
            && (if Exists(mbc) then TryParseBool(mbc.value) == Some(c.matchByContains) else !c.matchByContains)
  {
  }

  /** With no arguments the defaults apply: 100 rounds, 3 "Fizz" and 5 "Buzz", no contains matching. */
  lemma EmptyRootDefaults()
    ensures LoadedConfig(map[]) == Success(AppConfig(100, DefaultDivisors, false))
  {
    assert !HasUnknownKey(map[]);
  }

  /** Two children whose keys parse to the same number fail in `Dictionary.Add`, which is not a
      validation error. */
  lemma RepeatedDivisorKey()
    ensures var root := map[DivisorsArgName := Section(None, [Child("3", Some("Fizz")), Child("03", Some("Buzz"))])];
            && LoadedConfig(root) == Failure(DuplicateKey(3))
            && !LoadedConfig(root).error.ValidationError?
  {
    var children := [Child("3", Some("Fizz")), Child("03", Some("Buzz"))];
    var root := map[DivisorsArgName := Section(None, children)];
    assert !HasUnknownKey(root);
    assert ParseRoundsConfig(root) == Success(None);
    RepeatedKeyChildren(children);
    assert DivisorConfig(root) == Failure(DuplicateKey(3));
  }

  lemma RepeatedKeyChildren(children: seq<Child>)
    requires children == [Child("3", Some("Fizz")), Child("03", Some("Buzz"))]
    ensures AddAll([], children, ValidateDivisorChild) == Failure(DuplicateKey(3))
  {
    ThreeChild(children[0]);
    ZeroThreeChild(children[1]);
    AddAllRepeatedPair(children, ValidateDivisorChild);
  }

  lemma ThreeChild(c: Child)
    requires c == Child("3", Some("Fizz"))
    ensures ValidateDivisorChild(c) == Success(Entry(3, "Fizz"))
  {
    assert "3"[..0] == [] && DigitsValue("3") == 3;
    assert !IsWhiteSpace("Fizz"[0]);
    DigitsChild("3", Some("Fizz"));
  }

  lemma ZeroThreeChild(c: Child)
    requires c == Child("03", Some("Buzz"))
    ensures ValidateDivisorChild(c) == Success(Entry(3, "Buzz"))
  {
    assert "03"[..1] == "0" && "0"[..0] == [] && DigitsValue("03") == 3;
    assert !IsWhiteSpace("Buzz"[0]);
    DigitsChild("03", Some("Buzz"));
  }

  /** A child keyed by a bare run of digits whose value is a positive Int32. */
  lemma DigitsChild(key: string, value: Option<string>)
    requires |key| > 0 && AllDigits(key) && 1 <= DigitsValue(key) <= MaxInt32 && !IsNullOrWhiteSpace(value)
    ensures ValidateDivisorChild(Child(key, value)) == Success(Entry(DigitsValue(key), value.value))
  {
    TryParseInt32OfDigits(key);
  }
}
