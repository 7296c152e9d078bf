/** The configuration both providers produce (`AppConfig`), the errors they raise, and the
    `Dictionary<int, string>` that holds the divisors. */
module Config {
  import opened Wrappers
  import opened Text
  import opened Framework

  /** The exceptions that escape configuration loading. */
  datatype ConfigError =
    | ValidationError(message: string)  // AppConfigValidationException
    | LoadingError(message: string)     // AppConfigLoadingException
    | DuplicateKey(key: int)            // ArgumentException thrown by Dictionary.Add
  {
    /** `Exception.Message`. */
    function Message(): string {
      match this
      case ValidationError(m) => m
      case LoadingError(m) => m
      case DuplicateKey(k) => "An item with the same key has already been added. Key: " + IntToDecimal(k)
    }
  }

  /** One key/value pair of a dictionary. */
  datatype Entry = Entry(key: int, value: string)

  /** A `Dictionary<int, string>` that is only ever added to, as the sequence of its entries
      in insertion order, which is the order it enumerates them in. */
  type Dictionary = seq<Entry>

  /** `AppConfig`: the number of rounds, the divisors with their replacement texts, and
      whether a round also matches a divisor whose digits it contains. */
  datatype AppConfig = AppConfig(rounds: int, divisors: Dictionary, matchByContains: bool)

  const DefaultRounds: int := 100
  const DefaultDivisors: Dictionary := [Entry(3, "Fizz"), Entry(5, "Buzz")]
  const DefaultMatchByContains: bool := false

  function KeysOf(d: Dictionary): set<int> {
    set e | e in d :: e.key
  }

  /** No two entries share a key: what a `Dictionary` guarantees. */
  predicate DistinctKeys(d: Dictionary) {
    forall i, j :: 0 <= i < j < |d| ==> d[i].key != d[j].key
  }

  /** What the dictionary maps each key to; a later entry wins over an earlier one. */
  function ToMap(d: Dictionary): (m: map<int, string>)
    ensures m.Keys == KeysOf(d)
  {
    if d == [] then map[] else ToMap(d[..|d| - 1])[d[|d| - 1].key := d[|d| - 1].value]
  }

  /** In a dictionary with distinct keys, an entry is present exactly when its key maps to its value. */
  lemma {:induction false} EntryInToMap(d: Dictionary, e: Entry)
    requires DistinctKeys(d)
    ensures e in d <==> e.key in ToMap(d) && ToMap(d)[e.key] == e.value
  {
    if d != [] {
      var init, last := d[..|d| - 1], d[|d| - 1];
      assert d == init + [last];
      EntryInToMap(init, e);
    }
  }

  /** `Dictionary.Add(key, value)`: fails when the key is already present, otherwise the
      dictionary gains exactly that pair. */
  function Add(d: Dictionary, e: Entry): (r: Result<Dictionary, ConfigError>)
    ensures r.Failure? <==> e.key in KeysOf(d)
    ensures r.Failure? ==> r.error == DuplicateKey(e.key)
    ensures r.Success? ==> ToMap(r.value) == ToMap(d)[e.key := e.value]
    ensures r.Success? && DistinctKeys(d) ==> DistinctKeys(r.value)
  {
    if e.key in KeysOf(d) then Failure(DuplicateKey(e.key))
    else
      var d' := d + [e];
      assert d'[..|d'| - 1] == d;
      assert forall i | 0 <= i < |d| :: d[i] in d;
      Success(d')
  }

  /** Adds the entry each item parses to, in order, as a `foreach` loop over the items with
      `Add` does; the first item that fails to parse, or whose key is already present, ends it. */
  function AddAll<T>(acc: Dictionary, items: seq<T>, parse: T -> Result<Entry, ConfigError>): Result<Dictionary, ConfigError>
    decreases |items|
  {
    if items == [] then Success(acc)
    else
      var entry :- parse(items[0]);
      var acc' :- Add(acc, entry);
      AddAll(acc', items[1..], parse)
  }

  predicate AllParse<T>(items: seq<T>, parse: T -> Result<Entry, ConfigError>) {
    forall i :: 0 <= i < |items| ==> parse(items[i]).Success?
  }

  /** The entries the items parse to, in the items' order. */
  function ParsedAll<T>(items: seq<T>, parse: T -> Result<Entry, ConfigError>): (r: Dictionary)
    requires AllParse(items, parse)
    ensures |r| == |items| && forall i :: 0 <= i < |items| ==> r[i] == parse(items[i]).value
  {
    if items == [] then [] else [parse(items[0]).value] + ParsedAll(items[1..], parse)
  }

  lemma AllParseCons<T>(items: seq<T>, parse: T -> Result<Entry, ConfigError>)
    requires items != []
    ensures AllParse(items, parse) <==> parse(items[0]).Success? && AllParse(items[1..], parse)
  {
    if parse(items[0]).Success? && AllParse(items[1..], parse) {
      forall i | 0 <= i < |items| ensures parse(items[i]).Success? {
        if i > 0 { assert items[i] == items[1..][i - 1]; }
      }
    }
  }

  /** When the first item parses to a fresh key, loading continues from the dictionary with it added. */
  lemma AddAllStep<T>(acc: Dictionary, items: seq<T>, parse: T -> Result<Entry, ConfigError>)
    requires items != [] && parse(items[0]).Success? && parse(items[0]).value.key !in KeysOf(acc)
    ensures AddAll(acc, items, parse) == AddAll(acc + [parse(items[0]).value], items[1..], parse)
  {
  }

  /** When the first item does not parse, or parses to a key already present, loading stops there. */
  lemma AddAllStop<T>(acc: Dictionary, items: seq<T>, parse: T -> Result<Entry, ConfigError>)
    requires items != [] && (parse(items[0]).Failure? || parse(items[0]).value.key in KeysOf(acc))
    ensures AddAll(acc, items, parse).Failure?
    ensures FaultIs(acc, items[0], parse, AddAll(acc, items, parse).error)
  {
  }

  /** `AddAllStep` for the suffix a loop has reached at index `i`. */
  lemma AddAllStepAt<T>(acc: Dictionary, items: seq<T>, parse: T -> Result<Entry, ConfigError>, i: nat)
    requires i < |items| && parse(items[i]).Success? && parse(items[i]).value.key !in KeysOf(acc)
    ensures AddAll(acc, items[i..], parse) == AddAll(acc + [parse(items[i]).value], items[i + 1..], parse)
  {
    assert items[i..][0] == items[i] && items[i..][1..] == items[i + 1..];
  }

  /** `AddAllStop` for the suffix a loop has reached at index `i`, naming the error. */
  lemma AddAllStopAt<T>(acc: Dictionary, items: seq<T>, parse: T -> Result<Entry, ConfigError>, i: nat)
    requires i < |items| && (parse(items[i]).Failure? || parse(items[i]).value.key in KeysOf(acc))
    ensures AddAll(acc, items[i..], parse)
            == Failure(if parse(items[i]).Failure? then parse(items[i]).error else DuplicateKey(parse(items[i]).value.key))
  {
    assert items[i..][0] == items[i];
  }

  /** Two items that parse to entries with the same key fail at the second, with that key. */
  lemma AddAllRepeatedPair<T>(items: seq<T>, parse: T -> Result<Entry, ConfigError>)
    requires |items| == 2 && parse(items[0]).Success? && parse(items[1]).Success?
    requires parse(items[0]).value.key == parse(items[1]).value.key
    ensures AddAll([], items, parse) == Failure(DuplicateKey(parse(items[0]).value.key))
  {
    var first: Dictionary := [parse(items[0]).value];
    AddAllStep([], items, parse);
    assert [] + first == first;
    var tail := items[1..];
    assert tail[0] == items[1];
    assert first[0].key in KeysOf(first) by { assert first[0] in first; }
    AddAllStop(first, tail, parse);
  }

  /** A key already in `acc` cannot be added again without repeating. */
  lemma RepeatedKey(acc: Dictionary, e: Entry, tail: Dictionary)
    requires e.key in KeysOf(acc)
    ensures !DistinctKeys(acc + ([e] + tail))
  {
    var j :| 0 <= j < |acc| && acc[j].key == e.key;
    var all := acc + ([e] + tail);
    assert all[|acc|] == e && all[j] == acc[j];
  }

  lemma ParsedAllCons<T>(items: seq<T>, parse: T -> Result<Entry, ConfigError>)
    requires items != [] && AllParse(items, parse)
    ensures AllParse(items[1..], parse)
    ensures ParsedAll(items, parse) == [parse(items[0]).value] + ParsedAll(items[1..], parse)
  {
    AllParseCons(items, parse);
  }

  /** Loading succeeds exactly when every item parses and no key repeats, and then the
      dictionary holds the parsed entries in the items' order. */
  lemma {:induction false} AddAllSucceeds<T>(acc: Dictionary, items: seq<T>, parse: T -> Result<Entry, ConfigError>)
    requires DistinctKeys(acc)
    ensures AddAll(acc, items, parse).Success? <==> AllParse(items, parse) && DistinctKeys(acc + ParsedAll(items, parse))
    ensures AddAll(acc, items, parse).Success? ==> AddAll(acc, items, parse).value == acc + ParsedAll(items, parse)
    decreases |items|
  {
    if items == [] {
      assert acc + [] == acc;
    } else if parse(items[0]).Failure? || parse(items[0]).value.key in KeysOf(acc) {
      StoppedLoadFails(acc, items, parse);
    } else {
      var e := parse(items[0]).value;
      AddAllSucceeds(acc + [e], items[1..], parse);
      ContinuedLoad(acc, items, parse);
    }
  }

  lemma StoppedLoadFails<T>(acc: Dictionary, items: seq<T>, parse: T -> Result<Entry, ConfigError>)
    requires items != [] && (parse(items[0]).Failure? || parse(items[0]).value.key in KeysOf(acc))
    ensures AddAll(acc, items, parse).Failure?
    ensures !(AllParse(items, parse) && DistinctKeys(acc + ParsedAll(items, parse)))
  {
    AddAllStop(acc, items, parse);
    AllParseCons(items, parse);
    if AllParse(items, parse) {
      ParsedAllCons(items, parse);
      RepeatedKey(acc, parse(items[0]).value, ParsedAll(items[1..], parse));
    }
  }

  lemma ContinuedLoad<T>(acc: Dictionary, items: seq<T>, parse: T -> Result<Entry, ConfigError>)
    requires items != [] && parse(items[0]).Success? && parse(items[0]).value.key !in KeysOf(acc)
    ensures AddAll(acc, items, parse) == AddAll(acc + [parse(items[0]).value], items[1..], parse)
    ensures AllParse(items, parse) <==> AllParse(items[1..], parse)
    ensures AllParse(items, parse) ==> acc + ParsedAll(items, parse) == (acc + [parse(items[0]).value]) + ParsedAll(items[1..], parse)
  {
    AddAllStep(acc, items, parse);
    AllParseCons(items, parse);
    if AllParse(items, parse) {
      ParsedAllShift(acc, items, parse);
    }
  }

  lemma ParsedAllShift<T>(acc: Dictionary, items: seq<T>, parse: T -> Result<Entry, ConfigError>)
    requires items != [] && AllParse(items, parse)
    ensures AllParse(items[1..], parse)
    ensures acc + ParsedAll(items, parse) == (acc + [parse(items[0]).value]) + ParsedAll(items[1..], parse)
  {
    ParsedAllCons(items, parse);
    var e, p := parse(items[0]).value, ParsedAll(items[1..], parse);
    assert acc + ([e] + p) == (acc + [e]) + p;
  }

  /** The items before `n` all parse and their keys are distinct from each other and from `acc`. */
  predicate CleanPrefix<T>(acc: Dictionary, items: seq<T>, parse: T -> Result<Entry, ConfigError>, n: nat)
    requires n <= |items|
  {
    AllParse(items[..n], parse) && DistinctKeys(acc + ParsedAll(items[..n], parse))
  }

  /** The error loading raises at `item` after `prefix` was added: the item's own parse error,
      or the duplicate key when it parses to a key already present. */
  predicate FaultIs<T>(prefix: Dictionary, item: T, parse: T -> Result<Entry, ConfigError>, error: ConfigError) {
    match parse(item)
    case Failure(e) => error == e
    case Success(entry) => entry.key in KeysOf(prefix) && error == DuplicateKey(entry.key)
  }

  /** Loading from an empty dictionary stops at item `n`, with `error`, after the items before
      it were all added. */
  predicate FirstFault<T>(items: seq<T>, parse: T -> Result<Entry, ConfigError>, n: nat, error: ConfigError) {
    n < |items| && CleanPrefix([], items, parse, n) && FaultIs(ParsedAll(items[..n], parse), items[n], parse, error)
  }

  /** A failed load reports the fault of the first item that does not parse or repeats a key. */
  lemma {:induction false} AddAllFirstFault<T>(acc: Dictionary, items: seq<T>, parse: T -> Result<Entry, ConfigError>)
    requires DistinctKeys(acc)
    requires AddAll(acc, items, parse).Failure?
    ensures exists n :: 0 <= n < |items| && CleanPrefix(acc, items, parse, n)
                        && FaultIs(acc + ParsedAll(items[..n], parse), items[n], parse, AddAll(acc, items, parse).error)
    decreases |items|
  {
    if parse(items[0]).Failure? || parse(items[0]).value.key in KeysOf(acc) {
      FaultAtFirst(acc, items, parse);
    } else {
      var e := parse(items[0]).value;
      var rest := items[1..];
      AddAllStep(acc, items, parse);
      AddAllFirstFault(acc + [e], rest, parse);
      var m :| 0 <= m < |rest| && CleanPrefix(acc + [e], rest, parse, m)
               && FaultIs((acc + [e]) + ParsedAll(rest[..m], parse), rest[m], parse, AddAll(acc, items, parse).error);
      FaultLater(acc, items, parse, m, AddAll(acc, items, parse).error);
    }
  }

  lemma FaultAtFirst<T>(acc: Dictionary, items: seq<T>, parse: T -> Result<Entry, ConfigError>)
    requires DistinctKeys(acc)
    requires items != [] && (parse(items[0]).Failure? || parse(items[0]).value.key in KeysOf(acc))
    ensures CleanPrefix(acc, items, parse, 0)
    ensures FaultIs(acc + ParsedAll(items[..0], parse), items[0], parse, AddAll(acc, items, parse).error)
  {
    AddAllStop(acc, items, parse);
    assert items[..0] == [];
    assert acc + ParsedAll(items[..0], parse) == acc;
  }

  lemma FaultLater<T>(acc: Dictionary, items: seq<T>, parse: T -> Result<Entry, ConfigError>, m: nat, err: ConfigError)
    requires items != [] && parse(items[0]).Success?
    requires m < |items| - 1
    requires CleanPrefix(acc + [parse(items[0]).value], items[1..], parse, m)
    requires FaultIs((acc + [parse(items[0]).value]) + ParsedAll(items[1..][..m], parse), items[1..][m], parse, err)
    ensures CleanPrefix(acc, items, parse, m + 1)
    ensures FaultIs(acc + ParsedAll(items[..m + 1], parse), items[m + 1], parse, err)
  {
    var pre := items[..m + 1];
    assert pre[0] == items[0] && pre[1..] == items[1..][..m];
    AllParseCons(pre, parse);
    ParsedAllShift(acc, pre, parse);
    assert items[m + 1] == items[1..][m];
  }
}
