/** The self-contained rules of src/snakeoil/cli/arghparse.py: splitting
    comma-separated option values, the actions that extend or combine list
    attributes of the parsed namespace, boolean and verbosity parsing,
    abbreviated subcommands and the help/description defaults of
    subparsers. */
module Arghparse {
  import opened Wrappers
  import PyFormat

  // ---------------------------------------------------------------------
  // Comma-separated values

  /** str.split(','): the pieces between commas, empty ones included; there
      is always at least one. */
  function Split(s: string): (r: seq<string>)
    ensures |r| >= 1
    ensures forall i :: 0 <= i < |r| ==> ',' !in r[i]
  {
    if |s| == 0 then [[]]
    else
      var t := Split(s[1..]);
      if s[0] == ',' then [[]] + t else [[s[0]] + t[0]] + t[1..]
  }

  /** ','.join(xs) */
  function JoinComma(xs: seq<string>): string
  {
    if |xs| == 0 then []
    else if |xs| == 1 then xs[0]
    else xs[0] + "," + JoinComma(xs[1..])
  }

  /** The pieces that are not empty, in order. */
  function NonEmpty(xs: seq<string>): (r: seq<string>)
    ensures forall i :: 0 <= i < |r| ==> r[i] != [] && r[i] in xs
    ensures |r| <= |xs|
  {
    if |xs| == 0 then []
    else if |xs[0]| == 0 then NonEmpty(xs[1..])
    else [xs[0]] + NonEmpty(xs[1..])
  }

  /** `x for x in value.split(',') if x` */
  function Pieces(s: string): (r: seq<string>)
    ensures forall i :: 0 <= i < |r| ==> r[i] != [] && ',' !in r[i]
  {
    NonEmpty(Split(s))
  }

  lemma {:induction false} SplitPrefix(a: string, rest: string)
    requires ',' !in a
    ensures Split(a + rest) == [a + Split(rest)[0]] + Split(rest)[1..]
  {
    if |a| == 0 {
      var t := Split(rest);
      assert a + rest == rest && a + t[0] == t[0];
      assert t == [t[0]] + t[1..];
    } else {
      assert (a + rest)[0] == a[0] && (a + rest)[1..] == a[1..] + rest;
      SplitPrefix(a[1..], rest);
      assert [a[0]] + (a[1..] + Split(rest)[0]) == a + Split(rest)[0];
    }
  }

  /** Splitting undoes joining, for pieces without commas. */
  lemma {:induction false} SplitJoin(xs: seq<string>)
    requires |xs| >= 1 && forall i :: 0 <= i < |xs| ==> ',' !in xs[i]
    ensures Split(JoinComma(xs)) == xs
  {
    if |xs| == 1 {
      SplitPrefix(xs[0], []);
      assert xs[0] + [] == xs[0];
      assert Split([]) == [[]];
      assert xs[0] + [] == xs[0];
    } else {
      var rest := "," + JoinComma(xs[1..]);
      assert JoinComma(xs) == xs[0] + rest;
      SplitPrefix(xs[0], rest);
      SplitJoin(xs[1..]);
      assert rest[0] == ',' && rest[1..] == JoinComma(xs[1..]);
      assert Split(rest) == [[]] + xs[1..];
      assert xs[0] + [] == xs[0];
      assert xs == [xs[0]] + xs[1..];
    }
  }

  lemma JoinCons(c: char, t: seq<string>)
    requires |t| >= 1
    ensures JoinComma([[c] + t[0]] + t[1..]) == [c] + JoinComma(t)
  {
    var u := [[c] + t[0]] + t[1..];
    assert u[0] == [c] + t[0] && u[1..] == t[1..];
    if |t| > 1 {
      assert JoinComma(u) == ([c] + t[0]) + "," + JoinComma(t[1..]);
      ConcatAssoc([c], t[0], ",");
      ConcatAssoc([c], t[0] + ",", JoinComma(t[1..]));
    }
  }

  /** Joining undoes splitting: no text is lost between the pieces. */
  lemma {:induction false} JoinSplit(s: string)
    ensures JoinComma(Split(s)) == s
  {
    if |s| > 0 {
      var t := Split(s[1..]);
      JoinSplit(s[1..]);
      if s[0] == ',' {
        var u := [[]] + t;
        assert u[0] == [] && u[1..] == t;
        assert JoinComma(u) == [] + "," + JoinComma(t);
        assert s == [s[0]] + s[1..];
      } else {
        JoinCons(s[0], t);
        assert s == [s[0]] + s[1..];
      }
    }
  }

  lemma {:induction false} NonEmptyKeeps(xs: seq<string>)
    requires forall i :: 0 <= i < |xs| ==> xs[i] != []
    ensures NonEmpty(xs) == xs
  {
    if |xs| > 0 {
      NonEmptyKeeps(xs[1..]);
      assert xs == [xs[0]] + xs[1..];
    }
  }

  /** The non-empty comma-free pieces of a joined list are the list itself. */
  lemma PiecesOfJoin(xs: seq<string>)
    requires forall i :: 0 <= i < |xs| ==> xs[i] != [] && ',' !in xs[i]
    ensures Pieces(JoinComma(xs)) == xs
  {
    if |xs| == 0 {
      assert Split([]) == [[]];
      assert NonEmpty([[]]) == NonEmpty([]);
    } else {
      SplitJoin(xs);
      NonEmptyKeeps(xs);
    }
  }

  /** What an option receives: one string, or a list of them. */
  datatype Values = One(s: string) | Many(items: seq<string>)

  /** A single string is treated as a one-element list. */
  function Listed(values: Values): seq<string>
  {
    match values
    case One(s) => [s]
    case Many(xs) => xs
  }

  /** The pieces of every value, in order. */
  function AllPieces(xs: seq<string>): (r: seq<string>)
    ensures forall i :: 0 <= i < |r| ==> r[i] != [] && ',' !in r[i]
  {
    if |xs| == 0 then [] else AllPieces(xs[..|xs| - 1]) + Pieces(xs[|xs| - 1])
  }

  /** CommaSeparatedValues.parse_values */
  method ParseValues(values: Values) returns (items: seq<string>)
    ensures items == AllPieces(Listed(values))
    ensures forall i :: 0 <= i < |items| ==> items[i] != [] && ',' !in items[i]
  {
    items := [];
    match values {
      case One(s) =>
        items := items + Pieces(s);
        assert [s][..0] == [];
      case Many(xs) =>
        for i := 0 to |xs|
          invariant items == AllPieces(xs[..i])
        {
          assert xs[..i + 1][..i] == xs[..i];
          items := items + Pieces(xs[i]);
        }
        assert xs[..|xs|] == xs;
    }
  }

  /** Values split on commas and re-joined give back the comma-joined
      input, less its empty pieces: a value list that already holds clean
      pieces parses to itself. */
  lemma ParseCleanValues(xs: seq<string>)
    requires forall i :: 0 <= i < |xs| ==> xs[i] != [] && ',' !in xs[i]
    ensures AllPieces(xs) == xs
    ensures AllPieces([JoinComma(xs)]) == xs
  {
    CleanPiecesAreThemselves(xs);
    PiecesOfJoin(xs);
    assert [JoinComma(xs)][..0] == [];
  }

  lemma {:induction false} CleanPiecesAreThemselves(xs: seq<string>)
    requires forall i :: 0 <= i < |xs| ==> xs[i] != [] && ',' !in xs[i]
    ensures AllPieces(xs) == xs
  {
    if |xs| > 0 {
      var last := xs[|xs| - 1];
      CleanPiecesAreThemselves(xs[..|xs| - 1]);
      PiecesOfJoin([last]);
      assert xs == xs[..|xs| - 1] + [last];
    }
  }

  // ---------------------------------------------------------------------
  // The namespace and the actions that write it

  /** The attribute values the actions store. */
  datatype Value =
    | NoneValue
    | Strings(items: seq<string>)
    | Pair(first: seq<string>, second: seq<string>)
    | Triple(one: seq<string>, two: seq<string>, three: seq<string>)
    | Count(n: int)

  /** The parsed-arguments namespace: attributes by name. */
  class Namespace {
    var attrs: map<string, Value>

    constructor(attrs: map<string, Value>)
      ensures this.attrs == attrs
    {
      this.attrs := attrs;
    }

    /** getattr(namespace, name, None) */
    function Get(name: string): Value
      reads this
    {
      if name in attrs then attrs[name] else NoneValue
    }

    /** setattr(namespace, name, v) */
    method Set(name: string, v: Value)
      modifies this
      ensures attrs == old(attrs)[name := v]
    {
      attrs := attrs[name := v];
    }
  }

  /** _ensure_value: an unset or None attribute is set to `value`; the
      attribute is returned. */
  method EnsureValue(ns: Namespace, name: string, value: Value) returns (v: Value)
    modifies ns
    ensures old(ns.Get(name)) == NoneValue ==> ns.attrs == old(ns.attrs)[name := value] && v == value
    ensures old(ns.Get(name)) != NoneValue ==> ns.attrs == old(ns.attrs) && v == old(ns.Get(name))
  {
    if ns.Get(name) == NoneValue {
      ns.Set(name, value);
    }
    v := ns.Get(name);
  }

  /** The list an extending action starts from. */
  function OldItems(v: Value): seq<string>
  {
    if v.Strings? then v.items else []
  }

  /** ExtendAction: the attribute becomes a new list, the old one (or the
      empty list) followed by the values. */
  method Extend(ns: Namespace, dest: string, values: seq<string>)
    requires ns.Get(dest).NoneValue? || ns.Get(dest).Strings?
    modifies ns
    ensures ns.attrs == old(ns.attrs)[dest := Strings(OldItems(old(ns.Get(dest))) + values)]
  {
    var cur := EnsureValue(ns, dest, Strings([]));
    var items := cur.items;
    items := items + values;
    ns.Set(dest, Strings(items));
  }

  /** CommaSeparatedValues: the attribute is replaced by the pieces. */
  method StoreCommaSeparated(ns: Namespace, dest: string, values: Values)
    modifies ns
    ensures ns.attrs == old(ns.attrs)[dest := Strings(AllPieces(Listed(values)))]
  {
    var items := ParseValues(values);
    ns.Set(dest, Strings(items));
  }

  /** CommaSeparatedValuesAppend: the pieces extend the attribute. */
  method AppendCommaSeparated(ns: Namespace, dest: string, values: Values)
    requires ns.Get(dest).NoneValue? || ns.Get(dest).Strings?
    modifies ns
    ensures ns.attrs == old(ns.attrs)[dest := Strings(OldItems(old(ns.Get(dest))) + AllPieces(Listed(values)))]
  {
    var items := ParseValues(values);
    Extend(ns, dest, items);
  }

  // ---------------------------------------------------------------------
  // Negations and elements

  /** split_negations: pieces to (disabled, enabled), or a ValueError. It is
      not part of this model and is taken as a parameter. */
  type NegationSplitter = seq<string> -> Result<(seq<string>, seq<string>), string>

  /** split_elements: pieces to (disabled, neutral, enabled), or a
      ValueError; likewise a parameter. */
  type ElementSplitter = seq<string> -> Result<(seq<string>, seq<string>, seq<string>), string>

  /** CommaSeparatedNegations.parse_values as a function: the splits of
      every value concatenated componentwise; the first ValueError wins. */
  function Negated(xs: seq<string>, split: NegationSplitter): Result<(seq<string>, seq<string>), string>
  {
    if |xs| == 0 then Success(([], []))
    else
      match Negated(xs[..|xs| - 1], split)
      case Failure(e) => Failure(e)
      case Success(acc) =>
        match split(Pieces(xs[|xs| - 1]))
        case Failure(e) => Failure(e)
        case Success(r) => Success((acc.0 + r.0, acc.1 + r.1))
  }

  /** CommaSeparatedElements.parse_values as a function. */
  function Elemented(xs: seq<string>, split: ElementSplitter): Result<(seq<string>, seq<string>, seq<string>), string>
  {
    if |xs| == 0 then Success(([], [], []))
    else
      match Elemented(xs[..|xs| - 1], split)
      case Failure(e) => Failure(e)
      case Success(acc) =>
        match split(Pieces(xs[|xs| - 1]))
        case Failure(e) => Failure(e)
        case Success(r) => Success((acc.0 + r.0, acc.1 + r.1, acc.2 + r.2))
  }

  /** A ValueError for some value ends the parse: later values are not
      consulted. */
  lemma {:induction false} NegatedStopsAtFailure(xs: seq<string>, i: nat, split: NegationSplitter)
    requires i <= |xs| && Negated(xs[..i], split).Failure?
    ensures Negated(xs, split) == Negated(xs[..i], split)
    decreases |xs|
  {
    if i < |xs| {
      assert xs[..|xs| - 1][..i] == xs[..i];
      NegatedStopsAtFailure(xs[..|xs| - 1], i, split);
    } else {
      assert xs[..i] == xs;
    }
  }

  lemma {:induction false} ElementedStopsAtFailure(xs: seq<string>, i: nat, split: ElementSplitter)
    requires i <= |xs| && Elemented(xs[..i], split).Failure?
    ensures Elemented(xs, split) == Elemented(xs[..i], split)
    decreases |xs|
  {
    if i < |xs| {
      assert xs[..|xs| - 1][..i] == xs[..i];
      ElementedStopsAtFailure(xs[..|xs| - 1], i, split);
    } else {
      assert xs[..i] == xs;
    }
  }

  /** One loop of parse_values for negations. */
  method ParseNegations(values: Values, split: NegationSplitter) returns (r: Result<(seq<string>, seq<string>), string>)
    ensures r == Negated(Listed(values), split)
  {
    var xs := Listed(values);
    var disabled: seq<string> := [];
    var enabled: seq<string> := [];
    for i := 0 to |xs|
      invariant Negated(xs[..i], split) == Success((disabled, enabled))
    {
      assert xs[..i + 1][..i] == xs[..i] && xs[..i + 1][i] == xs[i];
      var s := split(Pieces(xs[i]));
      if s.Failure? {
        NegatedStopsAtFailure(xs, i + 1, split);
        return Failure(s.error);
      }
      disabled := disabled + s.value.0;
      enabled := enabled + s.value.1;
    }
    assert xs[..|xs|] == xs;
    r := Success((disabled, enabled));
  }

  /** One loop of parse_values for elements. */
  method ParseElements(values: Values, split: ElementSplitter) returns (r: Result<(seq<string>, seq<string>, seq<string>), string>)
    ensures r == Elemented(Listed(values), split)
  {
    var xs := Listed(values);
    var disabled: seq<string> := [];
    var neutral: seq<string> := [];
    var enabled: seq<string> := [];
    for i := 0 to |xs|
      invariant Elemented(xs[..i], split) == Success((disabled, neutral, enabled))
    {
      assert xs[..i + 1][..i] == xs[..i] && xs[..i + 1][i] == xs[i];
      var s := split(Pieces(xs[i]));
      if s.Failure? {
        ElementedStopsAtFailure(xs, i + 1, split);
        return Failure(s.error);
      }
      disabled := disabled + s.value.0;
      neutral := neutral + s.value.1;
      enabled := enabled + s.value.2;
    }
    assert xs[..|xs|] == xs;
    r := Success((disabled, neutral, enabled));
  }

  /** CommaSeparatedNegations: the attribute is replaced by the parsed
      pair; a ValueError of the splitter leaves it alone. */
  method StoreNegations(ns: Namespace, dest: string, values: Values, split: NegationSplitter) returns (err: Option<string>)
    modifies ns
    ensures match Negated(Listed(values), split)
            case Failure(e) => err == Some(e) && ns.attrs == old(ns.attrs)
            case Success(n) => err == None && ns.attrs == old(ns.attrs)[dest := Pair(n.0, n.1)]
  {
    var parsed := ParseNegations(values, split);
    if parsed.Failure? {
      return Some(parsed.error);
    }
    ns.Set(dest, Pair(parsed.value.0, parsed.value.1));
    err := None;
  }

  /** CommaSeparatedElements: the same for three lists. */
  method StoreElements(ns: Namespace, dest: string, values: Values, split: ElementSplitter) returns (err: Option<string>)
    modifies ns
    ensures match Elemented(Listed(values), split)
            case Failure(e) => err == Some(e) && ns.attrs == old(ns.attrs)
            case Success(n) => err == None && ns.attrs == old(ns.attrs)[dest := Triple(n.0, n.1, n.2)]
  {
    var parsed := ParseElements(values, split);
    if parsed.Failure? {
      return Some(parsed.error);
    }
    ns.Set(dest, Triple(parsed.value.0, parsed.value.1, parsed.value.2));
    err := None;
  }

  /** CommaSeparatedNegationsAppend: the old pair, or two empty lists, is
      concatenated componentwise with the parsed pair. A ValueError of the
      splitter is returned as the ArgumentTypeError message, after the
      default has been stored. */
  method AppendNegations(ns: Namespace, dest: string, values: Values, split: NegationSplitter) returns (err: Option<string>)
    requires ns.Get(dest).NoneValue? || ns.Get(dest).Pair?
    modifies ns
    ensures var before := old(ns.Get(dest));
            var start := if before.Pair? then before else Pair([], []);
            match Negated(Listed(values), split)
            case Failure(e) => err == Some(e) && ns.attrs == old(ns.attrs)[dest := start]
            case Success(n) => err == None && ns.attrs == old(ns.attrs)[dest := Pair(start.first + n.0, start.second + n.1)]
  {
    var prev := EnsureValue(ns, dest, Pair([], []));
    var parsed := ParseNegations(values, split);
    if parsed.Failure? {
      return Some(parsed.error);
    }
    ns.Set(dest, Pair(prev.first + parsed.value.0, prev.second + parsed.value.1));
    err := None;
  }

  /** CommaSeparatedElementsAppend: the same for three lists. */
  method AppendElements(ns: Namespace, dest: string, values: Values, split: ElementSplitter) returns (err: Option<string>)
    requires ns.Get(dest).NoneValue? || ns.Get(dest).Triple?
    modifies ns
    ensures var before := old(ns.Get(dest));
            var start := if before.Triple? then before else Triple([], [], []);
            match Elemented(Listed(values), split)
            case Failure(e) => err == Some(e) && ns.attrs == old(ns.attrs)[dest := start]
            case Success(n) => err == None && ns.attrs == old(ns.attrs)[dest := Triple(start.one + n.0, start.two + n.1, start.three + n.2)]
  {
    var prev := EnsureValue(ns, dest, Triple([], [], []));
    var parsed := ParseElements(values, split);
    if parsed.Failure? {
      return Some(parsed.error);
    }
    ns.Set(dest, Triple(prev.one + parsed.value.0, prev.two + parsed.value.1, prev.three + parsed.value.2));
    err := None;
  }

  // ---------------------------------------------------------------------
  // Booleans

  /** str.lower() on ASCII letters. */
  function Lower(s: string): (r: string)
    ensures |r| == |s|
    ensures forall i :: 0 <= i < |s| ==> r[i] == if 'A' <= s[i] <= 'Z' then (s[i] as int + 32) as char else s[i]
  {
    if |s| == 0 then [] else [if 'A' <= s[0] <= 'Z' then (s[0] as int + 32) as char else s[0]] + Lower(s[1..])
  }

  lemma LowerIdempotent(s: string)
    ensures Lower(Lower(s)) == Lower(s)
  {
    assert forall i :: 0 <= i < |s| ==> Lower(Lower(s))[i] == Lower(s)[i];
  }

  /** StoreBool.boolean: y, yes, true and n, no, false in any letter case;
      anything else is a ValueError naming the lowered value. */
  function Boolean(value: string): (r: Result<bool, string>)
    ensures r == Success(true) <==> Lower(value) in {"y", "yes", "true"}
    ensures r == Success(false) <==> Lower(value) in {"n", "no", "false"}
  {
    var v := Lower(value);
    if v == "y" || v == "yes" || v == "true" then Success(true)
    else if v == "n" || v == "no" || v == "false" then Success(false)
    else Failure("value " + PyFormat.Repr(v) + " must be [y|yes|true|n|no|false]")
  }

  /** The letter case of the value does not matter. */
  lemma BooleanIgnoresCase(value: string)
    ensures Boolean(value) == Boolean(Lower(value))
  {
    LowerIdempotent(value);
  }

  lemma YesInCapitals()
    ensures Boolean("YES") == Success(true)
  {
    assert Lower("YES") == "yes";
  }

  // ---------------------------------------------------------------------
  // Verbosity

  /** What one option string changes: -v raises, -q lowers, anything else
      (a long form) leaves the count alone. */
  function Change(option: Option<string>): (c: int)
    ensures -1 <= c <= 1
    ensures c == 1 <==> option == Some("-v")
    ensures c == -1 <==> option == Some("-q")
  {
    if option == Some("-v") then 1 else if option == Some("-q") then -1 else 0
  }

  /** The count an unset or None attribute starts from. */
  function CountOf(v: Value): int
  {
    if v.Count? then v.n else 0
  }

  /** Verbosity.__call__ */
  method Verbosity(ns: Namespace, dest: string, option: Option<string>)
    requires ns.Get(dest).NoneValue? || ns.Get(dest).Count?
    modifies ns
    ensures ns.attrs == old(ns.attrs)[dest := Count(CountOf(old(ns.Get(dest))) + Change(option))]
  {
    var change := Change(option);
    var v := ns.Get(dest);
    var count := if v == NoneValue then 0 else v.n;
    ns.Set(dest, Count(count + change));
  }

  /** How often x occurs in s. */
  function Occurrences<T(==)>(s: seq<T>, x: T): (n: nat)
    ensures n <= |s|
  {
    if |s| == 0 then 0 else Occurrences(s[..|s| - 1], x) + (if s[|s| - 1] == x then 1 else 0)
  }

  lemma {:induction false} OccurrencesPositive<T>(s: seq<T>, x: T)
    ensures Occurrences(s, x) > 0 <==> x in s
  {
    if |s| > 0 {
      OccurrencesPositive(s[..|s| - 1], x);
      assert s == s[..|s| - 1] + [s[|s| - 1]];
    }
  }

  /** The count after the option strings given in order, from an unset
      attribute. */
  function CountAfter(options: seq<Option<string>>): int
  {
    if |options| == 0 then 0 else CountAfter(options[..|options| - 1]) + Change(options[|options| - 1])
  }

  /** Repeated -v and -q options leave the number of -v less the number of
      -q. */
  lemma {:induction false} CountAfterIsDifference(options: seq<Option<string>>)
    ensures CountAfter(options) == Occurrences(options, Some("-v")) - Occurrences(options, Some("-q"))
  {
    if |options| > 0 {
      CountAfterIsDifference(options[..|options| - 1]);
    }
  }

  /** sys.argv[1:] */
  function Args(argv: seq<string>): seq<string>
  {
    if |argv| == 0 then [] else argv[1..]
  }

  /** The initial verbosity ArgumentParser computes from sys.argv[1:]: -1 when
      -q or --quiet is present, otherwise the number of -v and --verbose;
      0 when verbosity is switched off. */
  function InitialVerbosity(verbose: bool, argv: seq<string>): (v: int)
    ensures !verbose ==> v == 0
    ensures verbose ==> (v == -1 <==> "-q" in Args(argv) || "--quiet" in Args(argv))
    ensures verbose && "-q" !in Args(argv) && "--quiet" !in Args(argv) ==>
      v == Occurrences(Args(argv), "-v") + Occurrences(Args(argv), "--verbose")
    ensures verbose && v != -1 ==> (v > 0 <==> "-v" in Args(argv) || "--verbose" in Args(argv))
    ensures v >= -1
  {
    var args := Args(argv);
    OccurrencesPositive(args, "-q");
    OccurrencesPositive(args, "--quiet");
    OccurrencesPositive(args, "-v");
    OccurrencesPositive(args, "--verbose");
    if !verbose then 0
    else if Occurrences(args, "-q") + Occurrences(args, "--quiet") > 0 then -1
    else Occurrences(args, "-v") + Occurrences(args, "--verbose")
  }

  // ---------------------------------------------------------------------
  // Subcommand abbreviation

  predicate IsPrefix(p: string, s: string) {
    |p| <= |s| && s[..|p|] == p
  }

  /** `[x for x in choices if x.startswith(value)]` */
  function Starting(choices: seq<string>, value: string): (r: seq<string>)
    ensures forall c :: c in r <==> c in choices && IsPrefix(value, c)
  {
    if |choices| == 0 then []
    else (if IsPrefix(value, choices[0]) then [choices[0]] else []) + Starting(choices[1..], value)
  }

  /** The subcommand a first value stands for: itself when it is a choice,
      else the only choice it is a prefix of, else itself unchanged (the
      choice check that follows rejects it). */
  function Abbreviate(value: string, choices: seq<string>): (r: string)
    ensures value in choices ==> r == value
    ensures r != value ==> r in choices && IsPrefix(value, r) && forall c :: c in choices && IsPrefix(value, c) ==> c == r
  {
    if value in choices then value
    else
      var cmds := Starting(choices, value);
      if |cmds| == 1 then cmds[0] else value
  }

  predicate Distinct(choices: seq<string>) {
    forall i, j :: 0 <= i < j < |choices| ==> choices[i] != choices[j]
  }

  lemma {:induction false} StartingSingle(choices: seq<string>, value: string, c: string)
    requires Distinct(choices) && c in choices && IsPrefix(value, c)
    requires forall d :: d in choices && IsPrefix(value, d) ==> d == c
    ensures Starting(choices, value) == [c]
  {
    if choices[0] == c {
      assert c !in choices[1..];
      var t := Starting(choices[1..], value);
      if |t| > 0 {
        assert t[0] in choices[1..];
      }
    } else {
      StartingSingle(choices[1..], value, c);
    }
  }

  /** The choices are the keys of a dict, so distinct: a value that is a
      prefix of exactly one choice, and not itself a choice, is completed
      to that choice. */
  lemma AbbreviateUnique(value: string, choices: seq<string>, c: string)
    requires Distinct(choices) && value !in choices && c in choices && IsPrefix(value, c)
    requires forall d :: d in choices && IsPrefix(value, d) ==> d == c
    ensures Abbreviate(value, choices) == c
  {
    StartingSingle(choices, value, c);
  }

  // ---------------------------------------------------------------------
  // Subparsers

  /** description.split('\n', 1)[0] */
  function FirstLine(s: string): (r: string)
    ensures '\n' !in r && IsPrefix(r, s)
    ensures |r| < |s| ==> s[|r|] == '\n'
  {
    if |s| == 0 || s[0] == '\n' then [] else [s[0]] + FirstLine(s[1..])
  }

  /** The help and description a subparser is created with: a missing
      description takes the help, a missing help takes the first line of
      the description. */
  function LinkHelp(help: Option<string>, description: Option<string>): (r: (Option<string>, Option<string>))
    ensures help.Some? ==> r.0 == help
    ensures description.Some? ==> r.1 == description
    ensures help.None? && description.Some? ==> r.0 == Some(FirstLine(description.value))
    ensures description.None? ==> r.1 == help
  {
    match description
    case None => (help, help)
    case Some(d) => if help.None? then (Some(FirstLine(d)), description) else (help, description)
  }

  /** Linking is settled after one application, and leaves either both or
      neither present. */
  lemma LinkHelpSettles(help: Option<string>, description: Option<string>)
    ensures var r := LinkHelp(help, description);
            LinkHelp(r.0, r.1) == r && (r.0.Some? <==> r.1.Some?)
  {
  }

  /** A subparser as created: its name, help, description and parser
      class. */
  datatype Subparser = Subparser(name: string, help: Option<string>, description: Option<string>, parserClass: string)

  /** _SubParser: the subparsers action with its parser class and the
      parsers added so far. */
  class SubParsers {
    var parserClass: string
    var parsers: seq<Subparser>

    constructor(parserClass: string)
      ensures this.parserClass == parserClass && parsers == []
    {
      this.parserClass := parserClass;
      parsers := [];
    }

    /** _SubParser.add_parser: help and description are linked, the parser
        is created with `cls` if given, and the action's parser class is
        restored afterwards. */
    method AddParser(name: string, cls: Option<string>, help: Option<string>, description: Option<string>) returns (p: Subparser)
      modifies this
      ensures parserClass == old(parserClass)
      ensures p == Subparser(name, LinkHelp(help, description).0, LinkHelp(help, description).1, cls.GetOr(old(parserClass)))
      ensures parsers == old(parsers) + [p]
    {
      var h := help;
      var d := description;
      if d.None? {
        if h.Some? {
          d := h;
        }
      } else if h.None? {
        h := Some(FirstLine(d.value));
      }
      var orig := parserClass;
      if cls.Some? {
        parserClass := cls.value;
      }
      p := Subparser(name, h, d, parserClass);
      parsers := parsers + [p];
      parserClass := orig;
    }
  }
}
