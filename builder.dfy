/** read_bash_dict of snakeoil/bash.py: the assignment loop over the tokens
    of a bash_parser, its empty-assignment lookahead, the protected overlay
    it writes into, and the BashParseError it raises. */
module Builder {
  import opened Wrappers
  import opened Interpolate
  import opened Spans
  import opened Parser
  import opened PyFormat
  import CommentFilter

  /** str.isspace(): non-empty and nothing but whitespace. */
  predicate IsSpaceOnly(k: string) {
    k != [] && forall i :: 0 <= i < |k| ==> CommentFilter.IsSpace(k[i])
  }

  /** The fixed parts of the message of a BashParseError. */
  const Opening: string := "error parsing '"
  const OnLine: string := "' on or before line "
  const ErrSeparator: string := ": err "

  /** BashParseError(filename, line, errmsg) and the message it carries. */
  datatype BashParseError = BashParseError(file: string, line: nat, errmsg: Option<string>) {
    function Message(): (m: string)
      ensures |m| > |Opening| + |file| && m[..|Opening|] == Opening && m[|Opening|..|Opening| + |file|] == file
      ensures errmsg.Some? ==> m[|Opening| + |file|..] == OnLine + Decimal(line) + (ErrSeparator + errmsg.value)
      ensures errmsg.None? ==> m[|Opening| + |file|..] == OnLine + Decimal(line)
    {
      var n := Decimal(line);
      var rest := match errmsg case Some(e) => ErrSeparator + e case None => [];
      Framed(Opening, file, OnLine, n, rest);
      assert n + [] == n;
      (Opening + file) + ((OnLine + n) + rest)
    }
  }

  /** Where the pieces of a concatenation sit in it. */
  lemma Framed<T>(pre: seq<T>, name: seq<T>, mid: seq<T>, n: seq<T>, rest: seq<T>)
    ensures var m := (pre + name) + ((mid + n) + rest);
      && |m| == |pre| + |name| + |mid| + |n| + |rest|
      && m[..|pre|] == pre && m[|pre|..|pre| + |name|] == name
      && m[|pre| + |name|..] == (mid + n) + rest
  {
  }

  /** Two pushes onto the front of a sequence. */
  lemma PushTwice<T>(x: T, y: T, s: seq<T>)
    ensures [x] + ([y] + s) == [x, y] + s
  {
  }

  /** The error of the loop before it is wrapped: the parser's line number
      and the message. */
  type LoopError = (nat, string)

  /** The end of one round of the loop: go on with the new parser state and
      overlay, or leave it with the overlay or an error. */
  datatype Outcome =
    | Continue(p: PState, d: map<string, string>)
    | Stop(r: Result<map<string, string>, LoopError>)

  /** The text of the error raised when the token after a key is not `=`. */
  function ExpectingEquals(eq: Option<string>): string
  {
    "got token " + ReprOption(eq) + ", was expecting '='"
  }

  /** The value and its lookahead: if the token after the value is `=`, the
      value is the key of the next assignment and the current key is bound to
      the empty string; otherwise the lookahead is pushed back, even None. */
  function Lookahead(cuts: Cuts, p: PState, base: Env, d: map<string, string>, k: string, v: string): (o: Outcome)
    ensures o.Continue? ==> Size(o.p) <= Size(p) + 1
    ensures o.Continue? ==> o.d.Keys == d.Keys + {k} && (o.d[k] == v || o.d[k] == [])
    ensures o.Continue? ==> forall j :: j in d && j != k ==> o.d[j] == d[j]
    ensures o.Stop? ==> o.r.Failure?
  {
    var (next, p4) := GetTokenResult(cuts, p, Overlay(base, d));
    match next
    case Failure(m) => Stop(Failure((p4.lineno, m)))
    case Success(n) =>
      if n == Some("=") then Continue(p4.(pushback := [Some(v), Some("=")] + p4.pushback), d[k := []])
      else Continue(p4.(pushback := [n] + p4.pushback), d[k := v])
  }

  /** After a key: the `=` check, the value (None read as the empty string),
      then the lookahead. */
  function AfterKey(cuts: Cuts, p: PState, base: Env, d: map<string, string>, k: string): (o: Outcome)
    ensures o.Continue? ==> Size(o.p) <= Size(p)
    ensures o.Continue? ==> o.d.Keys == d.Keys + {k}
    ensures o.Continue? ==> forall j :: j in d && j != k ==> o.d[j] == d[j]
    ensures o.Stop? ==> o.r.Failure?
  {
    var (eq, p2) := GetTokenResult(cuts, p, Overlay(base, d));
    match eq
    case Failure(m) => Stop(Failure((p2.lineno, m)))
    case Success(e) =>
      if e != Some("=") then Stop(Failure((p2.lineno, ExpectingEquals(e))))
      else
        var (val, p3) := GetTokenResult(cuts, p2, Overlay(base, d));
        match val
        case Failure(m) => Stop(Failure((p3.lineno, m)))
        case Success(v) => Lookahead(cuts, p3, base, d, k, v.GetOr([]))
  }

  /** One round of the loop: a key token, None ending the loop, a
      whitespace-only key skipped, anything else starting an assignment. A
      ValueError of the parser is returned with the line it reached. */
  function Assignment(cuts: Cuts, p: PState, base: Env, d: map<string, string>): (o: Outcome)
    ensures o.Continue? ==> Size(o.p) < Size(p)
    ensures o.Continue? ==> d.Keys <= o.d.Keys
    ensures o.Stop? && o.r.Success? ==> o.r.value == d
  {
    var (key, p1) := GetTokenResult(cuts, p, Overlay(base, d));
    match key
    case Failure(m) => Stop(Failure((p1.lineno, m)))
    case Success(None) => Stop(Success(d))
    case Success(Some(k)) =>
      if IsSpaceOnly(k) then Continue(p1, d) else AfterKey(cuts, p1, base, d, k)
  }

  /** The loop of read_bash_dict from parser state p with overlay d over the
      protected base. Every round reads at least one token more than it
      pushes back, so the loop ends. A binding once made is never removed. */
  function Run(cuts: Cuts, p: PState, base: Env, d: map<string, string>): (r: Result<map<string, string>, LoopError>)
    ensures r.Success? ==> d.Keys <= r.value.Keys
    decreases Size(p)
  {
    match Assignment(cuts, p, base, d)
    case Stop(r) => r
    case Continue(p', d') => Run(cuts, p', base, d')
  }

  /** Once the lexer has nothing left the loop ends with the overlay. */
  lemma RunStopsAtEnd(cuts: Cuts, p: PState, base: Env, d: map<string, string>)
    requires p.pushback == [] && p.input == []
    ensures Run(cuts, p, base, d) == Success(d)
  {
    GetTokenAtEnd(cuts, p, Overlay(base, d));
  }

  /** A None pushed back by the lookahead ends the loop at once. */
  lemma RunPushedNone(cuts: Cuts, p: PState, base: Env, d: map<string, string>)
    ensures Run(cuts, p.(pushback := [None] + p.pushback), base, d) == Success(d)
  {
    GetTokenPushback(cuts, p, None, Overlay(base, d));
  }

  /** A whitespace-only key token is skipped. */
  lemma RunSkipsBlankKey(cuts: Cuts, p: PState, base: Env, d: map<string, string>, k: string, p1: PState)
    requires GetTokenResult(cuts, p, Overlay(base, d)) == (Success(Some(k)), p1)
    requires IsSpaceOnly(k)
    ensures Run(cuts, p, base, d) == Run(cuts, p1, base, d)
  {
  }

  /** A ValueError while reading a key ends the loop with that message and
      the line the parser reached. */
  lemma RunKeyFails(cuts: Cuts, p: PState, base: Env, d: map<string, string>, m: string, p1: PState)
    requires GetTokenResult(cuts, p, Overlay(base, d)) == (Failure(m), p1)
    ensures Run(cuts, p, base, d) == Failure((p1.lineno, m))
  {
  }

  /** A key followed by anything but `=` ends the loop with the
      "was expecting '='" error at the line reached after that token. */
  lemma RunMissingEquals(cuts: Cuts, p: PState, base: Env, d: map<string, string>, k: string, p1: PState, e: Option<string>, p2: PState)
    requires GetTokenResult(cuts, p, Overlay(base, d)) == (Success(Some(k)), p1) && !IsSpaceOnly(k)
    requires GetTokenResult(cuts, p1, Overlay(base, d)) == (Success(e), p2) && e != Some("=")
    ensures Run(cuts, p, base, d) == Failure((p2.lineno, "got token " + ReprOption(e) + ", was expecting '='"))
  {
  }

  /** A key as the last token: the `=` check sees None. */
  lemma KeyAtEnd(cuts: Cuts, p: PState, k: string, base: Env, d: map<string, string>)
    requires p.pushback == [Some(k)] && p.input == [] && !IsSpaceOnly(k)
    ensures Run(cuts, p, base, d) == Failure((p.lineno, "got token None, was expecting '='"))
  {
    var p1 := p.(pushback := []);
    GetTokenAtEnd(cuts, p1, Overlay(base, d));
    RunMissingEquals(cuts, p, base, d, k, p1, None, p1.(state := Eof));
    assert "got token " + ReprOption(None) + ", was expecting '='" == "got token None, was expecting '='";
  }

  /** `key = value` followed by anything but `=`: the key is bound to the
      value (the empty string for None) and the lookahead is read next. */
  lemma RunAssigns(cuts: Cuts, p: PState, base: Env, d: map<string, string>, k: string, v: Option<string>, n: Option<string>,
                   p1: PState, p2: PState, p3: PState, p4: PState)
    requires GetTokenResult(cuts, p, Overlay(base, d)) == (Success(Some(k)), p1) && !IsSpaceOnly(k)
    requires GetTokenResult(cuts, p1, Overlay(base, d)) == (Success(Some("=")), p2)
    requires GetTokenResult(cuts, p2, Overlay(base, d)) == (Success(v), p3)
    requires GetTokenResult(cuts, p3, Overlay(base, d)) == (Success(n), p4) && n != Some("=")
    ensures Run(cuts, p, base, d) == Run(cuts, p4.(pushback := [n] + p4.pushback), base, d[k := v.GetOr([])])
  {
  }

  /** `key = value =`: the value is the next key, so the key gets the empty
      string and the value and the `=` are read again, value first. */
  lemma RunEmptyAssign(cuts: Cuts, p: PState, base: Env, d: map<string, string>, k: string, v: Option<string>,
                       p1: PState, p2: PState, p3: PState, p4: PState)
    requires GetTokenResult(cuts, p, Overlay(base, d)) == (Success(Some(k)), p1) && !IsSpaceOnly(k)
    requires GetTokenResult(cuts, p1, Overlay(base, d)) == (Success(Some("=")), p2)
    requires GetTokenResult(cuts, p2, Overlay(base, d)) == (Success(v), p3)
    requires GetTokenResult(cuts, p3, Overlay(base, d)) == (Success(Some("=")), p4)
    ensures Run(cuts, p, base, d) ==
      Run(cuts, p4.(pushback := [Some(v.GetOr([])), Some("=")] + p4.pushback), base, d[k := []])
  {
  }

  /** A key, `=`, value and a second `=` that were all pushed back: the key
      gets the empty string and the value and the `=` are read again. */
  lemma PushedEmptyAssign(cuts: Cuts, p: PState, k: string, v: string, base: Env, d: map<string, string>)
    requires |p.pushback| >= 4 && !IsSpaceOnly(k)
    requires p.pushback[0] == Some(k) && p.pushback[1] == Some("=") && p.pushback[2] == Some(v) && p.pushback[3] == Some("=")
    ensures Run(cuts, p, base, d) == Run(cuts, p.(pushback := p.pushback[2..]), base, d[k := []])
  {
    var p1 := p.(pushback := p.pushback[1..]);
    var p2 := p.(pushback := p.pushback[2..]);
    var p3 := p.(pushback := p.pushback[3..]);
    var p4 := p.(pushback := p.pushback[4..]);
    assert p1.pushback[1..] == p2.pushback && p2.pushback[1..] == p3.pushback && p3.pushback[1..] == p4.pushback;
    RunEmptyAssign(cuts, p, base, d, k, Some(v), p1, p2, p3, p4);
    assert [Some(v), Some("=")] + p4.pushback == p2.pushback;
  }

  /** The last assignment of the input, its key, `=` and value pushed back:
      the lookahead reads None, which ends the loop. */
  lemma PushedLastAssign(cuts: Cuts, p: PState, k: string, v: Option<string>, base: Env, d: map<string, string>)
    requires p.pushback == [Some(k), Some("="), v] && p.input == [] && !IsSpaceOnly(k)
    ensures Run(cuts, p, base, d) == Success(d[k := v.GetOr([])])
  {
    var e := Overlay(base, d);
    var p3 := p.(pushback := []);
    var p2 := p3.(pushback := [v]);
    var p1 := p3.(pushback := [Some("="), v]);
    GetTokenPushback(cuts, p2, v, e);
    GetTokenPushback(cuts, p1, Some("="), e);
    GetTokenPushback(cuts, p, Some(k), e);
    assert p2 == p3.(pushback := [v] + p3.pushback);
    assert p1 == p2.(pushback := [Some("=")] + p2.pushback);
    assert p == p1.(pushback := [Some(k)] + p1.pushback);
    GetTokenAtEnd(cuts, p3, e);
    var p4 := p3.(state := Eof);
    RunAssigns(cuts, p, base, d, k, v, None, p1, p2, p3, p4);
    RunPushedNone(cuts, p4, base, d[k := v.GetOr([])]);
  }

  /** The tokens `a = b = c`, as read from `a= b=c`, left in the pushback:
      a is bound to the empty string and b to c. */
  lemma EmptyAssignExample(cuts: Cuts, p: PState, base: Env, a: string, b: string, c: string)
    requires p.pushback == [Some(a), Some("="), Some(b), Some("="), Some(c)] && p.input == []
    requires !IsSpaceOnly(a) && !IsSpaceOnly(b)
    ensures Run(cuts, p, base, map[]) == Success(map[a := [], b := c])
  {
    PushedEmptyAssign(cuts, p, a, b, base, map[]);
    var q := p.(pushback := p.pushback[2..]);
    assert q.pushback == [Some(b), Some("="), Some(c)];
    PushedLastAssign(cuts, q, b, Some(c), base, map[a := []]);
  }

  /** Interpolation reads the overlay first: a key assigned earlier in the
      file shadows the caller's binding, any other key is looked up in the
      caller's environment. */
  lemma OverlayShadowsBase(base: Env, d: map<string, string>, k: string)
    ensures k in d ==> Replacement(k, Overlay(base, d)) == Success(d[k])
    ensures k !in d ==> Replacement(k, Overlay(base, d)) == Replacement(k, base)
  {
  }

  /** A value token `$NAME` reads as the string NAME was last assigned in the
      file, or else as the caller's binding. */
  lemma ValueReadsOverlay(cuts: Cuts, p: PState, base: Env, d: map<string, string>, k: string, line: nat, v: string)
    requires p.pushback == [] && p.state == Blank && p.input != []
    requires p.input[0] == Read(WordSteps("$" + k) + [Step([], Blank)], line)
    requires IsName(k) && '\\' !in v
    requires if k in d then d[k] == v else k in base && base[k] == Str(v)
    ensures GetTokenResult(cuts, p, Overlay(base, d)).0 == Success(Some(v))
  {
    OverlayShadowsBase(base, d, k);
    ReferenceToken(cuts, k, Overlay(base, d), v);
  }

  /** Where read_bash_dict reads from: a path it opens itself, or a stream
      the caller opened; `name` is what the error message shows. */
  datatype Source = FromPath(path: string) | FromStream(name: string) {
    function Name(): string {
      match this
      case FromPath(path) => path
      case FromStream(name) => name
    }
  }

  /** The result of read_bash_dict: the overlay of assignments (the plain
      dictionary when no vars were given, which is an overlay over nothing),
      or the error wrapped as a BashParseError naming the source. */
  function DictResult(cuts: Cuts, source: Source, input: seq<Lexed>, vars: Option<Env>): Result<map<string, string>, BashParseError>
  {
    match Run(cuts, PState(Blank, [], input, 1), vars.GetOr(map[]), map[])
    case Success(d) => Success(d)
    case Failure((line, msg)) => Failure(BashParseError(source.Name(), line, Some(msg)))
  }

  /** A file handle; only whether it was closed is modelled. */
  class Handle {
    var closed: bool

    constructor()
      ensures !closed
    {
      closed := false;
    }

    method Close()
      modifies this
      ensures closed
    {
      closed := true;
    }
  }

  /** The lookahead and its pushes. */
  method ReadLookahead(s: BashParser, d: ProtectedDict, k: string, v: string) returns (failure: Option<LoopError>)
    requires s.env == d && s.token == []
    modifies s, d
    ensures s.token == []
    ensures match Lookahead(s.cuts, old(s.Snapshot()), d.base, old(d.overlay), k, v)
      case Stop(r) => failure == Some(r.error)
      case Continue(p, dd) => failure == None && s.Snapshot() == p && d.overlay == dd
  {
    ghost var p := s.Snapshot();
    var next := s.GetToken();
    ghost var p4 := s.Snapshot();
    assert (next, p4) == GetTokenResult(s.cuts, p, Overlay(d.base, old(d.overlay)));
    if next.Failure? {
      return Some((s.lineno, next.error));
    }
    var val := v;
    if next.value == Some("=") {
      s.PushToken(next.value);
      s.PushToken(Some(val));
      val := [];
      PushTwice(Some(v), Some("="), p4.pushback);
      assert s.Snapshot() == p4.(pushback := [Some(v), Some("=")] + p4.pushback);
    } else {
      s.PushToken(next.value);
    }
    d.Set(k, val);
    failure := None;
  }

  /** One assignment after its key: the `=` check, the value, the lookahead. */
  method ReadAssignment(s: BashParser, d: ProtectedDict, k: string) returns (failure: Option<LoopError>)
    requires s.env == d && s.token == []
    modifies s, d
    ensures s.token == []
    ensures match AfterKey(s.cuts, old(s.Snapshot()), d.base, old(d.overlay), k)
      case Stop(r) => failure == Some(r.error)
      case Continue(p, dd) => failure == None && s.Snapshot() == p && d.overlay == dd
  {
    var eq := s.GetToken();
    if eq.Failure? {
      return Some((s.lineno, eq.error));
    }
    if eq.value != Some("=") {
      return Some((s.lineno, ExpectingEquals(eq.value)));
    }
    var val := s.GetToken();
    if val.Failure? {
      return Some((s.lineno, val.error));
    }
    failure := ReadLookahead(s, d, k, val.value.GetOr([]));
  }

  /** One round of the loop of read_bash_dict: a key token, skipped when it is
      blank, and otherwise the assignment it starts. */
  method Round(s: BashParser, d: ProtectedDict) returns (stop: Option<Result<map<string, string>, LoopError>>)
    requires s.env == d && s.token == []
    modifies s, d
    ensures s.token == []
    ensures match Assignment(s.cuts, old(s.Snapshot()), d.base, old(d.overlay))
      case Stop(r) => stop == Some(r)
      case Continue(p, dd) => stop == None && s.Snapshot() == p && d.overlay == dd
  {
    var key := s.GetToken();
    if key.Failure? {
      return Some(Failure((s.lineno, key.error)));
    }
    if key.value == None {
      return Some(Success(d.overlay));
    }
    var k := key.value.value;
    if IsSpaceOnly(k) {
      return None;
    }
    var failure := ReadAssignment(s, d, k);
    if failure.Some? {
      return Some(Failure(failure.value));
    }
    return None;
  }

  /** read_bash_dict over what shlex produces from the source. `vars` is
      the caller's environment, which is never written; `cuts` is the cut
      table the parser records spans with (`AsWritten` is the program as it
      stands, `Corrected` the repaired one). A source opened from a path is
      closed on every exit, a stream passed in is left open. */
  method ReadBashDict(cuts: Cuts, source: Source, f: Handle, input: seq<Lexed>, vars: Option<Env>) returns (r: Result<map<string, string>, BashParseError>)
    modifies f
    ensures r == DictResult(cuts, source, input, vars)
    ensures source.FromPath? ==> f.closed
    ensures source.FromStream? ==> f.closed == old(f.closed)
  {
    var base := vars.GetOr(map[]);
    var d := new ProtectedDict(base);
    var s := new BashParser(cuts, d, input);
    ghost var whole := Run(cuts, s.Snapshot(), base, map[]);
    var outcome: Result<map<string, string>, LoopError>;
    while true
      invariant fresh(s) && fresh(d) && s.env == d && s.cuts == cuts && d.base == base && s.token == []
      invariant Run(cuts, s.Snapshot(), base, d.overlay) == whole
      invariant f.closed == old(f.closed)
      decreases Size(s.Snapshot())
    {
      var stop := Round(s, d);
      if stop.Some? {
        outcome := stop.value;
        break;
      }
    }
    if source.FromPath? {
      f.Close();
    }
    r := match outcome
      case Success(dd) => Success(dd)
      case Failure((line, msg)) => Failure(BashParseError(source.Name(), line, Some(msg)));
  }
}
