/** bash_parser of snakeoil/bash.py as a class, and the ProtectedDict it
    interpolates against.

    The parser is driven by what shlex would produce from the file: a
    sequence of lexed items, one per call of shlex's token reader. A `Read`
    item is the trace of one read_token call (see module Spans) together with
    the line number shlex has reached after it; a `Pushed` item is a character
    the lexer pushed back at the end of a word (the `=` of `A=b`), which
    get_token returns as it stands; a `LexError` is a ValueError raised by
    shlex (an unterminated quote, say). The parser's own pushback, which
    read_bash_dict fills, is consulted first. */
module Parser {
  import opened Wrappers
  import opened Interpolate
  import opened Spans

  /** The environment a ProtectedDict presents: a key of the overlay maps to
      its string, any other key to its binding in the base. */
  function Overlay(base: Env, overlay: map<string, string>): (v: Env)
    ensures v.Keys == base.Keys + overlay.Keys
    ensures forall k :: k in overlay ==> v[k] == Str(overlay[k])
    ensures forall k :: k in base && k !in overlay ==> v[k] == base[k]
  {
    map k | k in base.Keys + overlay.Keys :: if k in overlay then Str(overlay[k]) else base[k]
  }

  /** ProtectedDict (snakeoil.mappings) as read_bash_dict uses it: writes go
      to the overlay (`d.new`), lookups see the overlay first and then the
      protected base, which is never written. */
  class ProtectedDict {
    const base: Env
    var overlay: map<string, string>

    constructor(base: Env)
      ensures this.base == base && overlay == map[]
    {
      this.base := base;
      overlay := map[];
    }

    function View(): Env
      reads this
    {
      Overlay(base, overlay)
    }

    /** d[key] = val */
    method Set(key: string, val: string)
      modifies this
      ensures overlay == old(overlay)[key := val]
    {
      overlay := overlay[key := val];
    }
  }

  /** One item of what shlex produces. */
  datatype Lexed =
    | Read(steps: seq<Step>, line: nat)
    | Pushed(text: string)
    | LexError(msg: string, line: nat)

  /** The part of the parser state that outlives a token: the lexer state, the
      pushback, the remaining input and the line number. */
  datatype PState = PState(state: QState, pushback: seq<Option<string>>, input: seq<Lexed>, lineno: nat)

  /** What is left to read. */
  function Size(p: PState): nat
  {
    |p.pushback| + |p.input|
  }

  /** The trace of shlex's token reader once the input is exhausted: the state
      becomes None and nothing is read. */
  const AtEnd: seq<Step> := [Step([], Eof)]

  /** get_token: the next token and the parser state after it. A token from
      the pushback or a lexer-pushed character is returned as it stands; a
      trace is assembled by read_token against the environment; a ValueError
      becomes its message. Past the end of the input every call returns None. */
  function GetTokenResult(cuts: Cuts, p: PState, env: Env): (res: (Result<Option<string>, string>, PState))
    ensures Size(res.1) <= Size(p)
    ensures res.0 != Success(None) ==> Size(res.1) < Size(p)
    ensures p.pushback != [] ==> res == (Success(p.pushback[0]), p.(pushback := p.pushback[1..]))
    ensures p.pushback == [] ==> res.1.pushback == []
  {
    if |p.pushback| > 0 then
      (Success(p.pushback[0]), p.(pushback := p.pushback[1..]))
    else if |p.input| == 0 then
      (Success(None), p.(state := Eof))
    else
      var rest := p.input[1..];
      match p.input[0]
      case Pushed(text) => (Success(Some(text)), p.(input := rest))
      case LexError(msg, line) => (Failure(msg), p.(input := rest, lineno := line))
      case Read(steps, line) =>
        var (t, st) := ReadTokenResult(cuts, p.state, steps, env);
        var r := match t
          case Success(o) => Success(o)
          case Failure(e) => Failure(e.Message());
        (r, p.(state := st, input := rest, lineno := line))
  }

  /** Past the end of the input shlex's token reader leaves the lexer at end
      of input, whatever state it was in, and returns None from between
      tokens. */
  lemma ReadAtEnd(cuts: Cuts, state: QState, env: Env)
    ensures ReadTokenResult(cuts, state, AtEnd, env).1 == Eof
    ensures state == Blank || state == Eof ==> ReadTokenResult(cuts, state, AtEnd, env).0 == Success(None)
  {
    var r := Replay(cuts, Start(state), if state == Eof then [] else AtEnd);
    ReplayOne(cuts, Start(state), Step([], Eof));
    assert Final(state, AtEnd) == Eof;
    assert r.token == [];
  }

  /** Past the end of the input get_token returns None and the lexer stays at
      end of input. */
  lemma GetTokenAtEnd(cuts: Cuts, p: PState, env: Env)
    requires p.pushback == [] && p.input == []
    ensures GetTokenResult(cuts, p, env) == (Success(None), p.(state := Eof))
  {
  }

  /** A token pushed back is read again before anything else, whatever the
      lexer would produce. */
  lemma GetTokenPushback(cuts: Cuts, p: PState, t: Option<string>, env: Env)
    ensures GetTokenResult(cuts, p.(pushback := [t] + p.pushback), env) == (Success(t), p)
  {
    assert ([t] + p.pushback)[1..] == p.pushback;
  }

  /** A pushed-back token and the same token pushed by the lexer read the
      same. */
  lemma PushbackLikeLexer(cuts: Cuts, p: PState, text: string, env: Env)
    requires p.pushback == []
    ensures GetTokenResult(cuts, p.(pushback := [Some(text)]), env) ==
            GetTokenResult(cuts, p.(input := [Pushed(text)] + p.input), env)
  {
    assert ([Pushed(text)] + p.input)[1..] == p.input;
    assert [Some(text)][1..] == [];
  }

  class BashParser {
    /** The cut transitions of the span recorder. */
    const cuts: Cuts
    /** The environment references are interpolated against. */
    const env: ProtectedDict
    var state: QState
    var token: string
    /** `__pos`: where the last span was cut. */
    var pos: nat
    /** `changed_state`: the spans cut while reading the current token. */
    var changedState: seq<Span>
    var pushback: seq<Option<string>>
    var input: seq<Lexed>
    var lineno: nat

    function Snapshot(): PState
      reads this
    {
      PState(state, pushback, input, lineno)
    }

    function Recording(): Recorder
      reads this
    {
      Recorder(state, token, pos, changedState)
    }

    /** A parser over `input`: the lexer between tokens, line 1, nothing
        pushed back. */
    constructor(cuts: Cuts, env: ProtectedDict, input: seq<Lexed>)
      ensures this.cuts == cuts && this.env == env
      ensures Snapshot() == PState(Blank, [], input, 1) && token == []
    {
      this.cuts := cuts;
      this.env := env;
      state := Blank;
      token := [];
      pos := 0;
      changedState := [];
      pushback := [];
      this.input := input;
      lineno := 1;
    }

    /** __setattr__('state', val), the recorder hook. */
    method SetState(val: QState)
      requires pos <= |token|
      modifies this
      ensures Recording() == Spans.SetState(cuts, old(Recording()), val)
      ensures pushback == old(pushback) && input == old(input) && lineno == old(lineno)
    {
      if Cut(cuts, state, val) {
        var strl := |token|;
        if pos != strl {
          changedState := changedState + [Span(state, token[pos..])];
        }
        pos := strl;
      }
      state := val;
    }

    /** shlex.read_token as the trace describes it: each step grows the token
        and assigns the state through the recorder hook. Returns shlex's
        `quoted` flag. */
    method Lex(steps: seq<Step>) returns (quoted: bool)
      requires Valid(Recording())
      modifies this
      ensures Recording() == Replay(cuts, old(Recording()), steps)
      ensures quoted == Quoted(old(state), steps)
      ensures pushback == old(pushback) && input == old(input) && lineno == old(lineno)
    {
      quoted := false;
      var i := 0;
      while i < |steps|
        invariant 0 <= i <= |steps| && Valid(Recording())
        invariant Replay(cuts, old(Recording()), steps) == Replay(cuts, Recording(), steps[i..])
        invariant Quoted(old(state), steps) == (quoted || Quoted(state, steps[i..]))
        invariant pushback == old(pushback) && input == old(input) && lineno == old(lineno)
      {
        if state == DQuote || state == SQuote {
          quoted := true;
        }
        var before := Recording();
        token := token + steps[i].read;
        SetState(steps[i].next);
        assert steps[i..][0] == steps[i] && steps[i..][1..] == steps[i + 1..];
        assert Recording() == Advance(cuts, before, steps[i]);
        i := i + 1;
      }
      assert steps[i..] == [];
    }

    /** The assembly loop of read_token. */
    method AssembleSpans(spans: seq<Span>) returns (r: Result<string, InterpError>)
      ensures r == Assemble(spans, env.View())
    {
      var e := env.View();
      var tok: string := [];
      assert spans[0..] == spans;
      JoinEmpty(Assemble(spans, e));
      for j := 0 to |spans|
        invariant Assemble(spans, e) == Join(Success(tok), Assemble(spans[j..], e))
      {
        var sp := spans[j];
        assert spans[j..][0] == sp && spans[j..][1..] == spans[j + 1..];
        var v: Result<string, InterpError>;
        if Expanded(sp.state) {
          var x := VarExpand(sp.text, e);
          v := if x.Success? then Success(RemoveContinuations(x.value)) else x;
        } else {
          v := Success(sp.text);
        }
        assert v == SpanValue(sp, e);
        if v.Failure? {
          return Failure(v.error);
        }
        JoinAssoc(tok, v.value, Assemble(spans[j + 1..], e));
        tok := tok + v.value;
      }
      assert spans[|spans|..] == [];
      r := Success(tok);
      assert tok + [] == tok;
    }

    /** bash_parser.read_token for one trace: the token assembled from its
        spans, None for an empty unquoted token, or the interpolation error.
        Once the lexer is at end of input shlex reads nothing more. */
    method ReadToken(steps: seq<Step>) returns (r: Result<Option<string>, InterpError>)
      requires token == []
      modifies this
      ensures (r, state) == ReadTokenResult(cuts, old(state), steps, env.View())
      ensures token == [] && pushback == old(pushback) && input == old(input) && lineno == old(lineno)
    {
      changedState := [];
      pos := 0;
      var trace := if state == Eof then [] else steps;
      var quoted := Lex(trace);
      r := Complete(quoted);
    }

    /** The rest of read_token once shlex has returned: the final span is
        appended and the spans are assembled; the token is reset. */
    method Complete(quoted: bool) returns (r: Result<Option<string>, InterpError>)
      requires Valid(Recording())
      modifies this
      ensures r == TokenOf(old(Recording()), quoted, env.View())
      ensures token == [] && state == old(state)
      ensures pushback == old(pushback) && input == old(input) && lineno == old(lineno)
    {
      var rec := Recording();
      var raw := token;
      token := [];
      if !quoted && |raw| == 0 {
        return Success(None);
      }
      if state == Eof {
        changedState := changedState + [Span(state, raw[pos..])];
      } else {
        // shlex has already reset its token: the final span is empty
        changedState := changedState + [Span(state, [])];
      }
      assert Finish(rec, quoted) == Some(changedState);
      var t := AssembleSpans(changedState);
      r := if t.Success? then Success(Some(t.value)) else Failure(t.error);
    }

    /** shlex.get_token: the pushback first, then the lexer. A ValueError of
        the lexer or of the interpolation is returned as its message. */
    method GetToken() returns (r: Result<Option<string>, string>)
      requires token == []
      modifies this
      ensures (r, Snapshot()) == GetTokenResult(cuts, old(Snapshot()), env.View())
      ensures token == []
    {
      if |pushback| > 0 {
        r := Success(pushback[0]);
        pushback := pushback[1..];
        return;
      }
      if |input| == 0 {
        var _ := ReadToken(AtEnd);
        ReadAtEnd(cuts, old(state), env.View());
        return Success(None);
      }
      var item := input[0];
      input := input[1..];
      match item {
        case Pushed(text) =>
          r := Success(Some(text));
        case LexError(msg, line) =>
          lineno := line;
          r := Failure(msg);
        case Read(steps, line) =>
          var t := ReadToken(steps);
          lineno := line;
          r := if t.Success? then Success(t.value) else Failure(t.error.Message());
      }
    }

    /** shlex.push_token: the token is read next. */
    method PushToken(tok: Option<string>)
      modifies this
      ensures pushback == [tok] + old(pushback)
      ensures state == old(state) && token == old(token) && input == old(input) && lineno == old(lineno)
    {
      pushback := [tok] + pushback;
    }
  }
}
