/** The span recorder of bash_parser (snakeoil/bash.py, __setattr__ and
    read_token) and the assembly of a token from its spans.

    While shlex reads one token, bash_parser watches every assignment to the
    lexer state. On a few transitions it cuts the token read so far: the text
    since the previous cut becomes a span tagged with the state it was read
    in. When shlex returns, the rest of the token becomes a final span, and the
    token is re-assembled span by span: spans read unquoted or between double
    quotes are interpolated and lose their backslash-newline pairs, all other
    spans are copied as they are.

    The character loop of shlex is not part of this model. It is replaced by a
    trace of steps: in each step the token grows by some text and then the
    lexer state is assigned. */
module Spans {
  import opened Wrappers
  import opened Interpolate

  /** The lexer state of shlex: ' ' between tokens, 'a' in an unquoted word,
      '"' and "'" inside quotes, '\\' after an escaping backslash, and None
      once the input is exhausted. */
  datatype QState = Blank | Word | DQuote | SQuote | Escape | Eof

  /** Which set of transitions cuts a span: those of the code as written, or
      those with word-to-single-quote and word-to-end-of-input added. */
  datatype Cuts = AsWritten | Corrected

  /** The transitions on which a span is cut. As written these are ('"','a'),
      ('a','"'), ('a',' ') and ("'",'a'). */
  predicate Cut(cuts: Cuts, from: QState, to: QState) {
    || (from == DQuote && to == Word)
    || (from == Word && to == DQuote)
    || (from == Word && to == Blank)
    || (from == SQuote && to == Word)
    || (cuts == Corrected && from == Word && (to == SQuote || to == Eof))
  }

  /** The states whose spans are interpolated: '"' and 'a'. */
  predicate Expanded(s: QState) {
    s == DQuote || s == Word
  }

  datatype Span = Span(state: QState, text: string)

  /** One observation of the lexer: the token grows by `read`, then the state
      is assigned `next` (which may equal the current state). */
  datatype Step = Step(read: string, next: QState)

  /** The recorder: the lexer state, the token read so far, the position of
      the last cut (`__pos`) and the spans cut so far (`changed_state`). */
  datatype Recorder = Recorder(state: QState, token: string, pos: nat, spans: seq<Span>)

  /** The concatenated texts of a sequence of spans. */
  function Texts(spans: seq<Span>): string
  {
    if |spans| == 0 then [] else spans[0].text + Texts(spans[1..])
  }

  lemma {:induction false} TextsSnoc(spans: seq<Span>, x: Span)
    ensures Texts(spans + [x]) == Texts(spans) + x.text
  {
    if |spans| > 0 {
      assert (spans + [x])[1..] == spans[1..] + [x];
      TextsSnoc(spans[1..], x);
    } else {
      assert [x][1..] == [];
    }
  }

  lemma TextsPair(a: Span, b: Span)
    ensures Texts([a, b]) == a.text + b.text
  {
    TextsSnoc([], a);
    TextsSnoc([a], b);
    assert [] + [a] == [a] && [a] + [b] == [a, b];
  }

  /** A span as the recorder cuts it: non-empty and read in a state a cut
      leaves. */
  predicate IsCutSpan(sp: Span) {
    sp.text != [] && (sp.state == DQuote || sp.state == Word || sp.state == SQuote)
  }

  /** The recorder invariant: the spans are non-empty cuts and, joined, give
      the token up to the last cut. */
  predicate Valid(r: Recorder) {
    && r.pos <= |r.token|
    && Texts(r.spans) == r.token[..r.pos]
    && forall i :: 0 <= i < |r.spans| ==> IsCutSpan(r.spans[i])
  }

  /** The recorder a read_token call starts with. */
  function Start(state: QState): (r: Recorder)
    ensures Valid(r)
  {
    Recorder(state, [], 0, [])
  }

  /** __setattr__('state', val): on a cut transition the text since the last
      cut, when non-empty, becomes a span tagged with the old state, and the
      cut position moves to the end of the token. */
  function SetState(cuts: Cuts, r: Recorder, val: QState): Recorder
    requires r.pos <= |r.token|
  {
    if Cut(cuts, r.state, val) then
      var n := |r.token|;
      Recorder(val, r.token, n, if r.pos != n then r.spans + [Span(r.state, r.token[r.pos..])] else r.spans)
    else
      r.(state := val)
  }

  /** SetState keeps the recorder invariant, changes nothing but the state off
      a cut, and leaves the cut position at the end of the token on a cut. */
  lemma SetStateValid(cuts: Cuts, r: Recorder, val: QState)
    requires Valid(r)
    ensures Valid(SetState(cuts, r, val))
    ensures SetState(cuts, r, val).state == val && SetState(cuts, r, val).token == r.token
    ensures Cut(cuts, r.state, val) ==> SetState(cuts, r, val).pos == |r.token|
    ensures !Cut(cuts, r.state, val) ==> SetState(cuts, r, val) == r.(state := val)
  {
    if Cut(cuts, r.state, val) && r.pos != |r.token| {
      var x := Span(r.state, r.token[r.pos..]);
      TextsSnoc(r.spans, x);
      assert r.token[..r.pos] + r.token[r.pos..] == r.token[..|r.token|];
    }
  }

  /** Reading more text keeps the invariant. */
  lemma GrowValid(r: Recorder, x: string)
    requires Valid(r)
    ensures Valid(r.(token := r.token + x))
  {
    assert (r.token + x)[..r.pos] == r.token[..r.pos];
  }

  /** Everything a trace appends to the token. */
  function Reads(steps: seq<Step>): string
  {
    if |steps| == 0 then [] else steps[0].read + Reads(steps[1..])
  }

  /** The state after a trace. */
  function Final(state: QState, steps: seq<Step>): QState
    decreases steps
  {
    if |steps| == 0 then state else Final(steps[0].next, steps[1..])
  }

  /** One step of the trace: the token grows, then the state is assigned. */
  function Advance(cuts: Cuts, r: Recorder, s: Step): (r': Recorder)
    requires Valid(r)
    ensures Valid(r') && r'.token == r.token + s.read && r'.state == s.next
  {
    GrowValid(r, s.read);
    SetStateValid(cuts, r.(token := r.token + s.read), s.next);
    SetState(cuts, r.(token := r.token + s.read), s.next)
  }

  /** The recorder after a whole trace. Replaying keeps the invariant: the
      token is the start token followed by everything read, the state is the
      last one assigned, and the spans are non-empty cuts that join to the
      token up to the last cut. */
  function Replay(cuts: Cuts, r: Recorder, steps: seq<Step>): (r': Recorder)
    requires Valid(r)
    ensures Valid(r')
    ensures r'.token == r.token + Reads(steps)
    ensures r'.state == Final(r.state, steps)
    decreases steps
  {
    if |steps| == 0 then
      assert r.token + [] == r.token;
      r
    else
      var r1 := Advance(cuts, r, steps[0]);
      assert r1.token + Reads(steps[1..]) == r.token + Reads(steps);
      Replay(cuts, r1, steps[1..])
  }

  /** Replaying two traces one after the other is replaying their
      concatenation. */
  lemma {:induction false} ReplayAppend(cuts: Cuts, r: Recorder, a: seq<Step>, b: seq<Step>)
    requires Valid(r)
    ensures Replay(cuts, r, a + b) == Replay(cuts, Replay(cuts, r, a), b)
    decreases a
  {
    if |a| == 0 {
      assert a + b == b;
    } else {
      var r1 := r.(token := r.token + a[0].read);
      GrowValid(r, a[0].read);
      SetStateValid(cuts, r1, a[0].next);
      assert (a + b)[0] == a[0];
      assert (a + b)[1..] == a[1..] + b;
      ReplayAppend(cuts, SetState(cuts, r1, a[0].next), a[1..], b);
    }
  }

  /** A trace none of whose assignments is a cut. */
  predicate NoCuts(cuts: Cuts, state: QState, steps: seq<Step>)
    decreases steps
  {
    |steps| == 0 || (!Cut(cuts, state, steps[0].next) && NoCuts(cuts, steps[0].next, steps[1..]))
  }

  /** Without a cut the recorder only grows the token and follows the state. */
  lemma {:induction false} ReplayNoCuts(cuts: Cuts, r: Recorder, steps: seq<Step>)
    requires Valid(r) && NoCuts(cuts, r.state, steps)
    ensures Replay(cuts, r, steps) == r.(token := r.token + Reads(steps), state := Final(r.state, steps))
    decreases steps
  {
    if |steps| > 0 {
      var r1 := r.(token := r.token + steps[0].read);
      GrowValid(r, steps[0].read);
      SetStateValid(cuts, r1, steps[0].next);
      var r2 := SetState(cuts, r1, steps[0].next);
      ReplayNoCuts(cuts, r2, steps[1..]);
      assert r.token + Reads(steps) == r1.token + Reads(steps[1..]);
    }
  }

  /** shlex's `quoted` flag: a character was read inside quotes. */
  predicate Quoted(state: QState, steps: seq<Step>)
    decreases steps
  {
    |steps| > 0 && (state == DQuote || state == SQuote || Quoted(steps[0].next, steps[1..]))
  }

  /** The end of read_token: shlex returns None for an empty unquoted token;
      otherwise the rest of the token becomes the final span. At end of input
      that is the rest of the returned token, tagged None; otherwise shlex has
      already reset its token, so the final span is empty. */
  function Finish(r: Recorder, quoted: bool): Option<seq<Span>>
    requires r.pos <= |r.token|
  {
    if !quoted && |r.token| == 0 then None
    else Some(r.spans + [Span(r.state, if r.state == Eof then r.token[r.pos..] else [])])
  }

  /** The spans, final span included, join to the whole token at end of input
      and to the token up to the last cut otherwise. */
  lemma FinishCovers(r: Recorder, quoted: bool)
    requires Valid(r)
    ensures Finish(r, quoted).None? <==> !quoted && r.token == []
    ensures Finish(r, quoted).Some? ==>
      Texts(Finish(r, quoted).value) == (if r.state == Eof then r.token else r.token[..r.pos])
  {
    if Finish(r, quoted).Some? {
      var x := Span(r.state, if r.state == Eof then r.token[r.pos..] else []);
      TextsSnoc(r.spans, x);
      assert r.token[..r.pos] + r.token[r.pos..] == r.token;
    }
  }

  /** A token that ends on a cut, as a word ended by a blank does, is covered
      completely by its spans. */
  lemma EndsOnCut(cuts: Cuts, r: Recorder, steps: seq<Step>, last: Step)
    requires Valid(r)
    requires Cut(cuts, Final(r.state, steps), last.next)
    ensures Replay(cuts, r, steps + [last]).pos == |Replay(cuts, r, steps + [last]).token|
  {
    ReplayAppend(cuts, r, steps, [last]);
    var m := Replay(cuts, r, steps);
    var m1 := m.(token := m.token + last.read);
    SetStateValid(cuts, m1, last.next);
    assert Replay(cuts, m, [last]) == Replay(cuts, SetState(cuts, m1, last.next), []);
  }

  /** str.replace("\\\n", ''): every backslash-newline pair is removed,
      scanning left to right without overlap. */
  function RemoveContinuations(s: string): string
  {
    if |s| >= 2 && s[0] == '\\' && s[1] == '\n' then RemoveContinuations(s[2..])
    else if |s| == 0 then []
    else [s[0]] + RemoveContinuations(s[1..])
  }

  lemma {:induction false} RemoveContinuationsIdentity(s: string)
    requires '\\' !in s
    ensures RemoveContinuations(s) == s
  {
    if |s| > 0 {
      RemoveContinuationsIdentity(s[1..]);
    }
  }

  /** A line ended by a backslash is joined to the next one. */
  lemma {:induction false} ContinuationJoinsLines(a: string, b: string)
    requires '\\' !in a
    ensures RemoveContinuations(a + "\\\n" + b) == a + RemoveContinuations(b)
  {
    var s := a + "\\\n" + b;
    if |a| == 0 {
      assert s[2..] == b;
    } else {
      assert s[1..] == a[1..] + "\\\n" + b;
      ContinuationJoinsLines(a[1..], b);
    }
  }

  /** What one span contributes to the token: the interpolated text without
      backslash-newline pairs for '"' and 'a' spans, the text itself for any
      other span. */
  function SpanValue(sp: Span, env: Env): Result<string, InterpError>
  {
    if Expanded(sp.state) then
      match Expand(sp.text, env)
      case Success(t) => Success(RemoveContinuations(t))
      case Failure(e) => Failure(e)
    else Success(sp.text)
  }

  /** The assembly loop of read_token: span values joined in order, the first
      failing interpolation aborting the token. */
  function Assemble(spans: seq<Span>, env: Env): Result<string, InterpError>
  {
    if |spans| == 0 then Success([]) else Join(SpanValue(spans[0], env), Assemble(spans[1..], env))
  }

  lemma JoinAssociative(a: Result<string, InterpError>, b: Result<string, InterpError>, c: Result<string, InterpError>)
    ensures Join(Join(a, b), c) == Join(a, Join(b, c))
  {
    if a.Success? && b.Success? && c.Success? {
      assert a.value + b.value + c.value == a.value + (b.value + c.value);
    }
  }

  /** Assembly distributes over concatenation of span sequences. */
  lemma {:induction false} AssembleAppend(a: seq<Span>, b: seq<Span>, env: Env)
    ensures Assemble(a + b, env) == Join(Assemble(a, env), Assemble(b, env))
  {
    if |a| == 0 {
      assert a + b == b;
      var r := Assemble(b, env);
      assert r.Success? ==> [] + r.value == r.value;
    } else {
      assert (a + b)[0] == a[0];
      assert (a + b)[1..] == a[1..] + b;
      AssembleAppend(a[1..], b, env);
      JoinAssociative(SpanValue(a[0], env), Assemble(a[1..], env), Assemble(b, env));
    }
  }

  lemma AssembleSingle(sp: Span, env: Env)
    ensures Assemble([sp], env) == SpanValue(sp, env)
  {
    assert [sp][1..] == [];
    var v := SpanValue(sp, env);
    assert v.Success? ==> v.value + [] == v.value;
  }

  /** An empty uninterpolated final span adds nothing. */
  lemma AssembleEmptyTail(x: Span, st: QState, env: Env)
    requires !Expanded(st)
    ensures Assemble([x] + [Span(st, [])], env) == SpanValue(x, env)
  {
    var sp := [x] + [Span(st, [])];
    assert sp[0] == x && sp[1..] == [Span(st, [])];
    assert [Span(st, [])][1..] == [];
    assert SpanValue(Span(st, []), env) == Success([]);
    assert Assemble([Span(st, [])], env) == Join(Success([]), Success([]));
    var e: string := [];
    assert e + e == e;
    assert Assemble([Span(st, [])], env) == Success(e);
    assert Assemble(sp, env) == Join(SpanValue(x, env), Assemble([Span(st, [])], env));
    var v := SpanValue(x, env);
    assert v.Success? ==> v.value + [] == v.value;
  }

  /** Spans that are not interpolated, or whose text has neither `$` nor a
      backslash, are assembled to their joined texts. In particular
      single-quoted text and the end-of-input tail are copied verbatim. */
  lemma {:induction false} AssembleVerbatim(spans: seq<Span>, env: Env)
    requires forall i :: 0 <= i < |spans| ==>
      !Expanded(spans[i].state) || ('$' !in spans[i].text && '\\' !in spans[i].text)
    ensures Assemble(spans, env) == Success(Texts(spans))
  {
    if |spans| > 0 {
      var t := spans[0].text;
      if Expanded(spans[0].state) {
        ExpandIdentity(t, env);
        UnescapeIdentity(t);
        RemoveContinuationsIdentity(t);
      }
      assert SpanValue(spans[0], env) == Success(t);
      AssembleVerbatim(spans[1..], env);
    }
  }

  /** bash_parser.read_token for one trace of shlex: the assembled token, or
      None when shlex returns None, or the interpolation error; and the lexer
      state afterwards. Once the input is exhausted shlex reads nothing more. */
  function ReadTokenResult(cuts: Cuts, start: QState, steps: seq<Step>, env: Env): (Result<Option<string>, InterpError>, QState)
  {
    var trace := if start == Eof then [] else steps;
    var r := Replay(cuts, Start(start), trace);
    (TokenOf(r, Quoted(start, trace), env), r.state)
  }

  /** The end of read_token once shlex has returned: None, the token
      assembled from the spans, or the interpolation error. */
  function TokenOf(r: Recorder, quoted: bool, env: Env): Result<Option<string>, InterpError>
    requires r.pos <= |r.token|
  {
    match Finish(r, quoted)
    case None => Success(None)
    case Some(spans) =>
      match Assemble(spans, env)
      case Success(t) => Success(Some(t))
      case Failure(e) => Failure(e)
  }

  /** The result of read_token once the final spans are known. */
  lemma ReadTokenOfSpans(cuts: Cuts, start: QState, steps: seq<Step>, env: Env, spans: seq<Span>)
    requires start != Eof
    requires Finish(Replay(cuts, Start(start), steps), Quoted(start, steps)) == Some(spans)
    ensures ReadTokenResult(cuts, start, steps, env) ==
      (match Assemble(spans, env)
       case Success(t) => Success(Some(t))
       case Failure(e) => Failure(e),
       Final(start, steps))
  {
  }

  /** A trace that reads w in an unquoted word. */
  function WordSteps(w: string): (steps: seq<Step>)
    ensures Reads(steps) == w
  {
    if |w| == 0 then [] else [Step([w[0]], Word)] + WordSteps(w[1..])
  }

  /** A trace that reads q inside single quotes. */
  function SingleQuotedSteps(q: string): (steps: seq<Step>)
    ensures Reads(steps) == q
  {
    if |q| == 0 then [] else [Step([q[0]], SQuote)] + SingleQuotedSteps(q[1..])
  }

  /** Replaying a single step. */
  lemma ReplayOne(cuts: Cuts, r: Recorder, s: Step)
    requires Valid(r)
    ensures Replay(cuts, r, [s]) == SetState(cuts, r.(token := r.token + s.read), s.next)
  {
    assert [s][1..] == [];
    GrowValid(r, s.read);
    SetStateValid(cuts, r.(token := r.token + s.read), s.next);
  }

  /** Reading an unquoted word only grows the token: no transition on the way
      is a cut. */
  lemma {:induction false} ReplayWord(cuts: Cuts, r: Recorder, w: string)
    requires Valid(r) && (r.state == Blank || r.state == Word)
    ensures Replay(cuts, r, WordSteps(w)) == r.(token := r.token + w, state := if w == [] then r.state else Word)
    decreases w
  {
    if |w| == 0 {
      assert r.token + [] == r.token;
    } else {
      var ws := WordSteps(w);
      assert ws[0] == Step([w[0]], Word) && ws[1..] == WordSteps(w[1..]);
      var r1 := r.(token := r.token + [w[0]], state := Word);
      GrowValid(r, [w[0]]);
      SetStateValid(cuts, r.(token := r.token + [w[0]]), Word);
      assert Replay(cuts, r, ws) == Replay(cuts, SetState(cuts, r.(token := r.token + [w[0]]), Word), ws[1..]);
      assert SetState(cuts, r.(token := r.token + [w[0]]), Word) == r1;
      ReplayWord(cuts, r1, w[1..]);
      assert r.token + [w[0]] + w[1..] == r.token + w;
    }
  }

  /** Reading inside single quotes only grows the token. */
  lemma {:induction false} ReplaySingleQuoted(cuts: Cuts, r: Recorder, q: string)
    requires Valid(r) && r.state == SQuote
    ensures Replay(cuts, r, SingleQuotedSteps(q)) == r.(token := r.token + q)
    decreases q
  {
    if |q| == 0 {
      assert r.token + [] == r.token;
    } else {
      var qs := SingleQuotedSteps(q);
      assert qs[0] == Step([q[0]], SQuote) && qs[1..] == SingleQuotedSteps(q[1..]);
      var r1 := r.(token := r.token + [q[0]]);
      GrowValid(r, [q[0]]);
      SetStateValid(cuts, r1, SQuote);
      assert SetState(cuts, r1, SQuote) == r1;
      assert Replay(cuts, r, qs) == Replay(cuts, r1, qs[1..]);
      ReplaySingleQuoted(cuts, r1, q[1..]);
      assert r.token + [q[0]] + q[1..] == r.token + q;
    }
  }

  /** The trace of `w'q'` followed by a blank: an unquoted part, then a
      single-quoted part. */
  function WordThenSingleQuoted(w: string, q: string): seq<Step>
  {
    WordSteps(w) + [Step([], SQuote)] + SingleQuotedSteps(q) + [Step([], Word), Step([], Blank)]
  }

  /** Closing a single quote after q and ending the word with a blank cuts
      everything since the last cut as one single-quoted span. */
  lemma CloseQuote(cuts: Cuts, r: Recorder, q: string)
    requires Valid(r) && r.state == SQuote && q != []
    ensures Replay(cuts, r, SingleQuotedSteps(q) + [Step([], Word), Step([], Blank)]) ==
      Recorder(Blank, r.token + q, |r.token + q|, r.spans + [Span(SQuote, (r.token + q)[r.pos..])])
  {
    var y := Step([], Word);
    var z := Step([], Blank);
    ReplaySingleQuoted(cuts, r, q);
    var r3 := r.(token := r.token + q);
    GrowValid(r, q);
    ReplayOne(cuts, r3, y);
    assert r3.token + [] == r3.token;
    var r4 := Recorder(Word, r.token + q, |r.token + q|, r.spans + [Span(SQuote, (r.token + q)[r.pos..])]);
    assert Replay(cuts, r3, [y]) == r4;
    ReplayOne(cuts, r4, z);
    assert Replay(cuts, r4, [z]) == r4.(state := Blank);
    ReplayAppend(cuts, r3, [y], [z]);
    assert [y] + [z] == [y, z];
    ReplayAppend(cuts, r, SingleQuotedSteps(q), [y, z]);
  }

  /** The recorder after `w'q'` and a blank: with the cuts as written, the
      unquoted part ends up in the single-quoted span; with the corrected
      cuts it gets a span of its own. */
  lemma WordThenSingleQuotedSpans(cuts: Cuts, w: string, q: string)
    requires w != [] && q != []
    ensures Replay(cuts, Start(Blank), WordThenSingleQuoted(w, q)) ==
      Recorder(Blank, w + q, |w + q|,
        if cuts == AsWritten then [Span(SQuote, w + q)] else [Span(Word, w), Span(SQuote, q)])
  {
    var s0 := Start(Blank);
    var open := WordSteps(w) + [Step([], SQuote)];
    var close := SingleQuotedSteps(q) + [Step([], Word), Step([], Blank)];
    assert WordThenSingleQuoted(w, q) == open + close;
    ReplayAppend(cuts, s0, open, close);
    WordThen(cuts, w, SQuote);
    if cuts == AsWritten {
      CloseUncut(w, q);
    } else {
      CloseAfterCut(w, q);
    }
  }

  /** As written, opening the quote was no cut: the quoted span takes in w. */
  lemma CloseUncut(w: string, q: string)
    requires w != [] && q != []
    ensures Replay(AsWritten, Recorder(SQuote, w, 0, []), SingleQuotedSteps(q) + [Step([], Word), Step([], Blank)]) ==
      Recorder(Blank, w + q, |w + q|, [Span(SQuote, w + q)])
  {
    var none: seq<Span> := [];
    CloseQuote(AsWritten, Recorder(SQuote, w, 0, none), q);
    assert (w + q)[0..] == w + q;
    assert none + [Span(SQuote, w + q)] == [Span(SQuote, w + q)];
  }

  /** With the corrected cuts, opening the quote cut w as a word span. */
  lemma CloseAfterCut(w: string, q: string)
    requires w != [] && q != []
    ensures Replay(Corrected, Recorder(SQuote, w, |w|, [Span(Word, w)]), SingleQuotedSteps(q) + [Step([], Word), Step([], Blank)]) ==
      Recorder(Blank, w + q, |w + q|, [Span(Word, w), Span(SQuote, q)])
  {
    CloseQuote(Corrected, Recorder(SQuote, w, |w|, [Span(Word, w)]), q);
    assert (w + q)[|w|..] == q;
    assert [Span(Word, w)] + [Span(SQuote, q)] == [Span(Word, w), Span(SQuote, q)];
  }

  /** Quoted over a concatenation looks at the second trace from the state
      the first one leaves. */
  lemma {:induction false} QuotedPrefix(state: QState, a: seq<Step>, b: seq<Step>)
    ensures Quoted(state, a + b) <== Quoted(Final(state, a), b)
    decreases a
  {
    if |a| > 0 {
      assert (a + b)[0] == a[0];
      assert (a + b)[1..] == a[1..] + b;
      QuotedPrefix(a[0].next, a[1..], b);
    } else {
      assert a + b == b;
    }
  }

  /** The trace of `w'q'` is quoted: a character is read inside the quotes. */
  lemma QuotedAfterOpening(w: string, q: string)
    requires q != []
    ensures Quoted(Blank, WordThenSingleQuoted(w, q))
  {
    var a := WordSteps(w);
    var rest := [Step([], SQuote)] + SingleQuotedSteps(q) + [Step([], Word), Step([], Blank)];
    assert WordThenSingleQuoted(w, q) == a + rest;
    ReplayWord(AsWritten, Start(Blank), w);
    assert rest[0].next == SQuote && rest[1..] != [];
    assert Quoted(SQuote, rest[1..]);
    assert Quoted(Final(Blank, a), rest);
    QuotedPrefix(Blank, a, rest);
  }

  /** As written, references in the unquoted part of `w'q'` are not
      interpolated: the token is w followed by q, verbatim. */
  lemma WordBeforeSingleQuoteAsWritten(w: string, q: string, env: Env)
    requires w != [] && q != []
    ensures ReadTokenResult(AsWritten, Blank, WordThenSingleQuoted(w, q), env).0 == Success(Some(w + q))
  {
    var t := WordThenSingleQuoted(w, q);
    WordThenSingleQuotedSpans(AsWritten, w, q);
    QuotedAfterOpening(w, q);
    ReadTokenOfSpans(AsWritten, Blank, t, env, [Span(SQuote, w + q)] + [Span(Blank, [])]);
    AssembleEmptyTail(Span(SQuote, w + q), Blank, env);
  }

  /** With the corrected cuts the unquoted part of `w'q'` is interpolated and
      the single-quoted part is copied. */
  lemma WordBeforeSingleQuoteCorrected(w: string, q: string, env: Env)
    requires w != [] && q != []
    ensures ReadTokenResult(Corrected, Blank, WordThenSingleQuoted(w, q), env).0 ==
      match SpanValue(Span(Word, w), env)
      case Success(x) => Success(Some(x + q))
      case Failure(e) => Failure(e)
  {
    var t := WordThenSingleQuoted(w, q);
    WordThenSingleQuotedSpans(Corrected, w, q);
    QuotedAfterOpening(w, q);
    var sp := [Span(Word, w), Span(SQuote, q), Span(Blank, [])];
    assert [Span(Word, w), Span(SQuote, q)] + [Span(Blank, [])] == sp;
    ReadTokenOfSpans(Corrected, Blank, t, env, sp);
    AssembleWordThenQuoted(w, q, env);
  }

  lemma AssembleWordThenQuoted(w: string, q: string, env: Env)
    ensures Assemble([Span(Word, w), Span(SQuote, q), Span(Blank, [])], env) ==
      match SpanValue(Span(Word, w), env)
      case Success(x) => Success(x + q)
      case Failure(e) => Failure(e)
  {
    var rest := [Span(SQuote, q), Span(Blank, [])];
    assert [Span(Word, w)] + rest == [Span(Word, w), Span(SQuote, q), Span(Blank, [])];
    AssembleAppend([Span(Word, w)], rest, env);
    AssembleVerbatim(rest, env);
    TextsPair(rest[0], rest[1]);
    assert q + [] == q;
    AssembleSingle(Span(Word, w), env);
  }

  /** The recorder after an unquoted word and one more state assignment. */
  lemma WordThen(cuts: Cuts, w: string, last: QState)
    requires w != []
    ensures Replay(cuts, Start(Blank), WordSteps(w) + [Step([], last)]) ==
      if Cut(cuts, Word, last) then Recorder(last, w, |w|, [Span(Word, w)]) else Recorder(last, w, 0, [])
  {
    var s0 := Start(Blank);
    ReplayWord(cuts, s0, w);
    assert [] + w == w;
    var r1 := Recorder(Word, w, 0, []);
    ReplayOne(cuts, r1, Step([], last));
    assert w + [] == w && w[0..] == w;
    ReplayAppend(cuts, s0, WordSteps(w), [Step([], last)]);
  }

  /** The trace of an unquoted word that runs into the end of input. */
  function WordAtEnd(w: string): seq<Step>
  {
    WordSteps(w) + [Step([], Eof)]
  }

  /** As written, an unquoted word at the end of input, with no newline after
      it, is copied verbatim: its references are not interpolated. */
  lemma WordAtEndAsWritten(w: string, env: Env)
    requires w != []
    ensures ReadTokenResult(AsWritten, Blank, WordAtEnd(w), env) == (Success(Some(w)), Eof)
  {
    WordThen(AsWritten, w, Eof);
    UncutTailToken(w, Quoted(Blank, WordAtEnd(w)), env);
  }

  /** The end of read_token when nothing was cut before the end of input:
      the whole token is one verbatim span. */
  lemma UncutTailToken(w: string, quoted: bool, env: Env)
    requires w != []
    ensures TokenOf(Recorder(Eof, w, 0, []), quoted, env) == Success(Some(w))
  {
    assert w[0..] == w;
    var sp := [Span(Eof, w)];
    var none: seq<Span> := [];
    assert none + [Span(Eof, w[0..])] == sp;
    assert Finish(Recorder(Eof, w, 0, none), quoted) == Some(sp);
    AssembleSingle(sp[0], env);
    assert SpanValue(sp[0], env) == Success(w);
  }

  /** With the corrected cuts the word is interpolated like any other
      unquoted word. */
  lemma WordAtEndCorrected(w: string, env: Env)
    requires w != []
    ensures ReadTokenResult(Corrected, Blank, WordAtEnd(w), env).0 ==
      match SpanValue(Span(Word, w), env)
      case Success(x) => Success(Some(x))
      case Failure(e) => Failure(e)
  {
    WordThenCut(Corrected, w, Eof, env);
  }

  /** The same word followed by a newline is interpolated with either set of
      cuts: the word-to-blank transition is a cut. */
  lemma WordThenBlank(cuts: Cuts, w: string, env: Env)
    requires w != []
    ensures ReadTokenResult(cuts, Blank, WordSteps(w) + [Step([], Blank)], env).0 ==
      match SpanValue(Span(Word, w), env)
      case Success(x) => Success(Some(x))
      case Failure(e) => Failure(e)
  {
    WordThenCut(cuts, w, Blank, env);
  }

  /** An unquoted word ended by a cut into a state that is not interpolated
      is interpolated as a whole. */
  lemma WordThenCut(cuts: Cuts, w: string, last: QState, env: Env)
    requires w != [] && Cut(cuts, Word, last) && !Expanded(last)
    ensures ReadTokenResult(cuts, Blank, WordSteps(w) + [Step([], last)], env).0 ==
      match SpanValue(Span(Word, w), env)
      case Success(x) => Success(Some(x))
      case Failure(e) => Failure(e)
  {
    WordThen(cuts, w, last);
    CutWordToken(w, last, Quoted(Blank, WordSteps(w) + [Step([], last)]), env);
  }

  /** The end of read_token right after a word was cut: the word's span and
      an empty final span. */
  lemma CutWordToken(w: string, last: QState, quoted: bool, env: Env)
    requires w != [] && !Expanded(last)
    ensures TokenOf(Recorder(last, w, |w|, [Span(Word, w)]), quoted, env) ==
      match SpanValue(Span(Word, w), env)
      case Success(x) => Success(Some(x))
      case Failure(e) => Failure(e)
  {
    assert w[|w|..] == [];
    var sp := [Span(Word, w)] + [Span(last, [])];
    assert Finish(Recorder(last, w, |w|, [Span(Word, w)]), quoted) == Some(sp);
    AssembleEmptyTail(Span(Word, w), last, env);
  }

  /** A character read between tokens that does not start a word (an `=`
      after a blank, say) is returned by shlex at once, without a cut; its
      token comes back empty. */
  lemma LonePunctuationIsEmpty(cuts: Cuts, c: char, env: Env)
    ensures ReadTokenResult(cuts, Blank, [Step([c], Blank)], env) == (Success(Some([])), Blank)
  {
    ReplayOne(cuts, Start(Blank), Step([c], Blank));
    var r := Recorder(Blank, [c], 0, []);
    assert [] + [c] == [c];
    assert Replay(cuts, Start(Blank), [Step([c], Blank)]) == r;
    var sp := [Span(Blank, [])];
    assert r.spans + [Span(r.state, [])] == sp;
    assert Finish(r, Quoted(Blank, [Step([c], Blank)])) == Some(sp);
    ReadTokenOfSpans(cuts, Blank, [Step([c], Blank)], env, sp);
    assert [Step([c], Blank)][1..] == [];
    assert Final(Blank, [Step([c], Blank)]) == Blank;
    assert sp[1..] == [];
    assert SpanValue(sp[0], env) == Success([]);
    var e: string := [];
    assert e + e == e;
    assert Assemble(sp, env) == Join(Success(e), Success(e));
  }

  /** `$A'b'` with A bound to "1": as written the token is `$Ab`; with the
      corrected cuts it is `1b`, as in the shell. */
  lemma DollarBeforeSingleQuote(w: string, q: string, env: Env)
    requires w == "$A" && q == "b" && env == map["A" := Str("1")]
    ensures ReadTokenResult(AsWritten, Blank, WordThenSingleQuoted(w, q), env).0 == Success(Some("$Ab"))
    ensures ReadTokenResult(Corrected, Blank, WordThenSingleQuoted(w, q), env).0 == Success(Some("1b"))
  {
    WordBeforeSingleQuoteAsWritten(w, q, env);
    WordBeforeSingleQuoteCorrected(w, q, env);
    DollarAIsOne(w, env);
    assert w + q == "$Ab" && "1" + q == "1b";
  }

  /** `$A` at the end of input with A bound to "1": as written the token is
      `$A`; with the corrected cuts it is `1`. */
  lemma DollarAtEnd(w: string, env: Env)
    requires w == "$A" && env == map["A" := Str("1")]
    ensures ReadTokenResult(AsWritten, Blank, WordAtEnd(w), env).0 == Success(Some("$A"))
    ensures ReadTokenResult(Corrected, Blank, WordAtEnd(w), env).0 == Success(Some("1"))
  {
    WordAtEndAsWritten(w, env);
    WordAtEndCorrected(w, env);
    DollarAIsOne(w, env);
  }

  lemma DollarAIsOne(w: string, env: Env)
    requires w == "$A" && env == map["A" := Str("1")]
    ensures SpanValue(Span(Word, w), env) == Success("1")
  {
    assert IsName("A") && Replacement("A", env) == Success("1");
    assert "$" + "A" == w;
    ReferenceValue("A", env, "1");
  }

  /** An unquoted `$NAME` span is replaced by what the environment gives
      for NAME. */
  lemma ReferenceValue(name: string, env: Env, v: string)
    requires IsName(name) && Replacement(name, env) == Success(v) && '\\' !in v
    ensures SpanValue(Span(Word, "$" + name), env) == Success(v)
  {
    var s := "$" + name;
    assert s[1..1 + |name|] == name;
    SubstReference(s, 0, name, env);
    assert SubstFrom(s, |s|, env) == Success([]);
    assert v + [] == v;
    UnescapeIdentity(v);
    RemoveContinuationsIdentity(v);
  }

  /** A token that is a single `$NAME` followed by a blank reads as the
      value of NAME, with either set of cuts. */
  lemma ReferenceToken(cuts: Cuts, name: string, env: Env, v: string)
    requires IsName(name) && Replacement(name, env) == Success(v) && '\\' !in v
    ensures ReadTokenResult(cuts, Blank, WordSteps("$" + name) + [Step([], Blank)], env).0 == Success(Some(v))
  {
    ReferenceValue(name, env, v);
    WordThenBlank(cuts, "$" + name, env);
  }
}
