/** Variable interpolation of snakeoil/bash.py (var_find, backslash_find,
    _nuke_backslash, bash_parser.var_expand).

    var_expand scans a span left to right for matches of the pattern
    `\\?(\${\w+}|\$\w+)`. An unescaped match `$NAME` or `${NAME}` is replaced by
    the binding of NAME (the empty string when unbound); a match preceded by a
    backslash is kept and the scan resumes two characters on. A final pass then
    collapses every backslash followed by a character other than a newline
    into that character. */
module Interpolate {
  import opened Wrappers

  /** A binding of the environment. Python lets any object be bound; only a
      string may be interpolated, anything else is described by its type name
      and its repr. */
  datatype Value = Str(s: string) | NonStr(typeName: string, repr: string)

  type Env = map<string, Value>

  /** The ValueError var_expand raises for a reference to a non-string binding. */
  datatype InterpError = NotAString(key: string, typeName: string, repr: string) {
    /** The text of the ValueError. The key is a run of word characters, so its
        repr is the key between single quotes. */
    function Message(): (m: string)
      ensures |m| > 9 + |key| && m[..9] == "env key '" && m[9..9 + |key|] == key
    {
      "env key '" + key + "' must be a string, not " + typeName + ": " + repr
    }
  }

  /** `\w` of a Python 2 byte-string pattern. */
  predicate IsWordChar(c: char) {
    ('a' <= c <= 'z') || ('A' <= c <= 'Z') || ('0' <= c <= '9') || c == '_'
  }

  predicate IsName(s: string) {
    s != [] && forall i :: 0 <= i < |s| ==> IsWordChar(s[i])
  }

  /** The end of the greedy `\w*` match that starts at index i of s. */
  function WordRunFrom(s: string, i: nat): (j: nat)
    requires i <= |s|
    decreases |s| - i
    ensures i <= j <= |s|
    ensures forall k :: i <= k < j ==> IsWordChar(s[k])
    ensures j < |s| ==> !IsWordChar(s[j])
  {
    if i < |s| && IsWordChar(s[i]) then WordRunFrom(s, i + 1) else i
  }

  /** A match of var_find: whether it begins with the escaping backslash, the
      referenced name, and the index just past the match (match.end()). */
  datatype Ref = Ref(escaped: bool, name: string, end: nat)

  /** The group `\${\w+}|\$\w+` tried at index i of s: the name and the end of
      the match. The braced alternative is tried first. */
  function GroupAt(s: string, i: nat): (g: Option<(string, nat)>)
    requires i <= |s|
    ensures g.Some? ==> i + 2 <= g.value.1 <= |s| && s[i] == '$' && IsName(g.value.0)
  {
    if i + 2 <= |s| && s[i] == '$' then
      var braced := s[i + 1] == '{';
      var k := if braced then i + 2 else i + 1;
      var j := WordRunFrom(s, k);
      if k < j && (!braced || (j < |s| && s[j] == '}')) then
        Some((s[k..j], if braced then j + 1 else j))
      else
        None
    else
      None
  }

  /** The text a group match covers is `$NAME` or `${NAME}`. */
  lemma GroupAtShape(s: string, i: nat)
    requires i <= |s| && GroupAt(s, i).Some?
    ensures var (name, end) := GroupAt(s, i).value;
      s[i..end] == "$" + name || s[i..end] == "${" + name + "}"
  {
    var (name, end) := GroupAt(s, i).value;
    if s[i + 1] == '{' {
      assert s[i..end] == "${" + s[i + 2..end - 1] + "}";
    } else {
      assert s[i..end] == "$" + s[i + 1..end];
    }
  }

  /** var_find (`\\?(\${\w+}|\$\w+)`) tried at index i of s. The optional
      backslash is greedy; when no group follows it there is no match at i,
      since a group has to start with `$`. */
  function MatchAt(s: string, i: nat): (m: Option<Ref>)
    requires i <= |s|
    ensures m.Some? ==> i + 2 <= m.value.end <= |s| && IsName(m.value.name)
    ensures m.Some? ==> (m.value.escaped <==> s[i] == '\\')
  {
    var escaped := i < |s| && s[i] == '\\';
    match GroupAt(s, if escaped then i + 1 else i)
    case Some(g) => Some(Ref(escaped, g.0, g.1))
    case None => None
  }

  /** var_find.search(s, from): the start of the leftmost match at or after from. */
  function Search(s: string, from: nat): (r: Option<nat>)
    requires from <= |s|
    decreases |s| - from
    ensures r.Some? ==> from <= r.value < |s| && MatchAt(s, r.value).Some?
    ensures forall k {:trigger MatchAt(s, k)} :: from <= k < (if r.Some? then r.value else |s|) ==> MatchAt(s, k).None?
  {
    if from == |s| then None
    else if MatchAt(s, from).Some? then Some(from)
    else Search(s, from + 1)
  }

  /** Concatenation of two partial results; the left failure wins, as the scan
      raises at the first bad reference. */
  function Join(a: Result<string, InterpError>, b: Result<string, InterpError>): Result<string, InterpError>
  {
    match a
    case Failure(e) => Failure(e)
    case Success(x) =>
      match b
      case Failure(e) => Failure(e)
      case Success(y) => Success(x + y)
  }

  /** What a reference `$NAME` becomes: the bound string, the empty string when
      NAME is unbound, and the ValueError when it is bound to a non-string. */
  function Replacement(name: string, env: Env): Result<string, InterpError>
  {
    if name !in env then Success([])
    else match env[name]
      case Str(v) => Success(v)
      case NonStr(t, r) => Failure(NotAString(name, t, r))
  }

  /** One step of the substitution scan at index i: what it emits and where
      it continues. A character where var_find does not match is copied; an
      escaped match keeps its backslash and sigil, and the scan goes on right
      after them; a reference is replaced. */
  function Piece(s: string, i: nat, env: Env): (p: (Result<string, InterpError>, nat))
    requires i < |s|
    ensures i < p.1 <= |s|
  {
    match MatchAt(s, i)
    case None => (Success([s[i]]), i + 1)
    case Some(m) =>
      if m.escaped then (Success(s[i..i + 2]), i + 2)
      else (Replacement(m.name, env), m.end)
  }

  /** The substitution pass of var_expand from index i on, as a reference
      definition: one piece per step of the scan. */
  function SubstFrom(s: string, i: nat, env: Env): Result<string, InterpError>
    requires i <= |s|
    decreases |s| - i
  {
    if i == |s| then Success([])
    else
      var p := Piece(s, i, env);
      Join(p.0, SubstFrom(s, p.1, env))
  }

  function Subst(s: string, env: Env): Result<string, InterpError>
  {
    SubstFrom(s, 0, env)
  }

  /** backslash_find.sub(_nuke_backslash, s): every backslash followed by a
      character other than a newline is replaced by that character, scanning
      left to right without overlap. _nuke_backslash always returns the second
      character: ord() of a two-character string raises TypeError, and its
      backslash-newline branch is never reached because `.` excludes newline. */
  function Unescape(s: string): string
  {
    if |s| >= 2 && s[0] == '\\' && s[1] != '\n' then [s[1]] + Unescape(s[2..])
    else if |s| == 0 then []
    else [s[0]] + Unescape(s[1..])
  }

  /** var_expand as a function of the span and the environment. */
  function Expand(s: string, env: Env): Result<string, InterpError>
  {
    match Subst(s, env)
    case Success(t) => Success(Unescape(t))
    case Failure(e) => Failure(e)
  }

  /** str.strip(cs): removes characters of cs from both ends. */
  function StripChars(s: string, cs: set<char>): (r: string)
    decreases |s|
  {
    if |s| > 0 && s[0] in cs then StripChars(s[1..], cs)
    else if |s| > 0 && s[|s| - 1] in cs then StripChars(s[..|s| - 1], cs)
    else s
  }

  lemma {:induction false} StripCharsKeepsName(name: string, cs: set<char>)
    requires IsName(name) && forall c :: c in cs ==> !IsWordChar(c)
    ensures StripChars(name, cs) == name
  {
  }

  /** var_expand's `.strip("${}")` recovers the name from either form of match. */
  lemma StripSigils(name: string)
    requires IsName(name)
    ensures StripChars("$" + name, {'$', '{', '}'}) == name
    ensures StripChars("${" + name + "}", {'$', '{', '}'}) == name
  {
    var cs := {'$', '{', '}'};
    assert ("$" + name)[1..] == name;
    StripCharsKeepsName(name, cs);
    var braced := "${" + name + "}";
    var inner := "{" + name + "}";
    var tail := name + "}";
    assert braced[1..] == inner;
    assert inner[1..] == tail;
    assert tail[0] == name[0] && name[0] !in cs;
    assert tail[..|tail| - 1] == name;
    calc {
      StripChars(braced, cs);
      StripChars(inner, cs);
      StripChars(tail, cs);
      StripChars(name, cs);
    }
  }

  lemma JoinAssoc(a: string, b: string, r: Result<string, InterpError>)
    ensures Join(Success(a), Join(Success(b), r)) == Join(Success(a + b), r)
  {
    if r.Success? {
      assert a + (b + r.value) == (a + b) + r.value;
    }
  }

  lemma JoinEmpty(r: Result<string, InterpError>)
    ensures Join(Success([]), r) == r
  {
    if r.Success? {
      assert [] + r.value == r.value;
    }
  }

  /** A position where var_find does not match is copied. */
  lemma SubstCopies(s: string, i: nat, env: Env)
    requires i < |s| && MatchAt(s, i).None?
    ensures SubstFrom(s, i, env) == Join(Success([s[i]]), SubstFrom(s, i + 1, env))
  {
  }

  /** One more unmatched position in front of a copied run. */
  lemma SubstSkipStep(s: string, i: nat, j: nat, env: Env)
    requires i < j <= |s| && MatchAt(s, i).None?
    requires SubstFrom(s, i + 1, env) == Join(Success(s[i + 1..j]), SubstFrom(s, j, env))
    ensures SubstFrom(s, i, env) == Join(Success(s[i..j]), SubstFrom(s, j, env))
  {
    SubstCopies(s, i, env);
    JoinAssoc([s[i]], s[i + 1..j], SubstFrom(s, j, env));
    assert [s[i]] + s[i + 1..j] == s[i..j];
  }

  /** Positions where var_find does not match are copied one by one. */
  lemma {:induction false} SubstSkip(s: string, i: nat, j: nat, env: Env)
    requires i <= j <= |s|
    requires forall k {:trigger MatchAt(s, k)} :: i <= k < j ==> MatchAt(s, k).None?
    ensures SubstFrom(s, i, env) == Join(Success(s[i..j]), SubstFrom(s, j, env))
    decreases j - i
  {
    if i < j {
      SubstSkip(s, i + 1, j, env);
      SubstSkipStep(s, i, j, env);
    } else {
      assert s[i..j] == [];
      JoinEmpty(SubstFrom(s, j, env));
    }
  }

  /** The scan state of var_expand: the output so far (the joined pieces
      followed by the pending literal run) and the rest of the scan. */
  lemma SkipTo(val: string, env: Env, acc: string, pos: nat, start: nat)
    requires pos <= start <= |val|
    requires forall k {:trigger MatchAt(val, k)} :: pos <= k < start ==> MatchAt(val, k).None?
    ensures Join(Success(acc), SubstFrom(val, pos, env)) == Join(Success(acc + val[pos..start]), SubstFrom(val, start, env))
  {
    SubstSkip(val, pos, start, env);
    JoinAssoc(acc, val[pos..start], SubstFrom(val, start, env));
  }

  lemma EscapedStep(val: string, env: Env, acc: string, start: nat)
    requires start < |val| && MatchAt(val, start).Some? && MatchAt(val, start).value.escaped
    ensures start + 2 <= |val|
    ensures Join(Success(acc), SubstFrom(val, start, env)) == Join(Success(acc + val[start..start + 2]), SubstFrom(val, start + 2, env))
  {
    JoinAssoc(acc, val[start..start + 2], SubstFrom(val, start + 2, env));
  }

  lemma RefStep(val: string, env: Env, acc: string, start: nat, m: Ref, v: string)
    requires start < |val| && MatchAt(val, start) == Some(m) && !m.escaped
    requires Replacement(m.name, env) == Success(v)
    ensures Join(Success(acc), SubstFrom(val, start, env)) == Join(Success(acc + v), SubstFrom(val, m.end, env))
  {
    JoinAssoc(acc, v, SubstFrom(val, m.end, env));
  }

  lemma RefStepFails(val: string, env: Env, acc: string, start: nat, m: Ref, e: InterpError)
    requires start < |val| && MatchAt(val, start) == Some(m) && !m.escaped
    requires Replacement(m.name, env) == Failure(e)
    ensures Join(Success(acc), SubstFrom(val, start, env)) == Failure(e)
  {
  }

  lemma SliceJoin(val: string, a: nat, b: nat, c: nat)
    requires a <= b <= c <= |val|
    ensures val[a..b] + val[b..c] == val[a..c]
  {
  }

  /** var_expand's `.strip("${}")` of the matched text is the referenced name. */
  lemma NameOfMatch(val: string, pos: nat, m: Ref)
    requires pos < |val| && MatchAt(val, pos) == Some(m) && !m.escaped
    ensures StripChars(val[pos..m.end], {'$', '{', '}'}) == m.name
  {
    GroupAtShape(val, pos);
    StripSigils(m.name);
  }

  /** The output so far is the joined pieces followed by the pending literal
      run val[prev..pos]; positions without a match extend that run. */
  lemma PendingSkip(val: string, env: Env, out: string, prev: nat, pos: nat, start: nat)
    requires prev <= pos <= start <= |val|
    requires forall k {:trigger MatchAt(val, k)} :: pos <= k < start ==> MatchAt(val, k).None?
    ensures Join(Success(out + val[prev..pos]), SubstFrom(val, pos, env)) == Join(Success(out + val[prev..start]), SubstFrom(val, start, env))
  {
    SkipTo(val, env, out + val[prev..pos], pos, start);
    SliceJoin(val, prev, pos, start);
    assert out + val[prev..pos] + val[pos..start] == out + val[prev..start];
  }

  /** An escaped match joins the pending literal run. */
  lemma PendingEscaped(val: string, env: Env, out: string, prev: nat, pos: nat)
    requires prev <= pos < |val| && MatchAt(val, pos).Some? && MatchAt(val, pos).value.escaped
    ensures pos + 2 <= |val|
    ensures Join(Success(out + val[prev..pos]), SubstFrom(val, pos, env)) == Join(Success(out + val[prev..pos + 2]), SubstFrom(val, pos + 2, env))
  {
    EscapedStep(val, env, out + val[prev..pos], pos);
    SliceJoin(val, prev, pos, pos + 2);
    assert out + val[prev..pos] + val[pos..pos + 2] == out + val[prev..pos + 2];
  }

  /** The arm of var_expand's loop for an unescaped match at pos: the pending
      literal run val[prev..pos] is flushed to the output, the name is
      recovered from the matched text and its binding appended. The result
      is the new output, or the ValueError for a non-string binding. */
  method ReplaceRef(val: string, env: Env, out: string, prev: nat, pos: nat, m: Ref) returns (res: Result<string, InterpError>)
    requires prev <= pos < |val| && MatchAt(val, pos) == Some(m) && !m.escaped
    ensures Join(Success(out + val[prev..pos]), SubstFrom(val, pos, env)) == Join(res, SubstFrom(val, m.end, env))
  {
    var name := StripChars(val[pos..m.end], {'$', '{', '}'});
    assert name == m.name by {
      NameOfMatch(val, pos, m);
    }
    ghost var acc := out + val[prev..pos];
    var o := out;
    if prev != pos {
      o := o + val[prev..pos];
    }
    assert o == acc by {
      assert prev != pos || val[prev..pos] == [];
    }
    // the binding must be a string; an unbound name expands to nothing
    match Replacement(name, env)
    case Failure(e) =>
      RefStepFails(val, env, acc, pos, m, e);
      res := Failure(e);
    case Success(v) =>
      RefStep(val, env, acc, pos, m, v);
      res := Success(o + v);
  }

  /** The body of var_expand's loop for the match found at pos: an escaped
      match joins the pending literal run and the scan resumes two characters
      on; an unescaped one is replaced and the scan resumes at its end. The
      result is the new output, or the ValueError of the reference. */
  method ScanMatch(val: string, env: Env, out: string, prev: nat, pos: nat)
    returns (res: Result<string, InterpError>, prev': nat, pos': nat)
    requires prev <= pos < |val| && MatchAt(val, pos).Some?
    ensures pos < pos' && prev' <= pos' <= |val|
    ensures Join(Success(out + val[prev..pos]), SubstFrom(val, pos, env)) ==
      Join(if res.Success? then Success(res.value + val[prev'..pos']) else res, SubstFrom(val, pos', env))
  {
    var m := MatchAt(val, pos).value;
    if val[pos] == '\\' {
      // escaped: either `\$` or `\${`; skipping two ahead covers both
      PendingEscaped(val, env, out, prev, pos);
      res, prev', pos' := Success(out), prev, pos + 2;
    } else {
      res := ReplaceRef(val, env, out, prev, pos, m);
      prev', pos' := m.end, m.end;
      if res.Success? {
        assert res.value + val[prev'..pos'] == res.value;
      }
    }
  }

  /** The scanning loop of var_expand: the joined pieces followed by the
      rest of the span after the last reference, proved to be the
      substitution pass Subst. The list of pieces `l` that the source joins
      at the end is kept here already joined, as the string `out`. */
  method SubstituteRefs(val: string, env: Env) returns (r: Result<string, InterpError>)
    ensures r == Subst(val, env)
  {
    var prev, pos := 0, 0;
    var out: string := [];
    var match_ := Search(val, 0);
    assert out + val[prev..pos] == [];
    JoinEmpty(SubstFrom(val, 0, env));
    while match_.Some?
      invariant 0 <= prev <= pos <= |val|
      invariant match_ == Search(val, pos)
      invariant Subst(val, env) == Join(Success(out + val[prev..pos]), SubstFrom(val, pos, env))
      decreases |val| - pos
    {
      var start := match_.value;
      PendingSkip(val, env, out, prev, pos, start);
      pos := start;
      var turn;
      turn, prev, pos := ScanMatch(val, env, out, prev, pos);
      if turn.Failure? {
        return Failure(turn.error);
      }
      out := turn.value;
      match_ := Search(val, pos);
    }
    PendingSkip(val, env, out, prev, pos, |val|);
    assert val[prev..|val|] == val[prev..];
    assert out + val[prev..] + [] == out + val[prev..];
    r := Success(out + val[prev..]);
  }

  /** var_expand: the substitution scan, then the backslash pass over its
      result. */
  method VarExpand(val: string, env: Env) returns (r: Result<string, InterpError>)
    ensures r == Expand(val, env)
  {
    var joined := SubstituteRefs(val, env);
    if joined.Failure? {
      return Failure(joined.error);
    }
    r := Success(Unescape(joined.value));
  }

  /** Text without `$` and backslash is copied by the scan. */
  lemma NoSigilsNoMatch(s: string, i: nat, j: nat)
    requires i <= j <= |s|
    requires forall k :: i <= k < j ==> s[k] != '$' && s[k] != '\\'
    ensures forall k {:trigger MatchAt(s, k)} :: i <= k < j ==> MatchAt(s, k).None?
  {
  }

  lemma {:induction false} UnescapeIdentity(s: string)
    requires '\\' !in s
    ensures Unescape(s) == s
  {
    if |s| > 0 {
      UnescapeIdentity(s[1..]);
    }
  }

  /** var_expand is the identity on text without `$` and without backslash. */
  lemma ExpandIdentity(s: string, env: Env)
    requires '$' !in s && '\\' !in s
    ensures Expand(s, env) == Success(s)
  {
    NoSigilsNoMatch(s, 0, |s|);
    SubstSkip(s, 0, |s|, env);
    assert s[0..|s|] == s && s + [] == s;
    UnescapeIdentity(s);
  }

  /** `$NAME` at index i, with NAME the whole run of word characters there, is
      replaced by its binding (the empty string when unbound), and the scan
      continues right after the name. */
  lemma SubstReference(s: string, i: nat, name: string, env: Env)
    requires IsName(name) && i + 1 + |name| <= |s|
    requires s[i] == '$' && s[i + 1..i + 1 + |name|] == name
    requires i + 1 + |name| == |s| || !IsWordChar(s[i + 1 + |name|])
    ensures SubstFrom(s, i, env) == Join(Replacement(name, env), SubstFrom(s, i + 1 + |name|, env))
  {
    assert s[i + 1] == name[0];
    WordRunSpan(s, i + 1, i + 1 + |name|);
  }

  /** `${NAME}` at index i is replaced by the binding of NAME, and the scan
      continues after the closing brace. */
  lemma SubstBracedReference(s: string, i: nat, name: string, env: Env)
    requires IsName(name) && i + 3 + |name| <= |s|
    requires s[i] == '$' && s[i + 1] == '{' && s[i + 2..i + 2 + |name|] == name && s[i + 2 + |name|] == '}'
    ensures SubstFrom(s, i, env) == Join(Replacement(name, env), SubstFrom(s, i + 3 + |name|, env))
  {
    WordRunSpan(s, i + 2, i + 2 + |name|);
    assert GroupAt(s, i) == Some((name, i + 3 + |name|));
    assert MatchAt(s, i) == Some(Ref(false, name, i + 3 + |name|));
  }

  /** The word run from i ends at j when s[i..j] are word characters and s[j]
      is not one. */
  lemma {:induction false} WordRunSpan(s: string, i: nat, j: nat)
    requires i <= j <= |s|
    requires forall k :: i <= k < j ==> IsWordChar(s[k])
    requires j == |s| || !IsWordChar(s[j])
    ensures WordRunFrom(s, i) == j
    decreases j - i
  {
    if i < j {
      WordRunSpan(s, i + 1, j);
    }
  }

  /** A reference to a name bound to a non-string fails with the ValueError
      that names the key. */
  lemma ExpandRejectsNonString(name: string, rest: string, env: Env)
    requires IsName(name)
    requires rest == [] || !IsWordChar(rest[0])
    requires name in env && env[name].NonStr?
    ensures Expand("$" + name + rest, env) == Failure(NotAString(name, env[name].typeName, env[name].repr))
  {
    var s := "$" + name + rest;
    assert s[1..1 + |name|] == name;
    assert 1 + |name| < |s| ==> s[1 + |name|] == rest[0];
    SubstReference(s, 0, name, env);
  }

  /** Whether or not a group follows it, a backslash-sigil pair is copied by
      the scan as it stands. */
  lemma BackslashSigilCopied(s: string, env: Env)
    requires |s| >= 2 && s[0] == '\\' && s[1] == '$'
    ensures SubstFrom(s, 0, env) == Join(Success(s[0..2]), SubstFrom(s, 2, env))
  {
    if MatchAt(s, 0).Some? {
      EscapedStep(s, env, [], 0);
      JoinEmpty(SubstFrom(s, 0, env));
      assert [] + s[0..2] == s[0..2];
    } else {
      assert MatchAt(s, 1).None?;
      SubstSkip(s, 0, 2, env);
    }
  }

  /** A backslash before the sigil protects the reference: `\$` is copied by
      the scan and collapsed to `$` by the final pass, whatever follows. */
  lemma EscapedSigilIsLiteral(t: string, env: Env)
    requires '$' !in t && '\\' !in t
    ensures Expand("\\$" + t, env) == Success("$" + t)
  {
    var s := "\\$" + t;
    BackslashSigilCopied(s, env);
    NoSigilsNoMatch(s, 2, |s|);
    SubstSkip(s, 2, |s|, env);
    assert s[2..|s|] == t && t + [] == t;
    assert SubstFrom(s, 2, env) == Success(t);
    assert s[0..2] + t == s;
    assert Subst(s, env) == Success(s);
    assert s[2..] == t;
    UnescapeIdentity(t);
    assert Unescape(s) == "$" + t;
  }

  /** Backslash-newline is left alone by the final pass. */
  lemma UnescapeKeepsLineContinuation(t: string)
    ensures Unescape("\\\n" + t) == "\\\n" + Unescape(t)
  {
    var s := "\\\n" + t;
    assert s[1..] == "\n" + t;
    assert s[1..][1..] == t;
  }

  /** Escaping every character but newline with a backslash. */
  function EscapeAll(s: string): string
  {
    if |s| == 0 then []
    else if s[0] == '\n' then "\n" + EscapeAll(s[1..])
    else ['\\', s[0]] + EscapeAll(s[1..])
  }

  /** The final pass undoes backslash-escaping of any text. */
  lemma {:induction false} UnescapeEscapeAll(s: string)
    ensures Unescape(EscapeAll(s)) == s
  {
    if |s| > 0 {
      var e := EscapeAll(s);
      UnescapeEscapeAll(s[1..]);
      if s[0] == '\n' {
        assert e[1..] == EscapeAll(s[1..]);
      } else {
        assert e[2..] == EscapeAll(s[1..]);
      }
    }
  }
}
