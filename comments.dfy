/** The comment filter of snakeoil/bash.py (iter_read_bash, read_bash): every
    line is stripped, blank lines and lines starting with `#` are dropped, and in
    inline mode the rest of a line from its first `#` is cut off. The cut is not
    quote-aware: a `#` inside quotes still starts a comment. */
module CommentFilter {
  import opened Wrappers

  /** Whitespace as Python 2's byte-string strip() sees it. */
  predicate IsSpace(c: char) {
    c == ' ' || c == '\t' || c == '\n' || c == '\r' || c == '\U{0B}' || c == '\U{0C}'
  }

  /** s.lstrip(): drops the leading whitespace, and only that. */
  function LStrip(s: string): (r: string)
    ensures |r| <= |s| && r == s[|s| - |r|..]
    ensures |r| > 0 ==> !IsSpace(r[0])
    ensures forall i :: 0 <= i < |s| - |r| ==> IsSpace(s[i])
  {
    if |s| > 0 && IsSpace(s[0]) then LStrip(s[1..]) else s
  }

  /** s.rstrip(): drops the trailing whitespace, and only that. */
  function RStrip(s: string): (r: string)
    ensures |r| <= |s| && r == s[..|r|]
    ensures |r| > 0 ==> !IsSpace(r[|r| - 1])
    ensures forall i :: |r| <= i < |s| ==> IsSpace(s[i])
  {
    if |s| > 0 && IsSpace(s[|s| - 1]) then RStrip(s[..|s| - 1]) else s
  }

  /** r is the slice of s that starts at k, and everything of s before and
      after that slice is whitespace. */
  predicate StrippedAt(s: string, r: string, k: nat) {
    && k + |r| <= |s|
    && (forall j :: 0 <= j < |r| ==> r[j] == s[k + j])
    && (forall i :: 0 <= i < k ==> IsSpace(s[i]))
    && (forall i :: k + |r| <= i < |s| ==> IsSpace(s[i]))
  }

  /** s.strip(): the input without its leading and trailing whitespace. */
  function Strip(s: string): (r: string)
    ensures |r| > 0 ==> !IsSpace(r[0]) && !IsSpace(r[|r| - 1])
    ensures |r| == 0 <==> forall i :: 0 <= i < |s| ==> IsSpace(s[i])
    ensures exists k :: StrippedAt(s, r, k)
  {
    StripEnds(s);
    StripFrame(s);
    RStrip(LStrip(s))
  }

  lemma StripEnds(s: string)
    ensures |RStrip(LStrip(s))| > 0 ==> !IsSpace(RStrip(LStrip(s))[0]) && !IsSpace(RStrip(LStrip(s))[|RStrip(LStrip(s))| - 1])
    ensures |RStrip(LStrip(s))| == 0 <==> forall i :: 0 <= i < |s| ==> IsSpace(s[i])
  {
    var l := LStrip(s);
    var r := RStrip(l);
    assert |r| > 0 ==> r[0] == l[0];
  }

  lemma StripFrame(s: string)
    ensures StrippedAt(s, RStrip(LStrip(s)), |s| - |LStrip(s)|)
  {
    var l := LStrip(s);
    var r := RStrip(l);
    SuffixIndex(s, l);
    PrefixIndex(l, r);
    StrippedFrom(s, l, r);
  }

  /** Whitespace stripped from the front (l) and then from the back (r),
      stated element by element. */
  lemma StrippedFrom(s: string, l: string, r: string)
    requires |r| <= |l| <= |s|
    requires forall i :: 0 <= i < |l| ==> l[i] == s[|s| - |l| + i]
    requires forall i :: 0 <= i < |r| ==> r[i] == l[i]
    requires forall i :: 0 <= i < |s| - |l| ==> IsSpace(s[i])
    requires forall i :: |r| <= i < |l| ==> IsSpace(l[i])
    ensures StrippedAt(s, r, |s| - |l|)
  {
    var k := |s| - |l|;
    forall i | k + |r| <= i < |s|
      ensures IsSpace(s[i])
    {
      assert s[i] == l[i - k];
    }
  }

  /** s.split("#", 1)[0]: everything before the first `#`. */
  function BeforeHash(s: string): (r: string)
    ensures |r| <= |s| && r == s[..|r|]
    ensures '#' !in r
    ensures |r| < |s| ==> s[|r|] == '#'
  {
    if |s| == 0 || s[0] == '#' then [] else [s[0]] + BeforeHash(s[1..])
  }

  /** The per-line rule of iter_read_bash: None when the line is dropped,
      otherwise the cleaned line. */
  function CleanLine(line: string, inlineComments: bool): Option<string>
  {
    var s := Strip(line);
    if |s| > 0 && s[0] != '#' then
      Some(if inlineComments then RStrip(BeforeHash(s)) else s)
    else
      None
  }

  /** What a kept line looks like: non-empty, stripped on both sides, not a
      `#` line, and in inline mode free of `#` altogether. */
  predicate IsCleanLine(x: string, inlineComments: bool) {
    && x != []
    && x[0] != '#'
    && !IsSpace(x[0])
    && !IsSpace(x[|x| - 1])
    && (inlineComments ==> '#' !in x)
  }

  lemma CleanLineIsClean(line: string, inlineComments: bool)
    ensures CleanLine(line, inlineComments).Some? ==> IsCleanLine(CleanLine(line, inlineComments).value, inlineComments)
    ensures CleanLine(line, inlineComments).None? <==>
      (forall i :: 0 <= i < |line| ==> IsSpace(line[i])) || Strip(line)[0] == '#'
  {
    var s := Strip(line);
    if |s| > 0 && s[0] != '#' && inlineComments {
      var b := BeforeHash(s);
      assert b != [] && b[0] == s[0];
      var r := RStrip(b);
      assert r != [] && r[0] == s[0];
    }
  }

  /** The lines one input line contributes: none or its cleaned form. */
  function Kept(line: string, inlineComments: bool): seq<string>
  {
    match CleanLine(line, inlineComments)
    case Some(x) => [x]
    case None => []
  }

  /** The sequence of lines iter_read_bash yields, in input order. */
  function FilterLines(lines: seq<string>, inlineComments: bool): seq<string>
  {
    if |lines| == 0 then [] else Kept(lines[0], inlineComments) + FilterLines(lines[1..], inlineComments)
  }

  /** Filtering distributes over concatenation of the input: the output keeps
      the input order and a line's fate depends only on that line. */
  lemma {:induction false} FilterLinesAppend(a: seq<string>, b: seq<string>, inlineComments: bool)
    ensures FilterLines(a + b, inlineComments) == FilterLines(a, inlineComments) + FilterLines(b, inlineComments)
  {
    if |a| == 0 {
      assert a + b == b;
    } else {
      FilterLinesAppend(a[1..], b, inlineComments);
      FilterLinesTail(a, b, inlineComments);
      ConcatAssoc(Kept(a[0], inlineComments), FilterLines(a[1..], inlineComments), FilterLines(b, inlineComments));
    }
  }

  /** Filtering a non-empty concatenation starts with the first line's part. */
  lemma FilterLinesTail(a: seq<string>, b: seq<string>, inlineComments: bool)
    requires a != []
    ensures FilterLines(a + b, inlineComments) == Kept(a[0], inlineComments) + FilterLines(a[1..] + b, inlineComments)
    ensures FilterLines(a, inlineComments) == Kept(a[0], inlineComments) + FilterLines(a[1..], inlineComments)
  {
    assert (a + b)[0] == a[0];
    assert (a + b)[1..] == a[1..] + b;
  }

  lemma FilterLinesOne(line: string, inlineComments: bool)
    ensures FilterLines([line], inlineComments) == Kept(line, inlineComments)
  {
    var one := [line];
    assert one[0] == line && one[1..] == [];
  }

  lemma FilterLinesSnoc(lines: seq<string>, i: nat, inlineComments: bool)
    requires i < |lines|
    ensures FilterLines(lines[..i + 1], inlineComments) == FilterLines(lines[..i], inlineComments) + Kept(lines[i], inlineComments)
  {
    assert lines[..i + 1] == lines[..i] + [lines[i]];
    FilterLinesAppend(lines[..i], [lines[i]], inlineComments);
    FilterLinesOne(lines[i], inlineComments);
  }

  /** No yielded line is empty, has surrounding whitespace or starts with `#`;
      in inline mode no yielded line contains `#`. */
  lemma {:induction false} FilterLinesAreClean(lines: seq<string>, inlineComments: bool)
    ensures forall x :: x in FilterLines(lines, inlineComments) ==> IsCleanLine(x, inlineComments)
  {
    if |lines| > 0 {
      CleanLineIsClean(lines[0], inlineComments);
      FilterLinesAreClean(lines[1..], inlineComments);
    }
  }

  /** A line is yielded exactly when some input line cleans to it. */
  lemma {:induction false} FilterLinesMembership(lines: seq<string>, inlineComments: bool, x: string)
    ensures x in FilterLines(lines, inlineComments) <==>
      exists i :: 0 <= i < |lines| && CleanLine(lines[i], inlineComments) == Some(x)
  {
    if |lines| > 0 {
      FilterLinesMembership(lines[1..], inlineComments, x);
      CleansToStep(lines, inlineComments, x);
    }
  }

  lemma CleansToStep(lines: seq<string>, inlineComments: bool, x: string)
    requires lines != []
    ensures (exists i :: 0 <= i < |lines| && CleanLine(lines[i], inlineComments) == Some(x)) <==>
      CleanLine(lines[0], inlineComments) == Some(x) ||
      exists i :: 0 <= i < |lines[1..]| && CleanLine(lines[1..][i], inlineComments) == Some(x)
  {
    if exists i :: 0 <= i < |lines[1..]| && CleanLine(lines[1..][i], inlineComments) == Some(x) {
      var i :| 0 <= i < |lines[1..]| && CleanLine(lines[1..][i], inlineComments) == Some(x);
      assert CleanLine(lines[i + 1], inlineComments) == Some(x);
    }
    if exists i :: 0 <= i < |lines| && CleanLine(lines[i], inlineComments) == Some(x) {
      var i :| 0 <= i < |lines| && CleanLine(lines[i], inlineComments) == Some(x);
      if i > 0 {
        assert CleanLine(lines[1..][i - 1], inlineComments) == Some(x);
      }
    }
  }

  /** read_bash: the list of lines iter_read_bash yields for an already opened
      source (a sequence of raw lines). */
  method ReadBash(lines: seq<string>, inlineComments: bool) returns (r: seq<string>)
    ensures r == FilterLines(lines, inlineComments)
    ensures forall x :: x in r ==> IsCleanLine(x, inlineComments)
  {
    r := [];
    for i := 0 to |lines|
      invariant r == FilterLines(lines[..i], inlineComments)
    {
      var c := CleanLine(lines[i], inlineComments);
      if c.Some? {
        r := r + [c.value];
      }
      FilterLinesSnoc(lines, i, inlineComments);
    }
    assert lines[..|lines|] == lines;
    FilterLinesAreClean(lines, inlineComments);
  }
}
