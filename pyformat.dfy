/** The two conversions the error messages of snakeoil/bash.py use: `%i` of a
    line number and `%r` of a token, which is a Python 2 byte string or None. */
module PyFormat {
  import opened Wrappers

  function DigitChar(d: nat): char
    requires d < 10
  {
    ('0' as int + d) as char
  }

  /** `%i` of a non-negative integer: its decimal digits, no leading zero. */
  function Decimal(n: nat): (s: string)
    ensures s != [] && (s[0] == '0' ==> n == 0)
    ensures forall i :: 0 <= i < |s| ==> '0' <= s[i] <= '9'
  {
    if n < 10 then [DigitChar(n)] else Decimal(n / 10) + [DigitChar(n % 10)]
  }

  /** The value of a string of decimal digits. */
  function DecimalValue(s: string): nat
    requires forall i :: 0 <= i < |s| ==> '0' <= s[i] <= '9'
  {
    if |s| == 0 then 0 else DecimalValue(s[..|s| - 1]) * 10 + (s[|s| - 1] as int - '0' as int)
  }

  /** The digits read back to the number. */
  lemma {:induction false} DecimalRoundTrip(n: nat)
    ensures DecimalValue(Decimal(n)) == n
  {
    var s := Decimal(n);
    if n >= 10 {
      DecimalRoundTrip(n / 10);
      assert s[..|s| - 1] == Decimal(n / 10);
    }
  }

  function HexDigit(d: nat): char
    requires d < 16
  {
    if d < 10 then ('0' as int + d) as char else ('a' as int + d - 10) as char
  }

  /** `%x`: lower-case hexadecimal digits. */
  function Hex(n: nat): (s: string)
    ensures s != []
  {
    if n < 16 then [HexDigit(n)] else Hex(n / 16) + [HexDigit(n % 16)]
  }

  /** `%02x`: at least two hexadecimal digits. */
  function Hex02(n: nat): string
  {
    if n < 16 then "0" + Hex(n) else Hex(n)
  }

  /** Python 2 repr() of one character of a byte string inside quotes `q`:
      the quote and the backslash are escaped, tab, newline and carriage
      return get their letter escapes, any other character below space or
      from 0x7f on is written `\xNN`. */
  function EscapeChar(c: char, q: char): string
  {
    if c == q || c == '\\' then ['\\', c]
    else if c == '\t' then "\\t"
    else if c == '\n' then "\\n"
    else if c == '\r' then "\\r"
    else if c < ' ' || c >= '\U{7F}' then "\\x" + Hex02(c as nat)
    else [c]
  }

  function EscapeBody(s: string, q: char): string
  {
    if |s| == 0 then [] else EscapeChar(s[0], q) + EscapeBody(s[1..], q)
  }

  /** The quote repr() chooses: double quotes when the text holds a single
      quote and no double quote, single quotes otherwise. */
  function QuoteFor(s: string): char
  {
    if '\'' in s && '"' !in s then '"' else '\''
  }

  /** Python 2 repr() of a byte string. */
  function Repr(s: string): (r: string)
    ensures |r| >= 2 && r[0] == r[|r| - 1] == QuoteFor(s)
  {
    var q := QuoteFor(s);
    [q] + EscapeBody(s, q) + [q]
  }

  /** `%r` of a token that may be None. */
  function ReprOption(t: Option<string>): string
  {
    match t
    case None => "None"
    case Some(s) => Repr(s)
  }

  /** Printable text without quotes or backslashes is shown between single
      quotes as it stands. */
  lemma {:induction false} ReprPlain(s: string)
    requires forall i :: 0 <= i < |s| ==> ' ' <= s[i] < '\U{7F}' && s[i] != '\'' && s[i] != '"' && s[i] != '\\'
    ensures Repr(s) == "'" + s + "'"
  {
    EscapeBodyPlain(s, '\'');
  }

  lemma {:induction false} EscapeBodyPlain(s: string, q: char)
    requires forall i :: 0 <= i < |s| ==> ' ' <= s[i] < '\U{7F}' && s[i] != q && s[i] != '\\'
    ensures EscapeBody(s, q) == s
  {
    if |s| > 0 {
      EscapeBodyPlain(s[1..], q);
      assert s == [s[0]] + s[1..];
    }
  }

  function HexValue(c: char): Option<nat>
  {
    if '0' <= c <= '9' then Some(c as nat - '0' as nat)
    else if 'a' <= c <= 'f' then Some(c as nat - 'a' as nat + 10)
    else None
  }

  /** Reading a Python 2 string literal body back: the escapes repr()
      writes are undone. */
  function UnescapeBody(b: string): Option<string>
  {
    if |b| == 0 then Some([])
    else if b[0] != '\\' then
      match UnescapeBody(b[1..])
      case Some(rest) => Some([b[0]] + rest)
      case None => None
    else if |b| < 2 then None
    else
      var e := b[1];
      if e == 'x' then
        if |b| < 4 then None
        else
          match (HexValue(b[2]), HexValue(b[3]))
          case (Some(h), Some(l)) =>
            (match UnescapeBody(b[4..])
             case Some(rest) => Some([(h * 16 + l) as char] + rest)
             case None => None)
          case _ => None
      else
        var c := if e == 't' then '\t' else if e == 'n' then '\n' else if e == 'r' then '\r' else e;
        match UnescapeBody(b[2..])
        case Some(rest) => Some([c] + rest)
        case None => None
  }

  /** Reading a quoted literal back. */
  function Unrepr(r: string): Option<string>
  {
    if |r| >= 2 && r[0] == r[|r| - 1] && (r[0] == '\'' || r[0] == '"') then UnescapeBody(r[1..|r| - 1])
    else None
  }

  lemma HexValueDigit(d: nat)
    requires d < 16
    ensures HexValue(HexDigit(d)) == Some(d)
  {
  }

  /** One escaped character reads back to itself. */
  lemma EscapeCharRoundTrip(c: char, q: char, rest: string)
    requires c as int <= 0xff && (q == '\'' || q == '"')
    ensures UnescapeBody(EscapeChar(c, q) + rest) ==
      match UnescapeBody(rest)
      case Some(t) => Some([c] + t)
      case None => None
  {
    var b := EscapeChar(c, q) + rest;
    if c == q || c == '\\' || c == '\t' || c == '\n' || c == '\r' {
      assert b[0] == '\\' && b[1] != 'x' && b[2..] == rest;
    } else if c < ' ' || c >= '\U{7F}' {
      HexEscapeRoundTrip(c, rest);
    } else {
      assert b[0] == c && b[1..] == rest;
    }
  }

  lemma HexEscapeRoundTrip(c: char, rest: string)
    requires c as int <= 0xff
    ensures UnescapeBody("\\x" + Hex02(c as nat) + rest) ==
      match UnescapeBody(rest)
      case Some(t) => Some([c] + t)
      case None => None
  {
    var n := c as nat;
    var b := "\\x" + Hex02(n) + rest;
    HexValueDigit(n / 16);
    HexValueDigit(n % 16);
    assert Hex(n / 16) == [HexDigit(n / 16)];
    assert Hex02(n) == [HexDigit(n / 16), HexDigit(n % 16)];
    assert b[0] == '\\' && b[1] == 'x' && b[2] == HexDigit(n / 16) && b[3] == HexDigit(n % 16);
    assert b[4..] == rest;
    assert ((n / 16) * 16 + n % 16) as char == c;
  }

  lemma {:induction false} EscapeBodyRoundTrip(s: string, q: char)
    requires forall i :: 0 <= i < |s| ==> s[i] as int <= 0xff
    requires q == '\'' || q == '"'
    ensures UnescapeBody(EscapeBody(s, q)) == Some(s)
  {
    if |s| > 0 {
      var rest := EscapeBody(s[1..], q);
      assert EscapeBody(s, q) == EscapeChar(s[0], q) + rest;
      EscapeBodyRoundTrip(s[1..], q);
      assert UnescapeBody(rest) == Some(s[1..]);
      EscapeCharRoundTrip(s[0], q, rest);
      assert [s[0]] + s[1..] == s;
    }
  }

  /** repr() of a byte string reads back to the string. */
  lemma ReprRoundTrip(s: string)
    requires forall i :: 0 <= i < |s| ==> s[i] as int <= 0xff
    ensures Unrepr(Repr(s)) == Some(s)
  {
    var q := QuoteFor(s);
    var r := Repr(s);
    assert r[1..|r| - 1] == EscapeBody(s, q);
    EscapeBodyRoundTrip(s, q);
  }
}
