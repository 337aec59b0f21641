/** Quoting as strconv.Quote writes it (core/policy/policy.go). */
module Quoting {
  function HexDigit(d: nat): char
    requires d < 16
  {
    if d < 10 then '0' + d as char else 'a' + (d - 10) as char
  }

  /** The last `width` hexadecimal digits of n. */
  function Hex(n: nat, width: nat): (s: string)
    ensures |s| == width
  {
    if width == 0 then "" else Hex(n / 16, width - 1) + [HexDigit(n % 16)]
  }

  function Power(width: nat): nat {
    if width == 0 then 1 else 16 * Power(width - 1)
  }

  lemma {:induction false} HexIsOneToOne(a: nat, b: nat, width: nat)
    requires a < Power(width) && b < Power(width) && Hex(a, width) == Hex(b, width)
    ensures a == b
  {
    if width == 0 {
    } else {
      var x, y := Hex(a, width), Hex(b, width);
      assert x[width - 1] == y[width - 1];
      assert Hex(a / 16, width - 1) == x[..width - 1] && Hex(b / 16, width - 1) == y[..width - 1];
      HexIsOneToOne(a / 16, b / 16, width - 1);
    }
  }

  /** Which characters print as themselves is the Unicode tables', so it is a parameter. */
  type Printable = char -> bool

  function Escape(c: char, printable: Printable): string {
    if c == '"' then "\\\""
    else if c == '\\' then "\\\\"
    else if printable(c) then [c]
    else if c == 7 as char then "\\a"
    else if c == 8 as char then "\\b"
    else if c == 12 as char then "\\f"
    else if c == '\n' then "\\n"
    else if c == '\r' then "\\r"
    else if c == '\t' then "\\t"
    else if c == 11 as char then "\\v"
    else if c < ' ' || c == 127 as char then "\\x" + Hex(c as nat, 2)
    else if c as nat < 0x1_0000 then "\\u" + Hex(c as nat, 4)
    else "\\U" + Hex(c as nat, 8)
  }

  function Body(s: string, printable: Printable): string {
    if s == "" then "" else Escape(s[0], printable) + Body(s[1..], printable)
  }

  function Quote(s: string, printable: Printable): string {
    "\"" + Body(s, printable) + "\""
  }

  lemma EscapeShape(c: char, printable: Printable)
    ensures var e := Escape(c, printable);
            && |e| >= 1 && e[0] != '"'
            && (|e| == 1 ==> e[0] == c && c != '\\')
            && (|e| > 1 ==> e[0] == '\\')
            && (|e| > 1 ==> |e| == if e[1] == 'x' then 4 else if e[1] == 'u' then 6 else if e[1] == 'U' then 10 else 2)
  {
  }

  lemma Powers()
    ensures Power(2) == 0x100 && Power(4) == 0x1_0000 && Power(8) == 0x1_0000_0000
  {
    assert Power(1) == 16 && Power(3) == 16 * Power(2) && Power(5) == 16 * Power(4);
    assert Power(6) == 16 * Power(5) && Power(7) == 16 * Power(6);
  }

  lemma HexEscape(c: char, printable: Printable)
    requires |Escape(c, printable)| > 2
    ensures var e := Escape(c, printable); e[2..] == Hex(c as nat, |e| - 2) && c as nat < Power(|e| - 2)
  {
    assert Power(2) == 0x100 && Power(4) == 0x1_0000 by { Powers(); }
    assert Power(8) == 0x1_0000_0000 by { Powers(); }
  }

  lemma SameEscape(c: char, d: char, printable: Printable)
    requires Escape(c, printable) == Escape(d, printable)
    ensures c == d
  {
    hide Hex, Power;
    var e, f := Escape(c, printable), Escape(d, printable);
    EscapeShape(c, printable);
    EscapeShape(d, printable);
    if |e| > 2 {
      assert e[2..] == f[2..];
      HexEscape(c, printable);
      HexEscape(d, printable);
      HexIsOneToOne(c as nat, d as nat, |e| - 2);
    } else if |e| == 2 {
      assert e[1] == f[1];
    }
  }

  /** No character's escape begins another's. */
  lemma EscapesDiffer(c: char, d: char, x: string, y: string, printable: Printable)
    requires Escape(c, printable) + x == Escape(d, printable) + y
    ensures c == d && x == y
  {
    var e, f := Escape(c, printable), Escape(d, printable);
    EscapeShape(c, printable);
    EscapeShape(d, printable);
    assert (e + x)[0] == e[0] && (f + y)[0] == f[0];
    if |e| > 1 {
      assert (e + x)[1] == e[1] && (f + y)[1] == f[1];
    }
    assert |e| == |f|;
    assert e == (e + x)[..|e|] == (f + y)[..|f|] == f;
    assert x == (e + x)[|e|..] == (f + y)[|f|..] == y;
    SameEscape(c, d, printable);
  }

  lemma {:induction false} BodyDelimited(a: string, b: string, x: string, y: string, printable: Printable)
    requires Body(a, printable) + "\"" + x == Body(b, printable) + "\"" + y
    ensures a == b && x == y
    decreases |a|
  {
    hide Escape;
    var s, t := Body(a, printable) + "\"" + x, Body(b, printable) + "\"" + y;
    if a == "" || b == "" {
      assert a == "" ==> s[0] == '"';
      assert b == "" ==> t[0] == '"';
      if a != "" {
        EscapeShape(a[0], printable);
      }
      if b != "" {
        EscapeShape(b[0], printable);
      }
      assert s[1..] == x && t[1..] == y;
    } else {
      var p, q := Body(a[1..], printable) + "\"" + x, Body(b[1..], printable) + "\"" + y;
      assert s == Escape(a[0], printable) + p && t == Escape(b[0], printable) + q;
      EscapesDiffer(a[0], b[0], p, q, printable);
      BodyDelimited(a[1..], b[1..], x, y, printable);
      assert a == [a[0]] + a[1..] && b == [b[0]] + b[1..];
    }
  }

  /** A quoted text says where it ends and what it quotes, whatever follows. */
  lemma QuoteDelimits(a: string, b: string, x: string, y: string, printable: Printable)
    requires Quote(a, printable) + x == Quote(b, printable) + y
    ensures a == b && x == y
  {
    hide Body;
    var s, t := Quote(a, printable) + x, Quote(b, printable) + y;
    assert s[1..] == Body(a, printable) + "\"" + x && t[1..] == Body(b, printable) + "\"" + y;
    BodyDelimited(a, b, x, y, printable);
  }
}
