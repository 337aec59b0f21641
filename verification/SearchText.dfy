/** Gmail's search text: how a compiled term is written, and a reader of it (provider/gmail/query.go). */
module SearchText {
  import opened Wrappers

  datatype Term = AfterSecond(n: int) | BeforeSecond(n: int) | FromAddress(address: string)

  // ---------------------------------------------------------------- decimal integers

  function Digit(d: nat): char
    requires d < 10
  {
    '0' + d as char
  }

  predicate IsDigit(c: char) { '0' <= c <= '9' }

  function Digits(n: nat): string {
    if n < 10 then [Digit(n)] else Digits(n / 10) + [Digit(n % 10)]
  }

  function FormatInt(n: int): string {
    if n < 0 then "-" + Digits(-n) else Digits(n)
  }

  function ReadNat(s: string): Option<nat> {
    if s == "" then None
    else
      var c := s[|s| - 1];
      if !IsDigit(c) then None
      else if |s| == 1 then Some((c - '0') as nat)
      else match ReadNat(s[..|s| - 1])
        case None => None
        case Some(n) => Some(10 * n + (c - '0') as nat)
  }

  function ReadInt(s: string): Option<int> {
    if s != "" && s[0] == '-' then
      match ReadNat(s[1..])
      case None => None
      case Some(n) => var value: int := n; Some(-value)
    else
      match ReadNat(s)
      case None => None
      case Some(n) => var value: int := n; Some(value)
  }

  lemma {:induction false} DigitsRead(n: nat)
    ensures Digits(n) != "" && (forall c <- Digits(n) :: IsDigit(c))
    ensures ReadNat(Digits(n)) == Some(n)
  {
    if n < 10 {
    } else {
      DigitsRead(n / 10);
      assert Digits(n)[..|Digits(n)| - 1] == Digits(n / 10);
    }
  }

  lemma IntReads(n: int)
    ensures ReadInt(FormatInt(n)) == Some(n)
    ensures forall c <- FormatInt(n) :: IsDigit(c) || c == '-'
  {
    hide Digits, ReadNat;
    if n < 0 {
      DigitsRead(-n);
      assert FormatInt(n)[1..] == Digits(-n);
    } else {
      DigitsRead(n);
      assert Digits(n)[0] in Digits(n);
      assert FormatInt(n)[0] != '-';
    }
  }

  // ---------------------------------------------------------------- writing

  predicate AddressCharacter(c: char) {
    'a' <= c <= 'z' || 'A' <= c <= 'Z' || '0' <= c <= '9' || c in ".@_+-%"
  }

  /** An address that can stand between double quotes without changing the query's meaning. */
  predicate Quotable(address: string) {
    address != "" && forall c <- address :: AddressCharacter(c)
  }

  function Render(t: Term): string {
    match t
    case AfterSecond(n) => "after:" + FormatInt(n)
    case BeforeSecond(n) => "before:" + FormatInt(n)
    case FromAddress(a) => "from:\"" + a + "\""
  }

  function Join(words: seq<string>, sep: string): string {
    if words == [] then "" else if |words| == 1 then words[0] else words[0] + sep + Join(words[1..], sep)
  }

  function RenderAll(terms: seq<Term>): seq<string> {
    seq(|terms|, i requires 0 <= i < |terms| => Render(terms[i]))
  }

  // ---------------------------------------------------------------- reading

  /** s up to the first c, and what follows that c, or all of s and nothing. */
  function Until(s: string, c: char): (string, Option<string>) {
    if s == "" then ("", None)
    else if s[0] == c then ("", Some(s[1..]))
    else var (before, after) := Until(s[1..], c); ([s[0]] + before, after)
  }

  predicate HasPrefix(s: string, p: string) { |p| <= |s| && s[..|p|] == p }

  /** One term at the head of s, with what follows the space after it, if any. A quoted value runs to the
      next quote, spaces included, and must be followed by a space or the end. */
  function ReadTerm(s: string): Option<(Term, Option<string>)> {
    if HasPrefix(s, "from:\"") then
      var (address, rest) := Until(s[6..], '"');
      if rest.None? then None
      else if rest.value == "" then Some((FromAddress(address), None))
      else if rest.value[0] == ' ' then Some((FromAddress(address), Some(rest.value[1..])))
      else None
    else
      var (word, rest) := Until(s, ' ');
      if HasPrefix(word, "after:") && ReadInt(word[6..]).Some? then Some((AfterSecond(ReadInt(word[6..]).value), rest))
      else if HasPrefix(word, "before:") && ReadInt(word[7..]).Some?
      then Some((BeforeSecond(ReadInt(word[7..]).value), rest))
      else None
  }

  lemma {:induction false} UntilShrinks(s: string, c: char)
    ensures Until(s, c).1.Some? ==> |Until(s, c).1.value| < |s|
    decreases |s|
  {
    if s != "" && s[0] != c {
      UntilShrinks(s[1..], c);
    }
  }

  lemma ReadTermShrinks(s: string)
    ensures ReadTerm(s).Some? && ReadTerm(s).value.1.Some? ==> |ReadTerm(s).value.1.value| < |s|
  {
    UntilShrinks(s, ' ');
    if HasPrefix(s, "from:\"") {
      UntilShrinks(s[6..], '"');
    }
  }

  /** The terms a search text means, or none when it is no list of terms. */
  function ReadTerms(s: string): Option<seq<Term>>
    decreases |s|
  {
    if s == "" then Some([])
    else match ReadTerm(s)
      case None => None
      case Some((t, None)) => Some([t])
      case Some((t, Some(rest))) =>
        ReadTermShrinks(s);
        if rest == "" then None
        else match ReadTerms(rest)
          case None => None
          case Some(ts) => Some([t] + ts)
  }

  // ---------------------------------------------------------------- the round trip

  lemma {:induction false} UntilFound(s: string, c: char, rest: string)
    requires c !in s
    ensures Until(s + [c] + rest, c) == (s, Some(rest))
    decreases |s|
  {
    if s != "" {
      assert (s + [c] + rest)[1..] == s[1..] + [c] + rest;
      UntilFound(s[1..], c, rest);
      assert [s[0]] + s[1..] == s;
    } else {
      assert ([c] + rest)[1..] == rest;
      assert s + [c] + rest == [c] + rest;
    }
  }

  lemma {:induction false} UntilEnd(s: string, c: char)
    requires c !in s
    ensures Until(s, c) == (s, None)
    decreases |s|
  {
    if s == "" {
    } else {
      UntilEnd(s[1..], c);
      assert [s[0]] + s[1..] == s;
    }
  }

  function After(rest: Option<string>): string {
    if rest.Some? then " " + rest.value else ""
  }

  lemma NoQuote(a: string)
    requires Quotable(a)
    ensures '"' !in a
  {
    assert forall c <- a :: AddressCharacter(c);
  }

  lemma AddressSplits(a: string, tail: string)
    requires Quotable(a)
    ensures var s := Render(FromAddress(a)) + tail;
            '"' !in a && |s| >= 6 && s[..6] == "from:\"" && s[6..] == a + ['"'] + tail
  {
    var s := Render(FromAddress(a)) + tail;
    assert s == "from:\"" + (a + ['"'] + tail);
    NoQuote(a);
  }

  lemma AddressReads(a: string, rest: Option<string>)
    requires Quotable(a)
    ensures ReadTerm(Render(FromAddress(a)) + After(rest)) == Some((FromAddress(a), rest))
  {
    hide ReadInt, Until, Quotable, Render;
    var s := Render(FromAddress(a)) + After(rest);
    AddressSplits(a, After(rest));
    UntilFound(a, '"', After(rest));
    if rest.Some? {
      assert (" " + rest.value)[1..] == rest.value;
    }
  }

  lemma WordReads(op: string, n: int, rest: Option<string>)
    requires op == "after:" || op == "before:"
    ensures var s := op + FormatInt(n) + After(rest);
            && !HasPrefix(s, "from:\"")
            && Until(s, ' ') == (op + FormatInt(n), rest)
            && (op + FormatInt(n))[|op|..] == FormatInt(n) && HasPrefix(op + FormatInt(n), op)
  {
    hide FormatInt;
    var word := op + FormatInt(n);
    IntReads(n);
    assert ' ' !in op && ' ' !in FormatInt(n);
    assert ' ' !in word;
    var s := word + After(rest);
    assert s[0] == word[0] == op[0];
    if rest.Some? {
      UntilFound(word, ' ', rest.value);
      assert s == word + [' '] + rest.value;
    } else {
      UntilEnd(word, ' ');
      assert s == word;
    }
  }

  lemma DateReads(t: Term, op: string, n: int, rest: Option<string>)
    requires (op == "after:" && t == AfterSecond(n)) || (op == "before:" && t == BeforeSecond(n))
    ensures ReadTerm(Render(t) + After(rest)) == Some((t, rest))
  {
    hide ReadInt, FormatInt, Until;
    IntReads(n);
    WordReads(op, n, rest);
    var word := op + FormatInt(n);
    assert Render(t) == word;
    assert Until(word + After(rest), ' ') == (word, rest);
    if op == "before:" {
      assert word[0] == 'b' && word[..6][0] == word[0];
      assert !HasPrefix(word, "after:");
    }
  }

  /** A term that can be written is read back, whether it ends the text or a space and more follow. */
  lemma TermReads(t: Term, rest: Option<string>)
    requires t.FromAddress? ==> Quotable(t.address)
    ensures ReadTerm(Render(t) + After(rest)) == Some((t, rest))
  {
    match t {
      case FromAddress(a) => AddressReads(a, rest);
      case AfterSecond(n) => DateReads(t, "after:", n, rest);
      case BeforeSecond(n) => DateReads(t, "before:", n, rest);
    }
  }

  lemma RenderedIsSome(terms: seq<Term>)
    requires terms != []
    ensures Render(terms[0]) != "" && Join(RenderAll(terms), " ") != ""
  {
    assert RenderAll(terms)[0] == Render(terms[0]);
  }

  /** Whatever the addresses, a text of quotable terms joined by spaces means exactly those terms. */
  lemma {:induction false} TextMeansItsTerms(terms: seq<Term>)
    requires forall t <- terms :: t.FromAddress? ==> Quotable(t.address)
    ensures ReadTerms(Join(RenderAll(terms), " ")) == Some(terms)
    decreases |terms|
  {
    hide Render, ReadTerm, Quotable;
    if terms == [] {
    } else {
      RenderedIsSome(terms);
      var s := Join(RenderAll(terms), " ");
      var rest := terms[1..];
      assert RenderAll(terms)[1..] == RenderAll(rest);
      if |terms| == 1 {
        TermReads(terms[0], None);
        assert s == Render(terms[0]) + "";
        assert terms == [terms[0]];
      } else {
        var tail := Join(RenderAll(rest), " ");
        TextMeansItsTerms(rest);
        TermReads(terms[0], Some(tail));
        assert s == Render(terms[0]) + " " + tail == Render(terms[0]) + (" " + tail);
        RenderedIsSome(rest);
        assert terms == [terms[0]] + rest;
      }
    }
  }
}
