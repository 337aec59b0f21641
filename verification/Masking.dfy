/** Masking a subject, whole characters at a time (core/redact/masking.go). */
module Masking {
  import opened Bytes
  import opened Utf8
  import opened Tokens
  import opened Detect
  import AhoCorasick

  /** The full block, U+2588. */
  const MASK: seq<byte> := [0xE2, 0x96, 0x88]

  lemma MaskIsFullBlock()
    ensures MASK == Encode(0x2588)
  {
  }

  datatype Event = Event(rule: string, tier: nat)

  predicate Hidden(spans: seq<Span>, i: int) {
    exists sp <- spans :: sp.start <= i < sp.end
  }

  // ---------------------------------------------------------------- the bytes written

  function Skip(text: seq<byte>, hidden: seq<bool>, i: nat): (j: nat)
    requires |hidden| == |text|
    ensures j >= i
    decreases |text| - i
  {
    if i < |text| && hidden[i] && Continuation(text[i]) then Skip(text, hidden, i + 1) else i
  }

  /** The masked text from byte i on. */
  function MaskFrom(text: seq<byte>, hidden: seq<bool>, i: nat): seq<byte>
    requires |hidden| == |text|
    decreases |text| - i
  {
    if i >= |text| then []
    else if !hidden[i] then [text[i]] + MaskFrom(text, hidden, i + 1)
    else MASK + MaskFrom(text, hidden, Skip(text, hidden, i + 1))
  }

  method HideSpans(text: seq<byte>, spans: seq<Span>) returns (hidden: seq<bool>, events: seq<Event>)
    requires AllPlaced(text, spans)
    ensures |hidden| == |text| && forall i | 0 <= i < |text| :: hidden[i] <==> Hidden(spans, i)
    ensures |events| == |spans| && forall k | 0 <= k < |spans| :: events[k] == Event(spans[k].rule, spans[k].tier)
  {
    var marks := new bool[|text|](_ => false);
    events := [];
    for k := 0 to |spans|
      invariant forall i | 0 <= i < |text| :: marks[i] <==> Hidden(spans[..k], i)
      invariant |events| == k && forall j | 0 <= j < k :: events[j] == Event(spans[j].rule, spans[j].tier)
    {
      assert spans[k] in spans && WellPlaced(text, spans[k]);
      assert spans[..k + 1] == spans[..k] + [spans[k]];
      Mark(marks, spans[k].start, spans[k].end);
      events := events + [Event(spans[k].rule, spans[k].tier)];
    }
    assert spans[..|spans|] == spans;
    hidden := marks[..];
  }

  lemma Regroup(a: seq<byte>, b: seq<byte>, c: seq<byte>)
    ensures a + (b + c) == (a + b) + c
  {
  }

  method WriteMasked(text: seq<byte>, hidden: seq<bool>) returns (out: seq<byte>)
    requires |hidden| == |text|
    ensures out == MaskFrom(text, hidden, 0)
  {
    out := [];
    var i: nat := 0;
    while i < |text|
      invariant out + MaskFrom(text, hidden, i) == MaskFrom(text, hidden, 0)
      decreases |text| - i
    {
      if !hidden[i] {
        Regroup(out, [text[i]], MaskFrom(text, hidden, i + 1));
        out := out + [text[i]];
        i := i + 1;
        continue;
      }
      ghost var at := i + 1;
      Regroup(out, MASK, MaskFrom(text, hidden, Skip(text, hidden, at)));
      out := out + MASK;
      i := i + 1;
      while i < |text| && hidden[i] && Continuation(text[i])
        invariant at <= i && Skip(text, hidden, i) == Skip(text, hidden, at)
      {
        i := i + 1;
      }
      assert i == Skip(text, hidden, at);
    }
  }

  // ---------------------------------------------------------------- what they mean, character by character

  /** The characters from boundary i on, each masked or as it was. */
  function MaskedChars(text: seq<byte>, hidden: seq<bool>, i: nat): seq<seq<byte>>
    requires |hidden| == |text|
    decreases |text| - i
  {
    if i >= |text| then []
    else
      var n := DecodeRune(text[i..]).size;
      [if hidden[i] then MASK else text[i..i + n]] + MaskedChars(text, hidden, i + n)
  }

  /** The offset the k-th character of s starts at. */
  function CharStart(s: seq<byte>, k: nat): nat
    requires k < |Chars(s)|
  {
    if k == 0 then 0 else DecodeRune(s).size + CharStart(s[DecodeRune(s).size..], k - 1)
  }

  /** Every byte of a character is hidden, or none is. */
  ghost predicate Uniform(text: seq<byte>, hidden: seq<bool>)
    requires |hidden| == |text|
  {
    forall i, j | 0 <= i < |text| && Boundary(text, i) && i <= j < i + DecodeRune(text[i..]).size ::
      hidden[j] == hidden[i]
  }

  /** Spans on character boundaries hide whole characters. */
  lemma SpansAreUniform(text: seq<byte>, spans: seq<Span>, hidden: seq<bool>)
    requires Valid(text) && AllPlaced(text, spans)
    requires |hidden| == |text| && forall i | 0 <= i < |text| :: hidden[i] <==> Hidden(spans, i)
    ensures Uniform(text, hidden)
  {
    hide DecodeRune;
    forall i, j | 0 <= i < |text| && Boundary(text, i) && i <= j < i + DecodeRune(text[i..]).size
      ensures hidden[j] == hidden[i]
    {
      NoBoundaryInside(text, i);
      forall sp <- spans ensures sp.start <= i < sp.end <==> sp.start <= j < sp.end {
        assert WellPlaced(text, sp);
      }
    }
  }

  lemma {:induction false} PlainBytes(text: seq<byte>, hidden: seq<bool>, i: nat, j: nat)
    requires |hidden| == |text| && i <= j <= |text| && forall k | i <= k < j :: !hidden[k]
    ensures MaskFrom(text, hidden, i) == text[i..j] + MaskFrom(text, hidden, j)
    decreases j - i
  {
    if i < j {
      var rest := MaskFrom(text, hidden, j);
      PlainBytes(text, hidden, i + 1, j);
      assert text[i..j] == [text[i]] + text[i + 1..j];
      assert [text[i]] + (text[i + 1..j] + rest) == text[i..j] + rest;
    } else {
      assert text[i..j] == [];
    }
  }

  lemma {:induction false} SkipsCharacter(text: seq<byte>, hidden: seq<bool>, i: nat, j: nat)
    requires |hidden| == |text| && i <= j <= |text|
    requires forall k | i <= k < j :: hidden[k] && Continuation(text[k])
    requires j < |text| ==> !Continuation(text[j])
    ensures Skip(text, hidden, i) == j
    decreases j - i
  {
    if i >= j {
    } else {
      SkipsCharacter(text, hidden, i + 1, j);
    }
  }

  lemma HiddenBytes(text: seq<byte>, hidden: seq<bool>, i: nat, j: nat)
    requires |hidden| == |text| && i < j <= |text| && (forall k | i <= k < j :: hidden[k])
    requires (forall k | i < k < j :: Continuation(text[k])) && (j < |text| ==> !Continuation(text[j]))
    ensures MaskFrom(text, hidden, i) == MASK + MaskFrom(text, hidden, j)
  {
    SkipsCharacter(text, hidden, i + 1, j);
  }

  lemma HiddenAlike(text: seq<byte>, hidden: seq<bool>, i: nat, n: nat)
    requires |hidden| == |text| && Uniform(text, hidden) && Boundary(text, i) && i < |text|
             && n == DecodeRune(text[i..]).size
    ensures i + n <= |text| && forall k | i <= k < i + n :: hidden[k] == hidden[i]
  {
    hide DecodeRune, Boundary;
  }

  lemma CharacterBytes(text: seq<byte>, i: nat)
    requires Valid(text) && Boundary(text, i) && i < |text|
    ensures var n := DecodeRune(text[i..]).size;
            && i + n <= |text| && Boundary(text, i + n)
            && (forall k | i + 1 <= k < i + n :: Continuation(text[k]))
            && (i + n < |text| ==> !Continuation(text[i + n]))
  {
    hide DecodeRune;
    var s := text[i..];
    var n := DecodeRune(s).size;
    ValidFrom(text, i);
    DecodedBytes(s);
    NextBoundary(text, i);
    BoundaryIsNoContinuation(text, i + n);
    forall k | i + 1 <= k < i + n ensures Continuation(text[k]) {
      assert text[k] == s[k - i];
    }
  }

  /** Where a character starts, the writer writes it, or one mask for it, and goes on at the next. */
  lemma OneCharacter(text: seq<byte>, hidden: seq<bool>, i: nat, n: nat)
    requires Valid(text) && |hidden| == |text| && Uniform(text, hidden)
    requires Boundary(text, i) && i < |text| && n == DecodeRune(text[i..]).size
    ensures i + n <= |text|
    ensures MaskFrom(text, hidden, i) == (if hidden[i] then MASK else text[i..i + n]) + MaskFrom(text, hidden, i + n)
  {
    hide DecodeRune, Continuation, Boundary, Valid, Uniform, MaskFrom;
    CharacterBytes(text, i);
    HiddenAlike(text, hidden, i, n);
    if hidden[i] {
      HiddenBytes(text, hidden, i, i + n);
    } else {
      PlainBytes(text, hidden, i, i + n);
    }
  }

  lemma CharThenRest(c: seq<byte>, rest: seq<byte>)
    requires c != [] && DecodeRune(c).valid && DecodeRune(c).size == |c|
    ensures Chars(c + rest) == [c] + Chars(rest)
  {
    DecodePrefix(c, rest);
    assert (c + rest)[..|c|] == c && (c + rest)[|c|..] == rest;
  }

  lemma PieceIsCharacter(text: seq<byte>, i: nat, n: nat, masked: bool)
    requires Valid(text) && Boundary(text, i) && i < |text| && n == DecodeRune(text[i..]).size
    ensures i + n <= |text|
    ensures var c := if masked then MASK else text[i..i + n];
            c != [] && DecodeRune(c).valid && DecodeRune(c).size == |c|
  {
    ValidFrom(text, i);
    DecodeExact(text[i..]);
    assert text[i..][..n] == text[i..i + n];
  }

  /** The characters written are the characters of the text, each masked or as it was. */
  lemma {:induction false} WritesMaskedChars(text: seq<byte>, hidden: seq<bool>, i: nat)
    requires Valid(text) && |hidden| == |text| && Uniform(text, hidden) && i <= |text| && Boundary(text, i)
    ensures Chars(MaskFrom(text, hidden, i)) == MaskedChars(text, hidden, i)
    decreases |text| - i
  {
    hide DecodeRune, Uniform, Boundary, Valid;
    if i >= |text| {
    } else {
      var n := DecodeRune(text[i..]).size;
      OneCharacter(text, hidden, i, n);
      NextBoundary(text, i);
      WritesMaskedChars(text, hidden, i + n);
      PieceIsCharacter(text, i, n, hidden[i]);
      CharThenRest(if hidden[i] then MASK else text[i..i + n], MaskFrom(text, hidden, i + n));
    }
  }

  lemma {:induction false} AsManyChars(text: seq<byte>, hidden: seq<bool>, i: nat)
    requires |hidden| == |text| && i <= |text|
    ensures |MaskedChars(text, hidden, i)| == |Chars(text[i..])|
    decreases |text| - i
  {
    hide DecodeRune;
    if i >= |text| {
    } else {
      DropDrop(text, i, i + DecodeRune(text[i..]).size);
      AsManyChars(text, hidden, i + DecodeRune(text[i..]).size);
    }
  }

  lemma FirstOfChars(text: seq<byte>, hidden: seq<bool>, i: nat)
    requires |hidden| == |text| && i < |text|
    ensures var n := DecodeRune(text[i..]).size;
            && i + n <= |text|
            && text[i..][n..] == text[i + n..]
            && MaskedChars(text, hidden, i)
               == [if hidden[i] then MASK else text[i..][..n]] + MaskedChars(text, hidden, i + n)
            && Chars(text[i..]) == [text[i..][..n]] + Chars(text[i + n..])
  {
    hide DecodeRune;
    DropDrop(text, i, i + DecodeRune(text[i..]).size);
    assert text[i..][..DecodeRune(text[i..]).size] == text[i..i + DecodeRune(text[i..]).size];
  }

  lemma LaterStart(s: seq<byte>, k: nat)
    requires k < |Chars(s)|
    ensures k == 0 ==> CharStart(s, k) == 0
    ensures var n := DecodeRune(s).size;
            k > 0 ==> n < |s| && k - 1 < |Chars(s[n..])| && CharStart(s, k) == n + CharStart(s[n..], k - 1)
  {
    hide DecodeRune;
  }

  /** The k-th character is the text's k-th, or a mask when its first byte is hidden. */
  lemma {:induction false} MaskedCharAt(text: seq<byte>, hidden: seq<bool>, i: nat, k: nat)
    requires |hidden| == |text| && i < |text| && k < |Chars(text[i..])|
    ensures k < |MaskedChars(text, hidden, i)|
    ensures i + CharStart(text[i..], k) < |text|
    ensures MaskedChars(text, hidden, i)[k] == if hidden[i + CharStart(text[i..], k)] then MASK else Chars(text[i..])[k]
    decreases k
  {
    hide DecodeRune, Chars, MaskedChars, CharStart;
    AsManyChars(text, hidden, i);
    var s := text[i..];
    var n := DecodeRune(s).size;
    FirstOfChars(text, hidden, i);
    LaterStart(s, k);
    if k == 0 {
    } else {
      var rest, masked := Chars(text[i + n..]), MaskedChars(text, hidden, i + n);
      MaskedCharAt(text, hidden, i + n, k - 1);
      assert Chars(s)[k] == rest[k - 1] && MaskedChars(text, hidden, i)[k] == masked[k - 1];
    }
  }

  /** The subject with whole characters hidden: as many characters as before, a block exactly where a
      span covers, and the original character everywhere else. */
  ghost predicate IsMasked(subject: seq<byte>, spans: seq<Span>, masked: seq<byte>) {
    && |Chars(masked)| == |Chars(subject)|
    && forall k | 0 <= k < |Chars(subject)| ::
         Chars(masked)[k] == if Hidden(spans, CharStart(subject, k)) then MASK else Chars(subject)[k]
  }

  function Repeat(c: seq<byte>, n: nat): seq<byte> {
    if n == 0 then [] else c + Repeat(c, n - 1)
  }

  lemma {:induction false} RepeatIsMasks(n: nat)
    ensures |Chars(Repeat(MASK, n))| == n && forall k | 0 <= k < n :: Chars(Repeat(MASK, n))[k] == MASK
  {
    if n == 0 {
    } else {
      RepeatIsMasks(n - 1);
      CharThenRest(MASK, Repeat(MASK, n - 1));
    }
  }

  lemma MaskingHolds(subject: seq<byte>, spans: seq<Span>, hidden: seq<bool>, masked: seq<byte>)
    requires Valid(subject) && AllPlaced(subject, spans)
    requires |hidden| == |subject| && forall i | 0 <= i < |subject| :: hidden[i] <==> Hidden(spans, i)
    requires masked == MaskFrom(subject, hidden, 0)
    ensures IsMasked(subject, spans, masked)
  {
    SpansAreUniform(subject, spans, hidden);
    assert Boundary(subject, 0);
    hide DecodeRune, Uniform, MaskFrom, Hidden, Chars, MaskedChars, CharStart, Valid, Boundary, AllPlaced;
    WritesMaskedChars(subject, hidden, 0);
    assert subject[0..] == subject;
    AsManyChars(subject, hidden, 0);
    forall k | 0 <= k < |Chars(subject)|
      ensures Chars(masked)[k] == if Hidden(spans, CharStart(subject, k)) then MASK else Chars(subject)[k]
    {
      MaskedCharAt(subject, hidden, 0, k);
    }
  }

  /** Masks every code and login link of a subject, one event for each detection, in the order they start. A scanner
      nobody built masks the whole subject. */
  method MaskSubject(lib: Library, built: bool, dict: seq<seq<byte>>, a: AhoCorasick.Automaton, cfg: Config,
                     subject: seq<byte>)
    returns (masked: seq<byte>, events: seq<Event>, ghost spans: seq<Span>)
    requires Keeps(lib, subject)
    requires AhoCorasick.Recognizes(a, dict) && forall w | 0 <= w < |dict| :: dict[w] != []
    ensures !built
            ==> |Chars(masked)| == |Chars(subject)| && (forall k | 0 <= k < |Chars(masked)| :: Chars(masked)[k] == MASK)
                       && events == [Event("mask.whole_subject", 0)]
    ensures built ==> StartsAscend(spans)
    ensures built ==> forall sp: Span :: multiset(spans)[sp] == if Detected(lib, dict, cfg, subject, sp) then 1 else 0
    ensures built && Valid(subject) ==> IsMasked(subject, spans, masked)
    ensures built
            ==> |events| == |spans| && forall k | 0 <= k < |spans| :: events[k] == Event(spans[k].rule, spans[k].tier)
  {
    hide Keeps, Detected, DecodeRune;
    if !built {
      spans := [];
      RepeatIsMasks(|Chars(subject)|);
      return Repeat(MASK, |Chars(subject)|), [Event("mask.whole_subject", 0)], [];
    }
    var found, _ := Detect.Detect(lib, dict, a, cfg, subject);
    spans := found;
    var hidden;
    hidden, events := HideSpans(subject, found);
    masked := WriteMasked(subject, hidden);
    if Valid(subject) {
      MaskingHolds(subject, found, hidden, masked);
    }
  }
}
