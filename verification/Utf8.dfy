/** UTF-8 as Go decodes it: a byte that starts no valid encoding is a character of its own. */
module Utf8 {
  import opened Bytes

  datatype Rune = Rune(value: int, size: nat, valid: bool)

  predicate Continuation(b: byte) { 0x80 <= b < 0xC0 }

  function Low(b: byte): int { (b as int) - 0x80 }

  /** The first character of s, as utf8.DecodeRune reads it. */
  function DecodeRune(s: seq<byte>): (r: Rune)
    requires s != []
    ensures 1 <= r.size <= |s|
  {
    var invalid := Rune(0xFFFD, 1, false);
    var b: int := s[0];
    if b < 0x80 then Rune(b, 1, true)
    else if 0xC2 <= b < 0xE0 then
      if |s| >= 2 && Continuation(s[1]) then Rune((b - 0xC0) * 64 + Low(s[1]), 2, true) else invalid
    else if 0xE0 <= b < 0xF0 then
      var low := if b == 0xE0 then 0xA0 else 0x80;
      var high := if b == 0xED then 0xA0 else 0xC0;
      if |s| >= 3 && low <= s[1] < high && Continuation(s[2])
      then Rune((b - 0xE0) * 4096 + Low(s[1]) * 64 + Low(s[2]), 3, true) else invalid
    else if 0xF0 <= b < 0xF5 then
      var low := if b == 0xF0 then 0x90 else 0x80;
      var high := if b == 0xF4 then 0x90 else 0xC0;
      if |s| >= 4 && low <= s[1] < high && Continuation(s[2]) && Continuation(s[3])
      then Rune((b - 0xF0) * 262144 + Low(s[1]) * 4096 + Low(s[2]) * 64 + Low(s[3]), 4, true) else invalid
    else invalid
  }

  /** The characters UTF-8 can encode, section 3 of RFC 3629. */
  predicate Scalar(c: int) { 0 <= c < 0x110000 && !(0xD800 <= c < 0xE000) }

  function Encode(c: int): (s: seq<byte>)
    requires Scalar(c)
    ensures s != []
  {
    if c < 0x80 then [c]
    else if c < 0x800 then [0xC0 + c / 64, 0x80 + c % 64]
    else if c < 0x10000 then [0xE0 + c / 64 / 64, 0x80 + c / 64 % 64, 0x80 + c % 64]
    else [0xF0 + c / 64 / 64 / 64, 0x80 + c / 64 / 64 % 64, 0x80 + c / 64 % 64, 0x80 + c % 64]
  }

  lemma LowestSix(a: int, b: int)
    requires 0 <= b < 64
    ensures (64 * a + b) / 64 == a && (64 * a + b) % 64 == b
  {
  }

  /** Decoding reads back the character encoded, whatever follows it. */
  lemma DecodesEncoded(c: int, rest: seq<byte>)
    requires Scalar(c)
    ensures DecodeRune(Encode(c) + rest) == Rune(c, |Encode(c)|, true)
  {
    var s := Encode(c) + rest;
    var d := c / 64;
    assert c == 64 * d + c % 64;
    if c < 0x80 {
      assert s[0] == c;
    } else if c < 0x800 {
      assert s[0] == 0xC0 + d && s[1] == 0x80 + c % 64;
    } else if c < 0x10000 {
      assert d == 64 * (d / 64) + d % 64;
      assert s[0] == 0xE0 + d / 64 && s[1] == 0x80 + d % 64 && s[2] == 0x80 + c % 64;
    } else {
      var e := d / 64;
      assert d == 64 * e + d % 64 && e == 64 * (e / 64) + e % 64;
      assert s[0] == 0xF0 + e / 64 && s[1] == 0x80 + e % 64 && s[2] == 0x80 + d % 64 && s[3] == 0x80 + c % 64;
    }
  }

  /** And what decodes as valid is some character's encoding. */
  lemma EncodesDecoded(s: seq<byte>)
    requires s != [] && DecodeRune(s).valid
    ensures var r := DecodeRune(s);
            Scalar(r.value) && Encode(r.value) == s[..r.size]
  {
    var r := DecodeRune(s);
    var b: int := s[0];
    if r.size == 2 {
      LowestSix(b - 0xC0, Low(s[1]));
      assert s[..2] == [s[0], s[1]];
    } else if r.size == 3 {
      LowestSix(b - 0xE0, Low(s[1]));
      LowestSix(64 * (b - 0xE0) + Low(s[1]), Low(s[2]));
      assert s[..3] == [s[0], s[1], s[2]];
    } else if r.size == 4 {
      LowestSix(b - 0xF0, Low(s[1]));
      LowestSix(64 * (b - 0xF0) + Low(s[1]), Low(s[2]));
      LowestSix(64 * (64 * (b - 0xF0) + Low(s[1])) + Low(s[2]), Low(s[3]));
      assert s[..4] == [s[0], s[1], s[2], s[3]];
    }
  }

  /** A valid character starts with no continuation byte and goes on with nothing else. */
  lemma DecodedBytes(s: seq<byte>)
    requires s != []
    ensures var r := DecodeRune(s);
            && r.size <= 4
            && (r.valid ==> !Continuation(s[0]) && forall i | 1 <= i < r.size :: Continuation(s[i]))
            && (r.valid && r.size == 1 ==> s[0] < 0x80)
            && (s[0] < 0x80 ==> r == Rune(s[0], 1, true))
  {
  }

  /** The offset utf8.DecodeLastRune decodes from: back over at most three bytes to one that starts a
      character. */
  function LastStart(s: seq<byte>, at: nat): (i: nat)
    requires at < |s|
    ensures i <= at
    decreases at
  {
    if !Continuation(s[at]) || at == 0 || at + 4 <= |s| then at else LastStart(s, at - 1)
  }

  function DecodeLastRune(s: seq<byte>): (r: Rune)
    requires s != []
    ensures 1 <= r.size <= |s|
  {
    if s[|s| - 1] < 0x80 then Rune(s[|s| - 1], 1, true)
    else
      var start := LastStart(s, |s| - 1);
      var r := DecodeRune(s[start..]);
      if start + r.size == |s| then r else Rune(0xFFFD, 1, false)
  }

  /** The characters of s, as their bytes. */
  function Chars(s: seq<byte>): (r: seq<seq<byte>>) {
    if s == [] then [] else [s[..DecodeRune(s).size]] + Chars(s[DecodeRune(s).size..])
  }

  ghost predicate Valid(s: seq<byte>) {
    s != [] ==> DecodeRune(s).valid && Valid(s[DecodeRune(s).size..])
  }

  /** A character starts at offset i, or the text ends there. */
  ghost predicate Boundary(s: seq<byte>, i: int) {
    i == 0 || (s != [] && DecodeRune(s).size <= i && Boundary(s[DecodeRune(s).size..], i - DecodeRune(s).size))
  }

  /** In valid text the boundaries are the offsets no continuation byte is at. */
  lemma {:induction false} BoundaryIsNoContinuation(s: seq<byte>, i: nat)
    requires Valid(s) && i <= |s|
    ensures Boundary(s, i) <==> i == |s| || !Continuation(s[i])
    decreases |s|
  {
    if s != [] {
      DecodedBytes(s);
    }
    if s != [] && i != 0 {
      var n := DecodeRune(s).size;
      if n <= i {
        BoundaryIsNoContinuation(s[n..], i - n);
      }
    }
  }

  /** A byte below 0x80 is a character, so the text has a boundary on both its sides. */
  lemma {:induction false} AsciiIsCharacter(s: seq<byte>, i: nat)
    requires Valid(s) && i < |s| && s[i] < 0x80
    ensures Boundary(s, i) && Boundary(s, i + 1)
    decreases |s|
  {
    var n := DecodeRune(s).size;
    DecodedBytes(s);
    if i < n {
      assert i == 0;
      assert Boundary(s[1..], 0);
    } else {
      AsciiIsCharacter(s[n..], i - n);
    }
  }

  lemma DropDrop(s: seq<byte>, n: nat, i: nat)
    requires n <= i <= |s|
    ensures s[n..][i - n..] == s[i..]
  {
  }

  /** The next boundary after one is a character further. */
  lemma {:induction false} NextBoundary(s: seq<byte>, i: nat)
    requires Boundary(s, i) && i < |s|
    ensures Boundary(s, i + DecodeRune(s[i..]).size)
    decreases |s|
  {
    if i == 0 {
      assert s[0..] == s;
      assert Boundary(s[DecodeRune(s).size..], 0);
    } else {
      var n := DecodeRune(s).size;
      var rest := s[n..];
      DropDrop(s, n, i);
      NextBoundary(rest, i - n);
      assert rest[i - n..] == s[i..];
      var next := i + DecodeRune(s[i..]).size;
      assert Boundary(rest, next - n);
    }
  }

  lemma {:induction false} ValidFrom(s: seq<byte>, i: nat)
    requires Valid(s) && Boundary(s, i) && i <= |s|
    ensures Valid(s[i..])
    decreases |s|
  {
    if i == 0 {
      assert s[0..] == s;
    } else {
      var n := DecodeRune(s).size;
      var rest := s[n..];
      DropDrop(s, n, i);
      ValidFrom(rest, i - n);
      assert rest[i - n..] == s[i..];
    }
  }

  /** Only the first four bytes are read, so what follows a valid character does not change it. */
  lemma DecodePrefix(s: seq<byte>, t: seq<byte>)
    requires s != [] && DecodeRune(s).valid
    ensures DecodeRune(s + t) == DecodeRune(s)
  {
  }

  /** A valid character ends a prefix: no bytes past it are needed. */
  lemma DecodeExact(s: seq<byte>)
    requires s != [] && DecodeRune(s).valid
    ensures DecodeRune(s[..DecodeRune(s).size]) == DecodeRune(s)
  {
  }

  lemma {:induction false} StartsAt(p: seq<byte>, i: nat, at: nat)
    requires i <= at < |p| <= i + 4 && !Continuation(p[i]) && forall k | i < k < |p| :: Continuation(p[k])
    ensures LastStart(p, at) == i
    decreases at
  {
    if at <= i {
    } else {
      StartsAt(p, i, at - 1);
    }
  }

  lemma LastOfAppended(before: seq<byte>, c: seq<byte>)
    requires c != [] && DecodeRune(c).valid && DecodeRune(c).size == |c|
    ensures DecodeLastRune(before + c) == DecodeRune(c)
  {
    var p := before + c;
    assert p[|p| - 1] == c[|c| - 1];
    DecodedBytes(c);
    if |c| > 1 {
      StartsAt(p, |before|, |p| - 1);
      assert p[|before|..] == c;
    }
  }

  /** The character before a boundary of valid text is the one utf8.DecodeLastRune returns. */
  lemma LastRuneIsPrevious(s: seq<byte>, i: nat, j: nat)
    requires Valid(s) && Boundary(s, i) && i < |s| && j == i + DecodeRune(s[i..]).size
    ensures j <= |s| && DecodeLastRune(s[..j]) == DecodeRune(s[i..])
  {
    ValidFrom(s, i);
    var c := s[i..][..DecodeRune(s[i..]).size];
    DecodeExact(s[i..]);
    hide DecodeRune, DecodeLastRune, Valid, Boundary;
    assert s[..j] == s[..i] + c;
    LastOfAppended(s[..i], c);
  }
}
