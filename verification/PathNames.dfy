/** The alphabet of configuration names and the environment names it makes decodable
    (process/settings/declaration.go, process/settings/settings.go). */
module PathNames {
  import opened SearchText

  const PREFIX := "MEDIATED_MAILBOX_"

  predicate NameCharacter(c: char) {
    'a' <= c <= 'z' || '0' <= c <= '9' || c == '_'
  }

  predicate IsName(s: string) {
    && s != "" && s[0] != '_' && s[|s| - 1] != '_'
    && (forall i | 0 <= i < |s| - 1 :: !(s[i] == '_' && s[i + 1] == '_'))
    && (forall c <- s :: NameCharacter(c))
  }

  function UpperChar(c: char): char {
    if 'a' <= c <= 'z' then c - 'a' + 'A' else c
  }

  function LowerChar(c: char): char {
    if 'A' <= c <= 'Z' then c - 'A' + 'a' else c
  }

  /** Mapping one character to upper and to lower case, which is the Unicode tables'. */
  datatype Folding = Folding(upper: char -> char, lower: char -> char)

  const KELVIN := '\U{212A}'
  const DOTTED_I := '\U{0130}'
  const DOTLESS_I := '\U{0131}'
  const LONG_S := '\U{017F}'

  predicate Ascii(c: char) {
    c < '\U{0080}'
  }

  /** What the tables say of ASCII: its own letters pair up, dotless i and long s have ASCII capitals, the Kelvin sign
      and the dotted capital I are capitals with an ASCII small letter, and nothing else comes to ASCII. */
  ghost predicate Unicode(fold: Folding) {
    && (forall c | Ascii(c) :: fold.upper(c) == UpperChar(c) && fold.lower(c) == LowerChar(c))
    && (forall c | !Ascii(c) :: Ascii(fold.upper(c)) <==> c == DOTLESS_I || c == LONG_S)
    && (forall c | !Ascii(c) :: Ascii(fold.lower(c)) <==> c == KELVIN || c == DOTTED_I)
    && fold.upper(DOTLESS_I) == 'I' && fold.upper(LONG_S) == 'S'
    && fold.upper(KELVIN) == KELVIN && fold.upper(DOTTED_I) == DOTTED_I
    && fold.lower(KELVIN) == 'k' && fold.lower(DOTTED_I) == 'i'
  }

  function Upper(fold: Folding, s: string): string {
    seq(|s|, i requires 0 <= i < |s| => fold.upper(s[i]))
  }

  function Lower(fold: Folding, s: string): string {
    seq(|s|, i requires 0 <= i < |s| => fold.lower(s[i]))
  }

  // ---------------------------------------------------------------- splitting undoes joining

  predicate At(s: string, sep: string, i: nat) {
    i + |sep| <= |s| && forall k | 0 <= k < |sep| :: s[i + k] == sep[k]
  }

  /** Where sep first occurs in s from i on, or the end of s. */
  function First(s: string, sep: string, i: nat): (k: nat)
    requires i <= |s|
    ensures i <= k <= |s|
    ensures forall j | i <= j < k :: !At(s, sep, j)
    ensures k < |s| ==> At(s, sep, k)
    decreases |s| - i
  {
    if i == |s| || At(s, sep, i) then i else First(s, sep, i + 1)
  }

  function Split(s: string, sep: string): seq<string>
    requires sep != ""
    decreases |s|
  {
    var k := First(s, sep, 0);
    if k == |s| then [s] else [s[..k]] + Split(s[k + |sep|..], sep)
  }

  /** A segment followed by the separator shows it first where the segment ends. */
  predicate Delimited(segment: string, sep: string) {
    forall j | 0 <= j < |segment| :: !At(segment + sep, sep, j)
  }

  predicate Free(segment: string, sep: string) {
    forall j | 0 <= j < |segment| :: !At(segment, sep, j)
  }

  /** A path whose every segment but the last is delimited by the separator and whose last is free of it. */
  predicate Decodable(path: seq<string>, sep: string) {
    && path != []
    && (forall i | 0 <= i < |path| - 1 :: Delimited(path[i], sep))
    && Free(path[|path| - 1], sep)
  }

  lemma FirstIs(s: string, sep: string, k: nat)
    requires k <= |s| && (forall j | 0 <= j < k :: !At(s, sep, j)) && (k < |s| ==> At(s, sep, k))
    ensures First(s, sep, 0) == k
  {
  }

  lemma FirstAfterHead(head: string, sep: string, rest: string)
    requires Delimited(head, sep)
    ensures First(head + sep + rest, sep, 0) == |head|
  {
    var s := head + sep + rest;
    forall j | 0 <= j < |head| ensures !At(s, sep, j) {
      assert !At(head + sep, sep, j);
      var i :| 0 <= i < |sep| && (head + sep)[j + i] != sep[i];
      assert s[j + i] == (head + sep)[j + i];
    }
    FirstIs(s, sep, |head|);
  }

  lemma {:induction false} SplitOfJoin(path: seq<string>, sep: string)
    requires sep != "" && Decodable(path, sep)
    ensures Split(Join(path, sep), sep) == path
    decreases |path|
  {
    hide First, Delimited;
    var s := Join(path, sep);
    if |path| == 1 {
      FirstIs(s, sep, |s|);
    } else {
      var rest := Join(path[1..], sep);
      assert s == path[0] + sep + rest;
      FirstAfterHead(path[0], sep, rest);
      assert s[|path[0]| + |sep|..] == rest && s[..|path[0]|] == path[0];
      assert forall i | 0 <= i < |path[1..]| :: path[1..][i] == path[i + 1];
      SplitOfJoin(path[1..], sep);
    }
  }

  lemma CutDelimited(s: string, sep: string, k: nat)
    requires At(s, sep, k) && forall j | 0 <= j < k :: !At(s, sep, j)
    ensures Delimited(s[..k], sep)
  {
    var head := s[..k] + sep;
    forall j | 0 <= j < k ensures !At(head, sep, j) {
      assert !At(s, sep, j);
      var i :| 0 <= i < |sep| && s[j + i] != sep[i];
      assert head[j + i] == s[j + i] by {
        assert j + i >= k ==> s[k + (j + i - k)] == sep[j + i - k];
      }
    }
  }

  lemma CutIsJoin(s: string, sep: string, k: nat)
    requires At(s, sep, k)
    ensures s == s[..k] + sep + s[k + |sep|..]
  {
    assert forall i | 0 <= i < |sep| :: s[k + i] == sep[i];
  }

  lemma OneMoreSegment(head: string, rest: seq<string>, sep: string)
    requires Delimited(head, sep) && Decodable(rest, sep)
    ensures Decodable([head] + rest, sep)
    ensures Join([head] + rest, sep) == head + sep + Join(rest, sep)
  {
    hide Delimited, Free;
    var parts := [head] + rest;
    assert parts[1..] == rest;
    assert forall i | 0 < i < |parts| :: parts[i] == rest[i - 1];
  }

  lemma {:induction false} JoinOfSplit(s: string, sep: string)
    requires sep != ""
    ensures Join(Split(s, sep), sep) == s && Decodable(Split(s, sep), sep)
    decreases |s|
  {
    var k := First(s, sep, 0);
    if k < |s| {
      var rest := s[k + |sep|..];
      hide First, At, Decodable, Delimited;
      JoinOfSplit(rest, sep);
      CutIsJoin(s, sep, k);
      CutDelimited(s, sep, k);
      OneMoreSegment(s[..k], Split(rest, sep), sep);
    } else {
      hide First, At;
      assert s[..k] == s;
    }
  }

  /** A joined path splits back into itself exactly when every separator shows only where it was put. */
  lemma DecodesExactly(path: seq<string>, sep: string)
    requires sep != ""
    ensures Split(Join(path, sep), sep) == path <==> Decodable(path, sep)
  {
    if Decodable(path, sep) {
      SplitOfJoin(path, sep);
    }
    JoinOfSplit(Join(path, sep), sep);
  }

  /** One underscore too many at a segment's end or start of the next is enough to lose the boundary. */
  lemma TrailingUnderscoreDecodesWrongly()
    ensures Join(["a_", "b"], "__") == Join(["a", "_b"], "__")
    ensures !Decodable(["a_", "b"], "__") && Decodable(["a", "_b"], "__")
  {
    var x, y := ["a_", "b"], ["a", "_b"];
    assert x[1..] == ["b"] && y[1..] == ["_b"];
    assert Join(x, "__") == "a_" + "__" + "b" && Join(y, "__") == "a" + "__" + "_b";
    assert "a_" + "__" == "a___";
    assert At("a_" + "__", "__", 1);
    assert !Delimited(x[0], "__");
    assert "a" + "__" == "a__";
    assert "a__"[0 + 0] == 'a' && "__"[0] == '_';
    assert Delimited(y[0], "__");
    assert "_b"[0 + 1] == 'b' && "__"[1] == '_';
    assert Free(y[1], "__");
  }

  lemma NamesDelimit(s: string)
    requires IsName(s)
    ensures Delimited(s, "__") && Free(s, "__") && Delimited(s, ".") && Free(s, ".")
  {
    assert "__"[0] == '_' && "__"[1] == '_' && "."[0] == '.';
    forall j | 0 <= j < |s|
      ensures !At(s + "__", "__", j) && !At(s, "__", j) && !At(s + ".", ".", j) && !At(s, ".", j)
    {
      assert s[j] in s;
      assert (s + ".")[j + 0] == s[j] && s[j + 0] == s[j];
      assert (s + "__")[j + 0] == s[j];
      assert j + 1 < |s| ==> (s + "__")[j + 1] == s[j + 1];
    }
  }

  predicate Names(path: seq<string>) {
    path != [] && forall s <- path :: IsName(s)
  }

  lemma NamesDecodable(path: seq<string>)
    requires Names(path)
    ensures Decodable(path, "__") && Decodable(path, ".")
  {
    forall i | 0 <= i < |path|
      ensures Delimited(path[i], "__") && Free(path[i], "__") && Delimited(path[i], ".") && Free(path[i], ".")
    {
      NamesDelimit(path[i]);
    }
  }

  // ---------------------------------------------------------------- dotted paths and environment names

  function Dotted(path: seq<string>): string {
    Join(path, ".")
  }

  lemma DottedIsOneToOne(p: seq<string>, q: seq<string>)
    requires Names(p) && Names(q)
    ensures Split(Dotted(p), ".") == p
    ensures Dotted(p) == Dotted(q) ==> p == q
  {
    NamesDecodable(p);
    NamesDecodable(q);
    SplitOfJoin(p, ".");
    SplitOfJoin(q, ".");
  }

  function EnvironmentName(fold: Folding, path: seq<string>): string {
    PREFIX + Upper(fold, Join(path, "__"))
  }

  /** The path a variable's name is read as. */
  function PathOf(fold: Folding, name: string): seq<string>
    requires |PREFIX| <= |name|
  {
    Split(Lower(fold, name[|PREFIX|..]), "__")
  }

  lemma {:induction false} JoinedNames(path: seq<string>)
    requires Names(path)
    ensures forall c <- Join(path, "__") :: NameCharacter(c)
  {
    assert path[0] in path;
    if |path| == 1 {
    } else {
      JoinedNames(path[1..]);
    }
  }

  lemma NameFolds(fold: Folding, s: string)
    requires Unicode(fold) && forall c <- s :: NameCharacter(c)
    ensures Lower(fold, Upper(fold, s)) == s && Upper(fold, Upper(fold, s)) == Upper(fold, s)
    ensures forall c <- Upper(fold, s) :: Ascii(c)
  {
    forall i | 0 <= i < |s|
      ensures fold.lower(fold.upper(s[i])) == s[i] && Ascii(fold.upper(s[i]))
      ensures fold.upper(fold.upper(s[i])) == fold.upper(s[i])
    {
      assert s[i] in s;
    }
  }

  lemma PrefixFolds(fold: Folding, s: string)
    requires Unicode(fold)
    ensures Upper(fold, PREFIX + s) == PREFIX + Upper(fold, s)
    ensures (PREFIX + s)[|PREFIX|..] == s
    ensures forall c <- PREFIX :: Ascii(c)
  {
    assert forall i | 0 <= i < |PREFIX| :: fold.upper(PREFIX[i]) == PREFIX[i];
  }

  /** A path's environment name is upper case and ASCII, and reads back as that path. */
  lemma EnvironmentNameDecodes(fold: Folding, path: seq<string>)
    requires Unicode(fold) && Names(path)
    ensures var name := EnvironmentName(fold, path);
            && PREFIX <= name && Upper(fold, name) == name && PathOf(fold, name) == path
            && forall c <- name :: Ascii(c)
  {
    hide Unicode, Names, Split, Upper, Lower;
    JoinedNames(path);
    NameFolds(fold, Join(path, "__"));
    PrefixFolds(fold, Upper(fold, Join(path, "__")));
    NamesDecodable(path);
    SplitOfJoin(path, "__");
  }

  lemma NoTwoPathsShareAName(fold: Folding, p: seq<string>, q: seq<string>)
    requires Unicode(fold) && Names(p) && Names(q) && p != q
    ensures EnvironmentName(fold, p) != EnvironmentName(fold, q)
  {
    EnvironmentNameDecodes(fold, p);
    EnvironmentNameDecodes(fold, q);
  }

  // ---------------------------------------------------------------- names that read alike

  function PlainChar(c: char): char {
    if c == KELVIN then 'K' else if c == DOTTED_I then 'I' else c
  }

  /** A name with ASCII for the capitals that only look like it. */
  function Plain(s: string): string {
    seq(|s|, i requires 0 <= i < |s| => PlainChar(s[i]))
  }

  /** An upper-case character whose small letter may stand in a name is, made plain, that letter's capital. */
  lemma PlainIsCapital(fold: Folding, c: char)
    requires Unicode(fold) && fold.upper(c) == c && NameCharacter(fold.lower(c))
    ensures PlainChar(c) == UpperChar(fold.lower(c))
  {
    assert Ascii(fold.lower(c));
    if Ascii(c) {
      assert fold.upper(c) == UpperChar(c);
    }
  }

  lemma SamePlain(fold: Folding, a: string, b: string)
    requires Unicode(fold) && PREFIX <= a && PREFIX <= b && Upper(fold, a) == a && Upper(fold, b) == b
    requires Lower(fold, a[|PREFIX|..]) == Lower(fold, b[|PREFIX|..])
    requires forall i | 0 <= i < |a| - |PREFIX| :: NameCharacter(Lower(fold, a[|PREFIX|..])[i])
    ensures Plain(a) == Plain(b)
  {
    hide Unicode, NameCharacter, PlainChar;
    var x, y := Lower(fold, a[|PREFIX|..]), Lower(fold, b[|PREFIX|..]);
    assert |x| == |a| - |PREFIX| && |y| == |b| - |PREFIX|;
    forall i | |PREFIX| <= i < |a| ensures PlainChar(a[i]) == PlainChar(b[i]) {
      assert fold.lower(a[i]) == x[i - |PREFIX|] == y[i - |PREFIX|] == fold.lower(b[i]);
      assert Upper(fold, a)[i] == a[i] && Upper(fold, b)[i] == b[i];
      PlainIsCapital(fold, a[i]);
      PlainIsCapital(fold, b[i]);
    }
    assert forall i | 0 <= i < |PREFIX| :: a[i] == PREFIX[i] == b[i];
  }

  lemma PlainReadsAlike(fold: Folding, s: string)
    requires Unicode(fold)
    ensures Lower(fold, Plain(s)) == Lower(fold, s)
  {
  }

  /** Upper-case variables whose names read as one path of names are those that differ in nothing but a Kelvin sign
      for K or a dotted capital I for I. */
  lemma ReadAlikeExactly(fold: Folding, a: string, b: string)
    requires Unicode(fold) && PREFIX <= a && PREFIX <= b && Upper(fold, a) == a && Upper(fold, b) == b
    requires Names(PathOf(fold, a))
    ensures PathOf(fold, a) == PathOf(fold, b) <==> Plain(a) == Plain(b)
  {
    hide Unicode, Split, Names, NameCharacter, PlainChar;
    if PathOf(fold, a) == PathOf(fold, b) {
      var x, y := Lower(fold, a[|PREFIX|..]), Lower(fold, b[|PREFIX|..]);
      JoinOfSplit(x, "__");
      JoinOfSplit(y, "__");
      JoinedNames(PathOf(fold, a));
      assert forall i | 0 <= i < |x| :: x[i] in x;
      SamePlain(fold, a, b);
    }
    if Plain(a) == Plain(b) {
      assert Plain(a)[|PREFIX|..] == Plain(a[|PREFIX|..]) && Plain(b)[|PREFIX|..] == Plain(b[|PREFIX|..]);
      PlainReadsAlike(fold, a[|PREFIX|..]);
      PlainReadsAlike(fold, b[|PREFIX|..]);
    }
  }

  lemma AsciiIsPlain(s: string)
    requires forall c <- s :: Ascii(c)
    ensures Plain(s) == s
  {
    assert forall i | 0 <= i < |s| :: s[i] in s;
  }

  /** So ASCII variables with different names are read as different paths. */
  lemma NoTwoNamesReadAlike(fold: Folding, a: string, b: string)
    requires Unicode(fold) && PREFIX <= a && PREFIX <= b && Upper(fold, a) == a && Upper(fold, b) == b
    requires Names(PathOf(fold, a)) && PathOf(fold, a) == PathOf(fold, b)
    requires (forall c <- a :: Ascii(c)) && forall c <- b :: Ascii(c)
    ensures a == b
  {
    hide Split, Names;
    ReadAlikeExactly(fold, a, b);
    AsciiIsPlain(a);
    AsciiIsPlain(b);
  }
}
