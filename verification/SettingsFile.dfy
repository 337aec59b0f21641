/** Collecting what the configuration file sets (process/settings/settings.go). */
module SettingsFile {
  import opened Wrappers
  import opened PathNames
  import opened SettingsTree
  import opened SettingsLayers
  import SearchText

  datatype Entry = Entry(key: string, line: nat, doc: Doc)

  /** The file's document beside what it decodes to: every node's value as a whole, its line, and its keys. */
  datatype Doc = Doc(value: Datum, line: nat, content: seq<Entry>)

  /** The decoder refuses a mapping that holds a key twice. */
  predicate Unambiguous(d: Doc) {
    && (forall e <- d.content :: Unambiguous(e.doc))
    && forall i, j :: 0 <= i < j < |d.content| ==> d.content[i].key != d.content[j].key
  }

  function Lookup(content: seq<Entry>, key: string): (e: Option<Entry>)
    ensures e.Some? ==> e.value in content && e.value.key == key
    ensures e.None? ==> forall f <- content :: f.key != key
  {
    if content == [] then None
    else if content[0].key == key then Some(content[0])
    else Lookup(content[1..], key)
  }

  function DocAt(d: Doc, path: Path): Option<Doc>
    decreases |path|
  {
    if path == [] then Some(d)
    else match Lookup(d.content, path[0])
      case None => None
      case Some(e) => DocAt(e.doc, path[1..])
  }

  function Line(name: string, line: nat): Source {
    Source(File, name + " line " + SearchText.Digits(line))
  }

  function FileWanted(n: Node, d: Doc, name: string): Want {
    (q: Path) => if IsValue(n, q) && DocAt(d, q).Some?
                 then Some(Setting(DocAt(d, q).value.value, Line(name, DocAt(d, q).value.line)))
                 else None
  }

  function FileNamed(n: Node, d: Doc): Named {
    (e: Path) => IsEntry(n, e) && DocAt(d, e).Some?
  }

  /** A path the file names with a segment that could be no environment name's. */
  predicate Misnamed(n: Node, d: Doc, q: Path) {
    NodeAt(n, q).Some? && DocAt(d, q).Some? && exists s <- q :: !IsName(s)
  }

  ghost predicate NoneMisnamed(n: Node, d: Doc, done: set<string>) {
    forall q: Path :: q != [] && q[0] in done ==> !Misnamed(n, d, q)
  }

  lemma NoneMisnamedYet(n: Node, d: Doc)
    ensures NoneMisnamed(n, d, {})
  {
  }

  lemma {:induction false} LookupDistinct(content: seq<Entry>, i: nat)
    requires i < |content| && forall a, b :: 0 <= a < b < |content| ==> content[a].key != content[b].key
    ensures Lookup(content, content[i].key) == Some(content[i])
  {
    if i == 0 {
    } else {
      LookupDistinct(content[1..], i - 1);
    }
  }

  lemma EntryThere(d: Doc, i: nat)
    requires Unambiguous(d) && i < |d.content|
    ensures var e := d.content[i];
            && Unambiguous(e.doc) && Lookup(d.content, e.key) == Some(e)
            && e.key !in (set f <- d.content[..i] :: f.key)
  {
    assert d.content[i] in d.content;
    LookupDistinct(d.content, i);
  }

  lemma DeclaredChild(n: Node, k: string)
    requires Declared(n) && Child(n, k).Some?
    ensures Declared(Child(n, k).value) && (n.Section? ==> IsName(k))
  {
    if n.Section? {
      assert Find(n.fields, k).value in n.fields;
    }
  }

  lemma Under(n: Node, d: Doc, k: string, q: Path)
    requires Child(n, k).Some?
    ensures var e := Lookup(d.content, k);
            && NodeAt(n, [k] + q) == NodeAt(Child(n, k).value, q)
            && DocAt(d, [k] + q) == (if e.None? then None else DocAt(e.value.doc, q))
            && (q != [] && NodeAt(n, [k] + q).Some? ==> (IsEntry(n, [k] + q) <==> IsEntry(Child(n, k).value, q)))
            && (q == [] ==> (IsEntry(n, [k] + q) <==> n.Keyed?) && !IsEntry(Child(n, k).value, q))
  {
    assert ([k] + q)[1..] == q;
    assert KeyedPart(Child(n, k).value, []) == 0;
  }

  lemma KeyMisnamed(n: Node, d: Doc, done: set<string>, e: Entry)
    requires NoneMisnamed(n, d, done) && Lookup(d.content, e.key) == Some(e)
    ensures Child(n, e.key).None? ==> NoneMisnamed(n, d, done + {e.key})
    ensures Child(n, e.key).Some? ==>
              var child := Child(n, e.key).value;
              && ((exists q :: Misnamed(child, e.doc, q)) ==> exists q :: Misnamed(n, d, q))
              && (!IsName(e.key) ==> exists q :: Misnamed(n, d, q))
              && (IsName(e.key) && (forall q :: !Misnamed(child, e.doc, q)) ==> NoneMisnamed(n, d, done + {e.key}))
  {
    var k := e.key;
    if Child(n, k).Some? {
      var child := Child(n, k).value;
      if q :| Misnamed(child, e.doc, q) {
        Under(n, d, k, q);
        assert forall s :: s in q ==> s in [k] + q;
        assert Misnamed(n, d, [k] + q);
      }
      if !IsName(k) {
        Under(n, d, k, []);
        assert k in [k] + [];
        assert Misnamed(n, d, [k] + []);
      }
      forall q: Path | IsName(k) && q != [] && q[0] == k && Misnamed(n, d, q)
        ensures Misnamed(child, e.doc, q[1..])
      {
        assert q == [k] + q[1..];
        Under(n, d, k, q[1..]);
      }
    }
  }

  lemma EntryIsNode(n: Node, q: Path)
    ensures IsEntry(n, q) ==> NodeAt(n, q).Some?
  {
  }

  lemma FoundHere(d: Doc)
    ensures DocAt(d, []) == Some(d)
  {
  }

  lemma KeyCollected(out: seq<Assignment>, n: Node, d: Doc, at: Path, name: string, done: set<string>, e: Entry,
                     entry: seq<Assignment>, below: seq<Assignment>)
    requires Child(n, e.key).Some? && IsName(e.key) && e.key !in done && Lookup(d.content, e.key) == Some(e)
    requires var child := Child(n, e.key).value;
             Sets(below, child, at + [e.key], FileWanted(child, e.doc, name), FileNamed(child, e.doc))
    requires SetsPart(out, n, at, FileWanted(n, d, name), FileNamed(n, d), done)
    requires entry == if n.Keyed? then [Assignment(at + [e.key], None, Line(name, e.line))] else []
    ensures SetsPart(out + entry + below, n, at, FileWanted(n, d, name), FileNamed(n, d), done + {e.key})
  {
    hide SetsPart, Sets, NodeAt, DocAt, IsEntry, Child;
    var child := Child(n, e.key).value;
    var want, named := FileWanted(n, d, name), FileNamed(n, d);
    var step := Step(e.key, entry, below, FileWanted(child, e.doc, name), FileNamed(child, e.doc));
    forall q: Path
      ensures want([e.key] + q) == step.want(q)
      ensures q != [] ==> (named([e.key] + q) <==> step.named(q))
      ensures q == [] ==> (named([e.key] + q) <==> n.Keyed?) && !step.named(q)
    {
      Under(n, d, e.key, q);
      EntryIsNode(n, [e.key] + q);
      EntryIsNode(child, q);
      FoundHere(e.doc);
    }
    assert [e.key] + [] == [e.key];
    OneMoreKey(out, n, at, want, named, done, step);
  }

  /** A key without a declared child is passed over. */
  lemma UnknownKey(out: seq<Assignment>, n: Node, d: Doc, at: Path, name: string, done: set<string>, k: string)
    requires Child(n, k).None? && SetsPart(out, n, at, FileWanted(n, d, name), FileNamed(n, d), done)
    ensures SetsPart(out, n, at, FileWanted(n, d, name), FileNamed(n, d), done + {k})
  {
    var want, named := FileWanted(n, d, name), FileNamed(n, d);
    forall e: Path | e != [] && e[0] == k && k !in done
      ensures named(e) <==> Enters(out, at + e)
    {
      assert (at + e)[|at|] == k;
    }
    forall q | IsValue(n, q) && q != [] && q[0] in done + {k}
      ensures Last(out, at + q) == Expected(at + q, want(q))
    {
    }
  }

  lemma AbsentUnread(n: Node, d: Doc, name: string, done: set<string>)
    requires !n.ValueNode? && done == (set e <- d.content :: e.key) && NoneMisnamed(n, d, done)
    ensures forall q: Path :: q == [] || q[0] !in done ==> FileWanted(n, d, name)(q) == None && !FileNamed(n, d)(q)
    ensures forall q :: !Misnamed(n, d, q)
  {
    forall q: Path | q != [] && q[0] !in done ensures DocAt(d, q).None? {
    }
  }

  method CollectKeys(n: Node, d: Doc, at: Path, name: string) returns (r: Result<seq<Assignment>>)
    requires !n.ValueNode? && Declared(n) && Unambiguous(d)
    ensures r.Ok? ==> Sets(r.value, n, at, FileWanted(n, d, name), FileNamed(n, d))
    ensures r.Ok? <==> forall q :: !Misnamed(n, d, q)
    decreases d, 0
  {
    hide Sets, SetsPart, Misnamed, NoneMisnamed, FileWanted, FileNamed, Declared, Child, Unambiguous, Lookup, IsName;
    var out := [];
    ghost var want, named := FileWanted(n, d, name), FileNamed(n, d);
    Nothing(n, at, want, named);
    NoneMisnamedYet(n, d);
    ghost var done := {};
    for i := 0 to |d.content|
      invariant done == set e <- d.content[..i] :: e.key
      invariant SetsPart(out, n, at, want, named, done) && NoneMisnamed(n, d, done)
    {
      var e := d.content[i];
      EntryThere(d, i);
      KeyMisnamed(n, d, done, e);
      if Child(n, e.key).None? {
        UnknownKey(out, n, d, at, name, done, e.key);
      } else {
        DeclaredChild(n, e.key);
        if n.Keyed? && !IsName(e.key) {
          return Err(BadKey);
        }
        var below := CollectFile(Child(n, e.key).value, e.doc, at + [e.key], name);
        if below.Err? {
          return below;
        }
        var entry := if n.Keyed? then [Assignment(at + [e.key], None, Line(name, e.line))] else [];
        KeyCollected(out, n, d, at, name, done, e, entry, below.value);
        out := out + entry + below.value;
      }
      done := done + {e.key};
      assert d.content[..i + 1] == d.content[..i] + [e];
    }
    assert d.content[..|d.content|] == d.content;
    AbsentUnread(n, d, name, done);
    Finished(out, n, at, want, named, done);
    r := Ok(out);
  }

  method CollectFile(n: Node, d: Doc, at: Path, name: string) returns (r: Result<seq<Assignment>>)
    requires Declared(n) && Unambiguous(d)
    ensures r.Ok? ==> Sets(r.value, n, at, FileWanted(n, d, name), FileNamed(n, d))
    ensures r.Ok? <==> forall q :: !Misnamed(n, d, q)
    decreases d, 1
  {
    if n.ValueNode? {
      var a := Assignment(at, Some(d.value), Line(name, d.line));
      ValueSets(n, at, a, FileWanted(n, d, name), FileNamed(n, d));
      r := Ok([a]);
    } else {
      r := CollectKeys(n, d, at, name);
    }
  }
}
