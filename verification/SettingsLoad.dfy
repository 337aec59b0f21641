/** Checking what is required and loading every layer (process/settings/settings.go). */
module SettingsLoad {
  import opened Wrappers
  import opened PathNames
  import opened SettingsTree
  import opened SettingsLayers
  import opened SettingsFile
  import opened SettingsEnvironment

  // ---------------------------------------------------------------- required values

  ghost predicate CompletePart(n: Node, t: Tree, at: Path, sources: map<string, Source>, done: set<string>) {
    forall p: Path :: p != [] && p[0] in done && IsRequired(n, p) && Holds(t, p) ==> Dotted(at + p) in sources
  }

  lemma NothingRequired(n: Node)
    requires n.ValueNode?
    ensures forall p :: !IsRequired(n, p)
  {
  }

  lemma TreeBranches(n: Node, t: Tree)
    requires !n.ValueNode? && Fits(t, n)
    ensures t.Branch?
  {
  }

  lemma NoneYetRequired(n: Node, t: Tree, at: Path, sources: map<string, Source>)
    ensures CompletePart(n, t, at, sources, {})
  {
  }

  lemma KidThere(n: Node, t: Tree, k: string)
    requires !n.ValueNode? && Declared(n) && Fits(t, n) && t.Branch? && k in t.kids
    ensures Child(n, k).Some? && Declared(Child(n, k).value) && Fits(t.kids[k], Child(n, k).value)
    ensures Child(n, k).value < n
    ensures n.Section? ==> Find(n.fields, k).Some?
  {
    if n.Section? {
      assert Find(n.fields, k).value in n.fields;
    }
  }

  lemma UnderKey(n: Node, t: Tree, at: Path, k: string, p: Path)
    requires Child(n, k).Some? && t.Branch? && k in t.kids && p != []
    ensures IsRequired(n, [k] + p) <==> IsRequired(Child(n, k).value, p)
    ensures Holds(t, [k] + p) <==> Holds(t.kids[k], p)
    ensures at + ([k] + p) == (at + [k]) + p
  {
    assert ([k] + p)[1..] == p;
  }

  lemma KeyRequired(n: Node, t: Tree, at: Path, sources: map<string, Source>, done: set<string>, k: string)
    requires Fits(t, n) && t.Branch? && k in t.kids && Child(n, k).Some? && CompletePart(n, t, at, sources, done)
    ensures Complete(Child(n, k).value, t.kids[k], at + [k], sources)
            && (IsRequired(n, [k]) ==> Dotted(at + [k]) in sources)
            ==> CompletePart(n, t, at, sources, done + {k})
    ensures IsRequired(n, [k]) && Dotted(at + [k]) !in sources ==> !Complete(n, t, at, sources)
  {
    hide Dotted, IsRequired;
    OneSegment(n, t, k);
    forall p: Path | p != [] && p[0] == k && IsRequired(n, p) && Holds(t, p) && p != [k]
      ensures IsRequired(Child(n, k).value, p[1..]) && Holds(t.kids[k], p[1..]) && at + p == (at + [k]) + p[1..]
    {
      assert p == [k] + p[1..];
      assert p[1..] != [];
      UnderKey(n, t, at, k, p[1..]);
    }
  }

  lemma MissingBelow(n: Node, t: Tree, at: Path, sources: map<string, Source>, k: string, m: Path)
    requires Child(n, k).Some? && t.Branch? && k in t.kids
    requires exists p :: IsRequired(Child(n, k).value, p) && Holds(t.kids[k], p) && m == (at + [k]) + p
                         && Dotted((at + [k]) + p) !in sources
    ensures !Complete(n, t, at, sources)
    ensures exists p :: IsRequired(n, p) && Holds(t, p) && m == at + p && Dotted(at + p) !in sources
  {
    hide Dotted;
    var p :| IsRequired(Child(n, k).value, p) && Holds(t.kids[k], p) && m == (at + [k]) + p
             && Dotted((at + [k]) + p) !in sources;
    UnderKey(n, t, at, k, p);
    assert IsRequired(n, [k] + p) && Holds(t, [k] + p) && m == at + ([k] + p);
  }

  lemma AllRequiredDone(n: Node, t: Tree, at: Path, sources: map<string, Source>, done: set<string>)
    requires t.Branch? && t.kids.Keys <= done && CompletePart(n, t, at, sources, done)
    ensures Complete(n, t, at, sources)
  {
    assert !IsRequired(n, []);
  }

  method CheckKeys(n: Node, t: Tree, at: Path, sources: map<string, Source>) returns (missing: Option<Path>)
    requires !n.ValueNode? && Declared(n) && Fits(t, n)
    ensures missing.None? <==> Complete(n, t, at, sources)
    ensures missing.Some? ==> exists p :: IsRequired(n, p) && Holds(t, p) && missing.value == at + p
                                          && Dotted(at + p) !in sources
    decreases n, 0
  {
    hide Declared, Fits, Complete, CompletePart, IsRequired, Find, Child, Dotted;
    TreeBranches(n, t);
    NoneYetRequired(n, t, at, sources);
    var keys := t.kids.Keys;
    assert t.kids.Keys - keys == {};
    while keys != {}
      invariant keys <= t.kids.Keys
      invariant CompletePart(n, t, at, sources, t.kids.Keys - keys)
      decreases |keys|
    {
      var k :| k in keys;
      ghost var done := t.kids.Keys - keys;
      KidThere(n, t, k);
      OneSegment(n, t, k);
      KeyRequired(n, t, at, sources, done, k);
      if n.Section? && Find(n.fields, k).value.required && Dotted(at + [k]) !in sources {
        return Some(at + [k]);
      }
      var below := CheckRequired(Child(n, k).value, t.kids[k], at + [k], sources);
      if below.Some? {
        MissingBelow(n, t, at, sources, k, below.value);
        return below;
      }
      keys := keys - {k};
      assert t.kids.Keys - keys == done + {k};
    }
    AllRequiredDone(n, t, at, sources, t.kids.Keys - keys);
    missing := None;
  }

  /** The path of some required value that no layer set, or none when there is none. */
  method CheckRequired(n: Node, t: Tree, at: Path, sources: map<string, Source>) returns (missing: Option<Path>)
    requires Declared(n) && Fits(t, n)
    ensures missing.None? <==> Complete(n, t, at, sources)
    ensures missing.Some? ==> exists p :: IsRequired(n, p) && Holds(t, p) && missing.value == at + p
                                          && Dotted(at + p) !in sources
    decreases n, 1
  {
    match n {
      case ValueNode(_) =>
        NothingRequired(n);
        missing := None;
      case _ =>
        missing := CheckKeys(n, t, at, sources);
    }
  }

  // ---------------------------------------------------------------- loading

  datatype Value = Value(source: Source, value: Datum)

  /** The configuration, and every value some layer set by its dotted path. */
  datatype Loaded = Loaded(config: Tree, values: map<string, Value>)

  datatype ConfigFile = ConfigFile(name: string, doc: Doc)

  /** What the layers are read from: the defaults, the file if one is named, the environment and the flags. */
  datatype Layers = Layers(defaults: Tree, file: Option<ConfigFile>, environment: Want, flags: seq<Assignment>)

  /** What the layers together set a value to: the flag's, the environment's, the file's or the default's. */
  function Decided(n: Node, from: Layers, p: Path): Option<Setting>
    requires Fits(from.defaults, n)
  {
    if Last(from.flags, p).Some?
    then Some(Setting(Last(from.flags, p).value.value.value, Last(from.flags, p).value.source))
    else if from.environment(p).Some? then from.environment(p)
    else if from.file.Some? && FileWanted(n, from.file.value.doc, from.file.value.name)(p).Some?
    then FileWanted(n, from.file.value.doc, from.file.value.name)(p)
    else DefaultsWanted(n, from.defaults)(p)
  }

  /** A map entry the defaults hold, the file names, or the path of a value some layer decides passes. */
  ghost predicate EntryNamed(n: Node, from: Layers, e: Path)
    requires Fits(from.defaults, n)
  {
    || DefaultsNamed(n, from.defaults)(e)
    || (from.file.Some? && FileNamed(n, from.file.value.doc)(e))
    || exists p :: IsValue(n, p) && Reaches(p, e) && Decided(n, from, p).Some?
  }

  /** A required value whose section is there: no map entry leads to it, or the last that does is named. */
  ghost predicate Demanded(n: Node, from: Layers, p: Path)
    requires Declared(n) && Fits(from.defaults, n)
  {
    && IsRequired(n, p)
    && (RequiredIsValue(n, p);
        KeyedPart(n, p) == 0 || EntryNamed(n, from, p[..KeyedPart(n, p)]))
  }

  method Assign(root: Node, layers: seq<Assignment>) returns (config: Tree, sources: map<string, Source>)
    requires Settable(root, layers)
    ensures config == Written(root, layers) && sources == Recorded(layers)
  {
    config, sources := Zero(root), map[];
    for i := 0 to |layers|
      invariant config == Written(root, layers[..i]) && sources == Recorded(layers[..i])
    {
      var a := layers[i];
      assert layers[..i + 1][..i] == layers[..i];
      config := SetAt(config, root, a.path, a.value);
      if a.value.Some? {
        sources := sources[Dotted(a.path) := a.source];
      }
    }
    assert layers[..|layers|] == layers;
  }

  lemma {:induction false} RecordedPath(layers: seq<Assignment>, key: string) returns (p: Path)
    requires key in Recorded(layers)
    ensures key == Dotted(p) && exists a <- layers :: a.path == p && a.value.Some?
  {
    var earlier, a := layers[..|layers| - 1], layers[|layers| - 1];
    assert layers == earlier + [a];
    if a.value.Some? && key == Dotted(a.path) {
      p := a.path;
      assert a in layers;
    } else {
      p := RecordedPath(earlier, key);
    }
  }

  lemma RecordedSplits(root: Node, layers: seq<Assignment>, key: string)
    requires Settable(root, layers) && key in Recorded(layers)
    ensures var p := Split(key, "."); Names(p) && IsValue(root, p) && Dotted(p) == key
  {
    hide Recorded, Split, Names;
    var p := RecordedPath(layers, key);
    DottedIsOneToOne(p, p);
  }

  method ReadValues(root: Node, layers: seq<Assignment>, config: Tree, sources: map<string, Source>)
    returns (values: map<string, Value>)
    requires Settable(root, layers) && config == Written(root, layers) && sources == Recorded(layers)
    ensures values.Keys == sources.Keys
    ensures forall p :: IsValue(root, p) && Names(p) && Dotted(p) in sources
              ==> values[Dotted(p)] == Value(sources[Dotted(p)], Read(config, root, p))
  {
    hide Written, Recorded, Settable, Names, Split, Dotted;
    values := map[];
    var keys := sources.Keys;
    while keys != {}
      invariant keys <= sources.Keys && values.Keys == sources.Keys - keys
      invariant forall p :: IsValue(root, p) && Names(p) && Dotted(p) in values
                  ==> values[Dotted(p)] == Value(sources[Dotted(p)], Read(config, root, p))
      decreases |keys|
    {
      var k :| k in keys;
      RecordedSplits(root, layers, k);
      values := values[k := Value(sources[k], Read(config, root, Split(k, ".")))];
      forall p | IsValue(root, p) && Names(p) && Dotted(p) == k ensures p == Split(k, ".") {
        DottedIsOneToOne(p, Split(k, "."));
      }
      keys := keys - {k};
    }
  }

  predicate ValueLoaded(root: Node, l: Loaded, decided: Option<Setting>, p: Path)
    requires Fits(l.config, root) && IsValue(root, p)
  {
    && Read(l.config, root, p) == (if decided.Some? then decided.value.value else NodeAt(root, p).value.zero)
    && (Dotted(p) in l.values <==> decided.Some?)
    && (decided.Some? ==> l.values[Dotted(p)] == Value(decided.value.source, decided.value.value))
  }

  /** Every value reads as decided, its source and value are listed exactly when some layer decided it, a map entry
      is there exactly when it is named, and every value demanded was decided. */
  ghost predicate IsLoaded(root: Node, l: Loaded, from: Layers)
    requires Declared(root) && Fits(l.config, root) && Fits(from.defaults, root)
  {
    && (forall p :: IsValue(root, p) && Names(p) ==> ValueLoaded(root, l, Decided(root, from, p), p))
    && (forall e :: IsEntry(root, e) ==> (Holds(l.config, e) <==> EntryNamed(root, from, e)))
    && (forall p :: Demanded(root, from, p) ==> Holds(l.config, p) && Decided(root, from, p).Some?)
    && (forall key <- l.values :: var p := Split(key, "."); Dotted(p) == key && Names(p) && IsValue(root, p))
  }

  /** The lists collected of each layer. */
  datatype Collected = Collected(d: seq<Assignment>, f: seq<Assignment>, e: seq<Assignment>, g: seq<Assignment>) {
    function All(): seq<Assignment> { d + f + e + g }
  }

  /** They set and name what their layers do. The environment and the flags name no entry by itself. */
  ghost predicate Collects(root: Node, from: Layers, c: Collected)
    requires Fits(from.defaults, root)
  {
    && Sets(c.d, root, [], DefaultsWanted(root, from.defaults), DefaultsNamed(root, from.defaults))
    && (if from.file.None? then c.f == []
        else Sets(c.f, root, [], FileWanted(root, from.file.value.doc, from.file.value.name),
                  FileNamed(root, from.file.value.doc)))
    && Settable(root, c.e) && (forall a <- c.e :: a.value.Some?)
    && (forall p :: Last(c.e, p) == Expected(p, from.environment(p)))
    && Settable(root, c.g) && (forall a <- c.g :: a.value.Some?) && c.g == from.flags
  }

  lemma SetsSettable(out: seq<Assignment>, root: Node, want: Want, named: Named)
    requires root.Section? && Sets(out, root, [], want, named) && !named([])
    ensures Settable(root, out)
  {
    var top: Path := [];
    assert top + top == top;
    assert !Enters(out, top);
    forall a <- out ensures Names(a.path) && Applies(root, a.path, a.value) {
      assert a.path[0..] == a.path;
    }
  }

  lemma AllSettable(root: Node, from: Layers, c: Collected)
    requires root.Section? && Fits(from.defaults, root) && Collects(root, from, c)
    ensures Settable(root, c.All())
  {
    hide Sets, Names, Applies;
    SetsSettable(c.d, root, DefaultsWanted(root, from.defaults), DefaultsNamed(root, from.defaults));
    if from.file.Some? {
      SetsSettable(c.f, root, FileWanted(root, from.file.value.doc, from.file.value.name),
                   FileNamed(root, from.file.value.doc));
    }
  }

  lemma SetsAt(out: seq<Assignment>, root: Node, want: Want, named: Named, p: Path)
    requires Sets(out, root, [], want, named) && IsValue(root, p)
    ensures Last(out, p) == Expected(p, want(p))
  {
    assert [] + p == p;
  }

  lemma LastDecided(root: Node, from: Layers, c: Collected, p: Path)
    requires Fits(from.defaults, root) && IsValue(root, p) && Collects(root, from, c)
    ensures Last(c.All(), p) == Expected(p, Decided(root, from, p))
  {
    LayersOutweigh(c.d, c.f, c.e, c.g, p);
    hide Last, DefaultsWanted, FileWanted, Fits, Sets;
    SetsAt(c.d, root, DefaultsWanted(root, from.defaults), DefaultsNamed(root, from.defaults), p);
    if from.file.Some? {
      SetsAt(c.f, root, FileWanted(root, from.file.value.doc, from.file.value.name),
             FileNamed(root, from.file.value.doc), p);
    } else {
      LastWithin(c.f, p);
    }
  }

  // ---------------------------------------------------------------- which map entries there are

  lemma {:induction false} HoldsPrefix(t: Tree, p: Path, e: Path)
    requires Holds(t, p) && Reaches(p, e)
    ensures Holds(t, e)
    decreases |p|
  {
    if e == [] {
    } else {
      assert e[0] == p[..|e|][0] == p[0];
      ReachesStep(p, e);
      HoldsPrefix(t.kids[p[0]], p[1..], e[1..]);
    }
  }

  lemma {:induction false} DocPrefix(d: Doc, p: Path, e: Path)
    requires DocAt(d, p).Some? && Reaches(p, e)
    ensures DocAt(d, e).Some?
    decreases |p|
  {
    if e == [] {
    } else {
      assert e[0] == p[..|e|][0] == p[0];
      ReachesStep(p, e);
      DocPrefix(Lookup(d.content, p[0]).value.doc, p[1..], e[1..]);
    }
  }

  /** An assignment without a value that passes an entry comes of a layer that names the entry. */
  lemma EntryOfLayer(root: Node, from: Layers, out: seq<Assignment>, want: Want, named: Named, a: Assignment, e: Path)
    requires Fits(from.defaults, root) && Sets(out, root, [], want, named) && IsEntry(root, e)
    requires a in out && a.value.None? && Reaches(a.path, e)
    ensures named(a.path)
  {
    assert [] + a.path == a.path;
    assert Enters(out, a.path);
  }

  lemma {:induction false} ValuedIsLast(layers: seq<Assignment>, a: Assignment)
    requires a in layers && a.value.Some?
    ensures Last(layers, a.path).Some?
  {
    var earlier, last := layers[..|layers| - 1], layers[|layers| - 1];
    assert layers == earlier + [last];
    if last.path == a.path && last.value.Some? {
    } else {
      ValuedIsLast(earlier, a);
    }
  }

  lemma ValuedIsDecided(root: Node, from: Layers, c: Collected, a: Assignment)
    requires root.Section? && Fits(from.defaults, root) && Collects(root, from, c) && Settable(root, c.All())
    requires a in c.All() && a.value.Some?
    ensures IsValue(root, a.path) && Decided(root, from, a.path).Some?
  {
    hide Decided, Collects, Fits, Names;
    ValuedIsLast(c.All(), a);
    LastDecided(root, from, c, a.path);
  }

  lemma PassedIsNamed(root: Node, from: Layers, c: Collected, a: Assignment, e: Path)
    requires root.Section? && Fits(from.defaults, root) && Collects(root, from, c) && IsEntry(root, e)
    requires a in c.All() && Reaches(a.path, e)
    ensures EntryNamed(root, from, e)
  {
    hide Sets, Fits, Decided, IsEntry, IsValue, Names, Reaches, Holds, DocAt;
    AllSettable(root, from, c);
    if a.value.Some? {
      ValuedIsDecided(root, from, c, a);
    } else if a in c.d {
      EntryOfLayer(root, from, c.d, DefaultsWanted(root, from.defaults), DefaultsNamed(root, from.defaults), a, e);
      HoldsPrefix(from.defaults, a.path, e);
    } else {
      assert a in c.f;
      EntryOfLayer(root, from, c.f, FileWanted(root, from.file.value.doc, from.file.value.name),
                   FileNamed(root, from.file.value.doc), a, e);
      DocPrefix(from.file.value.doc, a.path, e);
    }
  }

  lemma NamedIsPassed(root: Node, from: Layers, c: Collected, e: Path)
    requires root.Section? && Fits(from.defaults, root) && Collects(root, from, c) && IsEntry(root, e)
    requires EntryNamed(root, from, e)
    ensures Passed(c.All(), e)
  {
    hide Decided, Fits, DefaultsWanted, DefaultsNamed, FileWanted, FileNamed, IsValue;
    assert [] + e == e;
    if DefaultsNamed(root, from.defaults)(e) {
      var a :| a in c.d && a.path == e;
      assert a in c.All();
    } else if from.file.Some? && FileNamed(root, from.file.value.doc)(e) {
      var a :| a in c.f && a.path == e;
      assert a in c.All();
    } else {
      var p :| IsValue(root, p) && Reaches(p, e) && Decided(root, from, p).Some?;
      LastDecided(root, from, c, p);
      assert Last(c.All(), p).value in c.All();
    }
  }

  /** A map entry is there exactly when a layer names it. */
  lemma EntriesNamed(root: Node, from: Layers, c: Collected, e: Path)
    requires root.Section? && Fits(from.defaults, root) && Collects(root, from, c) && IsEntry(root, e)
    requires Settable(root, c.All())
    ensures Passed(c.All(), e) <==> EntryNamed(root, from, e)
    ensures Holds(Written(root, c.All()), e) <==> EntryNamed(root, from, e)
  {
    hide Collects, EntryNamed, Written, Settable, Fits, Holds, Reaches;
    if Passed(c.All(), e) {
      var a :| a in c.All() && Reaches(a.path, e);
      PassedIsNamed(root, from, c, a, e);
    }
    if EntryNamed(root, from, e) {
      NamedIsPassed(root, from, c, e);
    }
    HeldExactly(root, c.All(), e);
    assert e[..|e|] == e;
  }

  lemma {:induction false} LastKeyIsEntry(n: Node, p: Path)
    requires NodeAt(n, p).Some? && KeyedPart(n, p) > 0
    ensures IsEntry(n, p[..KeyedPart(n, p)])
    decreases |p|
  {
    var child, k := Child(n, p[0]).value, KeyedPart(n, p);
    assert p[..k][1..] == p[1..][..k - 1];
    if KeyedPart(child, p[1..]) == 0 {
      assert p[..k] == [p[0]] && p[1..][..0] == [];
    } else {
      LastKeyIsEntry(child, p[1..]);
    }
  }

  /** A required value is there exactly when it is demanded. */
  lemma RequiredThere(root: Node, from: Layers, c: Collected, p: Path)
    requires root.Section? && Declared(root) && Fits(from.defaults, root) && Collects(root, from, c)
    requires Settable(root, c.All()) && IsRequired(root, p)
    ensures Holds(Written(root, c.All()), p) <==> Demanded(root, from, p)
    ensures Demanded(root, from, p) ==> IsValue(root, p) && Names(p)
  {
    hide Collects, EntryNamed, Written, Settable, Fits, Holds, Declared, Passed, Names, IsEntry;
    RequiredIsValue(root, p);
    HeldExactly(root, c.All(), p);
    if KeyedPart(root, p) > 0 {
      LastKeyIsEntry(root, p);
      EntriesNamed(root, from, c, p[..KeyedPart(root, p)]);
    }
    if Demanded(root, from, p) {
      HeldIsNamed(root, c.All(), p);
    }
  }

  // ---------------------------------------------------------------- what is loaded

  lemma DemandedIsRequired(n: Node, from: Layers, p: Path)
    requires Declared(n) && Fits(from.defaults, n) && Demanded(n, from, p)
    ensures IsRequired(n, p)
  {
  }

  lemma ConfigIsLoaded(root: Node, from: Layers, c: Collected, l: Loaded)
    requires root.Section? && Declared(root) && Fits(from.defaults, root) && Collects(root, from, c)
    requires Settable(root, c.All())
    requires l.config == Written(root, c.All()) && l.values.Keys == Recorded(c.All()).Keys
    requires forall p :: IsValue(root, p) && Names(p) && Dotted(p) in l.values
               ==> l.values[Dotted(p)] == Value(Recorded(c.All())[Dotted(p)], Read(l.config, root, p))
    requires Complete(root, l.config, [], Recorded(c.All()))
    ensures IsLoaded(root, l, from)
  {
    hide Decided, Collects, Written, Recorded, Last, Settable, Names, Read, Declared, Fits, Dotted, Demanded;
    hide EntryNamed, IsEntry, Holds, IsRequired;
    forall p | IsValue(root, p) && Names(p) ensures ValueLoaded(root, l, Decided(root, from, p), p) {
      LastDecided(root, from, c, p);
      LastAssignmentWins(root, c.All(), p);
    }
    forall e | IsEntry(root, e) ensures Holds(l.config, e) <==> EntryNamed(root, from, e) {
      EntriesNamed(root, from, c, e);
    }
    forall p | Demanded(root, from, p) ensures Holds(l.config, p) && Decided(root, from, p).Some? {
      DemandedIsRequired(root, from, p);
      RequiredThere(root, from, c, p);
      assert [] + p == p;
      LastDecided(root, from, c, p);
      LastAssignmentWins(root, c.All(), p);
    }
    forall key <- l.values ensures var p := Split(key, "."); Dotted(p) == key && Names(p) && IsValue(root, p) {
      RecordedSplits(root, c.All(), key);
    }
  }

  lemma MissingUndecided(root: Node, from: Layers, c: Collected, m: Path)
    requires root.Section? && Declared(root) && Fits(from.defaults, root) && Collects(root, from, c)
    requires Settable(root, c.All())
    requires exists p :: IsRequired(root, p) && Holds(Written(root, c.All()), p) && m == [] + p
                         && Dotted([] + p) !in Recorded(c.All())
    ensures Demanded(root, from, m) && Decided(root, from, m).None?
  {
    hide Decided, Collects, Written, Recorded, Last, Settable, Names, Declared, Fits, Dotted, Demanded;
    hide IsRequired, Holds;
    var p :| IsRequired(root, p) && Holds(Written(root, c.All()), p) && m == [] + p
             && Dotted([] + p) !in Recorded(c.All());
    assert [] + p == p;
    RequiredThere(root, from, c, p);
    LastDecided(root, from, c, p);
    LastAssignmentWins(root, c.All(), p);
  }

  /** What loading starts from: the defaults, the flags as read, the environment's entries and the files there are. */
  datatype Inputs = Inputs(defaults: Tree, flags: Result<(seq<Assignment>, string)>, environ: seq<string>,
                           files: string -> Option<Doc>)

  /** The file a flag names, or else the environment. */
  function NamedFile(given: Inputs): string {
    if given.flags.Ok? && given.flags.value.1 != "" then given.flags.value.1
    else FileNamedBy(Variables(given.environ))
  }

  function LayersOf(root: Node, given: Inputs, lib: Library): Layers {
    var name := NamedFile(given);
    Layers(given.defaults,
           if name == "" || given.files(name).None? then None else Some(ConfigFile(name, given.files(name).value)),
           EnvironmentWanted(root, Variables(given.environ), lib),
           if given.flags.Ok? then given.flags.value.0 else [])
  }

  /** Every layer can be read: no default is refused, no flag, no variable, and the file named is there and names no
      key that is no name. */
  ghost predicate Readable(root: Node, given: Inputs, lib: Library)
    requires Fits(given.defaults, root)
  {
    && (forall q :: !Refused(root, given.defaults, q))
    && given.flags.Ok?
    && EnvironmentAcceptable(root, Variables(given.environ), lib)
    && (NamedFile(given) != "" ==>
          given.files(NamedFile(given)).Some? && forall q :: !Misnamed(root, given.files(NamedFile(given)).value, q))
  }

  /** What the source hands on is well formed: the decoder refuses a document with a key twice, and each flag read
      sets a declared value. */
  ghost predicate WellFormed(root: Node, given: Inputs, lib: Library) {
    && root.Section? && Declared(root) && Fits(given.defaults, root) && Unicode(lib.fold)
    && (forall name :: given.files(name).Some? ==> Unambiguous(given.files(name).value))
    && (given.flags.Ok? ==>
          Settable(root, given.flags.value.0) && forall a <- given.flags.value.0 :: a.value.Some?)
  }

  /** The file read is the one a flag names, or else the one the environment's entry names, or none. */
  lemma FlagsFileWins(root: Node, given: Inputs, lib: Library)
    requires WellFormed(root, given, lib) && Readable(root, given, lib)
    ensures var flag, file := given.flags.value.1, LayersOf(root, given, lib).file;
            if flag != "" then given.files(flag).Some? && file == Some(ConfigFile(flag, given.files(flag).value))
            else
              && (forall text | "MEDIATED_MAILBOX_CONFIG_FILE=" + text in given.environ ::
                    given.files(text).Some? && file == Some(ConfigFile(text, given.files(text).value)))
              && ((forall text :: "MEDIATED_MAILBOX_CONFIG_FILE=" + text !in given.environ) ==> file == None)
  {
    EntryNamesFile(root, given.environ, lib);
    hide Variables, FileNamedBy, EnvironmentAcceptable, Refused, Misnamed, Declared, Fits, Settable, Unicode;
  }

  lemma LoadedDecides(root: Node, l: Loaded, from: Layers)
    requires Declared(root) && Fits(l.config, root) && Fits(from.defaults, root) && IsLoaded(root, l, from)
    ensures forall p :: Demanded(root, from, p) ==> Decided(root, from, p).Some?
  {
    hide Demanded, Decided, Declared, Fits;
  }

  /** Loading succeeds exactly when every layer can be read and a layer sets every value demanded. */
  method Load(root: Node, given: Inputs, lib: Library) returns (r: Result<Loaded>)
    requires WellFormed(root, given, lib)
    ensures r.Ok? <==> Readable(root, given, lib)
                       && forall p :: Demanded(root, LayersOf(root, given, lib), p)
                            ==> Decided(root, LayersOf(root, given, lib), p).Some?
    ensures r.Ok? ==> Fits(r.value.config, root) && IsLoaded(root, r.value, LayersOf(root, given, lib))
    ensures r.Err? && Readable(root, given, lib) ==>
              && r.error.Missing?
              && Demanded(root, LayersOf(root, given, lib), r.error.path)
              && Decided(root, LayersOf(root, given, lib), r.error.path).None?
  {
    hide Sets, Refused, Misnamed, Settable, Written, Recorded, Complete, EnvironmentAcceptable, IsLoaded, Unambiguous;
    hide Fits, Declared, Decided, EnvironmentWanted, DefaultsWanted, FileWanted, IsRequired, Dotted, Holds, Read;
    hide Unicode, Demanded, Variables, FileNamedBy;
    ghost var from := LayersOf(root, given, lib);
    var d := CollectDefaults(root, given.defaults, []);
    if d.Err? {
      return Err(d.error);
    }
    if given.flags.Err? {
      return Err(given.flags.error);
    }
    var e := ReadEnvironment(root, given.environ, lib);
    if e.Err? {
      return Err(e.error);
    }
    var name := if given.flags.value.1 != "" then given.flags.value.1 else e.value.1;
    var f := [];
    if name != "" {
      if given.files(name).None? {
        return Err(Unreadable);
      }
      var collected := CollectFile(root, given.files(name).value, [], name);
      if collected.Err? {
        return Err(collected.error);
      }
      f := collected.value;
    }
    var layers := d.value + f + e.value.0 + given.flags.value.0;
    ghost var c := Collected(d.value, f, e.value.0, given.flags.value.0);
    assert Collects(root, from, c);
    AllSettable(root, from, c);
    assert layers == c.All();
    var config, sources := Assign(root, layers);
    var missing := CheckRequired(root, config, [], sources);
    if missing.Some? {
      MissingUndecided(root, from, c, missing.value);
      return Err(Missing(missing.value));
    }
    var values := ReadValues(root, layers, config, sources);
    r := Ok(Loaded(config, values));
    ConfigIsLoaded(root, from, c, r.value);
    LoadedDecides(root, r.value, from);
  }

  lemma {:induction false} UnmadeReadsZero(t: Tree, n: Node, p: Path)
    requires Fits(t, n) && IsValue(n, p) && !Holds(t, p)
    ensures Read(t, n, p) == NodeAt(n, p).value.zero
    decreases |p|
  {
    if p != [] && p[0] in t.kids {
      UnmadeReadsZero(t.kids[p[0]], Child(n, p[0]).value, p[1..]);
    }
  }

  /** With no other layer, what is loaded from the defaults reads as the defaults do. */
  lemma DefaultsRoundTrip(root: Node, defaults: Tree, d: seq<Assignment>, p: Path)
    requires root.Section? && Fits(defaults, root) && IsValue(root, p) && forall q :: !Refused(root, defaults, q)
    requires Sets(d, root, [], DefaultsWanted(root, defaults), DefaultsNamed(root, defaults)) && Settable(root, d)
    ensures Read(Written(root, d), root, p) == Read(defaults, root, p)
  {
    LastWritten(root, d, p);
    SetsAt(d, root, DefaultsWanted(root, defaults), DefaultsNamed(root, defaults), p);
    if !Holds(defaults, p) {
      UnmadeReadsZero(defaults, root, p);
    } else {
      assert !Refused(root, defaults, p);
    }
  }
}
