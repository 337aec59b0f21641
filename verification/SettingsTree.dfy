/** The declaration tree, the configuration written into it, and what assignments leave there
    (process/settings/declaration.go, process/settings/settings.go). */
module SettingsTree {
  import opened Wrappers
  import opened PathNames

  /** A decoded value. */
  type Datum(==, !new)

  type Path = seq<string>

  datatype Field = Field(name: string, required: bool, node: Node)

  /** A value a layer sets whole, a section of named fields, or a map whose keys are path segments. */
  datatype Node = ValueNode(zero: Datum) | Section(fields: seq<Field>) | Keyed(elem: Node)

  /** What declaring a type has refused otherwise. */
  predicate Declared(n: Node) {
    match n
    case ValueNode(_) => true
    case Keyed(e) => Declared(e)
    case Section(fs) =>
      && (forall f <- fs :: IsName(f.name) && (f.required ==> f.node.ValueNode?) && Declared(f.node))
      && (forall i, j :: 0 <= i < j < |fs| ==> fs[i].name != fs[j].name)
  }

  function Find(fs: seq<Field>, name: string): (f: Option<Field>)
    ensures f.Some? ==> f.value in fs && f.value.name == name
    ensures f.None? ==> forall g <- fs :: g.name != name
  {
    if fs == [] then None else if fs[0].name == name then Some(fs[0]) else Find(fs[1..], name)
  }

  function Child(n: Node, segment: string): Option<Node> {
    match n
    case ValueNode(_) => None
    case Keyed(e) => Some(e)
    case Section(fs) => if Find(fs, segment).Some? then Some(Find(fs, segment).value.node) else None
  }

  function NodeAt(n: Node, path: Path): Option<Node>
    decreases |path|
  {
    if path == [] then Some(n)
    else if Child(n, path[0]).None? then None
    else NodeAt(Child(n, path[0]).value, path[1..])
  }

  predicate IsValue(n: Node, path: Path) {
    NodeAt(n, path).Some? && NodeAt(n, path).value.ValueNode?
  }

  predicate IsRequired(n: Node, path: Path)
    decreases |path|
  {
    path != [] && Child(n, path[0]).Some? &&
    if |path| == 1 then n.Section? && Find(n.fields, path[0]).value.required
    else IsRequired(Child(n, path[0]).value, path[1..])
  }

  // ---------------------------------------------------------------- the configuration as written

  datatype Tree = Leaf(value: Datum) | Branch(kids: map<string, Tree>)

  predicate Fits(t: Tree, n: Node)
    decreases t
  {
    match n
    case ValueNode(_) => t.Leaf?
    case _ =>
      && t.Branch?
      && (forall k <- t.kids :: Child(n, k).Some? && Fits(t.kids[k], Child(n, k).value))
      && (n.Section? ==> forall f <- n.fields :: f.name in t.kids)
  }

  function Zero(n: Node): (t: Tree)
    ensures Fits(t, n)
    decreases n
  {
    match n
    case ValueNode(z) => Leaf(z)
    case Keyed(_) => Branch(map[])
    case Section(fs) => Branch(map name | name in (set f <- fs :: f.name) :: Zero(Find(fs, name).value.node))
  }

  predicate Applies(n: Node, path: Path, value: Option<Datum>) {
    NodeAt(n, path).Some? && (value.Some? ==> IsValue(n, path))
  }

  /** Writing a value at a path makes each map entry on the way, and no value makes the way alone. */
  function SetAt(t: Tree, n: Node, path: Path, value: Option<Datum>): (r: Tree)
    requires Fits(t, n) && Applies(n, path, value)
    ensures Fits(r, n)
    decreases |path|
  {
    if path == [] then (if value.Some? then Leaf(value.value) else t)
    else
      var k, child := path[0], Child(n, path[0]).value;
      var kid := if k in t.kids then t.kids[k] else Zero(child);
      Branch(t.kids[k := SetAt(kid, child, path[1..], value)])
  }

  /** A path's value, the declared zero where the way to it is not made. */
  function Read(t: Tree, n: Node, path: Path): Datum
    requires Fits(t, n) && IsValue(n, path)
    decreases |path|
  {
    if path == [] then t.value
    else if path[0] in t.kids then Read(t.kids[path[0]], Child(n, path[0]).value, path[1..])
    else NodeAt(n, path).value.zero
  }

  predicate Holds(t: Tree, path: Path)
    decreases |path|
  {
    path == [] || (t.Branch? && path[0] in t.kids && Holds(t.kids[path[0]], path[1..]))
  }

  /** The length of a path up to its last map key, which is what must have been made for the path to be there. */
  function KeyedPart(n: Node, path: Path): (k: nat)
    requires NodeAt(n, path).Some?
    ensures k <= |path|
    decreases |path|
  {
    if path == [] then 0
    else
      var rest := KeyedPart(Child(n, path[0]).value, path[1..]);
      if rest > 0 || n.Keyed? then rest + 1 else 0
  }

  predicate Reaches(path: Path, entry: Path) {
    |entry| <= |path| && path[..|entry|] == entry
  }

  /** What a path of one segment is. */
  lemma OneSegment(n: Node, t: Tree, k: string)
    requires Fits(t, n) && Child(n, k).Some? && t.Branch? && k in t.kids
    ensures NodeAt(n, [k]) == Child(n, k) && KeyedPart(n, [k]) == (if n.Keyed? then 1 else 0) && Holds(t, [k])
    ensures Child(n, k).value.ValueNode? ==> IsValue(n, [k]) && t.kids[k].Leaf? && Read(t, n, [k]) == t.kids[k].value
    ensures IsRequired(n, [k]) <==> n.Section? && Find(n.fields, k).value.required
  {
    var child := Child(n, k).value;
    assert [k][1..] == [];
    assert NodeAt(child, []) == Some(child) && KeyedPart(child, []) == 0 && Holds(t.kids[k], []);
    if child.ValueNode? {
      assert Read(t.kids[k], child, []) == t.kids[k].value;
    }
  }

  // ---------------------------------------------------------------- one write

  lemma {:induction false} ZeroReads(n: Node, q: Path)
    requires IsValue(n, q)
    ensures Read(Zero(n), n, q) == NodeAt(n, q).value.zero
    decreases |q|
  {
    if q != [] && n.Section? {
      ZeroReads(Child(n, q[0]).value, q[1..]);
    }
  }

  /** A write is read back at its path and changes no other value. */
  lemma {:induction false} ReadAfterSet(t: Tree, n: Node, p: Path, value: Option<Datum>, q: Path)
    requires Fits(t, n) && Applies(n, p, value) && IsValue(n, q)
    ensures Read(SetAt(t, n, p, value), n, q) == if p == q && value.Some? then value.value else Read(t, n, q)
    decreases |p|
  {
    if p != [] && q != [] && p[0] == q[0] {
      var child := Child(n, p[0]).value;
      ReadAfterSet(if p[0] in t.kids then t.kids[p[0]] else Zero(child), child, p[1..], value, q[1..]);
      ZeroReads(child, q[1..]);
      assert p == q <==> p[1..] == q[1..] by {
        assert p == [p[0]] + p[1..] && q == [q[0]] + q[1..];
      }
    }
  }

  lemma {:induction false} UnkeyedHeld(t: Tree, n: Node, e: Path)
    requires Fits(t, n) && NodeAt(n, e).Some? && KeyedPart(n, e) == 0
    ensures Holds(t, e)
    decreases |e|
  {
    if e == [] {
    } else {
      UnkeyedHeld(t.kids[e[0]], Child(n, e[0]).value, e[1..]);
    }
  }

  lemma {:induction false} ZeroHolds(n: Node, e: Path)
    requires NodeAt(n, e).Some?
    ensures Holds(Zero(n), e) <==> KeyedPart(n, e) == 0
    decreases |e|
  {
    if e == [] {
    } else {
      ZeroHolds(Child(n, e[0]).value, e[1..]);
    }
  }

  lemma ReachesStep(p: Path, key: Path)
    requires p != [] && key != [] && p[0] == key[0]
    ensures Reaches(p, key) <==> Reaches(p[1..], key[1..])
  {
    if |key| <= |p| {
      assert p[..|key|] == [p[0]] + p[1..][..|key| - 1];
      assert key == [key[0]] + key[1..];
    }
  }

  /** A path is there after a write exactly when it was before or the write passed its last map key. */
  lemma {:induction false} HeldAfterSet(t: Tree, n: Node, p: Path, value: Option<Datum>, e: Path)
    requires Fits(t, n) && Applies(n, p, value) && NodeAt(n, e).Some?
    ensures Holds(SetAt(t, n, p, value), e) <==> Holds(t, e) || Reaches(p, e[..KeyedPart(n, e)])
    decreases |p|
  {
    var key := e[..KeyedPart(n, e)];
    if KeyedPart(n, e) == 0 {
      UnkeyedHeld(t, n, e);
      UnkeyedHeld(SetAt(t, n, p, value), n, e);
    } else if p != [] && p[0] == e[0] {
      var child := Child(n, e[0]).value;
      var kid := if p[0] in t.kids then t.kids[p[0]] else Zero(child);
      HeldAfterSet(kid, child, p[1..], value, e[1..]);
      ZeroHolds(child, e[1..]);
      ReachesStep(p, key);
      assert key[1..] == e[1..][..KeyedPart(child, e[1..])];
    } else if p != [] {
      assert key[0] == e[0];
      assert !Reaches(p, key);
    }
  }

  // ---------------------------------------------------------------- the layers in order

  datatype Layer = Default | File | Environment | Flag

  datatype Source = Source(layer: Layer, name: string)

  /** One layer setting one value, or, without a value, naming one map entry. */
  datatype Assignment = Assignment(path: Path, value: Option<Datum>, source: Source)

  predicate Settable(n: Node, layers: seq<Assignment>) {
    forall a <- layers :: Names(a.path) && Applies(n, a.path, a.value)
  }

  /** The configuration after every assignment, from nothing set. */
  function Written(n: Node, layers: seq<Assignment>): (t: Tree)
    requires Settable(n, layers)
    ensures Fits(t, n)
  {
    if layers == [] then Zero(n)
    else
      var a := layers[|layers| - 1];
      SetAt(Written(n, layers[..|layers| - 1]), n, a.path, a.value)
  }

  /** The recorded sources, by dotted path. */
  function Recorded(layers: seq<Assignment>): map<string, Source> {
    if layers == [] then map[]
    else
      var earlier, a := Recorded(layers[..|layers| - 1]), layers[|layers| - 1];
      if a.value.None? then earlier else earlier[Dotted(a.path) := a.source]
  }

  function Last(layers: seq<Assignment>, p: Path): (a: Option<Assignment>)
    ensures a.Some? ==> a.value in layers && a.value.path == p && a.value.value.Some?
  {
    if layers == [] then None
    else
      var a := layers[|layers| - 1];
      if a.path == p && a.value.Some? then Some(a) else Last(layers[..|layers| - 1], p)
  }

  lemma {:induction false} LastWritten(n: Node, layers: seq<Assignment>, p: Path)
    requires Settable(n, layers) && IsValue(n, p)
    ensures Read(Written(n, layers), n, p)
            == if Last(layers, p).Some? then Last(layers, p).value.value.value else NodeAt(n, p).value.zero
  {
    hide Read, Names, Applies, IsValue, NodeAt, Zero;
    if layers == [] {
      ZeroReads(n, p);
    } else {
      var earlier, a := layers[..|layers| - 1], layers[|layers| - 1];
      LastWritten(n, earlier, p);
      ReadAfterSet(Written(n, earlier), n, a.path, a.value, p);
    }
  }

  lemma {:induction false} LastRecorded(layers: seq<Assignment>, p: Path)
    requires Names(p) && forall a <- layers :: Names(a.path)
    ensures Dotted(p) in Recorded(layers) <==> Last(layers, p).Some?
    ensures Last(layers, p).Some? ==> Recorded(layers)[Dotted(p)] == Last(layers, p).value.source
  {
    if layers == [] {
    } else {
      hide Names, Dotted;
      LastRecorded(layers[..|layers| - 1], p);
      DottedIsOneToOne(layers[|layers| - 1].path, p);
    }
  }

  /** Each value is what the last assignment to it set, the zero when none did, and its source that assignment's. */
  lemma LastAssignmentWins(n: Node, layers: seq<Assignment>, p: Path)
    requires Settable(n, layers) && IsValue(n, p) && Names(p)
    ensures var last := Last(layers, p);
            && Read(Written(n, layers), n, p)
                == (if last.Some? then last.value.value.value else NodeAt(n, p).value.zero)
            && (Dotted(p) in Recorded(layers) <==> last.Some?)
            && (last.Some? ==> Recorded(layers)[Dotted(p)] == last.value.source)
  {
    hide Read, Written, Recorded, Last;
    LastWritten(n, layers, p);
    LastRecorded(layers, p);
  }

  predicate Passed(layers: seq<Assignment>, key: Path) {
    exists a <- layers :: Reaches(a.path, key)
  }

  lemma PassedByLast(layers: seq<Assignment>, key: Path)
    requires layers != []
    ensures var a := layers[|layers| - 1];
            Passed(layers, key) <==> Passed(layers[..|layers| - 1], key) || Reaches(a.path, key)
  {
    hide Reaches;
    var earlier, a := layers[..|layers| - 1], layers[|layers| - 1];
    assert layers == earlier + [a];
    assert forall b :: b in layers <==> b in earlier || b == a;
  }

  lemma WrittenLast(n: Node, layers: seq<Assignment>)
    requires Settable(n, layers) && layers != []
    ensures var a := layers[|layers| - 1];
            Written(n, layers) == SetAt(Written(n, layers[..|layers| - 1]), n, a.path, a.value)
  {
  }

  /** A path is there exactly when no map key leads to it or some assignment passes its last one. */
  lemma {:induction false} HeldExactly(n: Node, layers: seq<Assignment>, e: Path)
    requires Settable(n, layers) && NodeAt(n, e).Some?
    ensures Holds(Written(n, layers), e)
            <==> KeyedPart(n, e) == 0 || Passed(layers, e[..KeyedPart(n, e)])
  {
    if layers == [] {
      ZeroHolds(n, e);
    } else {
      hide Written, Reaches, KeyedPart, Passed, Holds, Applies, Names, IsValue;
      var earlier, a := layers[..|layers| - 1], layers[|layers| - 1];
      HeldExactly(n, earlier, e);
      WrittenLast(n, layers);
      HeldAfterSet(Written(n, earlier), n, a.path, a.value, e);
      PassedByLast(layers, e[..KeyedPart(n, e)]);
    }
  }

  lemma {:induction false} LastOfJoined(a: seq<Assignment>, b: seq<Assignment>, p: Path)
    ensures Last(a + b, p) == if Last(b, p).Some? then Last(b, p) else Last(a, p)
  {
    if b == [] {
      assert a + b == a;
    } else {
      LastOfJoined(a, b[..|b| - 1], p);
      assert (a + b)[..|a + b| - 1] == a + b[..|b| - 1];
    }
  }

  /** A flag outweighs the environment, which outweighs the file, which outweighs the defaults. */
  lemma LayersOutweigh(d: seq<Assignment>, f: seq<Assignment>, e: seq<Assignment>, g: seq<Assignment>, p: Path)
    ensures Last(d + f + e + g, p) ==
            if Last(g, p).Some? then Last(g, p)
            else if Last(e, p).Some? then Last(e, p)
            else if Last(f, p).Some? then Last(f, p)
            else Last(d, p)
  {
    LastOfJoined(d + f + e, g, p);
    LastOfJoined(d + f, e, p);
    LastOfJoined(d, f, p);
  }

  // ---------------------------------------------------------------- required values

  /** Every required value of every section and map entry that is there has a recorded source. */
  ghost predicate Complete(n: Node, t: Tree, at: Path, sources: map<string, Source>) {
    forall p :: IsRequired(n, p) && Holds(t, p) ==> Dotted(at + p) in sources
  }

  lemma {:induction false} RequiredIsValue(n: Node, p: Path)
    requires Declared(n) && IsRequired(n, p)
    ensures IsValue(n, p)
    decreases |p|
  {
    if |p| <= 1 {
    } else {
      RequiredIsValue(Child(n, p[0]).value, p[1..]);
    }
  }

  predicate NamedBy(n: Node, layers: seq<Assignment>, p: Path)
    requires Declared(n) && IsRequired(n, p)
  {
    RequiredIsValue(n, p);
    KeyedPart(n, p) == 0 || Passed(layers, p[..KeyedPart(n, p)])
  }

  lemma {:induction false} DeclaredAfterKey(n: Node, p: Path, i: nat)
    requires Declared(n) && NodeAt(n, p).Some? && KeyedPart(n, p) <= i < |p|
    ensures IsName(p[i])
    decreases |p|
  {
    if i == 0 {
      assert Find(n.fields, p[0]).value in n.fields;
    } else {
      DeclaredAfterKey(Child(n, p[0]).value, p[1..], i - 1);
    }
  }

  /** The segments after the last map key are declared names, and the others are those of an assignment. */
  lemma HeldIsNamed(n: Node, layers: seq<Assignment>, p: Path)
    requires Declared(n) && Settable(n, layers) && IsRequired(n, p)
    requires NamedBy(n, layers, p)
    ensures Names(p)
  {
    RequiredIsValue(n, p);
    var k := KeyedPart(n, p);
    forall s <- p ensures IsName(s) {
      var i :| 0 <= i < |p| && p[i] == s;
      if i < k {
        var a :| a in layers && Reaches(a.path, p[..k]);
        assert a.path[..k][i] == p[..k][i];
        assert a.path[i] in a.path;
      } else {
        DeclaredAfterKey(n, p, i);
      }
    }
  }

  /** The check passes exactly when, for every required value, a layer sets it wherever its map entry is named. */
  lemma CompleteExactly(n: Node, layers: seq<Assignment>)
    requires Declared(n) && Settable(n, layers)
    ensures Complete(n, Written(n, layers), [], Recorded(layers))
            <==> forall p :: IsRequired(n, p) && NamedBy(n, layers, p) && Names(p) ==> Last(layers, p).Some?
  {
    hide Written, Recorded, IsRequired, Holds, KeyedPart, Last, Settable, Declared, Names;
    var t, sources := Written(n, layers), Recorded(layers);
    forall p | IsRequired(n, p)
      ensures Holds(t, p) <==> NamedBy(n, layers, p)
      ensures Holds(t, p) ==> Names(p)
      ensures Names(p) ==> (Dotted(p) in sources <==> Last(layers, p).Some?)
    {
      RequiredIsValue(n, p);
      HeldExactly(n, layers, p);
      if Holds(t, p) {
        HeldIsNamed(n, layers, p);
      }
      if Names(p) {
        LastAssignmentWins(n, layers, p);
      }
    }
    assert forall p: Path :: [] + p == p;
  }
}
