/** Collecting what the defaults and the file set, and checking what is required (process/settings/settings.go). */
module SettingsLayers {
  import opened Wrappers
  import opened PathNames
  import opened SettingsTree
  import SearchText

  datatype Error =
    | RequiredDefault | BadKey | NotUpperCase | SetTwice | NamesNoFile | NamesNoValue | Unreadable | Missing(path: Path)

  datatype Result<T> = Ok(value: T) | Err(error: Error)

  // ---------------------------------------------------------------- what a list of assignments sets below a path

  datatype Setting = Setting(value: Datum, source: Source)

  type Want = Path -> Option<Setting>

  type Named = Path -> bool

  function Expected(path: Path, s: Option<Setting>): Option<Assignment> {
    if s.None? then None else Some(Assignment(path, Some(s.value.value), s.value.source))
  }

  predicate Below(path: Path, at: Path, n: Node, value: Option<Datum>) {
    && |at| <= |path| && path[..|at|] == at
    && Applies(n, path[|at|..], value)
    && forall s <- path[|at|..] :: IsName(s)
  }

  predicate Enters(out: seq<Assignment>, path: Path) {
    exists a <- out :: a.path == path && a.value.None?
  }

  /** The list sets, below a path, each value that is wanted and no other, and names exactly the map entries that
      are there. */
  ghost predicate Sets(out: seq<Assignment>, n: Node, at: Path, want: Want, named: Named) {
    && (forall a <- out :: Below(a.path, at, n, a.value))
    && (forall q :: IsValue(n, q) ==> Last(out, at + q) == Expected(at + q, want(q)))
    && (forall e :: named(e) <==> Enters(out, at + e))
  }

  /** The same for the paths that start with one of the segments done. */
  ghost predicate SetsPart(out: seq<Assignment>, n: Node, at: Path, want: Want, named: Named, done: set<string>) {
    && (forall a <- out :: Below(a.path, at, n, a.value) && |a.path| > |at| && a.path[|at|] in done)
    && (forall q :: IsValue(n, q) && q != [] && q[0] in done ==> Last(out, at + q) == Expected(at + q, want(q)))
    && (forall e: Path :: e != [] && e[0] in done ==> (named(e) <==> Enters(out, at + e)))
  }

  lemma {:induction false} LastWithin(out: seq<Assignment>, p: Path)
    requires forall a <- out :: a.path != p || a.value.None?
    ensures Last(out, p) == None
  {
    if out == [] {
    } else {
      LastWithin(out[..|out| - 1], p);
    }
  }

  lemma Nothing(n: Node, at: Path, want: Want, named: Named)
    ensures SetsPart([], n, at, want, named, {})
  {
  }

  lemma Finished(out: seq<Assignment>, n: Node, at: Path, want: Want, named: Named, done: set<string>)
    requires !n.ValueNode? && SetsPart(out, n, at, want, named, done)
    requires forall q: Path :: q == [] || q[0] !in done ==> want(q) == None && !named(q)
    ensures Sets(out, n, at, want, named)
  {
    forall q | IsValue(n, q)
      ensures Last(out, at + q) == Expected(at + q, want(q))
    {
      if q == [] || q[0] !in done {
        LastWithin(out, at + q);
      }
    }
    forall e ensures named(e) <==> Enters(out, at + e) {
    }
  }

  /** One key's assignments after those of the keys done: the entry itself in a map, then what is below it. */
  datatype Step = Step(k: string, entry: seq<Assignment>, below: seq<Assignment>, want: Want, named: Named)

  ghost predicate Continues(step: Step, n: Node, at: Path, want: Want, named: Named) {
    && IsName(step.k) && Child(n, step.k).Some?
    && Sets(step.below, Child(n, step.k).value, at + [step.k], step.want, step.named)
    && (forall q: Path :: want([step.k] + q) == step.want(q))
    && (forall e: Path :: e != [] ==> (named([step.k] + e) <==> step.named(e)))
    && !step.named([])
    && (if named([step.k]) then |step.entry| == 1 && step.entry[0].path == at + [step.k] && step.entry[0].value.None?
        else step.entry == [])
  }

  lemma LiftBelow(path: Path, at: Path, n: Node, k: string, value: Option<Datum>)
    requires Child(n, k).Some? && IsName(k) && Below(path, at + [k], Child(n, k).value, value)
    ensures Below(path, at, n, value) && |path| > |at| && path[|at|] == k
  {
    assert path[..|at|] == path[..|at + [k]|][..|at|] == at;
    assert path[|at|] == path[..|at + [k]|][|at|] == k;
    assert path[|at|..] == [k] + path[|at| + 1..];
    assert path[|at|..][1..] == path[|at + [k]|..];
  }

  lemma OneMorePath(out: seq<Assignment>, n: Node, at: Path, want: Want, named: Named, done: set<string>, step: Step,
                    a: Assignment)
    requires SetsPart(out, n, at, want, named, done) && Continues(step, n, at, want, named)
    requires a in out + step.entry + step.below
    ensures Below(a.path, at, n, a.value) && |a.path| > |at| && a.path[|at|] in done + {step.k}
  {
    if a in step.below {
      LiftBelow(a.path, at, n, step.k, a.value);
    } else if a in step.entry {
      assert a.path[|at|..] == [step.k] && a.path[..|at|] == at;
      assert NodeAt(Child(n, step.k).value, [step.k][1..]).Some?;
    }
  }

  lemma StepPaths(n: Node, at: Path, want: Want, named: Named, step: Step)
    requires Continues(step, n, at, want, named)
    ensures forall a <- step.entry + step.below :: |a.path| > |at| && a.path[|at|] == step.k
  {
    forall a <- step.entry + step.below ensures |a.path| > |at| && a.path[|at|] == step.k {
      if a in step.below {
        LiftBelow(a.path, at, n, step.k, a.value);
      }
    }
  }

  lemma {:induction false} LastElsewhere(out: seq<Assignment>, i: nat, p: Path)
    requires i < |p| && forall a <- out :: a.value.None? || (|a.path| > i && a.path[i] != p[i])
    ensures Last(out, p) == None
  {
    if out == [] {
    } else {
      LastElsewhere(out[..|out| - 1], i, p);
    }
  }

  lemma EntryUnvalued(n: Node, at: Path, want: Want, named: Named, step: Step)
    requires Continues(step, n, at, want, named)
    ensures forall a <- step.entry :: a.value.None?
  {
  }

  lemma PartPaths(out: seq<Assignment>, n: Node, at: Path, want: Want, named: Named, done: set<string>)
    requires SetsPart(out, n, at, want, named, done)
    ensures forall a <- out :: |a.path| > |at| && a.path[|at|] in done
  {
  }

  lemma PartValue(out: seq<Assignment>, n: Node, at: Path, want: Want, named: Named, done: set<string>, q: Path)
    requires SetsPart(out, n, at, want, named, done) && IsValue(n, q) && q != [] && q[0] in done
    ensures Last(out, at + q) == Expected(at + q, want(q))
  {
  }

  lemma ValueBelow(n: Node, q: Path)
    requires q != [] && Child(n, q[0]).Some?
    ensures IsValue(n, q) <==> IsValue(Child(n, q[0]).value, q[1..])
  {
  }

  lemma StepValue(n: Node, at: Path, want: Want, named: Named, step: Step, q: Path)
    requires Continues(step, n, at, want, named) && IsValue(n, q) && q != [] && q[0] == step.k
    ensures Last(step.below, at + q) == Expected(at + q, want(q))
  {
    hide Last, Expected, Below, Enters, IsName, Child, Fits;
    assert q == [step.k] + q[1..];
    assert at + q == (at + [step.k]) + q[1..];
    ValueBelow(n, q);
    assert want([step.k] + q[1..]) == step.want(q[1..]);
  }

  lemma NoneExpected(p: Path, s: Option<Setting>)
    ensures Expected(p, s).None? <==> s.None?
  {
  }

  lemma OneMoreValue(out: seq<Assignment>, n: Node, at: Path, want: Want, named: Named, done: set<string>, step: Step,
                     q: Path)
    requires SetsPart(out, n, at, want, named, done) && step.k !in done && Continues(step, n, at, want, named)
    requires IsValue(n, q) && q != [] && q[0] in done + {step.k}
    ensures Last(out + step.entry + step.below, at + q) == Expected(at + q, want(q))
  {
    hide Last, Expected, Below, IsValue, Enters, IsName, Child, SetsPart, Continues;
    LastOfJoined(out + step.entry, step.below, at + q);
    LastOfJoined(out, step.entry, at + q);
    assert (at + q)[|at|] == q[0];
    StepPaths(n, at, want, named, step);
    assert forall a <- step.entry :: a in step.entry + step.below && a.value.None? by {
      EntryUnvalued(n, at, want, named, step);
    }
    LastElsewhere(step.entry, |at|, at + q);
    if q[0] == step.k {
      PartPaths(out, n, at, want, named, done);
      LastElsewhere(out, |at|, at + q);
      StepValue(n, at, want, named, step, q);
      NoneExpected(at + q, want(q));
    } else {
      assert forall a <- step.below :: a in step.entry + step.below;
      LastElsewhere(step.below, |at|, at + q);
      PartValue(out, n, at, want, named, done, q);
    }
  }

  lemma EntersJoined(a: seq<Assignment>, b: seq<Assignment>, c: seq<Assignment>, p: Path)
    ensures Enters(a + b + c, p) <==> Enters(a, p) || Enters(b, p) || Enters(c, p)
  {
    assert forall x :: x in a + b + c <==> x in a || x in b || x in c;
  }

  lemma OneMoreEntry(out: seq<Assignment>, n: Node, at: Path, want: Want, named: Named, done: set<string>, step: Step,
                     e: Path)
    requires SetsPart(out, n, at, want, named, done) && step.k !in done && Continues(step, n, at, want, named)
    requires e != [] && e[0] in done + {step.k}
    ensures named(e) <==> Enters(out + step.entry + step.below, at + e)
  {
    hide Last, Expected, Below;
    EntersJoined(out, step.entry, step.below, at + e);
    assert (at + e)[|at|] == e[0];
    if e[0] == step.k {
      assert e == [step.k] + e[1..];
      assert at + e == (at + [step.k]) + e[1..];
      assert !Enters(out, at + e);
      assert step.named(e[1..]) <==> Enters(step.below, at + e);
      if e[1..] == [] {
        assert e == [step.k];
        if step.entry != [] {
          assert step.entry[0] in step.entry;
        }
      } else {
        assert |at + e| > |at + [step.k]|;
      }
    } else {
      StepPaths(n, at, want, named, step);
    }
  }

  /** Where a key's own assignments follow what is done, the key is done too. */
  lemma OneMoreKey(out: seq<Assignment>, n: Node, at: Path, want: Want, named: Named, done: set<string>, step: Step)
    requires SetsPart(out, n, at, want, named, done) && step.k !in done && Continues(step, n, at, want, named)
    ensures SetsPart(out + step.entry + step.below, n, at, want, named, done + {step.k})
  {
    var all := out + step.entry + step.below;
    forall a <- all
      ensures Below(a.path, at, n, a.value) && |a.path| > |at| && a.path[|at|] in done + {step.k}
    {
      OneMorePath(out, n, at, want, named, done, step, a);
    }
    forall q | IsValue(n, q) && q != [] && q[0] in done + {step.k}
      ensures Last(all, at + q) == Expected(at + q, want(q))
    {
      OneMoreValue(out, n, at, want, named, done, step, q);
    }
    forall e: Path | e != [] && e[0] in done + {step.k}
      ensures named(e) <==> Enters(all, at + e)
    {
      OneMoreEntry(out, n, at, want, named, done, step, e);
    }
  }

  // ---------------------------------------------------------------- the defaults

  const DEFAULT := Source(Default, "")

  /** The values the defaults hold, those that must be set by another layer left out. */
  function DefaultsWanted(n: Node, v: Tree): Want
    requires Fits(v, n)
  {
    (q: Path) => if IsValue(n, q) && Holds(v, q) && !IsRequired(n, q)
                 then Some(Setting(Read(v, n, q), DEFAULT)) else None
  }

  predicate IsEntry(n: Node, e: Path) {
    e != [] && NodeAt(n, e).Some? && KeyedPart(n, e) == |e|
  }

  function DefaultsNamed(n: Node, v: Tree): Named {
    (e: Path) => IsEntry(n, e) && Holds(v, e)
  }

  /** What refuses a default: a required value with one, or a map key that could be no environment name's segment. */
  predicate Refused(n: Node, v: Tree, q: Path)
    requires Fits(v, n)
  {
    && NodeAt(n, q).Some? && Holds(v, q)
    && ((exists s <- q :: !IsName(s))
        || (IsRequired(n, q) && IsValue(n, q) && Read(v, n, q) != NodeAt(n, q).value.zero))
  }

  lemma DefaultsBelow(n: Node, v: Tree, k: string)
    requires Fits(v, n) && Child(n, k).Some? && k in v.kids
    ensures forall q: Path :: !(q == [] && n.Section? && Find(n.fields, k).value.required)
              ==> DefaultsWanted(n, v)([k] + q) == DefaultsWanted(Child(n, k).value, v.kids[k])(q)
    ensures forall e: Path ::
              e != [] ==> (DefaultsNamed(n, v)([k] + e) <==> DefaultsNamed(Child(n, k).value, v.kids[k])(e))
  {
    forall q: Path
      ensures NodeAt(n, [k] + q) == NodeAt(Child(n, k).value, q)
      ensures Holds(v, [k] + q) == Holds(v.kids[k], q)
      ensures q != [] ==> IsRequired(n, [k] + q) == IsRequired(Child(n, k).value, q)
      ensures q == [] ==> IsRequired(n, [k] + q) == (n.Section? && Find(n.fields, k).value.required)
      ensures IsValue(n, [k] + q) ==> Read(v, n, [k] + q) == Read(v.kids[k], Child(n, k).value, q)
      ensures q != [] && NodeAt(n, [k] + q).Some? ==> (IsEntry(n, [k] + q) <==> IsEntry(Child(n, k).value, q))
    {
      assert ([k] + q)[1..] == q;
    }
  }

  lemma RefusedBelow(n: Node, v: Tree, k: string, q: Path)
    requires Fits(v, n) && Child(n, k).Some? && k in v.kids && (q == [] ==> !IsRequired(n, [k]))
    ensures Refused(n, v, [k] + q) <==>
            Refused(Child(n, k).value, v.kids[k], q)
                || (!IsName(k) && NodeAt(Child(n, k).value, q).Some? && Holds(v.kids[k], q))
  {
    assert ([k] + q)[1..] == q;
    assert forall s :: s in [k] + q <==> s == k || s in q;
    assert !IsRequired(n, []);
  }

  lemma ValueSets(n: Node, at: Path, a: Assignment, want: Want, named: Named)
    requires n.ValueNode? && a.path == at && a.value.Some? && want([]) == Some(Setting(a.value.value, a.source))
    requires forall e :: !named(e)
    ensures Sets([a], n, at, want, named)
  {
    assert a.path[|at|..] == [];
    forall q | IsValue(n, q) ensures Last([a], at + q) == Expected(at + q, want(q)) {
      assert q == [] && at + q == at;
    }
  }

  lemma ValueNothingRefused(n: Node, v: Tree)
    requires n.ValueNode? && Fits(v, n)
    ensures forall q :: !Refused(n, v, q)
  {
  }

  /** No refusal lies below the segments done. */
  ghost predicate NoneRefused(n: Node, v: Tree, done: set<string>)
    requires Fits(v, n)
  {
    forall q: Path :: q != [] && q[0] in done ==> !Refused(n, v, q)
  }

  lemma NoneYet(n: Node, v: Tree)
    requires Fits(v, n)
    ensures NoneRefused(n, v, {})
  {
  }

  lemma RefusalsDone(n: Node, v: Tree, done: set<string>)
    requires Fits(v, n) && v.Branch? && v.kids.Keys <= done && NoneRefused(n, v, done)
    ensures forall q :: !Refused(n, v, q)
  {
    assert !IsRequired(n, []);
  }

  lemma KeyRefusals(n: Node, v: Tree, done: set<string>, k: string)
    requires Fits(v, n) && v.Branch? && k in v.kids && NoneRefused(n, v, done) && !IsRequired(n, [k])
    ensures var child := Child(n, k).value;
            && ((exists q :: Refused(child, v.kids[k], q)) ==> exists q :: Refused(n, v, q))
            && (!IsName(k) ==> exists q :: Refused(n, v, q))
            && (IsName(k) && (forall q :: !Refused(child, v.kids[k], q)) ==> NoneRefused(n, v, done + {k}))
  {
    var child := Child(n, k).value;
    if q :| Refused(child, v.kids[k], q) {
      RefusedBelow(n, v, k, q);
      assert Refused(n, v, [k] + q);
    }
    if !IsName(k) {
      RefusedBelow(n, v, k, []);
      assert Refused(n, v, [k] + []);
    }
    forall q: Path | IsName(k) && q != [] && q[0] == k && Refused(n, v, q)
      ensures Refused(child, v.kids[k], q[1..])
    {
      assert q == [k] + q[1..];
      RefusedBelow(n, v, k, q[1..]);
    }
  }

  lemma {:induction false} FindDeclared(fs: seq<Field>, i: nat)
    requires i < |fs| && forall a, b :: 0 <= a < b < |fs| ==> fs[a].name != fs[b].name
    ensures Find(fs, fs[i].name) == Some(fs[i])
  {
    if i == 0 {
    } else {
      FindDeclared(fs[1..], i - 1);
    }
  }

  lemma FieldThere(n: Node, v: Tree, i: nat)
    requires n.Section? && Declared(n) && Fits(v, n) && i < |n.fields|
    ensures var f := n.fields[i];
            && v.Branch? && f.name in v.kids && Find(n.fields, f.name) == Some(f)
            && Child(n, f.name) == Some(f.node) && Fits(v.kids[f.name], f.node)
            && IsName(f.name) && Declared(f.node) && (f.required ==> f.node.ValueNode?)
            && (IsRequired(n, [f.name]) <==> f.required)
            && f.name !in (set g <- n.fields[..i] :: g.name)
  {
    var f := n.fields[i];
    assert f in n.fields;
    FindDeclared(n.fields, i);
  }

  lemma KidsAreFields(n: Node, v: Tree)
    requires n.Section? && Fits(v, n)
    ensures v.Branch? && v.kids.Keys == set f <- n.fields :: f.name
  {
    forall k <- v.kids ensures k in (set f <- n.fields :: f.name) {
      assert Find(n.fields, k).value in n.fields;
    }
  }

  lemma AbsentUnwanted(n: Node, v: Tree, done: set<string>)
    requires Fits(v, n) && v.Branch? && v.kids.Keys <= done
    ensures forall q: Path :: q == [] || q[0] !in done ==> DefaultsWanted(n, v)(q) == None && !DefaultsNamed(n, v)(q)
  {
  }

  lemma RequiredRefused(n: Node, v: Tree, k: string)
    requires n.Section? && Fits(v, n) && v.Branch? && k in v.kids && IsRequired(n, [k])
    requires Child(n, k).value.ValueNode? && v.kids[k].Leaf? && v.kids[k].value != Child(n, k).value.zero
    ensures exists q :: Refused(n, v, q)
  {
    OneSegment(n, v, k);
    assert Refused(n, v, [k]);
  }

  lemma SkippedUnwanted(n: Node, v: Tree, k: string)
    requires n.Section? && Fits(v, n) && v.Branch? && k in v.kids && IsName(k) && IsRequired(n, [k])
    requires Child(n, k).value.ValueNode? && v.kids[k].Leaf? && v.kids[k].value == Child(n, k).value.zero
    ensures forall q: Path :: DefaultsWanted(n, v)([k] + q) == None && !DefaultsNamed(n, v)([k] + q)
                              && !Refused(n, v, [k] + q)
  {
    var child := Child(n, k).value;
    forall q: Path
      ensures DefaultsWanted(n, v)([k] + q) == None && !DefaultsNamed(n, v)([k] + q) && !Refused(n, v, [k] + q)
    {
      assert ([k] + q)[1..] == q;
      if q == [] {
        OneSegment(n, v, k);
        assert [k] + q == [k];
        assert forall s :: s in [k] ==> s == k;
      } else {
        assert NodeAt(child, q).None?;
        assert NodeAt(n, [k] + q).None?;
      }
    }
  }

  lemma SetsNothing(n: Node, at: Path)
    ensures Sets([], n, at, (q: Path) => None, (e: Path) => false)
  {
  }

  /** A required field still at its zero is passed over. */
  lemma SkippedField(out: seq<Assignment>, n: Node, v: Tree, at: Path, done: set<string>, k: string)
    requires n.Section? && Fits(v, n) && v.Branch? && k in v.kids && k !in done && IsName(k) && IsRequired(n, [k])
    requires Child(n, k).value.ValueNode? && v.kids[k].Leaf? && v.kids[k].value == Child(n, k).value.zero
    requires SetsPart(out, n, at, DefaultsWanted(n, v), DefaultsNamed(n, v), done) && NoneRefused(n, v, done)
    ensures SetsPart(out, n, at, DefaultsWanted(n, v), DefaultsNamed(n, v), done + {k})
    ensures NoneRefused(n, v, done + {k})
  {
    hide SetsPart, Sets, Last, Refused, DefaultsWanted, DefaultsNamed;
    SkippedUnwanted(n, v, k);
    SetsNothing(Child(n, k).value, at + [k]);
    assert [k] + [] == [k];
    OneMoreKey(out, n, at, DefaultsWanted(n, v), DefaultsNamed(n, v), done,
               Step(k, [], [], (q: Path) => None, (e: Path) => false));
    assert out + [] + [] == out;
    forall q: Path | q != [] && q[0] == k ensures !Refused(n, v, q) {
      assert q == [k] + q[1..];
    }
  }

  lemma FieldCollected(out: seq<Assignment>, n: Node, v: Tree, at: Path, done: set<string>, k: string,
                       below: seq<Assignment>)
    requires n.Section? && Fits(v, n) && v.Branch? && k in v.kids && k !in done && IsName(k) && !IsRequired(n, [k])
    requires var child, kid := Child(n, k).value, v.kids[k];
             Sets(below, child, at + [k], DefaultsWanted(child, kid), DefaultsNamed(child, kid))
    requires SetsPart(out, n, at, DefaultsWanted(n, v), DefaultsNamed(n, v), done)
    ensures SetsPart(out + below, n, at, DefaultsWanted(n, v), DefaultsNamed(n, v), done + {k})
  {
    hide SetsPart, Sets;
    var child, kid := Child(n, k).value, v.kids[k];
    var step := Step(k, [], below, DefaultsWanted(child, kid), DefaultsNamed(child, kid));
    DefaultsBelow(n, v, k);
    OneSegment(n, v, k);
    assert !DefaultsNamed(n, v)([k]);
    OneMoreKey(out, n, at, DefaultsWanted(n, v), DefaultsNamed(n, v), done, step);
    assert out + [] + below == out + below;
  }

  method CollectSectionDefaults(n: Node, v: Tree, at: Path) returns (r: Result<seq<Assignment>>)
    requires n.Section? && Declared(n) && Fits(v, n)
    ensures r.Ok? ==> Sets(r.value, n, at, DefaultsWanted(n, v), DefaultsNamed(n, v))
    ensures r.Ok? <==> forall q :: !Refused(n, v, q)
    decreases n, 0
  {
    hide Refused, Sets, SetsPart, Fits, IsRequired, NoneRefused, DefaultsWanted, DefaultsNamed, Declared, Child, Find;
    var out := [];
    ghost var want, named := DefaultsWanted(n, v), DefaultsNamed(n, v);
    Nothing(n, at, want, named);
    NoneYet(n, v);
    ghost var done := {};
    for i := 0 to |n.fields|
      invariant done == set f <- n.fields[..i] :: f.name
      invariant SetsPart(out, n, at, want, named, done) && NoneRefused(n, v, done)
    {
      var f := n.fields[i];
      FieldThere(n, v, i);
      if f.required {
        if v.kids[f.name].value != f.node.zero {
          RequiredRefused(n, v, f.name);
          return Err(RequiredDefault);
        }
        SkippedField(out, n, v, at, done, f.name);
      } else {
        var below := CollectDefaults(f.node, v.kids[f.name], at + [f.name]);
        KeyRefusals(n, v, done, f.name);
        if below.Err? {
          return below;
        }
        FieldCollected(out, n, v, at, done, f.name, below.value);
        out := out + below.value;
      }
      done := done + {f.name};
      assert n.fields[..i + 1] == n.fields[..i] + [f];
    }
    assert n.fields[..|n.fields|] == n.fields;
    KidsAreFields(n, v);
    RefusalsDone(n, v, done);
    AbsentUnwanted(n, v, done);
    Finished(out, n, at, want, named, done);
    r := Ok(out);
  }

  lemma KeyNotRequired(n: Node, k: string)
    requires n.Keyed?
    ensures !IsRequired(n, [k])
  {
  }

  lemma EntryCollected(out: seq<Assignment>, n: Node, v: Tree, at: Path, done: set<string>, k: string,
                       below: seq<Assignment>)
    requires n.Keyed? && Fits(v, n) && k in v.kids && k !in done && IsName(k)
    requires Sets(below, n.elem, at + [k], DefaultsWanted(n.elem, v.kids[k]), DefaultsNamed(n.elem, v.kids[k]))
    requires SetsPart(out, n, at, DefaultsWanted(n, v), DefaultsNamed(n, v), done)
    ensures SetsPart(out + [Assignment(at + [k], None, DEFAULT)] + below, n, at, DefaultsWanted(n, v),
                     DefaultsNamed(n, v), done + {k})
  {
    hide SetsPart, Sets;
    var step := Step(k, [Assignment(at + [k], None, DEFAULT)], below, DefaultsWanted(n.elem, v.kids[k]),
                     DefaultsNamed(n.elem, v.kids[k]));
    DefaultsBelow(n, v, k);
    OneSegment(n, v, k);
    assert DefaultsNamed(n, v)([k]);
    OneMoreKey(out, n, at, DefaultsWanted(n, v), DefaultsNamed(n, v), done, step);
  }

  method CollectKeyedDefaults(n: Node, v: Tree, at: Path) returns (r: Result<seq<Assignment>>)
    requires n.Keyed? && Declared(n) && Fits(v, n)
    ensures r.Ok? ==> Sets(r.value, n, at, DefaultsWanted(n, v), DefaultsNamed(n, v))
    ensures r.Ok? <==> forall q :: !Refused(n, v, q)
    decreases n, 0
  {
    hide Refused, Sets, SetsPart, IsRequired;
    var out := [];
    ghost var want, named := DefaultsWanted(n, v), DefaultsNamed(n, v);
    Nothing(n, at, want, named);
    var keys := v.kids.Keys;
    assert v.kids.Keys - keys == {};
    while keys != {}
      invariant keys <= v.kids.Keys
      invariant SetsPart(out, n, at, want, named, v.kids.Keys - keys) && NoneRefused(n, v, v.kids.Keys - keys)
      decreases |keys|
    {
      var k :| k in keys;
      ghost var done := v.kids.Keys - keys;
      KeyNotRequired(n, k);
      KeyRefusals(n, v, done, k);
      if !IsName(k) {
        return Err(BadKey);
      }
      var below := CollectDefaults(n.elem, v.kids[k], at + [k]);
      if below.Err? {
        return below;
      }
      EntryCollected(out, n, v, at, done, k, below.value);
      out := out + [Assignment(at + [k], None, DEFAULT)] + below.value;
      keys := keys - {k};
      assert v.kids.Keys - keys == done + {k};
    }
    RefusalsDone(n, v, v.kids.Keys - keys);
    AbsentUnwanted(n, v, v.kids.Keys - keys);
    Finished(out, n, at, want, named, v.kids.Keys - keys);
    r := Ok(out);
  }

  method CollectDefaults(n: Node, v: Tree, at: Path) returns (r: Result<seq<Assignment>>)
    requires Declared(n) && Fits(v, n)
    ensures r.Ok? ==> Sets(r.value, n, at, DefaultsWanted(n, v), DefaultsNamed(n, v))
    ensures r.Ok? <==> forall q :: !Refused(n, v, q)
    decreases n
  {
    match n {
      case ValueNode(_) =>
        ValueNothingRefused(n, v);
        var a := Assignment(at, Some(v.value), DEFAULT);
        ValueSets(n, at, a, DefaultsWanted(n, v), DefaultsNamed(n, v));
        r := Ok([a]);
      case Section(_) => r := CollectSectionDefaults(n, v, at);
      case Keyed(_) => r := CollectKeyedDefaults(n, v, at);
    }
  }
}
