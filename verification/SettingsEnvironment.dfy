/** Resolving a path and reading the environment (process/settings/settings.go). */
module SettingsEnvironment {
  import opened Wrappers
  import opened PathNames
  import opened SettingsTree
  import opened SettingsLayers
  import opened TextOrder
  import SearchText

  // ---------------------------------------------------------------- resolving a path

  /** Folding case and decoding a text into a value of a declared type are libraries', so they are parameters. */
  datatype Library = Library(fold: Folding, decode: (Node, string) -> Option<Datum>)

  function Resolve(n: Node, path: Path): Result<Node>
    decreases |path|
  {
    if path == [] then (if n.ValueNode? then Ok(n) else Err(NamesNoValue))
    else match n
      case ValueNode(_) => Err(NamesNoValue)
      case Keyed(e) => if !IsName(path[0]) then Err(BadKey) else Resolve(e, path[1..])
      case Section(fs) =>
        var f := Find(fs, path[0]);
        if f.None? then Err(NamesNoValue) else Resolve(f.value.node, path[1..])
  }

  /** A path resolves exactly when it names a declared value through names. */
  lemma {:induction false} ResolvesExactly(n: Node, path: Path)
    requires Declared(n)
    ensures Resolve(n, path).Ok? <==> IsValue(n, path) && forall s <- path :: IsName(s)
    ensures Resolve(n, path).Ok? ==> NodeAt(n, path) == Some(Resolve(n, path).value)
    decreases |path|
  {
    if path == [] {
    } else {
      assert path == [path[0]] + path[1..];
      assert forall s :: s in path <==> s == path[0] || s in path[1..];
      if n.Keyed? {
        ResolvesExactly(n.elem, path[1..]);
      } else if n.Section? && Find(n.fields, path[0]).Some? {
        assert Find(n.fields, path[0]).value in n.fields;
        ResolvesExactly(Find(n.fields, path[0]).value.node, path[1..]);
      }
    }
  }

  // ---------------------------------------------------------------- the environment

  datatype Variable = Variable(name: string, text: string)

  function Cut(entry: string): Variable {
    var k := First(entry, "=", 0);
    Variable(entry[..k], if k < |entry| then entry[k + 1..] else "")
  }

  /** The variables of an environment's entries, in the order the entries sort in. */
  function Variables(environ: seq<string>): (r: seq<Variable>)
    ensures |r| == |Sorted(environ)|
  {
    seq(|Sorted(environ)|, i requires 0 <= i < |Sorted(environ)| => Cut(Sorted(environ)[i]))
  }

  const FILE_VARIABLE := PREFIX + "CONFIG_FILE"

  predicate Ours(lib: Library, v: Variable) {
    PREFIX <= Upper(lib.fold, v.name)
  }

  /** The variable that sets the path, if one does. */
  function Setter(lib: Library, environ: seq<Variable>, path: Path): (v: Option<Variable>)
    ensures v.Some? ==> v.value in environ && PREFIX <= v.value.name && v.value.name != FILE_VARIABLE
                        && PathOf(lib.fold, v.value.name) == path
  {
    if environ == [] then None
    else
      var v := environ[|environ| - 1];
      if PREFIX <= v.name && v.name != FILE_VARIABLE && PathOf(lib.fold, v.name) == path then Some(v)
      else Setter(lib, environ[..|environ| - 1], path)
  }

  function EnvironmentWanted(n: Node, environ: seq<Variable>, lib: Library): Want {
    (q: Path) =>
      var v := Setter(lib, environ, q);
      if v.None? || Resolve(n, q).Err? || lib.decode(Resolve(n, q).value, v.value.text).None? then None
      else Some(Setting(lib.decode(Resolve(n, q).value, v.value.text).value, Source(Environment, v.value.name)))
  }

  predicate Acceptable(n: Node, v: Variable, lib: Library) {
    && Upper(lib.fold, v.name) == v.name
    && if v.name == FILE_VARIABLE then v.text != ""
       else
         && PREFIX <= v.name && Resolve(n, PathOf(lib.fold, v.name)).Ok?
         && lib.decode(Resolve(n, PathOf(lib.fold, v.name)).value, v.text).Some?
  }

  /** The environment is refused unless every variable under the prefix is acceptable and set once. */
  predicate EnvironmentAcceptable(n: Node, environ: seq<Variable>, lib: Library) {
    && (forall v <- environ :: Ours(lib, v) ==> Acceptable(n, v, lib))
    && forall i, j :: 0 <= i < j < |environ| && Ours(lib, environ[i]) && Ours(lib, environ[j])
        ==> environ[i].name != environ[j].name
  }

  function FileNamedBy(environ: seq<Variable>): string {
    if environ == [] then ""
    else
      var v := environ[|environ| - 1];
      if v.name == FILE_VARIABLE then v.text else FileNamedBy(environ[..|environ| - 1])
  }

  lemma OursUpper(lib: Library, v: Variable)
    requires Unicode(lib.fold)
    ensures Upper(lib.fold, v.name) == v.name ==> (Ours(lib, v) <==> PREFIX <= v.name)
    ensures PREFIX <= v.name ==> Ours(lib, v)
  {
    hide Unicode, Upper;
    if PREFIX <= v.name {
      var rest := v.name[|PREFIX|..];
      assert v.name == PREFIX + rest;
      PrefixFolds(lib.fold, rest);
    }
  }

  datatype Reading = NotRead | ReadsFile(text: string) | ReadsValue(a: Assignment)

  method ReadVariable(n: Node, v: Variable, seen: set<string>, lib: Library) returns (r: Result<Reading>)
    ensures r.Ok? <==> (Ours(lib, v) ==> Acceptable(n, v, lib) && v.name !in seen)
    ensures r.Ok? ==>
              if !Ours(lib, v) then r.value == NotRead
              else if v.name == FILE_VARIABLE then r.value == ReadsFile(v.text)
              else
                && Acceptable(n, v, lib)
                && PREFIX <= v.name && Resolve(n, PathOf(lib.fold, v.name)).Ok?
                && r.value == ReadsValue(Assignment(PathOf(lib.fold, v.name),
                                                    lib.decode(Resolve(n, PathOf(lib.fold, v.name)).value, v.text),
                                                    Source(Environment, v.name)))
  {
    hide Resolve, PathOf, Upper;
    if !(PREFIX <= Upper(lib.fold, v.name)) {
      return Ok(NotRead);
    }
    if v.name != Upper(lib.fold, v.name) {
      return Err(NotUpperCase);
    }
    if v.name in seen {
      return Err(SetTwice);
    }
    if v.name == FILE_VARIABLE {
      if v.text == "" {
        return Err(NamesNoFile);
      }
      return Ok(ReadsFile(v.text));
    }
    var resolved := Resolve(n, PathOf(lib.fold, v.name));
    if resolved.Err? {
      return Err(resolved.error);
    }
    var value := lib.decode(resolved.value, v.text);
    if value.None? {
      return Err(NamesNoValue);
    }
    r := Ok(ReadsValue(Assignment(PathOf(lib.fold, v.name), value, Source(Environment, v.name))));
  }

  /** The assignments, each with a value, and the file name are those of the variables. */
  ghost predicate ReadFrom(n: Node, environ: seq<Variable>, lib: Library, out: seq<Assignment>, file: string) {
    && Settable(n, out) && (forall a <- out :: a.value.Some?)
    && file == FileNamedBy(environ)
    && forall p :: Last(out, p) == Expected(p, EnvironmentWanted(n, environ, lib)(p))
  }

  lemma CutOfEntry(name: string, text: string)
    requires '=' !in name
    ensures Cut(name + "=" + text) == Variable(name, text)
  {
    var entry := name + "=" + text;
    assert At(entry, "=", |name|) by { assert entry[|name| + 0] == "="[0]; }
    forall j | 0 <= j < |name| ensures !At(entry, "=", j) {
      assert entry[j + 0] == name[j] && "="[0] == '=';
    }
    FirstIs(entry, "=", |name|);
  }

  lemma EntryOfCut(entry: string)
    requires Cut(entry).text != ""
    ensures entry == Cut(entry).name + "=" + Cut(entry).text
  {
    var k := First(entry, "=", 0);
    assert At(entry, "=", k);
    assert entry[k + 0] == "="[0];
  }

  lemma VariablesAreCut(environ: seq<string>, v: Variable)
    ensures v in Variables(environ) <==> exists e <- environ :: Cut(e) == v
  {
    hide Cut;
    var sorted := Sorted(environ);
    SortedSorts(environ);
    forall e ensures e in sorted <==> e in environ {
      assert e in multiset(sorted) <==> e in multiset(environ);
    }
    if e :| e in environ && Cut(e) == v {
      var i :| 0 <= i < |sorted| && sorted[i] == e;
      assert Variables(environ)[i] == v;
    }
  }

  lemma {:induction false} FileNamedByOne(environ: seq<Variable>, v: Variable)
    requires v in environ && v.name == FILE_VARIABLE && forall w <- environ :: w.name == FILE_VARIABLE ==> w == v
    ensures FileNamedBy(environ) == v.text
    decreases |environ|
  {
    var last := environ[|environ| - 1];
    assert environ == environ[..|environ| - 1] + [last];
    if last.name != FILE_VARIABLE {
      FileNamedByOne(environ[..|environ| - 1], v);
    }
  }

  lemma {:induction false} FileNamedByNone(environ: seq<Variable>)
    requires forall w <- environ :: w.name != FILE_VARIABLE
    ensures FileNamedBy(environ) == ""
    decreases |environ|
  {
    if environ == [] {
    } else {
      FileNamedByNone(environ[..|environ| - 1]);
    }
  }

  lemma FileEntry(text: string)
    ensures FILE_VARIABLE + "=" + text == "MEDIATED_MAILBOX_CONFIG_FILE=" + text
    ensures FILE_VARIABLE == "MEDIATED_MAILBOX_CONFIG_FILE" && '=' !in FILE_VARIABLE
  {
    assert FILE_VARIABLE + "=" == "MEDIATED_MAILBOX_CONFIG_FILE=";
  }

  /** Of an acceptable environment, the file is the one its entry for it names, if it has one. */
  lemma EntryNamesFile(n: Node, environ: seq<string>, lib: Library)
    requires Unicode(lib.fold) && EnvironmentAcceptable(n, Variables(environ), lib)
    ensures forall text | "MEDIATED_MAILBOX_CONFIG_FILE=" + text in environ ::
              FileNamedBy(Variables(environ)) == text != ""
    ensures (forall text :: "MEDIATED_MAILBOX_CONFIG_FILE=" + text !in environ) ==>
              FileNamedBy(Variables(environ)) == ""
  {
    hide Cut, Variables, FileNamedBy, Upper;
    var vars := Variables(environ);
    FileEntry("");
    forall v <- vars | v.name == FILE_VARIABLE
      ensures Ours(lib, v) && v.text != "" && "MEDIATED_MAILBOX_CONFIG_FILE=" + v.text in environ
      ensures forall w <- vars :: w.name == FILE_VARIABLE ==> w == v
    {
      assert PREFIX <= FILE_VARIABLE;
      OursUpper(lib, v);
      assert Acceptable(n, v, lib);
      VariablesAreCut(environ, v);
      var e :| e in environ && Cut(e) == v;
      EntryOfCut(e);
      FileEntry(v.text);
      forall w <- vars | w.name == FILE_VARIABLE ensures w == v { OursUpper(lib, w); }
    }
    forall text | "MEDIATED_MAILBOX_CONFIG_FILE=" + text in environ ensures FileNamedBy(vars) == text != "" {
      FileEntry(text);
      CutOfEntry(FILE_VARIABLE, text);
      var v := Variable(FILE_VARIABLE, text);
      VariablesAreCut(environ, v);
      FileNamedByOne(vars, v);
    }
    if forall text :: "MEDIATED_MAILBOX_CONFIG_FILE=" + text !in environ {
      FileNamedByNone(vars);
    }
  }

  lemma NotOurs(n: Node, environ: seq<Variable>, v: Variable, lib: Library)
    requires Unicode(lib.fold) && !Ours(lib, v)
    ensures FileNamedBy(environ + [v]) == FileNamedBy(environ)
    ensures forall p :: EnvironmentWanted(n, environ + [v], lib)(p) == EnvironmentWanted(n, environ, lib)(p)
  {
    OursUpper(lib, v);
    assert (environ + [v])[..|environ|] == environ;
    assert PREFIX <= FILE_VARIABLE;
    forall p ensures EnvironmentWanted(n, environ + [v], lib)(p) == EnvironmentWanted(n, environ, lib)(p) {
      assert Setter(lib, environ + [v], p) == Setter(lib, environ, p);
    }
  }

  lemma FileVariable(n: Node, environ: seq<Variable>, v: Variable, lib: Library)
    requires v.name == FILE_VARIABLE
    ensures FileNamedBy(environ + [v]) == v.text
    ensures forall p :: EnvironmentWanted(n, environ + [v], lib)(p) == EnvironmentWanted(n, environ, lib)(p)
  {
    assert (environ + [v])[..|environ|] == environ;
    forall p ensures EnvironmentWanted(n, environ + [v], lib)(p) == EnvironmentWanted(n, environ, lib)(p) {
      assert Setter(lib, environ + [v], p) == Setter(lib, environ, p);
    }
  }

  lemma ResolvedApplies(n: Node, path: Path, value: Option<Datum>)
    requires Declared(n) && !n.ValueNode? && Resolve(n, path).Ok?
    ensures Names(path) && Applies(n, path, value)
  {
    ResolvesExactly(n, path);
  }

  lemma PathVariable(n: Node, environ: seq<Variable>, v: Variable, lib: Library, out: seq<Assignment>, a: Assignment)
    requires Declared(n) && !n.ValueNode? && PREFIX <= v.name && v.name != FILE_VARIABLE
    requires Resolve(n, PathOf(lib.fold, v.name)).Ok?
             && lib.decode(Resolve(n, PathOf(lib.fold, v.name)).value, v.text).Some?
    requires a == Assignment(PathOf(lib.fold, v.name), lib.decode(Resolve(n, PathOf(lib.fold, v.name)).value, v.text),
                             Source(Environment, v.name))
    requires Settable(n, out) && forall p :: Last(out, p) == Expected(p, EnvironmentWanted(n, environ, lib)(p))
    ensures FileNamedBy(environ + [v]) == FileNamedBy(environ)
    ensures Settable(n, out + [a])
    ensures forall p :: Last(out + [a], p) == Expected(p, EnvironmentWanted(n, environ + [v], lib)(p))
  {
    hide Resolve, PathOf, Applies, Names, Declared;
    assert (environ + [v])[..|environ|] == environ;
    assert (out + [a])[..|out|] == out;
    ResolvedApplies(n, a.path, a.value);
    forall p ensures Last(out + [a], p) == Expected(p, EnvironmentWanted(n, environ + [v], lib)(p)) {
      assert Last(out, p) == Expected(p, EnvironmentWanted(n, environ, lib)(p));
      if p == a.path {
        assert Setter(lib, environ + [v], p) == Some(v);
      } else {
        assert Setter(lib, environ + [v], p) == Setter(lib, environ, p);
      }
    }
  }

  lemma OneMoreReading(n: Node, environ: seq<Variable>, v: Variable, lib: Library, out: seq<Assignment>, file: string,
                       reading: Reading)
    requires Unicode(lib.fold) && Declared(n) && !n.ValueNode? && ReadFrom(n, environ, lib, out, file)
    requires if !Ours(lib, v) then reading == NotRead
             else if v.name == FILE_VARIABLE then reading == ReadsFile(v.text)
             else
               && Acceptable(n, v, lib)
               && PREFIX <= v.name && Resolve(n, PathOf(lib.fold, v.name)).Ok?
               && reading == ReadsValue(Assignment(PathOf(lib.fold, v.name),
                                                   lib.decode(Resolve(n, PathOf(lib.fold, v.name)).value, v.text),
                                                   Source(Environment, v.name)))
    ensures Ours(lib, v) <==> !reading.NotRead?
    ensures ReadFrom(n, environ + [v], lib, if reading.ReadsValue? then out + [reading.a] else out,
                     if reading.ReadsFile? then reading.text else file)
  {
    hide Resolve, PathOf, Declared, EnvironmentWanted, Settable, Ours;
    match reading {
      case NotRead => NotOurs(n, environ, v, lib);
      case ReadsFile(_) => FileVariable(n, environ, v, lib);
      case ReadsValue(a) => PathVariable(n, environ, v, lib, out, a);
    }
  }

  lemma NothingSettable(n: Node, lib: Library)
    ensures ReadFrom(n, [], lib, [], "") && EnvironmentAcceptable(n, [], lib)
  {
    forall p ensures Last([], p) == Expected(p, EnvironmentWanted(n, [], lib)(p)) {
      assert Setter(lib, [], p) == None && Last([], p) == None;
    }
  }

  lemma AllAcceptable(n: Node, environ: seq<Variable>, i: nat, lib: Library)
    requires i < |environ|
    ensures EnvironmentAcceptable(n, environ, lib) ==> EnvironmentAcceptable(n, environ[..i + 1], lib)
  {
    hide Acceptable, Ours;
  }

  /** One variable more is acceptable when it is itself and, under the prefix, is not set already. */
  lemma OneMoreVariable(n: Node, environ: seq<Variable>, v: Variable, lib: Library)
    requires EnvironmentAcceptable(n, environ, lib)
    ensures EnvironmentAcceptable(n, environ + [v], lib)
            <==> (Ours(lib, v) ==> Acceptable(n, v, lib) && v.name !in (set u | u in environ && Ours(lib, u) :: u.name))
    ensures (set u | u in environ + [v] && Ours(lib, u) :: u.name)
            == (set u | u in environ && Ours(lib, u) :: u.name) + if Ours(lib, v) then {v.name} else {}
  {
    hide Acceptable, Ours;
    var all := environ + [v];
    assert all[|environ|] == v;
    if EnvironmentAcceptable(n, all, lib) && Ours(lib, v) {
      forall u | u in environ && Ours(lib, u) ensures u.name != v.name {
        var i :| 0 <= i < |environ| && environ[i] == u;
        assert all[i] == u;
      }
    }
  }

  method ReadEnvironment(n: Node, environ: seq<string>, lib: Library) returns (r: Result<(seq<Assignment>, string)>)
    requires Unicode(lib.fold) && Declared(n) && !n.ValueNode?
    ensures r.Ok? <==> EnvironmentAcceptable(n, Variables(environ), lib)
    ensures r.Ok? ==> ReadFrom(n, Variables(environ), lib, r.value.0, r.value.1)
  {
    hide Acceptable, Ours, Resolve, PathOf, Declared, Upper, ReadFrom, EnvironmentAcceptable, Variables, Unicode;
    var out, file := [], "";
    var seen := {};
    var sorted := Variables(environ);
    NothingSettable(n, lib);
    for i := 0 to |sorted|
      invariant seen == set v | v in sorted[..i] && Ours(lib, v) :: v.name
      invariant EnvironmentAcceptable(n, sorted[..i], lib)
      invariant ReadFrom(n, sorted[..i], lib, out, file)
    {
      var v := sorted[i];
      assert sorted[..i + 1] == sorted[..i] + [v];
      OneMoreVariable(n, sorted[..i], v, lib);
      AllAcceptable(n, sorted, i, lib);
      var reading := ReadVariable(n, v, seen, lib);
      if reading.Err? {
        return Err(reading.error);
      }
      OneMoreReading(n, sorted[..i], v, lib, out, file, reading.value);
      match reading.value {
        case NotRead =>
        case ReadsFile(text) =>
          seen := seen + {v.name};
          file := text;
        case ReadsValue(a) =>
          seen := seen + {v.name};
          out := out + [a];
      }
    }
    assert sorted[..|sorted|] == sorted;
    r := Ok((out, file));
  }

  lemma ResolvesPath(n: Node, path: Path)
    requires Declared(n) && IsValue(n, path) && Names(path)
    ensures Resolve(n, path) == Ok(NodeAt(n, path).value)
  {
    ResolvesExactly(n, path);
  }

  // ---------------------------------------------------------------- which variable sets a path

  /** The last variable that reads as the path sets it. */
  lemma {:induction false} SetterIsLast(lib: Library, vars: seq<Variable>, path: Path, j: nat)
    requires j < |vars| && PREFIX <= vars[j].name && vars[j].name != FILE_VARIABLE
    requires PathOf(lib.fold, vars[j].name) == path
    ensures Setter(lib, vars, path).Some?
    ensures exists k :: j <= k < |vars| && vars[k] == Setter(lib, vars, path).value
  {
    hide PathOf;
    var last := vars[|vars| - 1];
    if !(PREFIX <= last.name && last.name != FILE_VARIABLE && PathOf(lib.fold, last.name) == path) {
      SetterIsLast(lib, vars[..|vars| - 1], path, j);
    }
  }

  lemma {:induction false} GreaterAt(a: string, b: string, d: nat)
    requires d < |a| && d < |b| && a[..d] == b[..d] && a[d] > b[d]
    ensures !Leq(a, b)
  {
    if d == 0 {
    } else {
      assert a[0] == a[..d][0] == b[..d][0] == b[0];
      assert a[1..][..d - 1] == a[..d][1..] && b[1..][..d - 1] == b[..d][1..];
      GreaterAt(a[1..], b[1..], d - 1);
    }
  }

  lemma {:induction false} FirstDifference(a: string, b: string) returns (d: nat)
    requires |a| == |b| && a != b
    ensures d < |a| && a[..d] == b[..d] && a[d] != b[d]
  {
    if a[0] != b[0] {
      d := 0;
    } else {
      var e := FirstDifference(a[1..], b[1..]);
      d := e + 1;
      assert a[..d] == [a[0]] + a[1..][..e] && b[..d] == [b[0]] + b[1..][..e];
    }
  }

  /** An entry whose name only looks like an ASCII one sorts after it. */
  lemma LookalikeSortsAfter(entry: string, other: string)
    requires Plain(Cut(other).name) == Cut(entry).name != Cut(other).name
    ensures !Leq(other, entry)
  {
    var a, b := Cut(entry).name, Cut(other).name;
    var d := FirstDifference(b, a);
    assert entry[..|a|] == a && other[..|b|] == b;
    assert other[..d] == b[..d] && entry[..d] == a[..d];
    assert Plain(b)[d] == PlainChar(b[d]);
    GreaterAt(other, entry, d);
  }

  lemma LookalikeComesAfter(environ: seq<string>, i: nat, j: nat)
    requires i < |Variables(environ)| && j < |Variables(environ)|
    requires Plain(Variables(environ)[j].name) == Variables(environ)[i].name != Variables(environ)[j].name
    ensures i < j
  {
    SortedSorts(environ);
    if j < i {
      LookalikeSortsAfter(Sorted(environ)[i], Sorted(environ)[j]);
    }
  }

  /** No other variable under the prefix is the name with a Kelvin sign for a K or a dotted capital I for an I. */
  predicate NoLookalike(vars: seq<Variable>, name: string) {
    forall u <- vars :: PREFIX <= u.name && Plain(u.name) == name ==> u.name == name
  }

  lemma AcceptableIsUpper(n: Node, v: Variable, lib: Library)
    requires Acceptable(n, v, lib)
    ensures Upper(lib.fold, v.name) == v.name
  {
  }

  lemma LookalikeSets(n: Node, environ: seq<string>, lib: Library, path: Path, i: nat, j: nat)
    requires Unicode(lib.fold) && EnvironmentAcceptable(n, Variables(environ), lib) && Names(path)
    requires i < |Variables(environ)| && j < |Variables(environ)|
    requires var name := EnvironmentName(lib.fold, path);
             && Variables(environ)[i].name == name != FILE_VARIABLE
             && PREFIX <= Variables(environ)[j].name
             && Plain(Variables(environ)[j].name) == name != Variables(environ)[j].name
    ensures Setter(lib, Variables(environ), path).Some?
    ensures Setter(lib, Variables(environ), path).value.name != EnvironmentName(lib.fold, path)
  {
    hide Upper, Names, Unicode, Variables, Plain, Acceptable;
    var vars, name := Variables(environ), EnvironmentName(lib.fold, path);
    EnvironmentNameDecodes(lib.fold, path);
    AsciiIsPlain(name);
    LookalikeComesAfter(environ, i, j);
    OursUpper(lib, vars[i]);
    OursUpper(lib, vars[j]);
    assert Acceptable(n, vars[j], lib);
    AcceptableIsUpper(n, vars[j], lib);
    ReadAlikeExactly(lib.fold, name, vars[j].name);
    assert vars[j].name != FILE_VARIABLE by { AsciiIsPlain(FILE_VARIABLE); }
    SetterIsLast(lib, vars, path, j);
    var k :| j <= k < |vars| && vars[k] == Setter(lib, vars, path).value;
    OursUpper(lib, vars[k]);
  }

  lemma NoLookalikeSets(n: Node, environ: seq<string>, lib: Library, path: Path, i: nat)
    requires Unicode(lib.fold) && EnvironmentAcceptable(n, Variables(environ), lib) && Names(path)
    requires i < |Variables(environ)|
    requires Variables(environ)[i].name == EnvironmentName(lib.fold, path) != FILE_VARIABLE
    requires NoLookalike(Variables(environ), EnvironmentName(lib.fold, path))
    ensures Setter(lib, Variables(environ), path) == Some(Variables(environ)[i])
  {
    hide Upper, Names, Unicode, Variables, Plain, Acceptable, PathOf;
    var vars, name := Variables(environ), EnvironmentName(lib.fold, path);
    EnvironmentNameDecodes(lib.fold, path);
    AsciiIsPlain(name);
    SetterIsLast(lib, vars, path, i);
    var k :| i <= k < |vars| && vars[k] == Setter(lib, vars, path).value;
    OursUpper(lib, vars[i]);
    OursUpper(lib, vars[k]);
    AcceptableIsUpper(n, vars[k], lib);
    ReadAlikeExactly(lib.fold, name, vars[k].name);
  }

  /** Setting a declared value's variable sets that value, exactly when no other variable only looks like it. */
  lemma VariableSetsItsPath(n: Node, environ: seq<string>, lib: Library, path: Path, text: string)
    requires Unicode(lib.fold) && Declared(n) && EnvironmentAcceptable(n, Variables(environ), lib)
    requires IsValue(n, path) && Names(path) && EnvironmentName(lib.fold, path) != FILE_VARIABLE
    requires Variable(EnvironmentName(lib.fold, path), text) in Variables(environ)
    ensures lib.decode(NodeAt(n, path).value, text).Some?
    ensures EnvironmentWanted(n, Variables(environ), lib)(path)
            == Some(Setting(lib.decode(NodeAt(n, path).value, text).value,
                            Source(Environment, EnvironmentName(lib.fold, path))))
            <==> NoLookalike(Variables(environ), EnvironmentName(lib.fold, path))
  {
    hide Upper, IsValue, Names, Declared, Unicode, Variables, Plain, PathOf, Setter, EnvironmentName;
    var vars, name := Variables(environ), EnvironmentName(lib.fold, path);
    var i :| 0 <= i < |vars| && vars[i] == Variable(name, text);
    EnvironmentNameDecodes(lib.fold, path);
    OursUpper(lib, vars[i]);
    assert Acceptable(n, vars[i], lib);
    ResolvesPath(n, path);
    if NoLookalike(vars, name) {
      NoLookalikeSets(n, environ, lib, path, i);
    } else {
      var j :| 0 <= j < |vars| && PREFIX <= vars[j].name && Plain(vars[j].name) == name != vars[j].name;
      LookalikeSets(n, environ, lib, path, i, j);
    }
  }

  // ---------------------------------------------------------------- a variable that only looks like another

  lemma CutIs(name: string, text: string)
    requires '=' !in name
    ensures Cut(name + "=" + text) == Variable(name, text)
  {
    var entry := name + "=" + text;
    forall j | 0 <= j < |name| ensures !At(entry, "=", j) {
      assert entry[j + 0] == name[j] && name[j] in name && "="[0] == '=';
    }
    assert At(entry, "=", |name|);
    FirstIs(entry, "=", |name|);
    assert entry[..|name|] == name && entry[|name| + 1..] == text;
  }

  lemma VariablesOfTwo(a: string, b: string)
    ensures var vars := Variables([a, b]);
            |vars| == 2 && (vars == [Cut(a), Cut(b)] || vars == [Cut(b), Cut(a)])
  {
    assert [a, b][1..] == [b] && [b][1..] == [];
    assert Sorted([b]) == [b];
    assert Sorted([a, b]) == Insert(a, [b]);
    assert [b][1..] == [] && Insert(a, []) == [a];
    assert Sorted([a, b]) == [a, b] || Sorted([a, b]) == [b, a];
  }

  const PLAIN_K := PREFIX + "K"
  const KELVIN_K := PREFIX + [KELVIN]

  /** The environment that sets PLAIN_K and then its lookalike. */
  function TwoKs(text: string, other: string): seq<string> {
    [PLAIN_K + "=" + text, KELVIN_K + "=" + other]
  }

  lemma TwoKsAre(text: string, other: string)
    ensures var vars := Variables(TwoKs(text, other));
            var plain, kelvin := Variable(PLAIN_K, text), Variable(KELVIN_K, other);
            |vars| == 2 && (vars == [plain, kelvin] || vars == [kelvin, plain])
  {
    assert '=' !in PLAIN_K && '=' !in KELVIN_K;
    CutIs(PLAIN_K, text);
    CutIs(KELVIN_K, other);
    VariablesOfTwo(PLAIN_K + "=" + text, KELVIN_K + "=" + other);
  }

  lemma BothReadAsK(fold: Folding)
    requires Unicode(fold)
    ensures Upper(fold, PLAIN_K) == PLAIN_K && PathOf(fold, PLAIN_K) == ["k"]
    ensures Upper(fold, KELVIN_K) == KELVIN_K && PathOf(fold, KELVIN_K) == ["k"]
    ensures PLAIN_K == EnvironmentName(fold, ["k"]) && Plain(KELVIN_K) == PLAIN_K != KELVIN_K
  {
    hide Split;
    assert IsName("k") && Names(["k"]) && SearchText.Join(["k"], "__") == "k";
    assert Upper(fold, "k") == "K" && Upper(fold, [KELVIN]) == [KELVIN];
    EnvironmentNameDecodes(fold, ["k"]);
    PrefixFolds(fold, [KELVIN]);
    assert KELVIN_K[|PREFIX|..] == [KELVIN] && PLAIN_K[|PREFIX|..] == "K";
    assert Lower(fold, [KELVIN]) == "k" == Lower(fold, "K");
    AsciiIsPlain(PREFIX);
    assert Plain(KELVIN_K) == Plain(PREFIX) + "K";
    assert PLAIN_K[|PREFIX|] == 'K' && KELVIN_K[|PREFIX|] == KELVIN;
  }

  /** A declared value k, its variable, and the same with a Kelvin sign for its K: both are accepted, neither counts
      as set twice, and the second sets the value. */
  lemma KelvinSetsAgain(lib: Library, zero: Datum, text: string, other: string)
    requires Unicode(lib.fold)
    requires lib.decode(ValueNode(zero), text).Some? && lib.decode(ValueNode(zero), other).Some?
    ensures var n, vars := Section([Field("k", false, ValueNode(zero))]), Variables(TwoKs(text, other));
            && EnvironmentAcceptable(n, vars, lib)
            && EnvironmentWanted(n, vars, lib)(["k"])
               == Some(Setting(lib.decode(ValueNode(zero), other).value, Source(Environment, KELVIN_K)))
  {
    hide Upper, Split, PathOf, Variables, Unicode, Plain;
    var n, vars := Section([Field("k", false, ValueNode(zero))]), Variables(TwoKs(text, other));
    var fs := [Field("k", false, ValueNode(zero))];
    BothReadAsK(lib.fold);
    TwoKsAre(text, other);
    assert Find(fs, "k") == Some(fs[0]) && ["k"][1..] == [];
    assert Resolve(n, ["k"]) == Resolve(ValueNode(zero), []) == Ok(ValueNode(zero));
    assert PLAIN_K[|PREFIX|] == 'K' && KELVIN_K[|PREFIX|] == KELVIN && FILE_VARIABLE[|PREFIX|] == 'C';
    assert |PLAIN_K| == |KELVIN_K| == |PREFIX| + 1;
    var i :| 0 <= i < 2 && vars[i].name == PLAIN_K;
    var j :| 0 <= j < 2 && vars[j].name == KELVIN_K;
    LookalikeComesAfter(TwoKs(text, other), i, j);
    assert vars == [Variable(PLAIN_K, text), Variable(KELVIN_K, other)];
    assert Setter(lib, vars, ["k"]) == Some(Variable(KELVIN_K, other));
  }
}
