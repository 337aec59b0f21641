/** Gmail's label table and the metadata read through it (provider/gmail/model.go). */
module Labels {
  import opened Wrappers

  const UNREAD := "UNREAD"
  const STARRED := "STARRED"
  const SHOWN := ["INBOX", "TRASH", "SPAM", "SENT", "DRAFT"]

  datatype Label = Label(id: string, name: string, user: bool)

  datatype Table = Table(pathByID: map<string, string>, idByPath: map<string, string>, hidden: set<string>)

  /** The path the canonical model shows a label at, empty when it shows none. */
  function Path(l: Label): string {
    if l.user then l.name else if l.id in SHOWN then l.id else ""
  }

  predicate Hidden(l: Label) {
    !l.user && l.id !in SHOWN && l.id != UNREAD && l.id != STARRED
  }

  function TableOf(labels: seq<Label>): Table {
    if labels == [] then Table(map[], map[], {})
    else
      var t := TableOf(labels[..|labels| - 1]);
      var l := labels[|labels| - 1];
      var hidden := if Hidden(l) then t.hidden + {l.id} else t.hidden;
      if Path(l) == "" then t.(hidden := hidden)
      else Table(t.pathByID[l.id := Path(l)], t.idByPath[Path(l) := l.id], hidden)
  }

  method NewLabelTable(labels: seq<Label>) returns (t: Table)
    ensures t == TableOf(labels)
  {
    var pathByID, idByPath, hidden := map[], map[], {};
    for i := 0 to |labels|
      invariant Table(pathByID, idByPath, hidden) == TableOf(labels[..i])
    {
      assert labels[..i + 1][..i] == labels[..i];
      var l := labels[i];
      var path := "";
      if l.user {
        path := l.name;
      } else if l.id in SHOWN {
        path := l.id;
      } else if l.id == UNREAD || l.id == STARRED {
        continue;
      } else {
        hidden := hidden + {l.id};
        continue;
      }
      if path == "" {
        continue;
      }
      pathByID := pathByID[l.id := path];
      idByPath := idByPath[path := l.id];
    }
    assert labels[..|labels|] == labels;
    t := Table(pathByID, idByPath, hidden);
  }

  predicate Shows(labels: seq<Label>, id: string, path: string) {
    exists l <- labels :: l.id == id && Path(l) == path
  }

  predicate Hides(labels: seq<Label>, id: string) {
    exists l <- labels :: l.id == id && Hidden(l)
  }

  lemma OneMore(labels: seq<Label>, id: string, path: string)
    requires labels != []
    ensures var init, l := labels[..|labels| - 1], labels[|labels| - 1];
            && (Shows(labels, id, path) <==> Shows(init, id, path) || (l.id == id && Path(l) == path))
            && (Hides(labels, id) <==> Hides(init, id) || (l.id == id && Hidden(l)))
  {
    hide Path, Hidden;
    var init, l := labels[..|labels| - 1], labels[|labels| - 1];
    assert labels == init + [l];
    assert forall k :: k in labels <==> k in init || k == l;
  }

  lemma {:induction false} PathHasIdentifier(labels: seq<Label>, id: string)
    requires id in TableOf(labels).pathByID
    ensures TableOf(labels).pathByID[id] != "" && TableOf(labels).pathByID[id] in TableOf(labels).idByPath
  {
    if labels == [] {
    } else {
      hide Path, Hidden;
      var init := labels[..|labels| - 1];
      if id in TableOf(init).pathByID {
        PathHasIdentifier(init, id);
      }
    }
  }

  lemma {:induction false} IdentifierShown(labels: seq<Label>, path: string)
    requires path in TableOf(labels).idByPath
    ensures Shows(labels, TableOf(labels).idByPath[path], path)
  {
    if labels == [] {
    } else {
      hide Path, Hidden, Shows, Hides;
      var t, init := TableOf(labels), labels[..|labels| - 1];
      OneMore(labels, t.idByPath[path], path);
      if path in TableOf(init).idByPath {
        IdentifierShown(init, path);
      }
    }
  }

  lemma {:induction false} PathShown(labels: seq<Label>, id: string)
    requires id in TableOf(labels).pathByID
    ensures Shows(labels, id, TableOf(labels).pathByID[id])
  {
    if labels == [] {
    } else {
      hide Path, Hidden, Shows, Hides;
      var t, init := TableOf(labels), labels[..|labels| - 1];
      OneMore(labels, id, t.pathByID[id]);
      if id in TableOf(init).pathByID {
        PathShown(init, id);
      }
    }
  }

  lemma {:induction false} HiddenExactly(labels: seq<Label>, id: string)
    ensures id in TableOf(labels).hidden <==> Hides(labels, id)
  {
    if labels == [] {
    } else {
      hide Path, Hidden, Shows;
      OneMore(labels, id, "");
      HiddenExactly(labels[..|labels| - 1], id);
    }
  }

  /** Every shown path has an identifier, each map holds only what some label of the list shows, and the hidden
      identifiers are the hidden labels'. */
  lemma TableKeeps(labels: seq<Label>)
    ensures var t := TableOf(labels);
            && (forall id <- t.pathByID :: t.pathByID[id] != "" && t.pathByID[id] in t.idByPath)
            && (forall path <- t.idByPath :: Shows(labels, t.idByPath[path], path))
            && (forall id <- t.pathByID :: Shows(labels, id, t.pathByID[id]))
            && (forall id :: id in t.hidden <==> Hides(labels, id))
  {
    hide TableOf, Path, Hidden, Shows, Hides;
    var t := TableOf(labels);
    forall id <- t.pathByID ensures t.pathByID[id] != "" && t.pathByID[id] in t.idByPath {
      PathHasIdentifier(labels, id);
    }
    forall path <- t.idByPath ensures Shows(labels, t.idByPath[path], path) { IdentifierShown(labels, path); }
    forall id <- t.pathByID ensures Shows(labels, id, t.pathByID[id]) { PathShown(labels, id); }
    forall id ensures id in t.hidden <==> Hides(labels, id) { HiddenExactly(labels, id); }
  }

  /** A user's label is shown when it has a name, and of the system's only five are. */
  predicate IsShown(l: Label) {
    if l.user then l.name != "" else l.id in {"INBOX", "TRASH", "SPAM", "SENT", "DRAFT"}
  }

  /** A user's label is shown at its name and a system label at its identifier. */
  predicate ShownAt(l: Label, path: string) {
    IsShown(l) && path == if l.user then l.name else l.id
  }

  /** The last label of the identifier that is shown, and the last label shown at the path. */
  ghost predicate LastShown(labels: seq<Label>, id: string, k: int) {
    && 0 <= k < |labels| && labels[k].id == id && IsShown(labels[k])
    && forall j | k < j < |labels| :: !(labels[j].id == id && IsShown(labels[j]))
  }

  ghost predicate LastAt(labels: seq<Label>, path: string, k: int) {
    0 <= k < |labels| && ShownAt(labels[k], path) && forall j | k < j < |labels| :: !ShownAt(labels[j], path)
  }

  lemma PathIsWhereShown(l: Label, path: string)
    ensures path != "" ==> (Path(l) == path <==> ShownAt(l, path))
    ensures Path(l) != "" <==> IsShown(l)
  {
    assert SHOWN[0] == "INBOX" && SHOWN[1] == "TRASH" && SHOWN[2] == "SPAM" && SHOWN[3] == "SENT";
    assert SHOWN[4] == "DRAFT";
  }

  ghost predicate PathOfLast(labels: seq<Label>, id: string, paths: map<string, string>) {
    && (id in paths <==> exists k :: 0 <= k < |labels| && labels[k].id == id && IsShown(labels[k]))
    && (forall k | LastShown(labels, id, k) :: id in paths && ShownAt(labels[k], paths[id]))
  }

  ghost predicate IdOfLast(labels: seq<Label>, path: string, ids: map<string, string>) {
    && (path in ids <==> exists k :: 0 <= k < |labels| && ShownAt(labels[k], path))
    && (forall k | LastAt(labels, path, k) :: path in ids && ids[path] == labels[k].id)
  }

  lemma OneMoreLast(labels: seq<Label>, id: string, path: string)
    requires labels != []
    ensures var init, n := labels[..|labels| - 1], |labels| - 1;
            && ((exists k :: 0 <= k < |labels| && labels[k].id == id && IsShown(labels[k]))
                <==> (labels[n].id == id && IsShown(labels[n]))
                     || exists k :: 0 <= k < |init| && init[k].id == id && IsShown(init[k]))
            && ((exists k :: 0 <= k < |labels| && ShownAt(labels[k], path))
                <==> ShownAt(labels[n], path) || exists k :: 0 <= k < |init| && ShownAt(init[k], path))
            && (forall k | LastShown(labels, id, k) ::
                  if labels[n].id == id && IsShown(labels[n]) then k == n else LastShown(init, id, k))
            && (forall k | LastAt(labels, path, k) ::
                  if ShownAt(labels[n], path) then k == n else LastAt(init, path, k))
  {
    hide IsShown, ShownAt;
    var init, n := labels[..|labels| - 1], |labels| - 1;
    assert forall k | 0 <= k < n :: init[k] == labels[k];
    if k :| 0 <= k < |labels| && labels[k].id == id && IsShown(labels[k]) && k < n {
      assert init[k].id == id && IsShown(init[k]);
    }
    if k :| 0 <= k < |labels| && ShownAt(labels[k], path) && k < n {
      assert ShownAt(init[k], path);
    }
    if k :| 0 <= k < n && init[k].id == id && IsShown(init[k]) {
      assert labels[k].id == id;
    }
    if k :| 0 <= k < n && ShownAt(init[k], path) {
      assert ShownAt(labels[k], path);
    }
  }

  lemma TableOfMore(labels: seq<Label>)
    requires labels != []
    ensures var before, t, l := TableOf(labels[..|labels| - 1]), TableOf(labels), labels[|labels| - 1];
            if IsShown(l) then ShownAt(l, Path(l)) && t.pathByID == before.pathByID[l.id := Path(l)]
                               && t.idByPath == before.idByPath[Path(l) := l.id]
            else t.pathByID == before.pathByID && t.idByPath == before.idByPath
  {
    var l := labels[|labels| - 1];
    PathIsWhereShown(l, Path(l));
    hide Path, IsShown;
  }

  lemma {:induction false} PathIsOfLast(labels: seq<Label>, id: string)
    ensures PathOfLast(labels, id, TableOf(labels).pathByID)
  {
    if labels == [] {
    } else {
      TableOfMore(labels);
      PathIsOfLast(labels[..|labels| - 1], id);
      OneMoreLast(labels, id, "");
      hide TableOf, LastShown, Path, IsShown, ShownAt;
    }
  }

  lemma {:induction false} IdIsOfLast(labels: seq<Label>, path: string)
    ensures IdOfLast(labels, path, TableOf(labels).idByPath)
  {
    if labels == [] {
    } else {
      TableOfMore(labels);
      IdIsOfLast(labels[..|labels| - 1], path);
      OneMoreLast(labels, "", path);
      hide TableOf, LastAt, Path, IsShown;
    }
  }

  /** The table leads from each identifier to where the last shown label of it is shown, and from each
      path to the identifier of the last label shown there. It hides the system's other labels, but for
      the two that are flags. */
  lemma TableHoldsLast(labels: seq<Label>)
    ensures forall id :: PathOfLast(labels, id, TableOf(labels).pathByID)
    ensures forall path :: IdOfLast(labels, path, TableOf(labels).idByPath)
    ensures forall id :: id in TableOf(labels).hidden <==>
                         exists l <- labels :: l.id == id && !l.user && !IsShown(l) && id !in {"UNREAD", "STARRED"}
  {
    forall id ensures id in TableOf(labels).hidden <==>
                      exists l <- labels :: l.id == id && !l.user && !IsShown(l) && id !in {"UNREAD", "STARRED"}
    {
      HiddenExactly(labels, id);
      forall l <- labels ensures Hidden(l) <==> !l.user && !IsShown(l) && l.id !in {"UNREAD", "STARRED"} {
        PathIsWhereShown(l, Path(l));
      }
    }
    forall id ensures PathOfLast(labels, id, TableOf(labels).pathByID) { PathIsOfLast(labels, id); }
    forall path ensures IdOfLast(labels, path, TableOf(labels).idByPath) { IdIsOfLast(labels, path); }
  }

  /** Reading a label by its identifier and compiling that label's path lead to the same identifier. */
  predicate Inverse(t: Table) {
    forall id <- t.pathByID | id != UNREAD && id != STARRED ::
      t.pathByID[id] in t.idByPath && t.idByPath[t.pathByID[id]] == id
  }

  /** The maps invert each other when no two labels show the same path. */
  lemma DistinctPathsInvert(labels: seq<Label>)
    requires forall k, l :: k in labels && l in labels && Path(k) == Path(l) != "" ==> k.id == l.id
    ensures Inverse(TableOf(labels))
  {
    TableKeeps(labels);
  }

  // ---------------------------------------------------------------- metadata

  datatype RawMessage = RawMessage(id: string, date: int, sender: string, labelIds: seq<string>)

  datatype Message = Message(id: string, date: int, sender: string, labels: seq<string>, read: bool, starred: bool)

  function ShownLabels(t: Table, ids: seq<string>): seq<string> {
    if ids == [] then []
    else
      var before, id := ShownLabels(t, ids[..|ids| - 1]), ids[|ids| - 1];
      if id == UNREAD || id == STARRED || id !in t.pathByID then before else before + [t.pathByID[id]]
  }

  function MetadataOf(t: Table, m: RawMessage): Message {
    Message(m.id, m.date, m.sender, ShownLabels(t, m.labelIds), UNREAD !in m.labelIds, STARRED in m.labelIds)
  }

  /** Whether a message's identifier shows as a label, which the two flags do not. */
  predicate Leads(t: Table, id: string) {
    id != "UNREAD" && id != "STARRED" && id in t.pathByID
  }

  /** The paths are those of the identifiers that lead to one, in their order and as often. */
  ghost predicate LabelsRead(t: Table, ids: seq<string>, paths: seq<string>) {
    exists at: seq<nat> :: PathsAt(t, ids, at, paths)
  }

  predicate PathsAt(t: Table, ids: seq<string>, at: seq<nat>, paths: seq<string>) {
    && Increasing(at) && |paths| == |at|
    && (forall i: nat | i < |ids| :: i in at <==> Leads(t, ids[i]))
    && forall k | 0 <= k < |at| :: at[k] < |ids| && Leads(t, ids[at[k]]) && paths[k] == t.pathByID[ids[at[k]]]
  }

  lemma PathsAtMore(t: Table, ids: seq<string>, at: seq<nat>, paths: seq<string>)
    requires ids != [] && PathsAt(t, ids[..|ids| - 1], at, paths)
    ensures var n := |ids| - 1;
            if Leads(t, ids[n]) then PathsAt(t, ids, at + [n], paths + [t.pathByID[ids[n]]])
            else PathsAt(t, ids, at, paths)
  {
    var n := |ids| - 1;
    var init := ids[..n];
    assert forall i | 0 <= i < n :: init[i] == ids[i];
    if Leads(t, ids[n]) {
      hide Leads;
      var more: seq<nat> := at + [n];
      assert more[|at|] == n;
      forall i: nat | i < |ids| ensures i in more <==> Leads(t, ids[i]) {
        assert i in more <==> i in at || i == n;
      }
    } else {
      hide Leads;
      assert n !in at;
    }
  }

  lemma {:induction false} ShownAtIndexes(t: Table, ids: seq<string>) returns (at: seq<nat>)
    ensures PathsAt(t, ids, at, ShownLabels(t, ids))
    decreases |ids|
  {
    if ids == [] {
      at := [];
    } else {
      var n := |ids| - 1;
      at := ShownAtIndexes(t, ids[..n]);
      PathsAtMore(t, ids, at, ShownLabels(t, ids[..n]));
      at := if Leads(t, ids[n]) then at + [n] else at;
      hide PathsAt;
    }
  }

  lemma ShownIsRead(t: Table, ids: seq<string>)
    ensures LabelsRead(t, ids, ShownLabels(t, ids))
  {
    var at := ShownAtIndexes(t, ids);
    hide PathsAt;
  }

  method Metadata(t: Table, m: RawMessage) returns (out: Message)
    ensures out == MetadataOf(t, m)
    ensures (out.id, out.date, out.sender) == (m.id, m.date, m.sender)
    ensures out.read <==> "UNREAD" !in m.labelIds
    ensures out.starred <==> "STARRED" in m.labelIds
    ensures LabelsRead(t, m.labelIds, out.labels)
  {
    hide LabelsRead;
    out := Message(m.id, m.date, m.sender, [], true, false);
    for i := 0 to |m.labelIds|
      invariant out == MetadataOf(t, m.(labelIds := m.labelIds[..i]))
    {
      assert m.labelIds[..i + 1] == m.labelIds[..i] + [m.labelIds[i]];
      assert m.labelIds[..i + 1][..i] == m.labelIds[..i];
      var id := m.labelIds[i];
      if id == UNREAD {
        out := out.(read := false);
      } else if id == STARRED {
        out := out.(starred := true);
      } else if id in t.pathByID {
        out := out.(labels := out.labels + [t.pathByID[id]]);
      }
    }
    assert m.labelIds[..|m.labelIds|] == m.labelIds;
    ShownIsRead(t, m.labelIds);
  }

  /** A message shows exactly the paths of its identifiers, the flag identifiers apart. */
  lemma {:induction false} ShownExactly(t: Table, ids: seq<string>, path: string)
    ensures path in ShownLabels(t, ids) <==>
            exists id <- ids :: id != UNREAD && id != STARRED && id in t.pathByID && t.pathByID[id] == path
  {
    if ids == [] {
    } else {
      var init, id := ids[..|ids| - 1], ids[|ids| - 1];
      ShownExactly(t, init, path);
      assert ids == init + [id];
      assert forall k :: k in ids <==> k in init || k == id;
    }
  }
}
