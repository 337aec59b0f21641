/** Classifying a sender against an account's prepared policy (core/classify/classify.go). */
module Classify {
  import opened Wrappers
  import opened Policy
  import PathNames
  import SearchText

  /** The domain functions a caller passes in, none for a name one cannot handle, with lower-casing. */
  datatype Lookups = Lookups(toUnicode: string -> Option<string>, toASCII: string -> Option<string>,
                             registrable: string -> Option<string>, lower: string -> string)

  datatype Class = RestrictedSender | NormalSender

  datatype Reason = Unclassifiable | NoPolicy | Listed | Unlisted

  datatype Verdict = Verdict(sender: Class, reason: Reason, rule: string, scope: Option<Scope>)

  const UNCLASSIFIABLE := Verdict(RestrictedSender, Unclassifiable, "", None)

  datatype Prepared = Prepared(id: string, scope: Scope, suffixes: seq<string>)

  datatype PreparedPolicy = PreparedPolicy(composed: Composed, rules: seq<Prepared>)

  // ---------------------------------------------------------------- names

  function Normalize(domain: string, l: Lookups): Option<string> {
    var trimmed := if domain != "" && domain[|domain| - 1] == '.' then domain[..|domain| - 1] else domain;
    if trimmed == "" || l.toUnicode(trimmed).None? then None else Some(l.lower(l.toUnicode(trimmed).value))
  }

  function SenderName(domain: string, l: Lookups): Option<string> {
    var n := Normalize(domain, l);
    if n.None? || l.toASCII(n.value).None? || l.registrable(l.toASCII(n.value).value).None? then None else n
  }

  function SuffixName(suffix: string, l: Lookups): string {
    var n := Normalize(suffix, l);
    if n.None? then l.lower(suffix) else n.value
  }

  predicate Under(name: string, suffix: string) {
    name != "" && (name == suffix || (|suffix| < |name| && name[|name| - |suffix| - 1..] == "." + suffix))
  }

  lemma {:induction false} JoinParts(a: seq<string>, b: seq<string>)
    requires a != [] && b != []
    ensures SearchText.Join(a + b, ".") == SearchText.Join(a, ".") + "." + SearchText.Join(b, ".")
  {
    var all := a + b;
    if |a| == 1 {
      assert all[1..] == b;
    } else {
      assert all[1..] == a[1..] + b;
      JoinParts(a[1..], b);
    }
  }

  lemma JoinedDecodable(a: seq<string>, b: seq<string>)
    requires PathNames.Decodable(a, ".") && PathNames.Decodable(b, ".")
    ensures PathNames.Decodable(a + b, ".")
  {
    var last := a[|a| - 1];
    forall j | 0 <= j < |last| ensures !PathNames.At(last + ".", ".", j) {
      assert !PathNames.At(last, ".", j);
      assert last[j + 0] != "."[0];
      assert (last + ".")[j + 0] == last[j];
    }
    forall i | 0 <= i < |a + b| - 1 ensures PathNames.Delimited((a + b)[i], ".") {
      assert i >= |a| ==> (a + b)[i] == b[i - |a|];
    }
  }

  lemma SplitAtDot(head: string, tail: string)
    ensures PathNames.Split(head + "." + tail, ".") == PathNames.Split(head, ".") + PathNames.Split(tail, ".")
  {
    var a, b := PathNames.Split(head, "."), PathNames.Split(tail, ".");
    PathNames.JoinOfSplit(head, ".");
    PathNames.JoinOfSplit(tail, ".");
    JoinParts(a, b);
    JoinedDecodable(a, b);
    PathNames.SplitOfJoin(a + b, ".");
  }

  lemma LastPart(a: seq<string>, b: seq<string>)
    ensures (a + b)[|a + b| - |b|..] == b
  {
  }

  lemma UnderEndsInLabels(name: string, suffix: string)
    requires Under(name, suffix)
    ensures var n, s := PathNames.Split(name, "."), PathNames.Split(suffix, ".");
            |s| <= |n| && n[|n| - |s|..] == s
  {
    hide PathNames.Split;
    var s := PathNames.Split(suffix, ".");
    if name != suffix {
      var head := name[..|name| - |suffix| - 1];
      assert name == head + name[|head|..];
      assert name == head + "." + suffix;
      SplitAtDot(head, suffix);
      LastPart(PathNames.Split(head, "."), s);
    }
  }

  lemma SplitIsSome(s: string)
    ensures PathNames.Split(s, ".") != []
  {
  }

  lemma DottedIsUnder(head: string, suffix: string)
    ensures Under(head + "." + suffix, suffix)
  {
    var name := head + "." + suffix;
    assert name[|name| - |suffix| - 1..] == "." + suffix;
  }

  lemma LabelsAreUnder(name: string, suffix: string, head: seq<string>)
    requires name != "" && PathNames.Split(name, ".") == head + PathNames.Split(suffix, ".")
    ensures Under(name, suffix)
  {
    hide PathNames.Split, PathNames.Decodable;
    var s := PathNames.Split(suffix, ".");
    PathNames.JoinOfSplit(name, ".");
    PathNames.JoinOfSplit(suffix, ".");
    if head == [] {
      assert head + s == s;
    } else {
      SplitIsSome(suffix);
      JoinParts(head, s);
      DottedIsUnder(SearchText.Join(head, "."), suffix);
    }
  }

  /** A name is under a suffix exactly when the suffix's labels are its last labels. */
  lemma UnderIsLabels(name: string, suffix: string)
    requires name != ""
    ensures Under(name, suffix) <==>
            var n, s := PathNames.Split(name, "."), PathNames.Split(suffix, ".");
            |s| <= |n| && n[|n| - |s|..] == s
  {
    hide PathNames.Split, Under;
    var n, s := PathNames.Split(name, "."), PathNames.Split(suffix, ".");
    if Under(name, suffix) {
      UnderEndsInLabels(name, suffix);
    }
    if |s| <= |n| && n[|n| - |s|..] == s {
      assert n == n[..|n| - |s|] + s;
      LabelsAreUnder(name, suffix, n[..|n| - |s|]);
    }
  }

  // ---------------------------------------------------------------- preparing

  function Names(suffixes: seq<string>, l: Lookups): seq<string> {
    seq(|suffixes|, i requires 0 <= i < |suffixes| => SuffixName(suffixes[i], l))
  }

  function PreparedRules(rules: seq<Rule>, l: Lookups): seq<Prepared> {
    seq(|rules|, i requires 0 <= i < |rules| => Prepared(rules[i].id, rules[i].scope, Names(rules[i].suffixes, l)))
  }

  function PreparedOf(c: Composed, l: Lookups): PreparedPolicy {
    PreparedPolicy(c, if c.loaded then PreparedRules(c.rules, l) else [])
  }

  method Prepare(c: Composed, l: Lookups) returns (p: PreparedPolicy)
    ensures p == PreparedOf(c, l)
  {
    p := PreparedPolicy(c, []);
    if !c.loaded {
      return;
    }
    for i := 0 to |c.rules|
      invariant p == PreparedPolicy(c, PreparedRules(c.rules[..i], l))
    {
      var r := c.rules[i];
      var names := [];
      for k := 0 to |r.suffixes|
        invariant names == Names(r.suffixes[..k], l)
      {
        names := names + [SuffixName(r.suffixes[k], l)];
      }
      assert r.suffixes[..|r.suffixes|] == r.suffixes;
      p := p.(rules := p.rules + [Prepared(r.id, r.scope, names)]);
    }
    assert c.rules[..|c.rules|] == c.rules;
  }

  // ---------------------------------------------------------------- classifying

  /** Where the last at sign of an address is, or its length. */
  function LastAt(address: string): (k: nat)
    ensures k <= |address| && (k < |address| ==> address[k] == '@')
    ensures forall j | k < j < |address| :: address[j] != '@'
    ensures k == |address| ==> '@' !in address
  {
    if address == "" then 0
    else if address[|address| - 1] == '@' then |address| - 1
    else
      var k := LastAt(address[..|address| - 1]);
      if k == |address| - 1 then |address| else k
  }

  function Sender(address: string, l: Lookups): Option<string> {
    var at := LastAt(address);
    if at == |address| then None else SenderName(address[at + 1..], l)
  }

  predicate Matches(sender: string, r: Rule, l: Lookups) {
    exists s <- r.suffixes :: Under(sender, SuffixName(s, l))
  }

  predicate IsNormal(c: Composed, address: string, l: Lookups) {
    && c.loaded && Sender(address, l).Some?
    && forall r <- c.rules :: !Matches(Sender(address, l).value, r, l)
  }

  /** A sender is normal exactly when a policy is loaded, its name can be read, and no rule matches it. A listed
      sender's verdict names the first rule that matches. */
  method Classify(p: PreparedPolicy, address: string, l: Lookups) returns (v: Verdict)
    requires p == PreparedOf(p.composed, l)
    ensures v.sender == NormalSender <==> IsNormal(p.composed, address, l)
    ensures v.reason == NoPolicy <==> !p.composed.loaded
    ensures v.reason == Unclassifiable <==> p.composed.loaded && Sender(address, l).None?
    ensures v.reason == Unlisted <==> v.sender == NormalSender
    ensures v.reason == Listed ==>
              exists i | 0 <= i < |p.composed.rules| ::
                && Matches(Sender(address, l).value, p.composed.rules[i], l)
                && (forall j | 0 <= j < i :: !Matches(Sender(address, l).value, p.composed.rules[j], l))
                && v.rule == p.composed.rules[i].id && v.scope == Some(p.composed.rules[i].scope)
  {
    if !p.composed.loaded {
      return Verdict(RestrictedSender, NoPolicy, "", None);
    }
    var at := LastAt(address);
    if at == |address| {
      return UNCLASSIFIABLE;
    }
    var sender := SenderName(address[at + 1..], l);
    if sender.None? {
      return UNCLASSIFIABLE;
    }
    var rules := p.composed.rules;
    for i := 0 to |p.rules|
      invariant forall j | 0 <= j < i :: !Matches(sender.value, rules[j], l)
    {
      var r := p.rules[i];
      for k := 0 to |r.suffixes|
        invariant forall m | 0 <= m < k :: !Under(sender.value, SuffixName(rules[i].suffixes[m], l))
      {
        if Under(sender.value, r.suffixes[k]) {
          assert rules[i].suffixes[k] in rules[i].suffixes && rules[i] in rules;
          assert Matches(sender.value, rules[i], l);
          return Verdict(RestrictedSender, Listed, r.id, Some(r.scope));
        }
      }
    }
    forall r <- rules ensures !Matches(sender.value, r, l) {
      var j :| 0 <= j < |rules| && rules[j] == r;
      assert !Matches(sender.value, rules[j], l);
    }
    v := Verdict(NormalSender, Unlisted, "", None);
  }

  /** Some rule of the list has all the rule's suffixes. */
  predicate Covered(r: Rule, rules: seq<Rule>) {
    exists q <- rules :: forall s <- r.suffixes :: s in q.suffixes
  }

  /** However a policy grows, by rules anywhere or suffixes of a rule, it makes no restricted sender normal. */
  lemma MoreRulesRestrictMore(c: Composed, more: Composed, address: string, l: Lookups)
    requires c.loaded
    requires forall r <- c.rules :: Covered(r, more.rules)
    requires IsNormal(more, address, l)
    ensures IsNormal(c, address, l)
  {
    var sender := Sender(address, l).value;
    forall r <- c.rules ensures !Matches(sender, r, l) {
      var q :| q in more.rules && forall s <- r.suffixes :: s in q.suffixes;
      assert !Matches(sender, q, l);
    }
  }

  /** An overlay only adds restrictions: what an account's composed policy finds normal its base alone does. */
  lemma OverlayOnlyRestricts(s: Snapshot, account: string, address: string, l: Lookups)
    requires IsNormal(For(s, account), address, l)
    ensures IsNormal(Composed(true, s.base), address, l)
    ensures forall x | x <= Overlay(s, account) :: IsNormal(Composed(true, s.base + x), address, l)
  {
    var whole := For(s, account);
    forall x | x <= Overlay(s, account) ensures IsNormal(Composed(true, s.base + x), address, l) {
      var part := Composed(true, s.base + x);
      forall r <- part.rules ensures Covered(r, whole.rules) {
        assert r in whole.rules;
      }
      MoreRulesRestrictMore(Composed(true, s.base + x), whole, address, l);
    }
    assert s.base + [] == s.base;
  }
}
