/**
 * What the manifest walk promises for one node: which diagnostics each child
 * mode yields, that undeclared names are reported once, that every empty
 * child is reported, and that wildcard or missing rules switch the child
 * checks and the recursion off.
 */
module ValidatorProperties {
  import opened XmlTree
  import opened Diagnostics
  import opened ManifestGrammar
  import opened ManifestValidator

  /** The child rules name pairwise different elements. */
  predicate DistinctElements(entries: seq<Entry>) {
    forall i, j :: 0 <= i < j < |entries| ==> ElementName(entries[i].key) != ElementName(entries[j].key)
  }

  /** Element `el` is governed by a rule with mode `symbol`. */
  predicate RuleIs(rules: map<string, Entry>, el: string, symbol: string) {
    el in rules && rules[el].symbol == symbol
  }

  /** How many diagnostics of each cardinality kind a bucket holds about one element. */
  datatype Tally = Tally(missedRequired: nat, multipleErrors: nat, multipleWarnings: nat, missedOptional: nat) {
    function Plus(t: Tally): Tally {
      Tally(missedRequired + t.missedRequired, multipleErrors + t.multipleErrors,
            multipleWarnings + t.multipleWarnings, missedOptional + t.missedOptional)
    }
  }

  const Zero := Tally(0, 0, 0, 0)

  lemma PlusZero(t: Tally)
    ensures t.Plus(Zero) == t && Zero.Plus(t) == t
  {
  }

  /** The cardinality diagnostics bucket `b` holds about element `el` of node `name`. */
  function TallyOf(b: Bucket, name: string, el: string): Tally {
    Tally(multiset(b.errors)[MissedRequired(name, el)], multiset(b.errors)[MultipleFound(name, el)],
          multiset(b.warnings)[MultipleFound(name, el)], multiset(b.notices)[MissedOptional(name, el)])
  }

  /** The counts the mode table promises for a rule with mode `s` and `c` matching children. */
  function Expected(s: string, c: nat): Tally {
    Tally(if s == Required && c == 0 then 1 else 0,
          if s == Required && c > 1 then 1 else 0,
          if s == Recommended && c > 1 then 1 else 0,
          if s == Recommended && c == 0 then 1 else 0)
  }

  lemma TallyThen(a: Bucket, b: Bucket, name: string, el: string)
    ensures TallyOf(a.Then(b), name, el) == TallyOf(a, name, el).Plus(TallyOf(b, name, el))
  {
    var ab := a.Then(b);
    assert multiset(ab.errors) == multiset(a.errors) + multiset(b.errors);
    assert multiset(ab.warnings) == multiset(a.warnings) + multiset(b.warnings);
    assert multiset(ab.notices) == multiset(a.notices) + multiset(b.notices);
  }

  lemma ModeCheckTally(name: string, child: string, s: string, c: nat, el: string)
    ensures TallyOf(ModeCheck(name, child, s, c), name, el) == if child == el then Expected(s, c) else Zero
  {
  }

  lemma DistinctPrefix(entries: seq<Entry>, k: nat)
    requires k <= |entries| && DistinctElements(entries)
    ensures DistinctElements(entries[..k])
  {
    var prefix := entries[..k];
    forall i, j | 0 <= i < j < |prefix| ensures ElementName(prefix[i].key) != ElementName(prefix[j].key) {
      assert prefix[i] == entries[i] && prefix[j] == entries[j];
    }
  }

  /** The last rule governs its element, which no earlier rule names. */
  lemma LastRuleGoverns(entries: seq<Entry>)
    requires |entries| > 0 && DistinctElements(entries)
    ensures var k := |entries| - 1;
      var el := ElementName(entries[k].key);
      el !in ChildToRule(entries[..k]) && ChildToRule(entries)[el] == entries[k]
  {
    var k := |entries| - 1;
    var prefix := entries[..k];
    ChildToRuleDomain(prefix);
    var el := ElementName(entries[k].key);
  }

  lemma ChildToRuleStep(entries: seq<Entry>)
    requires |entries| > 0
    ensures var k := |entries| - 1;
      ChildToRule(entries) == ChildToRule(entries[..k])[ElementName(entries[k].key) := entries[k]]
  {
  }

  lemma DeclaredStep(name: string, cs: seq<Node>, entries: seq<Entry>, el: string)
    requires |entries| > 0
    ensures var k := |entries| - 1;
      var last := ElementName(entries[k].key);
      TallyOf(DeclaredChecks(name, cs, entries), name, el) ==
        TallyOf(DeclaredChecks(name, cs, entries[..k]), name, el).Plus(
          if last == el then Expected(entries[k].symbol, CountNamed(cs, el)) else Zero)
  {
    var k := |entries| - 1;
    var last := ElementName(entries[k].key);
    var mc := ModeCheck(name, last, entries[k].symbol, CountNamed(cs, last));
    assert DeclaredChecks(name, cs, entries) == DeclaredChecks(name, cs, entries[..k]).Then(mc);
    TallyThen(DeclaredChecks(name, cs, entries[..k]), mc, name, el);
    ModeCheckTally(name, last, entries[k].symbol, CountNamed(cs, last), el);
  }

  /**
   * What the mode table promises about element `el` with `c` matching
   * children, added up over every key that names `el`: each key is checked
   * on its own, so two keys for one element report twice.
   */
  function DeclaredSum(entries: seq<Entry>, el: string, c: nat): Tally {
    if |entries| == 0 then Zero
    else
      var k := |entries| - 1;
      DeclaredSum(entries[..k], el, c).Plus(if ElementName(entries[k].key) == el then Expected(entries[k].symbol, c) else Zero)
  }

  /**
   * The cardinality diagnostics the declared rules yield about one element
   * are the mode table's promise summed over every key naming it.
   */
  lemma {:induction false} DeclaredTallyAll(name: string, cs: seq<Node>, entries: seq<Entry>, el: string)
    ensures TallyOf(DeclaredChecks(name, cs, entries), name, el) == DeclaredSum(entries, el, CountNamed(cs, el))
  {
    if |entries| > 0 {
      var k := |entries| - 1;
      DeclaredTallyAll(name, cs, entries[..k], el);
      DeclaredStep(name, cs, entries, el);
    } else {
      assert DeclaredChecks(name, cs, entries) == NoDiagnostics;
      assert TallyOf(NoDiagnostics, name, el) == Zero;
    }
  }

  /**
   * When the keys name distinct elements, the sum is the mode table's
   * promise for the one rule that governs the element, or nothing.
   */
  lemma {:induction false} DeclaredSumDistinct(entries: seq<Entry>, el: string, c: nat)
    requires DistinctElements(entries)
    ensures var rules := ChildToRule(entries);
      DeclaredSum(entries, el, c) == if el in rules then Expected(rules[el].symbol, c) else Zero
  {
    if |entries| > 0 {
      var k := |entries| - 1;
      DistinctPrefix(entries, k);
      DeclaredSumDistinct(entries[..k], el, c);
      if ElementName(entries[k].key) == el {
        LastRuleGoverns(entries);
      }
      DeclaredSumStep(entries, el, c);
    }
  }

  /** The inductive step of `DeclaredSumDistinct`, from the rules before the last one to all of them. */
  lemma DeclaredSumStep(entries: seq<Entry>, el: string, c: nat)
    requires |entries| > 0
    requires var k := |entries| - 1;
      ElementName(entries[k].key) == el ==> el !in ChildToRule(entries[..k])
    requires var k := |entries| - 1;
      var earlier := ChildToRule(entries[..k]);
      DeclaredSum(entries[..k], el, c) == if el in earlier then Expected(earlier[el].symbol, c) else Zero
    ensures var rules := ChildToRule(entries);
      DeclaredSum(entries, el, c) == if el in rules then Expected(rules[el].symbol, c) else Zero
  {
    var k := |entries| - 1;
    var before := DeclaredSum(entries[..k], el, c);
    ChildToRuleStep(entries);
    if ElementName(entries[k].key) == el {
      PlusZero(Expected(entries[k].symbol, c));
    } else {
      GovernorUnchanged(entries, el);
      PlusZero(before);
    }
  }

  /**
   * The cardinality diagnostics the declared rules yield about one element
   * when the keys name distinct elements: at most one of each, decided by
   * the mode of the rule that governs it.
   */
  lemma DeclaredTally(name: string, cs: seq<Node>, entries: seq<Entry>, el: string)
    requires DistinctElements(entries)
    ensures var rules := ChildToRule(entries);
      TallyOf(DeclaredChecks(name, cs, entries), name, el) ==
        if el in rules then Expected(rules[el].symbol, CountNamed(cs, el)) else Zero
  {
    DeclaredTallyAll(name, cs, entries, el);
    DeclaredSumDistinct(entries, el, CountNamed(cs, el));
  }

  /** A rule for another element leaves the rule governing `el` as it was. */
  lemma GovernorUnchanged(entries: seq<Entry>, el: string)
    requires |entries| > 0 && ElementName(entries[|entries| - 1].key) != el
    ensures var earlier := ChildToRule(entries[..|entries| - 1]);
      var rules := ChildToRule(entries);
      (el in rules <==> el in earlier) && (el in rules ==> rules[el] == earlier[el])
  {
    ChildToRuleStep(entries);
  }

  /** The repeated-`?` errors bucket `b` holds about element `el`. */
  function RepeatErrors(b: Bucket, name: string, el: string): nat {
    multiset(b.errors)[MultipleFound(name, el)]
  }

  /** The unknown-child notices bucket `b` holds about element `el`. */
  function UnknownNotices(b: Bucket, name: string, el: string): nat {
    multiset(b.notices)[UnknownChild(name, el)]
  }

  lemma NameStep(name: string, cs: seq<Node>, names: seq<string>, rules: map<string, Entry>, el: string)
    requires |names| > 0
    ensures var k := |names| - 1;
      var before := NameChecks(name, cs, names[..k], rules);
      var after := NameChecks(name, cs, names, rules);
      && RepeatErrors(after, name, el) == RepeatErrors(before, name, el)
           + (if names[k] == el && RuleIs(rules, el, Optional) && CountNamed(cs, el) > 1 then 1 else 0)
      && UnknownNotices(after, name, el) == UnknownNotices(before, name, el)
           + (if names[k] == el && el !in rules then 1 else 0)
  {
    var k := |names| - 1;
    var before := NameChecks(name, cs, names[..k], rules);
    var step := NameCheck(name, cs, names[k], rules);
    var after := NameChecks(name, cs, names, rules);
    assert after == before.Then(step);
    assert multiset(after.errors) == multiset(before.errors) + multiset(step.errors);
    assert multiset(after.notices) == multiset(before.notices) + multiset(step.notices);
  }

  lemma OccurrencesStep(names: seq<string>, el: string)
    requires |names| > 0
    ensures multiset(names)[el] == multiset(names[..|names| - 1])[el] + (if names[|names| - 1] == el then 1 else 0)
  {
    assert names == names[..|names| - 1] + [names[|names| - 1]];
  }

  /** The name scan reports about `el` once per occurrence of `el` among the scanned names. */
  lemma {:induction false} NameTallyByOccurrence(name: string, cs: seq<Node>, names: seq<string>, rules: map<string, Entry>, el: string)
    ensures var b := NameChecks(name, cs, names, rules);
      var n := multiset(names)[el];
      && RepeatErrors(b, name, el) == (if RuleIs(rules, el, Optional) && CountNamed(cs, el) > 1 then n else 0)
      && UnknownNotices(b, name, el) == (if el !in rules then n else 0)
  {
    if |names| > 0 {
      var k := |names| - 1;
      var prefix := names[..k];
      NameTallyByOccurrence(name, cs, prefix, rules, el);
      NameStep(name, cs, names, rules, el);
      OccurrencesStep(names, el);
    } else {
      assert NameChecks(name, cs, names, rules) == NoDiagnostics;
    }
  }

  /** Pairwise different names occur at most once each. */
  lemma {:induction false} UniqueOnce(names: seq<string>, el: string)
    requires forall i, j :: 0 <= i < j < |names| ==> names[i] != names[j]
    ensures multiset(names)[el] == if el in names then 1 else 0
  {
    if |names| > 0 {
      var k := |names| - 1;
      var prefix := names[..k];
      assert names == prefix + [names[k]];
      assert forall i, j :: 0 <= i < j < |prefix| ==> prefix[i] != prefix[j];
      UniqueOnce(prefix, el);
    }
  }

  /**
   * The diagnostics the scan over distinct child names yields about one
   * element: one unknown-child notice when no rule covers a present name, one
   * error when a present `?` child repeats.
   */
  lemma NameTally(name: string, cs: seq<Node>, names: seq<string>, rules: map<string, Entry>, el: string)
    requires forall i, j :: 0 <= i < j < |names| ==> names[i] != names[j]
    ensures var b := NameChecks(name, cs, names, rules);
      && RepeatErrors(b, name, el) == (if el in names && RuleIs(rules, el, Optional) && CountNamed(cs, el) > 1 then 1 else 0)
      && UnknownNotices(b, name, el) == (if el in names && el !in rules then 1 else 0)
  {
    NameTallyByOccurrence(name, cs, names, rules, el);
    UniqueOnce(names, el);
  }

  /** Diagnostics of a kind that never counts towards a cardinality tally. */
  lemma TallyOfUntallied(b: Bucket, name: string, el: string)
    requires forall m :: m in b.errors ==> !m.MissedRequired? && !m.MultipleFound?
    requires forall m :: m in b.warnings ==> !m.MultipleFound?
    requires forall m :: m in b.notices ==> !m.MissedOptional?
    ensures TallyOf(b, name, el) == Zero
  {
    assert MissedRequired(name, el) !in b.errors && MultipleFound(name, el) !in b.errors;
    assert MultipleFound(name, el) !in b.warnings && MissedOptional(name, el) !in b.notices;
  }

  /** The name scan contributes only repeated-`?` errors to a tally. */
  lemma NameChecksTally(name: string, cs: seq<Node>, names: seq<string>, rules: map<string, Entry>, el: string)
    ensures TallyOf(NameChecks(name, cs, names, rules), name, el) ==
      Tally(0, RepeatErrors(NameChecks(name, cs, names, rules), name, el), 0, 0)
  {
    var b := NameChecks(name, cs, names, rules);
    assert MissedRequired(name, el) !in b.errors && MissedOptional(name, el) !in b.notices;
  }

  /**
   * With child rules and no wildcard, a node's cardinality tally is that of
   * its declared rules plus that of its name scan.
   */
  lemma LocalTally(g: Grammar, node: Node, ruleset: string, el: string)
    requires ChildRules(g, ruleset) != [] && !AnyChildren(ChildRules(g, ruleset))
    ensures var entries := ChildRules(g, ruleset);
      TallyOf(LocalChecks(g, node, ruleset), node.name, el) ==
        TallyOf(DeclaredChecks(node.name, node.children, entries), node.name, el).Plus(
          TallyOf(NameChecks(node.name, node.children, DistinctNames(Names(node.children)), ChildToRule(entries)), node.name, el))
  {
    var entries := ChildRules(g, ruleset);
    var attrs := Notices(AttributeNotices(g, node, ruleset));
    var declared := DeclaredChecks(node.name, node.children, entries);
    var scan := NameChecks(node.name, node.children, DistinctNames(Names(node.children)), ChildToRule(entries));
    var empty := Notices(EmptyChildNotices(node.children));
    var menu := Warnings(MenuWarnings(node));
    assert LocalChecks(g, node, ruleset) == attrs.Then(declared.Then(scan).Then(empty)).Then(menu);
    TallyOfUntallied(attrs, node.name, el);
    TallyOfUntallied(empty, node.name, el);
    TallyOfUntallied(menu, node.name, el);
    TallyThen(declared, scan, node.name, el);
    TallyThen(declared.Then(scan), empty, node.name, el);
    TallyThen(attrs, declared.Then(scan).Then(empty), node.name, el);
    TallyThen(attrs.Then(declared.Then(scan).Then(empty)), menu, node.name, el);
    PlusZero(TallyOf(declared.Then(scan), node.name, el));
    PlusZero(TallyOf(declared.Then(scan).Then(empty), node.name, el));
  }

  /** The rule declared at `i` is the one that governs its element. */
  lemma GoverningRule(entries: seq<Entry>, i: int)
    requires 0 <= i < |entries| && DistinctElements(entries)
    ensures var el := ElementName(entries[i].key);
      el in ChildToRule(entries) && ChildToRule(entries)[el] == entries[i]
  {
    var el := ElementName(entries[i].key);
    assert DeclaredAt(entries, el, i);
    ChildToRuleDomain(entries);
    ChildToRuleLastWins(entries, el);
  }

  /**
   * The cardinality diagnostics a node gets about element `el`, for any
   * child rules without a wildcard: the mode table's promise for every key
   * naming `el`, plus one repeat error when the last such key is `?` and
   * `el` occurs more than once.
   */
  lemma CardinalityAll(g: Grammar, node: Node, ruleset: string, el: string)
    requires ChildRules(g, ruleset) != [] && !AnyChildren(ChildRules(g, ruleset))
    ensures var entries := ChildRules(g, ruleset);
      var c := CountNamed(node.children, el);
      TallyOf(LocalChecks(g, node, ruleset), node.name, el) ==
        DeclaredSum(entries, el, c).Plus(
          Tally(0, if RuleIs(ChildToRule(entries), el, Optional) && c > 1 then 1 else 0, 0, 0))
  {
    var entries := ChildRules(g, ruleset);
    var rules := ChildToRule(entries);
    var names := DistinctNames(Names(node.children));
    CountNamedPositive(node.children, el);
    DeclaredTallyAll(node.name, node.children, entries, el);
    NameTally(node.name, node.children, names, rules, el);
    NameChecksTally(node.name, node.children, names, rules, el);
    LocalTally(g, node, ruleset, el);
  }

  /**
   * For a ruleset whose keys name distinct elements, the diagnostics one
   * declared child rule yields at its node, by mode: `!` one error when the
   * child is missing and one when it repeats; `=` one notice when missing and
   * one warning when repeated; `?` one error when repeated and nothing when
   * missing; any other mode (`*`) nothing.
   */
  lemma CardinalityByMode(g: Grammar, node: Node, ruleset: string, i: int)
    requires 0 <= i < |ChildRules(g, ruleset)|
    requires !AnyChildren(ChildRules(g, ruleset)) && DistinctElements(ChildRules(g, ruleset))
    ensures var entries := ChildRules(g, ruleset);
      var el := ElementName(entries[i].key);
      var s := entries[i].symbol;
      var c := CountNamed(node.children, el);
      TallyOf(LocalChecks(g, node, ruleset), node.name, el) ==
        Tally(if s == Required && c == 0 then 1 else 0,
              if (s == Required || s == Optional) && c > 1 then 1 else 0,
              if s == Recommended && c > 1 then 1 else 0,
              if s == Recommended && c == 0 then 1 else 0)
  {
    var entries := ChildRules(g, ruleset);
    var el := ElementName(entries[i].key);
    var c := CountNamed(node.children, el);
    GoverningRule(entries, i);
    CardinalityAll(g, node, ruleset, el);
    DeclaredSumDistinct(entries, el, c);
    assert RuleIs(ChildToRule(entries), el, Optional) <==> entries[i].symbol == Optional;
    ModeTable(entries[i].symbol, c);
  }

  /** The mode table's promise plus the name scan's repeat error for `?`, mode by mode. */
  lemma ModeTable(s: string, c: nat)
    ensures Expected(s, c).Plus(Tally(0, if s == Optional && c > 1 then 1 else 0, 0, 0)) ==
      Tally(if s == Required && c == 0 then 1 else 0,
            if (s == Required || s == Optional) && c > 1 then 1 else 0,
            if s == Recommended && c > 1 then 1 else 0,
            if s == Recommended && c == 0 then 1 else 0)
  {
  }

  /** With child rules and no wildcard, where a node's notices come from. */
  lemma LocalNoticeCount(g: Grammar, node: Node, ruleset: string, m: Message)
    requires ChildRules(g, ruleset) != [] && !AnyChildren(ChildRules(g, ruleset))
    ensures var entries := ChildRules(g, ruleset);
      multiset(LocalChecks(g, node, ruleset).notices)[m] ==
        multiset(AttributeNotices(g, node, ruleset))[m]
        + multiset(DeclaredChecks(node.name, node.children, entries).notices)[m]
        + multiset(NameChecks(node.name, node.children, DistinctNames(Names(node.children)), ChildToRule(entries)).notices)[m]
        + multiset(EmptyChildNotices(node.children))[m]
  {
    var entries := ChildRules(g, ruleset);
    var attrs := AttributeNotices(g, node, ruleset);
    var declared := DeclaredChecks(node.name, node.children, entries).notices;
    var scan := NameChecks(node.name, node.children, DistinctNames(Names(node.children)), ChildToRule(entries)).notices;
    var empty := EmptyChildNotices(node.children);
    assert LocalChecks(g, node, ruleset).notices == attrs + (declared + scan + empty) + [];
  }

  /**
   * With child rules and no wildcard, each distinct child name that no key
   * declares draws exactly one unknown-child notice, however often it occurs;
   * declared or absent names draw none.
   */
  lemma UnknownChildOnce(g: Grammar, node: Node, ruleset: string, c: string)
    requires ChildRules(g, ruleset) != [] && !AnyChildren(ChildRules(g, ruleset))
    ensures multiset(LocalChecks(g, node, ruleset).notices)[UnknownChild(node.name, c)] ==
      if c in Names(node.children) && !(exists i :: DeclaredAt(ChildRules(g, ruleset), c, i)) then 1 else 0
  {
    var entries := ChildRules(g, ruleset);
    var m := UnknownChild(node.name, c);
    LocalNoticeCount(g, node, ruleset, m);
    ChildToRuleDomain(entries);
    NameTally(node.name, node.children, DistinctNames(Names(node.children)), ChildToRule(entries), c);
    assert m !in AttributeNotices(g, node, ruleset);
    assert m !in EmptyChildNotices(node.children);
    assert m !in DeclaredChecks(node.name, node.children, entries).notices;
  }

  /** The positions of the empty children named `n`. */
  ghost function EmptyPositions(cs: seq<Node>, n: string): set<int> {
    set i | 0 <= i < |cs| && cs[i].name == n && IsEmptyElement(cs[i])
  }

  lemma EmptyPositionsStep(cs: seq<Node>, n: string)
    requires |cs| > 0
    ensures var k := |cs| - 1;
      EmptyPositions(cs, n) ==
        EmptyPositions(cs[..k], n) + (if cs[k].name == n && IsEmptyElement(cs[k]) then {k} else {})
  {
    var k := |cs| - 1;
    var prefix := cs[..k];
    forall i | 0 <= i < k ensures prefix[i] == cs[i] { }
  }

  /** One empty-child notice per empty child occurrence, keyed by the child's own name. */
  lemma {:induction false} EmptyChildCount(cs: seq<Node>, n: string)
    ensures multiset(EmptyChildNotices(cs))[EmptyChild(n)] == |EmptyPositions(cs, n)|
  {
    if |cs| > 0 {
      var k := |cs| - 1;
      var prefix := cs[..k];
      EmptyChildCount(prefix, n);
      EmptyPositionsStep(cs, n);
      var tail := if IsEmptyElement(cs[k]) then [EmptyChild(cs[k].name)] else [];
      assert EmptyChildNotices(cs) == EmptyChildNotices(prefix) + tail;
      assert multiset(EmptyChildNotices(cs))[EmptyChild(n)]
          == multiset(EmptyChildNotices(prefix))[EmptyChild(n)] + multiset(tail)[EmptyChild(n)];
      assert k !in EmptyPositions(prefix, n);
    }
  }

  /**
   * With child rules and no wildcard, the node gets exactly one empty-child
   * notice per empty child occurrence.
   */
  lemma EmptyChildPerOccurrence(g: Grammar, node: Node, ruleset: string, n: string)
    requires ChildRules(g, ruleset) != [] && !AnyChildren(ChildRules(g, ruleset))
    ensures multiset(LocalChecks(g, node, ruleset).notices)[EmptyChild(n)] == |EmptyPositions(node.children, n)|
  {
    var entries := ChildRules(g, ruleset);
    LocalNoticeCount(g, node, ruleset, EmptyChild(n));
    EmptyChildCount(node.children, n);
    assert EmptyChild(n) !in AttributeNotices(g, node, ruleset);
    assert EmptyChild(n) !in DeclaredChecks(node.name, node.children, entries).notices;
    assert EmptyChild(n) !in NameChecks(node.name, node.children, DistinctNames(Names(node.children)), ChildToRule(entries)).notices;
  }

  /** A walk over children none of which has a rule visits nothing. */
  lemma {:induction false} WalkNone(cs: seq<Node>)
    ensures Walk(cs, map[]) == []
  {
    if |cs| > 0 {
      WalkNone(cs[..|cs| - 1]);
    }
  }

  /** Without recursion rules the node's diagnostics are its local ones. */
  lemma NoRecursion(g: Grammar, node: Node, ruleset: string)
    requires RecursionRules(g, ruleset) == map[]
    ensures Validate(g, node, ruleset) == LocalChecks(g, node, ruleset)
  {
    WalkNone(node.children);
    var b := LocalChecks(g, node, ruleset);
    assert b.Then(NoDiagnostics) == b;
  }

  /**
   * A ruleset without child rules: at most one unknown-children notice, only
   * when the node has element children, no other child diagnostic, and no
   * recursion into the children.
   */
  lemma UnruledChildren(g: Grammar, node: Node, ruleset: string)
    requires ChildRules(g, ruleset) == []
    ensures Validate(g, node, ruleset) ==
      Bucket([], MenuWarnings(node), AttributeNotices(g, node, ruleset) + (if |node.children| > 0 then [UnknownChildren(node.name)] else []))
  {
    NoRecursion(g, node, ruleset);
    UnruledLocal(g, node, ruleset);
  }

  /** The node's own diagnostics when the ruleset has no child rules. */
  lemma UnruledLocal(g: Grammar, node: Node, ruleset: string)
    requires ChildRules(g, ruleset) == []
    ensures LocalChecks(g, node, ruleset) ==
      Bucket([], MenuWarnings(node), AttributeNotices(g, node, ruleset) + (if |node.children| > 0 then [UnknownChildren(node.name)] else []))
  {
    UnruledChildChecks(g, node, ruleset);
    LocalLayout(g, node, ruleset);
    LocalShape(AttributeNotices(g, node, ruleset), ChildChecks(g, node, ruleset), MenuWarnings(node));
  }

  /** `LocalChecks` spelled out: attribute notices, child checks, menu warnings. */
  lemma LocalLayout(g: Grammar, node: Node, ruleset: string)
    ensures LocalChecks(g, node, ruleset) ==
      Notices(AttributeNotices(g, node, ruleset)).Then(ChildChecks(g, node, ruleset)).Then(Warnings(MenuWarnings(node)))
  {
  }

  /** Without child rules, the child checks are at most the unknown-children notice. */
  lemma UnruledChildChecks(g: Grammar, node: Node, ruleset: string)
    requires ChildRules(g, ruleset) == []
    ensures ChildChecks(g, node, ruleset) == Notices(if |node.children| > 0 then [UnknownChildren(node.name)] else [])
  {
  }

  /** A node's own diagnostics: the attribute notices, then the child checks, then the menu warnings. */
  lemma LocalShape(attrs: seq<Message>, child: Bucket, warns: seq<Message>)
    ensures Notices(attrs).Then(child).Then(Warnings(warns)) ==
      Bucket(child.errors, child.warnings + warns, attrs + child.notices)
  {
    assert [] + child.errors + [] == child.errors;
    assert [] + child.warnings + warns == child.warnings + warns;
    assert attrs + child.notices + [] == attrs + child.notices;
  }

  /**
   * A ruleset with the `*` child key: no child diagnostic at all and no
   * recursion into the children.
   */
  lemma AnyChildrenAccepted(g: Grammar, node: Node, ruleset: string)
    requires AnyChildren(ChildRules(g, ruleset))
    ensures var b := Validate(g, node, ruleset);
      && b.errors == []
      && b.warnings == MenuWarnings(node)
      && b.notices == AttributeNotices(g, node, ruleset)
  {
    NoRecursion(g, node, ruleset);
    assert ChildChecks(g, node, ruleset) == NoDiagnostics;
    var attrs := AttributeNotices(g, node, ruleset);
    assert LocalChecks(g, node, ruleset) == Notices(attrs).Then(NoDiagnostics).Then(Warnings(MenuWarnings(node)));
    assert attrs + [] == attrs;
  }

  /**
   * The recursion visits a child exactly when its name is declared by some
   * key, and validates it with the last such key, prefix included.
   */
  lemma RecursionTargets(g: Grammar, node: Node, ruleset: string, c: Node, key: string)
    requires ChildRules(g, ruleset) != [] && !AnyChildren(ChildRules(g, ruleset))
    ensures (c, key) in Walk(node.children, RecursionRules(g, ruleset)) <==>
      c in node.children && exists i :: LastDeclaredAt(ChildRules(g, ruleset), c.name, i) && ChildRules(g, ruleset)[i].key == key
  {
    var entries := ChildRules(g, ruleset);
    var rules := ChildToRule(entries);
    ChildToRuleDomain(entries);
    if c.name in rules {
      ChildToRuleLastWins(entries, c.name);
      var j :| LastDeclaredAt(entries, c.name, j) && rules[c.name] == entries[j];
      forall i | LastDeclaredAt(entries, c.name, i) ensures i == j { }
    }
  }
}
