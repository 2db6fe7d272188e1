/**
 * The recursive manifest walk of xmlmanifest.php (`validateXml` and its
 * `validateXmlMenu` hook), as a pure function from a node and its ruleset to
 * the errors, warnings and notices it adds to the file's bucket.
 */
module ManifestValidator {
  import opened PhpStrings
  import opened XmlTree
  import opened Diagnostics
  import opened ManifestGrammar

  // ----- Attributes -----

  /** One UNKNOWN_ATTRIBUTE notice per attribute whose name is not in `allowed`, in document order. */
  function UnlistedAttributeNotices(name: string, attrs: seq<Attribute>, allowed: seq<string>): (r: seq<Message>)
    ensures forall m :: m in r ==> m.UnknownAttribute? && m.node == name && m.attr !in allowed
    ensures forall a :: a !in allowed ==>
      multiset(r)[UnknownAttribute(name, a)] == multiset(AttributeNames(attrs))[a]
  {
    if |attrs| == 0 then []
    else
      var k := |attrs| - 1;
      var a := attrs[k].name;
      assert AttributeNames(attrs) == AttributeNames(attrs[..k]) + [a];
      UnlistedAttributeNotices(name, attrs[..k], allowed) + (if a in allowed then [] else [UnknownAttribute(name, a)])
  }

  /**
   * The attribute check of one node: with no (or an empty) attribute rule every
   * attribute is reported, a rule starting with `*` accepts everything, and
   * otherwise exactly the attributes missing from the list are reported.
   */
  function AttributeNotices(g: Grammar, node: Node, ruleset: string): (r: seq<Message>)
    ensures forall m :: m in r ==> m.UnknownAttribute? && m.node == node.name
    ensures AttributeRule(g, ruleset) == [] ==>
      forall a :: multiset(r)[UnknownAttribute(node.name, a)] == multiset(AttributeNames(node.attributes))[a]
    ensures AnyAttributes(AttributeRule(g, ruleset)) ==> r == []
    ensures var allowed := AttributeRule(g, ruleset);
      allowed != [] && !AnyAttributes(allowed) ==>
        forall a :: multiset(r)[UnknownAttribute(node.name, a)] ==
          if a in allowed then 0 else multiset(AttributeNames(node.attributes))[a]
  {
    var allowed := AttributeRule(g, ruleset);
    if |allowed| == 0 then UnlistedAttributeNotices(node.name, node.attributes, [])
    else if allowed[0] == Anything then []
    else UnlistedAttributeNotices(node.name, node.attributes, allowed)
  }

  // ----- Children -----

  /** The cardinality check for one declared child, by its mode symbol. */
  function ModeCheck(name: string, child: string, symbol: string, count: nat): Bucket {
    if symbol == Required then
      if count == 0 then Errors([MissedRequired(name, child)])
      else if count > 1 then Errors([MultipleFound(name, child)])
      else NoDiagnostics
    else if symbol == Recommended then
      if count == 0 then Notices([MissedOptional(name, child)])
      else if count > 1 then Warnings([MultipleFound(name, child)])
      else NoDiagnostics
    else NoDiagnostics
  }

  /** The cardinality checks of all declared children, in rule order. */
  function DeclaredChecks(name: string, cs: seq<Node>, entries: seq<Entry>): (b: Bucket)
    ensures forall m :: m in b.errors ==> (m.MissedRequired? || m.MultipleFound?) && m.node == name
    ensures forall m :: m in b.warnings ==> m.MultipleFound? && m.node == name
    ensures forall m :: m in b.notices ==> m.MissedOptional? && m.node == name
  {
    if |entries| == 0 then NoDiagnostics
    else
      var k := |entries| - 1;
      var el := ElementName(entries[k].key);
      DeclaredChecks(name, cs, entries[..k]).Then(ModeCheck(name, el, entries[k].symbol, CountNamed(cs, el)))
  }

  /**
   * The check of one distinct child name: an UNKNOWN_CHILD notice when no
   * rule declares it, a MULTIPLE_FOUND error when its rule is `?` and it repeats.
   */
  function NameCheck(name: string, cs: seq<Node>, c: string, rules: map<string, Entry>): Bucket {
    if c !in rules then Notices([UnknownChild(name, c)])
    else if rules[c].symbol == Optional && CountNamed(cs, c) > 1 then Errors([MultipleFound(name, c)])
    else NoDiagnostics
  }

  /** The name checks over the distinct child names, in order of first appearance. */
  function NameChecks(name: string, cs: seq<Node>, names: seq<string>, rules: map<string, Entry>): (b: Bucket)
    ensures b.warnings == []
    ensures forall m :: m in b.errors ==> m.MultipleFound? && m.node == name
    ensures forall m :: m in b.notices ==> m.UnknownChild? && m.node == name
  {
    if |names| == 0 then NoDiagnostics
    else
      var k := |names| - 1;
      NameChecks(name, cs, names[..k], rules).Then(NameCheck(name, cs, names[k], rules))
  }

  /** One EMPTY_CHILD notice per empty child, named after that child. */
  function EmptyChildNotices(cs: seq<Node>): (r: seq<Message>)
    ensures forall m :: m in r ==> m.EmptyChild?
  {
    if |cs| == 0 then []
    else
      var k := |cs| - 1;
      EmptyChildNotices(cs[..k]) + (if IsEmptyElement(cs[k]) then [EmptyChild(cs[k].name)] else [])
  }

  /** The child checks of one node. */
  function ChildChecks(g: Grammar, node: Node, ruleset: string): Bucket {
    var entries := ChildRules(g, ruleset);
    if |entries| == 0 then
      if |node.children| > 0 then Notices([UnknownChildren(node.name)]) else NoDiagnostics
    else if AnyChildren(entries) then NoDiagnostics
    else
      DeclaredChecks(node.name, node.children, entries)
        .Then(NameChecks(node.name, node.children, DistinctNames(Names(node.children)), ChildToRule(entries)))
        .Then(Notices(EmptyChildNotices(node.children)))
  }

  // ----- The menu hook -----

  /** The attributes a menu `link` attribute makes pointless. */
  const LinkOverridden: seq<string> := ["act", "controller", "layout", "sub", "task", "view"]

  /**
   * The node has an extra check: `validateXml<name>` exists, and PHP looks
   * methods up ignoring ASCII case, so any spelling of "menu" selects it.
   */
  predicate HasMenuHook(name: string) {
    Lower(name) == "menu"
  }

  function OverriddenAttributeWarnings(attrs: seq<Attribute>): (r: seq<Message>)
    ensures forall m :: m in r ==> m.MenuUnusedAttribute? && m.attr in LinkOverridden
    ensures forall a :: a in LinkOverridden ==>
      multiset(r)[MenuUnusedAttribute(a)] == multiset(AttributeNames(attrs))[a]
  {
    if |attrs| == 0 then []
    else
      var k := |attrs| - 1;
      var a := attrs[k].name;
      assert AttributeNames(attrs) == AttributeNames(attrs[..k]) + [a];
      OverriddenAttributeWarnings(attrs[..k]) + (if a in LinkOverridden then [MenuUnusedAttribute(a)] else [])
  }

  /**
   * The menu hook: a menu node with a `link` attribute gets one warning for
   * each of its attributes among act, controller, layout, sub, task and view.
   */
  function MenuWarnings(node: Node): (r: seq<Message>)
    ensures forall m :: m in r ==> m.MenuUnusedAttribute?
    ensures !(HasMenuHook(node.name) && HasAttribute(node, "link")) ==> r == []
    ensures HasMenuHook(node.name) && HasAttribute(node, "link") ==>
      forall a :: multiset(r)[MenuUnusedAttribute(a)] ==
        if a in LinkOverridden then multiset(AttributeNames(node.attributes))[a] else 0
  {
    if HasMenuHook(node.name) && HasAttribute(node, "link") then OverriddenAttributeWarnings(node.attributes)
    else []
  }

  // ----- The walk -----

  /** What one node contributes before the recursion. */
  function LocalChecks(g: Grammar, node: Node, ruleset: string): Bucket {
    Notices(AttributeNotices(g, node, ruleset))
      .Then(ChildChecks(g, node, ruleset))
      .Then(Warnings(MenuWarnings(node)))
  }

  /**
   * Every diagnostic of the walk sits in the bucket of its severity: errors
   * are missing or repeated required children, warnings are repeated
   * recommended children or overridden menu attributes, the rest are notices.
   */
  predicate Classified(b: Bucket) {
    && (forall m :: m in b.errors ==> m.MissedRequired? || m.MultipleFound?)
    && (forall m :: m in b.warnings ==> m.MultipleFound? || m.MenuUnusedAttribute?)
    && (forall m :: m in b.notices ==>
          m.UnknownAttribute? || m.UnknownChildren? || m.MissedOptional? || m.UnknownChild? || m.EmptyChild?)
  }

  /**
   * The children the recursion descends into, in document order, each with
   * the full (possibly prefixed) key of its rule as its ruleset: a child
   * with a rule is visited as often as it occurs, any other child never.
   */
  function Walk(cs: seq<Node>, rules: map<string, Entry>): (r: seq<(Node, string)>)
    ensures forall p :: p in r <==> p.0 in cs && p.0.name in rules && p.1 == rules[p.0.name].key
    ensures forall c: Node :: c.name in rules ==> multiset(r)[(c, rules[c.name].key)] == multiset(cs)[c]
    ensures |r| <= |cs|
  {
    if |cs| == 0 then []
    else
      var k := |cs| - 1;
      assert cs == cs[..k] + [cs[k]];
      Walk(cs[..k], rules) + (if cs[k].name in rules then [(cs[k], rules[cs[k].name].key)] else [])
  }

  /** `validateXml($node, $ruleset)`: the diagnostics of the node and of every child it descends into. */
  function Validate(g: Grammar, node: Node, ruleset: string): (b: Bucket)
    ensures Classified(b)
    decreases node, 1, 0
  {
    var local := LocalChecks(g, node, ruleset);
    var below := ValidateWalk(g, node, Walk(node.children, RecursionRules(g, ruleset)));
    LocalClassified(g, node, ruleset);
    ThenClassified(local, below);
    local.Then(below)
  }

  function ValidateWalk(g: Grammar, parent: Node, walk: seq<(Node, string)>): (b: Bucket)
    requires forall p :: p in walk ==> p.0 in parent.children
    ensures Classified(b)
    decreases parent, 0, |walk|
  {
    if |walk| == 0 then NoDiagnostics
    else
      assert walk[0] in walk;
      var i :| 0 <= i < |parent.children| && parent.children[i] == walk[0].0;
      assert parent.children[i] < parent;
      var first := Validate(g, walk[0].0, walk[0].1);
      var rest := ValidateWalk(g, parent, walk[1..]);
      ThenClassified(first, rest);
      first.Then(rest)
  }

  /** Joining two classified buckets keeps every message in the bucket of its kind. */
  lemma ThenClassified(a: Bucket, b: Bucket)
    requires Classified(a) && Classified(b)
    ensures Classified(a.Then(b))
  {
  }

  /** A node's own diagnostics are classified. */
  lemma LocalClassified(g: Grammar, node: Node, ruleset: string)
    ensures Classified(LocalChecks(g, node, ruleset))
  {
  }
}
