/**
 * The DTD-like grammar a manifest is checked against, as decoded from
 * `xmlmanifest/dtd_<type>.json`: child rules and attribute rules, both keyed
 * by ruleset name.
 */
module ManifestGrammar {

  /**
   * One child rule: its key (an element name, or `prefix:name` to select a
   * distinct ruleset for that element) and its mode symbol.
   */
  datatype Entry = Entry(key: string, symbol: string)

  /**
   * `nodes` maps a ruleset to its child rules in JSON order (a decoded JSON
   * object, so its keys are distinct); `attributes` maps a ruleset to its
   * list of allowed attribute names.
   */
  datatype Grammar = Grammar(nodes: map<string, seq<Entry>>, attributes: map<string, seq<string>>)

  /** Single, error when missing or repeated. */
  const Required := "!"
  /** Single, notice when missing, warning when repeated. */
  const Recommended := "="
  /** Single, error when repeated, silent when missing. */
  const Optional := "?"
  /** Child key, and first allowed attribute, that accepts anything. */
  const Anything := "*"

  /** The ruleset every manifest root is validated with. */
  const RootRuleset := "extension"

  /** `$DTDNodeRules[$ruleset]`, or the empty array when unset. */
  function ChildRules(g: Grammar, ruleset: string): seq<Entry> {
    if ruleset in g.nodes then g.nodes[ruleset] else []
  }

  /** `$DTDAttrRules[$ruleset]`, or the empty array when unset. */
  function AttributeRule(g: Grammar, ruleset: string): seq<string> {
    if ruleset in g.attributes then g.attributes[ruleset] else []
  }

  /** `isset($DTDchildRules['*'])`: the ruleset accepts arbitrary children. */
  predicate AnyChildren(entries: seq<Entry>) {
    exists i :: 0 <= i < |entries| && entries[i].key == Anything
  }

  /** `$DTDattributes[0] === '*'`: the ruleset accepts arbitrary attributes. */
  predicate AnyAttributes(allowed: seq<string>) {
    |allowed| > 0 && allowed[0] == Anything
  }

  /**
   * The element a child key stands for: the part after the first `:` when
   * there is one (`explode(':', $key, 2)`), the whole key otherwise.
   */
  function ElementName(key: string): (name: string)
    ensures ':' !in key ==> name == key
    ensures ':' in key ==>
      var p := |key| - |name| - 1;
      0 <= p && key[p] == ':' && ':' !in key[..p] && key[p + 1..] == name
  {
    if ':' !in key then key
    else if key[0] == ':' then key[1..]
    else
      assert key == [key[0]] + key[1..];
      var name := ElementName(key[1..]);
      assert key[..|key| - |name| - 1] == [key[0]] + key[1..][..|key| - |name| - 2];
      name
  }

  /** A prefixed key names the element after its prefix. */
  lemma {:induction false} ElementNameOfPrefixed(prefix: string, name: string)
    requires ':' !in prefix
    ensures ElementName(prefix + ":" + name) == name
    decreases |prefix|
  {
    var key := prefix + ":" + name;
    if |prefix| == 0 {
      assert key == [':'] + name;
    } else {
      assert key[0] == prefix[0] && key[1..] == prefix[1..] + ":" + name;
      ElementNameOfPrefixed(prefix[1..], name);
    }
  }

  /** Entry `i` is a rule for element `n`. */
  predicate DeclaredAt(entries: seq<Entry>, n: string, i: int) {
    0 <= i < |entries| && ElementName(entries[i].key) == n
  }

  /** Entry `i` is the last rule for element `n`. */
  predicate LastDeclaredAt(entries: seq<Entry>, n: string, i: int) {
    DeclaredAt(entries, n, i) && forall j :: i < j < |entries| ==> ElementName(entries[j].key) != n
  }

  /**
   * `$DTDchildToRule`: element name to the rule that governs it, filled in
   * rule order so that a later key for the same element replaces an earlier one.
   */
  function ChildToRule(entries: seq<Entry>): map<string, Entry> {
    if |entries| == 0 then map[]
    else
      var k := |entries| - 1;
      ChildToRule(entries[..k])[ElementName(entries[k].key) := entries[k]]
  }

  /** Exactly the elements some key declares are in the map. */
  lemma {:induction false} ChildToRuleDomain(entries: seq<Entry>)
    ensures forall n :: n in ChildToRule(entries) <==> exists i :: DeclaredAt(entries, n, i)
  {
    if |entries| > 0 {
      var k := |entries| - 1;
      var prefix := entries[..k];
      ChildToRuleDomain(prefix);
      forall n ensures n in ChildToRule(entries) <==> exists i :: DeclaredAt(entries, n, i) {
        if n == ElementName(entries[k].key) {
          assert DeclaredAt(entries, n, k);
        } else if n in ChildToRule(prefix) {
          var i :| DeclaredAt(prefix, n, i);
          assert DeclaredAt(entries, n, i);
        } else if exists i :: DeclaredAt(entries, n, i) {
          var i :| DeclaredAt(entries, n, i);
          assert DeclaredAt(prefix, n, i);
        }
      }
    }
  }

  /** Each element in the map is governed by the last key that declares it. */
  lemma {:induction false} ChildToRuleLastWins(entries: seq<Entry>, n: string)
    requires n in ChildToRule(entries)
    ensures exists i :: LastDeclaredAt(entries, n, i) && ChildToRule(entries)[n] == entries[i]
  {
    var k := |entries| - 1;
    var prefix := entries[..k];
    assert ChildToRule(entries) == ChildToRule(prefix)[ElementName(entries[k].key) := entries[k]];
    if n == ElementName(entries[k].key) {
      assert LastDeclaredAt(entries, n, k) && ChildToRule(entries)[n] == entries[k];
    } else {
      assert n in ChildToRule(prefix) && ChildToRule(entries)[n] == ChildToRule(prefix)[n];
      ChildToRuleLastWins(prefix, n);
      var i :| LastDeclaredAt(prefix, n, i) && ChildToRule(prefix)[n] == prefix[i];
      assert entries[i] == prefix[i];
      forall j | i < j < |entries| ensures ElementName(entries[j].key) != n {
        if j < k {
          assert entries[j] == prefix[j];
        }
      }
      assert LastDeclaredAt(entries, n, i) && ChildToRule(entries)[n] == entries[i];
    }
  }

  /**
   * The name-to-rule map the recursion uses: empty when the ruleset has no
   * child rules or accepts arbitrary children.
   */
  function RecursionRules(g: Grammar, ruleset: string): (r: map<string, Entry>)
    ensures ChildRules(g, ruleset) == [] || AnyChildren(ChildRules(g, ruleset)) ==> r == map[]
  {
    var entries := ChildRules(g, ruleset);
    if |entries| == 0 || AnyChildren(entries) then map[] else ChildToRule(entries)
  }
}
