/**
 * The view of a parsed manifest that the rules read through SimpleXML:
 * element name, attributes in document order, element children in document
 * order, and the element's own text (what a `(string)` cast yields).
 */
module XmlTree {
  import opened Wrappers

  datatype Attribute = Attribute(name: string, value: string)

  datatype Node = Node(name: string, attributes: seq<Attribute>, children: seq<Node>, text: string)

  function AttributeNames(attrs: seq<Attribute>): seq<string> {
    seq(|attrs|, i requires 0 <= i < |attrs| => attrs[i].name)
  }

  /** `isset($node['a'])`. */
  predicate HasAttribute(n: Node, a: string) {
    a in AttributeNames(n.attributes)
  }

  /** `(string) $node['a']`: the attribute's value, or "" when it is absent. */
  function AttributeValue(n: Node, a: string): (v: string)
    ensures !HasAttribute(n, a) ==> v == ""
    ensures HasAttribute(n, a) ==>
      exists i :: 0 <= i < |n.attributes| && n.attributes[i] == Attribute(a, v)
  {
    Lookup(n.attributes, a)
  }

  function Lookup(attrs: seq<Attribute>, a: string): (v: string)
    ensures a !in AttributeNames(attrs) ==> v == ""
    ensures a in AttributeNames(attrs) ==>
      exists i :: 0 <= i < |attrs| && attrs[i] == Attribute(a, v)
  {
    if |attrs| == 0 then ""
    else if attrs[0].name == a then
      assert AttributeNames(attrs)[0] == a;
      attrs[0].value
    else
      assert AttributeNames(attrs) == [attrs[0].name] + AttributeNames(attrs[1..]);
      var v := Lookup(attrs[1..], a);
      assert a in AttributeNames(attrs[1..]) ==> exists i :: 0 <= i < |attrs| && attrs[i] == Attribute(a, v) by {
        if a in AttributeNames(attrs[1..]) {
          var j :| 0 <= j < |attrs[1..]| && attrs[1..][j] == Attribute(a, v);
          assert attrs[j + 1] == Attribute(a, v);
        }
      }
      v
  }

  function Names(cs: seq<Node>): seq<string> {
    seq(|cs|, i requires 0 <= i < |cs| => cs[i].name)
  }

  /** `$node->$n->count()`: how many children are named `n`. */
  function CountNamed(cs: seq<Node>, n: string): nat {
    if |cs| == 0 then 0
    else CountNamed(cs[..|cs| - 1], n) + (if cs[|cs| - 1].name == n then 1 else 0)
  }

  /** The positions of the children named `n`. */
  ghost function PositionsNamed(cs: seq<Node>, n: string): set<int> {
    set i | 0 <= i < |cs| && cs[i].name == n
  }

  /** The count is the number of positions holding a child of that name. */
  lemma {:induction false} CountNamedIsPositions(cs: seq<Node>, n: string)
    ensures CountNamed(cs, n) == |PositionsNamed(cs, n)|
  {
    if |cs| > 0 {
      var k := |cs| - 1;
      CountNamedIsPositions(cs[..k], n);
      var before := PositionsNamed(cs[..k], n);
      if cs[k].name == n {
        assert PositionsNamed(cs, n) == before + {k};
      } else {
        assert PositionsNamed(cs, n) == before;
      }
    }
  }

  /** A name is counted at least once exactly when some child carries it. */
  lemma {:induction false} CountNamedPositive(cs: seq<Node>, n: string)
    ensures CountNamed(cs, n) > 0 <==> n in Names(cs)
  {
    if |cs| > 0 {
      var k := |cs| - 1;
      CountNamedPositive(cs[..k], n);
      assert Names(cs) == Names(cs[..k]) + [cs[k].name];
    }
  }

  /**
   * A child SimpleXML casts to nothing: no element children, no attributes
   * and an empty text.
   */
  predicate IsEmptyElement(c: Node) {
    |c.children| == 0 && |c.attributes| == 0 && c.text == ""
  }

  /** A character libxml counts as blank: space, tab, line feed or carriage return. */
  predicate IsBlankChar(c: char) {
    c == ' ' || c == '\t' || c == '\n' || c == '\r'
  }

  /**
   * A root element SimpleXML's bool cast reads as `false`: no attributes, no
   * element children, and a text of blank characters only, since the cast
   * skips a text node that is all blanks.
   */
  predicate IsFalseLikeRoot(n: Node) {
    |n.children| == 0 && |n.attributes| == 0 && forall i :: 0 <= i < |n.text| ==> IsBlankChar(n.text[i])
  }

  /** Position `i` holds the first child named `n`. */
  predicate FirstNamedAt(cs: seq<Node>, n: string, i: int) {
    0 <= i < |cs| && cs[i].name == n && forall j :: 0 <= j < i ==> cs[j].name != n
  }

  /** Passing over a first child of another name moves the first position by one. */
  lemma FirstNamedShift(cs: seq<Node>, n: string, i: int)
    requires |cs| > 0 && cs[0].name != n && FirstNamedAt(cs[1..], n, i)
    ensures FirstNamedAt(cs, n, i + 1) && cs[i + 1] == cs[1..][i]
  {
    forall j | 0 <= j < i + 1 ensures cs[j].name != n {
      if j > 0 { assert cs[j] == cs[1..][j - 1]; }
    }
  }

  /** `$node->n` used as a single element: the first child named `n`. */
  function FirstNamed(cs: seq<Node>, n: string): (r: Option<Node>)
    ensures r.None? <==> n !in Names(cs)
    ensures r.Some? ==> exists i :: FirstNamedAt(cs, n, i) && cs[i] == r.value
  {
    if |cs| == 0 then None
    else if cs[0].name == n then
      assert Names(cs)[0] == n;
      Some(cs[0])
    else
      assert Names(cs) == [cs[0].name] + Names(cs[1..]);
      var r := FirstNamed(cs[1..], n);
      assert r.Some? ==> exists i :: FirstNamedAt(cs, n, i) && cs[i] == r.value by {
        if r.Some? {
          var i :| FirstNamedAt(cs[1..], n, i) && cs[1..][i] == r.value;
          FirstNamedShift(cs, n, i);
        }
      }
      r
  }

  /**
   * `foreach ($node->n as ...)`: the children named `n`, each as often as
   * it occurs among the children, and nothing else.
   */
  function AllNamed(cs: seq<Node>, n: string): (r: seq<Node>)
    ensures forall c :: c in r ==> c in cs && c.name == n
    ensures forall c: Node :: c.name == n ==> multiset(r)[c] == multiset(cs)[c]
    ensures |r| == CountNamed(cs, n)
  {
    if |cs| == 0 then []
    else
      var k := |cs| - 1;
      assert cs == cs[..k] + [cs[k]];
      AllNamed(cs[..k], n) + (if cs[k].name == n then [cs[k]] else [])
  }

  /**
   * The distinct names of `names` in order of first appearance, as
   * `array_keys` of the name-keyed array built at xmlmanifest.php:353-360.
   */
  function DistinctNames(names: seq<string>): (r: seq<string>)
    ensures forall x :: x in r <==> x in names
    ensures forall i, j :: 0 <= i < j < |r| ==> r[i] != r[j]
  {
    if |names| == 0 then []
    else
      var seen := DistinctNames(names[..|names| - 1]);
      var last := names[|names| - 1];
      assert names == names[..|names| - 1] + [last];
      if last in seen then seen else seen + [last]
  }
}
