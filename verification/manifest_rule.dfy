/**
 * The manifest rule's entry point for one XML file: the root checks made
 * before the grammar walk (extension type, `method="upgrade"`, the `client`
 * of modules and templates, the items of a package), then the walk itself,
 * whose buckets are flushed as at most one report per severity.
 */
module ManifestRule {
  import opened Wrappers
  import opened XmlTree
  import opened Diagnostics
  import opened ManifestGrammar
  import opened ManifestValidator

  /** The extension types a manifest root may declare, compared strictly. */
  const ExtensionTypes: seq<string> :=
    ["component", "file", "language", "library", "module", "package", "plugin", "template"]

  /** The item types a package may list: every extension type but `package` itself. */
  const ItemTypes: seq<string> :=
    ["component", "file", "language", "library", "module", "plugin", "template"]

  /** The types that carry a `client` attribute. */
  predicate HasClient(t: string) {
    t == "module" || t == "template"
  }

  /** The `client` attribute is present and names the site or the administrator. */
  predicate ValidClient(n: Node) {
    HasAttribute(n, "client") && (AttributeValue(n, "client") == "site" || AttributeValue(n, "client") == "administrator")
  }

  /**
   * The result of `find($file)`: whether the file was taken for a manifest
   * (it parsed), and the report calls it made, in order.
   */
  datatype Outcome = Outcome(isManifest: bool, reports: seq<Report>)

  /** The `client` check of a module or template element: missing, or not one of the two values. */
  function ClientReports(n: Node): (r: seq<Report>)
    ensures |r| <= 1
    ensures r == [] <==> ValidClient(n)
    ensures forall i :: 0 <= i < |r| ==> r[i].severity == Error
  {
    if !HasAttribute(n, "client") then
      [Single(Error, MissedAttribute(n.name, "client"))]
    else
      var client := AttributeValue(n, "client");
      if client != "site" && client != "administrator" then
        [Single(Error, UnknownAttributeValue(n.name, "client", client))]
      else []
  }

  /**
   * The check of one `files/file` item of a package, chosen by its `type`
   * attribute: a plugin must name its group, a module or template gets the
   * client check, the other listable types need nothing, and any other type
   * is unknown.
   */
  function ItemReports(item: Node): seq<Report> {
    var t := AttributeValue(item, "type");
    if t == "plugin" then
      if !HasAttribute(item, "group") then [Single(Error, MissedAttribute(item.name, "group"))] else []
    else if HasClient(t) then ClientReports(item)
    else if t == "component" || t == "file" || t == "language" || t == "library" then []
    else [Single(Error, UnknownType(t))]
  }

  /**
   * A package item that draws an error: a plugin without a group, a module
   * or template without a valid client, or a type no package may list.
   */
  predicate ItemOffends(item: Node) {
    var t := AttributeValue(item, "type");
    || t !in ItemTypes
    || (t == "plugin" && !HasAttribute(item, "group"))
    || (HasClient(t) && !ValidClient(item))
  }

  /** Every item's report calls, in document order. */
  function PackageReports(items: seq<Node>): seq<Report> {
    if |items| == 0 then []
    else
      var k := |items| - 1;
      PackageReports(items[..k]) + ItemReports(items[k])
  }

  /** `$xml->files->file`: the `file` children of the first `files` child. */
  function PackageItems(root: Node): seq<Node> {
    match FirstNamed(root.children, "files")
    case None => []
    case Some(files) => AllNamed(files.children, "file")
  }

  /** The checks that depend on the root's (known) type. */
  function TypeReports(root: Node, t: string): seq<Report> {
    if HasClient(t) then ClientReports(root)
    else if t == "package" then PackageReports(PackageItems(root))
    else []
  }

  /** The warning for a root whose `method` is not exactly `upgrade`. */
  function MethodReports(root: Node): seq<Report> {
    if AttributeValue(root, "method") != "upgrade" then [Single(Warning, MissedMethodUpgrade)] else []
  }

  /**
   * `find($file)`: `xml` is the parsed file (None when it does not parse)
   * and `grammars` maps each extension type to its decoded grammar file,
   * a type without one being absent. PHP casts a root element with no
   * children, no attributes and only blank text to `false`, so `!$xml`
   * turns such a file away just like one that does not parse.
   */
  function Find(xml: Option<Node>, grammars: map<string, Grammar>): (o: Outcome)
    ensures o.isManifest <==> xml.Some? && !IsFalseLikeRoot(xml.value)
    ensures !o.isManifest ==> o.reports == []
  {
    match xml
    case None => Outcome(false, [])
    case Some(root) =>
      if IsFalseLikeRoot(root) then Outcome(false, [])
      else
        var t := AttributeValue(root, "type");
        if t !in ExtensionTypes then Outcome(true, [Single(Error, UnknownType(t))])
        else if t !in grammars then Outcome(true, [])
        else
          Outcome(true, MethodReports(root) + TypeReports(root, t) + Flush(Validate(grammars[t], root, RootRuleset)))
  }
}

/** What one manifest file's report calls are, case by case. */
module ManifestRuleProperties {
  import opened Wrappers
  import opened XmlTree
  import opened Diagnostics
  import opened ManifestGrammar
  import opened ManifestValidator
  import opened ManifestRule

  /**
   * A root whose type is not one of the eight draws one UNKNOWN_TYPE error
   * and nothing else, unless PHP reads the root as `false` and the file is
   * not taken for a manifest at all.
   */
  lemma UnknownTypeAlone(root: Node, grammars: map<string, Grammar>)
    requires AttributeValue(root, "type") !in ExtensionTypes
    ensures Find(Some(root), grammars) ==
      if IsFalseLikeRoot(root) then Outcome(false, [])
      else Outcome(true, [Single(Error, UnknownType(AttributeValue(root, "type")))])
  {
  }

  /**
   * A root with nothing but blank text, such as `<extension>` and a line
   * break, is read as `false`: the file is not a manifest and draws nothing.
   */
  lemma BlankRootNoManifest(name: string, text: string, grammars: map<string, Grammar>)
    requires forall i :: 0 <= i < |text| ==> IsBlankChar(text[i])
    ensures Find(Some(Node(name, [], [], text)), grammars) == Outcome(false, [])
  {
  }

  /** A root with a known type has an attribute, so PHP never reads it as `false`. */
  lemma KnownTypeNotFalseLike(root: Node)
    requires AttributeValue(root, "type") in ExtensionTypes
    ensures !IsFalseLikeRoot(root)
  {
    assert "" !in ExtensionTypes;
  }

  /** A known type without a grammar file stops before any other check, the method warning included. */
  lemma NoGrammarNoReports(root: Node, grammars: map<string, Grammar>)
    requires AttributeValue(root, "type") in ExtensionTypes && AttributeValue(root, "type") !in grammars
    ensures Find(Some(root), grammars) == Outcome(true, [])
  {
    KnownTypeNotFalseLike(root);
  }

  /** Positions of the package items that draw an error. */
  ghost function OffendingPositions(items: seq<Node>): set<int> {
    set i | 0 <= i < |items| && ItemOffends(items[i])
  }

  /**
   * Which report a package item draws, by its type: a plugin without a
   * group the missed-attribute error, a module or template the client
   * check's, the other listable types nothing, any other type the
   * unknown-type error naming it.
   */
  lemma ItemReportsByType(item: Node)
    ensures var t := AttributeValue(item, "type");
      var r := ItemReports(item);
      && (t == "plugin" ==>
            r == if HasAttribute(item, "group") then [] else [Single(Error, MissedAttribute(item.name, "group"))])
      && (HasClient(t) ==> r == ClientReports(item))
      && (t in ItemTypes && t != "plugin" && !HasClient(t) ==> r == [])
      && (t !in ItemTypes ==> r == [Single(Error, UnknownType(t))])
  {
  }

  /** One item draws at most one report, an error, exactly when it offends. */
  lemma ItemReportsWhenOffending(item: Node)
    ensures |ItemReports(item)| <= 1
    ensures ItemReports(item) != [] <==> ItemOffends(item)
    ensures forall i :: 0 <= i < |ItemReports(item)| ==> ItemReports(item)[i].severity == Error
  {
  }

  lemma OffendingPositionsStep(items: seq<Node>)
    requires |items| > 0
    ensures var k := |items| - 1;
      OffendingPositions(items) == OffendingPositions(items[..k]) + (if ItemOffends(items[k]) then {k} else {})
  {
    var k := |items| - 1;
    forall i | 0 <= i < k ensures items[..k][i] == items[i] { }
  }

  /** A package draws exactly one error per offending item, and no other report. */
  lemma {:induction false} PackageReportCount(items: seq<Node>)
    ensures |PackageReports(items)| == |OffendingPositions(items)|
    ensures forall i :: 0 <= i < |PackageReports(items)| ==> PackageReports(items)[i].severity == Error
  {
    if |items| > 0 {
      var k := |items| - 1;
      PackageReportCount(items[..k]);
      OffendingPositionsStep(items);
      ItemReportsWhenOffending(items[k]);
      assert k !in OffendingPositions(items[..k]);
    }
  }

  /** Some item of `items` draws exactly the report `r` under the check `f`. */
  predicate SomeItemDraws(items: seq<Node>, f: Node -> seq<Report>, r: Report) {
    exists i :: 0 <= i < |items| && f(items[i]) == [r]
  }

  lemma SomeItemDrawsStep(items: seq<Node>, f: Node -> seq<Report>, r: Report)
    requires |items| > 0
    ensures var k := |items| - 1;
      SomeItemDraws(items, f, r) <==> SomeItemDraws(items[..k], f, r) || f(items[k]) == [r]
  {
    var k := |items| - 1;
    if SomeItemDraws(items, f, r) && f(items[k]) != [r] {
      var i :| 0 <= i < |items| && f(items[i]) == [r];
      assert items[..k][i] == items[i];
    }
    if SomeItemDraws(items[..k], f, r) {
      var i :| 0 <= i < k && f(items[..k][i]) == [r];
      assert items[i] == items[..k][i];
    }
  }

  /**
   * Every report of a package is the one report of one of its items, and
   * every item's report is among them.
   */
  lemma {:induction false} PackageReportsFromItems(items: seq<Node>, r: Report)
    ensures r in PackageReports(items) <==> SomeItemDraws(items, ItemReports, r)
  {
    if |items| > 0 {
      var k := |items| - 1;
      PackageReportsFromItems(items[..k], r);
      SomeItemDrawsStep(items, ItemReports, r);
      var last := ItemReports(items[k]);
      ItemReportsWhenOffending(items[k]);
      assert PackageReports(items) == PackageReports(items[..k]) + last;
      assert r in last <==> last == [r];
    }
  }

  /** Every type-specific report is an error. */
  lemma TypeReportsAreErrors(root: Node, t: string)
    ensures forall i :: 0 <= i < |TypeReports(root, t)| ==> TypeReports(root, t)[i].severity == Error
  {
    PackageReportCount(PackageItems(root));
  }

  /** The grammar walk never flushes a root check's message. */
  lemma RootMessageNotFlushed(b: Bucket, m: Message)
    requires Classified(b)
    requires m.UnknownType? || m.MissedMethodUpgrade? || m.MissedAttribute? || m.UnknownAttributeValue?
    ensures forall i :: 0 <= i < |Flush(b)| ==> m !in Flush(b)[i].messages
  {
    var r := Flush(b);
    forall i | 0 <= i < |r| ensures m !in r[i].messages {
      assert r[i].messages == b.Of(r[i].severity);
    }
  }

  /** A known type with its grammar: the method warning, the type checks, then the flushed walk. */
  lemma FindKnown(root: Node, grammars: map<string, Grammar>)
    requires AttributeValue(root, "type") in ExtensionTypes && AttributeValue(root, "type") in grammars
    ensures var t := AttributeValue(root, "type");
      Find(Some(root), grammars).reports ==
        MethodReports(root) + TypeReports(root, t) + Flush(Validate(grammars[t], root, RootRuleset))
  {
    KnownTypeNotFalseLike(root);
  }

  /** Where a report of a known, grammar-backed manifest can come from. */
  lemma FindKnownMember(root: Node, grammars: map<string, Grammar>, r: Report)
    requires AttributeValue(root, "type") in ExtensionTypes && AttributeValue(root, "type") in grammars
    ensures var t := AttributeValue(root, "type");
      r in Find(Some(root), grammars).reports <==>
        r in MethodReports(root) || r in TypeReports(root, t) || r in Flush(Validate(grammars[t], root, RootRuleset))
  {
    FindKnown(root, grammars);
  }

  /**
   * With a known type and its grammar, the method warning is reported
   * exactly when `method` is not `upgrade`.
   */
  lemma MethodWarningIffNotUpgrade(root: Node, grammars: map<string, Grammar>)
    requires AttributeValue(root, "type") in ExtensionTypes && AttributeValue(root, "type") in grammars
    ensures Single(Warning, MissedMethodUpgrade) in Find(Some(root), grammars).reports
      <==> AttributeValue(root, "method") != "upgrade"
  {
    var t := AttributeValue(root, "type");
    var b := Validate(grammars[t], root, RootRuleset);
    var w := Single(Warning, MissedMethodUpgrade);
    FindKnownMember(root, grammars, w);
    TypeReportsAreErrors(root, t);
    RootMessageNotFlushed(b, MissedMethodUpgrade);
  }

  /**
   * A module or template root with its grammar: a missing `client` draws
   * the missed-attribute error, a wrong value the unknown-value error, and
   * a valid one neither.
   */
  lemma RootClientCheck(root: Node, grammars: map<string, Grammar>)
    requires HasClient(AttributeValue(root, "type")) && AttributeValue(root, "type") in grammars
    ensures var reports := Find(Some(root), grammars).reports;
      var missed := Single(Error, MissedAttribute(root.name, "client"));
      var unknown := Single(Error, UnknownAttributeValue(root.name, "client", AttributeValue(root, "client")));
      && (missed in reports <==> !HasAttribute(root, "client"))
      && (unknown in reports <==> HasAttribute(root, "client") && !ValidClient(root))
  {
    var t := AttributeValue(root, "type");
    var b := Validate(grammars[t], root, RootRuleset);
    var missed := Single(Error, MissedAttribute(root.name, "client"));
    var unknown := Single(Error, UnknownAttributeValue(root.name, "client", AttributeValue(root, "client")));
    FindKnown(root, grammars);
    assert TypeReports(root, t) == ClientReports(root);
    ClientReportsMembers(root);
    RootMessageNotFlushed(b, missed.messages[0]);
    RootMessageNotFlushed(b, unknown.messages[0]);
    ClientReportAmong(root, missed, Flush(b));
    ClientReportAmong(root, unknown, Flush(b));
  }

  /**
   * A root-check error that the flushed walk does not carry is among a
   * module's or template's reports exactly when its client check draws it.
   */
  lemma ClientReportAmong(root: Node, r: Report, flushed: seq<Report>)
    requires r.severity == Error && |r.messages| == 1
    requires forall i :: 0 <= i < |flushed| ==> r.messages[0] !in flushed[i].messages
    ensures r in MethodReports(root) + ClientReports(root) + flushed <==> r in ClientReports(root)
  {
    AbsentMessage(flushed, r);
    MiddleMember(r, MethodReports(root), ClientReports(root), flushed);
  }

  /** A report whose one message no report of `rs` carries is not among `rs`. */
  lemma AbsentMessage(rs: seq<Report>, r: Report)
    requires |r.messages| == 1
    requires forall i :: 0 <= i < |rs| ==> r.messages[0] !in rs[i].messages
    ensures r !in rs
  {
    assert r.messages[0] in r.messages;
    forall i | 0 <= i < |rs| ensures rs[i] != r { }
  }

  /** Membership in three concatenated lists, when the outer two lack the report. */
  lemma MiddleMember(r: Report, before: seq<Report>, middle: seq<Report>, after: seq<Report>)
    requires r !in before && r !in after
    ensures r in before + middle + after <==> r in middle
  {
  }

  /** Which of the two client errors the `client` check yields. */
  lemma ClientReportsMembers(n: Node)
    ensures Single(Error, MissedAttribute(n.name, "client")) in ClientReports(n) <==> !HasAttribute(n, "client")
    ensures Single(Error, UnknownAttributeValue(n.name, "client", AttributeValue(n, "client"))) in ClientReports(n)
      <==> HasAttribute(n, "client") && !ValidClient(n)
  {
  }
}
