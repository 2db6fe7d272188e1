# JED Checker: manifest and `_JEXEC` rules in Dafny

A model of two rules of the Joomla Extensions Directory checker:

- **MANIFEST** (`xmlmanifest.php`). It takes an extension's XML manifest and first checks the root:
  - that the `type` is known;
  - the `method="upgrade"` warning;
  - the `client` of modules and templates;
  - the `group` or `client` of each item in a package.

  It then walks the manifest against the DTD-like grammar of that type. Each child rule has a mode:
  - `!` is required;
  - `=` is recommended;
  - `?` is optional;
  - `*` accepts any number.

  The walk also reports unknown attributes, unknown children and empty elements, and runs the `menu` hook. Errors, warnings and notices go into per-severity buckets. Each non-empty bucket is flushed as a single report.
- **PH2 / `_JEXEC`** (`jexec.php`). It scans each PHP file for a guard line: the first `defined` (any case) before the first occurrence of one of the configured constants, which in turn comes before the first `die` (any case). A file with no code line needs no guard. A file that only declares a class is exempt. Every other file without a guard draws one error.

## Module layout

| module | what it holds |
|---|---|
| `Wrappers` | `Option` |
| `PhpStrings` | The PHP 8 string built-ins the rules call (`strpos`, `stripos`, `trim`, `explode`, `implode`) and the ASCII case folding that `stripos` and PHP's method lookup apply |
| `XmlTree` | The SimpleXML view of a manifest: a node's name, attributes, element children and own text |
| `Diagnostics` | Messages (the language key and its arguments), the three buckets, report calls and the flush |
| `ManifestGrammar` | The decoded `dtd_<type>.json`: child rules and attribute rules per ruleset, plus the element-to-rule map |
| `ManifestValidator` | `validateXml` and `validateXmlMenu` as a pure function from a node and its ruleset to a bucket |
| `ValidatorProperties` | What the walk promises for one node |
| `ManifestRule` | `find`, the root checks and the flush |
| `ManifestRuleProperties` | What one manifest's report calls are, case by case |
| `JexecRule` | The guard scan `find`, `check`, and what the scan promises |

## Model

All paths are under `administrator/components/com_jedchecker/libraries/rules/`.

| member | source | states |
|---|---|---|
| `PhpStrings.Lower` | administrator/components/com_jedchecker/libraries/rules/jexec.php:103 | The ASCII folding that `stripos` applies keeps the length. Each upper-case letter A–Z becomes the lower-case letter at the same place in the alphabet, so no upper-case letter is left. Every other character stays where it was. |
| `PhpStrings.LowerKeepsLowerCase` | administrator/components/com_jedchecker/libraries/rules/jexec.php:103-113 | Folding a string with no upper-case letter gives it back unchanged. |
| `PhpStrings.LowerIdempotent` | administrator/components/com_jedchecker/libraries/rules/jexec.php:103-113 | Folding twice is the same as folding once. |
| `PhpStrings.IndexOfFirst` | administrator/components/com_jedchecker/libraries/rules/jexec.php:127-133 | `strpos` returns a position where the needle occurs, with no occurrence before it. It returns `false` only when the needle occurs nowhere. |
| `PhpStrings.IndexOfAt` | administrator/components/com_jedchecker/libraries/rules/jexec.php:127 | The converse: the first occurrence of the needle is exactly what `strpos` returns. |
| `PhpStrings.IndexOfIgnoringCaseFirst` | administrator/components/com_jedchecker/libraries/rules/jexec.php:103-119 | `stripos` returns the first occurrence once both strings are lower-cased, and `false` only when there is none. |
| `PhpStrings.TrimStartSuffix` | administrator/components/com_jedchecker/libraries/rules/jexec.php:90 | Trimming the front keeps a suffix that starts with a kept character. Everything it drops is one of the six trim characters. |
| `PhpStrings.TrimEndPrefix` | administrator/components/com_jedchecker/libraries/rules/jexec.php:90 | Trimming the end keeps a prefix that ends with a kept character. Everything it drops is a trim character. |
| `PhpStrings.TrimMiddle` | administrator/components/com_jedchecker/libraries/rules/jexec.php:90 | `trim` keeps a contiguous slice whose first and last characters are not trim characters. Everything cut from either side is a trim character. |
| `PhpStrings.SplitPieces` | administrator/components/com_jedchecker/libraries/rules/jexec.php:84 | `explode` returns at least one piece. No piece contains the delimiter. Joining the pieces with the delimiter gives back the input. |
| `PhpStrings.SplitJoin` | administrator/components/com_jedchecker/libraries/rules/jexec.php:84 | Exploding the join of at least one delimiter-free piece gives back those pieces. |
| `XmlTree.AttributeValue` | administrator/components/com_jedchecker/libraries/rules/xmlmanifest.php:142 | Casting an absent attribute to a string gives `""`. A present attribute gives the value of one of the node's attributes with that name. |
| `XmlTree.CountNamedIsPositions` | administrator/components/com_jedchecker/libraries/rules/xmlmanifest.php:316 | `$node->$child->count()` equals the number of child positions that hold an element of that name. |
| `XmlTree.CountNamedPositive` | administrator/components/com_jedchecker/libraries/rules/xmlmanifest.php:316 | The count is positive exactly when some child has that name. |
| `XmlTree.FirstNamed` | administrator/components/com_jedchecker/libraries/rules/xmlmanifest.php:184 | `$xml->files` is absent exactly when no child is named `files`. Otherwise it is the first child with that name. |
| `XmlTree.AllNamed` | administrator/components/com_jedchecker/libraries/rules/xmlmanifest.php:184 | Iterating `->file` yields the children named `file` and nothing else. Each of them appears as often as it does among the children, and the total is the count. |
| `XmlTree.DistinctNames` | administrator/components/com_jedchecker/libraries/rules/xmlmanifest.php:353-360 | The collected child names are the same set as the names present, and they are pairwise different. |
| `Diagnostics.Flush` | administrator/components/com_jedchecker/libraries/rules/xmlmanifest.php:231-244 | Makes at most three report calls, in the order error, warning, notice. Each call carries its whole bucket, and no call is empty. Every non-empty bucket is reported. |
| `ManifestGrammar.ElementName` | administrator/components/com_jedchecker/libraries/rules/xmlmanifest.php:305-311 | A key without `:` names itself. Otherwise the element is whatever follows the first `:`. |
| `ManifestGrammar.ElementNameOfPrefixed` | administrator/components/com_jedchecker/libraries/rules/xmlmanifest.php:307-311 | For a colon-free prefix, `prefix:name` names `name`, even when `name` itself contains colons. |
| `ManifestGrammar.ChildToRuleDomain` | administrator/components/com_jedchecker/libraries/rules/xmlmanifest.php:303-314 | The element-to-rule map contains exactly the elements that some key declares. |
| `ManifestGrammar.ChildToRuleLastWins` | administrator/components/com_jedchecker/libraries/rules/xmlmanifest.php:313-314 | Each mapped element is governed by the last key that declares it. |
| `ManifestGrammar.RecursionRules` | administrator/components/com_jedchecker/libraries/rules/xmlmanifest.php:287-300 | With no child rules, or with the `*` key, the map stays empty, so nothing is recursed into. |
| `ManifestValidator.UnlistedAttributeNotices` | administrator/components/com_jedchecker/libraries/rules/xmlmanifest.php:274-283 | Each attribute not on the list gets one notice per occurrence. Listed attributes get none, and no other message is produced. |
| `ManifestValidator.AttributeNotices` | administrator/components/com_jedchecker/libraries/rules/xmlmanifest.php:262-284 | With no attribute rule, every attribute is reported. A rule starting with `*` reports nothing. Any other rule reports exactly the attributes missing from it, once per occurrence. |
| `ManifestValidator.DeclaredChecks` | administrator/components/com_jedchecker/libraries/rules/xmlmanifest.php:303-347 | The declared-rule pass produces errors only for missing or repeated children, warnings only for repeated ones, and notices only for missing ones. Every message is about this node. |
| `ManifestValidator.NameChecks` | administrator/components/com_jedchecker/libraries/rules/xmlmanifest.php:362-377 | The name scan never warns. Its errors are repeat errors and its notices are unknown-child notices, all about this node. |
| `ManifestValidator.EmptyChildNotices` | administrator/components/com_jedchecker/libraries/rules/xmlmanifest.php:380-386 | The empty-element pass produces only empty-child notices. |
| `ManifestValidator.OverriddenAttributeWarnings` | administrator/components/com_jedchecker/libraries/rules/xmlmanifest.php:420-430 | Each of act, controller, layout, sub, task and view gets one warning per occurrence. No other attribute is warned about. |
| `ManifestValidator.MenuWarnings` | administrator/components/com_jedchecker/libraries/rules/xmlmanifest.php:389-395 | The hook runs only for an element named `menu` (in any case) that has a `link`. It then warns exactly about the overridden attributes. |
| `ManifestValidator.Walk` | administrator/components/com_jedchecker/libraries/rules/xmlmanifest.php:397-406 | The recursion visits exactly the children whose name has a rule, each as often as it occurs among the children, and validates each with that rule's full key. |
| `ManifestValidator.Validate` | administrator/components/com_jedchecker/libraries/rules/xmlmanifest.php:256-407 | Over the whole subtree:<br>• errors are missing or repeated children;<br>• warnings are repeated recommended children or overridden menu attributes;<br>• notices are unknown attributes or children, missing recommended children, or empty elements. |
| `ManifestValidator.ValidateWalk` | administrator/components/com_jedchecker/libraries/rules/xmlmanifest.php:398-406 | Validating the visited children keeps every message in the bucket of its kind. |
| `ValidatorProperties.DeclaredTallyAll` | administrator/components/com_jedchecker/libraries/rules/xmlmanifest.php:303-347 | For any keys, the declared pass reports about an element the mode table's promise for its count, summed over every key naming it. So two keys for one element report twice. |
| `ValidatorProperties.DeclaredSumDistinct` | administrator/components/com_jedchecker/libraries/rules/xmlmanifest.php:303-347 | When keys name distinct elements, that sum is the promise of the one rule governing the element, or nothing for an undeclared element. |
| `ValidatorProperties.DeclaredTally` | administrator/components/com_jedchecker/libraries/rules/xmlmanifest.php:303-347 | When keys name distinct elements, the declared pass reports about an element exactly what the mode table gives for its governing rule and its count. An undeclared element gets nothing. |
| `ValidatorProperties.NameTally` | administrator/components/com_jedchecker/libraries/rules/xmlmanifest.php:362-377 | Over distinct names:<br>• a present name without a rule gets exactly one unknown-child notice;<br>• a present `?` child that repeats gets exactly one error;<br>• all other names get nothing. |
| `ValidatorProperties.NameTallyByOccurrence` | administrator/components/com_jedchecker/libraries/rules/xmlmanifest.php:362-377 | The scan reports about an element once per time the element appears in the scanned name list. |
| `ValidatorProperties.LocalTally` | administrator/components/com_jedchecker/libraries/rules/xmlmanifest.php:262-395 | A node's cardinality diagnostics about an element come only from the declared pass and the name scan. Attribute notices, empty-child notices and menu warnings add none. |
| `ValidatorProperties.GoverningRule` | administrator/components/com_jedchecker/libraries/rules/xmlmanifest.php:313-314 | When keys name distinct elements, each key is the rule that governs its element. |
| `ValidatorProperties.CardinalityAll` | administrator/components/com_jedchecker/libraries/rules/xmlmanifest.php:318-375 | For any child rules without a wildcard, a node's cardinality diagnostics about an element are the declared sum plus one repeat error when the element occurs more than once and its last key is `?`. |
| `ValidatorProperties.CardinalityByMode` | administrator/components/com_jedchecker/libraries/rules/xmlmanifest.php:318-375 | When keys name distinct elements, per declared child, by mode:<br>• `!`: one error if missing, one if repeated;<br>• `=`: one notice if missing, one warning if repeated;<br>• `?`: one error if repeated, nothing if missing;<br>• any other mode: nothing.<br>For keys that share an element, `CardinalityAll` gives the general sum. |
| `ValidatorProperties.UnknownChildOnce` | administrator/components/com_jedchecker/libraries/rules/xmlmanifest.php:353-368 | With child rules and no `*` key, a child name that no key declares gets exactly one unknown-child notice, however often it occurs. A declared or absent name gets none. |
| `ValidatorProperties.EmptyChildCount` | administrator/components/com_jedchecker/libraries/rules/xmlmanifest.php:380-386 | The number of empty-child notices for a name equals the number of empty children with that name. |
| `ValidatorProperties.EmptyChildPerOccurrence` | administrator/components/com_jedchecker/libraries/rules/xmlmanifest.php:379-386 | When child rules are present with no wildcard, the node gets exactly one empty-child notice per empty child occurrence. |
| `ValidatorProperties.WalkNone` | administrator/components/com_jedchecker/libraries/rules/xmlmanifest.php:402 | With an empty element-to-rule map, the recursion visits nothing. |
| `ValidatorProperties.NoRecursion` | administrator/components/com_jedchecker/libraries/rules/xmlmanifest.php:397-406 | Without a mapping, a node's diagnostics are only its own. |
| `ValidatorProperties.UnruledChildren` | administrator/components/com_jedchecker/libraries/rules/xmlmanifest.php:292-299 | With no child rules:<br>• there are no errors;<br>• the warnings are the menu warnings;<br>• the notices are the attribute notices, plus one unknown-children notice exactly when the node has element children. |
| `ValidatorProperties.AnyChildrenAccepted` | administrator/components/com_jedchecker/libraries/rules/xmlmanifest.php:300 | With the `*` key, no child diagnostic is produced and the children are not recursed into. |
| `ValidatorProperties.RecursionTargets` | administrator/components/com_jedchecker/libraries/rules/xmlmanifest.php:397-406 | With child rules and no `*` key, the walk visits a child exactly when some key declares its name, and uses the key of the last such rule. |
| `ManifestRule.ClientReports` | administrator/components/com_jedchecker/libraries/rules/xmlmanifest.php:170-179 | There is at most one report, always an error. It is absent exactly when `client` is present and is `site` or `administrator`. |
| `ManifestRule.Find` | administrator/components/com_jedchecker/libraries/rules/xmlmanifest.php:132-139 | A file counts as a manifest exactly when it parses and PHP does not read its root as false. A root is read as false when it has no attributes, no element children and only blank text (spaces, tabs, line breaks). A file that does not count draws no report. |
| `ManifestRuleProperties.UnknownTypeAlone` | administrator/components/com_jedchecker/libraries/rules/xmlmanifest.php:141-149 | A root that PHP reads as true and whose type is outside the eight known types gives exactly one unknown-type error and nothing else. A root read as false is not a manifest and gets nothing. |
| `ManifestRuleProperties.BlankRootNoManifest` | administrator/components/com_jedchecker/libraries/rules/xmlmanifest.php:132-139 | A root with no attributes, no children and only blank text, such as `<extension>` followed by a line break, is not a manifest and draws no report. |
| `ManifestRuleProperties.KnownTypeNotFalseLike` | administrator/components/com_jedchecker/libraries/rules/xmlmanifest.php:136-144 | A root carrying a known `type` is never read as false, so the type check is always reached for it. |
| `ManifestRuleProperties.NoGrammarNoReports` | administrator/components/com_jedchecker/libraries/rules/xmlmanifest.php:151-157 | A known type without a grammar file is reported on no further, not even with the method warning. |
| `ManifestRuleProperties.ItemReportsWhenOffending` | administrator/components/com_jedchecker/libraries/rules/xmlmanifest.php:186-217 | A package item gives at most one report, always an error. It gives one exactly when it is:<br>• a plugin without `group`;<br>• a module or template without a valid `client`; or<br>• a type a package cannot list. |
| `ManifestRuleProperties.ItemReportsByType` | administrator/components/com_jedchecker/libraries/rules/xmlmanifest.php:186-217 | Which error a package item draws, by type:<br>• a plugin: the missed-`group` error, or nothing when `group` is present;<br>• a module or template: its client check;<br>• another listable type: nothing;<br>• any other type: the unknown-type error carrying that type. |
| `ManifestRuleProperties.PackageReportsFromItems` | administrator/components/com_jedchecker/libraries/rules/xmlmanifest.php:184-218 | A report belongs to a package's reports exactly when some item draws that report as its only one. |
| `ManifestRuleProperties.PackageReportCount` | administrator/components/com_jedchecker/libraries/rules/xmlmanifest.php:182-218 | A package gives exactly one error per offending item, and nothing else. |
| `ManifestRuleProperties.TypeReportsAreErrors` | administrator/components/com_jedchecker/libraries/rules/xmlmanifest.php:165-219 | Every type-specific check reports an error. |
| `ManifestRuleProperties.RootMessageNotFlushed` | administrator/components/com_jedchecker/libraries/rules/xmlmanifest.php:224-244 | No report of the flushed walk carries one of the root checks' messages, among any of its messages. |
| `ManifestRuleProperties.MethodWarningIffNotUpgrade` | administrator/components/com_jedchecker/libraries/rules/xmlmanifest.php:159-163 | For a known type with a grammar, the method warning is reported exactly when `method` is not exactly `upgrade`. |
| `ManifestRuleProperties.RootClientCheck` | administrator/components/com_jedchecker/libraries/rules/xmlmanifest.php:165-180 | For a module or template root:<br>• a missing `client` draws the missed-attribute error;<br>• a wrong value draws the unknown-value error carrying that value;<br>• a valid one draws neither. |
| `JexecRule.ConstantsClean` | administrator/components/com_jedchecker/libraries/rules/jexec.php:84-124 | Each constant is comma-free, has no trim character at either end, and is a slice of the matching piece of the setting. |
| `JexecRule.ConstantsRoundTrip` | administrator/components/com_jedchecker/libraries/rules/jexec.php:84-124 | Joining comma-free, already trimmed names with commas and reading the setting back gives those names. |
| `JexecRule.ScanLine` | administrator/components/com_jedchecker/libraries/rules/jexec.php:102-142 | A line is a hit exactly when some trimmed piece sits strictly between the first `defined` and the first `die`. |
| `JexecRule.Find` | administrator/components/com_jedchecker/libraries/rules/jexec.php:78-148 | A file is accepted exactly when some line that is not skipped is a guard line for some constant, or when no line is code. |
| `JexecRule.Check` | administrator/components/com_jedchecker/libraries/rules/jexec.php:54-69 | A file gets one not-found error exactly when it has no guard and is not a bare class declaration. The errors come in file order and nothing else is reported. |
| `JexecRule.WordsAreLowerCase` | administrator/components/com_jedchecker/libraries/rules/jexec.php:103-113 | `stripos` looks for `defined` and `die` as written, because both are already lower case. |
| `JexecRule.EmptyConstantNeverGuards` | administrator/components/com_jedchecker/libraries/rules/jexec.php:124-136 | An empty constant, such as one from a trailing comma, never guards a line: it is found at 0, which cannot come after `defined`. |
| `JexecRule.MissingWordNeverGuards` | administrator/components/com_jedchecker/libraries/rules/jexec.php:102-119 | A line with no `defined`, or no `die`, in any case is not a guard line for any constant. |
| `JexecRule.DieBeforeConstantNeverGuards` | administrator/components/com_jedchecker/libraries/rules/jexec.php:136 | If a `die` comes at or before every occurrence of the constant, the line does not guard with it. |
| `JexecRule.ConstantBeforeDefinedNeverGuards` | administrator/components/com_jedchecker/libraries/rules/jexec.php:136 | An occurrence of the constant at or before every `defined` means the line does not guard with it. Only the first occurrence counts. |
| `JexecRule.SkippedLineIrrelevant` | administrator/components/com_jedchecker/libraries/rules/jexec.php:90-95 | Inserting a blank, `<?php` or `?>` line anywhere leaves the verdict unchanged. |

## Notes on the model

- **`=` mode.** The class comment (xmlmanifest.php:80-83) says a missing `=` child is a warning. The code (xmlmanifest.php:335-339) adds a notice. The model follows the code.
- **Repeated `?` child.** The error comes from the name scan, which reads the mode of the last key that declares the element (xmlmanifest.php:371). The `?` case is not handled in the `switch`.
- **Menu hook.** PHP looks up method names ignoring case. So `validateXml<name>` selects `validateXmlMenu` for any spelling of `menu` (`HasMenuHook`).
- **`$xml->files->file`.** This iterates the `file` children of the first `files` child only.
- **String functions.** They follow PHP 8:
  - an empty needle is found at position 0;
  - `stripos` folds ASCII only.
- **False-like root.** SimpleXML's bool cast reads a root with no attributes, no element children and only blank text as false; it skips a text node made only of spaces, tabs and line breaks. So `<extension/>` and `<extension>` followed by a line break are rejected by the parse check (xmlmanifest.php:136). They are not manifests at all, rather than drawing an unknown-type error. The child test for empty elements (xmlmanifest.php:382) is different: it compares the text with `''`, so a blank child is not empty there (`IsEmptyElement`).
- **Mode comparison.** Mode symbols are compared as strings. Every `case` of the switch is a non-numeric string, so PHP's loose comparison behaves like equality here.

## Left out

- XML parsing (`simplexml_load_file`): the manifest is given as an optional parsed tree, with `None` for a file that fails to parse. Namespaced children, text split around child elements, and comment, CDATA and processing-instruction nodes are not modelled. In particular, the bool cast counts a comment child, so PHP reads a root whose only children are comments as true, while the model, which drops comments, reads it as false.
- JSON decoding of the grammar file: the grammar is given decoded. Only string mode symbols and string attribute names are modelled. An undecodable file, which PHP treats as an empty grammar, is represented by a grammar with no rules.
- File enumeration (`findManifests`, `JFolder::files`) and reading the parameters: the files and the `constants` setting are inputs.
- A PHP file that cannot be read: `(array) false` gives a single `false` line, which the scan treats as blank, so `find` returns true. The model starts from the file's lines.
- `is_class_only_declaration`: its token analysis is not part of this model. Each file carries its result as a boolean.
- Message text: `JText` translation and joining a bucket with `<br />`. A report carries the structured messages instead.
- `ManifestRule.Find`: its own contract states only the manifest/non-manifest split. What it reports is stated by the `ManifestRuleProperties` lemmas: `UnknownTypeAlone`, `NoGrammarNoReports`, `MethodWarningIffNotUpgrade`, `RootClientCheck`, `PackageReportCount` and `PackageReportsFromItems`.
- `encoding.php` and the upload view template are not part of this model.
