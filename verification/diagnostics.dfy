/**
 * Diagnostics as structured values: the language-string key a rule reports
 * and its arguments, in place of the translated text.
 */
module Diagnostics {

  datatype Severity = Error | Warning | Notice {
    /** The order in which a flushed file reports its buckets. */
    function Rank(): nat {
      match this
      case Error => 0
      case Warning => 1
      case Notice => 2
    }
  }

  /** One COM_JEDCHECKER_* message with its `sprintf` arguments. */
  datatype Message =
    | UnknownType(extensionType: string)
    | MissedMethodUpgrade
    | MissedAttribute(node: string, attr: string)
    | UnknownAttributeValue(node: string, attr: string, value: string)
    | UnknownAttribute(node: string, attr: string)
    | UnknownChildren(node: string)
    | MissedRequired(node: string, child: string)
    | MultipleFound(node: string, child: string)
    | MissedOptional(node: string, child: string)
    | UnknownChild(node: string, child: string)
    | EmptyChild(child: string)
    | MenuUnusedAttribute(attr: string)
    | JexecNotFound

  /** The per-file errors, warnings and notices collected while validating a manifest. */
  datatype Bucket = Bucket(errors: seq<Message>, warnings: seq<Message>, notices: seq<Message>) {

    function Of(s: Severity): seq<Message> {
      match s
      case Error => errors
      case Warning => warnings
      case Notice => notices
    }

    /** This bucket followed by `other`, severity by severity. */
    function Then(other: Bucket): Bucket {
      Bucket(errors + other.errors, warnings + other.warnings, notices + other.notices)
    }
  }

  const NoDiagnostics := Bucket([], [], [])

  function Errors(ms: seq<Message>): Bucket { Bucket(ms, [], []) }
  function Warnings(ms: seq<Message>): Bucket { Bucket([], ms, []) }
  function Notices(ms: seq<Message>): Bucket { Bucket([], [], ms) }

  /**
   * One call to the report sink (`addError`, `addWarning` or `addNotice`);
   * the messages of a call are the parts its text joins with `<br />`.
   */
  datatype Report = Report(severity: Severity, messages: seq<Message>)

  /** A report carrying a single message. */
  function Single(s: Severity, m: Message): Report { Report(s, [m]) }

  /**
   * Hands a bucket to the sink: each non-empty severity becomes exactly one
   * call carrying all of its messages, errors first, then warnings, then notices.
   */
  function Flush(b: Bucket): (r: seq<Report>)
    ensures |r| <= 3
    ensures forall i, j :: 0 <= i < j < |r| ==> r[i].severity.Rank() < r[j].severity.Rank()
    ensures forall i :: 0 <= i < |r| ==> r[i].messages == b.Of(r[i].severity) && r[i].messages != []
    ensures b.errors != [] ==> Report(Error, b.errors) in r
    ensures b.warnings != [] ==> Report(Warning, b.warnings) in r
    ensures b.notices != [] ==> Report(Notice, b.notices) in r
  {
    var e := Report(Error, b.errors);
    var w := Report(Warning, b.warnings);
    var n := Report(Notice, b.notices);
    if b.errors == [] then
      if b.warnings == [] then
        if b.notices == [] then [] else [n]
      else
        if b.notices == [] then [w] else [w, n]
    else
      if b.warnings == [] then
        if b.notices == [] then [e] else [e, n]
      else
        if b.notices == [] then [e, w] else [e, w, n]
  }
}
