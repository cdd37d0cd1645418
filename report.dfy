/** The write-once AI report kept on the user row. */
module Report {
  import opened Wrappers

  /** The columns of a User row the report guard reads and writes. Both are
      nullable. */
  datatype User = User(condition: Option<string>, aiReport: Option<string>)

  /** What the generative service does with the prompt: reply with some text,
      or raise an exception whose message is `error`. */
  datatype Generation = Generated(text: string) | Failed(error: string)

  const ErrorPrefix: string := "Sorry, there was an error generating the report. Please try again later. Error: "

  /** Python truthiness of a nullable string column: neither None nor "". */
  function Truthy(s: Option<string>): (b: bool)
    ensures !b <==> s == None || s == Some("")
  {
    s.Some? && s.value != []
  }

  /** The text stored as the report: the reply itself, or the error message.
      It is empty only when the service replied with empty text. */
  function ReportText(g: Generation): (r: string)
    ensures r != [] <==> g.Failed? || g.text != []
    ensures g.Generated? ==> r == g.text
    ensures g.Failed? ==> ErrorPrefix <= r
  {
    match g
    case Generated(t) => t
    case Failed(e) => ErrorPrefix + e
  }

  /** The user row after generate_report. */
  function ReportAfter(u: User, g: Generation): (r: User)
    ensures r.condition == u.condition
    ensures r != u ==> !Truthy(u.aiReport) && Truthy(u.condition)
    ensures Truthy(u.aiReport) || !Truthy(u.condition) ==> r == u
    ensures !Truthy(u.aiReport) && Truthy(u.condition) ==> r.aiReport == Some(ReportText(g))
  {
    if !Truthy(u.aiReport) && Truthy(u.condition) then u.(aiReport := Some(ReportText(g))) else u
  }

  /** Once a non-empty report is stored, no later call changes it. */
  lemma ReportWrittenOnce(u: User, g1: Generation, g2: Generation)
    requires Truthy(ReportAfter(u, g1).aiReport)
    ensures ReportAfter(ReportAfter(u, g1), g2) == ReportAfter(u, g1)
  {
  }

  /** A failed generation is stored like a reply, so it is never retried. */
  lemma FailureIsKept(u: User, e: string, g2: Generation)
    requires Truthy(u.condition)
    ensures Truthy(ReportAfter(u, Failed(e)).aiReport)
    ensures ReportAfter(ReportAfter(u, Failed(e)), g2) == ReportAfter(u, Failed(e))
  {
  }

  /** An empty reply leaves the report falsy, so the next call generates again. */
  lemma EmptyReplyRetried(u: User, g2: Generation)
    requires !Truthy(u.aiReport) && Truthy(u.condition)
    ensures ReportAfter(ReportAfter(u, Generated("")), g2) == ReportAfter(u, g2)
  {
  }
}
