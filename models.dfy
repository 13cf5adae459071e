/** The serde records of the backend that the modelled handlers build and
    return. Serialisation itself is not modelled; each record is a value. */
module Models {
  import opened Common

  datatype WitcherAgent = WitcherAgent(
    id: string,
    name: string,
    role: string,
    tier: string,
    status: string,
    description: string,
    model: string)

  datatype ClaudeModelInfo = ClaudeModelInfo(
    id: string,
    name: string,
    tier: string,
    provider: string,
    available: bool)

  datatype AppSettings = AppSettings(
    theme: string,
    language: string,
    defaultModel: string,
    autoStart: bool)

  datatype HistoryEntry = HistoryEntry(
    id: string,
    role: string,
    content: string,
    model: Option<string>,
    agent: Option<string>,
    timestamp: string)

  datatype Session = Session(
    id: string,
    title: string,
    createdAt: string,
    messages: seq<HistoryEntry>)

  /** The listing view of a session: no message bodies, only their count. */
  datatype SessionSummary = SessionSummary(
    id: string,
    title: string,
    createdAt: string,
    messageCount: nat)

  /** The HTTP status codes the session handlers answer with. */
  datatype StatusCode = HttpCreated | HttpNotFound
}
