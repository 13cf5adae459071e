/** The application state of the backend (backend/src/state.rs): the tier to
    model mapping, the constant catalogue of twelve Witcher agents, the
    default settings and the initial state with no sessions. The API keys read
    from the environment, the start instant and the HTTP client are not part
    of this model. */
module AgentState {
  import opened Common
  import opened Models

  const OpusModel := "claude-opus-4-6"
  const SonnetModel := "claude-sonnet-4-5-20250929"
  const HaikuModel := "claude-haiku-4-5-20251001"

  /** The model used whenever none is named (also the settings default). */
  const DefaultModel := SonnetModel

  predicate IsKnownTier(tier: string) {
    tier == "Commander" || tier == "Coordinator" || tier == "Executor"
  }

  /** `model_for_tier`. */
  function ModelForTier(tier: string): (r: string)
    ensures r == OpusModel || r == SonnetModel || r == HaikuModel
    ensures tier == "Commander" ==> r == OpusModel
    ensures tier == "Coordinator" ==> r == SonnetModel
    ensures tier == "Executor" ==> r == HaikuModel
    ensures !IsKnownTier(tier) ==> r == DefaultModel
  {
    match tier
    case "Commander" => OpusModel
    case "Coordinator" => SonnetModel
    case "Executor" => HaikuModel
    case _ => SonnetModel
  }

  /** The static model list of the `/api/claude/models` handler. */
  function ClaudeModels(): seq<ClaudeModelInfo> {
    [ ClaudeModelInfo(OpusModel, "Claude Opus 4.6", "Commander", "anthropic", true),
      ClaudeModelInfo(SonnetModel, "Claude Sonnet 4.5", "Coordinator", "anthropic", true),
      ClaudeModelInfo(HaikuModel, "Claude Haiku 4.5", "Executor", "anthropic", true) ]
  }

  /** The tier mapping agrees with the model list: each listed model is the
      one chosen for its tier, and every tier (known or not) is sent to a
      listed model. */
  lemma ModelForTierMatchesCatalogue(tier: string)
    ensures forall m :: m in ClaudeModels() ==> ModelForTier(m.tier) == m.id
    ensures exists m :: m in ClaudeModels() && m.id == ModelForTier(tier)
    ensures IsKnownTier(tier) ==> exists m :: m in ClaudeModels() && m.tier == tier && m.id == ModelForTier(tier)
  {
    var models := ClaudeModels();
    assert models[0] in models && models[1] in models && models[2] in models;
  }

  datatype AgentDef = AgentDef(name: string, role: string, tier: string, description: string)

  /** The constant table of `init_witcher_agents`, in its order. */
  const AgentTable: seq<AgentDef> := [
    AgentDef("Geralt", "Security", "Commander", "Master witcher and security specialist — hunts vulnerabilities like monsters"),
    AgentDef("Yennefer", "Architecture", "Commander", "Powerful sorceress of system architecture — designs elegant magical structures"),
    AgentDef("Vesemir", "Testing", "Commander", "Veteran witcher mentor — rigorously tests and validates all operations"),
    AgentDef("Triss", "Data", "Coordinator", "Skilled sorceress of data management — weaves information with precision"),
    AgentDef("Jaskier", "Documentation", "Coordinator", "Legendary bard — chronicles every detail with flair and accuracy"),
    AgentDef("Ciri", "Performance", "Coordinator", "Elder Blood carrier — optimises performance with dimensional speed"),
    AgentDef("Dijkstra", "Strategy", "Coordinator", "Spymaster strategist — plans operations with cunning intelligence"),
    AgentDef("Lambert", "DevOps", "Executor", "Bold witcher — executes deployments and infrastructure operations"),
    AgentDef("Eskel", "Backend", "Executor", "Steady witcher — builds and maintains robust backend services"),
    AgentDef("Regis", "Research", "Executor", "Scholarly higher vampire — researches and analyses with ancient wisdom"),
    AgentDef("Zoltan", "Frontend", "Executor", "Dwarven warrior — forges powerful and resilient frontend interfaces"),
    AgentDef("Philippa", "Monitoring", "Executor", "All-seeing sorceress — monitors systems with her magical owl familiar")
  ]

  /** `format!("agent-{:03}", i + 1)`: `agent-` followed by the digits of
      `i + 1`, padded to at least three. */
  function AgentId(i: nat): (r: string)
    ensures |r| >= 9 && r[..6] == "agent-"
    ensures AllDigits(r[6..]) && DecimalValue(r[6..]) == i + 1
  {
    var digits := ZeroPad(i + 1, 3);
    var r := "agent-" + digits;
    assert r[6..] == digits;
    r
  }

  /** `init_witcher_agents`: one agent per table row, in table order. */
  function InitWitcherAgents(): (r: seq<WitcherAgent>)
    ensures |r| == |AgentTable| == 12
    ensures forall i :: 0 <= i < |r| ==>
              && r[i].name == AgentTable[i].name && r[i].role == AgentTable[i].role
              && r[i].tier == AgentTable[i].tier && r[i].description == AgentTable[i].description
              && r[i].id == AgentId(i) && r[i].status == "active"
              && r[i].model == ModelForTier(AgentTable[i].tier)
  {
    seq(|AgentTable|, i requires 0 <= i < |AgentTable| =>
      var def := AgentTable[i];
      WitcherAgent(AgentId(i), def.name, def.role, def.tier, "active", def.description, ModelForTier(def.tier)))
  }

  /** The id of each of the twelve agents has exactly three digits. */
  lemma AgentIdFormat(i: nat)
    requires i < 12
    ensures |AgentId(i)| == 9
  {
    ZeroPadExactWidth(i + 1, 3);
  }

  lemma AgentIdInjective(i: nat, j: nat)
    requires i < j < 12
    ensures AgentId(i) != AgentId(j)
  {
    AgentIdFormat(i);
    AgentIdFormat(j);
  }

  /** The agent ids are pairwise distinct and run from `agent-001` to
      `agent-012`. */
  lemma AgentIds()
    ensures forall i, j :: 0 <= i < j < 12 ==> InitWitcherAgents()[i].id != InitWitcherAgents()[j].id
    ensures InitWitcherAgents()[0].id == "agent-001" && InitWitcherAgents()[11].id == "agent-012"
  {
    var agents := InitWitcherAgents();
    forall i, j | 0 <= i < j < 12
      ensures agents[i].id != agents[j].id
    {
      AgentIdInjective(i, j);
    }
    FirstAndLastAgentId();
  }

  lemma FirstAndLastAgentId()
    ensures AgentId(0) == "agent-001" && AgentId(11) == "agent-012"
  {
    assert Decimal(1) == "1" && Decimal(12) == "12";
  }

  /** Every table tier is one of the three known tiers, so no agent takes the
      fallback branch of `model_for_tier`, and each agent's model is the one
      of its tier. */
  lemma AgentTiersKnown()
    ensures forall a :: a in InitWitcherAgents() ==> IsKnownTier(a.tier)
    ensures forall a :: a in InitWitcherAgents() ==>
              (a.tier == "Commander" ==> a.model == OpusModel) &&
              (a.tier == "Coordinator" ==> a.model == SonnetModel) &&
              (a.tier == "Executor" ==> a.model == HaikuModel)
  {
    assert forall i :: 0 <= i < |AgentTable| ==> IsKnownTier(AgentTable[i].tier);
  }

  /** The settings `AppState::new` starts with. */
  function DefaultSettings(): AppSettings {
    AppSettings("dark", "en", DefaultModel, false)
  }

  /** The parts of the shared application state that the modelled handlers
      read and update; each handler runs as one atomic step under the lock. */
  class AppState {
    var settings: AppSettings
    var agents: seq<WitcherAgent>
    var sessions: seq<Session>
    var currentSessionId: Option<string>

    /** Session ids are pairwise distinct and the current session, if any,
        is one of the stored sessions. */
    ghost predicate Valid()
      reads this
    {
      && (forall i, j :: 0 <= i < j < |sessions| ==> sessions[i].id != sessions[j].id)
      && (currentSessionId.Some? ==> exists i :: 0 <= i < |sessions| && sessions[i].id == currentSessionId.value)
    }

    /** `AppState::new`, without the environment and clock reads. */
    constructor ()
      ensures Valid()
      ensures settings == AppSettings("dark", "en", "claude-sonnet-4-5-20250929", false)
      ensures agents == InitWitcherAgents()
      ensures sessions == [] && currentSessionId == None
    {
      settings := DefaultSettings();
      agents := InitWitcherAgents();
      sessions := [];
      currentSessionId := None;
    }
  }
}
