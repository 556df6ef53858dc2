/** The entities of model.rs and the value types of resolver.rs and delivery.rs. */
module PolicyModel {
  import opened Wrappers
  import opened Spans

  type Uuid = nat

  datatype Authority = Global | Hub | Server

  function Precedence(a: Authority): nat {
    match a
    case Global => 0
    case Hub => 1
    case Server => 2
  }

  datatype PolicyScope = PolicyScope(authority: Authority, id: string)

  datatype Surface = MessageContent | DisplayName | Username | ServerName | HubName | UrlDomain

  const ALL_SURFACES: seq<Surface> := [MessageContent, DisplayName, Username, ServerName, HubName, UrlDomain]

  /** `surface as u8`. */
  function SurfaceCode(s: Surface): nat {
    match s
    case MessageContent => 0
    case DisplayName => 1
    case Username => 2
    case ServerName => 3
    case HubName => 4
    case UrlDomain => 5
  }

  predicate IsName(s: Surface) { s != MessageContent && s != UrlDomain }

  datatype PatternType = ExactWord | Prefix | Suffix | Contains | Phrase

  function PatternTypeCode(t: PatternType): nat {
    match t
    case ExactWord => 0
    case Prefix => 1
    case Suffix => 2
    case Contains => 3
    case Phrase => 4
  }

  datatype ActionType =
    | Allow | Block | CensorMatch | StripLink | SuppressLinks | ReplaceName
    | Log | LobbyWarn | LobbyBan | Blacklist | HubWarn | HubMute | HubBan

  function ActionTypeCode(t: ActionType): nat {
    match t
    case Allow => 0
    case Block => 1
    case CensorMatch => 2
    case StripLink => 3
    case SuppressLinks => 4
    case ReplaceName => 5
    case Log => 6
    case LobbyWarn => 7
    case LobbyBan => 8
    case Blacklist => 9
    case HubWarn => 10
    case HubMute => 11
    case HubBan => 12
  }

  predicate NeedsDuration(t: ActionType) { t == LobbyBan || t == Blacklist || t == HubMute }

  datatype RulePattern = RulePattern(id: Uuid, pattern: string, patternType: PatternType)

  datatype PolicyAction = PolicyAction(id: Uuid, actionType: ActionType, duration: Option<nat>, replacement: Option<string>)

  datatype PolicyRule = PolicyRule(
    id: Uuid, name: string, description: string, enabled: bool, customReason: Option<string>, createdBy: string,
    patterns: seq<RulePattern>, surfaces: set<Surface>, actions: seq<PolicyAction>)

  datatype ContentPolicy = ContentPolicy(
    id: Uuid, scope: PolicyScope, enabled: bool, version: nat, rules: seq<PolicyRule>)

  // ---- Match results and delivery effects -----------------------------------

  datatype MatchedSurface = MatchedSurface(surface: Surface, spans: seq<ByteSpan>, patternIds: seq<Uuid>)

  datatype MatchedRule = MatchedRule(
    policyId: Uuid, policyVersion: nat, scope: PolicyScope, ruleId: Uuid, ruleName: string,
    customReason: Option<string>, surfaces: seq<MatchedSurface>, actions: seq<PolicyAction>)

  datatype Attribution = Attribution(
    policyId: Uuid, policyVersion: nat, scope: PolicyScope, ruleId: Uuid, ruleName: string, customReason: Option<string>)

  function AttributionOf(rule: MatchedRule): Attribution {
    Attribution(rule.policyId, rule.policyVersion, rule.scope, rule.ruleId, rule.ruleName, rule.customReason)
  }

  datatype NameReplacement = NameReplacement(replacement: string, attribution: Attribution)

  datatype DeliveryEffects = DeliveryEffects(
    blockedBy: seq<Attribution>,
    censorSpans: map<Surface, seq<ByteSpan>>,
    stripLinks: bool,
    suppressLinks: bool,
    nameReplacements: map<Surface, NameReplacement>)
  {
    predicate IsBlocked() { blockedBy != [] }
  }

  const NO_EFFECTS := DeliveryEffects([], map[], false, false, map[])

  datatype SideEffect = SideEffect(actionType: ActionType, duration: Option<nat>, attribution: Attribution)

  const DEFAULT_SAFE_NAME := "InterChat User"

  datatype Presentation = Presentation(
    messageContent: string, displayName: string, username: string, serverName: string, hubName: string,
    urlSpans: seq<ByteSpan>)

  function SurfaceText(p: Presentation, s: Surface): string {
    match s
    case MessageContent => p.messageContent
    case UrlDomain => p.messageContent
    case DisplayName => p.displayName
    case Username => p.username
    case ServerName => p.serverName
    case HubName => p.hubName
  }
}
