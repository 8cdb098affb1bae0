/** Access evaluation: the one decision, the batch over it, and an agent under its person's ceiling. */
module AuthZen {
  import opened Text

  datatype Subject = Subject(kind: string, id: string)

  datatype Resource = Resource(kind: string, id: Option<string>)

  datatype Error =
    | SubjectRequired | ResourceRequired | ActionRequired | OrganizationRequired | OrganizationUnknown
    | SubjectUnknown | SubjectTypeUnsupported | ResourceTypeUnsupported | ResourceIdRequired
    | BatchTooLarge | Internal

  datatype Result<+T> = Ok(value: T) | Err(error: Error)

  type OrgId = nat

  datatype Agent = Agent(organization: OrgId, linkedUser: string, active: bool, tools: set<string>)

  /** What the decision reads: which ids belong to the scope, who holds what, and the agents. None is a store failure. */
  datatype World = World(
    isBlank: string -> bool,
    organizations: map<string, OrgId>,
    isUser: string -> bool, isServiceAccount: string -> bool, isAgent: string -> bool,
    userPermissions: (OrgId, string) -> Option<set<string>>,
    servicePermissions: (OrgId, string) -> Option<set<string>>,
    agents: string -> Result<Option<Agent>>,
    canAuthenticate: string -> Option<bool>,
    agentProfile: bool)

  const TOOL: string := "tool"

  function Slug(kind: string, action: string): string {
    kind + "." + action
  }

  function Holds(held: Option<set<string>>, slug: string): Result<bool> {
    if held.None? then Err(Internal) else Ok(slug in held.value)
  }

  /** `decide`. */
  function Decide(w: World, org: OrgId, subject: Subject, resource: Resource, action: string): Result<bool> {
    if subject.kind == "user" then
      if !w.isUser(subject.id) then Err(SubjectUnknown)
      else Holds(w.userPermissions(org, subject.id), Slug(resource.kind, action))
    else if subject.kind == "service_account" then
      if !w.isServiceAccount(subject.id) then Err(SubjectUnknown)
      else Holds(w.servicePermissions(org, subject.id), Slug(resource.kind, action))
    else if subject.kind == "agent" && w.agentProfile then DecideAgentTool(w, org, subject, resource, action)
    else Err(SubjectTypeUnsupported)
  }

  /** `decide_agent_tool`. */
  function DecideAgentTool(w: World, org: OrgId, subject: Subject, resource: Resource, action: string): Result<bool> {
    if resource.kind != TOOL then Err(ResourceTypeUnsupported)
    else if resource.id.None? || resource.id.value == "" then Err(ResourceIdRequired)
    else if !w.isAgent(subject.id) then Err(SubjectUnknown)
    else
      var found := w.agents(subject.id);
      if found.Err? then Err(Internal)
      else if found.value.None? then Ok(false)
      else
        var agent := found.value.value;
        if agent.organization != org then Ok(false)
        else if !agent.active || resource.id.value !in agent.tools then Ok(false)
        else
          var live := w.canAuthenticate(agent.linkedUser);
          if live.None? then Err(Internal)
          else if !live.value then Ok(false)
          else Holds(w.userPermissions(org, agent.linkedUser), TOOL + "." + resource.id.value + "." + action)
  }

  // ---------- what is decided ----------

  /** The permissions were read and hold the slug, or were read and do not. */
  predicate Granted(held: Option<set<string>>, slug: string) {
    held.Some? && slug in held.value
  }

  predicate Withheld(held: Option<set<string>>, slug: string) {
    held.Some? && slug !in held.value
  }

  /** A user, or a service account, is asked about its own permissions: the resource type, a dot and the action. */
  lemma PrincipalDecision(w: World, org: OrgId, id: string, resource: Resource, action: string)
    ensures var r := Decide(w, org, Subject("user", id), resource, action);
            && (r == Ok(true) <==> w.isUser(id) && Granted(w.userPermissions(org, id), resource.kind + "." + action))
            && (r == Ok(false) <==> w.isUser(id) && Withheld(w.userPermissions(org, id), resource.kind + "." + action))
            && (r == Err(SubjectUnknown) <==> !w.isUser(id))
            && (r == Err(Internal) <==> w.isUser(id) && w.userPermissions(org, id).None?)
    ensures var r := Decide(w, org, Subject("service_account", id), resource, action);
            && (r == Ok(true) <==> w.isServiceAccount(id) && Granted(w.servicePermissions(org, id), resource.kind + "." + action))
            && (r == Ok(false) <==> w.isServiceAccount(id) && Withheld(w.servicePermissions(org, id), resource.kind + "." + action))
            && (r == Err(SubjectUnknown) <==> !w.isServiceAccount(id))
            && (r == Err(Internal) <==> w.isServiceAccount(id) && w.servicePermissions(org, id).None?)
  {
  }

  /** Any other subject type is refused, an agent among them where the profile is off. */
  lemma OtherSubjectsRefused(w: World, org: OrgId, subject: Subject, resource: Resource, action: string)
    ensures Decide(w, org, subject, resource, action) == Err(SubjectTypeUnsupported)
            <==> subject.kind != "user" && subject.kind != "service_account" && (subject.kind == "agent" ==> !w.agentProfile)
  {
  }

  /** The agent's record, where it is an agent of the scope with one. */
  predicate IsAgent(w: World, id: string, agent: Agent) {
    w.isAgent(id) && w.agents(id) == Ok(Some(agent))
  }

  /**
   * An agent may call a tool exactly when it is an active agent of the organization that declares the tool, its person
   * can sign in, and that person's permissions in the organization hold the tool's own slug.
   */
  lemma AgentDecision(w: World, org: OrgId, id: string, tool: string, action: string, agent: Agent)
    requires w.agentProfile && tool != "" && IsAgent(w, id, agent)
    ensures var r := Decide(w, org, Subject("agent", id), Resource("tool", Some(tool)), action);
            var may := agent.organization == org && agent.active && tool in agent.tools;
            var held := w.userPermissions(org, agent.linkedUser);
            var slug := "tool." + tool + "." + action;
            && (r == Ok(true) <==> may && w.canAuthenticate(agent.linkedUser) == Some(true) && Granted(held, slug))
            && (r == Ok(false) <==>
                  || !may
                  || w.canAuthenticate(agent.linkedUser) == Some(false)
                  || (w.canAuthenticate(agent.linkedUser) == Some(true) && Withheld(held, slug)))
  {
    assert "tool." + tool + "." + action == TOOL + "." + tool + "." + action;
  }

  /** An agent question that is not about a named tool, or not of an agent of the scope, is refused; a missing agent is denied. */
  lemma AgentRefusals(w: World, org: OrgId, id: string, resource: Resource, action: string)
    requires w.agentProfile
    ensures var r := Decide(w, org, Subject("agent", id), resource, action);
            var named := resource.id.Some? && resource.id.value != "";
            && (r == Err(ResourceTypeUnsupported) <==> resource.kind != "tool")
            && (r == Err(ResourceIdRequired) <==> resource.kind == "tool" && !named)
            && (r == Err(SubjectUnknown) <==> resource.kind == "tool" && named && !w.isAgent(id))
            && (resource.kind == "tool" && named && w.isAgent(id) && w.agents(id) == Ok(None) ==> r == Ok(false))
            && (resource.kind == "tool" && named && w.isAgent(id) && w.agents(id).Err? ==> r == Err(Internal))
  {
  }

  // ---------- an agent under its person's ceiling ----------

  /** The agent is one of this organization, active, declares the tool, and its person can sign in. */
  predicate AgentMay(w: World, org: OrgId, id: string, tool: string) {
    && w.isAgent(id) && w.agents(id).Ok? && w.agents(id).value.Some?
    && var agent := w.agents(id).value.value;
    && agent.organization == org && agent.active && tool in agent.tools
    && w.canAuthenticate(agent.linkedUser) == Some(true)
  }

  /** The question the agent's person would ask for themself: the tool as a resource type. */
  function AsPerson(w: World, org: OrgId, person: string, tool: string, action: string): Result<bool> {
    Decide(w, org, Subject("user", person), Resource(TOOL + "." + tool, None), action)
  }

  /**
   * An agent is allowed exactly when it may call the tool and the person it acts for, asked as a user about the tool
   * with the same action, is allowed too: never more than either.
   */
  lemma AgentIsIntersection(w: World, org: OrgId, id: string, tool: string, action: string)
    requires w.agentProfile && tool != ""
    requires w.agents(id).Ok? && w.agents(id).value.Some? ==> w.isUser(w.agents(id).value.value.linkedUser)
    ensures Decide(w, org, Subject("agent", id), Resource(TOOL, Some(tool)), action) == Ok(true)
            <==> AgentMay(w, org, id, tool) && AsPerson(w, org, w.agents(id).value.value.linkedUser, tool, action) == Ok(true)
  {
    assert TOOL + "." + tool + "." + action == Slug(TOOL + "." + tool, action);
  }

  /** Whatever the agent question is, an allow means its person is allowed the tool it named. */
  lemma AgentUnderCeiling(w: World, org: OrgId, id: string, resource: Resource, action: string)
    requires Decide(w, org, Subject("agent", id), resource, action) == Ok(true)
    ensures w.agentProfile && resource.kind == TOOL && resource.id.Some? && resource.id.value != ""
    ensures AgentMay(w, org, id, resource.id.value)
    ensures var person := w.agents(id).value.value.linkedUser;
            w.isUser(person) ==> AsPerson(w, org, person, resource.id.value, action) == Ok(true)
  {
    assert TOOL + "." + resource.id.value + "." + action == Slug(TOOL + "." + resource.id.value, action);
  }

  /** The one kind goes on with a dot and a middle that opens the other's action. */
  ghost predicate TakesUp(kind: string, action: string, kind': string, action': string) {
    exists middle :: kind' == kind + "." + middle && action == middle + "." + action'
  }

  /** Two questions ask for the same permission exactly when they are the same, or one kind takes up part of the other's action. */
  lemma SlugsAgreeExactly(kind: string, action: string, kind': string, action': string)
    ensures Slug(kind, action) == Slug(kind', action') <==>
            || (kind == kind' && action == action')
            || TakesUp(kind, action, kind', action')
            || TakesUp(kind', action', kind, action)
  {
    if Slug(kind, action) == Slug(kind', action') {
      if |kind| <= |kind'| {
        SlugsSplit(kind, action, kind', action');
      } else {
        SlugsSplit(kind', action', kind, action);
      }
    }
  }

  lemma SlugsSplit(kind: string, action: string, kind': string, action': string)
    requires Slug(kind, action) == Slug(kind', action') && |kind| <= |kind'|
    ensures (kind == kind' && action == action') || TakesUp(kind, action, kind', action')
  {
    var s := Slug(kind, action);
    assert s[..|kind|] == kind && s[|kind|] == '.' && s[|kind| + 1..] == action;
    assert s[..|kind'|] == kind' && s[|kind'|] == '.' && s[|kind'| + 1..] == action';
    if |kind| < |kind'| {
      var middle := s[|kind| + 1..|kind'|];
      assert kind' == kind + "." + middle;
      assert action == middle + "." + action';
    }
  }

  /** Two questions with dot-free actions ask for the same permission only when they are the same question. */
  lemma SlugInjective(kind: string, action: string, kind': string, action': string)
    requires '.' !in action && '.' !in action'
    ensures Slug(kind, action) == Slug(kind', action') <==> kind == kind' && action == action'
  {
    var s, t := Slug(kind, action), Slug(kind', action');
    if s == t {
      assert s[|kind|] == '.' && t[|kind'|] == '.';
      assert |kind| == |kind'|;
      assert s[..|kind|] == kind && t[..|kind'|] == kind';
      assert s[|kind| + 1..] == action && t[|kind'| + 1..] == action';
    }
  }

  /** With a dot in the action they need not be: every dotted action has a twin. */
  lemma SlugAmbiguous(kind: string, middle: string, last: string)
    ensures Slug(kind, middle + "." + last) == Slug(kind + "." + middle, last)
    ensures kind != kind + "." + middle
  {
    assert |kind + "." + middle| > |kind|;
  }

  // ---------- one evaluation ----------

  /** The organization a context names; None where it names none as text. */
  datatype Context = Context(organization: Option<string>)

  function OrganizationFrom(w: World, c: Context): Result<OrgId> {
    if c.organization.None? || w.isBlank(c.organization.value) then Err(OrganizationRequired)
    else if c.organization.value !in w.organizations then Err(OrganizationUnknown)
    else Ok(w.organizations[c.organization.value])
  }

  datatype Question = Question(subject: Subject, resource: Resource, action: string, context: Context)

  /** The single evaluation. */
  function Evaluate(w: World, q: Question): Result<bool> {
    var org := OrganizationFrom(w, q.context);
    if org.Err? then Err(org.error) else Decide(w, org.value, q.subject, q.resource, q.action)
  }

  // ---------- the batch ----------

  datatype Item = Item(subject: Option<Subject>, resource: Option<Resource>, action: Option<string>, context: Option<Context>)

  datatype Batch = Batch(
    subject: Option<Subject>, resource: Option<Resource>, action: Option<string>, context: Context,
    evaluations: seq<Item>, denyOnFirstDeny: bool)

  function Or<T>(own: Option<T>, shared: Option<T>): Option<T> {
    if own.Some? then own else shared
  }

  /** An entry with the shared values it does not name, or the first value missing. */
  function Merged(b: Batch, item: Item): Result<Question> {
    var subject, resource, action := Or(item.subject, b.subject), Or(item.resource, b.resource), Or(item.action, b.action);
    if subject.None? then Err(SubjectRequired)
    else if resource.None? then Err(ResourceRequired)
    else if action.None? then Err(ActionRequired)
    else Ok(Question(subject.value, resource.value, action.value, if item.context.Some? then item.context.value else b.context))
  }

  /** The single evaluation of one merged entry. */
  function Single(w: World, b: Batch, item: Item): Result<bool> {
    var q := Merged(b, item);
    if q.Err? then Err(q.error) else Evaluate(w, q.value)
  }

  /** An entry's own subject, resource, action and context win over the shared ones; the first one missing is named. */
  lemma OwnValuesWin(b: Batch, item: Item)
    ensures var m := Merged(b, item);
            && (m == Err(SubjectRequired) <==> item.subject.None? && b.subject.None?)
            && (m.Ok? <==> (item.subject.Some? || b.subject.Some?) && (item.resource.Some? || b.resource.Some?)
                           && (item.action.Some? || b.action.Some?))
            && (m == Err(ActionRequired) ==> item.action.None? && b.action.None?)
            && (m == Err(ResourceRequired) ==> item.resource.None? && b.resource.None?)
            && (m.Err? ==> m.error in {SubjectRequired, ResourceRequired, ActionRequired})
    ensures Merged(b, item).Ok? ==>
              var q := Merged(b, item).value;
              && (item.subject.Some? ==> q.subject == item.subject.value) && (item.subject.None? ==> b.subject == Some(q.subject))
              && (item.resource.Some? ==> q.resource == item.resource.value) && (item.resource.None? ==> b.resource == Some(q.resource))
              && (item.action.Some? ==> q.action == item.action.value) && (item.action.None? ==> b.action == Some(q.action))
              && (item.context.Some? ==> q.context == item.context.value) && (item.context.None? ==> q.context == b.context)
  {
  }

  /** A question is decided in the organization its own context names, and nowhere else. */
  lemma DecidedInItsOrganization(w: World, q: Question, allowed: bool)
    ensures Evaluate(w, q) == Ok(allowed) <==>
            && q.context.organization.Some? && !w.isBlank(q.context.organization.value)
            && q.context.organization.value in w.organizations
            && Decide(w, w.organizations[q.context.organization.value], q.subject, q.resource, q.action) == Ok(allowed)
  {
  }

  /** The first k entries evaluate, each against the world of its turn, and none of them ends the batch early. */
  ghost predicate Continues(worlds: seq<World>, b: Batch, k: nat)
    requires |worlds| == |b.evaluations| && k <= |worlds|
  {
    forall i :: 0 <= i < k ==>
      var one := Single(worlds[i], b, b.evaluations[i]);
      one.Ok? && (b.denyOnFirstDeny ==> one.value)
  }

  /** The decisions are those of the first entries. */
  ghost predicate IsPrefix(worlds: seq<World>, b: Batch, decisions: seq<bool>)
    requires |worlds| == |b.evaluations|
  {
    |decisions| <= |worlds| && forall i :: 0 <= i < |decisions| ==> Single(worlds[i], b, b.evaluations[i]) == Ok(decisions[i])
  }

  /**
   * `authzen_evaluations` past its fences. A success is the list of single evaluations: all of them, or with the option
   * those through the first deny. A failure is the first failing single evaluation the batch comes to.
   */
  method Evaluations(worlds: seq<World>, b: Batch, limit: nat) returns (r: Result<seq<bool>>)
    requires |worlds| == |b.evaluations|
    ensures |b.evaluations| > limit <==> r == Err(BatchTooLarge)
    ensures r.Ok? ==> IsPrefix(worlds, b, r.value)
    ensures r.Ok? && !b.denyOnFirstDeny ==> |r.value| == |worlds|
    ensures r.Ok? && b.denyOnFirstDeny ==>
              && (forall i :: 0 <= i < |r.value| - 1 ==> r.value[i])
              && (|r.value| < |worlds| ==> r.value != [] && !r.value[|r.value| - 1])
    ensures r.Err? && r.error != BatchTooLarge ==>
              exists k :: 0 <= k < |worlds| && Continues(worlds, b, k) && Single(worlds[k], b, b.evaluations[k]) == Err(r.error)
  {
    if |b.evaluations| > limit {
      return Err(BatchTooLarge);
    }
    var decisions: seq<bool> := [];
    for i := 0 to |b.evaluations|
      invariant |decisions| == i && IsPrefix(worlds, b, decisions)
      invariant b.denyOnFirstDeny ==> forall j :: 0 <= j < i ==> decisions[j]
    {
      assert Continues(worlds, b, i);
      NotTooLarge(worlds[i], b, b.evaluations[i]);
      var q := Merged(b, b.evaluations[i]);
      if q.Err? {
        return Err(q.error);
      }
      var decision := Evaluate(worlds[i], q.value);
      if decision.Err? {
        return Err(decision.error);
      }
      decisions := decisions + [decision.value];
      if b.denyOnFirstDeny && !decision.value {
        break;
      }
    }
    return Ok(decisions);
  }

  lemma NotTooLarge(w: World, b: Batch, item: Item)
    ensures Single(w, b, item) != Err(BatchTooLarge)
  {
  }

  /** The option changes only how far a batch gets: where both succeed the shorter answer begins the longer one. */
  lemma EarlyStopIsPrefix(worlds: seq<World>, b: Batch, full: seq<bool>, short: seq<bool>)
    requires |worlds| == |b.evaluations|
    requires IsPrefix(worlds, b, full) && IsPrefix(worlds, b, short) && |full| == |worlds|
    ensures short <= full
  {
    assert forall i :: 0 <= i < |short| ==> Single(worlds[i], b, b.evaluations[i]) == Ok(short[i]) == Ok(full[i]);
  }
}
