/** Time-boxed access requests: raising, deciding, expiring, and the scan for a role. */
module AccessRequests {
  import opened Text
  import opened Keyset

  // ---------- requests ----------

  datatype State = Pending | Approved | Denied | Expired

  datatype Request = Request(
    organization: string, subject: string, role: string, requestedBy: string, state: State,
    decidedBy: Option<string>, decidedAt: Option<int>, grantedUntil: Option<int>)

  const MAX_GRANT_SECS: int := 30 * 24 * 60 * 60
  const MICROS: int := 1_000_000
  const MAX_TIME: int := 0x7FFF_FFFF_FFFF_FFFF

  /** `grants_now`: approved, and before a deadline that is there. */
  predicate GrantsNow(r: Request, now: int) {
    r.state == Approved && r.grantedUntil.Some? && now < r.grantedUntil.value
  }

  /** The clock in microseconds since the epoch, stopped at the last value its type holds. */
  type Instant = t: int | 0 <= t <= MAX_TIME

  function SaturatingAdd(a: Instant, b: nat): Instant {
    if a + b > MAX_TIME then MAX_TIME else a + b
  }

  /** The duration of a decision, or None where the body is refused. */
  function Duration(approve: bool, secs: Option<nat>): Option<nat> {
    if approve then
      if secs.Some? && 0 < secs.value <= MAX_GRANT_SECS then secs else None
    else if secs.Some? then None else Some(0)
  }

  /** An approval of one second to thirty days, or a denial without a duration. */
  predicate AcceptedBody(approve: bool, secs: Option<nat>) {
    (approve && secs.Some? && 1 <= secs.value <= 2_592_000) || (!approve && secs.None?)
  }

  // ---------- the system ----------

  /** A decision a handler has checked and not yet written: its clock is read before the write. */
  datatype Decision = Decision(id: nat, actor: string, approve: bool, at: Instant, until: Option<int>)

  datatype System = System(requests: map<nat, Request>, inFlight: seq<Decision>, decided: seq<Decision>)

  datatype Step =
    | Raise(id: nat, organization: string, subject: string, role: string, actor: string)
    | Prepare(id: nat, organization: string, actor: string, approve: bool, secs: Option<nat>, now: Instant)
    | Write(index: nat)
    | Expire(ids: set<nat>, now: Instant)

  /** The handler up to its write: the body, then the request through its own organization, then the deadline. */
  function PrepareStep(s: System, id: nat, organization: string, actor: string, approve: bool, secs: Option<nat>, now: Instant): System {
    var duration := Duration(approve, secs);
    if duration.None? || id !in s.requests || s.requests[id].organization != organization then s
    else
      var until := if approve then Some(SaturatingAdd(now, duration.value * MICROS)) else None;
      s.(inFlight := s.inFlight + [Decision(id, actor, approve, now, until)])
  }

  /** The write refuses the principal that raised the request, and a request no longer pending. */
  predicate Writable(s: System, d: Decision) {
    d.id in s.requests && s.requests[d.id].requestedBy != d.actor && s.requests[d.id].state == Pending
  }

  function Decided(r: Request, d: Decision): Request {
    r.(state := if d.approve then Approved else Denied, decidedBy := Some(d.actor), decidedAt := Some(d.at), grantedUntil := d.until)
  }

  function WriteStep(s: System, index: nat): System {
    if index >= |s.inFlight| then s
    else
      var d := s.inFlight[index];
      var rest := s.(inFlight := s.inFlight[..index] + s.inFlight[index + 1..]);
      if !Writable(s, d) then rest
      else rest.(requests := s.requests[d.id := Decided(s.requests[d.id], d)], decided := s.decided + [d])
  }

  /** One pass of the sweep relabels some of the elapsed approvals, and keeps their deadlines. */
  function ExpireStep(s: System, ids: set<nat>, now: Instant): System {
    s.(requests := map id | id in s.requests :: if id in ids && Elapsed(s.requests[id], now)
                                                then s.requests[id].(state := Expired) else s.requests[id])
  }

  predicate Elapsed(r: Request, now: int) {
    r.state == Approved && r.grantedUntil.Some? && r.grantedUntil.value <= now
  }

  function Next(s: System, step: Step): System {
    match step
    case Raise(id, organization, subject, role, actor) =>
      if id in s.requests then s
      else s.(requests := s.requests[id := Request(organization, subject, role, actor, Pending, None, None, None)])
    case Prepare(id, organization, actor, approve, secs, now) => PrepareStep(s, id, organization, actor, approve, secs, now)
    case Write(index) => WriteStep(s, index)
    case Expire(ids, now) => ExpireStep(s, ids, now)
  }

  function Run(s: System, steps: seq<Step>): System
    decreases steps
  {
    if steps == [] then s else Run(Next(s, steps[0]), steps[1..])
  }

  const START: System := System(map[], [], [])

  // ---------- what every run keeps ----------

  /** A decision as the handler makes it: an approval has a deadline of at most thirty days, a denial none. */
  predicate Sound(d: Decision) {
    && (d.approve <==> d.until.Some?)
    && (d.until.Some? ==>
          && d.at <= d.until.value <= d.at + MAX_GRANT_SECS * MICROS
          && (d.at < MAX_TIME ==> d.at < d.until.value))
  }

  /** The row shows exactly the one decision written for it, or none. */
  ghost predicate Shows(s: System, id: nat)
    requires id in s.requests
  {
    var r := s.requests[id];
    if r.state == Pending then
      r.decidedBy.None? && r.decidedAt.None? && r.grantedUntil.None? && forall i :: 0 <= i < |s.decided| ==> s.decided[i].id != id
    else exists i :: 0 <= i < |s.decided| && ShowsDecision(r, id, s.decided[i])
  }

  predicate ShowsDecision(r: Request, id: nat, d: Decision) {
    && d.id == id && d.actor != r.requestedBy
    && r.decidedBy == Some(d.actor) && r.decidedAt == Some(d.at) && r.grantedUntil == d.until
    && (r.state == Denied <==> !d.approve) && r.state != Pending
  }

  ghost predicate Inv(s: System) {
    && (forall id :: id in s.requests ==> Shows(s, id))
    && (forall i, j :: 0 <= i < j < |s.decided| ==> s.decided[i].id != s.decided[j].id)
    && (forall i :: 0 <= i < |s.inFlight| ==> Sound(s.inFlight[i]))
    && (forall i :: 0 <= i < |s.decided| ==> Sound(s.decided[i]) && s.decided[i].id in s.requests)
  }

  lemma DurationSound(approve: bool, secs: Option<nat>, now: Instant)
    requires Duration(approve, secs).Some?
    ensures Sound(Decision(0, "", approve, now, if approve then Some(SaturatingAdd(now, Duration(approve, secs).value * MICROS)) else None))
  {
    var d := Duration(approve, secs).value;
    assert approve ==> 0 < d * MICROS <= MAX_GRANT_SECS * MICROS;
  }

  lemma WriteKeepsInv(s: System, index: nat)
    requires Inv(s)
    ensures Inv(WriteStep(s, index))
    ensures s.decided <= WriteStep(s, index).decided
  {
    if index < |s.inFlight| {
      var d := s.inFlight[index];
      var t := WriteStep(s, index);
      if Writable(s, d) {
        assert Shows(s, d.id);
        assert t.decided[|s.decided|] == d && ShowsDecision(t.requests[d.id], d.id, d);
        forall id | id in t.requests ensures Shows(t, id) {
          assert Shows(s, id);
          if id != d.id && t.requests[id].state != Pending {
            var i :| 0 <= i < |s.decided| && ShowsDecision(s.requests[id], id, s.decided[i]);
            assert t.decided[i] == s.decided[i];
          }
        }
      } else {
        assert forall id :: id in t.requests ==> Shows(s, id);
      }
    }
  }

  lemma ExpireKeepsInv(s: System, ids: set<nat>, now: Instant)
    requires Inv(s)
    ensures Inv(ExpireStep(s, ids, now))
  {
    var t := ExpireStep(s, ids, now);
    forall id | id in t.requests ensures Shows(t, id) {
      assert Shows(s, id);
      if s.requests[id].state != Pending {
        var i :| 0 <= i < |s.decided| && ShowsDecision(s.requests[id], id, s.decided[i]);
        assert ShowsDecision(t.requests[id], id, t.decided[i]);
      }
    }
  }

  /** A raised request is pending, for what was asked and by whom; an id that is taken is refused. */
  lemma RaiseExactly(s: System, id: nat, organization: string, subject: string, role: string, actor: string)
    ensures var t := Next(s, Raise(id, organization, subject, role, actor));
            && (id in s.requests ==> t == s)
            && (id !in s.requests ==>
                  && t.requests.Keys == s.requests.Keys + {id} && t.inFlight == s.inFlight && t.decided == s.decided
                  && (forall x :: x in s.requests ==> t.requests[x] == s.requests[x])
                  && var r := t.requests[id];
                  && r.organization == organization && r.subject == subject && r.role == role && r.requestedBy == actor
                  && r.state == Pending && r.grantedUntil.None?)
  {
  }

  lemma RaiseKeepsInv(s: System, id: nat, organization: string, subject: string, role: string, actor: string)
    requires Inv(s)
    ensures Inv(Next(s, Raise(id, organization, subject, role, actor)))
  {
    var t := Next(s, Raise(id, organization, subject, role, actor));
    forall x | x in t.requests ensures Shows(t, x) {
      if x in s.requests {
        assert Shows(s, x);
      }
    }
  }

  lemma PrepareKeepsInv(s: System, id: nat, organization: string, actor: string, approve: bool, secs: Option<nat>, now: Instant)
    requires Inv(s)
    ensures Inv(PrepareStep(s, id, organization, actor, approve, secs, now))
  {
    var t := PrepareStep(s, id, organization, actor, approve, secs, now);
    if Duration(approve, secs).Some? {
      DurationSound(approve, secs, now);
    }
    assert forall x :: x in t.requests ==> Shows(s, x);
  }

  lemma StepKeepsInv(s: System, step: Step)
    requires Inv(s)
    ensures Inv(Next(s, step)) && s.decided <= Next(s, step).decided
  {
    hide Inv;
    match step
    case Raise(id, organization, subject, role, actor) => RaiseKeepsInv(s, id, organization, subject, role, actor);
    case Prepare(id, organization, actor, approve, secs, now) => PrepareKeepsInv(s, id, organization, actor, approve, secs, now);
    case Write(index) => WriteKeepsInv(s, index);
    case Expire(ids, now) => ExpireKeepsInv(s, ids, now);
  }

  lemma {:induction false} RunKeepsInv(s: System, steps: seq<Step>)
    requires Inv(s)
    ensures Inv(Run(s, steps)) && s.decided <= Run(s, steps).decided
    decreases steps
  {
    if steps != [] {
      StepKeepsInv(s, steps[0]);
      RunKeepsInv(Next(s, steps[0]), steps[1..]);
    }
  }

  /** The decisions written for one request. */
  function Written(decided: seq<Decision>, id: nat): seq<Decision> {
    if decided == [] then [] else (if decided[0].id == id then [decided[0]] else []) + Written(decided[1..], id)
  }

  lemma {:induction false} WrittenOnce(decided: seq<Decision>, i: nat)
    requires i < |decided| && forall j, k :: 0 <= j < k < |decided| ==> decided[j].id != decided[k].id
    ensures Written(decided, decided[i].id) == [decided[i]]
  {
    if i == 0 {
      WrittenNever(decided[1..], decided[0].id);
    } else {
      WrittenOnce(decided[1..], i - 1);
    }
  }

  lemma {:induction false} WrittenNever(decided: seq<Decision>, id: nat)
    requires forall j :: 0 <= j < |decided| ==> decided[j].id != id
    ensures Written(decided, id) == []
  {
    if decided != [] {
      WrittenNever(decided[1..], id);
    }
  }

  /**
   * In every run, a request that grants at some instant was decided exactly once, by an approval of a principal other
   * than its requester, with a deadline after that instant and at most thirty days after the decision.
   */
  lemma GrantingWasApprovedOnce(steps: seq<Step>, id: nat, now: int)
    requires id in Run(START, steps).requests && GrantsNow(Run(START, steps).requests[id], now)
    ensures var r := Run(START, steps).requests[id];
            var written := Written(Run(START, steps).decided, id);
            && |written| == 1 && written[0].approve
            && r.decidedBy == Some(written[0].actor) && written[0].actor != r.requestedBy
            && r.decidedAt == Some(written[0].at) && r.grantedUntil == written[0].until
            && now < r.grantedUntil.value <= r.decidedAt.value + MAX_GRANT_SECS * MICROS
            && (r.decidedAt.value < r.grantedUntil.value || r.decidedAt.value == MAX_TIME)
  {
    RunKeepsInv(START, steps);
    var end := Run(START, steps);
    assert Shows(end, id);
    var i :| 0 <= i < |end.decided| && ShowsDecision(end.requests[id], id, end.decided[i]);
    WrittenOnce(end.decided, i);
  }

  // ---------- the sweep ends nothing ----------

  function WithoutSweeps(steps: seq<Step>): seq<Step> {
    if steps == [] then [] else (if steps[0].Expire? then [] else [steps[0]]) + WithoutSweeps(steps[1..])
  }

  /** The rows agree, save for approvals that a sweep has relabelled. */
  predicate SameRow(swept: Request, unswept: Request) {
    swept == unswept || (unswept.state == Approved && swept == unswept.(state := Expired))
  }

  ghost predicate Similar(a: System, b: System) {
    && a.requests.Keys == b.requests.Keys && a.inFlight == b.inFlight && a.decided == b.decided
    && forall id :: id in a.requests ==> SameRow(a.requests[id], b.requests[id])
  }

  lemma SimilarStep(a: System, b: System, step: Step)
    requires Similar(a, b)
    ensures step.Expire? ==> Similar(Next(a, step), b)
    ensures !step.Expire? ==> Similar(Next(a, step), Next(b, step))
  {
  }

  /** The step is a sweep that relabels the request while it still grants at the instant: its clock is ahead. */
  predicate EndsEarly(s: System, step: Step, id: nat, now: int) {
    && step.Expire? && id in step.ids && id in s.requests
    && GrantsNow(s.requests[id], now) && s.requests[id].grantedUntil.value <= step.now
  }

  /** Some step of the run does. */
  predicate EndedEarly(s: System, steps: seq<Step>, id: nat, now: int)
    decreases steps
  {
    steps != [] && (EndsEarly(s, steps[0], id, now) || EndedEarly(Next(s, steps[0]), steps[1..], id, now))
  }

  /** What a sweep does to one request at one instant. */
  lemma SweepExactly(s: System, ids: set<nat>, t: Instant, id: nat, now: int)
    requires id in s.requests
    ensures GrantsNow(Next(s, Expire(ids, t)).requests[id], now)
            <==> GrantsNow(s.requests[id], now) && !EndsEarly(s, Expire(ids, t), id, now)
  {
  }

  /** A sweep whose clock is ahead ends access early. */
  lemma SweepAheadEndsAccess(s: System, id: nat, now: Instant, ahead: Instant)
    requires id in s.requests && GrantsNow(s.requests[id], now) && s.requests[id].grantedUntil.value <= ahead
    ensures !GrantsNow(Next(s, Expire({id}, ahead)).requests[id], now)
  {
    SweepExactly(s, {id}, ahead, id, now);
  }

  /** The two systems answer alike about the request at the instant. */
  predicate Agree(a: System, b: System, id: nat, now: int) {
    id in a.requests && id in b.requests ==> (GrantsNow(a.requests[id], now) <==> GrantsNow(b.requests[id], now))
  }

  lemma AgreeStep(a: System, b: System, step: Step, id: nat, now: int)
    requires Similar(a, b) && Agree(a, b, id, now) && !EndsEarly(a, step, id, now)
    ensures Agree(Next(a, step), if step.Expire? then b else Next(b, step), id, now)
  {
  }

  /** Without sweeps, what grants at an instant goes on granting at it. */
  lemma {:induction false} GrantStays(s: System, steps: seq<Step>, id: nat, now: int)
    requires id in s.requests && GrantsNow(s.requests[id], now)
    ensures var t := Run(s, WithoutSweeps(steps)); id in t.requests && GrantsNow(t.requests[id], now)
    decreases steps
  {
    if steps != [] {
      var step, rest := steps[0], steps[1..];
      WithoutSweepsStep(steps);
      if step.Expire? {
        GrantStays(s, rest, id, now);
      } else {
        GrantStays(Next(s, step), rest, id, now);
        RunCons(s, step, WithoutSweeps(rest));
      }
    }
  }

  lemma WithoutSweepsStep(steps: seq<Step>)
    requires steps != []
    ensures WithoutSweeps(steps)
            == if steps[0].Expire? then WithoutSweeps(steps[1..]) else [steps[0]] + WithoutSweeps(steps[1..])
  {
  }

  lemma RunCons(s: System, step: Step, rest: seq<Step>)
    ensures Run(s, [step] + rest) == Run(Next(s, step), rest)
  {
    assert ([step] + rest)[1..] == rest;
  }

  /** With and without sweeps the runs answer alike, unless a sweep ended the access early: then only one grants. */
  lemma {:induction false} SweepsCompared(a: System, b: System, steps: seq<Step>, id: nat, now: int)
    requires Similar(a, b) && Agree(a, b, id, now)
    ensures var swept, unswept := Run(a, steps), Run(b, WithoutSweeps(steps));
            && swept.requests.Keys == unswept.requests.Keys
            && (EndedEarly(a, steps, id, now) ==>
                  id in swept.requests && !GrantsNow(swept.requests[id], now) && GrantsNow(unswept.requests[id], now))
            && (!EndedEarly(a, steps, id, now) ==> Agree(swept, unswept, id, now))
    decreases steps
  {
    hide GrantsNow, Next, EndsEarly, SameRow;
    if steps != [] {
      var step, rest := steps[0], steps[1..];
      SimilarStep(a, b, step);
      WithoutSweepsStep(steps);
      var b1 := if step.Expire? then b else Next(b, step);
      if !step.Expire? {
        RunCons(b, step, WithoutSweeps(rest));
      }
      if EndsEarly(a, step, id, now) {
        EarlyEnd(a, b, steps, id, now);
      } else {
        AgreeStep(a, b, step, id, now);
        SweepsCompared(Next(a, step), b1, rest, id, now);
      }
    }
  }

  lemma EarlyEnd(a: System, b: System, steps: seq<Step>, id: nat, now: int)
    requires Similar(a, b) && Agree(a, b, id, now) && steps != [] && EndsEarly(a, steps[0], id, now)
    ensures var swept, unswept := Run(a, steps), Run(b, WithoutSweeps(steps));
            && id in swept.requests && !GrantsNow(swept.requests[id], now)
            && id in unswept.requests && GrantsNow(unswept.requests[id], now)
            && swept.requests.Keys == unswept.requests.Keys
  {
    GrantStays(b, steps, id, now);
    NeverGrantsAgain(Next(a, steps[0]), steps[1..], id, now, now);
    SimilarRuns(a, b, steps);
  }

  lemma {:induction false} SimilarRuns(a: System, b: System, steps: seq<Step>)
    requires Similar(a, b)
    ensures Similar(Run(a, steps), Run(b, WithoutSweeps(steps)))
    decreases steps
  {
    hide Next, SameRow;
    if steps != [] {
      var step, rest := steps[0], steps[1..];
      SimilarStep(a, b, step);
      WithoutSweepsStep(steps);
      if step.Expire? {
        SimilarRuns(Next(a, step), b, rest);
      } else {
        SimilarRuns(Next(a, step), Next(b, step), rest);
        RunCons(b, step, WithoutSweeps(rest));
      }
    }
  }

  /**
   * In every run, leaving out all sweeps changes what a request grants at an instant if and only if some sweep, its clock
   * at or past the deadline, relabelled the request while it granted at that instant.
   */
  lemma SweepsMatterExactly(steps: seq<Step>, id: nat, now: int)
    ensures var swept, unswept := Run(START, steps), Run(START, WithoutSweeps(steps));
            && swept.requests.Keys == unswept.requests.Keys
            && (id in swept.requests ==>
                  (GrantsNow(swept.requests[id], now) != GrantsNow(unswept.requests[id], now) <==> EndedEarly(START, steps, id, now)))
            && (EndedEarly(START, steps, id, now) ==> id in swept.requests && !GrantsNow(swept.requests[id], now))
  {
    SweepsCompared(START, START, steps, id, now);
  }

  /** No sweep of the run read a clock later than t. */
  predicate SweptBy(steps: seq<Step>, t: int) {
    forall i :: 0 <= i < |steps| && steps[i].Expire? ==> steps[i].now <= t
  }

  /** So access ends by the deadline alone wherever no sweep was ahead of the instant. */
  lemma {:induction false} SweptInTime(s: System, steps: seq<Step>, id: nat, now: int)
    requires SweptBy(steps, now)
    ensures !EndedEarly(s, steps, id, now)
    decreases steps
  {
    if steps != [] {
      assert steps[0].Expire? ==> steps[0].now <= now;
      SweptInTime(Next(s, steps[0]), steps[1..], id, now);
    }
  }

  /** A decided request never comes to grant later: not at a later instant, and not after any further steps. */
  lemma {:induction false} NeverGrantsAgain(s: System, steps: seq<Step>, id: nat, now: int, later: int)
    requires id in s.requests && s.requests[id].state != Pending && !GrantsNow(s.requests[id], now) && now <= later
    ensures id in Run(s, steps).requests && !GrantsNow(Run(s, steps).requests[id], later)
    decreases steps
  {
    if steps != [] {
      NeverGrantsAgain(Next(s, steps[0]), steps[1..], id, now, later);
    }
  }

  // ---------- the handler on its own ----------

  datatype Reply = Done | BadRequest | NotFound | SelfApproval

  /** The requests of one scope. */
  class RequestStore {
    var requests: map<nat, Request>

    /** `decide_access_request` with nothing between its clock and its write. */
    method Decide(id: nat, organization: string, actor: string, approve: bool, secs: Option<nat>, now: Instant)
      returns (reply: Reply)
      modifies this
      ensures reply == BadRequest <==> !AcceptedBody(approve, secs)
      ensures reply == SelfApproval <==>
                && AcceptedBody(approve, secs) && id in old(requests) && old(requests)[id].organization == organization
                && old(requests)[id].requestedBy == actor
      ensures reply == Done <==>
                && AcceptedBody(approve, secs) && id in old(requests) && old(requests)[id].organization == organization
                && old(requests)[id].requestedBy != actor && old(requests)[id].state == Pending
      ensures reply != Done ==> requests == old(requests)
      ensures reply == Done ==>
                && requests.Keys == old(requests).Keys
                && (forall x :: x in requests && x != id ==> requests[x] == old(requests)[x])
                && (approve ==> forall t :: t <= 0x7FFF_FFFF_FFFF_FFFE ==> (GrantsNow(requests[id], t) <==> t < now + secs.value * 1_000_000))
                && (!approve ==> forall t :: !GrantsNow(requests[id], t))
                && requests[id].(state := Pending, decidedBy := None, decidedAt := None, grantedUntil := None)
                   == old(requests)[id].(decidedBy := None, decidedAt := None, grantedUntil := None)
                && requests[id].state == (if approve then Approved else Denied)
                && requests[id].decidedBy == Some(actor) && requests[id].decidedAt == Some(now)
      ensures var prepared := Next(System(old(requests), [], []), Prepare(id, organization, actor, approve, secs, now));
              requests == Next(prepared, Write(0)).requests
    {
      var duration := Duration(approve, secs);
      if duration.None? {
        return BadRequest;
      }
      if id !in requests || requests[id].organization != organization {
        return NotFound;
      }
      var until := if approve then Some(SaturatingAdd(now, duration.value * MICROS)) else None;
      if requests[id].requestedBy == actor {
        return SelfApproval;
      }
      if requests[id].state != Pending {
        return NotFound;
      }
      requests := requests[id := Decided(requests[id], Decision(id, actor, approve, now, until))];
      return Done;
    }
  }

  // ---------- the scan for a role ----------

  datatype Role = Role(at: Position, slug: string)

  function Positions(roles: seq<Role>): (at: seq<Position>)
    ensures |at| == |roles| && forall i :: 0 <= i < |at| ==> at[i] == roles[i].at
  {
    seq(|roles|, i requires 0 <= i < |roles| => roles[i].at)
  }

  predicate HasSlug(roles: seq<Role>, slug: string) {
    exists i :: 0 <= i < |roles| && roles[i].slug == slug
  }

  /** The paging loop of `require_grantable`: a role is found exactly when some page holds it, on pages of any size but zero. */
  method RoleDefined(roles: seq<Role>, pageSize: nat, slug: string) returns (defined: bool)
    requires Ordered(Positions(roles))
    ensures defined <==> pageSize > 0 && HasSlug(roles, slug)
  {
    var at := Positions(roles);
    hide Positions, PageAfter, Ordered;
    var cursor: Option<Position> := None;
    defined := false;
    ghost var read: nat := 0;
    while true
      invariant read <= |roles| && cursor == if read == 0 then None else Some(at[read - 1])
      invariant !HasSlug(roles[..read], slug)
      invariant pageSize == 0 ==> read == 0
      decreases |roles| - read
    {
      PageFrom(roles, at, pageSize, read);
      var page := PageAfter(roles, at, pageSize, cursor);
      HasSlugConcat(roles, read, |page|, slug);
      if page == [] {
        assert pageSize == 0 || roles[..read] == roles;
        break;
      }
      if HasSlug(page, slug) {
        defined := true;
        break;
      }
      cursor := Some(page[|page| - 1].at);
      read := read + |page|;
    }
  }

  lemma HasSlugConcat(roles: seq<Role>, i: nat, n: nat, slug: string)
    requires i + n <= |roles|
    ensures HasSlug(roles[..i + n], slug) <==> HasSlug(roles[..i], slug) || HasSlug(roles[i..i + n], slug)
    ensures HasSlug(roles[i..i + n], slug) ==> HasSlug(roles, slug)
  {
    var all, head, tail := roles[..i + n], roles[..i], roles[i..i + n];
    assert forall k :: 0 <= k < i ==> all[k] == head[k];
    assert forall k :: 0 <= k < n ==> tail[k] == all[i + k] == roles[i + k];
    if HasSlug(all, slug) {
      var k :| 0 <= k < |all| && all[k].slug == slug;
      assert k < i ==> head[k].slug == slug;
      assert k >= i ==> tail[k - i].slug == slug;
    }
  }
}
