/** The process-ownership watchdog: whom it knows, which groups it signals, and what a whole run keeps. */
module Watchdog {
  import opened Text

  // ---------- censuses ----------

  datatype Row = Row(pid: int, state: char, ppid: int, pgid: int, start: int)

  datatype Identity = Identity(pid: int, start: int)

  /** One reading of the process table, by process id. */
  type Census = map<int, Row>

  function IdOf(r: Row): Identity {
    Identity(r.pid, r.start)
  }

  predicate Live(r: Row) {
    r.state != 'Z'
  }

  /** Row k's parent is in the census and its identity is in the set. */
  predicate HasKnownParent(census: Census, k: int, known: set<Identity>)
    requires k in census
  {
    census[k].ppid in census && IdOf(census[census[k].ppid]) in known
  }

  /** Nothing is left to register. */
  predicate Closed(census: Census, known: set<Identity>) {
    forall k :: k in census && HasKnownParent(census, k, known) ==> IdOf(census[k]) in known
  }

  // ---------- parent chains ----------

  /** The row filed under k has a parent in the census, and the row filed under j carries that parent's identity. */
  predicate ParentLink(census: Census, k: int, j: int)
    requires k in census && j in census
  {
    census[k].ppid in census && IdOf(census[census[k].ppid]) == IdOf(census[j])
  }

  /** Rows of one census from a row up to a known identity, each the parent of the one before. */
  ghost predicate Chain(census: Census, known: set<Identity>, path: seq<int>) {
    && |path| > 0
    && (forall i :: 0 <= i < |path| ==> path[i] in census)
    && (forall i :: 0 <= i < |path| - 1 ==> ParentLink(census, path[i], path[i + 1]))
    && IdOf(census[path[|path| - 1]]) in known
  }

  ghost predicate Reaches(census: Census, known: set<Identity>, k: int) {
    exists path :: Chain(census, known, path) && path[0] == k
  }

  /** The initial identities and those of the rows whose parent chain reaches one of them. */
  ghost function Descendants(census: Census, known: set<Identity>): set<Identity> {
    known + set k | k in census && Reaches(census, known, k) :: IdOf(census[k])
  }

  lemma ChainUp(census: Census, known: set<Identity>, k: int, j: int)
    requires k in census && j in census && ParentLink(census, k, j) && Reaches(census, known, j)
    ensures Reaches(census, known, k)
  {
    var path :| Chain(census, known, path) && path[0] == j;
    var longer := [k] + path;
    assert Chain(census, known, longer);
  }

  /** Every row on a chain belongs to every closed set that holds the initial identities. */
  lemma {:induction false} ChainInClosed(census: Census, known: set<Identity>, path: seq<int>, s: set<Identity>)
    requires Chain(census, known, path) && known <= s && Closed(census, s)
    ensures IdOf(census[path[0]]) in s
    decreases path
  {
    if |path| > 1 {
      assert Chain(census, known, path[1..]);
      ChainInClosed(census, known, path[1..], s);
      assert ParentLink(census, path[0], path[1]);
      assert HasKnownParent(census, path[0], s);
    }
  }

  /** The descendants are the least closed set over the initial identities. */
  lemma DescendantsLeast(census: Census, known: set<Identity>)
    ensures Closed(census, Descendants(census, known))
    ensures forall s :: Closed(census, s) && known <= s ==> Descendants(census, known) <= s
  {
    var all := Descendants(census, known);
    forall k | k in census && HasKnownParent(census, k, all) ensures IdOf(census[k]) in all {
      ParentReaches(census, known, k);
    }
    forall s | Closed(census, s) && known <= s ensures all <= s {
      forall k | k in census && Reaches(census, known, k) ensures IdOf(census[k]) in s {
        var path :| Chain(census, known, path) && path[0] == k;
        ChainInClosed(census, known, path, s);
      }
    }
  }

  lemma ParentReaches(census: Census, known: set<Identity>, k: int)
    requires k in census && HasKnownParent(census, k, Descendants(census, known))
    ensures Reaches(census, known, k)
  {
    var p := census[k].ppid;
    if IdOf(census[p]) in known {
      assert Chain(census, known, [p]);
      assert Reaches(census, known, p);
      ChainUp(census, known, k, p);
    } else {
      var j :| j in census && Reaches(census, known, j) && IdOf(census[j]) == IdOf(census[p]);
      ChainUp(census, known, k, j);
    }
  }

  /** Where no row carries a known identity, nothing is added: a reused process id with another start owns nobody. */
  lemma ReusedPidOwnsNobody(census: Census, known: set<Identity>)
    requires forall k :: k in census ==> Identity(census[k].pid, census[k].start) !in known
    ensures Descendants(census, known) == known
  {
    assert Closed(census, known);
    DescendantsLeast(census, known);
  }

  // ---------- ownership across censuses ----------

  /** The census shows the child under the parent. */
  ghost predicate Shows(census: Census, child: Identity, parent: Identity) {
    exists k :: k in census && IdOf(census[k]) == child
                && census[k].ppid in census && IdOf(census[census[k].ppid]) == parent
  }

  /** A parent link on the rows: the child's row names a parent whose own row is in the same census. */
  lemma ShowsExactly(census: Census, child: Identity, parent: Identity)
    ensures Shows(census, child, parent) <==>
            exists k :: k in census && Identity(census[k].pid, census[k].start) == child && census[k].ppid in census
                        && Identity(census[census[k].ppid].pid, census[census[k].ppid].start) == parent
  {
  }

  /** Some census shows the child under the parent. */
  ghost predicate Observed(seen: seq<Census>, child: Identity, parent: Identity) {
    exists t :: 0 <= t < |seen| && Shows(seen[t], child, parent)
  }

  ghost predicate Lineage(seen: seq<Census>, root: Identity, ids: seq<Identity>) {
    && |ids| > 0 && ids[0] == root
    && forall i :: 0 <= i < |ids| - 1 ==> Observed(seen, ids[i + 1], ids[i])
  }

  /** The identity is linked to the root by parent links, each observed in some census. */
  ghost predicate Owned(seen: seq<Census>, root: Identity, id: Identity) {
    exists ids :: Lineage(seen, root, ids) && ids[|ids| - 1] == id
  }

  lemma OwnedExtends(seen: seq<Census>, root: Identity, parent: Identity, child: Identity)
    requires Owned(seen, root, parent) && Observed(seen, child, parent)
    ensures Owned(seen, root, child)
  {
    var ids :| Lineage(seen, root, ids) && ids[|ids| - 1] == parent;
    assert Lineage(seen, root, ids + [child]);
  }

  lemma OwnedGrows(seen: seq<Census>, more: seq<Census>, root: Identity, id: Identity)
    requires Owned(seen, root, id) && seen <= more
    ensures Owned(more, root, id)
  {
    var ids :| Lineage(seen, root, ids) && ids[|ids| - 1] == id;
    forall i | 0 <= i < |ids| - 1 ensures Observed(more, ids[i + 1], ids[i]) {
      assert Observed(seen, ids[i + 1], ids[i]);
      var t :| 0 <= t < |seen| && Shows(seen[t], ids[i + 1], ids[i]);
      assert Shows(more[t], ids[i + 1], ids[i]);
    }
    assert Lineage(more, root, ids);
  }

  ghost predicate AllOwned(seen: seq<Census>, root: Identity, known: set<Identity>) {
    forall id :: id in known ==> Owned(seen, root, id)
  }

  /** Whatever is registered from a census that has been seen is owned, however far the registration got. */
  lemma RegisteredAreOwned(seen: seq<Census>, census: Census, root: Identity, known: set<Identity>, after: set<Identity>)
    requires |seen| > 0 && seen[|seen| - 1] == census && AllOwned(seen, root, known)
    requires forall s :: Closed(census, s) && known <= s ==> after <= s
    ensures AllOwned(seen, root, after)
  {
    var s := known + set k | k in census && Owned(seen, root, IdOf(census[k])) :: IdOf(census[k]);
    forall k | k in census && HasKnownParent(census, k, s) ensures IdOf(census[k]) in s {
      var p := census[k].ppid;
      assert Shows(seen[|seen| - 1], IdOf(census[k]), IdOf(census[p]));
      OwnedExtends(seen, root, IdOf(census[p]), IdOf(census[k]));
    }
    assert Closed(census, s);
  }

  // ---------- groups ----------

  function LiveGroups(census: Census, known: set<Identity>): set<int> {
    set k | k in census && IdOf(census[k]) in known && Live(census[k]) :: census[k].pgid
  }

  /** Above 1, and every live member in the census is known. */
  predicate Proven(census: Census, known: set<Identity>, group: int) {
    group > 1 && forall k :: k in census && census[k].pgid == group && Live(census[k]) ==> IdOf(census[k]) in known
  }

  /** Groups and proof, on the rows: a process is its id and start time, and lives while its state is not `Z`. */
  lemma OnRows(census: Census, known: set<Identity>)
    ensures forall g :: g in LiveGroups(census, known) <==>
              exists k :: k in census && census[k].state != 'Z' && Identity(census[k].pid, census[k].start) in known && census[k].pgid == g
    ensures forall g :: Proven(census, known, g) <==>
              && g > 1
              && forall k :: k in census && census[k].pgid == g && census[k].state != 'Z' ==> Identity(census[k].pid, census[k].start) in known
    ensures NobodyLive(census, known) <==>
            forall k :: k in census && Identity(census[k].pid, census[k].start) in known ==> census[k].state == 'Z'
    ensures Closed(census, known) <==>
            forall k :: k in census && census[k].ppid in census
                        && Identity(census[census[k].ppid].pid, census[census[k].ppid].start) in known ==>
                          Identity(census[k].pid, census[k].start) in known
  {
  }

  lemma ProvenOnRows(census: Census, known: set<Identity>)
    ensures (forall g :: g in LiveGroups(census, known) ==> Proven(census, known, g))
            <==> forall k :: k in census && census[k].state != 'Z' && Identity(census[k].pid, census[k].start) in known ==>
                   && census[k].pgid > 1
                   && forall j :: j in census && census[j].pgid == census[k].pgid && census[j].state != 'Z' ==>
                        Identity(census[j].pid, census[j].start) in known
  {
    forall k | k in census && census[k].state != 'Z' && Identity(census[k].pid, census[k].start) in known
      ensures census[k].pgid in LiveGroups(census, known)
    {
    }
  }

  method Least(s: set<int>) returns (m: int)
    requires s != {}
    ensures m in s && forall x :: x in s ==> m <= x
  {
    m := Pick(s);
    var todo := s;
    while todo != {}
      invariant m in s && todo <= s
      invariant forall x :: x in s && x !in todo ==> m <= x
      decreases todo
    {
      var x := Pick(todo);
      if x < m {
        m := x;
      }
      todo := todo - {x};
    }
  }

  /** `owned_groups`: the live groups of known processes in order, or None where any of them is unproven. */
  method OwnedGroups(census: Census, known: set<Identity>) returns (r: Option<seq<int>>)
    ensures r.Some? <==> forall g :: g in LiveGroups(census, known) ==> Proven(census, known, g)
    ensures r.Some? ==> (forall i, j :: 0 <= i < j < |r.value| ==> r.value[i] < r.value[j])
                        && forall g :: g in r.value <==> g in LiveGroups(census, known)
    ensures r.Some? <==>
            forall k :: k in census && census[k].state != 'Z' && Identity(census[k].pid, census[k].start) in known ==>
              && census[k].pgid > 1
              && forall j :: j in census && census[j].pgid == census[k].pgid && census[j].state != 'Z' ==>
                   Identity(census[j].pid, census[j].start) in known
    ensures r.Some? ==>
              forall g :: g in r.value <==>
                exists k :: k in census && census[k].state != 'Z' && Identity(census[k].pid, census[k].start) in known && census[k].pgid == g
  {
    OnRows(census, known);
    ProvenOnRows(census, known);
    hide LiveGroups, Proven;
    var groups: seq<int> := [];
    var rest := LiveGroups(census, known);
    while rest != {}
      invariant forall g :: g in LiveGroups(census, known) <==> g in groups || g in rest
      invariant forall i, j :: 0 <= i < j < |groups| ==> groups[i] < groups[j]
      invariant forall i, h :: 0 <= i < |groups| && h in rest ==> groups[i] < h
      decreases rest
    {
      var m := Least(rest);
      groups := groups + [m];
      rest := rest - {m};
    }
    for i := 0 to |groups|
      invariant forall j :: 0 <= j < i ==> Proven(census, known, groups[j])
    {
      if !Proven(census, known, groups[i]) {
        assert groups[i] in LiveGroups(census, known);
        return None;
      }
    }
    return Some(groups);
  }

  // ---------- signals ----------

  datatype Kind = Term | Kill

  /** A signal to a group, with the census and the known identities it was sent on. */
  datatype Sent = Sent(group: int, kind: Kind, census: Census, known: set<Identity>)

  /** What the signal call meets: it arrives, the group is gone already, or the call is refused. */
  datatype Delivery = Arrived | Gone | Refused

  /** The signal went to a group above 1 whose live members in its census were all owned. */
  ghost predicate Safe(seen: seq<Census>, root: Identity, s: Sent) {
    && Proven(s.census, s.known, s.group)
    && s.group in LiveGroups(s.census, s.known)
    && s.census in seen
    && AllOwned(seen, root, s.known)
  }

  /** Signals of one kind on one census, one to each live group of the known processes, in ascending order. */
  ghost predicate FullRound(round: seq<Sent>, kind: Kind, census: Census, known: set<Identity>) {
    && (forall i :: 0 <= i < |round| ==> round[i] == Sent(round[i].group, kind, census, known))
    && (forall i, j :: 0 <= i < j < |round| ==> round[i].group < round[j].group)
    && (forall g :: g in LiveGroups(census, known) <==> exists i :: 0 <= i < |round| && round[i].group == g)
  }

  /** On the rows of the signal's census: a group above 1, one of its members alive, and every live member owned. */
  ghost predicate OwnGroupOnly(seen: seq<Census>, root: Identity, s: Sent) {
    && s.group > 1 && s.census in seen
    && (exists k :: k in s.census && s.census[k].pgid == s.group && s.census[k].state != 'Z')
    && forall k :: k in s.census && s.census[k].pgid == s.group && s.census[k].state != 'Z' ==>
         Owned(seen, root, Identity(s.census[k].pid, s.census[k].start))
  }

  lemma SafeMeans(seen: seq<Census>, root: Identity, s: Sent)
    requires Safe(seen, root, s)
    ensures OwnGroupOnly(seen, root, s)
  {
    hide Owned;
  }

  /** What a full round did, on the rows: a signal of the kind to each live group of the known processes, and to no other. */
  lemma FullRoundMeans(round: seq<Sent>, kind: Kind, census: Census, known: set<Identity>, g: int)
    requires FullRound(round, kind, census, known)
    ensures (exists i :: 0 <= i < |round| && round[i] == Sent(g, kind, census, known)) <==>
            exists k :: k in census && census[k].state != 'Z' && Identity(census[k].pid, census[k].start) in known && census[k].pgid == g
    ensures forall i, j :: 0 <= i < j < |round| ==> round[i].group != round[j].group
    ensures forall i :: 0 <= i < |round| ==> round[i].kind == kind
  {
    OnRows(census, known);
    hide LiveGroups;
    if g in LiveGroups(census, known) {
      var i :| 0 <= i < |round| && round[i].group == g;
      assert round[i] == Sent(g, kind, census, known);
    }
  }

  lemma RoundIsFull(round: seq<Sent>, groups: seq<int>, kind: Kind, census: Census, known: set<Identity>)
    requires |round| == |groups| && forall i :: 0 <= i < |groups| ==> round[i] == Sent(groups[i], kind, census, known)
    requires forall i, j :: 0 <= i < j < |groups| ==> groups[i] < groups[j]
    requires forall g :: g in groups <==> g in LiveGroups(census, known)
    ensures FullRound(round, kind, census, known)
  {
    hide LiveGroups;
    forall g | g in groups ensures exists i :: 0 <= i < |round| && round[i].group == g {
      var i :| 0 <= i < |groups| && groups[i] == g;
      assert round[i].group == g;
    }
  }

  ghost predicate NobodyLive(census: Census, known: set<Identity>) {
    forall k :: k in census && IdOf(census[k]) in known ==> !Live(census[k])
  }

  predicate AnyLive(census: Census, known: set<Identity>) {
    exists k :: k in census && IdOf(census[k]) in known && Live(census[k])
  }

  lemma SafeGrows(seen: seq<Census>, more: seq<Census>, root: Identity, s: Sent)
    requires Safe(seen, root, s) && seen <= more
    ensures Safe(more, root, s)
  {
    AllOwnedGrows(seen, more, root, s.known);
    var i :| 0 <= i < |seen| && seen[i] == s.census;
    assert more[i] == s.census;
  }

  lemma AllOwnedGrows(seen: seq<Census>, more: seq<Census>, root: Identity, known: set<Identity>)
    requires AllOwned(seen, root, known) && seen <= more
    ensures AllOwned(more, root, known)
  {
    forall id | id in known ensures Owned(more, root, id) {
      OwnedGrows(seen, more, root, id);
    }
  }

  // ---------- cleanup ----------

  /** Why a cleanup stopped. */
  datatype Halt = CensusFailed | Unproven | SignalRefused | StillAlive | NotReaped

  /** What a cleanup meets: a census for each round and one at the end, the signal calls, and the final wait. */
  datatype CleanupWorld = CleanupWorld(
    term: Option<Census>, kill: Option<Census>, last: Option<Census>, deliver: (Kind, int) -> Delivery, reaped: bool)

  /** Every live group of the known processes is proven, and no signal to one is refused. */
  ghost predicate RoundPasses(kind: Kind, census: Census, known: set<Identity>, deliver: (Kind, int) -> Delivery) {
    forall g :: g in LiveGroups(census, known) ==> Proven(census, known, g) && deliver(kind, g) != Refused
  }

  function Ids(census: Census): set<Identity> {
    set k | k in census :: IdOf(census[k])
  }

  /** Every closed set over the first identities holds the second. */
  ghost predicate Within(census: Census, start: set<Identity>, known: set<Identity>) {
    forall s :: Closed(census, s) && start <= s ==> known <= s
  }

  /** No interrupt lands before the last of the new identities is registered. */
  ghost predicate RegistersAll(census: Census, known: set<Identity>, interruptAfter: Option<nat>) {
    interruptAfter.Some? ==> |Descendants(census, known) - known| <= interruptAfter.value
  }

  ghost predicate TermPasses(w: CleanupWorld, known: set<Identity>) {
    w.term.Some? && RoundPasses(Term, w.term.value, Descendants(w.term.value, known), w.deliver)
  }

  ghost predicate KillPasses(w: CleanupWorld, known: set<Identity>) {
    && w.term.Some? && w.kill.Some?
    && RoundPasses(Kill, w.kill.value, Descendants(w.kill.value, Descendants(w.term.value, known)), w.deliver)
  }

  /** Both rounds pass on what is registered by then, nobody known is alive in the last census, and the child is reaped. */
  ghost predicate CleanupPasses(w: CleanupWorld, known: set<Identity>) {
    && w.term.Some? && w.kill.Some? && w.last.Some?
    && var k1 := Descendants(w.term.value, known);
    && var k2 := Descendants(w.kill.value, k1);
    && RoundPasses(Term, w.term.value, k1, w.deliver) && RoundPasses(Kill, w.kill.value, k2, w.deliver)
    && NobodyLive(w.last.value, k2) && w.reaped
  }

  // ---------- a whole run ----------

  const OUTPUT_BYTES: nat := 8 * 1024 * 1024
  const LEDGER_BYTES: nat := 1024 * 1024

  datatype Reason =
    | Completed | LedgerLimit | DeadlineReached | OutputLimit | Interrupted | ObserverFailed
    | DescendantLeak | StagesMissing | StagesInvalid

  datatype Interrupt = Never | BeforeRead | AfterRead

  /** What one turn of the observing loop meets; `output` is None with nothing to read, Some(0) at end of file. */
  datatype Turn = Turn(
    census: Option<Census>, interruptAfter: Option<nat>, ledger: Option<nat>, output: Option<nat>, readFails: bool,
    interrupt: Interrupt, exited: bool)

  /** How the command starts: not at all, without a census to bind it to, or with one. */
  datatype Start =
    | NotSpawned(interrupted: bool)
    | NotBound(interrupted: bool)
    | Spawned(pid: int, first: Census, interruptAfter: Option<nat>)

  /** What a run meets. The clock reaches the step's budget in the last turn; `exit` is None while the command runs on. */
  datatype RunWorld = RunWorld(
    start: Start, turns: seq<Turn>, settled: Option<Census>, cleanup: CleanupWorld, exit: Option<int>,
    stages: Option<seq<string>>)

  datatype RunResult = RunResult(
    passed: bool, reason: Reason, clean: bool, observed: nat, written: nat, handleKilled: bool)

  /** The last line of stage evidence and the line it must hold. */
  predicate StagesComplete(labels: seq<string>) {
    "test.assertions.end" in labels && labels[|labels| - 1] == "broker.drop.end"
  }

  /** The command's own row leads its own process group. */
  predicate Bindable(census: Census, pid: int) {
    pid in census && census[pid].pgid == pid
  }

  ghost predicate RoundProven(census: Census, known: set<Identity>) {
    forall g :: g in LiveGroups(census, known) ==> Proven(census, known, g)
  }

  // ---------- what the observing loop meets ----------

  /** What is known after the censuses of the first k turns. */
  ghost function KnownAfter(known: set<Identity>, turns: seq<Turn>, k: nat): set<Identity>
    requires k <= |turns|
  {
    if k == 0 then known
    else
      var before := KnownAfter(known, turns, k - 1);
      if turns[k - 1].census.None? then before else Descendants(turns[k - 1].census.value, before)
  }

  /** The output ended in one of the first k turns. */
  predicate EndedBefore(turns: seq<Turn>, k: nat)
    requires k <= |turns|
  {
    exists e :: 0 <= e < k && turns[e].output == Some(0)
  }

  /** The bytes the first k turns read: nothing is read once the output has ended. */
  function Output(turns: seq<Turn>, k: nat): nat
    requires k <= |turns|
  {
    if k == 0 then 0
    else Output(turns, k - 1) + if EndedBefore(turns, k - 1) || turns[k - 1].output.None? then 0 else turns[k - 1].output.value
  }

  /** Nothing goes wrong in the turn: a full census, a ledger within its bound, time left, no interrupt, and output within its cap. */
  ghost predicate Fine(known: set<Identity>, turns: seq<Turn>, i: nat)
    requires i < |turns|
  {
    var turn := turns[i];
    && turn.census.Some? && RegistersAll(turn.census.value, KnownAfter(known, turns, i), turn.interruptAfter)
    && turn.ledger.Some? && turn.ledger.value <= LEDGER_BYTES
    && i < |turns| - 1
    && turn.interrupt == Never
    && (turn.readFails ==> turn.output.None? || EndedBefore(turns, i))
    && Output(turns, i + 1) <= OUTPUT_BYTES
  }

  /** The command has exited and its output has ended by the end of the turn. */
  predicate Finished(turns: seq<Turn>, i: nat)
    requires i < |turns|
  {
    turns[i].exited && EndedBefore(turns, i + 1)
  }

  /** The loop goes on past the turn. */
  ghost predicate GoesOn(known: set<Identity>, turns: seq<Turn>, i: nat)
    requires i < |turns|
  {
    Fine(known, turns, i) && !Finished(turns, i)
  }

  /** The turn the loop ends in: the first it does not go on past. */
  ghost predicate EndsIn(known: set<Identity>, turns: seq<Turn>, j: nat) {
    j < |turns| && !GoesOn(known, turns, j) && forall i :: 0 <= i < j ==> GoesOn(known, turns, i)
  }

  /** Why the loop ends in a turn: the first thing that stops it, in the order it looks. */
  ghost function Why(known: set<Identity>, turns: seq<Turn>, j: nat): Reason
    requires j < |turns|
  {
    var turn := turns[j];
    if turn.census.None? then ObserverFailed
    else if !RegistersAll(turn.census.value, KnownAfter(known, turns, j), turn.interruptAfter) then Interrupted
    else if turn.ledger.None? then ObserverFailed
    else if turn.ledger.value > LEDGER_BYTES then LedgerLimit
    else if j == |turns| - 1 then DeadlineReached
    else if turn.interrupt == BeforeRead then Interrupted
    else if turn.readFails && turn.output.Some? && !EndedBefore(turns, j) then ObserverFailed
    else if turn.interrupt == AfterRead then Interrupted
    else if Output(turns, j + 1) > OUTPUT_BYTES then OutputLimit
    else Completed
  }

  /** The turn's census, where there is one, is registered in full. */
  ghost predicate CensusRead(known: set<Identity>, turns: seq<Turn>, j: nat)
    requires j < |turns|
  {
    turns[j].census.Some? ==> RegistersAll(turns[j].census.value, KnownAfter(known, turns, j), turns[j].interruptAfter)
  }

  /** The loop completes exactly where nothing went wrong and the command has exited with its output ended. */
  lemma CompletesExactly(known: set<Identity>, turns: seq<Turn>, j: nat)
    requires EndsIn(known, turns, j)
    ensures Why(known, turns, j) == Completed <==> Fine(known, turns, j) && Finished(turns, j)
    ensures Why(known, turns, j) == Completed ==> CensusRead(known, turns, j)
  {
  }

  lemma EndsOnce(known: set<Identity>, turns: seq<Turn>, i: nat, j: nat)
    requires EndsIn(known, turns, i) && EndsIn(known, turns, j)
    ensures i == j
  {
    hide GoesOn;
  }

  /** The command started, and its own row leads its own group in the first census. */
  predicate IsBound(w: RunWorld) {
    w.start.Spawned? && w.start.pid in w.start.first && w.start.first[w.start.pid].pgid == w.start.pid
  }

  /** What is known when the loop begins. */
  ghost function FirstKnown(w: RunWorld): set<Identity>
    requires IsBound(w)
  {
    Descendants(w.start.first, {IdOf(w.start.first[w.start.pid])})
  }

  /** The loop ends in turn j, and no interrupt landed inside a registration. */
  ghost predicate FullyRegistered(w: RunWorld, j: nat)
    requires IsBound(w)
  {
    && j < |w.turns| && RegistersAll(w.start.first, {IdOf(w.start.first[w.start.pid])}, w.start.interruptAfter)
    && EndsIn(FirstKnown(w), w.turns, j) && CensusRead(FirstKnown(w), w.turns, j)
  }

  /** The run passes, its loop ending in turn j: a condition on what the run meets. */
  ghost predicate PassesIn(w: RunWorld, requireStages: bool, j: nat) {
    && IsBound(w)
    && var root := {IdOf(w.start.first[w.start.pid])};
    && RegistersAll(w.start.first, root, w.start.interruptAfter)
    && var first := Descendants(w.start.first, root);
    && EndsIn(first, w.turns, j) && Fine(first, w.turns, j) && Finished(w.turns, j)
    && w.settled.Some?
    && var known := Descendants(w.settled.value, KnownAfter(first, w.turns, j + 1));
    && NobodyLive(w.settled.value, known)
    && CleanupPasses(w.cleanup, known)
    && w.exit == Some(0)
    && (requireStages ==>
          && w.stages.Some? && w.stages.value != []
          && "test.assertions.end" in w.stages.value && w.stages.value[|w.stages.value| - 1] == "broker.drop.end")
  }

  /** The signals of a run: every live known group terminated on one census, then every one killed on the next. */
  ghost predicate TermThenKill(log: seq<Sent>, split: nat, w: CleanupWorld, known: set<Identity>) {
    && split <= |log| && w.term.Some? && w.kill.Some?
    && (exists before :: FullRound(log[..split], Term, w.term.value, before))
    && FullRound(log[split..], Kill, w.kill.value, known)
  }

  /** A bound run passes exactly when its loop completed and everything behind it held. */
  lemma PassedExactly(w: RunWorld, requireStages: bool, first: set<Identity>, last: nat, reason: Reason, known: set<Identity>, passed: bool)
    requires w.start.Spawned? && Bindable(w.start.first, w.start.pid)
    requires var root := {IdOf(w.start.first[w.start.pid])};
             && (RegistersAll(w.start.first, root, w.start.interruptAfter) ==>
                   && first == Descendants(w.start.first, root)
                   && EndsIn(first, w.turns, last)
                   && (reason == Completed <==> Fine(first, w.turns, last) && Finished(w.turns, last))
                   && (reason == Completed ==> known == KnownAfter(first, w.turns, last + 1)))
             && (!RegistersAll(w.start.first, root, w.start.interruptAfter) ==> reason == Interrupted)
    requires passed <==>
             && reason == Completed && w.settled.Some?
             && NobodyLive(w.settled.value, Descendants(w.settled.value, known))
             && CleanupPasses(w.cleanup, Descendants(w.settled.value, known))
             && w.exit == Some(0)
             && (requireStages ==> w.stages.Some? && w.stages.value != [] && StagesComplete(w.stages.value))
    ensures passed <==> exists j: nat :: PassesIn(w, requireStages, j)
  {
    hide Descendants, RegistersAll, EndsIn, Fine, Finished, KnownAfter, CleanupPasses, NobodyLive;
    if passed {
      assert PassesIn(w, requireStages, last);
    }
    forall j: nat | PassesIn(w, requireStages, j) ensures passed {
      EndsOnce(first, w.turns, j, last);
    }
  }

  class Watchdog {
    var known: set<Identity>
    var log: seq<Sent>
    ghost var seen: seq<Census>
    ghost var root: Identity

    /** Every known identity is linked to the root, and every signal went to a proven group. */
    ghost predicate Valid()
      reads this
    {
      AllOwned(seen, root, known) && forall i :: 0 <= i < |log| ==> Safe(seen, root, log[i])
    }

    constructor ()
      ensures Valid() && known == {} && log == [] && seen == []
    {
      known, log, seen := {}, [], [];
    }

    /** `register_descendants`, in any order of the rows; an interrupt may land between two registrations. */
    method Register(census: Census, interruptAfter: Option<nat>) returns (done: bool)
      requires Valid()
      modifies this`known, this`seen
      ensures Valid() && seen == old(seen) + [census]
      ensures old(known) <= known <= Descendants(census, old(known))
      ensures done ==> known == Descendants(census, old(known))
      ensures done <==> RegistersAll(census, old(known), interruptAfter)
    {
      hide Within, Descendants, Closed, AllOwned, Safe, RegistersAll;
      seen := seen + [census];
      var changed, added := true, 0;
      done := true;
      WithinSelf(census, known);
      while changed && done
        invariant old(known) <= known && Within(census, old(known), known) && seen == old(seen) + [census]
        invariant added == |known - old(known)| && (interruptAfter.Some? ==> added <= interruptAfter.value)
        invariant done && !changed ==> Closed(census, known)
        invariant !done ==> interruptAfter == Some(added) && known < Descendants(census, old(known))
        decreases Ids(census) - known, changed
      {
        ghost var before := known;
        changed, added, done := RegisterOnce(census, old(known), interruptAfter, added);
        if done && !changed {
          NothingLeft(census, known);
        }
      }
      WithinMeans(census, old(known), known);
      Registered(census, old(known), known);
      RegisteredCount(census, old(known), known, interruptAfter, done);
      StillOwned(old(seen), census, root, old(known), known, log);
    }

    /** One turn over the rows, in any order: register those whose parent is known by then. */
    method RegisterOnce(census: Census, ghost start: set<Identity>, interruptAfter: Option<nat>, before: nat)
      returns (changed: bool, added: nat, done: bool)
      requires start <= known && Within(census, start, known)
      requires before == |known - start| && (interruptAfter.Some? ==> before <= interruptAfter.value)
      modifies this`known
      ensures old(known) <= known && Within(census, start, known)
      ensures added == |known - start| && (interruptAfter.Some? ==> added <= interruptAfter.value)
      ensures changed <==> known != old(known)
      ensures changed ==> Ids(census) - known < Ids(census) - old(known)
      ensures done ==> forall k :: k in census && HasKnownParent(census, k, old(known)) ==> IdOf(census[k]) in known
      ensures !done ==> interruptAfter == Some(added) && known < Descendants(census, start)
    {
      hide Within, Descendants;
      changed, added, done := false, before, true;
      var rest := census.Keys;
      while rest != {} && done
        invariant rest <= census.Keys && start <= old(known) <= known && Within(census, start, known)
        invariant added == |known - start| && (interruptAfter.Some? ==> added <= interruptAfter.value)
        invariant changed <==> known != old(known)
        invariant changed ==> Ids(census) - known < Ids(census) - old(known)
        invariant done ==> forall k :: k in census && k !in rest && HasKnownParent(census, k, old(known)) ==> IdOf(census[k]) in known
        invariant !done ==> interruptAfter == Some(added) && known < Descendants(census, start)
        decreases rest
      {
        var k := Pick(rest);
        rest := rest - {k};
        var id := IdOf(census[k]);
        if id !in known && HasKnownParent(census, k, known) {
          NextIsDescendant(census, start, known, k);
          if interruptAfter == Some(added) {
            done := false;
          } else {
            assert known + {id} - start == (known - start) + {id};
            assert id in Ids(census);
            known := known + {id};
            changed, added := true, added + 1;
          }
        }
      }
    }

    /** Signal every group of a proven list, stopping where a call is refused. */
    method SignalAll(kind: Kind, census: Census, groups: seq<int>, deliver: (Kind, int) -> Delivery) returns (all: bool)
      requires Valid() && |seen| > 0 && seen[|seen| - 1] == census
      requires forall g :: g in groups ==> g in LiveGroups(census, known) && Proven(census, known, g)
      modifies this`log
      ensures Valid() && old(log) <= log
      ensures all <==> forall g :: g in groups ==> deliver(kind, g) != Refused
      ensures all ==> |log| == |old(log)| + |groups|
      ensures forall i :: 0 <= i < |log| - |old(log)| ==>
                i < |groups| && log[|old(log)| + i] == Sent(groups[i], kind, census, known)
      ensures forall i :: |old(log)| <= i < |log| ==> log[i].kind == kind
    {
      hide LiveGroups, Proven, AllOwned;
      for i := 0 to |groups|
        invariant Valid() && old(log) <= log && |log| == |old(log)| + i
        invariant forall j :: 0 <= j < i ==> deliver(kind, groups[j]) != Refused
        invariant forall j :: 0 <= j < i ==> log[|old(log)| + j] == Sent(groups[j], kind, census, known)
        invariant forall j :: |old(log)| <= j < |log| ==> log[j].kind == kind
      {
        log := log + [Sent(groups[i], kind, census, known)];
        assert Safe(seen, root, log[|log| - 1]);
        if deliver(kind, groups[i]) == Refused {
          return false;
        }
      }
      return true;
    }

    /** One round of a cleanup: take a census, register, and signal every group or none. */
    method Round(kind: Kind, census: Option<Census>, deliver: (Kind, int) -> Delivery) returns (halt: Option<Halt>)
      requires Valid()
      modifies this`known, this`seen, this`log
      ensures Valid() && old(log) <= log && old(known) <= known
      ensures census.None? ==> halt == Some(CensusFailed) && unchanged(this)
      ensures census.Some? ==> known == Descendants(census.value, old(known)) && seen == old(seen) + [census.value]
      ensures census.Some? ==> (halt.None? <==> RoundPasses(kind, census.value, known, deliver))
      ensures census.Some? && (exists g :: g in LiveGroups(census.value, known) && !Proven(census.value, known, g))
              ==> halt == Some(Unproven) && log == old(log)
      ensures halt.None? ==> FullRound(log[|old(log)|..], kind, census.value, known)
      ensures halt.Some? ==> halt.value in {CensusFailed, Unproven, SignalRefused}
      ensures forall i :: |old(log)| <= i < |log| ==> log[i].kind == kind
    {
      hide LiveGroups, Proven, FullRound, Descendants, Safe, AllOwned;
      if census.None? {
        return Some(CensusFailed);
      }
      var rows := census.value;
      var done := Register(rows, None);
      var groups := OwnedGroups(rows, known);
      if groups.None? {
        return Some(Unproven);
      }
      var all := SignalAll(kind, rows, groups.value, deliver);
      ghost var round := log[|old(log)|..];
      if !all {
        return Some(SignalRefused);
      }
      RoundIsFull(round, groups.value, kind, rows, known);
      return None;
    }

    /** `cleanup`: a round of terminations, a round of kills, then nobody known may be left alive. */
    method Cleanup(w: CleanupWorld) returns (halt: Option<Halt>, ghost split: nat)
      requires Valid()
      modifies this`known, this`seen, this`log
      ensures Valid() && old(log) <= log && old(known) <= known
      ensures halt.None? <==> CleanupPasses(w, old(known))
      ensures !TermPasses(w, old(known)) ==> forall i :: |old(log)| <= i < |log| ==> log[i].kind == Term
      ensures halt == Some(StillAlive) <==>
              && TermPasses(w, old(known)) && KillPasses(w, old(known)) && w.last.Some?
              && !NobodyLive(w.last.value, Descendants(w.kill.value, Descendants(w.term.value, old(known))))
      ensures halt == Some(NotReaped) <==>
              && TermPasses(w, old(known)) && KillPasses(w, old(known)) && w.last.Some?
              && NobodyLive(w.last.value, Descendants(w.kill.value, Descendants(w.term.value, old(known)))) && !w.reaped
      ensures halt.None? ==>
                var k1 := Descendants(w.term.value, old(known));
                && known == Descendants(w.kill.value, k1)
                && |old(log)| <= split <= |log|
                && FullRound(log[|old(log)|..split], Term, w.term.value, k1)
                && FullRound(log[split..], Kill, w.kill.value, known)
                && NobodyLive(w.last.value, known)
      ensures w.term.Some? && !RoundProven(w.term.value, Descendants(w.term.value, old(known))) ==>
                halt == Some(Unproven) && log == old(log)
    {
      split := 0;
      halt := Round(Term, w.term, w.deliver);
      if halt.Some? {
        return;
      }
      split := |log|;
      ghost var first := log;
      halt := Round(Kill, w.kill, w.deliver);
      if halt.Some? {
        return;
      }
      assert log[|old(log)|..split] == first[|old(log)|..];
      if w.last.None? {
        return Some(CensusFailed), split;
      }
      if AnyLive(w.last.value, known) {
        return Some(StillAlive), split;
      }
      if !w.reaped {
        return Some(NotReaped), split;
      }
    }

    /** The observing loop: census, ledger, clock, then at most one read of the command's output. */
    method Observe(turns: seq<Turn>) returns (reason: Reason, observed: nat, written: nat, ghost last: nat)
      requires Valid() && turns != []
      modifies this`known, this`seen
      ensures Valid() && old(known) <= known
      ensures EndsIn(old(known), turns, last) && reason == Why(old(known), turns, last)
      ensures observed == Output(turns, last) || observed == Output(turns, last + 1)
      ensures reason == Completed || reason == OutputLimit ==> observed == Output(turns, last + 1)
      ensures CensusRead(old(known), turns, last) ==> known == KnownAfter(old(known), turns, last + 1)
      ensures written == if observed <= 8 * 1024 * 1024 then observed else 8 * 1024 * 1024
      ensures observed > OUTPUT_BYTES ==> reason == OutputLimit || reason == Interrupted
    {
      hide Descendants, RegistersAll, AllOwned, Safe;
      observed, written := 0, 0;
      var open, i := true, 0;
      while true
        invariant Valid() && old(known) <= known && i < |turns|
        invariant known == KnownAfter(old(known), turns, i)
        invariant open <==> !EndedBefore(turns, i)
        invariant observed == Output(turns, i) && written == observed <= OUTPUT_BYTES
        invariant forall k :: 0 <= k < i ==> GoesOn(old(known), turns, k)
        decreases |turns| - i
      {
        var turn := turns[i];
        if turn.census.None? {
          return ObserverFailed, observed, written, i;
        }
        var done := Register(turn.census.value, turn.interruptAfter);
        if !done {
          return Interrupted, observed, written, i;
        }
        if turn.ledger.None? {
          return ObserverFailed, observed, written, i;
        }
        if turn.ledger.value > LEDGER_BYTES {
          return LedgerLimit, observed, written, i;
        }
        if i == |turns| - 1 {
          return DeadlineReached, observed, written, i;
        }
        if turn.interrupt == BeforeRead {
          return Interrupted, observed, written, i;
        }
        var over := false;
        if open && turn.output.Some? {
          if turn.readFails {
            return ObserverFailed, observed, written, i;
          }
          if turn.output.value == 0 {
            open := false;
          } else {
            var room := OUTPUT_BYTES - observed;
            written := written + if turn.output.value <= room then turn.output.value else room;
            observed := observed + turn.output.value;
            over := turn.output.value > room;
          }
        }
        if turn.interrupt == AfterRead {
          return Interrupted, observed, written, i;
        }
        if over {
          return OutputLimit, observed, written, i;
        }
        if turn.exited && !open {
          return Completed, observed, written, i;
        }
        i := i + 1;
      }
    }

    /** `run_once`, whatever it meets. */
    method RunOnce(w: RunWorld, requireStages: bool) returns (r: RunResult, ghost met: set<Identity>)
      requires known == {} && log == [] && seen == [] && w.turns != []
      modifies this
      ensures Valid()
      ensures forall i :: 0 <= i < |log| ==> OwnGroupOnly(seen, root, log[i])
      ensures known != {} ==>
                && w.start.Spawned? && Bindable(w.start.first, w.start.pid)
                && root == IdOf(w.start.first[w.start.pid])
      ensures log != [] ==> known != {}
      ensures r.passed <==> exists j: nat :: PassesIn(w, requireStages, j)
      ensures w.start.NotSpawned? || w.start.NotBound? ==> r.reason == if w.start.interrupted then Interrupted else ObserverFailed
      ensures w.start.Spawned? && !IsBound(w) ==> r.reason == ObserverFailed
      ensures IsBound(w) && !RegistersAll(w.start.first, {IdOf(w.start.first[w.start.pid])}, w.start.interruptAfter) ==>
                r.reason == Interrupted
      ensures IsBound(w) <==> met != {}
      ensures r.clean <==>
              || w.start.NotSpawned?
              || (IsBound(w) && w.settled.Some? && CleanupPasses(w.cleanup, Descendants(w.settled.value, met)))
      ensures forall j: nat :: IsBound(w) && FullyRegistered(w, j) ==>
                && met == KnownAfter(FirstKnown(w), w.turns, j + 1)
                && (Why(FirstKnown(w), w.turns, j) != Completed ==> r.reason == Why(FirstKnown(w), w.turns, j))
      ensures r.passed <==> r.reason == Completed && r.clean && w.exit == Some(0)
      ensures r.clean && !w.start.NotSpawned? ==>
                && w.cleanup.last.Some? && NobodyLive(w.cleanup.last.value, known)
                && exists split: nat :: TermThenKill(log, split, w.cleanup, known)
      ensures r.written == if r.observed <= OUTPUT_BYTES then r.observed else OUTPUT_BYTES
      ensures r.handleKilled ==> !r.clean && !r.passed
      ensures !r.clean ==> r.handleKilled || w.exit.Some?
    {
      hide Descendants, RegistersAll, AllOwned, Safe, FullRound, CleanupPasses, EndsIn, Fine, Finished, Why, KnownAfter, NobodyLive, CensusRead;
      NobodyOwned(seen, root);
      var reason, observed, written := ObserverFailed, 0, 0;
      ghost var last := 0;
      ghost var first := known;
      match w.start {
      case NotSpawned(interrupted) =>
        return RunResult(false, if interrupted then Interrupted else ObserverFailed, true, 0, 0, false), {};
      case NotBound(interrupted) =>
        reason := if interrupted then Interrupted else ObserverFailed;
      case Spawned(pid, census, interruptAfter) =>
        if Bindable(census, pid) {
          Bind(census, pid);
          var done := Register(census, interruptAfter);
          first := known;
          if done {
            reason, observed, written, last := Observe(w.turns);
            CompletesExactly(first, w.turns, last);
          } else {
            reason := Interrupted;
          }
        }
      }
      if known == {} {
        return RunResult(false, reason, false, observed, written, true), {};
      }
      met := known;
      var clean;
      ghost var split;
      var settled;
      settled, clean, split := Settle(w, reason);
      var final := Judge(settled, w, requireStages);
      var passed := final == Completed && w.exit == Some(0) && clean;
      r := RunResult(passed, final, clean, observed, written, !clean && w.exit.None?);
      if clean {
        assert log[0..split] == log[..split];
        assert TermThenKill(log, split, w.cleanup, known);
      }
      forall i | 0 <= i < |log| ensures OwnGroupOnly(seen, root, log[i]) {
        SafeMeans(seen, root, log[i]);
      }
      PassedExactly(w, requireStages, first, last, reason, met, passed);
      forall j: nat | FullyRegistered(w, j)
        ensures met == KnownAfter(FirstKnown(w), w.turns, j + 1)
        ensures Why(FirstKnown(w), w.turns, j) != Completed ==> final == Why(FirstKnown(w), w.turns, j)
      {
        EndsOnce(first, w.turns, j, last);
      }
    }

    /** The stage evidence, looked at only where the command completed with exit code zero. */
    static method Judge(reason: Reason, w: RunWorld, requireStages: bool) returns (final: Reason)
      ensures final == Completed <==>
              && reason == Completed
              && (requireStages && w.exit == Some(0) ==> w.stages.Some? && w.stages.value != [] && StagesComplete(w.stages.value))
      ensures reason != Completed ==> final == reason
      ensures reason == Completed && requireStages && w.exit == Some(0) ==>
                && (final == StagesInvalid <==> w.stages.None?)
                && (final == StagesMissing <==>
                      && w.stages.Some?
                      && ("test.assertions.end" !in w.stages.value || w.stages.value[|w.stages.value| - 1] != "broker.drop.end"))
      ensures !requireStages || w.exit != Some(0) ==> final == reason
    {
      final := reason;
      if requireStages && reason == Completed && w.exit == Some(0) {
        if w.stages.None? || w.stages.value == [] {
          final := if w.stages.None? then StagesInvalid else StagesMissing;
        } else if !StagesComplete(w.stages.value) {
          final := StagesMissing;
        }
      }
    }

    /** The known identities are the command's own row alone. */
    method Bind(census: Census, pid: int)
      requires log == [] && Bindable(census, pid)
      modifies this`known, this`root
      ensures known == {IdOf(census[pid])} && root == IdOf(census[pid])
      ensures Valid()
    {
      root := IdOf(census[pid]);
      known := {IdOf(census[pid])};
      assert Lineage(seen, root, [root]);
    }

    /** The last census of a run, then its cleanup; anything that goes wrong leaves the run unclean. */
    method Settle(w: RunWorld, before: Reason) returns (reason: Reason, clean: bool, ghost split: nat)
      requires Valid()
      modifies this`known, this`seen, this`log
      ensures Valid() && old(known) <= known && old(log) <= log
      ensures clean <==> w.settled.Some? && CleanupPasses(w.cleanup, Descendants(w.settled.value, old(known)))
      ensures clean ==> w.cleanup.term.Some? && w.cleanup.kill.Some? && w.cleanup.last.Some?
      ensures clean ==> NobodyLive(w.cleanup.last.value, known)
      ensures clean ==>
                var k1 := Descendants(w.cleanup.term.value, Descendants(w.settled.value, old(known)));
                && known == Descendants(w.cleanup.kill.value, k1) && |old(log)| <= split <= |log|
                && FullRound(log[|old(log)|..split], Term, w.cleanup.term.value, k1)
                && FullRound(log[split..], Kill, w.cleanup.kill.value, known)
      ensures reason == if before == Completed && w.settled.Some?
                           && !NobodyLive(w.settled.value, Descendants(w.settled.value, old(known)))
                        then DescendantLeak else before
    {
      hide Descendants, RegistersAll, AllOwned, Safe, FullRound, CleanupPasses;
      reason, split := before, 0;
      if w.settled.None? {
        return reason, false, split;
      }
      NeverInterrupted(w.settled.value, known);
      var done := Register(w.settled.value, None);
      if reason == Completed && AnyLive(w.settled.value, known) {
        reason := DescendantLeak;
      }
      var halt;
      halt, split := Cleanup(w.cleanup);
      clean := halt.None?;
      if clean {
        PassesMeansRead(w.cleanup, Descendants(w.settled.value, old(known)));
      }
    }
  }

  lemma PassesMeansRead(w: CleanupWorld, known: set<Identity>)
    requires CleanupPasses(w, known)
    ensures w.term.Some? && w.kill.Some? && w.last.Some?
  {
  }

  lemma NobodyOwned(seen: seq<Census>, root: Identity)
    ensures AllOwned(seen, root, {})
  {
  }

  lemma NeverInterrupted(census: Census, known: set<Identity>)
    ensures RegistersAll(census, known, None)
  {
  }

  /** Registering from a census that is seen from now on keeps everything known owned and every signal safe. */
  lemma StillOwned(seen: seq<Census>, census: Census, root: Identity, before: set<Identity>, known: set<Identity>, log: seq<Sent>)
    requires AllOwned(seen, root, before) && forall i :: 0 <= i < |log| ==> Safe(seen, root, log[i])
    requires forall s :: Closed(census, s) && before <= s ==> known <= s
    ensures AllOwned(seen + [census], root, known) && forall i :: 0 <= i < |log| ==> Safe(seen + [census], root, log[i])
  {
    hide AllOwned, Safe, Closed;
    AllOwnedGrows(seen, seen + [census], root, before);
    RegisteredAreOwned(seen + [census], census, root, before, known);
    forall i | 0 <= i < |log| ensures Safe(seen + [census], root, log[i]) {
      SafeGrows(seen, seen + [census], root, log[i]);
    }
  }

  lemma WithinSelf(census: Census, known: set<Identity>)
    ensures Within(census, known, known)
  {
  }

  lemma WithinMeans(census: Census, start: set<Identity>, known: set<Identity>)
    requires Within(census, start, known)
    ensures forall s :: Closed(census, s) && start <= s ==> known <= s
  {
  }

  lemma NothingLeft(census: Census, known: set<Identity>)
    requires forall k :: k in census && HasKnownParent(census, k, known) ==> IdOf(census[k]) in known
    ensures Closed(census, known)
  {
  }

  /** What is left to register is a descendant, and may be registered. */
  lemma NextIsDescendant(census: Census, start: set<Identity>, known: set<Identity>, k: int)
    requires start <= known && Within(census, start, known)
    requires k in census && HasKnownParent(census, k, known) && IdOf(census[k]) !in known
    ensures known < Descendants(census, start)
    ensures Within(census, start, known + {IdOf(census[k])})
  {
    DescendantsLeast(census, start);
    var all := Descendants(census, start);
    assert known <= all && HasKnownParent(census, k, all);
    forall s | Closed(census, s) && start <= s ensures known + {IdOf(census[k])} <= s {
      assert HasKnownParent(census, k, s);
    }
  }

  lemma RegisteredCount(census: Census, before: set<Identity>, known: set<Identity>, interruptAfter: Option<nat>, done: bool)
    requires before <= known <= Descendants(census, before)
    requires interruptAfter.Some? ==> |known - before| <= interruptAfter.value
    requires done ==> known == Descendants(census, before)
    requires !done ==> interruptAfter == Some(|known - before|) && known < Descendants(census, before)
    ensures done <==> RegistersAll(census, before, interruptAfter)
  {
    if !done {
      var all := Descendants(census, before);
      var x :| x in all && x !in known;
      assert (known - before) + {x} <= all - before;
      SubsetCount((known - before) + {x}, all - before);
    }
  }

  lemma {:induction false} SubsetCount<T>(a: set<T>, b: set<T>)
    requires a <= b
    ensures |a| <= |b|
  {
    assert b == a + (b - a);
  }

  lemma Registered(census: Census, before: set<Identity>, after: set<Identity>)
    requires before <= after && forall s :: Closed(census, s) && before <= s ==> after <= s
    ensures after <= Descendants(census, before)
    ensures Closed(census, after) ==> after == Descendants(census, before)
  {
    DescendantsLeast(census, before);
  }

  // ---------- what a clean run means ----------

  /** Every row is filed under its own process id. */
  predicate Keyed(census: Census) {
    forall k :: k in census ==> census[k].pid == k
  }

  /** No row has an exited parent that is not known: the kernel gives the children of an exited process another parent. */
  predicate ExitedParentsKnown(census: Census, known: set<Identity>) {
    forall k :: k in census && census[k].ppid in census && !Live(census[census[k].ppid]) ==> HasKnownParent(census, k, known)
  }

  /**
   * A cleanup ends when its last census shows nobody known alive. Then no descendant is alive in that census if and only
   * if no live row has a known parent.
   */
  lemma CleanMeansNobodyAlive(last: Census, known: set<Identity>)
    requires Keyed(last) && ExitedParentsKnown(last, known) && NobodyLive(last, known)
    ensures NobodyLive(last, Descendants(last, known))
            <==> forall k :: k in last && Live(last[k]) ==> !HasKnownParent(last, k, known)
  {
    DescendantsLeast(last, known);
    if forall k :: k in last && Live(last[k]) ==> !HasKnownParent(last, k, known) {
      var exited := set k | k in last && !Live(last[k]) && HasKnownParent(last, k, known) :: IdOf(last[k]);
      ExitedChildrenClose(last, known, exited);
      assert Descendants(last, known) <= known + exited;
    } else {
      var k :| k in last && Live(last[k]) && HasKnownParent(last, k, known);
      assert HasKnownParent(last, k, Descendants(last, known));
    }
  }

  lemma ExitedChildrenClose(last: Census, known: set<Identity>, exited: set<Identity>)
    requires Keyed(last) && ExitedParentsKnown(last, known) && NobodyLive(last, known)
    requires forall k :: k in last && Live(last[k]) ==> !HasKnownParent(last, k, known)
    requires exited == set k | k in last && !Live(last[k]) && HasKnownParent(last, k, known) :: IdOf(last[k])
    ensures Closed(last, known + exited) && NobodyLive(last, known + exited)
  {
    forall k | k in last && IdOf(last[k]) in exited ensures !Live(last[k]) {
      var j :| j in last && !Live(last[j]) && HasKnownParent(last, j, known) && IdOf(last[j]) == IdOf(last[k]);
    }
    forall k | k in last && HasKnownParent(last, k, known + exited) ensures IdOf(last[k]) in known + exited {
      assert HasKnownParent(last, k, known);
    }
  }

  /** The last census is not registered: a live child of an exited known process goes unseen. */
  lemma CleanCanMissAChild()
    ensures var last := map[10 := Row(10, 'Z', 1, 10, 5), 11 := Row(11, 'S', 10, 10, 6)];
            var known := {Identity(10, 5)};
            NobodyLive(last, known) && !NobodyLive(last, Descendants(last, known))
  {
    var last := map[10 := Row(10, 'Z', 1, 10, 5), 11 := Row(11, 'S', 10, 10, 6)];
    var known := {Identity(10, 5)};
    assert ParentLink(last, 11, 10);
    assert Chain(last, known, [11, 10]);
    assert Reaches(last, known, 11);
    assert IdOf(last[11]) in Descendants(last, known);
  }

  // ---------- the job clock ----------

  const JOB_SECONDS: real := 1800.0
  const RESERVE_SECONDS: real := 120.0
  const STEP_SECONDS: real := 600.0

  datatype Job = Job(id: int, name: string, run: int, attempt: int, head: string, status: string, started: real)

  datatype Response = Response(date: real, age: int, total: int, jobs: seq<Job>)

  datatype Binding = Binding(run: int, attempt: int, head: string, boot: string)

  datatype Clock = Clock(job: int, binding: Binding, observed: real, deadline: real)

  predicate IsCurrent(j: Job, b: Binding) {
    j.name == "outbox (ironbus mode)" && j.run == b.run && j.attempt == b.attempt && j.head == b.head
    && j.status == "in_progress"
  }

  function Matching(jobs: seq<Job>, b: Binding): seq<Job> {
    if jobs == [] then []
    else (if IsCurrent(jobs[0], b) then [jobs[0]] else []) + Matching(jobs[1..], b)
  }

  /** `clock_from_response`. */
  function ClockFromResponse(r: Response, before: real, after: real, wall: real, b: Binding): Option<Clock> {
    if after < before || after - before > 10.0 then None
    else if wall - r.date > 30.0 || r.date - wall > 30.0 || r.age != 0 then None
    else if r.total > 100 then None
    else
      var found := Matching(r.jobs, b);
      if |found| != 1 then None
      else
        var remaining := JOB_SECONDS - (r.date - found[0].started) - (after - before) - 2.0;
        if remaining <= RESERVE_SECONDS || remaining > JOB_SECONDS then None
        else Some(Clock(found[0].id, b, after, after + remaining))
  }

  /** `step_budget`. */
  function StepBudget(c: Clock, now: real, boot: string): Option<real> {
    if c.binding.boot != boot || now < c.observed then None
    else
      var left := c.deadline - RESERVE_SECONDS - now;
      var seconds := if STEP_SECONDS <= left then STEP_SECONDS else left;
      if seconds <= 0.0 then None else Some(seconds)
  }

  lemma {:induction false} MatchingMember(jobs: seq<Job>, b: Binding, j: Job)
    ensures j in Matching(jobs, b) <==> j in jobs && IsCurrent(j, b)
  {
    if jobs != [] {
      MatchingMember(jobs[1..], b, j);
    }
  }

  /**
   * What the clock is truly measured against: the monotonic moment the server answered, the server's own time
   * then, and the job's own start, both cut to whole seconds before they were reported.
   */
  ghost predicate Truthful(r: Response, j: Job, before: real, after: real, answered: real, serverTime: real, start: real) {
    && before <= answered <= after
    && r.date <= serverTime < r.date + 1.0
    && j.started <= start < j.started + 1.0
  }

  /** The i-th job is the only one that is this run's own outbox job, in progress. */
  predicate OnlyOwnJob(r: Response, b: Binding, i: nat) {
    && i < |r.jobs|
    && forall k :: 0 <= k < |r.jobs| ==>
         (k == i <==>
            && r.jobs[k].name == "outbox (ironbus mode)" && r.jobs[k].run == b.run && r.jobs[k].attempt == b.attempt
            && r.jobs[k].head == b.head && r.jobs[k].status == "in_progress")
  }

  /** What is left of the job's thirty minutes, less the trip and two seconds. */
  function Left(r: Response, i: nat, before: real, after: real): real
    requires i < |r.jobs|
  {
    1800.0 - (r.date - r.jobs[i].started) - (after - before) - 2.0
  }

  /** A clock is recorded exactly for a prompt, fresh, complete answer with one own job that has more than the reserve left. */
  lemma ClockExactly(r: Response, before: real, after: real, wall: real, b: Binding)
    ensures ClockFromResponse(r, before, after, wall, b).Some? <==>
            && before <= after <= before + 10.0
            && -30.0 <= wall - r.date <= 30.0 && r.age == 0 && r.total <= 100
            && exists i: nat :: OnlyOwnJob(r, b, i) && 120.0 < Left(r, i, before, after) <= 1800.0
    ensures forall i: nat :: OnlyOwnJob(r, b, i) && ClockFromResponse(r, before, after, wall, b).Some? ==>
              ClockFromResponse(r, before, after, wall, b) == Some(Clock(r.jobs[i].id, b, after, after + Left(r, i, before, after)))
  {
    var found := Matching(r.jobs, b);
    if |found| == 1 {
      var i := MatchingOne(r.jobs, b);
      assert OnlyOwnJob(r, b, i);
    }
    forall i: nat | OnlyOwnJob(r, b, i) ensures found == [r.jobs[i]] {
      OneMatching(r.jobs, b, i);
    }
  }

  lemma {:induction false} MatchingNone(jobs: seq<Job>, b: Binding)
    ensures Matching(jobs, b) == [] <==> forall k :: 0 <= k < |jobs| ==> !IsCurrent(jobs[k], b)
  {
    if jobs != [] {
      MatchingNone(jobs[1..], b);
      assert forall k :: 0 < k < |jobs| ==> jobs[k] == jobs[1..][k - 1];
      assert forall k :: 0 <= k < |jobs| - 1 ==> jobs[1..][k] == jobs[k + 1];
    }
  }

  lemma {:induction false} MatchingOne(jobs: seq<Job>, b: Binding) returns (i: nat)
    requires |Matching(jobs, b)| == 1
    ensures i < |jobs| && Matching(jobs, b) == [jobs[i]] && forall k :: 0 <= k < |jobs| ==> (k == i <==> IsCurrent(jobs[k], b))
  {
    var rest := jobs[1..];
    assert forall k :: 0 < k < |jobs| ==> jobs[k] == rest[k - 1];
    if IsCurrent(jobs[0], b) {
      i := 0;
      MatchingNone(rest, b);
    } else {
      i := MatchingOne(rest, b);
      i := i + 1;
    }
  }

  lemma {:induction false} OneMatching(jobs: seq<Job>, b: Binding, i: nat)
    requires i < |jobs| && forall k :: 0 <= k < |jobs| ==> (k == i <==> IsCurrent(jobs[k], b))
    ensures Matching(jobs, b) == [jobs[i]]
  {
    var rest := jobs[1..];
    assert forall k :: 0 <= k < |rest| ==> rest[k] == jobs[k + 1];
    if i == 0 {
      MatchingNone(rest, b);
    } else {
      OneMatching(rest, b, i - 1);
    }
  }

  /** The recorded deadline is more than one second before the true one, and never loses three seconds past the trip. */
  lemma DeadlineConservative(r: Response, before: real, after: real, wall: real, b: Binding, j: Job,
                             answered: real, serverTime: real, start: real)
    requires ClockFromResponse(r, before, after, wall, b).Some?
    requires j in r.jobs && IsCurrent(j, b) && Truthful(r, j, before, after, answered, serverTime, start)
    ensures var c := ClockFromResponse(r, before, after, wall, b).value;
            var truth := answered + (start + JOB_SECONDS - serverTime);
            && c.job == j.id
            && c.deadline + 1.0 < truth < c.deadline + 3.0 + (after - before)
  {
    MatchingMember(r.jobs, b, j);
  }

  /** Any granted step is positive, at most the step bound, and ends at least the reserve before the true deadline. */
  lemma StepEndsInsideJob(r: Response, before: real, after: real, wall: real, b: Binding, j: Job,
                          answered: real, serverTime: real, start: real, now: real, boot: string)
    requires ClockFromResponse(r, before, after, wall, b).Some?
    requires j in r.jobs && IsCurrent(j, b) && Truthful(r, j, before, after, answered, serverTime, start)
    ensures var c := ClockFromResponse(r, before, after, wall, b).value;
            var granted := StepBudget(c, now, boot);
            && (granted.Some? <==> b.boot == boot && after <= now < c.deadline - RESERVE_SECONDS)
            && (granted.Some? ==>
                  && 0.0 < granted.value <= STEP_SECONDS
                  && now + granted.value + RESERVE_SECONDS < answered + (start + JOB_SECONDS - serverTime))
  {
    DeadlineConservative(r, before, after, wall, b, j, answered, serverTime, start);
  }
}
