/** The certificate expiry sweep: its ledger, one pass, racing passes, and what repeated passes reach. */
module CertificateExpiry {
  import opened Text
  import opened Keyset

  // ---------- the store ----------

  /** Stored identifiers are only compared, for equality and for order. */
  type CertId = nat

  datatype Pair = Pair(cert: CertId, lead: int)

  /** Pinned certificates with their expiry in microseconds, the alert ledger, and every id ever used. */
  datatype Alerts = Alerts(pinned: map<CertId, int>, ledger: set<Pair>, used: set<CertId>) {

    /** Ledger rows refer to pinned certificates: removing a pin removes its rows. */
    predicate Valid() {
      pinned.Keys <= used && forall p :: p in ledger ==> p.cert in pinned
    }
  }

  const MICROS_PER_SEC: int := 1_000_000

  /** Inside its window at `now`, for one lead in seconds: expires within the lead and has not expired. */
  predicate InWindow(notAfter: int, now: int, lead: int) {
    now < notAfter <= now + lead * MICROS_PER_SEC
  }

  function DueSet(s: Alerts, now: int, leads: seq<int>): (r: set<Pair>)
    ensures forall p :: p in r <==>
              p.cert in s.pinned && p.lead in leads && p !in s.ledger && InWindow(s.pinned[p.cert], now, p.lead)
  {
    set c, l | c in s.pinned && l in leads && Pair(c, l) !in s.ledger && InWindow(s.pinned[c], now, l) :: Pair(c, l)
  }

  /** Soonest expiry first, then certificate, then lead. */
  predicate Earlier(pinned: map<CertId, int>, p: Pair, q: Pair)
    requires p.cert in pinned && q.cert in pinned
  {
    var a, b := pinned[p.cert], pinned[q.cert];
    a < b || (a == b && (p.cert < q.cert || (p.cert == q.cert && p.lead < q.lead)))
  }

  ghost predicate IsEarliest(pinned: map<CertId, int>, rest: set<Pair>, m: Pair)
    requires forall p :: p in rest ==> p.cert in pinned
  {
    m in rest && forall p :: p in rest && p != m ==> Earlier(pinned, m, p)
  }

  lemma {:induction false} EarliestExists(pinned: map<CertId, int>, rest: set<Pair>)
    requires rest != {} && forall p :: p in rest ==> p.cert in pinned
    ensures exists m :: IsEarliest(pinned, rest, m)
    decreases rest
  {
    var x :| x in rest;
    if rest == {x} {
      assert IsEarliest(pinned, rest, x);
    } else {
      EarliestExists(pinned, rest - {x});
      var y :| IsEarliest(pinned, rest - {x}, y);
      assert forall p :: p in rest && p != x ==> p in rest - {x};
      assert IsEarliest(pinned, rest, if Earlier(pinned, y, x) then y else x);
    }
  }

  /** The first n pairs in order. */
  ghost function Take(pinned: map<CertId, int>, rest: set<Pair>, n: nat): (list: seq<Pair>)
    requires forall p :: p in rest ==> p.cert in pinned
    decreases n
  {
    if n == 0 || rest == {} then []
    else
      EarliestExists(pinned, rest);
      var m :| IsEarliest(pinned, rest, m);
      [m] + Take(pinned, rest - {m}, n - 1)
  }

  /** What `due` returns: never more than the management cap plus one. */
  ghost function Due(s: Alerts, now: int, leads: seq<int>, limit: int): seq<Pair> {
    Take(s.pinned, DueSet(s, now, leads), Clamp(limit))
  }

  predicate Distinct(list: seq<Pair>) {
    forall i, j :: 0 <= i < j < |list| ==> list[i] != list[j]
  }

  /** The list is an initial segment of the set in order: its members, no repeats, and nothing earlier is skipped. */
  ghost predicate Initial(pinned: map<CertId, int>, rest: set<Pair>, list: seq<Pair>)
    requires forall p :: p in rest ==> p.cert in pinned
  {
    && Distinct(list)
    && (forall i :: 0 <= i < |list| ==> list[i] in rest)
    && (forall i, p :: 0 <= i < |list| && p in rest && Earlier(pinned, p, list[i]) ==> p in list[..i])
  }

  lemma ConsInitial(pinned: map<CertId, int>, rest: set<Pair>, m: Pair, tail: seq<Pair>)
    requires forall p :: p in rest ==> p.cert in pinned
    requires IsEarliest(pinned, rest, m) && Initial(pinned, rest - {m}, tail)
    ensures Initial(pinned, rest, [m] + tail)
  {
    var list := [m] + tail;
    forall i, p | 0 <= i < |list| && p in rest && Earlier(pinned, p, list[i]) ensures p in list[..i] {
      if i > 0 {
        assert list[..i] == [m] + tail[..i - 1];
        if p != m {
          assert Earlier(pinned, p, tail[i - 1]) && p in rest - {m};
        }
      }
    }
  }

  /** The first n pairs are an initial segment, as long as there are pairs. */
  lemma {:induction false} TakeIsInitial(pinned: map<CertId, int>, rest: set<Pair>, n: nat)
    requires forall p :: p in rest ==> p.cert in pinned
    ensures Initial(pinned, rest, Take(pinned, rest, n))
    ensures |Take(pinned, rest, n)| == if n < |rest| then n else |rest|
    decreases n
  {
    if n > 0 && rest != {} {
      var list := Take(pinned, rest, n);
      var m := list[0];
      assert IsEarliest(pinned, rest, m) && list == [m] + Take(pinned, rest - {m}, n - 1);
      TakeIsInitial(pinned, rest - {m}, n - 1);
      hide Initial, Take, IsEarliest;
      ConsInitial(pinned, rest, m, Take(pinned, rest - {m}, n - 1));
    }
  }

  /** What the due query returns, on its columns: a pinned certificate, an asked lead, not announced, expiring within the lead. */
  lemma DueMembers(s: Alerts, now: int, leads: seq<int>, limit: int, i: nat)
    requires i < |Due(s, now, leads, limit)|
    ensures var p := Due(s, now, leads, limit)[i];
            && p.cert in s.pinned && p.lead in leads && p !in s.ledger
            && now < s.pinned[p.cert] <= now + p.lead * 1_000_000
  {
    TakeIsInitial(s.pinned, DueSet(s, now, leads), Clamp(limit));
  }

  /** In order: soonest expiry first, then certificate, then lead. */
  lemma DueOrder(s: Alerts, now: int, leads: seq<int>, limit: int, i: nat, j: nat)
    requires i < j < |Due(s, now, leads, limit)|
    ensures var p, q := Due(s, now, leads, limit)[i], Due(s, now, leads, limit)[j];
            && p.cert in s.pinned && q.cert in s.pinned
            && (|| s.pinned[p.cert] < s.pinned[q.cert]
                || (s.pinned[p.cert] == s.pinned[q.cert] && (p.cert < q.cert || (p.cert == q.cert && p.lead < q.lead))))
  {
    var all, due := DueSet(s, now, leads), Due(s, now, leads, limit);
    TakeIsInitial(s.pinned, all, Clamp(limit));
    hide Take, DueSet;
    assert due[j] !in due[..i];
  }

  /** A due pair is missing only from a full page, whose rows do not expire later; no page is longer than 1001. */
  lemma DueCut(s: Alerts, now: int, leads: seq<int>, limit: int, c: CertId, l: int)
    requires c in s.pinned && l in leads && Pair(c, l) !in s.ledger && now < s.pinned[c] <= now + l * 1_000_000
    requires Pair(c, l) !in Due(s, now, leads, limit)
    ensures var due := Due(s, now, leads, limit);
            && |due| == (if limit < 0 then 0 else if limit > 1001 then 1001 else limit)
            && forall i :: 0 <= i < |due| ==> due[i].cert in s.pinned && s.pinned[due[i].cert] <= s.pinned[c]
  {
    var all, due := DueSet(s, now, leads), Due(s, now, leads, limit);
    TakeIsInitial(s.pinned, all, Clamp(limit));
    assert Pair(c, l) in all;
    hide Take, DueSet;
    NotAllTaken(all, due, Pair(c, l));
    forall i | 0 <= i < |due| ensures !Earlier(s.pinned, Pair(c, l), due[i]) {
      assert Pair(c, l) !in due[..i];
    }
  }

  lemma NotAllTaken(all: set<Pair>, list: seq<Pair>, p: Pair)
    requires p in all && p !in list && Distinct(list) && forall i :: 0 <= i < |list| ==> list[i] in all
    ensures |list| < |all|
  {
    ElementsCount(list);
    var some := set q | q in list;
    assert some <= all - {p};
    assert all == some + (all - some);
    assert p in all - some;
  }

  lemma {:induction false} ElementsCount(list: seq<Pair>)
    requires Distinct(list)
    ensures |set q | q in list| == |list|
  {
    if list != [] {
      var rest := list[1..];
      ElementsCount(rest);
      assert (set q | q in list) == (set q | q in rest) + {list[0]};
    }
  }

  // ---------- recording, and the others ----------

  datatype Outcome = Recorded | Conflict | NotFound

  /** The alerts and the notices announced so far; a ledger row and its notice commit together. */
  datatype World = World(alerts: Alerts, announced: seq<Pair>) {

    /** No notice repeats, and the ledger is exactly the notices about certificates still pinned. */
    ghost predicate Valid() {
      && alerts.Valid()
      && Distinct(announced)
      && (forall p :: p in announced ==> p.cert in alerts.used)
      && (forall p :: p in alerts.ledger <==> p in announced && p.cert in alerts.pinned)
    }
  }

  function RecordOutcome(s: Alerts, p: Pair): Outcome {
    if p.cert !in s.pinned then NotFound else if p in s.ledger then Conflict else Recorded
  }

  /** `record_sent`: one atomic insert, refused for a missing certificate or a taken pair. */
  function Record(w: World, p: Pair): World {
    if RecordOutcome(w.alerts, p) == Recorded
    then World(w.alerts.(ledger := w.alerts.ledger + {p}), w.announced + [p])
    else w
  }

  /** What may happen between two store calls of a pass: pins, unpins, and records by other passes. */
  datatype Event = Pin(cert: CertId, notAfter: int) | Unpin(cert: CertId) | Other(pair: Pair)

  /** A pin takes an id never used before; an unpin takes the certificate's ledger rows with it. */
  function Happen(w: World, e: Event): World {
    match e
    case Pin(c, t) =>
      if c in w.alerts.used then w
      else w.(alerts := w.alerts.(pinned := w.alerts.pinned[c := t], used := w.alerts.used + {c}))
    case Unpin(c) =>
      w.(alerts := w.alerts.(pinned := w.alerts.pinned - {c}, ledger := set p | p in w.alerts.ledger && p.cert != c))
    case Other(p) => Record(w, p)
  }

  function HappenAll(w: World, events: seq<Event>): World
    decreases events
  {
    if events == [] then w else HappenAll(Happen(w, events[0]), events[1..])
  }

  lemma HappenKeepsValid(w: World, e: Event)
    requires w.Valid()
    ensures Happen(w, e).Valid()
    ensures w.announced <= Happen(w, e).announced
  {
  }

  lemma {:induction false} HappenAllKeepsValid(w: World, events: seq<Event>)
    requires w.Valid()
    ensures HappenAll(w, events).Valid()
    ensures w.announced <= HappenAll(w, events).announced
    decreases events
  {
    if events != [] {
      HappenKeepsValid(w, events[0]);
      HappenAllKeepsValid(Happen(w, events[0]), events[1..]);
    }
  }

  // ---------- one pass ----------

  datatype SweepError = StoreFailed | Clock | Envelope | UnreadableId

  datatype Report = Report(announced: nat, taken: nat, vanished: nat) {

    function Count(o: Outcome): Report {
      match o
      case Recorded => this.(announced := announced + 1)
      case Conflict => this.(taken := taken + 1)
      case NotFound => this.(vanished := vanished + 1)
    }

    function Total(): nat {
      announced + taken + vanished
    }
  }

  /** What happens before each item of a pass, and which pairs fail for a genuine reason. */
  datatype Circumstances = Circumstances(events: seq<seq<Event>>, faulty: Pair -> Option<SweepError>) {

    function Before(i: nat): seq<Event> {
      if i < |events| then events[i] else []
    }
  }

  datatype PassResult = PassResult(world: World, report: Report, error: Option<SweepError>)

  /** A pass over the due items from index i on, stopping at the first genuine failure. */
  function Items(w: World, due: seq<Pair>, i: nat, c: Circumstances, report: Report): PassResult
    requires i <= |due|
    decreases |due| - i
  {
    if i == |due| then PassResult(w, report, None)
    else
      var met := HappenAll(w, c.Before(i));
      if c.faulty(due[i]).Some? then PassResult(met, report, c.faulty(due[i]))
      else Items(Record(met, due[i]), due, i + 1, c, report.Count(RecordOutcome(met.alerts, due[i])))
  }

  /** Every item of a pass that returns a report is counted once, and a pass never breaks the ledger. */
  lemma {:induction false} ItemsAccount(w: World, due: seq<Pair>, i: nat, c: Circumstances, report: Report)
    requires i <= |due| && w.Valid()
    ensures var r := Items(w, due, i, c, report);
            && r.world.Valid()
            && w.announced <= r.world.announced
            && (r.error.None? <==> forall k :: i <= k < |due| ==> c.faulty(due[k]).None?)
            && (r.error.None? ==> r.report.Total() == report.Total() + |due| - i)
            && report.announced <= r.report.announced
               <= report.announced + |r.world.announced| - |w.announced|
    decreases |due| - i
  {
    if i < |due| {
      var met := HappenAll(w, c.Before(i));
      HappenAllKeepsValid(w, c.Before(i));
      if c.faulty(due[i]).None? {
        RecordKeepsValid(met, due[i]);
        ItemsAccount(Record(met, due[i]), due, i + 1, c, report.Count(RecordOutcome(met.alerts, due[i])));
      }
    }
  }

  /** A record is made exactly where the certificate is pinned and the pair not taken, and only it and its notice are new. */
  lemma RecordExactly(w: World, p: Pair)
    ensures p.cert in w.alerts.pinned && p !in w.alerts.ledger ==>
              && Record(w, p).alerts == w.alerts.(ledger := w.alerts.ledger + {p})
              && Record(w, p).announced == w.announced + [p]
    ensures p.cert !in w.alerts.pinned || p in w.alerts.ledger ==> Record(w, p) == w
  {
  }

  /** The worlds the items of a pass are met in, up to the first that fails. */
  ghost function Turns(w: World, due: seq<Pair>, i: nat, c: Circumstances): (worlds: seq<World>)
    requires i <= |due|
    ensures i + |worlds| <= |due|
    decreases |due| - i
  {
    if i == |due| || c.faulty(due[i]).Some? then []
    else
      var met := HappenAll(w, c.Before(i));
      [met] + Turns(Record(met, due[i]), due, i + 1, c)
  }

  /** How many of the items met their certificate gone. */
  function Gone(worlds: seq<World>, due: seq<Pair>, i: nat): nat
    requires i + |worlds| <= |due|
  {
    if worlds == [] then 0 else (if due[i].cert !in worlds[0].alerts.pinned then 1 else 0) + Gone(worlds[1..], due, i + 1)
  }

  /** How many met their certificate pinned and their pair in the ledger. */
  function Taken(worlds: seq<World>, due: seq<Pair>, i: nat): nat
    requires i + |worlds| <= |due|
  {
    if worlds == [] then 0
    else (if due[i].cert in worlds[0].alerts.pinned && due[i] in worlds[0].alerts.ledger then 1 else 0) + Taken(worlds[1..], due, i + 1)
  }

  /** The three counters of a pass: gone, taken, and the rest of the items it met. */
  lemma {:induction false} CountersExact(w: World, due: seq<Pair>, i: nat, c: Circumstances, report: Report)
    requires i <= |due|
    ensures var r := Items(w, due, i, c, report).report;
            var worlds := Turns(w, due, i, c);
            && r.vanished == report.vanished + Gone(worlds, due, i)
            && r.taken == report.taken + Taken(worlds, due, i)
            && r.announced == report.announced + |worlds| - Gone(worlds, due, i) - Taken(worlds, due, i)
    ensures Items(w, due, i, c, report).error.None? <==> i + |Turns(w, due, i, c)| == |due|
    decreases |due| - i
  {
    if i < |due| && c.faulty(due[i]).None? {
      var met := HappenAll(w, c.Before(i));
      var next := Record(met, due[i]);
      CountersExact(next, due, i + 1, c, report.Count(RecordOutcome(met.alerts, due[i])));
      var worlds := Turns(w, due, i, c);
      assert worlds[0] == met && worlds[1..] == Turns(next, due, i + 1, c);
    }
  }

  lemma RecordKeepsValid(w: World, p: Pair)
    requires w.Valid()
    ensures Record(w, p).Valid() && w.announced <= Record(w, p).announced
    ensures |Record(w, p).announced| == |w.announced| + if RecordOutcome(w.alerts, p) == Recorded then 1 else 0
  {
  }

  // ---------- the sweep as it runs ----------

  /** Microseconds since the epoch that fit the clock type, or None. */
  function ReadClock(nanosSinceEpoch: int): Option<int> {
    if nanosSinceEpoch < 0 || nanosSinceEpoch / 1000 > 0x7FFF_FFFF_FFFF_FFFF then None
    else Some(nanosSinceEpoch / 1000)
  }

  datatype Result<+T> = Ok(value: T) | Err(error: SweepError)

  /** What one scope's pass meets: its clock, whether the due query fails, and what happens around the pass. */
  datatype ScopeInput = ScopeInput(nanos: int, readFails: bool, around: Circumstances)

  /** The store and the answer after one pass over one scope. */
  ghost function Once(w: World, leads: seq<int>, limit: int, input: ScopeInput): (World, Result<Report>) {
    var now := ReadClock(input.nanos);
    if now.None? then (w, Err(Clock))
    else if input.readFails then (w, Err(StoreFailed))
    else
      var pass := Items(w, Due(w.alerts, now.value, leads, limit), 0, input.around, Report(0, 0, 0));
      (pass.world, if pass.error.Some? then Err(pass.error.value) else Ok(pass.report))
  }

  /** One scope's pass: the clock, then the query, then the first item that fails; otherwise its three counters. */
  lemma OnceExactly(w: World, leads: seq<int>, limit: int, input: ScopeInput)
    ensures var answer := Once(w, leads, limit, input).1;
            var inRange := 0 <= input.nanos && input.nanos / 1000 <= 0x7FFF_FFFF_FFFF_FFFF;
            && (!inRange ==> answer == Err(Clock) && Once(w, leads, limit, input).0 == w)
            && (inRange && input.readFails ==> answer == Err(StoreFailed) && Once(w, leads, limit, input).0 == w)
            && (inRange && !input.readFails ==>
                  var due := Due(w.alerts, input.nanos / 1000, leads, limit);
                  var worlds := Turns(w, due, 0, input.around);
                  && (answer.Ok? <==> forall k :: 0 <= k < |due| ==> input.around.faulty(due[k]).None?)
                  && (answer.Ok? ==>
                        && |worlds| == |due|
                        && answer.value.vanished == Gone(worlds, due, 0) && answer.value.taken == Taken(worlds, due, 0)
                        && answer.value.announced == |due| - Gone(worlds, due, 0) - Taken(worlds, due, 0))
                  && (answer.Err? ==> |worlds| < |due| && input.around.faulty(due[|worlds|]) == Some(answer.error)))
  {
    if 0 <= input.nanos && input.nanos / 1000 <= 0x7FFF_FFFF_FFFF_FFFF && !input.readFails {
      var due := Due(w.alerts, input.nanos / 1000, leads, limit);
      CountersExact(w, due, 0, input.around, Report(0, 0, 0));
      FirstFailure(w, due, 0, input.around, Report(0, 0, 0));
      hide Due, Turns, Items;
    }
  }

  lemma {:induction false} FirstFailure(w: World, due: seq<Pair>, i: nat, c: Circumstances, report: Report)
    requires i <= |due|
    ensures var r := Items(w, due, i, c, report);
            var k := i + |Turns(w, due, i, c)|;
            && (r.error.None? <==> forall j :: i <= j < |due| ==> c.faulty(due[j]).None?)
            && (r.error.Some? ==> k < |due| && c.faulty(due[k]) == r.error)
    decreases |due| - i
  {
    if i < |due| && c.faulty(due[i]).None? {
      var met := HappenAll(w, c.Before(i));
      FirstFailure(Record(met, due[i]), due, i + 1, c, report.Count(RecordOutcome(met.alerts, due[i])));
    }
  }

  /** The earliest of a set of pairs, by a scan. */
  method Earliest(pinned: map<CertId, int>, rest: set<Pair>) returns (m: Pair)
    requires rest != {} && forall p :: p in rest ==> p.cert in pinned
    ensures IsEarliest(pinned, rest, m)
  {
    m :| m in rest;
    var todo := rest - {m};
    while todo != {}
      invariant m in rest && todo <= rest
      invariant forall p :: p in rest && p !in todo && p != m ==> Earlier(pinned, m, p)
      decreases todo
    {
      var p :| p in todo;
      if Earlier(pinned, p, m) {
        m := p;
      }
      todo := todo - {p};
    }
  }

  /** The first n of a set of pairs, earliest by earliest. */
  method First(pinned: map<CertId, int>, all: set<Pair>, n: nat) returns (list: seq<Pair>)
    requires forall p :: p in all ==> p.cert in pinned
    ensures list == Take(pinned, all, n)
  {
    list := [];
    var rest := all;
    while |list| < n && rest != {}
      invariant |list| <= n && rest <= all
      invariant list + Take(pinned, rest, n - |list|) == Take(pinned, all, n)
      decreases rest
    {
      var m := Earliest(pinned, rest);
      TakeStep(pinned, rest, m, n - |list|);
      assert list + ([m] + Take(pinned, rest - {m}, n - |list| - 1)) == list + [m] + Take(pinned, rest - {m}, n - |list| - 1);
      list := list + [m];
      rest := rest - {m};
    }
    assert Take(pinned, rest, n - |list|) == [];
  }

  /** One scope's store. */
  class AlertStore {
    var world: World

    /** The due query. */
    method Query(now: int, leads: seq<int>, limit: int) returns (list: seq<Pair>)
      ensures list == Due(world.alerts, now, leads, limit)
    {
      list := First(world.alerts.pinned, DueSet(world.alerts, now, leads), Clamp(limit));
    }

    /** `run_once`, whatever happens around it. */
    method RunOnce(leads: seq<int>, limit: int, input: ScopeInput) returns (r: Result<Report>)
      modifies this
      ensures world == Once(old(world), leads, limit, input).0
      ensures r == Once(old(world), leads, limit, input).1
    {
      var now := ReadClock(input.nanos);
      if now.None? {
        return Err(Clock);
      }
      if input.readFails {
        return Err(StoreFailed);
      }
      var due := Query(now.value, leads, limit);
      var report := Report(0, 0, 0);
      var i := 0;
      while i < |due|
        invariant i <= |due|
        invariant Items(world, due, i, input.around, report) == Items(old(world), due, 0, input.around, Report(0, 0, 0))
      {
        world := HappenAll(world, input.around.Before(i));
        var fault := input.around.faulty(due[i]);
        if fault.Some? {
          return Err(fault.value);
        }
        var outcome := RecordOutcome(world.alerts, due[i]);
        world := Record(world, due[i]);
        report := report.Count(outcome);
        i := i + 1;
      }
      return Ok(report);
    }
  }

  lemma TakeStep(pinned: map<CertId, int>, rest: set<Pair>, m: Pair, n: nat)
    requires n > 0 && forall p :: p in rest ==> p.cert in pinned
    requires IsEarliest(pinned, rest, m)
    ensures Take(pinned, rest, n) == [m] + Take(pinned, rest - {m}, n - 1)
  {
  }

  // ---------- every interleaving of any number of passes ----------

  datatype Status = Running | Done | Failed

  datatype PassState = PassState(due: seq<Pair>, next: nat, report: Report, status: Status)

  datatype System = System(world: World, passes: seq<PassState>)

  /** Pins and unpins, a pass starting with its due query, and one pass handling its next item or failing. */
  datatype Step =
    | Change(event: Event)
    | Start(now: int, leads: seq<int>, limit: int)
    | Advance(pass: nat, fault: bool)

  ghost function Next(s: System, step: Step): System {
    match step
    case Change(e) => if e.Other? then s else s.(world := Happen(s.world, e))
    case Start(now, leads, limit) =>
      s.(passes := s.passes + [PassState(Due(s.world.alerts, now, leads, limit), 0, Report(0, 0, 0), Running)])
    case Advance(k, fault) =>
      if k >= |s.passes| || s.passes[k].status != Running then s
      else
        var p := s.passes[k];
        if p.next >= |p.due| then s.(passes := s.passes[k := p.(status := Done)])
        else if fault then s.(passes := s.passes[k := p.(status := Failed)])
        else
          var outcome := RecordOutcome(s.world.alerts, p.due[p.next]);
          System(Record(s.world, p.due[p.next]),
                 s.passes[k := p.(next := p.next + 1, report := p.report.Count(outcome))])
  }

  ghost function Run(s: System, steps: seq<Step>): System
    decreases steps
  {
    if steps == [] then s else Run(Next(s, steps[0]), steps[1..])
  }

  /** Announcements summed over all passes. */
  function Announced(passes: seq<PassState>): nat {
    if passes == [] then 0 else passes[0].report.announced + Announced(passes[1..])
  }

  ghost predicate Inv(s: System) {
    && s.world.Valid()
    && Announced(s.passes) == |s.world.announced|
    && (forall k :: 0 <= k < |s.passes| ==> Accounted(s.passes[k]))
  }

  predicate Accounted(p: PassState) {
    p.next <= |p.due| && p.report.Total() == p.next && (p.status == Done ==> p.next == |p.due|)
  }

  lemma {:induction false} AnnouncedUpdate(passes: seq<PassState>, k: nat, p: PassState)
    requires k < |passes|
    ensures Announced(passes[k := p]) == Announced(passes) - passes[k].report.announced + p.report.announced
  {
    if k == 0 {
      assert passes[k := p][1..] == passes[1..];
    } else {
      AnnouncedUpdate(passes[1..], k - 1, p);
      assert passes[k := p][1..] == passes[1..][k - 1 := p];
    }
  }

  lemma {:induction false} AnnouncedAppend(passes: seq<PassState>, p: PassState)
    ensures Announced(passes + [p]) == Announced(passes) + p.report.announced
  {
    if passes != [] {
      AnnouncedAppend(passes[1..], p);
      assert (passes + [p])[1..] == passes[1..] + [p];
    }
  }

  lemma StepKeepsInv(s: System, step: Step)
    requires Inv(s)
    ensures Inv(Next(s, step))
  {
    match step
    case Change(e) => HappenKeepsValid(s.world, e);
    case Start(now, leads, limit) =>
      AnnouncedAppend(s.passes, PassState(Due(s.world.alerts, now, leads, limit), 0, Report(0, 0, 0), Running));
    case Advance(k, fault) =>
      if k < |s.passes| && s.passes[k].status == Running {
        var p := s.passes[k];
        AnnouncedUpdate(s.passes, k, Next(s, step).passes[k]);
        if p.next < |p.due| && !fault {
          RecordKeepsValid(s.world, p.due[p.next]);
        }
      }
  }

  lemma {:induction false} RunKeepsInv(s: System, steps: seq<Step>)
    requires Inv(s)
    ensures Inv(Run(s, steps))
    decreases steps
  {
    if steps != [] {
      StepKeepsInv(s, steps[0]);
      RunKeepsInv(Next(s, steps[0]), steps[1..]);
    }
  }

  /** Announced pairs whose certificate has been unpinned since, so the ledger no longer holds them. */
  function Withdrawn(w: World): set<Pair> {
    set p | p in w.announced && p.cert !in w.alerts.pinned
  }

  lemma {:induction false} DistinctCount(list: seq<Pair>)
    requires Distinct(list)
    ensures |set p | p in list| == |list|
  {
    if list != [] {
      var tail := list[1..];
      DistinctCount(tail);
      assert (set p | p in list) == {list[0]} + set p | p in tail;
    }
  }

  lemma LedgerCount(w: World)
    requires w.Valid()
    ensures |w.announced| == |w.alerts.ledger| + |Withdrawn(w)|
  {
    DistinctCount(w.announced);
    assert (set p | p in w.announced) == w.alerts.ledger + Withdrawn(w);
    assert w.alerts.ledger !! Withdrawn(w);
  }

  /**
   * In every interleaving of any number of passes with pins and unpins: no pair is announced twice, the passes'
   * announcements add up to the notices, which are the ledger rows plus the rows that left with their certificate,
   * and every pass that returned a report counted each item of the due set it read.
   */
  lemma SweepsAnnounceOnce(pinned: map<CertId, int>, steps: seq<Step>)
    ensures var end := Run(System(World(Alerts(pinned, {}, pinned.Keys), []), []), steps);
            && Distinct(end.world.announced)
            && Announced(end.passes) == |end.world.announced|
            && |end.world.announced| == |end.world.alerts.ledger| + |Withdrawn(end.world)|
            && (Announced(end.passes) == |end.world.alerts.ledger|
                <==> forall p :: p in end.world.announced ==> p.cert in end.world.alerts.pinned)
            && (forall k :: 0 <= k < |end.passes| && end.passes[k].status == Done ==>
                  end.passes[k].report.Total() == |end.passes[k].due|)
  {
    var start := System(World(Alerts(pinned, {}, pinned.Keys), []), []);
    RunKeepsInv(start, steps);
    var end := Run(start, steps);
    LedgerCount(end.world);
    if Withdrawn(end.world) != {} {
      var p :| p in Withdrawn(end.world);
      assert p in end.world.announced;
    }
  }

  // ---------- what repeated passes reach ----------

  function Elements(list: seq<Pair>): set<Pair> {
    set p | p in list
  }

  /** The items before the first genuine failure. */
  function Sound(list: seq<Pair>, faulty: Pair -> Option<SweepError>): seq<Pair> {
    if list == [] || faulty(list[0]).Some? then [] else [list[0]] + Sound(list[1..], faulty)
  }

  /** A pass nothing interferes with; `faulty` names the pairs that fail in every pass. */
  ghost function QuietPass(s: Alerts, now: int, leads: seq<int>, limit: int, faulty: Pair -> Option<SweepError>): Alerts {
    Items(World(s, []), Due(s, now, leads, limit), 0, Circumstances([], faulty), Report(0, 0, 0)).world.alerts
  }

  lemma {:induction false} QuietItems(w: World, due: seq<Pair>, i: nat, faulty: Pair -> Option<SweepError>, report: Report)
    requires i <= |due| && Distinct(due)
    requires forall k :: i <= k < |due| ==> due[k].cert in w.alerts.pinned && due[k] !in w.alerts.ledger
    ensures Items(w, due, i, Circumstances([], faulty), report).world.alerts
            == w.alerts.(ledger := w.alerts.ledger + Elements(Sound(due[i..], faulty)))
    decreases |due| - i
  {
    if i < |due| && faulty(due[i]).None? {
      var c := Circumstances([], faulty);
      assert HappenAll(w, c.Before(i)) == w;
      QuietItems(Record(w, due[i]), due, i + 1, faulty, report.Count(Recorded));
      assert due[i..][1..] == due[i + 1..];
      assert Elements(Sound(due[i..], faulty)) == {due[i]} + Elements(Sound(due[i + 1..], faulty));
    }
  }

  /** A quiet pass records the sound part of the due list, and those pairs are no longer due. */
  lemma QuietPassRecords(s: Alerts, now: int, leads: seq<int>, limit: int, faulty: Pair -> Option<SweepError>)
    ensures var sent := Elements(Sound(Due(s, now, leads, limit), faulty));
            && QuietPass(s, now, leads, limit, faulty) == s.(ledger := s.ledger + sent)
            && DueSet(QuietPass(s, now, leads, limit, faulty), now, leads) == DueSet(s, now, leads) - sent
  {
    var due := Due(s, now, leads, limit);
    TakeIsInitial(s.pinned, DueSet(s, now, leads), Clamp(limit));
    QuietItems(World(s, []), due, 0, faulty, Report(0, 0, 0));
    assert due[0..] == due;
  }

  /** Due pairs at or behind a due pair that always fails. */
  ghost function Blocked(s: Alerts, now: int, leads: seq<int>, faulty: Pair -> Option<SweepError>): set<Pair> {
    var due := DueSet(s, now, leads);
    set q | q in due && exists b :: b in due && faulty(b).Some? && (b == q || Earlier(s.pinned, b, q))
  }

  lemma {:induction false} SoundPrefix(list: seq<Pair>, faulty: Pair -> Option<SweepError>, p: Pair) returns (i: nat)
    requires p in Sound(list, faulty)
    ensures i < |list| && list[i] == p && forall k :: 0 <= k <= i ==> faulty(list[k]).None?
  {
    if p == list[0] {
      i := 0;
    } else {
      i := SoundPrefix(list[1..], faulty, p);
      i := i + 1;
    }
  }

  /** A quiet pass never sends a blocked pair. */
  lemma QuietPassStopsAtBlocked(s: Alerts, now: int, leads: seq<int>, limit: int, faulty: Pair -> Option<SweepError>, p: Pair)
    requires p in Sound(Due(s, now, leads, limit), faulty)
    ensures p in DueSet(s, now, leads) && p !in Blocked(s, now, leads, faulty)
  {
    var all := DueSet(s, now, leads);
    var due := Due(s, now, leads, limit);
    TakeIsInitial(s.pinned, all, Clamp(limit));
    var i := SoundPrefix(due, faulty, p);
    assert forall b :: b in all && Earlier(s.pinned, b, due[i]) ==> b in due[..i];
  }

  /** A quiet pass sends something whenever an unblocked pair is due. */
  lemma QuietPassSends(s: Alerts, now: int, leads: seq<int>, limit: int, faulty: Pair -> Option<SweepError>)
    requires Clamp(limit) > 0 && Blocked(s, now, leads, faulty) != DueSet(s, now, leads)
    ensures Sound(Due(s, now, leads, limit), faulty) != []
  {
    var all := DueSet(s, now, leads);
    var due := Due(s, now, leads, limit);
    assert IsEarliest(s.pinned, all, due[0]);
  }

  /** What a quiet pass does to the due set: some unblocked pairs leave it, at least one while there is one. */
  lemma QuietPassEffect(s: Alerts, now: int, leads: seq<int>, limit: int, faulty: Pair -> Option<SweepError>)
    returns (sent: set<Pair>)
    ensures QuietPass(s, now, leads, limit, faulty) == s.(ledger := s.ledger + sent)
    ensures DueSet(QuietPass(s, now, leads, limit, faulty), now, leads) == DueSet(s, now, leads) - sent
    ensures sent <= DueSet(s, now, leads) - Blocked(s, now, leads, faulty)
    ensures Blocked(QuietPass(s, now, leads, limit, faulty), now, leads, faulty) == Blocked(s, now, leads, faulty)
    ensures sent == {} ==> Clamp(limit) == 0 || Blocked(s, now, leads, faulty) == DueSet(s, now, leads)
    ensures Clamp(limit) == 0 ==> sent == {}
  {
    QuietPassRecords(s, now, leads, limit, faulty);
    var list := Sound(Due(s, now, leads, limit), faulty);
    sent := Elements(list);
    forall p | p in sent ensures p in DueSet(s, now, leads) && p !in Blocked(s, now, leads, faulty) {
      QuietPassStopsAtBlocked(s, now, leads, limit, faulty, p);
    }
    if Clamp(limit) > 0 && Blocked(s, now, leads, faulty) != DueSet(s, now, leads) {
      QuietPassSends(s, now, leads, limit, faulty);
      assert list[0] in sent;
    }
    BlockedStays(s, s.(ledger := s.ledger + sent), now, leads, faulty);
  }

  /** Sending unblocked pairs leaves the blocked ones as they were. */
  lemma BlockedStays(s: Alerts, t: Alerts, now: int, leads: seq<int>, faulty: Pair -> Option<SweepError>)
    requires t.pinned == s.pinned && DueSet(t, now, leads) <= DueSet(s, now, leads)
    requires Blocked(s, now, leads, faulty) <= DueSet(t, now, leads)
    ensures Blocked(t, now, leads, faulty) == Blocked(s, now, leads, faulty)
  {
    var all, left := DueSet(s, now, leads), DueSet(t, now, leads);
    forall b | b in all && faulty(b).Some? ensures b in left {
      assert b in Blocked(s, now, leads, faulty);
    }
  }

  ghost function QuietPasses(s: Alerts, now: int, leads: seq<int>, limit: int, faulty: Pair -> Option<SweepError>, n: nat): Alerts
    decreases n
  {
    if n == 0 then s else QuietPasses(QuietPass(s, now, leads, limit, faulty), now, leads, limit, faulty, n - 1)
  }

  /** n passes leave nothing due. */
  ghost predicate Drained(s: Alerts, now: int, leads: seq<int>, limit: int, faulty: Pair -> Option<SweepError>, n: nat) {
    DueSet(QuietPasses(s, now, leads, limit, faulty, n), now, leads) == {}
  }

  /** No number of passes sends a blocked pair. */
  lemma {:induction false} BlockedStayDue(s: Alerts, now: int, leads: seq<int>, limit: int,
                                          faulty: Pair -> Option<SweepError>, n: nat)
    ensures Blocked(s, now, leads, faulty) <= DueSet(QuietPasses(s, now, leads, limit, faulty, n), now, leads)
    decreases n
  {
    hide DueSet, Blocked, QuietPass, Clamp;
    BlockedAreDue(s, now, leads, faulty);
    if n > 0 {
      var sent := QuietPassEffect(s, now, leads, limit, faulty);
      BlockedStayDue(QuietPass(s, now, leads, limit, faulty), now, leads, limit, faulty, n - 1);
    }
  }

  /** With a positive limit, as many passes as there are unblocked due pairs leave exactly the blocked ones. */
  lemma {:induction false} PassesLeaveBlocked(s: Alerts, now: int, leads: seq<int>, limit: int,
                                              faulty: Pair -> Option<SweepError>, n: nat)
    requires Clamp(limit) > 0 && n >= |DueSet(s, now, leads) - Blocked(s, now, leads, faulty)|
    ensures DueSet(QuietPasses(s, now, leads, limit, faulty, n), now, leads) == Blocked(s, now, leads, faulty)
    decreases n
  {
    hide DueSet, Blocked, QuietPass, Clamp;
    var all, blocked := DueSet(s, now, leads), Blocked(s, now, leads, faulty);
    BlockedAreDue(s, now, leads, faulty);
    if n > 0 {
      var sent := QuietPassEffect(s, now, leads, limit, faulty);
      FewerLeft(all, blocked, sent);
      PassesLeaveBlocked(QuietPass(s, now, leads, limit, faulty), now, leads, limit, faulty, n - 1);
    } else {
      assert all - blocked == {};
    }
  }

  lemma FewerLeft(all: set<Pair>, blocked: set<Pair>, sent: set<Pair>)
    requires sent <= all - blocked
    ensures |all - sent - blocked| == |all - blocked| - |sent|
  {
    assert all - blocked == (all - sent - blocked) + sent;
  }

  lemma {:induction false} NoLimitNoChange(s: Alerts, now: int, leads: seq<int>, limit: int,
                                           faulty: Pair -> Option<SweepError>, n: nat)
    requires limit <= 0
    ensures QuietPasses(s, now, leads, limit, faulty, n) == s
    decreases n
  {
    if n > 0 {
      var sent := QuietPassEffect(s, now, leads, limit, faulty);
      assert s.ledger + sent == s.ledger;
      NoLimitNoChange(s, now, leads, limit, faulty, n - 1);
    }
  }

  lemma BlockedAreDue(s: Alerts, now: int, leads: seq<int>, faulty: Pair -> Option<SweepError>)
    ensures Blocked(s, now, leads, faulty) <= DueSet(s, now, leads)
  {
  }

  /** Repeated passes drain a due set exactly when it is empty, or the limit is positive and no due pair always fails. */
  lemma SweepDrainsExactly(s: Alerts, now: int, leads: seq<int>, limit: int, faulty: Pair -> Option<SweepError>)
    ensures (exists n: nat :: Drained(s, now, leads, limit, faulty, n))
            <==> DueSet(s, now, leads) == {}
                 || (limit > 0 && forall p :: p in DueSet(s, now, leads) ==> faulty(p).None?)
  {
    var all, blocked := DueSet(s, now, leads), Blocked(s, now, leads, faulty);
    assert all == {} ==> Drained(s, now, leads, limit, faulty, 0);
    NothingBlocked(s, now, leads, faulty);
    hide DueSet, Blocked, QuietPasses;
    if blocked != {} {
      forall n: nat ensures !Drained(s, now, leads, limit, faulty, n) {
        BlockedStayDue(s, now, leads, limit, faulty, n);
      }
    } else if limit > 0 {
      assert all - blocked == all;
      PassesLeaveBlocked(s, now, leads, limit, faulty, |all|);
      assert Drained(s, now, leads, limit, faulty, |all|);
    } else {
      forall n: nat ensures Drained(s, now, leads, limit, faulty, n) <==> all == {} {
        NoLimitNoChange(s, now, leads, limit, faulty, n);
      }
    }
  }

  lemma NothingBlocked(s: Alerts, now: int, leads: seq<int>, faulty: Pair -> Option<SweepError>)
    ensures Blocked(s, now, leads, faulty) == {} <==> forall p :: p in DueSet(s, now, leads) ==> faulty(p).None?
    ensures DueSet(s, now, leads) == {} ==> Blocked(s, now, leads, faulty) == {}
  {
    if p :| p in DueSet(s, now, leads) && faulty(p).Some? {
      assert p in Blocked(s, now, leads, faulty);
    }
  }

  // ---------- all scopes ----------

  datatype PassReport = PassReport(swept: nat, failed: nat, announced: nat) {

    function Add(r: Result<Report>): PassReport {
      match r
      case Ok(one) => this.(swept := swept + 1, announced := announced + one.announced)
      case Err(_) => this.(failed := failed + 1)
    }
  }

  /** The report over the first scopes of a list. */
  ghost function Tally(worlds: seq<World>, leads: seq<int>, limit: int, inputs: seq<ScopeInput>): PassReport
    requires |inputs| >= |worlds|
    decreases |worlds|
  {
    if worlds == [] then PassReport(0, 0, 0)
    else
      var last := |worlds| - 1;
      Tally(worlds[..last], leads, limit, inputs).Add(Once(worlds[last], leads, limit, inputs[last]).1)
  }

  ghost function Worlds(stores: seq<AlertStore>): (r: seq<World>)
    reads stores
    ensures |r| == |stores| && forall k :: 0 <= k < |r| ==> r[k] == stores[k].world
  {
    if stores == [] then [] else Worlds(stores[..|stores| - 1]) + [stores[|stores| - 1].world]
  }

  /** `run_pass`: every scope is swept whatever the others did; with no leads nothing is read. */
  method RunPass(stores: seq<AlertStore>, leads: seq<int>, limit: int, inputs: seq<ScopeInput>) returns (report: PassReport)
    requires |inputs| == |stores|
    requires forall i, j :: 0 <= i < j < |stores| ==> stores[i] != stores[j]
    modifies stores
    ensures leads == [] ==> report == PassReport(0, 0, 0) && Worlds(stores) == old(Worlds(stores))
    ensures leads != [] ==> report == Tally(old(Worlds(stores)), leads, limit, inputs)
    ensures leads != [] ==> forall k :: 0 <= k < |stores| ==>
              stores[k].world == Once(old(stores[k].world), leads, limit, inputs[k]).0
  {
    report := PassReport(0, 0, 0);
    if leads == [] {
      return;
    }
    ghost var before := Worlds(stores);
    for k := 0 to |stores|
      invariant report == Tally(before[..k], leads, limit, inputs)
      invariant forall j :: 0 <= j < k ==> stores[j].world == Once(before[j], leads, limit, inputs[j]).0
      invariant forall j :: k <= j < |stores| ==> stores[j].world == before[j]
    {
      var one := stores[k].RunOnce(leads, limit, inputs[k]);
      report := report.Add(one);
      assert before[..k + 1][..k] == before[..k];
    }
    assert before[..|stores|] == before;
  }

  /** Every scope is counted once, as swept or as failed, and the report shows a failure exactly when some scope failed. */
  lemma {:induction false} TallyCounts(worlds: seq<World>, leads: seq<int>, limit: int, inputs: seq<ScopeInput>)
    requires |inputs| >= |worlds|
    ensures var t := Tally(worlds, leads, limit, inputs);
            t.swept + t.failed == |worlds|
    ensures Tally(worlds, leads, limit, inputs).failed == 0 <==>
            forall k :: 0 <= k < |worlds| ==> Once(worlds[k], leads, limit, inputs[k]).1.Ok?
    decreases |worlds|
  {
    hide Once;
    if worlds != [] {
      TallyCounts(worlds[..|worlds| - 1], leads, limit, inputs);
    }
  }

  /** A failing scope keeps the notices it sent before failing, and they are missing from the report. */
  lemma FailedScopeUnderreports(w: World, now: int, p: Pair, q: Pair)
    requires w.Valid() && 0 <= now && now / 1000 <= 0x7FFF_FFFF_FFFF_FFFF && p.lead == q.lead
    requires DueSet(w.alerts, now / 1000, [p.lead]) == {p, q} && p != q && Earlier(w.alerts.pinned, p, q)
    ensures var input := ScopeInput(now, false, Circumstances([], x => if x == q then Some(UnreadableId) else None));
            && Tally([w], [p.lead], 2, [input]) == PassReport(0, 1, 0)
            && Once(w, [p.lead], 2, input).0.announced == w.announced + [p]
  {
    var input := ScopeInput(now, false, Circumstances([], x => if x == q then Some(UnreadableId) else None));
    var pinned := w.alerts.pinned;
    TakeStep(pinned, {p, q}, p, 2);
    assert {p, q} - {p} == {q} && {q} - {q} == {};
    TakeStep(pinned, {q}, q, 1);
    assert Due(w.alerts, now / 1000, [p.lead], 2) == [p, q];
    var due := [p, q];
    assert HappenAll(w, input.around.Before(0)) == w;
    var one := Report(0, 0, 0).Count(Recorded);
    assert Items(w, due, 0, input.around, Report(0, 0, 0)) == Items(Record(w, p), due, 1, input.around, one);
    assert [w][..0] == [];
  }

  /** A pass nothing interferes with announces the sound part of its list, and counts it. */
  lemma {:induction false} QuietItemsAnnounce(w: World, due: seq<Pair>, i: nat, c: Circumstances, report: Report)
    requires c.events == [] && i <= |due| && Distinct(due)
    requires forall k :: i <= k < |due| ==> due[k].cert in w.alerts.pinned && due[k] !in w.alerts.ledger
    ensures var r := Items(w, due, i, c, report);
            && r.world.announced == w.announced + Sound(due[i..], c.faulty)
            && r.report.announced == report.announced + |Sound(due[i..], c.faulty)|
            && (r.error.Some? <==> exists k :: i <= k < |due| && c.faulty(due[k]).Some?)
    decreases |due| - i
  {
    if i < |due| && c.faulty(due[i]).None? {
      assert HappenAll(w, c.Before(i)) == w;
      QuietItemsAnnounce(Record(w, due[i]), due, i + 1, c, report.Count(Recorded));
      assert due[i..][1..] == due[i + 1..];
      ConcatAssociates(w.announced, [due[i]], Sound(due[i + 1..], c.faulty));
    }
  }

  /** The notices a scope sends before it fails; none where it does not come to its list, or does not fail. */
  ghost function Missing(w: World, leads: seq<int>, limit: int, input: ScopeInput): nat {
    var now := ReadClock(input.nanos);
    if now.None? || input.readFails then 0
    else
      var due := Due(w.alerts, now.value, leads, limit);
      if exists k :: 0 <= k < |due| && input.around.faulty(due[k]).Some? then |Sound(due, input.around.faulty)| else 0
  }

  /** The scope comes to its list, its first due pair does not fail, and a later one does. */
  ghost predicate FailsPastFirst(w: World, leads: seq<int>, limit: int, input: ScopeInput) {
    var now := ReadClock(input.nanos);
    && now.Some? && !input.readFails
    && var due := Due(w.alerts, now.value, leads, limit);
    && due != [] && input.around.faulty(due[0]).None?
    && exists k :: 0 <= k < |due| && input.around.faulty(due[k]).Some?
  }

  lemma MissingExactly(w: World, leads: seq<int>, limit: int, input: ScopeInput)
    ensures Missing(w, leads, limit, input) > 0 <==> FailsPastFirst(w, leads, limit, input)
  {
  }

  /** The notices one scope's pass added. */
  ghost function Sent(w: World, leads: seq<int>, limit: int, input: ScopeInput): int {
    |Once(w, leads, limit, input).0.announced| - |w.announced|
  }

  lemma QuietScopeSent(w: World, leads: seq<int>, limit: int, input: ScopeInput)
    requires input.around.events == []
    ensures var answer := Once(w, leads, limit, input).1;
            Sent(w, leads, limit, input) == (if answer.Ok? then answer.value.announced else 0) + Missing(w, leads, limit, input)
  {
    var now := ReadClock(input.nanos);
    if now.Some? && !input.readFails {
      var due := Due(w.alerts, now.value, leads, limit);
      TakeIsInitial(w.alerts.pinned, DueSet(w.alerts, now.value, leads), Clamp(limit));
      QuietItemsAnnounce(w, due, 0, input.around, Report(0, 0, 0));
      assert due[0..] == due;
    }
  }

  /** The notices added over all scopes, and those of failed scopes among them. */
  ghost function AllSent(worlds: seq<World>, leads: seq<int>, limit: int, inputs: seq<ScopeInput>): int
    requires |inputs| >= |worlds|
    decreases |worlds|
  {
    if worlds == [] then 0
    else
      var last := |worlds| - 1;
      AllSent(worlds[..last], leads, limit, inputs) + Sent(worlds[last], leads, limit, inputs[last])
  }

  ghost function AllMissing(worlds: seq<World>, leads: seq<int>, limit: int, inputs: seq<ScopeInput>): nat
    requires |inputs| >= |worlds|
    decreases |worlds|
  {
    if worlds == [] then 0
    else
      var last := |worlds| - 1;
      AllMissing(worlds[..last], leads, limit, inputs) + Missing(worlds[last], leads, limit, inputs[last])
  }

  /**
   * Where nothing interferes, the report falls short of the notices added over all scopes by exactly those that failing
   * scopes sent first, so it is right if and only if no scope fails past its first due pair.
   */
  lemma TallyExact(worlds: seq<World>, leads: seq<int>, limit: int, inputs: seq<ScopeInput>)
    requires |inputs| >= |worlds| && forall k :: 0 <= k < |worlds| ==> inputs[k].around.events == []
    ensures AllSent(worlds, leads, limit, inputs)
            == Tally(worlds, leads, limit, inputs).announced + AllMissing(worlds, leads, limit, inputs)
    ensures Tally(worlds, leads, limit, inputs).announced == AllSent(worlds, leads, limit, inputs)
            <==> forall k :: 0 <= k < |worlds| ==> !FailsPastFirst(worlds[k], leads, limit, inputs[k])
  {
    SentAddsUp(worlds, leads, limit, inputs);
    MissingAddsUp(worlds, leads, limit, inputs);
  }

  lemma {:induction false} SentAddsUp(worlds: seq<World>, leads: seq<int>, limit: int, inputs: seq<ScopeInput>)
    requires |inputs| >= |worlds| && forall k :: 0 <= k < |worlds| ==> inputs[k].around.events == []
    ensures AllSent(worlds, leads, limit, inputs)
            == Tally(worlds, leads, limit, inputs).announced + AllMissing(worlds, leads, limit, inputs)
    decreases |worlds|
  {
    hide Once, Missing, Sent;
    if worlds != [] {
      var last := |worlds| - 1;
      SentAddsUp(worlds[..last], leads, limit, inputs);
      QuietScopeSent(worlds[last], leads, limit, inputs[last]);
    }
  }

  lemma {:induction false} MissingAddsUp(worlds: seq<World>, leads: seq<int>, limit: int, inputs: seq<ScopeInput>)
    requires |inputs| >= |worlds|
    ensures AllMissing(worlds, leads, limit, inputs) == 0
            <==> forall k :: 0 <= k < |worlds| ==> !FailsPastFirst(worlds[k], leads, limit, inputs[k])
    decreases |worlds|
  {
    hide Missing, FailsPastFirst;
    if worlds != [] {
      var last := |worlds| - 1;
      MissingAddsUp(worlds[..last], leads, limit, inputs);
      MissingExactly(worlds[last], leads, limit, inputs[last]);
    }
  }

  // ---------- the configured leads ----------

  const SECS_PER_DAY: int := 24 * 60 * 60

  predicate Descending(leads: seq<int>) {
    forall i, j :: 0 <= i < j < |leads| ==> leads[i] >= leads[j]
  }

  predicate StrictlyDescending(leads: seq<int>) {
    forall i, j :: 0 <= i < j < |leads| ==> leads[i] > leads[j]
  }

  /** Put a value where a descending list keeps its order. */
  method InsertDescending(leads: seq<int>, x: int) returns (r: seq<int>)
    requires Descending(leads)
    ensures Descending(r) && forall y :: y in r <==> y == x || y in leads
  {
    var i := 0;
    while i < |leads| && leads[i] >= x
      invariant 0 <= i <= |leads|
      invariant forall k :: 0 <= k < i ==> leads[k] >= x
    {
      i := i + 1;
    }
    r := leads[..i] + [x] + leads[i..];
    hide Descending;
    InsertedInOrder(leads, i, x);
    InsertedMembers(leads, i, x);
  }

  lemma InsertedInOrder(leads: seq<int>, i: nat, x: int)
    requires Descending(leads) && i <= |leads| && (forall k :: 0 <= k < i ==> leads[k] >= x) && (i < |leads| ==> x >= leads[i])
    ensures Descending(leads[..i] + [x] + leads[i..])
  {
    var r := leads[..i] + [x] + leads[i..];
    assert forall k :: 0 <= k < |r| ==> r[k] == if k < i then leads[k] else if k == i then x else leads[k - 1];
  }

  lemma InsertedMembers(leads: seq<int>, i: nat, x: int)
    requires i <= |leads|
    ensures forall y :: y in leads[..i] + [x] + leads[i..] <==> y == x || y in leads
  {
    assert leads == leads[..i] + leads[i..];
  }

  /** `leads_from_days`: positive days in seconds, longest first, each once. */
  method LeadsFromDays(days: seq<nat>) returns (leads: seq<int>)
    ensures StrictlyDescending(leads)
    ensures forall x :: x in leads <==> exists k :: 0 <= k < |days| && days[k] > 0 && x == days[k] * SECS_PER_DAY
  {
    var sorted: seq<int> := [];
    for k := 0 to |days|
      invariant Descending(sorted)
      invariant forall x :: x in sorted <==> exists j :: 0 <= j < k && days[j] > 0 && x == days[j] * SECS_PER_DAY
    {
      if days[k] > 0 {
        sorted := InsertDescending(sorted, days[k] * SECS_PER_DAY);
      }
    }
    leads := [];
    for k := 0 to |sorted|
      invariant StrictlyDescending(leads)
      invariant leads == [] <==> k == 0
      invariant k > 0 ==> leads[|leads| - 1] == sorted[k - 1]
      invariant forall x :: x in leads <==> x in sorted[..k]
    {
      if leads == [] || leads[|leads| - 1] != sorted[k] {
        leads := leads + [sorted[k]];
      }
    }
    assert sorted[..|sorted|] == sorted;
  }

  /** A lead of zero is never due, which is why it is dropped. */
  lemma ZeroLeadNeverDue(s: Alerts, now: int, leads: seq<int>, p: Pair)
    requires p in DueSet(s, now, leads)
    ensures p.lead > 0
  {
  }
}
