/** The four-shard test plan: the feature closure, the checks on the inventory, and what the shards run. */
module ShardPlan {
  import opened Text

  // ---------- the feature closure ----------

  type Features = map<string, seq<string>>

  /** The local features that one feature turns on. */
  function Enables(features: Features, name: string): (r: set<string>)
    ensures r <= features.Keys
  {
    if name in features then set item | item in features[name] && item in features else {}
  }

  predicate ClosedUnder(features: Features, s: set<string>) {
    forall name :: name in s ==> Enables(features, name) <= s
  }

  function Expand(features: Features, s: set<string>): set<string> {
    s + set name, item | name in s && item in Enables(features, name) :: item
  }

  /** The smallest closed set of features over the initial ones. */
  ghost predicate IsClosure(features: Features, initial: set<string>, s: set<string>) {
    && initial <= s && ClosedUnder(features, s)
    && forall t :: initial <= t && ClosedUnder(features, t) ==> s <= t
  }

  /** A set is closed when it holds every local feature listed under one of its members. */
  lemma ClosedOnLists(features: Features)
    ensures forall s :: ClosedUnder(features, s) <==>
              forall name, item :: name in s && name in features && item in features[name] && item in features ==> item in s
  {
  }

  /** The loop that widens the selection until it stops growing. */
  method SelectFeatures(features: Features, initial: set<string>) returns (selected: set<string>)
    ensures IsClosure(features, initial, selected)
    ensures forall name, item :: name in selected && name in features && item in features[name] && item in features ==> item in selected
    ensures forall t :: initial <= t && (forall name, item :: name in t && name in features && item in features[name] && item in features ==> item in t)
              ==> selected <= t
  {
    ClosedOnLists(features);
    selected := initial;
    while true
      invariant initial <= selected <= initial + features.Keys
      invariant forall t :: initial <= t && ClosedUnder(features, t) ==> selected <= t
      decreases features.Keys + initial - selected
    {
      var expanded := Expand(features, selected);
      if expanded == selected {
        assert ClosedUnder(features, selected);
        break;
      }
      forall t | initial <= t && ClosedUnder(features, t) ensures expanded <= t {
      }
      selected := expanded;
    }
  }

  lemma ClosureUnique(features: Features, initial: set<string>, s: set<string>, t: set<string>)
    requires IsClosure(features, initial, s) && IsClosure(features, initial, t)
    ensures s == t
  {
  }

  // ---------- sorting by name ----------

  predicate NotAfter(a: string, b: string) {
    !LexLess(b, a)
  }

  predicate InOrder(names: seq<string>) {
    forall i :: 0 <= i < |names| - 1 ==> NotAfter(names[i], names[i + 1])
  }

  function Insert(x: string, sorted: seq<string>): (r: seq<string>)
    requires InOrder(sorted)
    ensures InOrder(r) && multiset(r) == multiset(sorted) + multiset{x} && |r| == |sorted| + 1
    ensures r[0] == x || (sorted != [] && r[0] == sorted[0])
  {
    if sorted == [] || !LexLess(sorted[0], x) then [x] + sorted
    else
      assert sorted == [sorted[0]] + sorted[1..];
      LexAsymmetric(sorted[0], x);
      [sorted[0]] + Insert(x, sorted[1..])
  }

  /** Names in order. */
  function Sort(names: seq<string>): (r: seq<string>)
    ensures InOrder(r) && multiset(r) == multiset(names)
  {
    if names == [] then []
    else
      assert names == [names[0]] + names[1..];
      Insert(names[0], Sort(names[1..]))
  }

  // ---------- targets, inventory, commands ----------

  datatype Target = Target(name: string, kind: seq<string>, test: bool, doctest: bool, requiredFeatures: seq<string>)

  datatype Package = Package(name: string, targets: seq<Target>, features: Features)

  datatype Shard = Shard(index: int, tests: seq<string>, lib: bool, doctests: bool)

  datatype Inventory = Inventory(
    schema: int, package: string, features: seq<string>, integration: seq<Target>, selectedFeatures: seq<string>,
    exclusions: seq<string>, libTarget: string, examples: seq<string>, shards: seq<Shard>)

  /** A command as its list of arguments. */
  type Command = seq<string>

  const PACKAGE: string := "ironauth-oidc"
  const FEATURES: seq<string> := ["testing", "ironcache"]

  function Named(packages: seq<Package>, name: string): seq<Package> {
    if packages == [] then []
    else (if packages[0].name == name then [packages[0]] else []) + Named(packages[1..], name)
  }

  function OfKind(targets: seq<Target>, kind: string): (r: seq<Target>)
    ensures forall t :: t in r <==> t in targets && t.kind == [kind]
  {
    if targets == [] then [] else (if targets[0].kind == [kind] then [targets[0]] else []) + OfKind(targets[1..], kind)
  }

  function NamesOf(targets: seq<Target>): (r: seq<string>)
    ensures |r| == |targets| && forall i :: 0 <= i < |r| ==> r[i] == targets[i].name
  {
    if targets == [] then [] else [targets[0].name] + NamesOf(targets[1..])
  }

  /** A stable sort of targets by name. */
  function InsertTarget(x: Target, sorted: seq<Target>): (r: seq<Target>)
    ensures multiset(r) == multiset(sorted) + multiset{x}
  {
    if sorted == [] || !LexLess(sorted[0].name, x.name) then [x] + sorted
    else
      assert sorted == [sorted[0]] + sorted[1..];
      [sorted[0]] + InsertTarget(x, sorted[1..])
  }

  function SortTargets(targets: seq<Target>): (r: seq<Target>)
    ensures multiset(r) == multiset(targets)
  {
    if targets == [] then []
    else
      assert targets == [targets[0]] + targets[1..];
      InsertTarget(targets[0], SortTargets(targets[1..]))
  }

  lemma NamesCons(x: Target, rest: seq<Target>)
    ensures NamesOf([x] + rest) == [x.name] + NamesOf(rest)
  {
    assert ([x] + rest)[1..] == rest;
  }

  lemma InsertNext(x: string, first: string, rest: seq<string>)
    requires InOrder([first] + rest) && InOrder(rest)
    ensures Insert(x, [first] + rest) == if !LexLess(first, x) then [x] + ([first] + rest) else [first] + Insert(x, rest)
  {
    assert ([first] + rest)[1..] == rest;
  }

  lemma {:induction false} InsertsByName(x: Target, sorted: seq<Target>)
    requires InOrder(NamesOf(sorted))
    ensures NamesOf(InsertTarget(x, sorted)) == Insert(x.name, NamesOf(sorted))
  {
    if sorted == [] {
      NamesCons(x, sorted);
    } else {
      var first, rest := sorted[0], sorted[1..];
      assert sorted == [first] + rest;
      NamesCons(first, rest);
      TailInOrder(first.name, NamesOf(rest));
      InsertNext(x.name, first.name, NamesOf(rest));
      InsertsByName(x, rest);
      NamesCons(x, sorted);
      NamesCons(first, InsertTarget(x, rest));
      hide NamesOf, Insert, InOrder;
    }
  }

  lemma TailInOrder(first: string, rest: seq<string>)
    requires InOrder([first] + rest)
    ensures InOrder(rest)
  {
    var all := [first] + rest;
    assert forall i :: 0 <= i < |rest| ==> rest[i] == all[i + 1];
  }

  /** The sorted targets are the same targets with their names in order. */
  lemma {:induction false} SortsByName(targets: seq<Target>)
    ensures NamesOf(SortTargets(targets)) == Sort(NamesOf(targets)) && InOrder(NamesOf(SortTargets(targets)))
    ensures multiset(SortTargets(targets)) == multiset(targets)
  {
    if targets != [] {
      SortsByName(targets[1..]);
      assert NamesOf(targets)[1..] == NamesOf(targets[1..]);
      InsertsByName(targets[0], SortTargets(targets[1..]));
    }
  }

  predicate Distinct(names: seq<string>) {
    forall i, j :: 0 <= i < j < |names| ==> names[i] != names[j]
  }

  predicate Runnable(t: Target, selected: set<string>) {
    forall f :: f in t.requiredFeatures ==> f in selected
  }

  /** The names of the targets that need a feature outside the selection. */
  function Excluded(targets: seq<Target>, selected: set<string>): (r: seq<string>)
    ensures forall n :: n in r <==> exists t :: t in targets && t.name == n && !Runnable(t, selected)
  {
    if targets == [] then []
    else (if !Runnable(targets[0], selected) then [targets[0].name] else []) + Excluded(targets[1..], selected)
  }

  function Without(names: seq<string>, gone: seq<string>): (r: seq<string>)
    ensures forall n :: n in r <==> n in names && n !in gone
  {
    if names == [] then [] else (if names[0] in gone then [] else [names[0]]) + Without(names[1..], gone)
  }

  function Assigned(shards: seq<Shard>): seq<string> {
    if shards == [] then [] else shards[0].tests + Assigned(shards[1..])
  }

  function Indices(shards: seq<Shard>): seq<int> {
    if shards == [] then [] else [shards[0].index] + Indices(shards[1..])
  }

  function WithLib(shards: seq<Shard>): seq<int> {
    if shards == [] then [] else (if shards[0].lib then [shards[0].index] else []) + WithLib(shards[1..])
  }

  function WithDoctests(shards: seq<Shard>): seq<int> {
    if shards == [] then [] else (if shards[0].doctests then [shards[0].index] else []) + WithDoctests(shards[1..])
  }

  /** The checks that come before the feature closure. */
  predicate RosterMatches(packages: seq<Package>, inv: Inventory) {
    && inv.schema == 1 && inv.package == PACKAGE && inv.features == FEATURES
    && |Named(packages, PACKAGE)| == 1
    && var actual := SortTargets(OfKind(Named(packages, PACKAGE)[0].targets, "test"));
    && actual == inv.integration
    && Distinct(NamesOf(actual))
    && forall i :: 0 <= i < |actual| ==> actual[i].test
  }

  predicate LibraryCovered(targets: seq<Target>, inv: Inventory) {
    var libs := OfKind(targets, "lib");
    |libs| == 1 && libs[0].name == inv.libTarget && libs[0].test && libs[0].doctest
  }

  predicate ExamplesCompileOnly(targets: seq<Target>, inv: Inventory) {
    && Sort(NamesOf(OfKind(targets, "example"))) == Sort(inv.examples)
    && forall t :: t in OfKind(targets, "example") ==> !t.test && !t.doctest
  }

  predicate KindsKnown(targets: seq<Target>) {
    forall t :: t in targets ==> t.kind == ["lib"] || t.kind == ["test"] || t.kind == ["example"]
  }

  predicate ShardsCover(shards: seq<Shard>, eligible: seq<string>) {
    && |shards| == 4 && Indices(shards) == [0, 1, 2, 3]
    && Distinct(Assigned(shards)) && Sort(Assigned(shards)) == eligible
    && WithLib(shards) == [0] && WithDoctests(shards) == [3]
  }

  /** Every check, given the selected features. */
  predicate Checked(packages: seq<Package>, inv: Inventory, selected: set<string>) {
    && RosterMatches(packages, inv)
    && var targets := Named(packages, PACKAGE)[0].targets;
    && Distinct(inv.selectedFeatures) && InOrder(inv.selectedFeatures) && (set f | f in inv.selectedFeatures) == selected
    && Excluded(inv.integration, selected) == inv.exclusions
    && LibraryCovered(targets, inv) && ExamplesCompileOnly(targets, inv) && KindsKnown(targets)
    && ShardsCover(inv.shards, Without(NamesOf(inv.integration), inv.exclusions))
  }

  const INITIAL: set<string> := {"default", "testing", "ironcache"}

  /** The plan's verdict on an inventory, for every shard alike. */
  ghost predicate Accepted(packages: seq<Package>, inv: Inventory) {
    |Named(packages, PACKAGE)| == 1
    && exists s :: IsClosure(Named(packages, PACKAGE)[0].features, INITIAL, s) && Checked(packages, inv, s)
  }

  const CARGO_TEST: Command := ["cargo", "test", "-p", "ironauth-oidc", "--features", "testing,ironcache"]

  function TestFlags(tests: seq<string>): seq<string> {
    if tests == [] then [] else ["--test", tests[0]] + TestFlags(tests[1..])
  }

  function LibFlag(lib: bool): seq<string> {
    if lib then ["--lib"] else []
  }

  function Commands(shard: Shard): seq<Command> {
    [CARGO_TEST + (["--no-fail-fast"] + (LibFlag(shard.lib) + TestFlags(shard.tests)))]
    + if shard.doctests then [CARGO_TEST + ["--doc"]] else []
  }

  /** `plan`. */
  method Plan(packages: seq<Package>, inv: Inventory, shard: int) returns (r: Option<seq<Command>>)
    ensures r.Some? <==> Accepted(packages, inv) && 0 <= shard < 4
    ensures r.Some? ==> |inv.shards| == 4 && r.value == Commands(inv.shards[shard])
  {
    hide Sort, SortTargets, IsClosure;
    if !RosterMatches(packages, inv) {
      return None;
    }
    var package := Named(packages, PACKAGE)[0];
    var selected := SelectFeatures(package.features, INITIAL);
    forall s | IsClosure(package.features, INITIAL, s) ensures s == selected {
      ClosureUnique(package.features, INITIAL, s, selected);
    }
    if !Checked(packages, inv, selected) || !(0 <= shard < 4) {
      return None;
    }
    var commands := ShardCommands(inv.shards[shard]);
    return Some(commands);
  }

  /** The end of `plan`: the arguments of one shard's commands. */
  method ShardCommands(chosen: Shard) returns (commands: seq<Command>)
    ensures commands == Commands(chosen)
  {
    var command := CARGO_TEST + ["--no-fail-fast"];
    if chosen.lib {
      command := command + ["--lib"];
    }
    ghost var head := command;
    assert head == CARGO_TEST + (["--no-fail-fast"] + LibFlag(chosen.lib));
    assert chosen.tests[0..] == chosen.tests;
    for i := 0 to |chosen.tests|
      invariant command + TestFlags(chosen.tests[i..]) == head + TestFlags(chosen.tests)
    {
      assert chosen.tests[i..][1..] == chosen.tests[i + 1..];
      ConcatAssociates(command, ["--test", chosen.tests[i]], TestFlags(chosen.tests[i + 1..]));
      command := command + ["--test", chosen.tests[i]];
    }
    assert chosen.tests[|chosen.tests|..] == [] && command == head + TestFlags(chosen.tests);
    ConcatAssociates(CARGO_TEST, ["--no-fail-fast"] + LibFlag(chosen.lib), TestFlags(chosen.tests));
    ConcatAssociates(["--no-fail-fast"], LibFlag(chosen.lib), TestFlags(chosen.tests));
    commands := [command];
    if chosen.doctests {
      commands := commands + [CARGO_TEST + ["--doc"]];
    }
  }

  // ---------- what a command runs ----------

  /** The targets a command line names. */
  datatype Selection = Selection(lib: bool, doc: bool, tests: seq<string>) {

    /** With no target named, the library, every runnable integration target and the doctests all run. */
    predicate NamesNothing() {
      !lib && !doc && tests == []
    }
  }

  /** How the command line is read: options with a value take the argument behind them. */
  function Read(args: Command): Selection {
    if args == [] then Selection(false, false, [])
    else if (args[0] == "-p" || args[0] == "--features") && |args| > 1 then Read(args[2..])
    else if args[0] == "--test" && |args| > 1 then
      var rest := Read(args[2..]);
      rest.(tests := [args[1]] + rest.tests)
    else if args[0] == "--lib" then Read(args[1..]).(lib := true)
    else if args[0] == "--doc" then Read(args[1..]).(doc := true)
    else Read(args[1..])
  }

  lemma ReadCargoTest(rest: Command)
    ensures Read(CARGO_TEST + rest) == Read(rest)
  {
    var a := CARGO_TEST + rest;
    assert a[1..][1..] == ["-p", "ironauth-oidc", "--features", "testing,ironcache"] + rest;
    var b := ["-p", "ironauth-oidc", "--features", "testing,ironcache"] + rest;
    assert Read(a) == Read(a[1..]) == Read(b);
    var c := ["--features", "testing,ironcache"] + rest;
    assert b[2..] == c && b[0] == "-p" && Read(b) == Read(c);
    assert c[2..] == rest && c[0] == "--features" && Read(c) == Read(rest);
  }

  lemma {:induction false} ReadTestFlags(tests: seq<string>)
    ensures Read(TestFlags(tests)) == Selection(false, false, tests)
  {
    if tests != [] {
      var args := TestFlags(tests);
      assert args[2..] == TestFlags(tests[1..]);
      ReadTestFlags(tests[1..]);
    }
  }

  /** The first command of a shard names exactly its library and its tests; the second only the doctests. */
  lemma ReadCommands(shard: Shard)
    ensures Read(Commands(shard)[0]) == Selection(shard.lib, false, shard.tests)
    ensures shard.doctests ==> Read(Commands(shard)[1]) == Selection(false, true, [])
  {
    var flags := LibFlag(shard.lib) + TestFlags(shard.tests);
    ReadCargoTest(["--no-fail-fast"] + flags);
    ReadCargoTest(["--doc"]);
    assert (["--no-fail-fast"] + flags)[1..] == flags;
    if shard.lib {
      assert flags[1..] == TestFlags(shard.tests);
    } else {
      assert flags == TestFlags(shard.tests);
    }
    ReadTestFlags(shard.tests);
  }

  /** The integration targets that run where none is named. */
  function Default(targets: seq<Target>, selected: set<string>): seq<string> {
    if targets == [] then []
    else (if targets[0].kind == ["test"] && targets[0].test && Runnable(targets[0], selected) then [targets[0].name] else [])
         + Default(targets[1..], selected)
  }

  // ---------- what the four shards run ----------

  /** How often commands run the test of a name, the library, and the doctests. */
  function TestRuns(commands: seq<Command>, unnamed: seq<string>, n: string): nat {
    if commands == [] then 0
    else
      var named := Read(commands[0]);
      multiset(if named.NamesNothing() then unnamed else named.tests)[n] + TestRuns(commands[1..], unnamed, n)
  }

  function LibRuns(commands: seq<Command>): nat {
    if commands == [] then 0
    else
      var named := Read(commands[0]);
      (if named.NamesNothing() || named.lib then 1 else 0) + LibRuns(commands[1..])
  }

  function DocRuns(commands: seq<Command>): nat {
    if commands == [] then 0
    else
      var named := Read(commands[0]);
      (if named.NamesNothing() || named.doc then 1 else 0) + DocRuns(commands[1..])
  }

  /** Everything the shards run. */
  function AllCommands(shards: seq<Shard>): seq<Command> {
    if shards == [] then [] else Commands(shards[0]) + AllCommands(shards[1..])
  }

  /** Shards whose command names no target. */
  function BareShards(shards: seq<Shard>): nat {
    if shards == [] then 0 else (if !shards[0].lib && shards[0].tests == [] then 1 else 0) + BareShards(shards[1..])
  }

  lemma ShardRuns(shard: Shard, rest: seq<Command>, unnamed: seq<string>, n: string)
    ensures var bare := !shard.lib && shard.tests == [];
            && TestRuns(Commands(shard) + rest, unnamed, n) == multiset(if bare then unnamed else shard.tests)[n] + TestRuns(rest, unnamed, n)
            && LibRuns(Commands(shard) + rest) == (if bare || shard.lib then 1 else 0) + LibRuns(rest)
            && DocRuns(Commands(shard) + rest) == (if bare then 1 else 0) + (if shard.doctests then 1 else 0) + DocRuns(rest)
  {
    ReadCommands(shard);
    var all := Commands(shard) + rest;
    if shard.doctests {
      assert all[1..][1..] == rest && all[1..][0] == Commands(shard)[1];
    } else {
      assert all[1..] == rest;
    }
    hide Read, Commands;
  }

  lemma AssignedCount(shards: seq<Shard>, n: string)
    requires shards != []
    ensures multiset(Assigned(shards))[n] == multiset(shards[0].tests)[n] + multiset(Assigned(shards[1..]))[n]
  {
  }

  lemma FlaggedCount(shards: seq<Shard>)
    requires shards != []
    ensures |WithLib(shards)| == (if shards[0].lib then 1 else 0) + |WithLib(shards[1..])|
    ensures |WithDoctests(shards)| == (if shards[0].doctests then 1 else 0) + |WithDoctests(shards[1..])|
  {
  }

  lemma {:induction false} AllRun(shards: seq<Shard>, unnamed: seq<string>, n: string)
    ensures TestRuns(AllCommands(shards), unnamed, n) == multiset(Assigned(shards))[n] + BareShards(shards) * multiset(unnamed)[n]
    ensures LibRuns(AllCommands(shards)) == |WithLib(shards)| + BareShards(shards)
    ensures DocRuns(AllCommands(shards)) == |WithDoctests(shards)| + BareShards(shards)
  {
    if shards != [] {
      AllRun(shards[1..], unnamed, n);
      AllRunStep(shards, unnamed, n);
    }
  }

  lemma AllRunStep(shards: seq<Shard>, unnamed: seq<string>, n: string)
    requires shards != []
    requires TestRuns(AllCommands(shards[1..]), unnamed, n)
             == multiset(Assigned(shards[1..]))[n] + BareShards(shards[1..]) * multiset(unnamed)[n]
    requires LibRuns(AllCommands(shards[1..])) == |WithLib(shards[1..])| + BareShards(shards[1..])
    requires DocRuns(AllCommands(shards[1..])) == |WithDoctests(shards[1..])| + BareShards(shards[1..])
    ensures TestRuns(AllCommands(shards), unnamed, n) == multiset(Assigned(shards))[n] + BareShards(shards) * multiset(unnamed)[n]
    ensures LibRuns(AllCommands(shards)) == |WithLib(shards)| + BareShards(shards)
    ensures DocRuns(AllCommands(shards)) == |WithDoctests(shards)| + BareShards(shards)
  {
    hide TestRuns, LibRuns, DocRuns, Commands, Assigned, WithLib, WithDoctests;
    ShardRuns(shards[0], AllCommands(shards[1..]), unnamed, n);
    AssignedCount(shards, n);
    FlaggedCount(shards);
    var bare := if !shards[0].lib && shards[0].tests == [] then 1 else 0;
    Distribute(bare, BareShards(shards[1..]), multiset(unnamed)[n]);
  }

  lemma Distribute(a: nat, b: nat, m: nat)
    ensures (a + b) * m == a * m + b * m
  {
  }

  lemma {:induction false} DistinctCount(names: seq<string>, n: string)
    requires Distinct(names)
    ensures multiset(names)[n] == if n in names then 1 else 0
  {
    if names != [] {
      var rest := names[1..];
      assert forall k :: 0 <= k < |rest| ==> rest[k] == names[k + 1];
      DistinctCount(rest, n);
      CountFirst(names, n);
    }
  }

  lemma CountFirst(names: seq<string>, n: string)
    requires names != []
    ensures multiset(names)[n] == (if names[0] == n then 1 else 0) + multiset(names[1..])[n]
    ensures n in names <==> n == names[0] || n in names[1..]
  {
    assert names == [names[0]] + names[1..];
  }

  /**
   * Of an accepted inventory the four shards run every integration target whose features are selected once and once
   * more for each shard that names nothing, no other name, and the library and the doctests as often.
   */
  lemma ShardsRun(packages: seq<Package>, inv: Inventory, selected: set<string>)
    requires Accepted(packages, inv) && IsClosure(Named(packages, PACKAGE)[0].features, INITIAL, selected)
    ensures var targets := Named(packages, PACKAGE)[0].targets;
            var commands, times := AllCommands(inv.shards), 1 + BareShards(inv.shards);
            && (forall t :: t in targets && t.kind == ["test"] ==>
                  TestRuns(commands, Default(targets, selected), t.name) == if Runnable(t, selected) then times else 0)
            && (forall n :: TestRuns(commands, Default(targets, selected), n) > 0 ==> IsEligible(targets, selected, n))
            && LibRuns(commands) == times && DocRuns(commands) == times
  {
    var targets := Named(packages, PACKAGE)[0].targets;
    var s :| IsClosure(Named(packages, PACKAGE)[0].features, INITIAL, s) && Checked(packages, inv, s);
    ClosureUnique(Named(packages, PACKAGE)[0].features, INITIAL, s, selected);
    CheckedRuns(targets, inv, selected);
  }

  lemma CheckedRuns(targets: seq<Target>, inv: Inventory, selected: set<string>)
    requires SortTargets(OfKind(targets, "test")) == inv.integration && Distinct(NamesOf(inv.integration))
    requires forall i :: 0 <= i < |inv.integration| ==> inv.integration[i].test
    requires Excluded(inv.integration, selected) == inv.exclusions
    requires ShardsCover(inv.shards, Without(NamesOf(inv.integration), inv.exclusions))
    ensures var commands, times := AllCommands(inv.shards), 1 + BareShards(inv.shards);
            && (forall t :: t in targets && t.kind == ["test"] ==>
                  TestRuns(commands, Default(targets, selected), t.name) == if Runnable(t, selected) then times else 0)
            && (forall n :: TestRuns(commands, Default(targets, selected), n) > 0 ==> IsEligible(targets, selected, n))
            && LibRuns(commands) == times && DocRuns(commands) == times
  {
    hide TestRuns, LibRuns, DocRuns, AllCommands, Default, Assigned, BareShards, SortTargets, Sort, OfKind, NamesOf, Distinct,
         Excluded, Without, Runnable, IsEligible, WithLib, WithDoctests, Indices;
    RunsAreEligible(targets, inv, selected);
    AllRun(inv.shards, [], "");
    forall n ensures TestRuns(AllCommands(inv.shards), Default(targets, selected), n)
                     == if IsEligible(targets, selected, n) then 1 + BareShards(inv.shards) else 0 {
      AllRun(inv.shards, Default(targets, selected), n);
      DefaultOnce(targets, inv, selected, n);
    }
  }

  /** What an accepted inventory says of itself: its policy, its examples and its selected features are the real ones. */
  lemma AcceptedMeans(packages: seq<Package>, inv: Inventory, selected: set<string>)
    requires Accepted(packages, inv) && IsClosure(Named(packages, PACKAGE)[0].features, INITIAL, selected)
    ensures inv.schema == 1 && inv.package == "ironauth-oidc" && inv.features == ["testing", "ironcache"]
    ensures multiset(NamesOf(OfKind(Named(packages, PACKAGE)[0].targets, "example"))) == multiset(inv.examples)
    ensures InOrder(inv.selectedFeatures) && Distinct(inv.selectedFeatures)
    ensures forall f :: f in inv.selectedFeatures <==> f in selected
    ensures multiset(inv.integration) == multiset(OfKind(Named(packages, PACKAGE)[0].targets, "test"))
  {
    var s :| IsClosure(Named(packages, PACKAGE)[0].features, INITIAL, s) && Checked(packages, inv, s);
    ClosureUnique(Named(packages, PACKAGE)[0].features, INITIAL, s, selected);
    hide IsClosure, ShardsCover;
    assert forall f :: f in inv.selectedFeatures <==> f in set x | x in inv.selectedFeatures;
  }

  /** The examples of an accepted inventory only compile, and every target is a library, a test or an example. */
  lemma ExamplesNotTested(packages: seq<Package>, inv: Inventory, t: Target)
    requires Accepted(packages, inv) && t in Named(packages, PACKAGE)[0].targets
    ensures t.kind in [["lib"], ["test"], ["example"]]
    ensures t.kind == ["example"] ==> !t.test && !t.doctest
    ensures t.kind == ["test"] ==> t.test
  {
    hide IsClosure, ShardsCover, Sort;
    var targets := Named(packages, PACKAGE)[0].targets;
    if t.kind == ["example"] {
      assert t in OfKind(targets, "example");
    }
    if t.kind == ["test"] {
      assert t in OfKind(targets, "test");
      SameMembers(SortTargets(OfKind(targets, "test")), OfKind(targets, "test"));
    }
  }

  ghost predicate IsEligible(targets: seq<Target>, selected: set<string>, n: string) {
    exists t :: t in targets && t.kind == ["test"] && t.name == n && Runnable(t, selected)
  }

  /**
   * The four shards of an accepted inventory run each runnable integration target, the library and the doctests exactly
   * once, and nothing else, if and only if each shard behind the first names a test.
   */
  lemma ShardsCoverExactly(packages: seq<Package>, inv: Inventory, selected: set<string>)
    requires Accepted(packages, inv) && IsClosure(Named(packages, PACKAGE)[0].features, INITIAL, selected)
    ensures |inv.shards| == 4
    ensures RunsEachOnce(Named(packages, PACKAGE)[0].targets, AllCommands(inv.shards), selected)
            <==> inv.shards[1].tests != [] && inv.shards[2].tests != [] && inv.shards[3].tests != []
  {
    hide IsClosure, ShardsCover, RosterMatches, RunsEachOnce, AllCommands, TestRuns, LibRuns, DocRuns, Default, IsEligible, BareShards;
    ShardsRun(packages, inv, selected);
    AcceptedShards(packages, inv);
    OnceExactly(Named(packages, PACKAGE)[0].targets, AllCommands(inv.shards), selected, BareShards(inv.shards));
  }

  lemma OnceExactly(targets: seq<Target>, commands: seq<Command>, selected: set<string>, bare: nat)
    requires forall t :: t in targets && t.kind == ["test"] ==>
               TestRuns(commands, Default(targets, selected), t.name) == if Runnable(t, selected) then 1 + bare else 0
    requires forall n :: TestRuns(commands, Default(targets, selected), n) > 0 ==> IsEligible(targets, selected, n)
    requires LibRuns(commands) == 1 + bare && DocRuns(commands) == 1 + bare
    ensures RunsEachOnce(targets, commands, selected) <==> bare == 0
  {
    hide TestRuns, LibRuns, DocRuns, Default, IsEligible, Runnable;
  }

  ghost predicate RunsEachOnce(targets: seq<Target>, commands: seq<Command>, selected: set<string>) {
    && (forall t :: t in targets && t.kind == ["test"] ==>
          TestRuns(commands, Default(targets, selected), t.name) == if Runnable(t, selected) then 1 else 0)
    && (forall n :: TestRuns(commands, Default(targets, selected), n) > 0 ==> IsEligible(targets, selected, n))
    && LibRuns(commands) == 1 && DocRuns(commands) == 1
  }

  lemma AcceptedShards(packages: seq<Package>, inv: Inventory)
    requires Accepted(packages, inv)
    ensures |inv.shards| == 4
    ensures BareShards(inv.shards) == 0 <==> inv.shards[1].tests != [] && inv.shards[2].tests != [] && inv.shards[3].tests != []
  {
    hide IsClosure, RosterMatches, ShardsCover, BareShards;
    var s :| IsClosure(Named(packages, PACKAGE)[0].features, INITIAL, s) && Checked(packages, inv, s);
    CoveringShards(inv.shards, Without(NamesOf(inv.integration), inv.exclusions));
  }

  lemma CoveringShards(shards: seq<Shard>, eligible: seq<string>)
    requires ShardsCover(shards, eligible)
    ensures |shards| == 4
    ensures BareShards(shards) == 0 <==> shards[1].tests != [] && shards[2].tests != [] && shards[3].tests != []
  {
    OnlyFirstHasLib(shards);
    BareNone(shards);
    hide BareShards, Indices, WithLib, WithDoctests, Assigned, Sort, Distinct;
  }

  lemma OnlyFirstHasLib(shards: seq<Shard>)
    requires |shards| == 4 && Indices(shards) == [0, 1, 2, 3] && WithLib(shards) == [0]
    ensures shards[0].lib && !shards[1].lib && !shards[2].lib && !shards[3].lib
  {
    forall i | 0 <= i < 4 ensures shards[i].index == i {
      IndexAt(shards, i);
    }
    LibMembers(shards);
    assert 0 in WithLib(shards) && 1 !in WithLib(shards) && 2 !in WithLib(shards) && 3 !in WithLib(shards);
  }

  lemma {:induction false} IndexAt(shards: seq<Shard>, i: nat)
    requires i < |shards|
    ensures |Indices(shards)| == |shards| && Indices(shards)[i] == shards[i].index
  {
    if |shards| > 1 {
      IndexAt(shards[1..], if i == 0 then 0 else i - 1);
    }
  }

  lemma {:induction false} LibMembers(shards: seq<Shard>)
    ensures forall x :: x in WithLib(shards) <==> exists i :: 0 <= i < |shards| && shards[i].lib && shards[i].index == x
  {
    if shards != [] {
      LibMembers(shards[1..]);
      assert forall i :: 0 <= i < |shards| - 1 ==> shards[1..][i] == shards[i + 1];
      assert forall i :: 0 < i < |shards| ==> shards[i] == shards[1..][i - 1];
    }
  }

  lemma {:induction false} BareNone(shards: seq<Shard>)
    ensures BareShards(shards) == 0 <==> forall i :: 0 <= i < |shards| ==> shards[i].lib || shards[i].tests != []
  {
    if shards != [] {
      BareNone(shards[1..]);
      assert forall i :: 0 < i < |shards| ==> shards[i] == shards[1..][i - 1];
      assert forall i :: 0 <= i < |shards| - 1 ==> shards[1..][i] == shards[i + 1];
    }
  }

  lemma RunsAreEligible(targets: seq<Target>, inv: Inventory, selected: set<string>)
    requires SortTargets(OfKind(targets, "test")) == inv.integration && Distinct(NamesOf(inv.integration))
    requires Excluded(inv.integration, selected) == inv.exclusions
    requires Distinct(Assigned(inv.shards)) && Sort(Assigned(inv.shards)) == Without(NamesOf(inv.integration), inv.exclusions)
    ensures var runs := multiset(Assigned(inv.shards));
            && (forall t :: t in targets && t.kind == ["test"] ==> runs[t.name] == if Runnable(t, selected) then 1 else 0)
            && (forall n :: runs[n] == if IsEligible(targets, selected, n) then 1 else 0)
  {
    var listed := Assigned(inv.shards);
    var eligible := Without(NamesOf(inv.integration), inv.exclusions);
    SameMembers(listed, eligible);
    SameMembers(OfKind(targets, "test"), inv.integration);
    hide Sort, SortTargets, Distinct, Assigned, Without, NamesOf, OfKind, Excluded, Runnable;
    forall t | t in targets && t.kind == ["test"]
      ensures multiset(listed)[t.name] == if Runnable(t, selected) then 1 else 0
    {
      assert t in OfKind(targets, "test");
      DistinctCount(listed, t.name);
      NameTellsTarget(inv.integration, t, selected);
    }
    forall n | n in listed ensures IsEligible(targets, selected, n) {
      var t := TargetOfName(inv.integration, n, selected);
      assert t in OfKind(targets, "test");
    }
    forall n ensures multiset(listed)[n] == if IsEligible(targets, selected, n) then 1 else 0 {
      if IsEligible(targets, selected, n) {
        var t :| t in targets && t.kind == ["test"] && t.name == n && Runnable(t, selected);
      } else {
        assert n !in listed;
      }
    }
  }

  /** Where no target is named each runnable one runs once. */
  lemma DefaultOnce(targets: seq<Target>, inv: Inventory, selected: set<string>, n: string)
    requires SortTargets(OfKind(targets, "test")) == inv.integration && Distinct(NamesOf(inv.integration))
    requires forall i :: 0 <= i < |inv.integration| ==> inv.integration[i].test
    ensures multiset(Default(targets, selected))[n] == if IsEligible(targets, selected, n) then 1 else 0
  {
    var tests := OfKind(targets, "test");
    SortsByName(tests);
    SameMembers(tests, inv.integration);
    DefaultCount(targets, selected, n);
    DistinctCount(NamesOf(inv.integration), n);
    assert forall t :: t in tests ==> t.test;
    DefaultMembers(targets, selected, n);
    hide Default, NamesOf, OfKind, SortTargets, Sort, Distinct;
  }

  lemma {:induction false} DefaultCount(targets: seq<Target>, selected: set<string>, n: string)
    ensures multiset(Default(targets, selected))[n] <= multiset(NamesOf(OfKind(targets, "test")))[n]
  {
    if targets != [] {
      hide Runnable, NamesOf;
      var first, rest := targets[0], targets[1..];
      DefaultCount(rest, selected, n);
      var names := NamesOf(OfKind(rest, "test"));
      if first.kind == ["test"] {
        NamesCons(first, OfKind(rest, "test"));
        assert multiset([first.name] + names)[n] == multiset([first.name])[n] + multiset(names)[n];
      } else {
        assert OfKind(targets, "test") == OfKind(rest, "test");
      }
    }
  }

  lemma {:induction false} DefaultMembers(targets: seq<Target>, selected: set<string>, n: string)
    requires forall t :: t in OfKind(targets, "test") ==> t.test
    ensures n in Default(targets, selected) <==> IsEligible(targets, selected, n)
  {
    hide Runnable;
    if targets != [] {
      assert targets == [targets[0]] + targets[1..];
      DefaultMembers(targets[1..], selected, n);
      assert targets[0].kind == ["test"] ==> targets[0] in OfKind(targets, "test");
    }
  }

  lemma SameMembers<T>(a: seq<T>, b: seq<T>)
    requires multiset(a) == multiset(b)
    ensures forall x :: x in a <==> x in b
  {
    assert forall x :: x in a <==> x in multiset(a);
    assert forall x :: x in b <==> x in multiset(b);
  }

  lemma TargetOfName(targets: seq<Target>, n: string, selected: set<string>) returns (t: Target)
    requires n in NamesOf(targets) && n !in Excluded(targets, selected)
    ensures t in targets && t.name == n && Runnable(t, selected)
  {
    var i :| 0 <= i < |targets| && NamesOf(targets)[i] == n;
    t := targets[i];
  }

  /** Among targets of distinct names, a name is excluded exactly when its one target is. */
  lemma NameTellsTarget(targets: seq<Target>, t: Target, selected: set<string>)
    requires t in targets && Distinct(NamesOf(targets))
    ensures t.name in NamesOf(targets)
    ensures t.name in Excluded(targets, selected) <==> !Runnable(t, selected)
  {
    hide Runnable;
    var i :| 0 <= i < |targets| && targets[i] == t;
    var names := NamesOf(targets);
    assert names[i] == t.name;
    hide NamesOf;
    forall u | u in targets && u.name == t.name ensures u == t {
      var j :| 0 <= j < |targets| && targets[j] == u;
      assert names[j] == u.name;
    }
  }

  // ---------- an accepted inventory that runs everything four times ----------

  const SMALL_TARGETS: seq<Target> :=
    [Target("a", ["test"], true, false, []), Target("oidc", ["lib"], true, true, []), Target("demo", ["example"], false, false, [])]

  const SMALL: seq<Package> := [Package(PACKAGE, SMALL_TARGETS, map[])]

  const SPARSE: Inventory := Inventory(
    1, PACKAGE, FEATURES, [SMALL_TARGETS[0]], ["default", "ironcache", "testing"], [], "oidc", ["demo"],
    [Shard(0, ["a"], true, false), Shard(1, [], false, false), Shard(2, [], false, false), Shard(3, [], false, true)])

  /** Three shards that name no test pass every check, and each of them runs the whole package again. */
  lemma EmptyShardsRunAll()
    ensures Accepted(SMALL, SPARSE)
    ensures var commands := AllCommands(SPARSE.shards);
            TestRuns(commands, Default(SMALL_TARGETS, INITIAL), "a") == 4 && LibRuns(commands) == 4 && DocRuns(commands) == 4
  {
    SparseChecked();
    assert IsClosure(map[], INITIAL, INITIAL);
    ShardsRun(SMALL, SPARSE, INITIAL);
    assert SMALL_TARGETS[0] in SMALL_TARGETS;
    SparseBare();
  }

  lemma SparseBare()
    ensures BareShards(SPARSE.shards) == 3
  {
    var a, b, c := SPARSE.shards[1..], SPARSE.shards[2..], SPARSE.shards[3..];
    assert a[1..] == b && b[1..] == c && c[1..] == [];
  }

  lemma SparseChecked()
    ensures Named(SMALL, PACKAGE) == [SMALL[0]] && Checked(SMALL, SPARSE, INITIAL)
  {
    SparseMatches();
    SparseRoster();
    SparseShards();
    SparseFeatures();
    SparseExamples();
    hide ShardsCover, RosterMatches, Sort, SortTargets, NamesOf, Excluded, Without, OfKind, Named, InOrder, Distinct, ExamplesCompileOnly;
  }

  lemma SparseMatches()
    ensures Named(SMALL, PACKAGE) == [SMALL[0]] && RosterMatches(SMALL, SPARSE)
  {
    SparseNamed();
    SparseRoster();
    hide SortTargets, NamesOf, OfKind, Named;
  }

  lemma SparseNamed()
    ensures Named(SMALL, PACKAGE) == [SMALL[0]]
  {
    assert SMALL[1..] == [];
  }

  lemma SparseExamples()
    ensures ExamplesCompileOnly(SMALL_TARGETS, SPARSE)
  {
    SparseRoster();
    hide OfKind, NamesOf, Sort;
  }

  lemma SparseRoster()
    ensures OfKind(SMALL_TARGETS, "test") == [SMALL_TARGETS[0]] && OfKind(SMALL_TARGETS, "lib") == [SMALL_TARGETS[1]]
    ensures OfKind(SMALL_TARGETS, "example") == [SMALL_TARGETS[2]] && NamesOf([SMALL_TARGETS[2]]) == ["demo"]
    ensures SortTargets([SMALL_TARGETS[0]]) == [SMALL_TARGETS[0]]
    ensures NamesOf([SMALL_TARGETS[0]]) == ["a"] && Excluded([SMALL_TARGETS[0]], INITIAL) == [] && Without(["a"], []) == ["a"]
  {
    assert SMALL_TARGETS[1..] == [SMALL_TARGETS[1], SMALL_TARGETS[2]];
    assert [SMALL_TARGETS[1], SMALL_TARGETS[2]][1..] == [SMALL_TARGETS[2]];
    assert "test" != "lib" && "lib" != "example" && "test" != "example";
  }

  lemma ShardCons(first: Shard, rest: seq<Shard>)
    ensures var all := [first] + rest;
            && Assigned(all) == first.tests + Assigned(rest) && Indices(all) == [first.index] + Indices(rest)
            && WithLib(all) == (if first.lib then [first.index] else []) + WithLib(rest)
            && WithDoctests(all) == (if first.doctests then [first.index] else []) + WithDoctests(rest)
  {
    assert ([first] + rest)[1..] == rest;
  }

  lemma SparseShards()
    ensures ShardsCover(SPARSE.shards, ["a"])
  {
    assert Sort(["a"]) == ["a"];
    hide Assigned, Indices, WithLib, WithDoctests, Sort;
    var s := SPARSE.shards;
    SparseTail(s[2], s[3]);
    ShardCons(s[1], [s[2], s[3]]);
    ShardCons(s[0], [s[1]] + [s[2], s[3]]);
    assert s == [s[0]] + ([s[1]] + [s[2], s[3]]);
  }

  lemma SparseTail(a: Shard, b: Shard)
    requires a == Shard(2, [], false, false) && b == Shard(3, [], false, true)
    ensures Assigned([a, b]) == [] && Indices([a, b]) == [2, 3] && WithLib([a, b]) == [] && WithDoctests([a, b]) == [3]
  {
    assert [a, b] == [a] + ([b] + []);
    ShardCons(b, []);
    ShardCons(a, [b] + []);
  }

  lemma SparseFeatures()
    ensures var f := SPARSE.selectedFeatures; Distinct(f) && InOrder(f) && (set x | x in f) == INITIAL
  {
    assert "default"[0] == 'd' && "ironcache"[0] == 'i' && "testing"[0] == 't';
  }

  // ---------- running ----------

  /** `run_commands`: every command runs, and the first failure is what is returned. */
  method RunCommands(codes: seq<int>) returns (result: int)
    ensures result == 0 <==> forall i :: 0 <= i < |codes| ==> codes[i] == 0
    ensures result >= 0
    ensures result != 0 ==>
              exists i :: 0 <= i < |codes| && codes[i] != 0 && (forall j :: 0 <= j < i ==> codes[j] == 0)
                          && result == if codes[i] > 0 then codes[i] else 1
  {
    result := 0;
    for i := 0 to |codes|
      invariant result >= 0
      invariant result == 0 <==> forall j :: 0 <= j < i ==> codes[j] == 0
      invariant result != 0 ==>
                  exists k :: 0 <= k < i && codes[k] != 0 && (forall j :: 0 <= j < k ==> codes[j] == 0)
                              && result == if codes[k] > 0 then codes[k] else 1
    {
      if codes[i] != 0 && result == 0 {
        result := if codes[i] > 0 then codes[i] else 1;
      }
    }
  }
}
