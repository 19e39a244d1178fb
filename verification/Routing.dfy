/** Routing decisions (local-stack/client/src/routing_rules.rs) and the settings migration that selects their rule
    source (local-stack/client/src/settings.rs). */
module Routing {
  import opened Prelude
  import opened Ascii
  import opened Bypass
  import Glob
  import HostRules

  datatype Source = Merged | Bundles | Board

  /** "bundles", "board", "default" */
  const BUNDLES: Bytes := [98, 117, 110, 100, 108, 101, 115]
  const BOARD: Bytes := [98, 111, 97, 114, 100]

  function ParseSource(s: Bytes): Source {
    var t := Lower(Trim(s));
    if t == BUNDLES then Bundles else if t == BOARD then Board else Merged
  }

  datatype RulePaths = RulePaths(blockJson: Option<Bytes>, passJson: Option<Bytes>, ourJson: Option<Bytes>)

  datatype Global = Global(bypass: seq<Bytes>, paths: RulePaths, source: Bytes)

  datatype BoardConfig = BoardConfig(bypass: seq<Bytes>, enabled: bool)

  datatype Rules = Rules(block: HostRules.RuleSet, pass: HostRules.RuleSet, our: HostRules.RuleSet)

  datatype Decision = Tunnel | Direct | Block

  // ---- The three variants; no decision when a bypass list does not compile ----

  /** Decided by the bundles alone, before any bypass list is read. */
  function Early(ip: Ip, host: Bytes, rules: Option<Rules>): Option<Decision> {
    if rules.None? then None
    else if HostRules.Matches(ip, rules.value.block, host) then Some(Block)
    else if rules.value.our.hasRules && !HostRules.Matches(ip, rules.value.our, host) then Some(Direct)
    else None
  }

  predicate Passes(ip: Ip, host: Bytes, rules: Option<Rules>) {
    rules.Some? && HostRules.Matches(ip, rules.value.pass, host)
  }

  function DecideMerged(ip: Ip, host: Bytes, board: BoardConfig, g: Global, rules: Option<Rules>): Option<Decision> {
    if Early(ip, host, rules).Some? then Early(ip, host, rules)
    else
      var gm := Compiled(ip, g.bypass);
      if gm.None? then None
      else
        var bm := Compiled(ip, board.bypass);
        if bm.None? then None
        else if MatchesHost(ip, gm.value, host) || MatchesHost(ip, bm.value, host) then Some(Direct)
        else if Passes(ip, host, rules) then Some(Direct)
        else Some(Tunnel)
  }

  function DecideBundles(ip: Ip, host: Bytes, g: Global, rules: Option<Rules>): Option<Decision> {
    if Early(ip, host, rules).Some? then Early(ip, host, rules)
    else
      var gm := Compiled(ip, g.bypass);
      if gm.None? then None
      else if MatchesHost(ip, gm.value, host) then Some(Direct)
      else if Passes(ip, host, rules) then Some(Direct)
      else Some(Tunnel)
  }

  function DecideBoard(ip: Ip, host: Bytes, board: BoardConfig, g: Global): Option<Decision> {
    var gm := Compiled(ip, g.bypass);
    if gm.None? then None
    else
      var bm := Compiled(ip, board.bypass);
      if bm.None? then None
      else if MatchesHost(ip, gm.value, host) || MatchesHost(ip, bm.value, host) then Some(Direct)
      else Some(Tunnel)
  }

  function Decide(ip: Ip, host: Bytes, board: BoardConfig, g: Global, rules: Option<Rules>): Option<Decision> {
    match ParseSource(g.source)
    case Merged => DecideMerged(ip, host, board, g, rules)
    case Bundles => DecideBundles(ip, host, g, rules)
    case Board => DecideBoard(ip, host, board, g)
  }

  // ---- What a decision means, in terms of the rule lines ----

  /** Rule lists as written, all of which compile. */
  ghost predicate FromLines(ip: Ip, lib: Glob.Library, rules: Rules, block: seq<Bytes>, pass: seq<Bytes>,
                            our: seq<Bytes>) {
    && HostRules.CompiledSet(ip, lib, block) == Some(rules.block)
    && HostRules.CompiledSet(ip, lib, pass) == Some(rules.pass)
    && HostRules.CompiledSet(ip, lib, our) == Some(rules.our)
  }

  /** The merged decision read off the lines themselves: block lines first, then the allowlist if it holds any line,
      then, if both bypass lists compile, every bypass and pass line, and the tunnel for the rest. */
  lemma MergedByLines(ip: Ip, lib: Glob.Library, host: Bytes, board: BoardConfig, g: Global, rules: Rules,
                      block: seq<Bytes>, pass: seq<Bytes>, our: seq<Bytes>)
    requires ip.Lawful() && lib.Lawful() && FromLines(ip, lib, rules, block, pass, our)
    ensures DecideMerged(ip, host, board, g, Some(rules))
            == if HostRules.AnyLine(ip, lib, block, host) then Some(Block)
               else if HostRules.SomeLine(our) && !HostRules.AnyLine(ip, lib, our, host) then Some(Direct)
               else if !AllAcceptable(ip, g.bypass) || !AllAcceptable(ip, board.bypass) then None
               else if AnyRule(ip, g.bypass, host) || AnyRule(ip, board.bypass, host)
                       || HostRules.AnyLine(ip, lib, pass, host) then Some(Direct)
               else Some(Tunnel)
  {
    HostRules.CompileMeans(ip, lib, block, host);
    HostRules.CompileMeans(ip, lib, pass, host);
    HostRules.CompileMeans(ip, lib, our, host);
    BuildMeans(ip, g.bypass, host);
    BuildMeans(ip, board.bypass, host);
  }

  lemma EmptyBypass(ip: Ip, host: Bytes)
    ensures Compiled(ip, []) == Some(EMPTY) && !MatchesHost(ip, EMPTY, host)
  {
  }

  /** Merged mode without bundles is board mode; merged mode without a board list is bundles mode. */
  lemma MergedDegenerates(ip: Ip, host: Bytes, board: BoardConfig, g: Global, rules: Option<Rules>)
    ensures DecideMerged(ip, host, board, g, None) == DecideBoard(ip, host, board, g)
    ensures board.bypass == [] ==> DecideMerged(ip, host, board, g, rules) == DecideBundles(ip, host, g, rules)
  {
    EmptyBypass(ip, host);
  }

  /** The decision under every source text: "board" leaves the bundles out, "bundles" leaves the board's list out, and
      any other text uses both. */
  lemma DecisionByLines(ip: Ip, lib: Glob.Library, host: Bytes, board: BoardConfig, g: Global, rules: Rules,
                        block: seq<Bytes>, pass: seq<Bytes>, our: seq<Bytes>)
    requires ip.Lawful() && lib.Lawful() && FromLines(ip, lib, rules, block, pass, our)
    ensures var source := Lower(Trim(g.source));
            var bundles, list := source != [98, 111, 97, 114, 100], source != [98, 117, 110, 100, 108, 101, 115];
            Decide(ip, host, board, g, Some(rules))
            == if bundles && HostRules.AnyLine(ip, lib, block, host) then Some(Block)
               else if bundles && HostRules.SomeLine(our) && !HostRules.AnyLine(ip, lib, our, host) then Some(Direct)
               else if !AllAcceptable(ip, g.bypass) || (list && !AllAcceptable(ip, board.bypass)) then None
               else if AnyRule(ip, g.bypass, host) || (list && AnyRule(ip, board.bypass, host))
                       || (bundles && HostRules.AnyLine(ip, lib, pass, host)) then Some(Direct)
               else Some(Tunnel)
  {
    var empty := board.(bypass := []);
    MergedByLines(ip, lib, host, board, g, rules, block, pass, our);
    MergedByLines(ip, lib, host, empty, g, rules, block, pass, our);
    MergedDegenerates(ip, host, empty, g, Some(rules));
    BuildMeans(ip, g.bypass, host);
    BuildMeans(ip, board.bypass, host);
  }

  /** Without rule files only the bypass lists count. */
  lemma DecisionWithoutBundles(ip: Ip, host: Bytes, board: BoardConfig, g: Global)
    ensures var list := Lower(Trim(g.source)) != [98, 117, 110, 100, 108, 101, 115];
            Decide(ip, host, board, g, None)
            == if !AllAcceptable(ip, g.bypass) || (list && !AllAcceptable(ip, board.bypass)) then None
               else if AnyRule(ip, g.bypass, host) || (list && AnyRule(ip, board.bypass, host)) then Some(Direct)
               else Some(Tunnel)
  {
    BuildMeans(ip, g.bypass, host);
    BuildMeans(ip, board.bypass, host);
  }

  /** The two modes agree on a host exactly when the board's list cannot change the outcome. */
  lemma MergedEqualsBundles(ip: Ip, host: Bytes, board: BoardConfig, g: Global, rules: Option<Rules>)
    ensures DecideMerged(ip, host, board, g, rules) == DecideBundles(ip, host, g, rules)
            <==> || Early(ip, host, rules).Some?
                 || !AllAcceptable(ip, g.bypass)
                 || (AllAcceptable(ip, board.bypass)
                     && (AnyRule(ip, board.bypass, host) ==> AnyRule(ip, g.bypass, host) || Passes(ip, host, rules)))
  {
    BuildMeans(ip, g.bypass, host);
    BuildMeans(ip, board.bypass, host);
  }

  // ---- The settings migration ----

  datatype Settings = Settings(global: Global, defaultBoard: Bytes, boards: map<Bytes, BoardConfig>)

  predicate Named(path: Option<Bytes>) {
    path.Some? && Trim(path.value) != []
  }

  predicate HasBundles(p: RulePaths) {
    Named(p.blockJson) || Named(p.passJson) || Named(p.ourJson)
  }

  function BoardKey(d: Settings): Bytes {
    if Trim(d.defaultBoard) == [] then DEFAULT else d.defaultBoard
  }

  /** The board the migration looks at; one with default settings if it is absent. */
  function Inspected(d: Settings): BoardConfig {
    if BoardKey(d) in d.boards then d.boards[BoardKey(d)] else BoardConfig([], false)
  }

  predicate Migrates(d: Settings) {
    Trim(d.global.source) == [] && HasBundles(d.global.paths) && Inspected(d).bypass == []
  }

  function Migrated(d: Settings): Settings {
    if !Migrates(d) then d
    else
      var key := BoardKey(d);
      Settings(d.global.(source := BUNDLES), d.defaultBoard,
               if key in d.boards then d.boards[key := d.boards[key].(enabled := true)] else d.boards)
  }

  class SettingsFile {
    var global: Global
    var defaultBoard: Bytes
    var boards: map<Bytes, BoardConfig>

    function Value(): Settings
      reads this
    {
      Settings(global, defaultBoard, boards)
    }

    method MigrateTrafficRules()
      modifies this
      ensures Value() == Migrated(old(Value()))
    {
      if Trim(global.source) != [] {
        return;
      }
      var p := global.paths;
      var hasBundles := Named(p.blockJson) || Named(p.passJson) || Named(p.ourJson);
      if !hasBundles {
        return;
      }
      var key := if Trim(defaultBoard) == [] then DEFAULT else defaultBoard;
      if key !in boards {
        global := global.(source := BUNDLES);
        return;
      }
      var listsEmpty := boards[key].bypass == [];
      if listsEmpty {
        global := global.(source := BUNDLES);
        if !boards[key].enabled {
          boards := boards[key := boards[key].(enabled := true)];
        } else {
          assert boards[key := boards[key].(enabled := true)] == boards;
        }
      }
    }
  }

  lemma BundlesParses()
    ensures Trim(BUNDLES) == BUNDLES && ParseSource(BUNDLES) == Bundles
  {
    TrimFixed(BUNDLES);
    assert Lower(BUNDLES) == BUNDLES;
  }

  lemma BlankIsMerged(s: Bytes)
    requires Trim(s) == []
    ensures ParseSource(s) == Merged
  {
  }

  /** The settings change exactly when the source is blank, some rule path is not, and the default board is absent or
      has no bypass list of its own. */
  lemma MigratesIff(d: Settings)
    ensures Migrated(d) != d
            <==> && Trim(d.global.source) == []
                 && (exists p :: p in [d.global.paths.blockJson, d.global.paths.passJson, d.global.paths.ourJson]
                                 && p.Some? && Trim(p.value) != [])
                 && var key := if Trim(d.defaultBoard) == [] then [100, 101, 102, 97, 117, 108, 116]
                               else d.defaultBoard;
                    key in d.boards ==> d.boards[key].bypass == []
  {
    BundlesParses();
    var p := d.global.paths;
    var all := [p.blockJson, p.passJson, p.ourJson];
    assert all[0] == p.blockJson && all[1] == p.passJson && all[2] == p.ourJson;
    assert p.blockJson in all && p.passJson in all && p.ourJson in all;
  }

  lemma MigrationIdempotent(d: Settings)
    ensures Migrated(Migrated(d)) == Migrated(d)
  {
    BundlesParses();
  }

  /** What a migration changes: the source becomes the bundles and the inspected board is enabled; nothing else. */
  lemma MigrationEffect(d: Settings)
    requires Migrates(d)
    ensures var d', key := Migrated(d), BoardKey(d);
            && ParseSource(d.global.source) == Merged && ParseSource(d'.global.source) == Bundles
            && d'.global.(source := d.global.source) == d.global && d'.defaultBoard == d.defaultBoard
            && d'.boards.Keys == d.boards.Keys && d'.boards - {key} == d.boards - {key}
            && (key in d.boards ==> d'.boards[key] == d.boards[key].(enabled := true))
  {
    BundlesParses();
    BlankIsMerged(d.global.source);
  }

  /** No host is decided differently for the board the migration inspected, whatever the bundles hold. */
  lemma MigrationKeepsDecisions(ip: Ip, d: Settings, rules: Option<Rules>, host: Bytes)
    ensures var d' := Migrated(d);
            && d'.global.paths == d.global.paths
            && Decide(ip, host, Inspected(d'), d'.global, rules) == Decide(ip, host, Inspected(d), d.global, rules)
  {
    if Migrates(d) {
      BundlesParses();
      BlankIsMerged(d.global.source);
      MergedDegenerates(ip, host, Inspected(d), d.global, rules);
    }
  }

  /** For any other board a migration keeps a host's decision exactly when the board's list cannot change it. */
  lemma MigrationOnOtherBoards(ip: Ip, d: Settings, board: BoardConfig, rules: Option<Rules>, host: Bytes)
    requires Migrates(d)
    ensures Decide(ip, host, board, Migrated(d).global, rules) == Decide(ip, host, board, d.global, rules)
            <==> || Early(ip, host, rules).Some?
                 || !AllAcceptable(ip, d.global.bypass)
                 || (AllAcceptable(ip, board.bypass)
                     && (AnyRule(ip, board.bypass, host)
                         ==> AnyRule(ip, d.global.bypass, host) || Passes(ip, host, rules)))
  {
    BundlesParses();
    BlankIsMerged(d.global.source);
    MergedEqualsBundles(ip, host, board, d.global, rules);
  }
}
