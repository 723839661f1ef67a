/** Temporary blocks and reputations, kept in memory and in a table, across restarts. */
module Mitigation {
  import opened Text
  import opened Findings

  datatype Block = Block(actionId: string, ttlSecs: nat, createdAt: int, expiresAt: int, reason: string)

  datatype Reputation = Reputation(score: int, lastSeenAt: int)

  type Blocks = map<string, Block>

  type Reputations = map<string, Reputation>

  /** The two maps in memory, the two tables, and the clock. */
  datatype State = State(blocks: Blocks, rows: Blocks, reputation: Reputations, reputationRows: Reputations, now: int)

  /** One handler, background sweep, restart or passage of time; each is one atomic step. */
  datatype Event =
    | BlockIp(ip: string, ttlSecs: nat, reason: string, actionId: string)
    | Unblock(ip: string)
    | ClearSource(ip: string)
    | Lookup(ip: string)
    | Sweep
    | Restart
    | AddScore(ip: string, delta: int)
    | ResetReputation(ip: string)
    | Tick(elapsed: nat)

  predicate Expired(b: Block, now: int) {
    b.expiresAt <= now
  }

  function NewBlock(e: Event, now: int): Block
    requires e.BlockIp?
  {
    Block(e.actionId, e.ttlSecs, now, now + e.ttlSecs, e.reason)
  }

  function ScoreAfter(m: Reputations, ip: string, delta: int): int {
    if ip in m then m[ip].score + delta else delta
  }

  function Unexpired(m: Blocks, now: int): Blocks {
    map ip | ip in m && !Expired(m[ip], now) :: m[ip]
  }

  /** The addresses the sweep finds expired in memory; only their rows are deleted. */
  function ExpiredKeys(m: Blocks, now: int): set<string> {
    set ip | ip in m && Expired(m[ip], now)
  }

  function RemoveBlock(s: State, ip: string): State {
    if ip in s.blocks then s.(blocks := s.blocks - {ip}, rows := s.rows - {ip}) else s
  }

  function RemoveReputation(s: State, ip: string): State {
    if ip in s.reputation then s.(reputation := s.reputation - {ip}, reputationRows := s.reputationRows - {ip}) else s
  }

  function SweepMemory(s: State): State {
    s.(blocks := s.blocks - ExpiredKeys(s.blocks, s.now))
  }

  function DeleteRows(s: State, ips: set<string>): State {
    s.(rows := s.rows - ips)
  }

  function Step(s: State, e: Event): State {
    match e
    case BlockIp(ip, _, _, _) =>
      s.(blocks := s.blocks[ip := NewBlock(e, s.now)], rows := s.rows[ip := NewBlock(e, s.now)])
    case Unblock(ip) => RemoveBlock(s, ip)
    case ClearSource(ip) => RemoveReputation(RemoveBlock(s, ip), ip)
    case Lookup(ip) =>
      if ip in s.blocks && Expired(s.blocks[ip], s.now) then s.(blocks := s.blocks - {ip}) else s
    case Sweep => DeleteRows(SweepMemory(s), ExpiredKeys(s.blocks, s.now))
    case Restart => s.(blocks := Unexpired(s.rows, s.now), reputation := s.reputationRows)
    case AddScore(ip, delta) =>
      var r := Reputation(ScoreAfter(s.reputation, ip, delta), s.now);
      s.(reputation := s.reputation[ip := r], reputationRows := s.reputationRows[ip := r])
    case ResetReputation(ip) => RemoveReputation(s, ip)
    case Tick(elapsed) => s.(now := s.now + elapsed)
  }

  function Run(start: int, es: seq<Event>): State {
    if es == [] then State(map[], map[], map[], map[], start) else Step(Run(start, es[..|es| - 1]), es[|es| - 1])
  }

  /** The answer the request middleware acts on. */
  function ActiveBlock(s: State, ip: string): Option<Block> {
    if ip in s.blocks && !Expired(s.blocks[ip], s.now) then Some(s.blocks[ip]) else None
  }

  /** A block in memory is its row, a row that has not expired is in memory, and reputations agree. */
  ghost predicate InSync(s: State) {
    && (forall ip :: ip in s.blocks ==> ip in s.rows && s.blocks[ip] == s.rows[ip])
    && (forall ip :: ip in s.rows && !Expired(s.rows[ip], s.now) ==> ip in s.blocks)
    && s.reputation == s.reputationRows
  }

  lemma StepKeepsSync(s: State, e: Event)
    requires InSync(s)
    ensures InSync(Step(s, e))
  {
  }

  lemma {:induction false} AlwaysInSync(start: int, es: seq<Event>)
    ensures InSync(Run(start, es))
  {
    if es == [] {
    } else {
      AlwaysInSync(start, es[..|es| - 1]);
      StepKeepsSync(Run(start, es[..|es| - 1]), es[|es| - 1]);
    }
  }

  // The same answers from the history alone

  function Clock(start: int, es: seq<Event>): int {
    if es == [] then start
    else Clock(start, es[..|es| - 1]) + if es[|es| - 1].Tick? then es[|es| - 1].elapsed else 0
  }

  function BlockChange(last: Option<Block>, e: Event, ip: string, now: int): Option<Block> {
    match e
    case BlockIp(x, _, _, _) => if x == ip then Some(NewBlock(e, now)) else last
    case Unblock(x) => if x == ip then None else last
    case ClearSource(x) => if x == ip then None else last
    case _ => last
  }

  /** The block left by the latest block, unblock or clear of the address, if that was a block. */
  function LatestBlock(start: int, es: seq<Event>, ip: string): Option<Block> {
    if es == [] then None
    else
      var before := es[..|es| - 1];
      BlockChange(LatestBlock(start, before, ip), es[|es| - 1], ip, Clock(start, before))
  }

  function ReputationChange(last: Option<Reputation>, e: Event, ip: string, now: int): Option<Reputation> {
    match e
    case AddScore(x, delta) =>
      if x == ip then Some(Reputation((if last.Some? then last.value.score else 0) + delta, now)) else last
    case ResetReputation(x) => if x == ip then None else last
    case ClearSource(x) => if x == ip then None else last
    case _ => last
  }

  /** The reputation left by the scores since the latest reset or clear of the address. */
  function LatestReputation(start: int, es: seq<Event>, ip: string): Option<Reputation> {
    if es == [] then None
    else
      var before := es[..|es| - 1];
      ReputationChange(LatestReputation(start, before, ip), es[|es| - 1], ip, Clock(start, before))
  }

  function ReputationOf(s: State, ip: string): Option<Reputation> {
    if ip in s.reputation then Some(s.reputation[ip]) else None
  }

  /** The unexpired part of a block answers lookups. */
  function Live(latest: Option<Block>, now: int): Option<Block> {
    if latest.Some? && !Expired(latest.value, now) then latest else None
  }

  lemma BlockAfterStep(s: State, e: Event, ip: string, latest: Option<Block>)
    requires InSync(s) && ActiveBlock(s, ip) == Live(latest, s.now)
    ensures ActiveBlock(Step(s, e), ip) == Live(BlockChange(latest, e, ip, s.now), Step(s, e).now)
    ensures Step(s, e).now == s.now + if e.Tick? then e.elapsed else 0
  {
  }

  lemma {:induction false} BlockFollowsHistory(start: int, es: seq<Event>, ip: string)
    ensures var s, latest := Run(start, es), LatestBlock(start, es, ip);
      && s.now == Clock(start, es)
      && ActiveBlock(s, ip) == Live(latest, s.now)
  {
    if es == [] {
    } else {
      var before := es[..|es| - 1];
      BlockFollowsHistory(start, before, ip);
      AlwaysInSync(start, before);
      BlockAfterStep(Run(start, before), es[|es| - 1], ip, LatestBlock(start, before, ip));
    }
  }

  lemma ReputationAfterStep(s: State, e: Event, ip: string)
    requires s.reputation == s.reputationRows
    ensures ReputationOf(Step(s, e), ip) == ReputationChange(ReputationOf(s, ip), e, ip, s.now)
  {
  }

  lemma {:induction false} ReputationFollowsHistory(start: int, es: seq<Event>, ip: string)
    ensures ReputationOf(Run(start, es), ip) == LatestReputation(start, es, ip)
  {
    if es == [] {
    } else {
      var before := es[..|es| - 1];
      ReputationFollowsHistory(start, before, ip);
      BlockFollowsHistory(start, before, ip);
      AlwaysInSync(start, before);
      ReputationAfterStep(Run(start, before), es[|es| - 1], ip);
    }
  }

  /**
   * Over every run, a lookup finds a block exactly when the latest block, unblock or clear of the
   * address was a block that has not expired, and the reputation is the score since its last reset.
   */
  lemma AnswersFollowHistory(start: int, es: seq<Event>, ip: string, b: Block)
    ensures ActiveBlock(Run(start, es), ip) == Some(b) <==>
            LatestBlock(start, es, ip) == Some(b) && b.expiresAt > Clock(start, es)
    ensures ReputationOf(Run(start, es), ip) == LatestReputation(start, es, ip)
  {
    BlockFollowsHistory(start, es, ip);
    ReputationFollowsHistory(start, es, ip);
  }

  /** Restarts, sweeps and lookups: the steps no source can tell from their absence. */
  predicate Silent(e: Event) {
    e.Restart? || e.Sweep? || e.Lookup?
  }

  function WithoutSilent(es: seq<Event>): seq<Event> {
    if es == [] then []
    else if Silent(es[|es| - 1]) then WithoutSilent(es[..|es| - 1])
    else WithoutSilent(es[..|es| - 1]) + [es[|es| - 1]]
  }

  lemma {:induction false} HistoryWithoutSilent(start: int, es: seq<Event>, ip: string)
    ensures var quiet := WithoutSilent(es);
      && Clock(start, quiet) == Clock(start, es)
      && LatestBlock(start, quiet, ip) == LatestBlock(start, es, ip)
      && LatestReputation(start, quiet, ip) == LatestReputation(start, es, ip)
  {
    if es == [] {
    } else {
      var before := es[..|es| - 1];
      HistoryWithoutSilent(start, before, ip);
      if !Silent(es[|es| - 1]) {
        assert WithoutSilent(es)[..|WithoutSilent(before)|] == WithoutSilent(before);
      }
    }
  }

  /**
   * A restart, a sweep or a lazy expiry anywhere in a run changes no lookup, no listed block and no
   * reputation afterwards.
   */
  lemma RestartIsUnobservable(start: int, es: seq<Event>)
    ensures var s, quiet := Run(start, es), Run(start, WithoutSilent(es));
      && (forall ip :: ActiveBlock(s, ip) == ActiveBlock(quiet, ip))
      && Unexpired(s.blocks, s.now) == Unexpired(quiet.blocks, quiet.now)
      && s.reputation == quiet.reputation
  {
    var s, quiet := Run(start, es), Run(start, WithoutSilent(es));
    forall ip
      ensures ActiveBlock(s, ip) == ActiveBlock(quiet, ip) && ReputationOf(s, ip) == ReputationOf(quiet, ip)
      ensures s.now == quiet.now
    {
      BlockFollowsHistory(start, es, ip);
      BlockFollowsHistory(start, WithoutSilent(es), ip);
      ReputationFollowsHistory(start, es, ip);
      ReputationFollowsHistory(start, WithoutSilent(es), ip);
      HistoryWithoutSilent(start, es, ip);
    }
    SameListing(s, quiet);
    SameReputations(s, quiet);
  }

  lemma SameListing(s: State, t: State)
    requires forall ip :: ActiveBlock(s, ip) == ActiveBlock(t, ip)
    ensures Unexpired(s.blocks, s.now) == Unexpired(t.blocks, t.now)
  {
    var a, b := Unexpired(s.blocks, s.now), Unexpired(t.blocks, t.now);
    forall ip
      ensures ip in a <==> ip in b
      ensures ip in a ==> a[ip] == b[ip]
    {
      assert ActiveBlock(s, ip) == ActiveBlock(t, ip);
    }
  }

  lemma SameReputations(s: State, t: State)
    requires forall ip :: ReputationOf(s, ip) == ReputationOf(t, ip)
    ensures s.reputation == t.reputation
  {
    forall ip
      ensures ip in s.reputation <==> ip in t.reputation
      ensures ip in s.reputation ==> s.reputation[ip] == t.reputation[ip]
    {
      assert ReputationOf(s, ip) == ReputationOf(t, ip);
    }
  }

  // What a restart does show, and what a sweep in two steps would lose

  /** Whether an unblock or clear reports that it removed a block: it asks the memory only. */
  predicate ReportsRemoval(s: State, ip: string) {
    ip in s.blocks
  }

  /** The report of an unblock survives a restart exactly when no expired block is waiting in memory. */
  lemma RestartSeenByUnblock(start: int, es: seq<Event>, ip: string)
    ensures var s := Run(start, es);
      (ReportsRemoval(Step(s, Restart), ip) <==> ReportsRemoval(s, ip))
      <==> !(ip in s.blocks && Expired(s.blocks[ip], s.now))
  {
    AlwaysInSync(start, es);
  }

  lemma UnblockReportChanges(ip: string)
    ensures var s := Run(0, [BlockIp(ip, 10, "manual", "id"), Tick(10)]);
      ReportsRemoval(s, ip) && !ReportsRemoval(Step(s, Restart), ip)
  {
    var block := BlockIp(ip, 10, "manual", "id");
    assert [block][..0] == [] && [block, Tick(10)][..1] == [block];
    var s := Run(0, [block]);
    assert s == Step(Run(0, []), block);
    assert Run(0, [block, Tick(10)]) == Step(s, Tick(10));
  }

  /**
   * If the sweep were two steps, removing from memory and later deleting the rows, memory and table
   * would still agree exactly when none of its addresses has been blocked in between.
   */
  lemma SplitSweep(s: State, ips: set<string>)
    requires InSync(s)
    ensures InSync(SweepMemory(s))
    ensures InSync(DeleteRows(s, ips)) <==> ips !! s.blocks.Keys
  {
    if InSync(DeleteRows(s, ips)) {
      forall ip | ip in ips
        ensures ip !in s.blocks
      {
      }
    }
  }

  /** Then a restart would lift a block that is in force. */
  lemma SplitSweepLosesBlock(start: int, es: seq<Event>, ip: string, ttl: nat)
    requires ttl > 0
    ensures var s := Run(start, es);
      var blocked := Step(SweepMemory(s), BlockIp(ip, ttl, "again", "id"));
      var late := DeleteRows(blocked, {ip});
      ActiveBlock(late, ip).Some? && ActiveBlock(Step(late, Restart), ip) == None
  {
  }

  // The store

  function ReputationPoints(severities: seq<Severity>): int {
    if severities == [] then 0
    else ReputationPoints(severities[..|severities| - 1]) + Points(severities[|severities| - 1])
  }

  function Points(s: Severity): int {
    match s
    case Low => 1
    case Medium => 2
    case High => 4
    case Critical => 6
  }

  function RunFrom(s: State, es: seq<Event>): State {
    if es == [] then s else Step(RunFrom(s, es[..|es| - 1]), es[|es| - 1])
  }

  /** The bans among the actions, in order. */
  function Bans(ip: string, actions: seq<MitigationAction>, summary: string, ids: nat -> string): seq<Event> {
    if actions == [] then []
    else
      var rest, last := Bans(ip, actions[..|actions| - 1], summary, ids), actions[|actions| - 1];
      if last.BlockSourceIpTemporary? then rest + [BlockIp(ip, last.ttlSecs, summary, ids(|actions| - 1))] else rest
  }

  /** The score of a request, when it has one, as a run of its own. */
  function ScoreEvents(ip: string, severities: seq<Severity>): seq<Event> {
    if ReputationPoints(severities) > 0 then [AddScore(ip, ReputationPoints(severities))] else []
  }

  /** The steps a rejected request takes: its score, when positive, and then its bans. */
  function FinalizeEvents(ip: string, severities: seq<Severity>, actions: seq<MitigationAction>,
                          summary: string, ids: nat -> string): seq<Event> {
    ScoreEvents(ip, severities) + Bans(ip, actions, summary, ids)
  }

  function CountOf(severities: seq<Severity>, s: Severity): int {
    multiset(severities)[s]
  }

  /** A rejected request costs one, two, four or six points for each finding, by its severity. */
  lemma {:induction false} PointsByCount(severities: seq<Severity>)
    ensures ReputationPoints(severities) ==
      CountOf(severities, Low) + 2 * CountOf(severities, Medium) + 4 * CountOf(severities, High) + 6 * CountOf(severities, Critical)
  {
    if severities == [] {
    } else {
      var before, last := severities[..|severities| - 1], severities[|severities| - 1];
      PointsByCount(before);
      assert severities == before + [last];
    }
  }

  /** The last ban among the actions stands at position `i`. */
  ghost predicate LastBan(actions: seq<MitigationAction>, i: nat) {
    && i < |actions| && actions[i].BlockSourceIpTemporary?
    && forall j :: i < j < |actions| ==> !actions[j].BlockSourceIpTemporary?
  }

  ghost predicate NoBan(actions: seq<MitigationAction>) {
    forall i :: 0 <= i < |actions| ==> !actions[i].BlockSourceIpTemporary?
  }

  lemma {:induction false} SomeLastBan(actions: seq<MitigationAction>)
    ensures NoBan(actions) || exists i :: LastBan(actions, i)
  {
    if actions == [] {
    } else if actions[|actions| - 1].BlockSourceIpTemporary? {
      assert LastBan(actions, |actions| - 1);
    } else {
      var before := actions[..|actions| - 1];
      SomeLastBan(before);
      if i: nat :| LastBan(before, i) {
        assert LastBan(actions, i);
      }
    }
  }

  /** What the bans leave: the block of the last one, in memory and in the table, and nothing else changed. */
  ghost predicate Banned(was: Blocks, now: Blocks, ip: string, actions: seq<MitigationAction>, summary: string, ids: nat -> string, clock: int) {
    && (NoBan(actions) ==> now == was)
    && forall i: nat :: LastBan(actions, i) ==>
         now == was[ip := Block(ids(i), actions[i].ttlSecs, clock, clock + actions[i].ttlSecs, summary)]
  }

  /** The blocks after the bans: those before them, with the last ban on top. */
  function AfterBans(m: Blocks, ip: string, actions: seq<MitigationAction>, summary: string, ids: nat -> string, clock: int): Blocks {
    if actions == [] then m
    else
      var n, a := |actions| - 1, actions[|actions| - 1];
      if a.BlockSourceIpTemporary? then m[ip := Block(ids(n), a.ttlSecs, clock, clock + a.ttlSecs, summary)]
      else AfterBans(m, ip, actions[..n], summary, ids, clock)
  }

  lemma {:induction false} LastBanWins(m: Blocks, ip: string, actions: seq<MitigationAction>, summary: string, ids: nat -> string, clock: int, b: Block)
    ensures AfterBans(m, ip, actions, summary, ids, clock)[ip := b] == m[ip := b]
  {
    if actions == [] {
    } else {
      LastBanWins(m, ip, actions[..|actions| - 1], summary, ids, clock, b);
    }
  }

  lemma {:induction false} AfterLastBan(m: Blocks, ip: string, actions: seq<MitigationAction>, summary: string, ids: nat -> string, clock: int, i: nat)
    requires LastBan(actions, i)
    ensures AfterBans(m, ip, actions, summary, ids, clock)
         == m[ip := Block(ids(i), actions[i].ttlSecs, clock, clock + actions[i].ttlSecs, summary)]
  {
    if i < |actions| - 1 {
      AfterLastBan(m, ip, actions[..|actions| - 1], summary, ids, clock, i);
    }
  }

  lemma {:induction false} AfterNoBan(m: Blocks, ip: string, actions: seq<MitigationAction>, summary: string, ids: nat -> string, clock: int)
    requires NoBan(actions)
    ensures AfterBans(m, ip, actions, summary, ids, clock) == m
  {
    if actions == [] {
    } else {
      AfterNoBan(m, ip, actions[..|actions| - 1], summary, ids, clock);
    }
  }

  lemma AfterBansBanned(m: Blocks, ip: string, actions: seq<MitigationAction>, summary: string, ids: nat -> string, clock: int)
    ensures Banned(m, AfterBans(m, ip, actions, summary, ids, clock), ip, actions, summary, ids, clock)
  {
    if NoBan(actions) {
      AfterNoBan(m, ip, actions, summary, ids, clock);
    }
    forall i: nat | LastBan(actions, i)
      ensures AfterBans(m, ip, actions, summary, ids, clock)
           == m[ip := Block(ids(i), actions[i].ttlSecs, clock, clock + actions[i].ttlSecs, summary)]
    {
      AfterLastBan(m, ip, actions, summary, ids, clock, i);
    }
  }

  lemma BansAppend(s: State, ip: string, actions: seq<MitigationAction>, a: MitigationAction, summary: string, ids: nat -> string)
    ensures RunFrom(s, Bans(ip, actions + [a], summary, ids)) ==
      var u := RunFrom(s, Bans(ip, actions, summary, ids));
      if a.BlockSourceIpTemporary? then Step(u, BlockIp(ip, a.ttlSecs, summary, ids(|actions|))) else u
  {
    assert (actions + [a])[..|actions|] == actions;
    if a.BlockSourceIpTemporary? {
      RunFromAppend(s, Bans(ip, actions, summary, ids), BlockIp(ip, a.ttlSecs, summary, ids(|actions|)));
    }
  }

  lemma {:induction false} BansLeave(s: State, ip: string, actions: seq<MitigationAction>, summary: string, ids: nat -> string)
    ensures RunFrom(s, Bans(ip, actions, summary, ids)) ==
      s.(blocks := AfterBans(s.blocks, ip, actions, summary, ids, s.now), rows := AfterBans(s.rows, ip, actions, summary, ids, s.now))
  {
    if actions == [] {
    } else {
      var before, last := actions[..|actions| - 1], actions[|actions| - 1];
      BansLeave(s, ip, before, summary, ids);
      LastAction(actions);
      BansAppend(s, ip, before, last, summary, ids);
      if last.BlockSourceIpTemporary? {
        var b := Block(ids(|before|), last.ttlSecs, s.now, s.now + last.ttlSecs, summary);
        LastBanWins(s.blocks, ip, before, summary, ids, s.now, b);
        LastBanWins(s.rows, ip, before, summary, ids, s.now, b);
      }
    }
  }

  lemma LastAction(actions: seq<MitigationAction>)
    requires actions != []
    ensures actions == actions[..|actions| - 1] + [actions[|actions| - 1]]
  {
  }

  lemma {:induction false} RunFromConcat(s: State, a: seq<Event>, b: seq<Event>)
    ensures RunFrom(s, a + b) == RunFrom(RunFrom(s, a), b)
  {
    if b == [] {
      assert a + b == a;
    } else {
      assert (a + b)[..|a + b| - 1] == a + b[..|b| - 1];
      RunFromConcat(s, a, b[..|b| - 1]);
    }
  }

  ghost function ScoreIn(m: Reputations, ip: string): int {
    if ip in m then m[ip].score else 0
  }

  /** What the score of a rejected request leaves: nothing changed without findings, else the points added. */
  ghost predicate Scored(was: Reputations, now: Reputations, ip: string, severities: seq<Severity>, clock: int) {
    && (severities == [] ==> now == was)
    && (severities != [] ==>
         now == was[ip := Reputation(
           ScoreIn(was, ip) + CountOf(severities, Low) + 2 * CountOf(severities, Medium)
             + 4 * CountOf(severities, High) + 6 * CountOf(severities, Critical), clock)])
  }

  lemma {:induction false} PointsPositive(severities: seq<Severity>)
    ensures ReputationPoints(severities) >= |severities|
  {
    if severities == [] {
    } else {
      PointsPositive(severities[..|severities| - 1]);
    }
  }

  lemma ScoreLeaves(s: State, ip: string, severities: seq<Severity>)
    ensures var t := RunFrom(s, ScoreEvents(ip, severities));
      && Scored(s.reputation, t.reputation, ip, severities, s.now)
      && t.reputationRows == (if severities == [] then s.reputationRows else s.reputationRows[ip := t.reputation[ip]])
      && t.blocks == s.blocks && t.rows == s.rows && t.now == s.now
  {
    PointsByCount(severities);
    PointsPositive(severities);
    var es := ScoreEvents(ip, severities);
    assert es != [] ==> es[..0] == [] && RunFrom(s, es) == Step(RunFrom(s, []), es[0]);
  }

  /** What a rejected request leaves: the block of its last ban on both sides, and its score on both sides. */
  ghost predicate Finalized(s: State, t: State, ip: string, severities: seq<Severity>, actions: seq<MitigationAction>,
                            summary: string, ids: nat -> string) {
    && Banned(s.blocks, t.blocks, ip, actions, summary, ids, s.now) && Banned(s.rows, t.rows, ip, actions, summary, ids, s.now)
    && Scored(s.reputation, t.reputation, ip, severities, s.now)
    && t.reputationRows == (if severities == [] then s.reputationRows else s.reputationRows[ip := t.reputation[ip]])
    && t.now == s.now
  }

  /** A rejected request bans its source exactly when an action says so, for the time of the last such action. */
  lemma FinalizeEffect(s: State, ip: string, severities: seq<Severity>, actions: seq<MitigationAction>, summary: string, ids: nat -> string)
    ensures Finalized(s, RunFrom(s, FinalizeEvents(ip, severities, actions, summary, ids)), ip, severities, actions, summary, ids)
  {
    ScoreLeaves(s, ip, severities);
    BansLeave(RunFrom(s, ScoreEvents(ip, severities)), ip, actions, summary, ids);
    AfterBansBanned(s.blocks, ip, actions, summary, ids, s.now);
    AfterBansBanned(s.rows, ip, actions, summary, ids, s.now);
    RunFromConcat(s, ScoreEvents(ip, severities), Bans(ip, actions, summary, ids));
  }

  /** A block answers lookups for exactly its time to live, and then no more. */
  lemma BlockLastsItsTime(start: int, es: seq<Event>, ip: string, ttl: nat, reason: string, id: string, elapsed: nat)
    ensures var s := Run(start, es + [BlockIp(ip, ttl, reason, id)] + [Tick(elapsed)]);
      ActiveBlock(s, ip) == if elapsed < ttl then Some(Block(id, ttl, Clock(start, es), Clock(start, es) + ttl, reason)) else None
  {
    var blocked := es + [BlockIp(ip, ttl, reason, id)];
    var all := blocked + [Tick(elapsed)];
    assert all[..|blocked|] == blocked && blocked[..|es|] == es;
    BlockFollowsHistory(start, all, ip);
  }

  lemma RunFromAppend(s: State, es: seq<Event>, e: Event)
    ensures RunFrom(s, es + [e]) == Step(RunFrom(s, es), e)
  {
    assert (es + [e])[..|es|] == es;
  }

  class MitigationStore {
    var blocks: Blocks
    var rows: Blocks
    var reputation: Reputations
    var reputationRows: Reputations

    function View(now: int): State
      reads this
    {
      State(blocks, rows, reputation, reputationRows, now)
    }

    constructor (start: int)
      ensures View(start) == Run(start, [])
    {
      blocks, rows, reputation, reputationRows := map[], map[], map[], map[];
    }

    method GetActiveBlock(ip: string, now: int) returns (active: Option<Block>)
      modifies this
      ensures active == ActiveBlock(old(View(now)), ip)
      ensures active == if ip in old(blocks) && now < old(blocks)[ip].expiresAt then Some(old(blocks)[ip]) else None
      ensures View(now) == Step(old(View(now)), Lookup(ip))
    {
      active := None;
      if ip in blocks {
        if blocks[ip].expiresAt <= now {
          blocks := blocks - {ip};
        } else {
          active := Some(blocks[ip]);
        }
      }
    }

    method BlockIpFor(ip: string, seconds: nat, reason: string, actionId: string, now: int) returns (b: Block)
      modifies this
      ensures View(now) == Step(old(View(now)), BlockIp(ip, seconds, reason, actionId))
      ensures b == Block(actionId, seconds, now, now + seconds, reason)
      ensures blocks == old(blocks)[ip := b] && rows == old(rows)[ip := b]
      ensures ActiveBlock(View(now), ip) == if seconds > 0 then Some(b) else None
    {
      b := Block(actionId, seconds, now, now + seconds, reason);
      blocks := blocks[ip := b];
      rows := rows[ip := b];
    }

    method UnblockIp(ip: string, now: int) returns (removed: bool)
      modifies this
      ensures View(now) == Step(old(View(now)), Unblock(ip))
      ensures blocks == old(blocks) - {ip} && rows == if removed then old(rows) - {ip} else old(rows)
      ensures removed == ReportsRemoval(old(View(now)), ip)
    {
      removed := ip in blocks;
      blocks := blocks - {ip};
      if removed {
        rows := rows - {ip};
      }
      assert !removed ==> blocks == old(blocks);
    }

    method ResetReputationOf(ip: string, now: int) returns (removed: bool)
      modifies this
      ensures View(now) == Step(old(View(now)), ResetReputation(ip))
      ensures reputation == old(reputation) - {ip}
      ensures removed == (ip in old(reputation))
    {
      removed := ip in reputation;
      reputation := reputation - {ip};
      if removed {
        reputationRows := reputationRows - {ip};
      }
      assert !removed ==> reputation == old(reputation);
    }

    method ClearSourceState(ip: string, now: int) returns (blockRemoved: bool, reputationRemoved: bool)
      modifies this
      ensures View(now) == Step(old(View(now)), ClearSource(ip))
      ensures blockRemoved == (ip in old(blocks)) && reputationRemoved == (ip in old(reputation))
    {
      blockRemoved := UnblockIp(ip, now);
      reputationRemoved := ResetReputationOf(ip, now);
    }

    /** The background sweep as one step: what leaves memory leaves the table. */
    method CleanupExpired(now: int) returns (expired: set<string>)
      modifies this
      ensures View(now) == Step(old(View(now)), Sweep)
      ensures expired == ExpiredKeys(old(blocks), now)
    {
      expired := set ip | ip in blocks && blocks[ip].expiresAt <= now;
      blocks := blocks - expired;
      var rest := expired;
      while rest != {}
        invariant rest <= expired && rows == old(rows) - (expired - rest)
        invariant blocks == old(blocks) - expired
        invariant reputation == old(reputation) && reputationRows == old(reputationRows)
      {
        var ip :| ip in rest;
        assert expired - (rest - {ip}) == (expired - rest) + {ip};
        rows, rest := rows - {ip}, rest - {ip};
      }
    }

    /** A new process loads the rows that have not expired, and every reputation. */
    method Hydrate(now: int)
      modifies this
      ensures View(now) == Step(old(View(now)), Restart)
    {
      blocks := map[];
      var rest := rows.Keys;
      while rest != {}
        invariant rest <= rows.Keys && rows == old(rows)
        invariant blocks == map ip | ip in rows && ip !in rest && !Expired(rows[ip], now) :: rows[ip]
        invariant reputation == old(reputation) && reputationRows == old(reputationRows)
      {
        var ip :| ip in rest;
        if rows[ip].expiresAt > now {
          blocks := blocks[ip := rows[ip]];
        }
        rest := rest - {ip};
      }
      reputation := reputationRows;
    }

    method AddSuspiciousScore(ip: string, delta: int, now: int)
      modifies this
      ensures View(now) == Step(old(View(now)), AddScore(ip, delta))
    {
      var score := delta;
      if ip in reputation {
        score := reputation[ip].score + delta;
      }
      reputation := reputation[ip := Reputation(score, now)];
      reputationRows := reputationRows[ip := Reputation(score, now)];
    }

    method FinalizeBlockingDecision(ip: string, severities: seq<Severity>, actions: seq<MitigationAction>,
                                    summary: string, ids: nat -> string, now: int)
      modifies this
      ensures View(now) == RunFrom(old(View(now)), FinalizeEvents(ip, severities, actions, summary, ids))
      ensures Finalized(old(View(now)), View(now), ip, severities, actions, summary, ids)
    {
      ghost var start := View(now);
      AddFindingScore(ip, severities, now);
      ApplyBans(ip, actions, summary, ids, now);
      RunFromConcat(start, ScoreEvents(ip, severities), Bans(ip, actions, summary, ids));
      FinalizeEffect(start, ip, severities, actions, summary, ids);
    }

    method AddFindingScore(ip: string, severities: seq<Severity>, now: int)
      modifies this
      ensures View(now) == RunFrom(old(View(now)), ScoreEvents(ip, severities))
    {
      var delta := CalculateReputationDelta(severities);
      if delta > 0 {
        ghost var start := View(now);
        AddSuspiciousScore(ip, delta, now);
        RunFromAppend(start, [], AddScore(ip, delta));
        assert [] + [AddScore(ip, delta)] == [AddScore(ip, delta)];
      }
    }

    method ApplyBans(ip: string, actions: seq<MitigationAction>, summary: string, ids: nat -> string, now: int)
      modifies this
      ensures View(now) == RunFrom(old(View(now)), Bans(ip, actions, summary, ids))
    {
      ghost var start := View(now);
      assert actions[..0] == [];
      for i := 0 to |actions|
        invariant View(now) == RunFrom(start, Bans(ip, actions[..i], summary, ids))
      {
        BansAppend(start, ip, actions[..i], actions[i], summary, ids);
        assert actions[..i + 1] == actions[..i] + [actions[i]];
        if actions[i].BlockSourceIpTemporary? {
          var b := BlockIpFor(ip, actions[i].ttlSecs, summary, ids(i), now);
        }
      }
      assert actions[..|actions|] == actions;
    }
  }

  method CalculateReputationDelta(severities: seq<Severity>) returns (score: int)
    ensures score == ReputationPoints(severities) ==
      CountOf(severities, Low) + 2 * CountOf(severities, Medium) + 4 * CountOf(severities, High) + 6 * CountOf(severities, Critical)
    ensures severities != [] ==> score > 0
  {
    score := 0;
    for i := 0 to |severities|
      invariant score == ReputationPoints(severities[..i]) && score >= i
    {
      assert severities[..i + 1][..i] == severities[..i];
      score := score + match severities[i] case Low => 1 case Medium => 2 case High => 4 case Critical => 6;
    }
    assert severities[..|severities|] == severities;
    PointsByCount(severities);
  }
}
