/**
 How far concurrent additions can take each counter of the peer manager, exactly: for any limits and
 any number T of additions at once, a bound that no run passes and a run that reaches it; and from
 that, for which limits and which T a limit is kept in every run.
 */
module PeerManagerOvershoot {
  import opened Common
  import opened Peers
  import opened PeerManagerSteps

  // ---------------------------------------------------------------------------------------
  // Counting.

  /** Elements that qualify stand between `lo` and `hi` only. */
  lemma {:induction false} CountBetween<T>(s: seq<T>, p: T -> bool, lo: nat, hi: nat)
    requires lo <= hi <= |s|
    requires forall i :: 0 <= i < |s| && p(s[i]) ==> lo <= i < hi
    ensures Count(s, p) <= hi - lo
    decreases |s|
  {
    if hi < |s| {
      CountBetween(s[..|s| - 1], p, lo, hi);
    } else if lo < hi {
      CountBetween(s[..|s| - 1], p, lo, hi - 1);
    } else {
      CountZero(s, p);
    }
  }

  /** Elements that qualify stand in front of `k` only. */
  lemma {:induction false} CountFront<T>(s: seq<T>, p: T -> bool, k: nat)
    requires k <= |s| && forall i :: k <= i < |s| ==> !p(s[i])
    ensures Count(s, p) == Count(s[..k], p)
    decreases |s|
  {
    if k < |s| {
      assert s[..|s| - 1][..k] == s[..k];
      CountFront(s[..|s| - 1], p, k);
    } else {
      assert s[..k] == s;
    }
  }

  lemma {:induction false} CountAlike<S, T>(s: seq<S>, p: S -> bool, r: seq<T>, q: T -> bool)
    requires |s| == |r| && forall i :: 0 <= i < |s| ==> p(s[i]) == q(r[i])
    ensures Count(s, p) == Count(r, q)
  {
    if s != [] {
      CountAlike(s[..|s| - 1], p, r[..|r| - 1], q);
    }
  }

  ghost function Repeat<T>(x: T, k: nat): (r: seq<T>)
    ensures |r| == k && forall i :: 0 <= i < k ==> r[i] == x
  {
    seq(k, _ => x)
  }

  lemma {:induction false} CountRepeat<T>(s: seq<T>, x: T, k: nat, p: T -> bool)
    ensures Count(s + Repeat(x, k), p) == Count(s, p) + if p(x) then k else 0
  {
    if k == 0 {
      assert s + Repeat(x, 0) == s;
    } else {
      assert s + Repeat(x, k) == s + Repeat(x, k - 1) + [x];
      CountRepeat(s, x, k - 1, p);
      CountAppend(s + Repeat(x, k - 1), x, p);
    }
  }

  // ---------------------------------------------------------------------------------------
  // Connections by how many steps they have taken.

  /** Peers that collide in nothing: only the limits can refuse them. */
  ghost predicate Welcome(peers: seq<Peer>) {
    && (forall c :: 0 <= c < |peers| ==> peers[c].addr == "")
    && (forall b, c :: 0 <= b < c < |peers| ==> peers[b].id != peers[c].id)
  }

  /** The program counter after `k` successful steps: five of AddPeer, then two of RemovePeer. */
  function Row(k: nat, c: nat): Pc {
    if k == 0 then Fresh
    else if k == 1 then CheckDirection
    else if k == 2 then StoreId
    else if k == 3 then CountTotal
    else if k == 4 then CountDirection
    else if k == 5 then Live
    else if k == 6 then DecTotal(c)
    else DecDirection(c)
  }

  predicate Midway(k: nat) { 1 <= k <= 4 }

  predicate InTheTotal(k: nat) { 4 <= k <= 6 }

  ghost predicate AtRows(s: State, peers: seq<Peer>, rows: seq<nat>) {
    && |s.conns| == |peers| == |rows|
    && forall c :: 0 <= c < |rows| ==> rows[c] <= 7 && s.conns[c] == Conn(peers[c], Row(rows[c], c))
  }

  ghost function Is(d: Direction): Direction -> bool {
    (x: Direction) => x == d
  }

  /** The total and the additions in flight, by rows. */
  lemma TotalByRows(s: State, peers: seq<Peer>, rows: seq<nat>)
    requires Inv(s) && AtRows(s, peers, rows)
    ensures s.total == Count(rows, InTheTotal) && Count(s.conns, Adding) == Count(rows, Midway)
  {
    hide Count, IdsOwned, AddrsOwned;
    CountAlike(s.conns, InTotal, rows, InTheTotal);
    CountAlike(s.conns, Adding, rows, Midway);
  }

  lemma AcceptedByRows(s: State, peers: seq<Peer>, rows: seq<nat>)
    requires AtRows(s, peers, rows)
    ensures |s.conns| == |peers| == |rows|
    ensures forall c :: 0 <= c < |rows| ==> s.conns[c].peer == peers[c] && (InDirection(s.conns[c]) <==> rows[c] >= 5)
  {
  }

  /** When those in front of `k` have been accepted and nobody else, a direction's counter is their number. */
  lemma FacingByRows(s: State, peers: seq<Peer>, rows: seq<nat>, dirs: seq<Direction>, d: Direction)
    requires Inv(s) && AtRows(s, peers, rows) && |dirs| <= |rows|
    requires forall c :: 0 <= c < |rows| ==> (rows[c] >= 5 <==> c < |dirs|)
    requires forall c :: 0 <= c < |dirs| ==> peers[c].direction == dirs[c]
    ensures s.Facing(d) == Count(dirs, Is(d))
  {
    hide Count, IdsOwned, AddrsOwned;
    AcceptedByRows(s, peers, rows);
    hide AtRows, Row, InDirection;
    var k := |dirs|;
    if d == Inbound {
      CountFront(s.conns, InInbound, k);
      CountAlike(s.conns[..k], InInbound, dirs, Is(d));
    } else {
      CountFront(s.conns, InOutbound, k);
      CountAlike(s.conns[..k], InOutbound, dirs, Is(d));
    }
  }

  /** A connection that the limits let pass takes its next step. */
  lemma Advance(config: ManagerConfig, s: State, peers: seq<Peer>, rows: seq<nat>, c: nat)
    requires Inv(s) && AtRows(s, peers, rows) && Welcome(peers) && c < |rows| && rows[c] < 7
    requires rows[c] == 0 ==> s.total < config.maxPeers
    requires rows[c] == 1 ==> s.Facing(peers[c].direction) < config.LimitFor(peers[c].direction)
    ensures AtRows(Step(config, s, c), peers, rows[c := rows[c] + 1])
  {
    hide Count;
    assert IdOwned(s.peers, c, s.conns[c]);
  }

  /** A schedule that leads to these rows with at most `adders` additions in flight at any time. */
  ghost predicate Leads(config: ManagerConfig, peers: seq<Peer>, turns: seq<nat>, rows: seq<nat>, adders: nat) {
    && Scheduled(peers, turns) && AtRows(After(config, peers, turns), peers, rows)
    && AtMostAdding(config, peers, turns, adders)
  }

  lemma NothingYet(config: ManagerConfig, peers: seq<Peer>, adders: nat)
    ensures Leads(config, peers, [], seq(|peers|, _ => 0), adders)
  {
    CountZero(Init(peers).conns, Adding);
  }

  lemma OneTurnMore(config: ManagerConfig, peers: seq<Peer>, turns: seq<nat>, rows: seq<nat>, adders: nat, c: nat)
    requires Leads(config, peers, turns, rows, adders) && Welcome(peers) && c < |rows| && rows[c] < 7
    requires rows[c] == 0 ==> Count(rows, InTheTotal) < config.maxPeers
    requires |rows| == |peers|
    requires rows[c] == 1 ==>
               After(config, peers, turns).Facing(peers[c].direction) < config.LimitFor(peers[c].direction)
    requires Count(rows[c := rows[c] + 1], Midway) <= adders
    ensures Leads(config, peers, turns + [c], rows[c := rows[c] + 1], adders)
  {
    hide Count, Inv, AtRows, Step, AtMostAdding, Welcome;
    var turns', s := turns + [c], After(config, peers, turns);
    assert turns'[..|turns|] == turns;
    SameLength(s, peers, rows);
    ReachableInv(config, peers, turns);
    TotalByRows(s, peers, rows);
    Advance(config, s, peers, rows, c);
    assert After(config, peers, turns') == Step(config, s, c);
    ReachableInv(config, peers, turns');
    TotalByRows(Step(config, s, c), peers, rows[c := rows[c] + 1]);
    StillFew(config, peers, turns, c, adders);
  }

  lemma StillFew(config: ManagerConfig, peers: seq<Peer>, turns: seq<nat>, c: nat, adders: nat)
    requires Scheduled(peers, turns + [c]) && Scheduled(peers, turns) && AtMostAdding(config, peers, turns, adders)
    requires Count(After(config, peers, turns + [c]).conns, Adding) <= adders
    ensures AtMostAdding(config, peers, turns + [c], adders)
  {
    hide Count, After;
    var turns' := turns + [c];
    forall k | 0 <= k <= |turns'| ensures Count(After(config, peers, turns'[..k]).conns, Adding) <= adders {
      assert turns'[..k] == if k <= |turns| then turns[..k] else turns';
    }
  }

  lemma SameLength(s: State, peers: seq<Peer>, rows: seq<nat>)
    requires AtRows(s, peers, rows)
    ensures |s.conns| == |peers| == |rows|
  {
  }

  // ---------------------------------------------------------------------------------------
  // Peers that come in groups: the members of a group go through AddPeer side by side.

  /** A leaving group goes on into RemovePeer, up to where it is out of the total only. */
  datatype Group = Group(size: nat, direction: Direction, leaving: bool)

  ghost function Directions(plan: seq<Group>): seq<Direction> {
    if plan == [] then []
    else
      var last := plan[|plan| - 1];
      Directions(plan[..|plan| - 1]) + Repeat(last.direction, last.size)
  }

  function Place(g: Group): nat {
    if g.leaving then 7 else 5
  }

  /** The rows the groups end in. */
  ghost function Places(plan: seq<Group>): (rows: seq<nat>)
    ensures |rows| == |Directions(plan)| && forall c :: 0 <= c < |rows| ==> rows[c] == 5 || rows[c] == 7
  {
    if plan == [] then []
    else
      var last := plan[|plan| - 1];
      Places(plan[..|plan| - 1]) + Repeat(Place(last), last.size)
  }

  /** How many stay in the total, and how many are in the counter of a direction. */
  ghost function Staying(plan: seq<Group>): nat {
    Count(Places(plan), InTheTotal)
  }

  ghost function Arrivals(plan: seq<Group>, d: Direction): nat {
    Count(Directions(plan), Is(d))
  }

  /** No group is larger than `adders`, and when one comes there is room for at least one. */
  ghost predicate Admitted(config: ManagerConfig, plan: seq<Group>, adders: nat) {
    plan == [] ||
      var front, last := plan[..|plan| - 1], plan[|plan| - 1];
      && Admitted(config, front, adders) && last.size <= adders
      && Staying(front) < config.maxPeers && Arrivals(front, last.direction) < config.LimitFor(last.direction)
  }

  /** The first peers are those of the plan. */
  ghost predicate Starts(peers: seq<Peer>, plan: seq<Group>) {
    && |Directions(plan)| <= |peers|
    && forall c :: 0 <= c < |Directions(plan)| ==> peers[c].direction == Directions(plan)[c]
  }

  /** Behind those who are done, `k` peers of whom `j` are at row `r + 1` and the others at row `r`. */
  ghost function Phase(done: seq<nat>, n: nat, k: nat, j: nat, r: nat): (rows: seq<nat>)
    ensures |rows| == n
  {
    seq(n, c requires 0 <= c < n =>
      if c < |done| then done[c] else if c < |done| + j then r + 1 else if c < |done| + k then r else 0)
  }

  /** What a group finds when it comes. */
  lemma PlanGrows(config: ManagerConfig, peers: seq<Peer>, plan: seq<Group>, g: Group, adders: nat)
    requires Starts(peers, plan + [g]) && Admitted(config, plan + [g], adders)
    ensures Admitted(config, plan, adders) && g.size <= adders && Starts(peers, plan)
    ensures Staying(plan) < config.maxPeers && Arrivals(plan, g.direction) < config.LimitFor(g.direction)
    ensures Directions(plan + [g]) == Directions(plan) + Repeat(g.direction, g.size)
    ensures Places(plan + [g]) == Places(plan) + Repeat(Place(g), g.size)
    ensures |Places(plan)| + g.size <= |peers|
    ensures forall c :: |Places(plan)| <= c < |Places(plan)| + g.size ==> peers[c].direction == g.direction
  {
    hide Count;
    assert (plan + [g])[..|plan|] == plan;
    assert forall c :: 0 <= c < |Directions(plan)| ==> Directions(plan + [g])[c] == Directions(plan)[c];
  }

  /** While nobody of the next group is accepted, a direction has those of the plan. */
  lemma NoMoreFacing(config: ManagerConfig, peers: seq<Peer>, plan: seq<Group>, turns: seq<nat>, rows: seq<nat>, adders: nat, d: Direction)
    requires Leads(config, peers, turns, rows, adders) && Starts(peers, plan) && |rows| == |peers|
    requires forall c :: 0 <= c < |rows| ==> (rows[c] >= 5 <==> c < |Places(plan)|)
    ensures Scheduled(peers, turns) && After(config, peers, turns).Facing(d) == Arrivals(plan, d)
  {
    hide Count, After, Inv;
    ReachableInv(config, peers, turns);
    FacingByRows(After(config, peers, turns), peers, rows, Directions(plan), d);
  }

  /** One peer of the group takes its step into the next row. */
  lemma OneOfGroup(config: ManagerConfig, peers: seq<Peer>, plan: seq<Group>, g: Group, turns: seq<nat>, adders: nat, j: nat, r: nat)
    requires Welcome(peers) && Starts(peers, plan + [g]) && Admitted(config, plan + [g], adders)
    requires Leads(config, peers, turns, Phase(Places(plan), |peers|, g.size, j, r), adders) && j < g.size && r <= 6
    ensures Leads(config, peers, turns + [|Places(plan)| + j], Phase(Places(plan), |peers|, g.size, j + 1, r), adders)
  {
    hide Count, Leads, Admitted, Starts, Welcome, Arrivals, Staying;
    PlanGrows(config, peers, plan, g, adders);
    StayingIs(plan);
    hide Places, Directions;
    var done, n, k := Places(plan), |peers|, g.size;
    var rows, rows', c := Phase(done, n, k, j, r), Phase(done, n, k, j + 1, r), |done| + j;
    assert rows[c := rows[c] + 1] == rows';
    CountBetween(rows', Midway, |done|, |done| + k);
    if r == 0 {
      CountFront(rows, InTheTotal, |done|);
      assert rows[..|done|] == done;
    } else if r == 1 {
      NoMoreFacing(config, peers, plan, turns, rows, adders, g.direction);
    }
    OneTurnMore(config, peers, turns, rows, adders, c);
  }

  lemma StayingIs(plan: seq<Group>)
    ensures Staying(plan) == Count(Places(plan), InTheTotal)
    ensures forall c :: 0 <= c < |Places(plan)| ==> Places(plan)[c] == 5 || Places(plan)[c] == 7
  {
  }

  /** One group goes through, row by row. */
  lemma {:induction false} RunGroup(config: ManagerConfig, peers: seq<Peer>, plan: seq<Group>, g: Group, before: seq<nat>,
                                    adders: nat, j: nat, r: nat)
    returns (turns: seq<nat>)
    requires Welcome(peers) && Starts(peers, plan + [g]) && Admitted(config, plan + [g], adders)
    requires Leads(config, peers, before, Phase(Places(plan), |peers|, g.size, 0, 0), adders)
    requires j <= g.size && r <= 6
    ensures Leads(config, peers, turns, Phase(Places(plan), |peers|, g.size, j, r), adders)
    decreases r, j
  {
    hide Leads, Admitted, Starts, Welcome, Places;
    if j > 0 {
      turns := RunGroup(config, peers, plan, g, before, adders, j - 1, r);
      OneOfGroup(config, peers, plan, g, turns, adders, j - 1, r);
      turns := turns + [|Places(plan)| + j - 1];
    } else if r > 0 {
      turns := RunGroup(config, peers, plan, g, before, adders, g.size, r - 1);
      assert Phase(Places(plan), |peers|, g.size, g.size, r - 1) == Phase(Places(plan), |peers|, g.size, 0, r);
    } else {
      turns := before;
    }
  }

  lemma {:induction false} RunPlan(config: ManagerConfig, peers: seq<Peer>, plan: seq<Group>, adders: nat)
    returns (turns: seq<nat>)
    requires Welcome(peers) && Starts(peers, plan) && Admitted(config, plan, adders)
    ensures Leads(config, peers, turns, Phase(Places(plan), |peers|, 0, 0, 0), adders)
  {
    hide Leads, Welcome, Count;
    var n := |peers|;
    if plan == [] {
      turns := [];
      NothingYet(config, peers, adders);
      assert Phase([], n, 0, 0, 0) == seq(n, _ => 0);
    } else {
      var front, g := plan[..|plan| - 1], plan[|plan| - 1];
      assert plan == front + [g];
      PlanGrows(config, peers, front, g, adders);
      var before := RunPlan(config, peers, front, adders);
      assert Phase(Places(front), n, 0, 0, 0) == Phase(Places(front), n, g.size, 0, 0);
      var r := if g.leaving then 6 else 4;
      turns := RunGroup(config, peers, front, g, before, adders, g.size, r);
      assert Phase(Places(front), n, g.size, g.size, r) == Phase(Places(plan), n, 0, 0, 0);
    }
  }

  /** A run with at most `adders` additions in flight at any time. */
  ghost predicate Run(config: ManagerConfig, peers: seq<Peer>, turns: seq<nat>, adders: nat) {
    Scheduled(peers, turns) && AtMostAdding(config, peers, turns, adders)
  }

  /** Everyone was accepted, and those of leaving groups are out of the total only. */
  ghost predicate AllGotIn(config: ManagerConfig, peers: seq<Peer>, turns: seq<nat>, plan: seq<Group>)
    requires Scheduled(peers, turns)
  {
    var s := After(config, peers, turns);
    && AtRows(s, peers, Places(plan))
    && s.total == Staying(plan) && forall d :: s.Facing(d) == Arrivals(plan, d)
  }

  /** Peers that collide in nothing and come in groups that find room all get in, the whole of each group. */
  lemma GroupsGetIn(config: ManagerConfig, peers: seq<Peer>, plan: seq<Group>, adders: nat)
    requires Welcome(peers) && Starts(peers, plan) && |peers| == |Directions(plan)| && Admitted(config, plan, adders)
    ensures exists turns :: Run(config, peers, turns, adders) && AllGotIn(config, peers, turns, plan)
  {
    hide Count, Admitted, Welcome, AtMostAdding, Inv;
    var turns := RunPlan(config, peers, plan, adders);
    assert Phase(Places(plan), |peers|, 0, 0, 0) == Places(plan);
    ReachableInv(config, peers, turns);
    TotalByRows(After(config, peers, turns), peers, Places(plan));
    forall d ensures After(config, peers, turns).Facing(d) == Arrivals(plan, d) {
      NoMoreFacing(config, peers, plan, turns, Places(plan), adders, d);
    }
    assert AllGotIn(config, peers, turns, plan);
  }

  // ---------------------------------------------------------------------------------------
  // Plans.

  ghost function Newcomers(plan: seq<Group>): (peers: seq<Peer>)
    ensures |peers| == |Directions(plan)| && Welcome(peers) && Starts(peers, plan)
  {
    var dirs := Directions(plan);
    seq(|dirs|, c requires 0 <= c < |dirs| => Peer(c, c, "", dirs[c]))
  }

  /** The plan is admitted, with these numbers in the total and in each direction. */
  ghost predicate Holds(config: ManagerConfig, plan: seq<Group>, adders: nat, total: int, inbound: int, outbound: int) {
    && Admitted(config, plan, adders) && Staying(plan) == total
    && Arrivals(plan, Inbound) == inbound && Arrivals(plan, Outbound) == outbound
  }

  ghost function Plus(d: Direction, e: Direction, n: nat): nat {
    if d == e then n else 0
  }

  lemma AddGroup(config: ManagerConfig, plan: seq<Group>, g: Group, adders: nat, total: int, inbound: int, outbound: int)
    requires Holds(config, plan, adders, total, inbound, outbound) && g.size <= adders
    requires total < config.maxPeers && (if g.direction == Inbound then inbound else outbound) < config.LimitFor(g.direction)
    ensures Holds(config, plan + [g], adders, total + if g.leaving then 0 else g.size,
                  inbound + Plus(g.direction, Inbound, g.size), outbound + Plus(g.direction, Outbound, g.size))
  {
    hide Count;
    assert (plan + [g])[..|plan|] == plan;
    CountRepeat(Places(plan), Place(g), g.size, InTheTotal);
    CountRepeat(Directions(plan), g.direction, g.size, Is(Inbound));
    CountRepeat(Directions(plan), g.direction, g.size, Is(Outbound));
  }

  /** Peers that come one by one. */
  lemma {:induction false} AddSingles(config: ManagerConfig, plan: seq<Group>, n: nat, d: Direction, leaving: bool, adders: nat,
                                      total: int, inbound: int, outbound: int)
    returns (more: seq<Group>)
    requires Holds(config, plan, adders, total, inbound, outbound) && adders > 0
    requires n > 0 ==> total + (if leaving then 1 else n) <= config.maxPeers
    requires n > 0 ==> (if d == Inbound then inbound else outbound) + n <= config.LimitFor(d)
    ensures Holds(config, more, adders, total + if leaving then 0 else n,
                  inbound + Plus(d, Inbound, n), outbound + Plus(d, Outbound, n))
  {
    hide Holds;
    if n == 0 {
      more := plan;
    } else {
      more := AddSingles(config, plan, n - 1, d, leaving, adders, total, inbound, outbound);
      AddGroup(config, more, Group(1, d, leaving), adders, total + if leaving then 0 else n - 1,
               inbound + Plus(d, Inbound, n - 1), outbound + Plus(d, Outbound, n - 1));
      more := more + [Group(1, d, leaving)];
    }
  }

  lemma EmptyHolds(config: ManagerConfig, adders: nat)
    ensures Holds(config, [], adders, 0, 0, 0)
  {
  }

  // ---------------------------------------------------------------------------------------
  // The largest total.

  function Min(a: int, b: int): int {
    if a <= b then a else b
  }

  function MostInTotal(config: ManagerConfig, adders: nat): int {
    Min(Cap(config.maxPeers, adders), Cap(config.maxInboundPeers, adders) + Cap(config.maxOutboundPeers, adders))
  }

  /** One direction up to one below its limit or the total's, then a group of it. */
  lemma PlanOneSide(config: ManagerConfig, d: Direction, adders: nat) returns (plan: seq<Group>)
    requires adders > 0 && config.maxPeers > 0 && config.LimitFor(d) > 0
    ensures var n := Min(config.maxPeers, config.LimitFor(d)) - 1 + adders;
            Holds(config, plan, adders, n, Plus(d, Inbound, n), Plus(d, Outbound, n))
  {
    hide Holds;
    var n := Min(config.maxPeers, config.LimitFor(d)) - 1;
    EmptyHolds(config, adders);
    plan := AddSingles(config, [], n, d, false, adders, 0, 0, 0);
    AddGroup(config, plan, Group(adders, d, false), adders, n, Plus(d, Inbound, n), Plus(d, Outbound, n));
    plan := plan + [Group(adders, d, false)];
  }

  /** Both directions are needed to fill the manager up to one below its limit; then a group comes. */
  lemma PlanFilled(config: ManagerConfig, adders: nat) returns (plan: seq<Group>)
    requires adders > 0 && 0 < config.maxInboundPeers < config.maxPeers && 0 < config.maxOutboundPeers
    requires config.maxPeers <= config.maxInboundPeers + config.maxOutboundPeers
    ensures var rest := config.maxPeers - 1 - config.maxInboundPeers;
            Holds(config, plan, adders, config.maxPeers - 1 + adders, config.maxInboundPeers, rest + adders)
  {
    hide Holds;
    var i := config.maxInboundPeers;
    var o := config.maxPeers - 1 - i;
    EmptyHolds(config, adders);
    plan := AddSingles(config, [], i, Inbound, false, adders, 0, 0, 0);
    plan := AddSingles(config, plan, o, Outbound, false, adders, i, i, 0);
    AddGroup(config, plan, Group(adders, Outbound, false), adders, i + o, i, o);
    plan := plan + [Group(adders, Outbound, false)];
  }

  /** Both directions together do not fill the manager: each gets a group, the first one no larger than fits. */
  lemma PlanTwoGroups(config: ManagerConfig, adders: nat) returns (plan: seq<Group>)
    requires adders > 0 && 0 < config.maxInboundPeers && 0 < config.maxOutboundPeers
    requires config.maxInboundPeers + config.maxOutboundPeers < config.maxPeers
    ensures var i, o := config.maxInboundPeers, config.maxOutboundPeers;
            var k := Min(adders, config.maxPeers - i - o + 1);
            Holds(config, plan, adders, i + o - 2 + k + adders, i - 1 + k, o - 1 + adders)
  {
    hide Holds;
    var i, o := config.maxInboundPeers, config.maxOutboundPeers;
    var k := Min(adders, config.maxPeers - i - o + 1);
    EmptyHolds(config, adders);
    plan := AddSingles(config, [], i - 1, Inbound, false, adders, 0, 0, 0);
    AddGroup(config, plan, Group(k, Inbound, false), adders, i - 1, i - 1, 0);
    plan := plan + [Group(k, Inbound, false)];
    plan := AddSingles(config, plan, o - 1, Outbound, false, adders, i - 1 + k, i - 1 + k, 0);
    AddGroup(config, plan, Group(adders, Outbound, false), adders, i + o - 2 + k, i - 1 + k, o - 1);
    plan := plan + [Group(adders, Outbound, false)];
  }

  lemma PlanForTotal(config: ManagerConfig, adders: nat) returns (plan: seq<Group>)
    requires adders > 0
    ensures Admitted(config, plan, adders) && Staying(plan) == MostInTotal(config, adders)
  {
    var m, i, o := config.maxPeers, config.maxInboundPeers, config.maxOutboundPeers;
    if m <= 0 || (i <= 0 && o <= 0) {
      EmptyHolds(config, adders);
      plan := [];
    } else if o <= 0 || (i > 0 && m <= i) {
      plan := PlanOneSide(config, Inbound, adders);
    } else if i <= 0 {
      plan := PlanOneSide(config, Outbound, adders);
    } else if m <= i + o {
      plan := PlanFilled(config, adders);
    } else {
      plan := PlanTwoGroups(config, adders);
    }
  }

  /** For any limits and any number of additions at once: no run passes this total, and one reaches it. */
  lemma LargestTotal(config: ManagerConfig, adders: nat)
    requires adders > 0
    ensures forall peers, turns :: Run(config, peers, turns, adders) ==>
              After(config, peers, turns).total <= MostInTotal(config, adders)
    ensures exists peers, turns :: Run(config, peers, turns, adders)
              && After(config, peers, turns).total == MostInTotal(config, adders)
  {
    hide Cap, Admitted, AtMostAdding;
    forall peers, turns | Run(config, peers, turns, adders)
      ensures After(config, peers, turns).total <= MostInTotal(config, adders)
    {
      OvershootBounded(config, peers, turns, adders);
      TotalBoundedBySides(config, peers, turns, adders);
    }
    var plan := PlanForTotal(config, adders);
    GroupsGetIn(config, Newcomers(plan), plan, adders);
  }

  /** No run with at most `adders` additions in flight takes the total beyond its limit. */
  ghost predicate TotalKept(config: ManagerConfig, adders: nat) {
    forall peers, turns :: Run(config, peers, turns, adders) ==> After(config, peers, turns).total <= config.maxPeers
  }

  /**
   The total limit is kept in every run if and only if it is zero, or additions come one at a time, or
   both directions together, each with what it can overshoot, stay within it.
   */
  lemma TotalKeptIff(config: ManagerConfig, adders: nat)
    requires adders > 0
    ensures TotalKept(config, adders) <==>
              && config.maxPeers >= 0
              && (|| config.maxPeers == 0 || adders == 1
                  || Cap(config.maxInboundPeers, adders) + Cap(config.maxOutboundPeers, adders) <= config.maxPeers)
  {
    LargestTotal(config, adders);
    var peers, turns :| Run(config, peers, turns, adders)
                        && After(config, peers, turns).total == MostInTotal(config, adders);
    assert After(config, peers, turns).total <= config.maxPeers <==> MostInTotal(config, adders) <= config.maxPeers;
  }

  // ---------------------------------------------------------------------------------------
  // The largest number in one direction.

  function MostFacing(config: ManagerConfig, d: Direction, adders: nat): int {
    if config.maxPeers <= 0 then 0 else Cap(config.LimitFor(d), adders)
  }

  /**
   Peers up to one below the direction's limit come and go one by one, held up where they are out of
   the total but not out of the direction's counter; then a group comes.
   */
  lemma PlanForDirection(config: ManagerConfig, d: Direction, adders: nat) returns (plan: seq<Group>)
    requires adders > 0
    ensures Admitted(config, plan, adders) && Arrivals(plan, d) == MostFacing(config, d, adders)
  {
    EmptyHolds(config, adders);
    plan := [];
    if config.maxPeers > 0 && config.LimitFor(d) > 0 {
      var n := config.LimitFor(d) - 1;
      plan := AddSingles(config, [], n, d, true, adders, 0, 0, 0);
      AddGroup(config, plan, Group(adders, d, false), adders, 0, Plus(d, Inbound, n), Plus(d, Outbound, n));
      plan := plan + [Group(adders, d, false)];
    }
  }

  lemma NobodyFacing(config: ManagerConfig, peers: seq<Peer>, turns: seq<nat>, d: Direction)
    requires Scheduled(peers, turns) && config.maxPeers <= 0
    ensures After(config, peers, turns).Facing(d) == 0
  {
    hide After;
    var s := After(config, peers, turns);
    NobodyPasses(config, peers, turns);
    ReachableInv(config, peers, turns);
    CountZero(s.conns, InInbound);
    CountZero(s.conns, InOutbound);
  }

  lemma LargestFacing(config: ManagerConfig, d: Direction, adders: nat)
    requires adders > 0
    ensures forall peers, turns :: Run(config, peers, turns, adders) ==>
              After(config, peers, turns).Facing(d) <= MostFacing(config, d, adders)
    ensures exists peers, turns :: Run(config, peers, turns, adders)
              && After(config, peers, turns).Facing(d) == MostFacing(config, d, adders)
  {
    hide Cap, Admitted, AtMostAdding;
    forall peers, turns | Run(config, peers, turns, adders)
      ensures After(config, peers, turns).Facing(d) <= MostFacing(config, d, adders)
    {
      OvershootBounded(config, peers, turns, adders);
      if config.maxPeers <= 0 {
        NobodyFacing(config, peers, turns, d);
      }
    }
    var plan := PlanForDirection(config, d, adders);
    GroupsGetIn(config, Newcomers(plan), plan, adders);
  }

  ghost predicate DirectionKept(config: ManagerConfig, d: Direction, adders: nat) {
    forall peers, turns :: Run(config, peers, turns, adders) ==> After(config, peers, turns).Facing(d) <= config.LimitFor(d)
  }

  /** The limit of a direction is kept in every run if and only if nobody gets in at all or additions come one at a time. */
  lemma DirectionKeptIff(config: ManagerConfig, d: Direction, adders: nat)
    requires adders > 0
    ensures DirectionKept(config, d, adders) <==>
              config.LimitFor(d) >= 0 && (config.maxPeers <= 0 || config.LimitFor(d) == 0 || adders == 1)
  {
    LargestFacing(config, d, adders);
    var peers, turns :| Run(config, peers, turns, adders)
                        && After(config, peers, turns).Facing(d) == MostFacing(config, d, adders);
    assert After(config, peers, turns).Facing(d) <= config.LimitFor(d) <==> MostFacing(config, d, adders) <= config.LimitFor(d);
  }
}
