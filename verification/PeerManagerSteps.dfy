/**
 AddPeer and RemovePeer of pkg/peer/manager.go run by any number of connections at once.  Each
 `sync.Map` call and each atomic counter access is one step.  A connection follows the discipline
 of startPeer and readLoop in pkg/node/node.go: it adds its peer, and only if that succeeded does
 it later remove it, once, by the peer's identity.
 */
module PeerManagerSteps {
  import opened Common
  import opened Peers

  datatype Pc =
    | Fresh            // AddPeer not called yet; its first step loads totalCount
    | CheckDirection   // loads the counter of the peer's direction
    | StoreId          // LoadOrStore in the identity map
    | StoreAddr        // LoadOrStore in the address map
    | Rollback         // the address was taken: delete the identity again
    | CountTotal       // totalCount + 1
    | CountDirection   // direction counter + 1
    | Live             // AddPeer returned nil; the next step is RemovePeer's LoadAndDelete
    | DeleteAddr(found: nat)  // `found` is the connection whose peer LoadAndDelete returned
    | DecTotal(found: nat)
    | DecDirection(found: nat)
    | Refused          // AddPeer returned an error
    | Gone             // RemovePeer returned

  datatype Conn = Conn(peer: Peer, pc: Pc)

  /** The maps hold pointers to peers, so here they hold indices of connections. */
  datatype State = State(peers: map<Id, nat>, byAddr: map<string, nat>,
                         total: int, inbound: int, outbound: int, conns: seq<Conn>)
  {
    function Facing(d: Direction): int {
      if d == Inbound then inbound else outbound
    }

    function Adjust(d: Direction, delta: int): State {
      if d == Inbound then this.(inbound := inbound + delta) else this.(outbound := outbound + delta)
    }
  }

  function Init(peers: seq<Peer>): State {
    State(map[], map[], 0, 0, 0, seq(|peers|, i requires 0 <= i < |peers| => Conn(peers[i], Fresh)))
  }

  function Goto(s: State, c: nat, pc: Pc): State
    requires c < |s.conns|
  {
    s.(conns := s.conns[c := s.conns[c].(pc := pc)])
  }

  function PeerOf(s: State, c: nat): Peer
    requires 0 < |s.conns|
  {
    if c < |s.conns| then s.conns[c].peer else s.conns[0].peer
  }

  /** One step of connection `c`. */
  function Step(config: ManagerConfig, s: State, c: nat): (s': State)
    requires c < |s.conns|
    ensures |s'.conns| == |s.conns|
  {
    var peer := s.conns[c].peer;
    match s.conns[c].pc
    case Fresh => Goto(s, c, if s.total >= config.maxPeers then Refused else CheckDirection)
    case CheckDirection =>
      Goto(s, c, if s.Facing(peer.direction) >= config.LimitFor(peer.direction) then Refused else StoreId)
    case StoreId =>
      if peer.id in s.peers then Goto(s, c, Refused)
      else Goto(s.(peers := s.peers[peer.id := c]), c, if peer.addr != "" then StoreAddr else CountTotal)
    case StoreAddr =>
      if peer.addr in s.byAddr then Goto(s, c, Rollback)
      else Goto(s.(byAddr := s.byAddr[peer.addr := c]), c, CountTotal)
    case Rollback => Goto(s.(peers := s.peers - {peer.id}), c, Refused)
    case CountTotal => Goto(s.(total := s.total + 1), c, CountDirection)
    case CountDirection => Goto(s.Adjust(peer.direction, 1), c, Live)
    case Live =>
      if peer.id !in s.peers then Goto(s, c, Gone)
      else
        var found := s.peers[peer.id];
        Goto(s.(peers := s.peers - {peer.id}), c,
             if PeerOf(s, found).addr != "" then DeleteAddr(found) else DecTotal(found))
    case DeleteAddr(found) => Goto(s.(byAddr := s.byAddr - {PeerOf(s, found).addr}), c, DecTotal(found))
    case DecTotal(found) => Goto(s.(total := s.total - 1), c, DecDirection(found))
    case DecDirection(found) => Goto(s.Adjust(PeerOf(s, found).direction, -1), c, Gone)
    case Refused => s
    case Gone => s
  }

  // ---------------------------------------------------------------------------------------
  // What each program counter owns.

  predicate HoldsId(pc: Pc) {
    pc.StoreAddr? || pc.Rollback? || pc.CountTotal? || pc.CountDirection? || pc.Live?
  }

  predicate HoldsAddr(c: Conn) {
    c.peer.addr != "" && (c.pc.CountTotal? || c.pc.CountDirection? || c.pc.Live? || c.pc.DeleteAddr?)
  }

  predicate InTotal(c: Conn) {
    c.pc.CountDirection? || c.pc.Live? || c.pc.DeleteAddr? || c.pc.DecTotal?
  }

  predicate InDirection(c: Conn) {
    c.pc.Live? || c.pc.DeleteAddr? || c.pc.DecTotal? || c.pc.DecDirection?
  }

  predicate InInbound(c: Conn) { InDirection(c) && c.peer.direction == Inbound }

  predicate InOutbound(c: Conn) { InDirection(c) && c.peer.direction == Outbound }

  /** Removal always found the connection's own peer. */
  ghost predicate FoundSelf(pc: Pc, c: nat) {
    pc.DeleteAddr? || pc.DecTotal? || pc.DecDirection? ==> pc.found == c
  }

  /** Connection `c` is in the identity map exactly while its program counter says so. */
  ghost predicate IdOwned(peers: map<Id, nat>, c: nat, conn: Conn) {
    HoldsId(conn.pc) <==> conn.peer.id in peers && peers[conn.peer.id] == c
  }

  ghost predicate AddrOwned(byAddr: map<string, nat>, c: nat, conn: Conn) {
    HoldsAddr(conn) <==> conn.peer.addr in byAddr && byAddr[conn.peer.addr] == c
  }

  ghost predicate IdsOwned(peers: map<Id, nat>, conns: seq<Conn>) {
    && (forall id :: id in peers ==> peers[id] < |conns| && conns[peers[id]].peer.id == id)
    && (forall c :: 0 <= c < |conns| ==> IdOwned(peers, c, conns[c]))
  }

  ghost predicate AddrsOwned(byAddr: map<string, nat>, conns: seq<Conn>) {
    && (forall a :: a in byAddr ==> byAddr[a] < |conns| && conns[byAddr[a]].peer.addr == a)
    && (forall c :: 0 <= c < |conns| ==> AddrOwned(byAddr, c, conns[c]))
  }

  ghost predicate PcOk(c: nat, conn: Conn) {
    FoundSelf(conn.pc, c) && (conn.pc.StoreAddr? || conn.pc.DeleteAddr? ==> conn.peer.addr != "")
  }

  ghost predicate CountersExact(s: State) {
    && s.total == Count(s.conns, InTotal)
    && s.inbound == Count(s.conns, InInbound)
    && s.outbound == Count(s.conns, InOutbound)
  }

  ghost predicate Inv(s: State) {
    && IdsOwned(s.peers, s.conns)
    && AddrsOwned(s.byAddr, s.conns)
    && (forall c :: 0 <= c < |s.conns| ==> PcOk(c, s.conns[c]))
    && CountersExact(s)
  }

  lemma OwnFacts(s: State, c: nat)
    requires Inv(s) && c < |s.conns|
    ensures IdOwned(s.peers, c, s.conns[c]) && PcOk(c, s.conns[c])
  {
  }

  lemma CountersAreCounts(s: State)
    requires Inv(s)
    ensures s.total >= 0 && s.inbound >= 0 && s.outbound >= 0
  {
  }

  lemma OnlyOnePcChanges(config: ManagerConfig, s: State, c: nat)
    requires c < |s.conns|
    ensures Step(config, s, c).conns == s.conns[c := s.conns[c].(pc := Step(config, s, c).conns[c].pc)]
  {
  }

  /** A step changes at most its own peer's entries. */
  lemma MapsShape(config: ManagerConfig, s: State, c: nat)
    requires c < |s.conns| && PcOk(c, s.conns[c]) && IdOwned(s.peers, c, s.conns[c])
    ensures var s', conn := Step(config, s, c), s.conns[c];
            && s'.peers == (if conn.pc.StoreId? && conn.peer.id !in s.peers then s.peers[conn.peer.id := c]
                            else if conn.pc.Live? || conn.pc.Rollback? then s.peers - {conn.peer.id} else s.peers)
            && s'.byAddr == (if conn.pc.StoreAddr? && conn.peer.addr !in s.byAddr then s.byAddr[conn.peer.addr := c]
                             else if conn.pc.DeleteAddr? then s.byAddr - {conn.peer.addr} else s.byAddr)
  {
  }

  /** What the stepping connection holds afterwards. */
  lemma HoldsIdShape(config: ManagerConfig, s: State, c: nat)
    requires c < |s.conns| && IdOwned(s.peers, c, s.conns[c])
    ensures var conn := s.conns[c];
            HoldsId(Step(config, s, c).conns[c].pc) <==>
              (conn.pc.StoreId? && conn.peer.id !in s.peers)
              || (HoldsId(conn.pc) && !conn.pc.Rollback? && !conn.pc.Live?)
  {
  }

  lemma HoldsAddrShape(config: ManagerConfig, s: State, c: nat)
    requires c < |s.conns| && PcOk(c, s.conns[c]) && IdOwned(s.peers, c, s.conns[c])
    ensures var s', conn := Step(config, s, c), s.conns[c];
            && PcOk(c, s'.conns[c])
            && (HoldsAddr(s'.conns[c]) <==>
                  (conn.pc.StoreAddr? && conn.peer.addr !in s.byAddr)
                  || (HoldsAddr(conn) && !conn.pc.DeleteAddr?))
  {
  }

  lemma StepShape(config: ManagerConfig, s: State, c: nat)
    requires c < |s.conns| && PcOk(c, s.conns[c]) && IdOwned(s.peers, c, s.conns[c])
    ensures var s', conn := Step(config, s, c), s.conns[c];
            && s'.conns == s.conns[c := conn.(pc := s'.conns[c].pc)]
            && PcOk(c, s'.conns[c])
            && s'.peers == (if conn.pc.StoreId? && conn.peer.id !in s.peers then s.peers[conn.peer.id := c]
                            else if conn.pc.Live? || conn.pc.Rollback? then s.peers - {conn.peer.id} else s.peers)
            && s'.byAddr == (if conn.pc.StoreAddr? && conn.peer.addr !in s.byAddr then s.byAddr[conn.peer.addr := c]
                             else if conn.pc.DeleteAddr? then s.byAddr - {conn.peer.addr} else s.byAddr)
            && (HoldsId(s'.conns[c].pc) <==>
                  (conn.pc.StoreId? && conn.peer.id !in s.peers)
                  || (HoldsId(conn.pc) && !conn.pc.Rollback? && !conn.pc.Live?))
            && (HoldsAddr(s'.conns[c]) <==>
                  (conn.pc.StoreAddr? && conn.peer.addr !in s.byAddr)
                  || (HoldsAddr(conn) && !conn.pc.DeleteAddr?))
  {
    hide Step, HoldsId, HoldsAddr, PcOk, IdOwned;
    OnlyOnePcChanges(config, s, c);
    MapsShape(config, s, c);
    HoldsIdShape(config, s, c);
    HoldsAddrShape(config, s, c);
  }

  lemma StepKeepsIds(config: ManagerConfig, s: State, c: nat)
    requires Inv(s) && c < |s.conns|
    ensures IdsOwned(Step(config, s, c).peers, Step(config, s, c).conns)
  {
    var s' := Step(config, s, c);
    assert IdOwned(s.peers, c, s.conns[c]) && PcOk(c, s.conns[c]);
    StepShape(config, s, c);
    forall d | 0 <= d < |s'.conns| ensures IdOwned(s'.peers, d, s'.conns[d]) {
      assert IdOwned(s.peers, d, s.conns[d]);
    }
  }

  lemma StepKeepsAddrs(config: ManagerConfig, s: State, c: nat)
    requires Inv(s) && c < |s.conns|
    ensures AddrsOwned(Step(config, s, c).byAddr, Step(config, s, c).conns)
  {
    var s' := Step(config, s, c);
    assert IdOwned(s.peers, c, s.conns[c]) && PcOk(c, s.conns[c]);
    StepShape(config, s, c);
    assert AddrOwned(s.byAddr, c, s.conns[c]);
    forall d | 0 <= d < |s'.conns| ensures AddrOwned(s'.byAddr, d, s'.conns[d]) {
      assert AddrOwned(s.byAddr, d, s.conns[d]);
    }
  }

  lemma StepKeepsCounters(config: ManagerConfig, s: State, c: nat)
    requires Inv(s) && c < |s.conns|
    ensures CountersExact(Step(config, s, c))
  {
    hide Count, IdsOwned, AddrsOwned, Step;
    var conn' := Step(config, s, c).conns[c];
    OwnFacts(s, c);
    StepShape(config, s, c);
    CountUpdate(s.conns, c, conn', InTotal);
    CountUpdate(s.conns, c, conn', InInbound);
    CountUpdate(s.conns, c, conn', InOutbound);
    TotalMoves(config, s, c);
    InboundMoves(config, s, c);
    OutboundMoves(config, s, c);
  }

  lemma TotalMoves(config: ManagerConfig, s: State, c: nat)
    requires c < |s.conns| && PcOk(c, s.conns[c]) && IdOwned(s.peers, c, s.conns[c])
    ensures var s', conn := Step(config, s, c), s.conns[c];
            s'.total - s.total == (if InTotal(s'.conns[c]) then 1 else 0) - (if InTotal(conn) then 1 else 0)
  {
  }

  lemma InboundMoves(config: ManagerConfig, s: State, c: nat)
    requires c < |s.conns| && PcOk(c, s.conns[c]) && IdOwned(s.peers, c, s.conns[c])
    ensures var s', conn := Step(config, s, c), s.conns[c];
            s'.inbound - s.inbound == (if InInbound(s'.conns[c]) then 1 else 0) - (if InInbound(conn) then 1 else 0)
  {
  }

  lemma OutboundMoves(config: ManagerConfig, s: State, c: nat)
    requires c < |s.conns| && PcOk(c, s.conns[c]) && IdOwned(s.peers, c, s.conns[c])
    ensures var s', conn := Step(config, s, c), s.conns[c];
            s'.outbound - s.outbound == (if InOutbound(s'.conns[c]) then 1 else 0) - (if InOutbound(conn) then 1 else 0)
  {
  }

  lemma StepKeepsInv(config: ManagerConfig, s: State, c: nat)
    requires Inv(s) && c < |s.conns|
    ensures Inv(Step(config, s, c))
  {
    StepKeepsIds(config, s, c);
    StepKeepsAddrs(config, s, c);
    StepKeepsCounters(config, s, c);
    assert IdOwned(s.peers, c, s.conns[c]) && PcOk(c, s.conns[c]);
    StepShape(config, s, c);
  }

  // ---------------------------------------------------------------------------------------
  // Every interleaving of any number of connections.

  ghost predicate Scheduled(peers: seq<Peer>, turns: seq<nat>) {
    forall i :: 0 <= i < |turns| ==> turns[i] < |peers|
  }

  ghost function After(config: ManagerConfig, peers: seq<Peer>, turns: seq<nat>): (s: State)
    requires Scheduled(peers, turns)
    ensures |s.conns| == |peers|
  {
    if turns == [] then Init(peers)
    else Step(config, After(config, peers, turns[..|turns| - 1]), turns[|turns| - 1])
  }

  lemma {:induction false} ReachableInv(config: ManagerConfig, peers: seq<Peer>, turns: seq<nat>)
    requires Scheduled(peers, turns)
    ensures Inv(After(config, peers, turns))
  {
    if turns == [] {
      var s := Init(peers);
      CountZero(s.conns, InTotal);
      CountZero(s.conns, InInbound);
      CountZero(s.conns, InOutbound);
    } else {
      ReachableInv(config, peers, turns[..|turns| - 1]);
      StepKeepsInv(config, After(config, peers, turns[..|turns| - 1]), turns[|turns| - 1]);
    }
  }

  /** Both map deletions of a removal, and the rollback of a refused addition, hit the peer's own entry. */
  lemma DeletionsHitOwnEntry(config: ManagerConfig, peers: seq<Peer>, turns: seq<nat>, c: nat)
    requires Scheduled(peers, turns) && c < |peers|
    ensures var s := After(config, peers, turns);
            var conn := s.conns[c];
            && (conn.pc.Live? || conn.pc.Rollback? ==> conn.peer.id in s.peers && s.peers[conn.peer.id] == c)
            && (conn.pc.DeleteAddr? ==>
                  conn.pc.found == c && conn.peer.addr in s.byAddr && s.byAddr[conn.peer.addr] == c)
  {
    ReachableInv(config, peers, turns);
    var s := After(config, peers, turns);
    assert IdOwned(s.peers, c, s.conns[c]) && AddrOwned(s.byAddr, c, s.conns[c]) && PcOk(c, s.conns[c]);
  }

  predicate Quiet(pc: Pc) { pc.Fresh? || pc.Live? || pc.Refused? || pc.Gone? }

  predicate IsLive(c: Conn) { c.pc.Live? }

  predicate IsInbound(c: Conn) { c.pc.Live? && c.peer.direction == Inbound }

  predicate IsOutbound(c: Conn) { c.pc.Live? && c.peer.direction == Outbound }

  ghost function LiveSet(s: State): set<nat> {
    set c | 0 <= c < |s.conns| && s.conns[c].pc.Live?
  }

  lemma QuietMaps(s: State)
    requires Inv(s) && forall c :: 0 <= c < |s.conns| ==> Quiet(s.conns[c].pc)
    ensures s.peers.Values == LiveSet(s)
    ensures s.byAddr.Values == set c | c in LiveSet(s) && s.conns[c].peer.addr != ""
  {
    forall c | c in LiveSet(s) ensures c in s.peers.Values && (s.conns[c].peer.addr != "" ==> c in s.byAddr.Values) {
      assert IdOwned(s.peers, c, s.conns[c]) && AddrOwned(s.byAddr, c, s.conns[c]);
      assert s.conns[c].peer.id in s.peers.Keys;
      assert s.conns[c].peer.addr != "" ==> s.conns[c].peer.addr in s.byAddr.Keys;
    }
    forall c | c in s.peers.Values ensures c in LiveSet(s) {
      var id :| id in s.peers && s.peers[id] == c;
      assert IdOwned(s.peers, c, s.conns[c]);
    }
    forall c | c in s.byAddr.Values ensures c in LiveSet(s) && s.conns[c].peer.addr != "" {
      var a :| a in s.byAddr && s.byAddr[a] == c;
      assert AddrOwned(s.byAddr, c, s.conns[c]);
    }
  }

  lemma QuietCounters(s: State)
    requires Inv(s) && forall c :: 0 <= c < |s.conns| ==> Quiet(s.conns[c].pc)
    ensures s.inbound == Count(s.conns, IsInbound) && s.outbound == Count(s.conns, IsOutbound)
    ensures s.total == s.inbound + s.outbound == |LiveSet(s)|
  {
    hide Count, IdsOwned, AddrsOwned, PcOk;
    CountAgree(s.conns, InTotal, IsLive);
    CountAgree(s.conns, InInbound, IsInbound);
    CountAgree(s.conns, InOutbound, IsOutbound);
    CountSplit(s.conns, IsInbound, IsOutbound, IsLive);
    CountIsSize(s.conns, IsLive);
    assert LiveSet(s) == Indices(s.conns, IsLive);
  }

  /**
   When no call is in flight: the identity map holds exactly the live connections, the address
   map exactly those of them that have an address, each under its own key, and every counter is
   exact.
   */
  lemma QuiescentAgreement(config: ManagerConfig, peers: seq<Peer>, turns: seq<nat>)
    requires Scheduled(peers, turns)
    requires forall c :: 0 <= c < |peers| ==> Quiet(After(config, peers, turns).conns[c].pc)
    ensures var s := After(config, peers, turns);
            && s.peers.Values == LiveSet(s)
            && s.byAddr.Values == (set c | c in LiveSet(s) && s.conns[c].peer.addr != "")
            && (forall id :: id in s.peers ==> s.peers[id] < |s.conns| && s.conns[s.peers[id]].peer.id == id)
            && (forall a :: a in s.byAddr ==> s.byAddr[a] < |s.conns| && s.conns[s.byAddr[a]].peer.addr == a)
            && s.total == s.inbound + s.outbound == |s.peers|
            && s.inbound == Count(s.conns, IsInbound) && s.outbound == Count(s.conns, IsOutbound)
  {
    ReachableInv(config, peers, turns);
    var s := After(config, peers, turns);
    QuietMaps(s);
    QuietCounters(s);
    InjectiveSize(s.peers);
  }

  lemma ValuesWithout(m: map<Id, nat>, a: Id)
    requires a in m && forall b :: b in m && m[b] == m[a] ==> b == a
    ensures m.Values == (m - {a}).Values + {m[a]} && m[a] !in (m - {a}).Values
    ensures m.Keys == (m - {a}).Keys + {a}
  {
    var rest := m - {a};
    forall v | v in m.Values && v != m[a] ensures v in rest.Values {
      var b :| b in m && m[b] == v;
      assert b in rest && rest[b] == v;
    }
  }

  /** A map that never sends two keys to the same value has as many values as keys. */
  lemma {:induction false} InjectiveSize(m: map<Id, nat>)
    requires forall a, b :: a in m && b in m && m[a] == m[b] ==> a == b
    ensures |m.Values| == |m.Keys|
    decreases m.Keys
  {
    if m.Keys == {} {
      assert m.Values == {};
    } else {
      var a :| a in m.Keys;
      ValuesWithout(m, a);
      InjectiveSize(m - {a});
    }
  }

  // ---------------------------------------------------------------------------------------
  // Every call gets done, and a refusal has its reason.

  lemma AfterTurn(config: ManagerConfig, peers: seq<Peer>, turns: seq<nat>)
    requires Scheduled(peers, turns) && turns != []
    ensures After(config, peers, turns) == Step(config, After(config, peers, turns[..|turns| - 1]), turns[|turns| - 1])
  {
  }

  /** How many turns a connection has had. */
  ghost function TurnsOf(turns: seq<nat>, c: nat): nat {
    if turns == [] then 0 else TurnsOf(turns[..|turns| - 1], c) + if turns[|turns| - 1] == c then 1 else 0
  }

  /** The least and the most turns that lead to a program counter. */
  function Stage(pc: Pc): (int, int) {
    match pc
    case Fresh => (0, 0)
    case CheckDirection => (1, 1)
    case StoreId => (2, 2)
    case StoreAddr => (3, 3)
    case Rollback => (4, 4)
    case CountTotal => (3, 4)
    case CountDirection => (4, 5)
    case Live => (5, 6)
    case DeleteAddr(_) => (6, 7)
    case DecTotal(_) => (6, 8)
    case DecDirection(_) => (7, 9)
    case Refused => (1, -1)
    case Gone => (6, -1)
  }

  lemma StageLeast(config: ManagerConfig, s: State, c: nat)
    requires c < |s.conns|
    ensures var pc, pc' := s.conns[c].pc, Step(config, s, c).conns[c].pc;
            if pc.Refused? || pc.Gone? then pc' == pc else Stage(pc').0 <= Stage(pc).0 + 1
  {
  }

  lemma StageMost(config: ManagerConfig, s: State, c: nat)
    requires c < |s.conns|
    ensures var pc, pc' := s.conns[c].pc, Step(config, s, c).conns[c].pc;
            pc.Refused? || pc.Gone? || pc'.Refused? || pc'.Gone? || Stage(pc).1 + 1 <= Stage(pc').1
  {
  }

  /**
   Nothing waits: after at most six turns of its own an addition has returned, and after four more its
   removal has.
   */
  lemma {:induction false} CallsFinish(config: ManagerConfig, peers: seq<Peer>, turns: seq<nat>, c: nat)
    requires Scheduled(peers, turns) && c < |peers|
    ensures var pc, n := After(config, peers, turns).conns[c].pc, TurnsOf(turns, c);
            && (n >= 6 ==> !StillAdding(pc)) && (n >= 10 ==> pc.Refused? || pc.Gone?)
            && Stage(pc).0 <= n && (!pc.Refused? && !pc.Gone? ==> n <= Stage(pc).1)
  {
    if turns != [] {
      var before, last := turns[..|turns| - 1], turns[|turns| - 1];
      CallsFinish(config, peers, before, c);
      hide After, Step;
      var s := After(config, peers, before);
      AfterTurn(config, peers, turns);
      OnlyOnePcChanges(config, s, last);
      StageLeast(config, s, last);
      StageMost(config, s, last);
    }
  }

  /** An addition that has not returned. */
  predicate StillAdding(pc: Pc) {
    pc.Fresh? || pc.CheckDirection? || pc.StoreId? || pc.StoreAddr? || pc.Rollback? || pc.CountTotal? || pc.CountDirection?
  }

  /** What refuses a peer in this state: a limit, its identity or its address. */
  ghost predicate Refuses(config: ManagerConfig, s: State, peer: Peer, c: nat) {
    || s.total >= config.maxPeers || s.Facing(peer.direction) >= config.LimitFor(peer.direction)
    || (peer.id in s.peers && s.peers[peer.id] != c)
    || (peer.addr != "" && peer.addr in s.byAddr && s.byAddr[peer.addr] != c)
  }

  ghost predicate RefusedSome(config: ManagerConfig, peers: seq<Peer>, turns: seq<nat>, c: nat)
    requires Scheduled(peers, turns) && c < |peers|
  {
    exists k :: 0 <= k < |turns| && turns[k] == c && Refuses(config, After(config, peers, turns[..k]), peers[c], c)
  }

  lemma RefusedSomeLater(config: ManagerConfig, peers: seq<Peer>, turns: seq<nat>, c: nat)
    requires Scheduled(peers, turns) && c < |peers| && turns != [] && RefusedSome(config, peers, turns[..|turns| - 1], c)
    ensures RefusedSome(config, peers, turns, c)
  {
    hide After, Refuses;
    var before := turns[..|turns| - 1];
    var k :| 0 <= k < |before| && before[k] == c && Refuses(config, After(config, peers, before[..k]), peers[c], c);
    assert before[..k] == turns[..k];
  }

  /** The step by which a peer is refused, or sent to give its identity back, finds the reason. */
  lemma RefusalStep(config: ManagerConfig, s: State, c: nat)
    requires Inv(s) && c < |s.conns|
    ensures var pc, pc' := s.conns[c].pc, Step(config, s, c).conns[c].pc;
            (pc'.Refused? && !pc.Refused? && !pc.Rollback?) || pc'.Rollback? ==> Refuses(config, s, s.conns[c].peer, c)
  {
    assert IdOwned(s.peers, c, s.conns[c]) && AddrOwned(s.byAddr, c, s.conns[c]);
  }

  /** A peer is refused only because, at a step of its own call, a limit was reached or its identity or address taken. */
  lemma {:induction false} RefusalHadReason(config: ManagerConfig, peers: seq<Peer>, turns: seq<nat>, c: nat)
    requires Scheduled(peers, turns) && c < |peers|
    ensures After(config, peers, turns).conns[c].peer == peers[c]
    ensures After(config, peers, turns).conns[c].pc.Refused? || After(config, peers, turns).conns[c].pc.Rollback? ==>
              RefusedSome(config, peers, turns, c)
  {
    if turns != [] {
      var before, last := turns[..|turns| - 1], turns[|turns| - 1];
      RefusalHadReason(config, peers, before, c);
      ReachableInv(config, peers, before);
      hide After, Inv, Refuses;
      var s := After(config, peers, before);
      assert After(config, peers, turns) == Step(config, s, last);
      OnlyOnePcChanges(config, s, last);
      if s.conns[c].pc.Refused? || s.conns[c].pc.Rollback? {
        RefusedSomeLater(config, peers, turns, c);
      } else if last == c {
        RefusalStep(config, s, c);
        assert turns[..|before|] == before;
      }
    }
  }

  // ---------------------------------------------------------------------------------------
  // How far concurrent additions can overshoot the limits.

  predicate Adding(c: Conn) {
    c.pc.CheckDirection? || c.pc.StoreId? || c.pc.StoreAddr? || c.pc.Rollback? || c.pc.CountTotal? || c.pc.CountDirection?
  }

  /** Past the check of the total, and still going to be counted unless refused. */
  predicate PassedTotal(c: Conn) {
    c.pc.CheckDirection? || c.pc.StoreId? || c.pc.StoreAddr? || c.pc.CountTotal?
  }

  predicate PassedIn(c: Conn) {
    c.peer.direction == Inbound && (c.pc.StoreId? || c.pc.StoreAddr? || c.pc.CountTotal? || c.pc.CountDirection?)
  }

  predicate PassedOut(c: Conn) {
    c.peer.direction == Outbound && (c.pc.StoreId? || c.pc.StoreAddr? || c.pc.CountTotal? || c.pc.CountDirection?)
  }

  /** At no moment of the interleaving are more than `adders` additions in flight. */
  ghost predicate AtMostAdding(config: ManagerConfig, peers: seq<Peer>, turns: seq<nat>, adders: nat)
    requires Scheduled(peers, turns)
  {
    forall k :: 0 <= k <= |turns| ==> Count(After(config, peers, turns[..k]).conns, Adding) <= adders
  }

  /** How far a counter with this limit can get: a limit of zero or less lets nobody in. */
  function Cap(limit: int, adders: nat): int {
    if limit <= 0 then 0 else limit + adders - 1
  }

  ghost predicate WithinLimits(config: ManagerConfig, s: State, adders: nat) {
    && s.total + Count(s.conns, PassedTotal) <= Cap(config.maxPeers, adders)
    && s.inbound + Count(s.conns, PassedIn) <= Cap(config.maxInboundPeers, adders)
    && s.outbound + Count(s.conns, PassedOut) <= Cap(config.maxOutboundPeers, adders)
  }

  /** Only passing the total check raises what is counted or promised, and then the counter has room. */
  lemma TotalShape(config: ManagerConfig, s: State, c: nat)
    requires c < |s.conns|
    ensures var s', conn, conn' := Step(config, s, c), s.conns[c], Step(config, s, c).conns[c];
            var growth := s'.total - s.total + (if PassedTotal(conn') then 1 else 0) - (if PassedTotal(conn) then 1 else 0);
            growth <= 0
            || (growth == 1 && s'.total == s.total < config.maxPeers && !Adding(conn) && Adding(conn') && !PassedTotal(conn))
  {
  }

  lemma StepKeepsTotalLimit(config: ManagerConfig, s: State, c: nat, adders: nat)
    requires c < |s.conns| && WithinLimits(config, s, adders) && s.total >= 0
    requires Count(Step(config, s, c).conns, Adding) <= adders
    ensures Step(config, s, c).total + Count(Step(config, s, c).conns, PassedTotal) <= Cap(config.maxPeers, adders)
  {
    hide Count, Step;
    var conn' := Step(config, s, c).conns[c];
    OnlyOnePcChanges(config, s, c);
    CountUpdate(s.conns, c, conn', Adding);
    CountUpdate(s.conns, c, conn', PassedTotal);
    CountMonotone(s.conns, PassedTotal, Adding);
    TotalShape(config, s, c);
  }

  lemma StepKeepsDirectionLimits(config: ManagerConfig, s: State, c: nat, adders: nat)
    requires Inv(s) && c < |s.conns| && WithinLimits(config, s, adders)
    requires Count(s.conns, Adding) <= adders
    ensures Step(config, s, c).inbound + Count(Step(config, s, c).conns, PassedIn) <= Cap(config.maxInboundPeers, adders)
    ensures Step(config, s, c).outbound + Count(Step(config, s, c).conns, PassedOut) <= Cap(config.maxOutboundPeers, adders)
  {
    hide Inv, Count;
    var conn' := Step(config, s, c).conns[c];
    OwnFacts(s, c);
    CountersAreCounts(s);
    OnlyOnePcChanges(config, s, c);
    CountUpdate(s.conns, c, conn', PassedIn);
    CountUpdate(s.conns, c, conn', PassedOut);
    InboundMoves(config, s, c);
    OutboundMoves(config, s, c);
    if s.conns[c].pc.CheckDirection? {
      OthersAdding(s.conns, c);
    }
  }

  lemma StepKeepsLimits(config: ManagerConfig, s: State, c: nat, adders: nat)
    requires Inv(s) && c < |s.conns| && WithinLimits(config, s, adders)
    requires Count(s.conns, Adding) <= adders && Count(Step(config, s, c).conns, Adding) <= adders
    ensures WithinLimits(config, Step(config, s, c), adders)
  {
    CountersAreCounts(s);
    StepKeepsTotalLimit(config, s, c, adders);
    StepKeepsDirectionLimits(config, s, c, adders);
  }

  /** The connection itself is adding, so those past a direction check are strictly fewer. */
  lemma OthersAdding(conns: seq<Conn>, c: nat)
    requires c < |conns| && conns[c].pc.CheckDirection?
    ensures Count(conns, PassedIn) < Count(conns, Adding)
    ensures Count(conns, PassedOut) < Count(conns, Adding)
  {
    var idle := conns[c].(pc := Fresh);
    CountUpdate(conns, c, idle, Adding);
    CountUpdate(conns, c, idle, PassedIn);
    CountUpdate(conns, c, idle, PassedOut);
    CountMonotone(conns[c := idle], PassedIn, Adding);
    CountMonotone(conns[c := idle], PassedOut, Adding);
  }

  /**
   With at most T additions in flight at a time, a counter exceeds a positive limit by less than T,
   and any other limit not at all.
   */
  lemma {:induction false} OvershootBounded(config: ManagerConfig, peers: seq<Peer>, turns: seq<nat>, adders: nat)
    requires Scheduled(peers, turns) && AtMostAdding(config, peers, turns, adders) && adders > 0
    ensures var s := After(config, peers, turns);
            && WithinLimits(config, s, adders)
            && s.total <= Cap(config.maxPeers, adders)
            && s.inbound <= Cap(config.maxInboundPeers, adders)
            && s.outbound <= Cap(config.maxOutboundPeers, adders)
  {
    if turns == [] {
      var s := Init(peers);
      CountZero(s.conns, PassedTotal);
      CountZero(s.conns, PassedIn);
      CountZero(s.conns, PassedOut);
    } else {
      var before := turns[..|turns| - 1];
      forall k | 0 <= k <= |before| ensures Count(After(config, peers, before[..k]).conns, Adding) <= adders {
        assert before[..k] == turns[..k];
      }
      OvershootBounded(config, peers, before, adders);
      ReachableInv(config, peers, before);
      assert before[..|before|] == before && turns[..|turns|] == turns;
      StepKeepsLimits(config, After(config, peers, before), turns[|turns| - 1], adders);
    }
  }

  /** Whoever is in the total is in the counter of its direction, or on the way into it. */
  lemma {:induction false} TotalBySides(conns: seq<Conn>)
    ensures Count(conns, InTotal)
            <= Count(conns, InInbound) + Count(conns, PassedIn) + Count(conns, InOutbound) + Count(conns, PassedOut)
  {
    if conns != [] {
      TotalBySides(conns[..|conns| - 1]);
    }
  }

  /** So the total never exceeds what both directions together can hold. */
  lemma TotalBoundedBySides(config: ManagerConfig, peers: seq<Peer>, turns: seq<nat>, adders: nat)
    requires Scheduled(peers, turns) && AtMostAdding(config, peers, turns, adders) && adders > 0
    ensures After(config, peers, turns).total <= Cap(config.maxInboundPeers, adders) + Cap(config.maxOutboundPeers, adders)
  {
    hide Count, After, Cap;
    OvershootBounded(config, peers, turns, adders);
    ReachableInv(config, peers, turns);
    TotalBySides(After(config, peers, turns).conns);
  }

  /** With no room for anyone nobody gets past the first check. */
  lemma {:induction false} NobodyPasses(config: ManagerConfig, peers: seq<Peer>, turns: seq<nat>)
    requires Scheduled(peers, turns) && config.maxPeers <= 0
    ensures forall c :: 0 <= c < |peers| ==> var pc := After(config, peers, turns).conns[c].pc; pc.Fresh? || pc.Refused?
  {
    if turns != [] {
      NobodyPasses(config, peers, turns[..|turns| - 1]);
      ReachableInv(config, peers, turns[..|turns| - 1]);
      CountersAreCounts(After(config, peers, turns[..|turns| - 1]));
    }
  }
}
