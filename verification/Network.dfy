/**
  * Whole runs of a network of nodes. A request holds its node's lock throughout, so each is one atomic step of
  * that node; what a resolving node hears of a peer is the peer's chain in some earlier state.
  */
module Network {
  import opened Blockchain

  type World = seq<Node<nat>>

  /** The chain of a peer as it was in a certain state of the run. */
  datatype Poll = Poll(peer: nat, at: nat)

  datatype Event =
    | Mine(i: nat, proof: int, timestamp: int)
    | Transact(i: nat, t: Transaction)
    | Register(i: nat, peer: nat)
    | Resolve(i: nat, polls: seq<Poll>)

  /** The run so far: states[0] and, for every event, the state after it. */
  datatype Run = Run(ids: seq<string>, states: seq<World>, events: seq<Event>)

  predicate Sized(r: Run) {
    && |r.states| == |r.events| + 1
    && forall t :: 0 <= t < |r.states| ==> |r.states[t]| == |r.ids|
  }

  ghost predicate Polled(n: Node<nat>, polls: seq<Poll>) {
    && (forall k :: 0 <= k < |polls| ==> polls[k].peer in n.nodes)
    && (forall p :: p in n.nodes ==> exists k :: 0 <= k < |polls| && polls[k].peer == p)
  }

  predicate PollsExist(r: Run, t: nat, polls: seq<Poll>) {
    forall k :: 0 <= k < |polls| ==> polls[k].peer < |r.ids| && polls[k].at <= t
  }

  /** The event can happen in state t. */
  ghost predicate Possible(o: Oracle, r: Run, t: nat, e: Event)
    requires Sized(r) && t < |r.states|
  {
    && e.i < |r.ids|
    && var n := r.states[t][e.i];
       match e
       case Mine(_, proof, _) => n.chain != [] && IsLeastProof(o, n.chain[|n.chain| - 1], proof)
       case Transact(_, _) => true
       case Register(_, peer) => peer < |r.ids|
       case Resolve(_, polls) => Polled(n, polls) && PollsExist(r, t, polls)
  }

  /** What honest peers answer: their chain, and its length. */
  function Answers(r: Run, t: nat, polls: seq<Poll>): (a: seq<Response>)
    requires Sized(r) && t < |r.states| && PollsExist(r, t, polls)
    ensures |a| == |polls|
    ensures forall k :: 0 <= k < |polls| ==>
      a[k] == Full(|r.states[polls[k].at][polls[k].peer].chain|, r.states[polls[k].at][polls[k].peer].chain)
  {
    seq(|polls|, k requires 0 <= k < |polls| =>
      Full(|r.states[polls[k].at][polls[k].peer].chain|, r.states[polls[k].at][polls[k].peer].chain))
  }

  /** The node that the event happens on, after it. */
  ghost function Outcome(o: Oracle, r: Run, t: nat, e: Event): Node<nat>
    requires Sized(r) && t < |r.states| && Possible(o, r, t, e)
  {
    var n := r.states[t][e.i];
    match e
    case Mine(i, proof, timestamp) => Mined(o, n, r.ids[i], proof, timestamp)
    case Transact(_, transaction) => Transacted(n, transaction)
    case Register(_, peer) => n.(nodes := n.nodes + {peer})
    case Resolve(_, polls) => Adopted(o, n, Answers(r, t, polls))
  }

  ghost predicate Allowed(o: Oracle, r: Run, t: nat)
    requires Sized(r) && t < |r.events|
  {
    Possible(o, r, t, r.events[t])
  }

  ghost function After(o: Oracle, r: Run, t: nat): Node<nat>
    requires Sized(r) && t < |r.events| && Allowed(o, r, t)
  {
    Outcome(o, r, t, r.events[t])
  }

  ghost predicate Starting(world: World) {
    forall i :: 0 <= i < |world| ==> exists time :: world[i] == Node([], [Genesis(time)], {})
  }

  ghost predicate IsRun(o: Oracle, r: Run) {
    && Sized(r)
    && Starting(r.states[0])
    && forall t :: 0 <= t < |r.events| ==>
         Allowed(o, r, t) && r.states[t + 1] == r.states[t][r.events[t].i := After(o, r, t)]
  }

  function ChainAt(r: Run, t: nat, i: nat): Chain
    requires Sized(r) && t < |r.states| && i < |r.ids|
  {
    r.states[t][i].chain
  }

  /** The same run with one more event. */
  ghost function Continued(o: Oracle, r: Run, e: Event): Run
    requires Sized(r) && Possible(o, r, |r.events|, e)
  {
    var now := r.states[|r.events|];
    Run(r.ids, r.states + [now[e.i := Outcome(o, r, |r.events|, e)]], r.events + [e])
  }

  /** Whatever can happen makes a longer run. */
  lemma RunsContinue(o: Oracle, r: Run, e: Event)
    requires IsRun(o, r) && Possible(o, r, |r.events|, e)
    ensures IsRun(o, Continued(o, r, e))
  {
    var r' := Continued(o, r, e);
    forall t | 0 <= t < |r'.events|
      ensures Allowed(o, r', t) && r'.states[t + 1] == r'.states[t][r'.events[t].i := After(o, r', t)]
    {
      if t < |r.events| {
        assert Allowed(o, r, t);
      }
      SamePast(o, r, r', t, r'.events[t]);
    }
  }

  /** What can happen depends on the past alone. */
  lemma SamePast(o: Oracle, r: Run, r': Run, t: nat, e: Event)
    requires Sized(r) && Sized(r') && t < |r.states| <= |r'.states| && r'.ids == r.ids
    requires r'.states[..|r.states|] == r.states
    requires Possible(o, r, t, e)
    ensures Possible(o, r', t, e) && Outcome(o, r', t, e) == Outcome(o, r, t, e)
  {
    hide IsLeastProof, Polled, Adopted, Mined;
    assert forall s :: 0 <= s < |r.states| ==> r'.states[s] == r.states[s];
    if e.Resolve? {
      assert Answers(r', t, e.polls) == Answers(r, t, e.polls);
    }
  }

  // ---------- One step ----------

  /** A step leaves a chain alone, extends it by a mined block, or replaces it with a longer one heard of. */
  datatype Change = Same | Extended(block: Block) | Replaced(peer: nat, at: nat)

  ghost predicate Changes(o: Oracle, r: Run, t: nat, i: nat, c: Change)
    requires Sized(r) && t < |r.events| && i < |r.ids|
  {
    var before, after := ChainAt(r, t, i), ChainAt(r, t + 1, i);
    match c
    case Same => after == before
    case Extended(block) =>
      && before != [] && after == before + [block]
      && r.events[t].Mine?
      && Follows(o, before[|before| - 1], block) && block.index == |before| + 1 && Rewarded(r.ids, block)
    case Replaced(peer, at) =>
      && peer < |r.ids| && at <= t && after == ChainAt(r, at, peer) && |after| > |before|
  }

  /** The last transaction of the block is a reward to a node of the network. */
  ghost predicate Rewarded(ids: seq<string>, block: Block) {
    block.transactions != []
    && exists i :: 0 <= i < |ids| && block.transactions[|block.transactions| - 1] == Reward(ids[i])
  }

  lemma MinedBlock(o: Oracle, ids: seq<string>, i: nat, n: Node<nat>, proof: int, timestamp: int)
    returns (block: Block)
    requires i < |ids| && n.chain != [] && IsLeastProof(o, n.chain[|n.chain| - 1], proof)
    ensures Mined(o, n, ids[i], proof, timestamp).chain == n.chain + [block]
    ensures Follows(o, n.chain[|n.chain| - 1], block) && block.index == |n.chain| + 1 && Rewarded(ids, block)
  {
    var n' := Transacted(n, Reward(ids[i]));
    block := BlockOf(n', proof, o.hash(n.chain[|n.chain| - 1]), timestamp);
    assert block.transactions[|block.transactions| - 1] == Reward(ids[i]);
  }

  lemma StepChange(o: Oracle, r: Run, t: nat, i: nat) returns (c: Change)
    requires IsRun(o, r) && t < |r.events| && i < |r.ids|
    ensures Changes(o, r, t, i, c)
  {
    hide IsLeastProof, Follows, ValidChain, Rewarded, Polled, Starting;
    c := Same;
    assert Allowed(o, r, t) && r.states[t + 1] == r.states[t][r.events[t].i := After(o, r, t)];
    var e := r.events[t];
    if e.i == i {
      var n := r.states[t][i];
      match e {
        case Mine(_, proof, timestamp) =>
          var block := MinedBlock(o, r.ids, i, n, proof, timestamp);
          c := Extended(block);
        case Resolve(_, polls) =>
          var answers := Answers(r, t, polls);
          var k := BestIsTheFirstLongest(o, |n.chain|, answers);
          if Adopted(o, n, answers) != n {
            c := Replaced(polls[k].peer, polls[k].at);
          }
        case _ =>
      }
    }
  }

  // ---------- Safety ----------

  ghost predicate ChainOk(o: Oracle, ids: seq<string>, chain: Chain) {
    && chain != []
    && ValidChain(o, chain)
    && chain[0] == Genesis(chain[0].timestamp)
    && (forall k :: 0 <= k < |chain| ==> chain[k].index == k + 1)
    && (forall k :: 0 < k < |chain| ==> Rewarded(ids, chain[k]))
  }

  ghost predicate ChainsOk(o: Oracle, r: Run, t: nat)
    requires Sized(r) && t < |r.states|
  {
    forall s, i :: 0 <= s <= t && 0 <= i < |r.ids| ==> ChainOk(o, r.ids, ChainAt(r, s, i))
  }

  lemma ExtendedIsOk(o: Oracle, ids: seq<string>, chain: Chain, block: Block)
    requires ChainOk(o, ids, chain)
    requires Follows(o, chain[|chain| - 1], block) && block.index == |chain| + 1 && Rewarded(ids, block)
    ensures ChainOk(o, ids, chain + [block])
  {
    hide Follows, Rewarded;
  }

  lemma {:induction false} ChainsStayOk(o: Oracle, r: Run, t: nat)
    requires IsRun(o, r) && t < |r.states|
    ensures ChainsOk(o, r, t)
    decreases t
  {
    hide ChainOk, IsRun, Changes;
    if t == 0 {
      StartIsOk(o, r);
    } else {
      SizedRun(o, r);
      ChainsStayOk(o, r, t - 1);
      forall i | 0 <= i < |r.ids|
        ensures ChainOk(o, r.ids, ChainAt(r, t, i))
      {
        ChainStaysOk(o, r, t - 1, i);
      }
    }
  }

  lemma SizedRun(o: Oracle, r: Run)
    requires IsRun(o, r)
    ensures Sized(r)
  {
  }

  lemma StartIsOk(o: Oracle, r: Run)
    requires IsRun(o, r)
    ensures ChainsOk(o, r, 0)
  {
  }

  lemma ChainStaysOk(o: Oracle, r: Run, t: nat, i: nat)
    requires IsRun(o, r) && t < |r.events| && i < |r.ids| && ChainsOk(o, r, t)
    ensures ChainOk(o, r.ids, ChainAt(r, t + 1, i))
  {
    hide ChainOk, IsRun;
    SizedRun(o, r);
    var c := StepChange(o, r, t, i);
    if c.Extended? {
      ExtendedIsOk(o, r.ids, ChainAt(r, t, i), c.block);
    }
  }

  /** A node's chain changes only into a longer one. */
  lemma {:induction false} ChainsOnlyGrow(o: Oracle, r: Run, s: nat, t: nat, i: nat)
    requires IsRun(o, r) && s <= t < |r.states| && i < |r.ids|
    ensures ChainAt(r, s, i) == ChainAt(r, t, i) || |ChainAt(r, s, i)| < |ChainAt(r, t, i)|
    decreases t
  {
    hide IsRun;
    SizedRun(o, r);
    if s < t {
      ChainsOnlyGrow(o, r, s, t - 1, i);
      var _ := StepChange(o, r, t - 1, i);
    }
  }

  /** In every state of every run. */
  lemma Safety(o: Oracle, r: Run, t: nat, i: nat)
    requires IsRun(o, r) && t < |r.states| && i < |r.ids|
    ensures ChainOk(o, r.ids, ChainAt(r, t, i))
    ensures t > 0 ==> |ChainAt(r, t - 1, i)| <= |ChainAt(r, t, i)|
  {
    hide IsRun, ChainOk;
    SizedRun(o, r);
    ChainsStayOk(o, r, t);
    if t > 0 {
      ChainsOnlyGrow(o, r, t - 1, t, i);
    }
  }

  /**
    * The same with every condition written out: the first block is the fixed one, and each later block has its place,
    * the hash of the block before, a proof that fits, and as its last transaction one coin for a node, out of nothing.
    */
  lemma EveryBlockIsProved(o: Oracle, r: Run, t: nat, i: nat, k: nat)
    requires IsRun(o, r) && t < |r.states| && i < |r.ids| && k < |ChainAt(r, t, i)|
    ensures
      var chain := ChainAt(r, t, i);
      var block := chain[k];
      if k == 0 then block == Block(1, block.timestamp, [], 100, "1")
      else
        && block.index == k + 1
        && block.previousHash == o.hash(chain[k - 1])
        && o.validProof(chain[k - 1].proof, block.proof, o.hash(chain[k - 1]))
        && block.transactions != []
        && exists id :: id in r.ids && block.transactions[|block.transactions| - 1] == Transaction("0", id, 1)
  {
    hide IsRun;
    SizedRun(o, r);
    Safety(o, r, t, i);
    var chain := ChainAt(r, t, i);
    ValidChainIff(o, chain);
    if k > 0 {
      assert Rewarded(r.ids, chain[k]);
      var j :| 0 <= j < |r.ids| && chain[k].transactions[|chain[k].transactions| - 1] == Reward(r.ids[j]);
      assert r.ids[j] in r.ids;
    }
  }

  /** The blocks that some node has held in some state of the run. */
  ghost function EverHeld(r: Run): iset<Block>
    requires Sized(r)
  {
    iset t: nat, i: nat, k: nat |
      t < |r.states| && i < |r.ids| && k < |ChainAt(r, t, i)| :: ChainAt(r, t, i)[k]
  }

  /** Any two chains ever held that share a block agree on everything up to it, unless blocks ever held collide. */
  lemma SharedBlocksInRuns(o: Oracle, r: Run, s: nat, i: nat, t: nat, j: nat, m: nat, n: nat)
    requires IsRun(o, r) && NoCollision(o, EverHeld(r), EverHeld(r)) && NeverOne(o, EverHeld(r))
    requires s < |r.states| && t < |r.states| && i < |r.ids| && j < |r.ids|
    requires m < |ChainAt(r, s, i)| && n < |ChainAt(r, t, j)| && ChainAt(r, s, i)[m] == ChainAt(r, t, j)[n]
    ensures m == n && ChainAt(r, s, i)[..m + 1] == ChainAt(r, t, j)[..n + 1]
  {
    hide IsRun, ValidChain;
    SizedRun(o, r);
    Safety(o, r, s, i);
    Safety(o, r, t, j);
    HeldBlocks(r, s, i);
    HeldBlocks(r, t, j);
    SharedBlockSharesHistory(o, ChainAt(r, s, i), ChainAt(r, t, j), m, n);
  }

  lemma HeldBlocks(r: Run, t: nat, i: nat)
    requires Sized(r) && t < |r.states| && i < |r.ids|
    ensures Blocks(ChainAt(r, t, i)) <= EverHeld(r)
  {
    forall x | x in Blocks(ChainAt(r, t, i))
      ensures x in EverHeld(r)
    {
      var k :| 0 <= k < |ChainAt(r, t, i)| && ChainAt(r, t, i)[k] == x;
    }
  }

  predicate ResolvesAt(r: Run, t: nat, i: nat)
    requires t < |r.events|
  {
    r.events[t].Resolve? && r.events[t].i == i
  }

  // ---------- Convergence ----------

  predicate NoMiningFrom(r: Run, from: nat) {
    forall t :: from <= t < |r.events| ==> !r.events[t].Mine?
  }

  /** Every chain in this state is the given one or shorter. */
  predicate Dominates(world: World, chain: Chain) {
    forall i :: 0 <= i < |world| ==> |world[i].chain| < |chain| || world[i].chain == chain
  }

  lemma {:induction false} StaysDominant(o: Oracle, r: Run, from: nat, t: nat, chain: Chain)
    requires IsRun(o, r) && from <= t < |r.states| && NoMiningFrom(r, from) && Dominates(r.states[from], chain)
    ensures Dominates(r.states[t], chain)
    decreases t
  {
    hide IsRun;
    SizedRun(o, r);
    if t > from {
      StaysDominant(o, r, from, t - 1, chain);
      forall i | 0 <= i < |r.ids|
        ensures |r.states[t][i].chain| < |chain| || r.states[t][i].chain == chain
      {
        assert |r.states[t - 1][i].chain| < |chain| || r.states[t - 1][i].chain == chain;
        var c := StepChange(o, r, t - 1, i);
        if c.Replaced? {
          ChainsOnlyGrow(o, r, c.at, t - 1, c.peer);
        }
      }
    }
  }

  /** No chain in this state is longer. */
  predicate AtMost(world: World, length: nat) {
    forall i :: 0 <= i < |world| ==> |world[i].chain| <= length
  }

  lemma {:induction false} StaysAtMost(o: Oracle, r: Run, from: nat, t: nat, length: nat)
    requires IsRun(o, r) && from <= t < |r.states| && NoMiningFrom(r, from) && AtMost(r.states[from], length)
    ensures AtMost(r.states[t], length)
    decreases t
  {
    hide IsRun;
    SizedRun(o, r);
    if t > from {
      StaysAtMost(o, r, from, t - 1, length);
      forall i | 0 <= i < |r.ids|
        ensures |r.states[t][i].chain| <= length
      {
        assert |r.states[t - 1][i].chain| <= length;
        var c := StepChange(o, r, t - 1, i);
        if c.Replaced? {
          ChainsOnlyGrow(o, r, c.at, t - 1, c.peer);
        }
      }
    }
  }

  /** Between the two states every node resolves, hearing of no state before the first. */
  ghost predicate CompleteRound(r: Run, from: nat, to: nat) {
    && from <= to <= |r.events|
    && forall i :: 0 <= i < |r.ids| ==> ResolvesWithin(r, i, from, to)
  }

  ghost predicate ResolvesWithin(r: Run, i: nat, from: nat, to: nat)
    requires to <= |r.events|
  {
    exists t :: from <= t < to && FreshResolve(r, i, t, from)
  }

  predicate FreshResolve(r: Run, i: nat, t: nat, from: nat)
    requires t < |r.events|
  {
    && ResolvesAt(r, t, i)
    && forall k :: 0 <= k < |r.events[t].polls| ==> r.events[t].polls[k].at >= from
  }

  /** A holder of the chain is at most d neighbours away. */
  ghost predicate Within(world: World, chain: Chain, i: nat, d: nat)
    decreases d
  {
    && i < |world|
    && if d == 0 then world[i].chain == chain
       else Within(world, chain, i, d - 1)
            || exists j: nat :: j in world[i].nodes && Within(world, chain, j, d - 1)
  }

  lemma {:induction false} NodesOnlyGrow(o: Oracle, r: Run, s: nat, t: nat, i: nat)
    requires IsRun(o, r) && s <= t < |r.states| && i < |r.ids|
    ensures r.states[s][i].nodes <= r.states[t][i].nodes
    decreases t
  {
    hide IsLeastProof, Polled, Starting;
    if s < t {
      NodesOnlyGrow(o, r, s, t - 1, i);
      assert Allowed(o, r, t - 1);
    }
  }

  /** A node that asks a holder of a longest chain holds one of that length from then on. */
  lemma ResolveReaches(o: Oracle, r: Run, from: nat, t: nat, i: nat, j: nat, at: nat, length: nat)
    requires IsRun(o, r) && from <= t < |r.events| && i < |r.ids| && j < |r.ids|
    requires ResolvesAt(r, t, i) && at <= t && Poll(j, at) in r.events[t].polls
    requires NoMiningFrom(r, from) && AtMost(r.states[from], length) && |ChainAt(r, at, j)| == length
    ensures |ChainAt(r, t + 1, i)| == length
  {
    hide ChainOk, Polled, Starting, IsLeastProof, AtMost;
    Safety(o, r, at, j);
    StaysAtMost(o, r, from, t + 1, length);
    assert Allowed(o, r, t) && r.states[t + 1] == r.states[t][r.events[t].i := After(o, r, t)];
    var polls := r.events[t].polls;
    var answers := Answers(r, t, polls);
    var n := r.states[t][i];
    var k :| 0 <= k < |polls| && polls[k] == Poll(j, at);
    assert answers[k] == Full(length, ChainAt(r, at, j));
    OkIsValid(o, r.ids, ChainAt(r, at, j));
    var best := BestIsTheFirstLongest(o, |n.chain|, answers);
    assert |ChainAt(r, t + 1, i)| >= length;
    AtMostThat(r.states[t + 1], length, i);
  }

  lemma AtMostThat(world: World, length: nat, i: nat)
    requires AtMost(world, length) && i < |world|
    ensures |world[i].chain| <= length
  {
  }

  lemma OkIsValid(o: Oracle, ids: seq<string>, chain: Chain)
    requires ChainOk(o, ids, chain)
    ensures ValidChain(o, chain)
  {
  }

  lemma DominantOrLess(world: World, chain: Chain, i: nat)
    requires Dominates(world, chain) && i < |world| && |world[i].chain| >= |chain|
    ensures world[i].chain == chain
  {
  }

  lemma HeldForever(o: Oracle, r: Run, from: nat, s: nat, t: nat, i: nat, length: nat)
    requires IsRun(o, r) && from <= s <= t < |r.states| && i < |r.ids|
    requires NoMiningFrom(r, from) && AtMost(r.states[from], length) && |ChainAt(r, s, i)| == length
    ensures |ChainAt(r, t, i)| == length
  {
    hide IsRun;
    SizedRun(o, r);
    StaysAtMost(o, r, from, t, length);
    ChainsOnlyGrow(o, r, s, t, i);
  }

  /** A holder of a chain of that length is at most d neighbours away. */
  ghost predicate Reaches(world: World, length: nat, i: nat, d: nat)
    decreases d
  {
    && i < |world|
    && if d == 0 then |world[i].chain| == length
       else Reaches(world, length, i, d - 1)
            || exists j: nat :: j in world[i].nodes && Reaches(world, length, j, d - 1)
  }

  /**
    * With mining stopped, after d rounds in which every node resolves, every node at most d neighbours away from a
    * holder of a longest chain holds a chain of that length.
    */
  lemma {:induction false} LongestLengthSpreads(
    o: Oracle, r: Run, rounds: seq<nat>, d: nat, i: nat, length: nat, t: nat)
    requires IsRun(o, r) && d < |rounds| && rounds[d] <= t < |r.states|
    requires forall k :: 0 <= k < d ==> CompleteRound(r, rounds[k], rounds[k + 1])
    requires rounds[0] < |r.states| && NoMiningFrom(r, rounds[0]) && AtMost(r.states[rounds[0]], length)
    requires Reaches(r.states[rounds[0]], length, i, d)
    ensures |ChainAt(r, t, i)| == length
    decreases d
  {
    hide IsRun, AtMost, NoMiningFrom, CompleteRound;
    SizedRun(o, r);
    var from := rounds[0];
    var world := r.states[from];
    RoundsAscend(r, rounds, d);
    if d == 0 {
      HeldForever(o, r, from, from, t, i, length);
    } else if Reaches(world, length, i, d - 1) {
      LongestLengthSpreads(o, r, rounds, d - 1, i, length, t);
    } else {
      var j: nat :| j in world[i].nodes && Reaches(world, length, j, d - 1);
      forall s | rounds[d - 1] <= s < |r.states|
        ensures |ChainAt(r, s, j)| == length
      {
        LongestLengthSpreads(o, r, rounds, d - 1, j, length, s);
      }
      var at, u := FreshPoll(o, r, from, rounds[d - 1], rounds[d], i, j);
      ResolveReaches(o, r, from, u, i, j, at, length);
      HeldForever(o, r, from, u + 1, t, i, length);
    }
  }

  lemma {:induction false} WithinReaches(world: World, chain: Chain, i: nat, d: nat)
    requires Within(world, chain, i, d)
    ensures Reaches(world, |chain|, i, d)
    decreases d
  {
    if d > 0 {
      if Within(world, chain, i, d - 1) {
        WithinReaches(world, chain, i, d - 1);
      } else {
        var j: nat :| j in world[i].nodes && Within(world, chain, j, d - 1);
        WithinReaches(world, chain, j, d - 1);
      }
    }
  }

  /**
    * With mining stopped and one longest chain, after d rounds in which every node resolves, every node at most d
    * neighbours away from a holder has exactly that chain, and keeps it.
    */
  lemma Convergence(o: Oracle, r: Run, rounds: seq<nat>, d: nat, i: nat, chain: Chain, t: nat)
    requires IsRun(o, r) && d < |rounds| && rounds[d] <= t < |r.states|
    requires forall k :: 0 <= k < d ==> CompleteRound(r, rounds[k], rounds[k + 1])
    requires rounds[0] < |r.states| && NoMiningFrom(r, rounds[0]) && Dominates(r.states[rounds[0]], chain)
    requires Within(r.states[rounds[0]], chain, i, d)
    ensures ChainAt(r, t, i) == chain
  {
    hide IsRun, Dominates, AtMost, NoMiningFrom, CompleteRound, Within, Reaches;
    SizedRun(o, r);
    RoundsAscend(r, rounds, d);
    WithinIsInside(r.states[rounds[0]], chain, i, d);
    WithinReaches(r.states[rounds[0]], chain, i, d);
    DominatesAtMost(r.states[rounds[0]], chain);
    LongestLengthSpreads(o, r, rounds, d, i, |chain|, t);
    StaysDominant(o, r, rounds[0], t, chain);
    DominantOrLess(r.states[t], chain, i);
  }

  lemma WithinIsInside(world: World, chain: Chain, i: nat, d: nat)
    requires Within(world, chain, i, d)
    ensures i < |world|
  {
  }

  lemma DominatesAtMost(world: World, chain: Chain)
    requires Dominates(world, chain)
    ensures AtMost(world, |chain|)
  {
  }

  lemma {:induction false} RoundsAscend(r: Run, rounds: seq<nat>, d: nat)
    requires d < |rounds| && forall k :: 0 <= k < d ==> CompleteRound(r, rounds[k], rounds[k + 1])
    ensures forall k :: 0 <= k <= d ==> rounds[0] <= rounds[k] <= rounds[d]
    decreases d
  {
    if d > 0 {
      RoundsAscend(r, rounds, d - 1);
      assert CompleteRound(r, rounds[d - 1], rounds[d]);
    }
  }

  /** In a complete round every node asks each of its neighbours. */
  lemma FreshPoll(o: Oracle, r: Run, from: nat, start: nat, end: nat, i: nat, j: nat) returns (at: nat, t: nat)
    requires IsRun(o, r) && from <= start <= end && CompleteRound(r, start, end) && i < |r.ids|
    requires j in r.states[from][i].nodes
    ensures start <= at <= t < end && t < |r.events| && ResolvesAt(r, t, i)
    ensures j < |r.ids| && Poll(j, at) in r.events[t].polls
  {
    hide IsLeastProof, Starting;
    assert ResolvesWithin(r, i, start, end);
    t :| start <= t < end && FreshResolve(r, i, t, start);
    NodesOnlyGrow(o, r, from, t, i);
    assert Allowed(o, r, t);
    var polls := r.events[t].polls;
    var k :| 0 <= k < |polls| && polls[k].peer == j;
    at := polls[k].at;
    assert polls[k] == Poll(j, at);
  }

  // ---------- Ties ----------

  /** A longest chain is never given up for another of its length. */
  lemma LongestIsKept(o: Oracle, r: Run, from: nat, t: nat, i: nat)
    requires IsRun(o, r) && from <= t < |r.states| && i < |r.ids| && NoMiningFrom(r, from)
    requires AtMost(r.states[from], |ChainAt(r, from, i)|)
    ensures ChainAt(r, t, i) == ChainAt(r, from, i)
  {
    hide IsRun;
    SizedRun(o, r);
    StaysAtMost(o, r, from, t, |ChainAt(r, from, i)|);
    ChainsOnlyGrow(o, r, from, t, i);
  }

  ghost predicate Agreement(r: Run, t: nat, chain: Chain)
    requires Sized(r) && t < |r.states|
  {
    forall i :: 0 <= i < |r.ids| ==> ChainAt(r, t, i) == chain
  }

  /**
    * When node h holds a longest chain, every node is at most d neighbours away from a holder of it, and mining has
    * stopped: d rounds bring agreement if and only if no other chain is as long.
    */
  lemma AgreementIffNoTie(o: Oracle, r: Run, rounds: seq<nat>, d: nat, h: nat, t: nat)
    requires IsRun(o, r) && d < |rounds| && rounds[d] <= t < |r.states| && h < |r.ids|
    requires forall k :: 0 <= k < d ==> CompleteRound(r, rounds[k], rounds[k + 1])
    requires rounds[0] <= t && NoMiningFrom(r, rounds[0])
    requires AtMost(r.states[rounds[0]], |ChainAt(r, rounds[0], h)|)
    requires forall i :: 0 <= i < |r.ids| ==> Within(r.states[rounds[0]], ChainAt(r, rounds[0], h), i, d)
    ensures Agreement(r, t, ChainAt(r, rounds[0], h))
            <==> Dominates(r.states[rounds[0]], ChainAt(r, rounds[0], h))
  {
    hide IsRun, Within, CompleteRound, NoMiningFrom;
    SizedRun(o, r);
    var from := rounds[0];
    var chain := ChainAt(r, from, h);
    if Dominates(r.states[from], chain) {
      forall i | 0 <= i < |r.ids|
        ensures ChainAt(r, t, i) == chain
      {
        Convergence(o, r, rounds, d, i, chain, t);
      }
    } else {
      var i: nat :| i < |r.ids| && |r.states[from][i].chain| >= |chain| && r.states[from][i].chain != chain;
      LongestIsKept(o, r, from, t, i);
    }
  }
}
