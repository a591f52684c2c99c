/** Runs of two nodes in which the properties that do not hold of every run fail. */
module NetworkExamples {
  import opened Basics
  import opened Blockchain
  import opened Network
  import opened Conservation

  /** A hash that tells the timestamps of these runs apart; every proof is valid, so the least is 0. */
  function Easy(): Oracle {
    Oracle((b: Block) => seq(if b.timestamp < 0 then 0 else b.timestamp, _ => 'h'),
           (last: int, proof: int, hash: string) => true)
  }

  function Now(r: Run): World
    requires |r.states| > 0
  {
    r.states[|r.states| - 1]
  }

  function Then(r: Run, e: Event, n: Node<nat>): Run
    requires |r.states| > 0 && e.i < |Now(r)|
  {
    Run(r.ids, r.states + [Now(r)[e.i := n]], r.events + [e])
  }

  /** Two nodes, each with a genesis block of its own. */
  function Pair(): Run {
    Run(["a", "b"], [[Node([], [Genesis(0)], {}), Node([], [Genesis(1)], {})]], [])
  }

  lemma PairIsRun()
    ensures IsRun(Easy(), Pair()) && |Pair().ids| == 2
  {
    var world := Pair().states[0];
    assert world[0] == Node([], [Genesis(0)], {}) && world[1] == Node([], [Genesis(1)], {});
  }

  lemma RegisterNext(r: Run, i: nat, peer: nat) returns (r': Run)
    requires IsRun(Easy(), r) && i < |r.ids| && peer < |r.ids|
    ensures r' == Then(r, Register(i, peer), Now(r)[i].(nodes := Now(r)[i].nodes + {peer})) && IsRun(Easy(), r')
  {
    RunsContinue(Easy(), r, Register(i, peer));
    r' := Continued(Easy(), r, Register(i, peer));
  }

  lemma MineNext(r: Run, i: nat, timestamp: int) returns (r': Run)
    requires IsRun(Easy(), r) && i < |r.ids|
    ensures Now(r)[i].chain != []
    ensures r' == Then(r, Mine(i, 0, timestamp), Mined(Easy(), Now(r)[i], r.ids[i], 0, timestamp)) && IsRun(Easy(), r')
  {
    Safety(Easy(), r, |r.events|, i);
    assert ChainAt(r, |r.events|, i) == Now(r)[i].chain;
    RunsContinue(Easy(), r, Mine(i, 0, timestamp));
    r' := Continued(Easy(), r, Mine(i, 0, timestamp));
  }

  /** Node i, which knows the other node alone, hears of its present chain. */
  lemma ResolveNext(r: Run, i: nat, peer: nat) returns (r': Run)
    requires IsRun(Easy(), r) && i < |r.ids| && peer < |r.ids| && Now(r)[i].nodes == {peer}
    ensures
      var chain := Now(r)[peer].chain;
      r' == Then(r, Resolve(i, [Poll(peer, |r.events|)]), Adopted(Easy(), Now(r)[i], [Full(|chain|, chain)]))
    ensures IsRun(Easy(), r')
  {
    hide Adopted;
    var polls := [Poll(peer, |r.events|)];
    assert polls[0].peer == peer;
    assert Possible(Easy(), r, |r.events|, Resolve(i, polls));
    var chain := Now(r)[peer].chain;
    assert Answers(r, |r.events|, polls) == [Full(|chain|, chain)];
    RunsContinue(Easy(), r, Resolve(i, polls));
    r' := Continued(Easy(), r, Resolve(i, polls));
  }

  /** Each node mines one block and then hears of the other's: a complete round, and still two chains. */
  lemma TieIsNeverResolved() returns (r: Run)
    ensures IsRun(Easy(), r) && |r.ids| == 2 && |r.events| == 6
    ensures r.states[4][0].nodes == {1} && r.states[4][1].nodes == {0}
    ensures CompleteRound(r, 4, 6) && NoMiningFrom(r, 4)
    ensures ChainAt(r, 6, 0) != ChainAt(r, 6, 1)
  {
    hide IsRun, Adopted;
    PairIsRun();
    r := Pair();
    r := RegisterNext(r, 0, 1);
    r := RegisterNext(r, 1, 0);
    r := MineNext(r, 0, 2);
    r := MineNext(r, 1, 3);
    ghost var r4 := r;
    r := ResolveNext(r, 0, 1);
    r := ResolveNext(r, 1, 0);
    SizedRun(Easy(), r);
    assert FreshResolve(r, 0, 4, 4) && FreshResolve(r, 1, 5, 4);
    assert ResolvesWithin(r, 0, 4, 6) && ResolvesWithin(r, 1, 4, 6);
    assert r.states[4] == r4.states[4];
    assert ChainAt(r, 4, 0)[0] == Genesis(0) && ChainAt(r, 4, 1)[0] == Genesis(1);
    assert AtMost(r.states[4], 2);
    LongestIsKept(Easy(), r, 4, 6, 0);
    LongestIsKept(Easy(), r, 4, 6, 1);
  }

  lemma AdoptsTheOnly(o: Oracle, n: Node<nat>, chain: Chain)
    requires ValidChain(o, chain) && |chain| > |n.chain|
    ensures Adopted(o, n, [Full(|chain|, chain)]) == n.(chain := chain)
  {
    var one := [Full(|chain|, chain)];
    assert one[..0] == [];
    assert BestOf(o, Best(|n.chain|, None), one[..0]) == Best(|n.chain|, None);
  }

  lemma NewLedger(timestamp: int, nodes: set<nat>)
    ensures Ledger(Node([], [Genesis(timestamp)], nodes)) == []
  {
    var chain := [Genesis(timestamp)];
    assert chain[..0] == [] && TransactionsOf(chain) == TransactionsOf(chain[..0]) + [];
  }

  lemma SubmittedStep(r: Run, t: nat, i: nat)
    requires t < |r.events| && i < |r.ids|
    ensures Submitted(r, t + 1, i)
            == Submitted(r, t, i) + if r.events[t].Mine? && r.events[t].i == i then [Reward(r.ids[i])]
                                    else if r.events[t].Transact? && r.events[t].i == i then [r.events[t].t]
                                    else []
  {
  }

  lemma SubmittedOnce(r: Run)
    requires |r.events| == 5 && |r.ids| == 2 && r.events[0].Register? && r.events[1].Mine? && r.events[1].i == 0
    requires r.events[2].Mine? && r.events[2].i == 1 && r.events[3].Mine? && r.events[3].i == 1 && r.events[4].Resolve?
    ensures Submitted(r, 5, 0) == [Reward(r.ids[0])]
  {
    hide Submitted;
    SubmittedStep(r, 0, 0);
    SubmittedStep(r, 1, 0);
    SubmittedStep(r, 2, 0);
    SubmittedStep(r, 3, 0);
    SubmittedStep(r, 4, 0);
    NothingSubmitted(r);
  }

  lemma NothingSubmitted(r: Run)
    requires |r.ids| > 0
    ensures Submitted(r, 0, 0) == []
  {
  }

  /**
    * A node mines a block and then adopts its peer's longer chain: the reward it was given is neither in its blocks
    * nor pending.
    */
  lemma AdoptionLosesReward() returns (r: Run)
    ensures IsRun(Easy(), r) && |r.ids| == 2 && |r.events| == 5
    ensures Submitted(r, 5, 0) == [Reward("a")] && Ledger(r.states[4][0]) == [Reward("a")]
    ensures Ledger(r.states[5][0]) == [Reward("b"), Reward("b")] && !ConservedUpTo(r, 5, 0)
    ensures NoCollision(Easy(), EverHeld(r), EverHeld(r)) && NeverOne(Easy(), EverHeld(r))
  {
    hide IsRun, Adopted, Mined, Submitted;
    PairIsRun();
    r := Pair();
    r := RegisterNext(r, 0, 1);
    ghost var a0, b0 := Now(r)[0], Now(r)[1];
    r := MineNext(r, 0, 2);
    r := MineNext(r, 1, 3);
    ghost var b1 := Now(r)[1];
    r := MineNext(r, 1, 4);
    ghost var a1, b2 := Now(r)[0], Now(r)[1];
    NewLedger(0, {1});
    NewLedger(1, {});
    MinedTwice(a0, b0, b1);
    Safety(Easy(), r, 4, 1);
    assert ChainAt(r, 4, 1) == b2.chain;
    AdoptsTheOnly(Easy(), a1, b2.chain);
    r := ResolveNext(r, 0, 1);
    SizedRun(Easy(), r);
    SubmittedOnce(r);
    SwappedLedger(a1, b2);
    MinedChain(a0, "a", 2);
    MinedChain(b0, "b", 3);
    MinedChain(b1, "b", 4);
    HashesApart(r, a1.chain, b2.chain);
    assert [Reward("b"), Reward("b")] != [Reward("a")];
  }

  lemma MinedTwice(a0: Node<nat>, b0: Node<nat>, b1: Node<nat>)
    requires |a0.chain| == 1 && |b0.chain| == 1 && Ledger(a0) == [] && Ledger(b0) == []
    requires b1 == Mined(Easy(), b0, "b", 0, 3)
    ensures
      var a1 := Mined(Easy(), a0, "a", 0, 2);
      |a1.chain| == 2 && a1.pending == [] && a1.nodes == a0.nodes && Ledger(a1) == [Reward("a")]
    ensures
      var b2 := Mined(Easy(), b1, "b", 0, 4);
      |b2.chain| == 3 && b2.pending == [] && Ledger(b2) == [Reward("b"), Reward("b")]
  {
    hide Ledger;
    MinedLedger(Easy(), a0, "a", 0, 2);
    MinedLedger(Easy(), b0, "b", 0, 3);
    MinedLedger(Easy(), b1, "b", 0, 4);
  }

  lemma MinedChain(n: Node<nat>, id: string, timestamp: int)
    requires n.chain != []
    ensures
      var chain := Mined(Easy(), n, id, 0, timestamp).chain;
      |chain| == |n.chain| + 1 && n.chain == chain[..|n.chain|] && chain[|n.chain|].timestamp == timestamp
  {
  }

  /** Only five blocks are ever held, each with a timestamp of its own. */
  lemma HashesApart(r: Run, a: Chain, b: Chain)
    requires Sized(r) && |r.ids| == 2
    requires |a| == 2 && a[0].timestamp == 0 && a[1].timestamp == 2
    requires |b| == 3 && b[0].timestamp == 1 && b[1].timestamp == 3 && b[2].timestamp == 4
    requires forall t, i :: 0 <= t < |r.states| && 0 <= i < 2 ==> ChainAt(r, t, i) <= a || ChainAt(r, t, i) <= b
    ensures NoCollision(Easy(), EverHeld(r), EverHeld(r)) && NeverOne(Easy(), EverHeld(r))
  {
    hide Easy, EverHeld;
    forall x | x in EverHeld(r)
      ensures x in Five(a, b) && |Easy().hash(x)| == x.timestamp && Easy().hash(x) != "1"
    {
      HeldIsOneOfFive(r, a, b, x);
      HashOf(x);
    }
  }

  function Five(a: Chain, b: Chain): set<Block>
    requires |a| == 2 && |b| == 3
  {
    {a[0], a[1], b[0], b[1], b[2]}
  }

  lemma HashOf(x: Block)
    requires x.timestamp >= 0
    ensures |Easy().hash(x)| == x.timestamp && Easy().hash(x) != "1"
  {
    assert x.timestamp > 0 ==> Easy().hash(x)[0] == 'h';
  }

  lemma HeldIsOneOfFive(r: Run, a: Chain, b: Chain, x: Block)
    requires Sized(r) && |r.ids| == 2 && |a| == 2 && |b| == 3 && x in EverHeld(r)
    requires forall t, i :: 0 <= t < |r.states| && 0 <= i < 2 ==> ChainAt(r, t, i) <= a || ChainAt(r, t, i) <= b
    ensures x in Five(a, b)
  {
    var t: nat, i: nat, k: nat :| t < |r.states| && i < |r.ids| && k < |ChainAt(r, t, i)| && ChainAt(r, t, i)[k] == x;
    var c := ChainAt(r, t, i);
    if c <= a {
      assert x == a[k];
    } else {
      assert x == b[k];
    }
  }

  lemma SwappedLedger(a: Node<nat>, b: Node<nat>)
    requires a.pending == [] && b.pending == []
    ensures Ledger(a.(chain := b.chain)) == Ledger(b)
  {
  }
}
