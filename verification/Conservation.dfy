/** What becomes of the transactions that a node is given, over whole runs. */
module Conservation {
  import opened Basics
  import opened Blockchain
  import opened Network

  // ---------- Ledgers ----------

  function TransactionsOf(chain: Chain): seq<Transaction>
    decreases |chain|
  {
    if chain == [] then [] else TransactionsOf(chain[..|chain| - 1]) + chain[|chain| - 1].transactions
  }

  /** Those in the blocks and then those that wait for one. */
  function Ledger(n: Node<nat>): seq<Transaction> {
    TransactionsOf(n.chain) + n.pending
  }

  /** What node i was given (and rewarded) by the first t events, in order. */
  function Submitted(r: Run, t: nat, i: nat): seq<Transaction>
    requires t <= |r.events| && i < |r.ids|
    decreases t
  {
    if t == 0 then []
    else
      Submitted(r, t - 1, i)
      + match r.events[t - 1]
        case Transact(j, transaction) => if j == i then [transaction] else []
        case Mine(j, _, _) => if j == i then [Reward(r.ids[i])] else []
        case _ => []
  }

  lemma MinedLedger(o: Oracle, n: Node<nat>, id: string, proof: int, timestamp: int)
    requires n.chain != []
    ensures Ledger(Mined(o, n, id, proof, timestamp)) == Ledger(n) + [Reward(id)]
  {
    var n' := Mined(o, n, id, proof, timestamp);
    assert n'.chain[..|n'.chain| - 1] == n.chain;
  }

  lemma TransactedLedger(n: Node<nat>, t: Transaction)
    ensures Ledger(Transacted(n, t)) == Ledger(n) + [t]
  {
  }

  /** A step adds to a node's ledger what it submits, unless the node adopts a chain with other transactions. */
  lemma LedgerStep(o: Oracle, r: Run, t: nat, i: nat)
    requires IsRun(o, r) && t < |r.events| && i < |r.ids|
    ensures
      var before, after := r.states[t][i], r.states[t + 1][i];
      if ResolvesAt(r, t, i) then
        after.pending == before.pending && Submitted(r, t + 1, i) == Submitted(r, t, i)
      else exists added ::
        Submitted(r, t + 1, i) == Submitted(r, t, i) + added && Ledger(after) == Ledger(before) + added
  {
    hide IsLeastProof, Ledger, Polled, Starting, Mined, Transacted;
    assert Allowed(o, r, t) && r.states[t + 1] == r.states[t][r.events[t].i := After(o, r, t)];
    var e := r.events[t];
    var n := r.states[t][i];
    var none: seq<Transaction> := [];
    assert Submitted(r, t, i) + none == Submitted(r, t, i) && Ledger(n) + none == Ledger(n);
    if e.i == i {
      match e {
        case Mine(_, proof, timestamp) => MinedLedger(o, n, r.ids[i], proof, timestamp);
        case Transact(_, transaction) => TransactedLedger(n, transaction);
        case Register(_, peer) => SameLedger(n, n.(nodes := n.nodes + {peer}));
        case Resolve(_, polls) =>
      }
    }
  }

  lemma SameLedger(n: Node<nat>, n': Node<nat>)
    requires n.chain == n'.chain && n.pending == n'.pending
    ensures Ledger(n) == Ledger(n')
  {
  }

  /** Up to state t, every chain that node i adopted has the transactions of the chain it replaced. */
  ghost predicate AdoptionsKeepTransactions(r: Run, t: nat, i: nat)
    requires Sized(r) && t < |r.states| && i < |r.ids|
  {
    forall s :: 0 <= s < t && ResolvesAt(r, s, i) ==>
      TransactionsOf(ChainAt(r, s + 1, i)) == TransactionsOf(ChainAt(r, s, i))
  }

  ghost predicate ConservedUpTo(r: Run, t: nat, i: nat)
    requires Sized(r) && t < |r.states| && i < |r.ids|
  {
    forall s :: 0 <= s <= t ==> Ledger(r.states[s][i]) == Submitted(r, s, i)
  }

  lemma CancelPending(before: Node<nat>, after: Node<nat>)
    requires after.pending == before.pending
    ensures Ledger(after) == Ledger(before) <==> TransactionsOf(after.chain) == TransactionsOf(before.chain)
  {
    hide TransactionsOf;
    var a, b := TransactionsOf(after.chain), TransactionsOf(before.chain);
    if Ledger(after) == Ledger(before) {
      assert a == Ledger(after)[..|a|] && b == Ledger(before)[..|b|];
    }
  }

  /** In terms of the chains before and after each resolve. */
  lemma {:induction false} ConservedIffAdoptionsKeep(o: Oracle, r: Run, t: nat, i: nat)
    requires IsRun(o, r) && t < |r.states| && i < |r.ids|
    ensures ConservedUpTo(r, t, i) <==> AdoptionsKeepTransactions(r, t, i)
    decreases t
  {
    hide IsRun, Ledger, TransactionsOf;
    SizedRun(o, r);
    if t == 0 {
      StartingLedger(o, r, i);
    } else {
      ConservedIffAdoptionsKeep(o, r, t - 1, i);
      ConservedSnoc(r, t, i);
      AdoptionsSnoc(r, t, i);
      LedgerStep(o, r, t - 1, i);
      if ResolvesAt(r, t - 1, i) {
        CancelPending(r.states[t - 1][i], r.states[t][i]);
      }
    }
  }

  lemma StartingLedger(o: Oracle, r: Run, i: nat)
    requires IsRun(o, r) && i < |r.ids|
    ensures Ledger(r.states[0][i]) == []
  {
    var n := r.states[0][i];
    var time :| n == Node([], [Genesis(time)], {});
    assert n.chain[..0] == [] && n.chain[0].transactions == [];
    assert TransactionsOf(n.chain) == [] + [];
  }

  lemma ConservedSnoc(r: Run, t: nat, i: nat)
    requires Sized(r) && 0 < t < |r.states| && i < |r.ids|
    ensures ConservedUpTo(r, t, i) <==> ConservedUpTo(r, t - 1, i) && Ledger(r.states[t][i]) == Submitted(r, t, i)
  {
    hide Ledger, Submitted;
  }

  lemma AdoptionsSnoc(r: Run, t: nat, i: nat)
    requires Sized(r) && 0 < t < |r.states| && i < |r.ids|
    ensures AdoptionsKeepTransactions(r, t, i)
            <==> AdoptionsKeepTransactions(r, t - 1, i)
                 && (ResolvesAt(r, t - 1, i) ==>
                       TransactionsOf(ChainAt(r, t, i)) == TransactionsOf(ChainAt(r, t - 1, i)))
  {
    hide TransactionsOf;
  }

  // ---------- What a node hears ----------

  /**
    * Before it resolves: no answer is valid and longer than the node's chain; or the first of the longest such
    * answers carries the same transactions.
    */
  ghost predicate HearsSameTransactions(o: Oracle, own: Chain, answers: seq<Response>) {
    || NoneBetter(o, answers, |own|)
    || exists k: nat ::
         FirstLongest(o, |own|, answers, k) && TransactionsOf(answers[k].chain) == TransactionsOf(own)
  }

  ghost predicate AlwaysHearsSameTransactions(o: Oracle, r: Run, t: nat, i: nat)
    requires Sized(r) && t < |r.states| && i < |r.ids|
  {
    forall s :: 0 <= s < t && ResolvesAt(r, s, i) ==>
      && PollsExist(r, s, r.events[s].polls)
      && HearsSameTransactions(o, ChainAt(r, s, i), Answers(r, s, r.events[s].polls))
  }

  lemma AdoptedTransactions(o: Oracle, n: Node<nat>, answers: seq<Response>)
    ensures TransactionsOf(Adopted(o, n, answers).chain) == TransactionsOf(n.chain)
            <==> HearsSameTransactions(o, n.chain, answers)
  {
    hide TransactionsOf, NoneBetter;
    var k := BestIsTheFirstLongest(o, |n.chain|, answers);
    var best := BestOf(o, Best(|n.chain|, None), answers);
    if best.newChain.Some? {
      LongerIsBetter(o, |n.chain|, answers, k);
      forall j: nat | FirstLongest(o, |n.chain|, answers, j)
        ensures j == k
      {
        FirstLongestIsOne(o, |n.chain|, answers, j, k);
      }
    }
  }

  lemma LongerIsBetter(o: Oracle, length: int, answers: seq<Response>, k: nat)
    requires FirstLongest(o, length, answers, k)
    ensures !NoneBetter(o, answers, length)
  {
  }

  lemma ResolvedNode(o: Oracle, r: Run, s: nat, i: nat)
    requires IsRun(o, r) && s < |r.events| && i < |r.ids| && ResolvesAt(r, s, i)
    ensures PollsExist(r, s, r.events[s].polls)
    ensures r.states[s + 1][i] == Adopted(o, r.states[s][i], Answers(r, s, r.events[s].polls))
  {
    hide Polled, Adopted, Starting, Answers;
    assert Allowed(o, r, s) && r.states[s + 1] == r.states[s][r.events[s].i := After(o, r, s)];
  }

  /**
    * The transactions in a node's blocks, followed by its pending ones, are those it was given, in order, if and
    * only if whenever it resolves it hears of no longer valid chain, or first of one with its own transactions.
    */
  lemma ConservationIff(o: Oracle, r: Run, t: nat, i: nat)
    requires IsRun(o, r) && t < |r.states| && i < |r.ids|
    ensures ConservedUpTo(r, t, i) <==> AlwaysHearsSameTransactions(o, r, t, i)
  {
    hide IsRun, ConservedUpTo, TransactionsOf, HearsSameTransactions, Answers, ResolvesAt;
    SizedRun(o, r);
    ConservedIffAdoptionsKeep(o, r, t, i);
    forall s | 0 <= s < t && ResolvesAt(r, s, i)
      ensures KeepsWhatItHears(o, r, s, i)
    {
      ResolveKeepsWhatItHears(o, r, s, i);
    }
  }

  ghost predicate KeepsWhatItHears(o: Oracle, r: Run, s: nat, i: nat)
    requires Sized(r) && s < |r.events| && i < |r.ids| && ResolvesAt(r, s, i)
  {
    && PollsExist(r, s, r.events[s].polls)
    && (TransactionsOf(ChainAt(r, s + 1, i)) == TransactionsOf(ChainAt(r, s, i))
        <==> HearsSameTransactions(o, ChainAt(r, s, i), Answers(r, s, r.events[s].polls)))
  }

  lemma ResolveKeepsWhatItHears(o: Oracle, r: Run, s: nat, i: nat)
    requires IsRun(o, r) && s < |r.events| && i < |r.ids| && ResolvesAt(r, s, i)
    ensures KeepsWhatItHears(o, r, s, i)
  {
    hide IsRun, TransactionsOf, HearsSameTransactions, Answers, Adopted;
    SizedRun(o, r);
    ResolvedNode(o, r, s, i);
    AdoptedTransactions(o, r.states[s][i], Answers(r, s, r.events[s].polls));
  }

  // ---------- Rewards ----------

  /** Transactions from sender "0", as the reward of each block is. */
  function Rewards(ts: seq<Transaction>): nat
    decreases |ts|
  {
    if ts == [] then 0 else Rewards(ts[..|ts| - 1]) + if ts[|ts| - 1].sender == "0" then 1 else 0
  }

  lemma {:induction false} RewardsConcat(a: seq<Transaction>, b: seq<Transaction>)
    ensures Rewards(a + b) == Rewards(a) + Rewards(b)
    decreases |b|
  {
    if b == [] {
      assert a + b == a;
    } else {
      assert (a + b)[..|a + b| - 1] == a + b[..|b| - 1];
      RewardsConcat(a, b[..|b| - 1]);
    }
  }

  /** Before state t nobody submits a transaction from sender "0". */
  predicate NoForgedRewards(r: Run, t: nat)
    requires t <= |r.events|
  {
    forall s :: 0 <= s < t && r.events[s].Transact? ==> r.events[s].t.sender != "0"
  }

  /** One reward for every block after the first, none pending. */
  predicate OneRewardEach(n: Node<nat>) {
    n.chain != [] && Rewards(TransactionsOf(n.chain)) == |n.chain| - 1 && Rewards(n.pending) == 0
  }

  ghost predicate OneRewardEachUpTo(r: Run, t: nat)
    requires Sized(r) && t < |r.states|
  {
    forall s, i :: 0 <= s <= t && 0 <= i < |r.ids| ==> OneRewardEach(r.states[s][i])
  }

  lemma MinedRewards(o: Oracle, n: Node<nat>, id: string, proof: int, timestamp: int)
    requires OneRewardEach(n)
    ensures OneRewardEach(Mined(o, n, id, proof, timestamp))
  {
    var n' := Mined(o, n, id, proof, timestamp);
    assert n'.chain[..|n'.chain| - 1] == n.chain;
    var reward := [Reward(id)];
    RewardsConcat(n.pending, reward);
    RewardsConcat(TransactionsOf(n.chain), n.pending + reward);
    assert reward[..0] == [];
  }

  lemma TransactedRewards(n: Node<nat>, t: Transaction)
    requires OneRewardEach(n) && t.sender != "0"
    ensures OneRewardEach(Transacted(n, t))
  {
    RewardsConcat(n.pending, [t]);
    assert [t][..0] == [];
  }

  lemma RewardsStep(o: Oracle, r: Run, t: nat, i: nat)
    requires IsRun(o, r) && t < |r.events| && i < |r.ids|
    requires OneRewardEachUpTo(r, t) && NoForgedRewards(r, t + 1)
    ensures OneRewardEach(r.states[t + 1][i])
  {
    hide IsLeastProof, Polled, Starting, Mined, Transacted, TransactionsOf, Rewards, Follows, Rewarded;
    assert Allowed(o, r, t) && r.states[t + 1] == r.states[t][r.events[t].i := After(o, r, t)];
    var e := r.events[t];
    var n := r.states[t][i];
    assert OneRewardEach(n);
    if e.i == i {
      match e {
        case Mine(_, proof, timestamp) => MinedRewards(o, n, r.ids[i], proof, timestamp);
        case Transact(_, transaction) => TransactedRewards(n, transaction);
        case Register(_, _) =>
        case Resolve(_, polls) =>
          var k := BestIsTheFirstLongest(o, |n.chain|, Answers(r, t, polls));
          if Adopted(o, n, Answers(r, t, polls)) != n {
            assert OneRewardEach(r.states[polls[k].at][polls[k].peer]);
          }
      }
    }
  }

  lemma {:induction false} RewardsAreCounted(o: Oracle, r: Run, t: nat)
    requires IsRun(o, r) && t < |r.states| && NoForgedRewards(r, t)
    ensures OneRewardEachUpTo(r, t)
    decreases t
  {
    hide IsRun, OneRewardEach;
    SizedRun(o, r);
    if t == 0 {
      StartingRewards(o, r);
    } else {
      RewardsAreCounted(o, r, t - 1);
      forall i | 0 <= i < |r.ids|
        ensures OneRewardEach(r.states[t][i])
      {
        RewardsStep(o, r, t - 1, i);
      }
    }
  }

  lemma StartingRewards(o: Oracle, r: Run)
    requires IsRun(o, r)
    ensures OneRewardEachUpTo(r, 0)
  {
    forall i | 0 <= i < |r.ids|
      ensures OneRewardEach(r.states[0][i])
    {
      StartingLedger(o, r, i);
      var time :| r.states[0][i] == Node([], [Genesis(time)], {});
      assert TransactionsOf(r.states[0][i].chain) + [] == TransactionsOf(r.states[0][i].chain);
    }
  }

  ghost predicate NeverHearsLonger(o: Oracle, r: Run, t: nat, i: nat)
    requires Sized(r) && t < |r.states| && i < |r.ids|
  {
    forall s :: 0 <= s < t && ResolvesAt(r, s, i) ==>
      && PollsExist(r, s, r.events[s].polls)
      && NoneBetter(o, Answers(r, s, r.events[s].polls), |ChainAt(r, s, i)|)
  }

  /** A longer chain that a peer has held has more rewards, so other transactions. */
  lemma LongerHasOtherTransactions(o: Oracle, r: Run, s: nat, i: nat)
    requires Sized(r) && s < |r.events| && i < |r.ids| && ResolvesAt(r, s, i)
    requires PollsExist(r, s, r.events[s].polls) && OneRewardEachUpTo(r, s)
    ensures
      var answers := Answers(r, s, r.events[s].polls);
      HearsSameTransactions(o, ChainAt(r, s, i), answers) <==> NoneBetter(o, answers, |ChainAt(r, s, i)|)
  {
    hide TransactionsOf, Rewards, NoneBetter;
    var polls := r.events[s].polls;
    var answers := Answers(r, s, polls);
    var own := ChainAt(r, s, i);
    forall k: nat | FirstLongest(o, |own|, answers, k)
      ensures TransactionsOf(answers[k].chain) != TransactionsOf(own)
    {
      assert OneRewardEach(r.states[polls[k].at][polls[k].peer]) && OneRewardEach(r.states[s][i]);
    }
  }

  /**
    * While nobody forges a reward, a node's transactions are conserved if and only if it never resolves when a
    * polled peer's chain is valid and longer than its own: such a chain never has the same transactions.
    */
  lemma ConservationIffNothingLonger(o: Oracle, r: Run, t: nat, i: nat)
    requires IsRun(o, r) && t < |r.states| && i < |r.ids| && NoForgedRewards(r, t)
    ensures ConservedUpTo(r, t, i) <==> NeverHearsLonger(o, r, t, i)
  {
    hide IsRun, ConservedUpTo, HearsSameTransactions, Answers, OneRewardEach, NoneBetter;
    SizedRun(o, r);
    ConservationIff(o, r, t, i);
    RewardsAreCounted(o, r, t);
    forall s | 0 <= s < t && ResolvesAt(r, s, i) && PollsExist(r, s, r.events[s].polls)
      ensures
        var answers := Answers(r, s, r.events[s].polls);
        HearsSameTransactions(o, ChainAt(r, s, i), answers) <==> NoneBetter(o, answers, |ChainAt(r, s, i)|)
    {
      LongerHasOtherTransactions(o, r, s, i);
    }
  }
}
