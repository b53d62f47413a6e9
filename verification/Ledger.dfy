/** Transaction selection of `pttp::BlockChain` in bin/p2p.cc. */
module Ledger {
  import opened Common
  import opened ByteOrder

  datatype Credit = Credit(pub: Bytes, amount: int)

  datatype Transaction = Transaction(credits: seq<Credit>, witnesses: seq<Bytes>)

  /** Account balances by public key. Amounts are unbounded here; `BalanceBound` shows what 64 bits must hold. */
  type Balances = map<Bytes, int>

  function Get(bal: Balances, pub: Bytes): int { if pub in bal then bal[pub] else 0 }

  predicate Covered(c: Credit, bal: Balances) { c.amount < 0 ==> c.pub in bal && bal[c.pub] >= -c.amount }

  predicate UniqueKeys(credits: seq<Credit>) {
    forall i, j :: 0 <= i < j < |credits| ==> credits[i].pub != credits[j].pub
  }

  /** The validity test: every key once, and every debit covered by the balances before the transaction. */
  predicate Acceptable(credits: seq<Credit>, bal: Balances) {
    UniqueKeys(credits) && forall i :: 0 <= i < |credits| ==> Covered(credits[i], bal)
  }

  function Apply(credits: seq<Credit>, bal: Balances): Balances {
    if credits == [] then bal
    else
      var c, b := credits[|credits| - 1], Apply(credits[..|credits| - 1], bal);
      b[c.pub := Get(b, c.pub) + c.amount]
  }

  type Txs = map<Bytes, Transaction>

  predicate AllKnown(order: seq<Bytes>, txs: Txs) { forall i :: 0 <= i < |order| ==> order[i] in txs }

  /** The greedy rule over a list of transaction hashes: what is selected, and the balances it leads to. */
  function Greedy(order: seq<Bytes>, txs: Txs, bal: Balances): (seq<Bytes>, Balances)
    requires AllKnown(order, txs)
  {
    if order == [] then ([], bal)
    else
      var x := order[|order| - 1];
      var (sel, led) := Greedy(order[..|order| - 1], txs, bal);
      if Acceptable(txs[x].credits, led) then (sel + [x], Apply(txs[x].credits, led)) else (sel, led)
  }

  predicate Nonnegative(bal: Balances) { forall p :: p in bal ==> bal[p] >= 0 }

  /** What a list of credits adds to one account. */
  function CreditTo(credits: seq<Credit>, pub: Bytes): int {
    if credits == [] then 0
    else
      var c := credits[|credits| - 1];
      CreditTo(credits[..|credits| - 1], pub) + (if c.pub == pub then c.amount else 0)
  }

  function CreditedBy(sel: seq<Bytes>, txs: Txs, pub: Bytes): int
    requires AllKnown(sel, txs)
  {
    if sel == [] then 0
    else CreditedBy(sel[..|sel| - 1], txs, pub) + CreditTo(txs[sel[|sel| - 1]].credits, pub)
  }

  const INT32_MAX: int := 0x7FFF_FFFF

  predicate Amounts32(credits: seq<Credit>) {
    forall i :: 0 <= i < |credits| ==> -INT32_MAX - 1 <= credits[i].amount <= INT32_MAX
  }

  // ---------------------------------------------------------------------------
  // One transaction
  // ---------------------------------------------------------------------------

  lemma {:induction false} ApplyAdds(credits: seq<Credit>, bal: Balances, pub: Bytes)
    ensures Get(Apply(credits, bal), pub) == Get(bal, pub) + CreditTo(credits, pub)
  {
    if credits != [] {
      ApplyAdds(credits[..|credits| - 1], bal, pub);
    }
  }

  /** With unique keys an account gets the amount of its one credit, or nothing. */
  lemma {:induction false} CreditIsSingle(credits: seq<Credit>, pub: Bytes)
    requires UniqueKeys(credits)
    ensures (CreditTo(credits, pub) == 0 && forall i :: 0 <= i < |credits| ==> credits[i].pub != pub)
         || exists i :: 0 <= i < |credits| && credits[i].pub == pub && CreditTo(credits, pub) == credits[i].amount
  {
    if credits != [] {
      var k := |credits| - 1;
      var init := credits[..k];
      CreditIsSingle(init, pub);
      if i :| 0 <= i < |init| && init[i].pub == pub && CreditTo(init, pub) == init[i].amount {
        assert credits[i].pub == pub && credits[k].pub != pub;
        assert CreditTo(credits, pub) == credits[i].amount;
      } else if credits[k].pub == pub {
        assert CreditTo(credits, pub) == credits[k].amount;
      }
    }
  }

  lemma AcceptableKeepsNonnegative(credits: seq<Credit>, bal: Balances)
    requires Nonnegative(bal) && Acceptable(credits, bal)
    ensures Nonnegative(Apply(credits, bal))
  {
    forall p | p in Apply(credits, bal)
      ensures Apply(credits, bal)[p] >= 0
    {
      ApplyAdds(credits, bal, p);
      CreditIsSingle(credits, p);
      if i :| 0 <= i < |credits| && credits[i].pub == p && CreditTo(credits, p) == credits[i].amount {
        assert Covered(credits[i], bal);
      }
    }
  }

  lemma {:induction false} ApplyKeeps(credits: seq<Credit>, bal: Balances, p: Bytes)
    ensures p in Apply(credits, bal) <==> p in bal || exists i :: 0 <= i < |credits| && credits[i].pub == p
  {
    if credits != [] {
      var n := |credits| - 1;
      ApplyKeeps(credits[..n], bal, p);
      assert p == credits[n].pub || forall i :: 0 <= i < |credits| && credits[i].pub == p ==> credits[..n][i].pub == p;
    }
  }

  lemma CoveredAfter(credits: seq<Credit>, bal: Balances, i: nat)
    requires i < |credits| && UniqueKeys(credits) && Nonnegative(Apply(credits, bal))
    ensures Covered(credits[i], bal)
  {
    hide Apply;
    var p := credits[i].pub;
    ApplyKeeps(credits, bal, p);
    ApplyAdds(credits, bal, p);
    CreditIsSingle(credits, p);
    var k :| 0 <= k < |credits| && credits[k].pub == p && CreditTo(credits, p) == credits[k].amount;
    assert k == i;
  }

  lemma AcceptableBack(credits: seq<Credit>, bal: Balances)
    requires Nonnegative(bal) && UniqueKeys(credits) && Nonnegative(Apply(credits, bal))
    ensures Acceptable(credits, bal)
  {
    hide Covered, Apply;
    forall i | 0 <= i < |credits|
      ensures Covered(credits[i], bal)
    {
      CoveredAfter(credits, bal, i);
    }
  }

  lemma AcceptableInShort(credits: seq<Credit>, bal: Balances)
    requires Nonnegative(bal)
    ensures Acceptable(credits, bal) <==> UniqueKeys(credits) && Nonnegative(Apply(credits, bal))
  {
    hide Covered;
    if Acceptable(credits, bal) {
      AcceptableKeepsNonnegative(credits, bal);
    } else if UniqueKeys(credits) && Nonnegative(Apply(credits, bal)) {
      AcceptableBack(credits, bal);
    }
  }

  lemma SpelledOut(credits: seq<Credit>, bal: Balances)
    ensures UniqueKeys(credits) <==> forall i, j :: 0 <= i < j < |credits| ==> credits[i].pub != credits[j].pub
    ensures Nonnegative(bal) <==> forall p :: p in bal ==> bal[p] >= 0
  {
  }

  /** On nonnegative balances the validity test is exact: a transaction passes if and only if no account occurs
      in it twice and applying it overdraws none. In particular credits to new accounts pass. */
  lemma AcceptableIff(credits: seq<Credit>, bal: Balances)
    requires forall p :: p in bal ==> bal[p] >= 0
    ensures var after := Apply(credits, bal);
      Acceptable(credits, bal)
      <==> (forall i, j :: 0 <= i < j < |credits| ==> credits[i].pub != credits[j].pub)
           && (forall p :: p in after ==> after[p] >= 0)
  {
    hide *;
    SpelledOut(credits, bal);
    SpelledOut(credits, Apply(credits, bal));
    AcceptableInShort(credits, bal);
  }

  lemma CreditBound(credits: seq<Credit>, pub: Bytes)
    requires UniqueKeys(credits) && Amounts32(credits)
    ensures -INT32_MAX - 1 <= CreditTo(credits, pub) <= INT32_MAX
  {
    CreditIsSingle(credits, pub);
  }

  /** Checking each debit against the balances before the transaction is sound only because keys are
      unique: two debits of one account can each be covered and overdraw it together. */
  lemma UniquenessIsNeeded(pub: Bytes)
    ensures var credits := [Credit(pub, -1), Credit(pub, -1)]; var bal := map[pub := 1];
      && Nonnegative(bal)
      && (forall i :: 0 <= i < |credits| ==> Covered(credits[i], bal))
      && !Nonnegative(Apply(credits, bal))
  {
    var credits := [Credit(pub, -1), Credit(pub, -1)];
    assert credits[..1] == [Credit(pub, -1)] && credits[..1][..0] == [];
    assert Apply(credits[..1], map[pub := 1])[pub] == 0;
    assert Apply(credits, map[pub := 1])[pub] == -1;
  }

  // ---------------------------------------------------------------------------
  // The selection
  // ---------------------------------------------------------------------------

  lemma {:induction false} SelectedIsKnown(order: seq<Bytes>, txs: Txs, bal: Balances)
    requires AllKnown(order, txs)
    ensures AllKnown(Greedy(order, txs, bal).0, txs)
    ensures forall x :: x in Greedy(order, txs, bal).0 ==> x in order
  {
    if order != [] {
      SelectedIsKnown(order[..|order| - 1], txs, bal);
      assert order[|order| - 1] in order;
    }
  }

  /** No overdraft: balances that start nonnegative are nonnegative after any part of the mempool. */
  lemma {:induction false} NoOverdraft(order: seq<Bytes>, txs: Txs, bal: Balances)
    requires AllKnown(order, txs) && Nonnegative(bal)
    ensures Nonnegative(Greedy(order, txs, bal).1)
  {
    if order != [] {
      var x := order[|order| - 1];
      var led := Greedy(order[..|order| - 1], txs, bal).1;
      NoOverdraft(order[..|order| - 1], txs, bal);
      if Acceptable(txs[x].credits, led) {
        AcceptableKeepsNonnegative(txs[x].credits, led);
      }
    }
  }

  /** Every account ends with its initial balance plus exactly the selected credits. */
  lemma {:induction false} LedgerIsSum(order: seq<Bytes>, txs: Txs, bal: Balances, pub: Bytes)
    requires AllKnown(order, txs)
    ensures AllKnown(Greedy(order, txs, bal).0, txs)
    ensures Get(Greedy(order, txs, bal).1, pub) == Get(bal, pub) + CreditedBy(Greedy(order, txs, bal).0, txs, pub)
  {
    SelectedIsKnown(order, txs, bal);
    if order != [] {
      var x := order[|order| - 1];
      var (sel, led) := Greedy(order[..|order| - 1], txs, bal);
      LedgerIsSum(order[..|order| - 1], txs, bal, pub);
      if Acceptable(txs[x].credits, led) {
        ApplyAdds(txs[x].credits, led, pub);
        assert (sel + [x])[..|sel|] == sel;
      }
    }
  }

  /** With 32-bit amounts, `m` selected transactions raise no balance by more than m * (2^31 - 1). */
  lemma {:induction false} BalanceBound(order: seq<Bytes>, txs: Txs, bal: Balances, pub: Bytes)
    requires AllKnown(order, txs) && forall x :: x in order ==> Amounts32(txs[x].credits)
    ensures var (sel, led) := Greedy(order, txs, bal);
      Get(bal, pub) - |sel| * (INT32_MAX + 1) <= Get(led, pub) <= Get(bal, pub) + |sel| * INT32_MAX
  {
    if order != [] {
      var x := order[|order| - 1];
      var led := Greedy(order[..|order| - 1], txs, bal).1;
      BalanceBound(order[..|order| - 1], txs, bal, pub);
      if Acceptable(txs[x].credits, led) {
        assert x in order;
        ApplyAdds(txs[x].credits, led, pub);
        CreditBound(txs[x].credits, pub);
      }
    }
  }

  // ---------------------------------------------------------------------------
  // Replay
  // ---------------------------------------------------------------------------

  /** Running the rule over only what it selected selects all of it and reaches the same balances. */
  lemma {:induction false} SelectionReplays(order: seq<Bytes>, txs: Txs, bal: Balances)
    requires AllKnown(order, txs)
    ensures AllKnown(Greedy(order, txs, bal).0, txs)
    ensures Greedy(Greedy(order, txs, bal).0, txs, bal) == Greedy(order, txs, bal)
  {
    SelectedIsKnown(order, txs, bal);
    if order != [] {
      var x := order[|order| - 1];
      var (sel, led) := Greedy(order[..|order| - 1], txs, bal);
      SelectionReplays(order[..|order| - 1], txs, bal);
      assert (sel + [x])[..|sel|] == sel;
    }
  }

  lemma {:induction false} GreedyPrefix(order: seq<Bytes>, txs: Txs, bal: Balances, k: nat)
    requires k <= |order| && AllKnown(order, txs)
    ensures AllKnown(order[..k], txs)
    ensures Greedy(order[..k], txs, bal).0 <= Greedy(order, txs, bal).0
    decreases |order|
  {
    if k == |order| {
      assert order[..k] == order;
    } else {
      GreedyPrefix(order[..|order| - 1], txs, bal, k);
      assert order[..|order| - 1][..k] == order[..k];
    }
  }

  /** A transaction is selected exactly if it is acceptable at the prefix where it was considered. */
  lemma {:induction false} SelectedIffAcceptable(order: seq<Bytes>, txs: Txs, bal: Balances, k: nat)
    requires k < |order| && AllKnown(order, txs) && Distinct(order)
    ensures AllKnown(order[..k], txs)
    ensures order[k] in Greedy(order, txs, bal).0
            <==> Acceptable(txs[order[k]].credits, Greedy(order[..k], txs, bal).1)
    decreases |order|
  {
    var n := |order| - 1;
    var init := order[..n];
    SelectedIsKnown(init, txs, bal);
    if k < n {
      SelectedIffAcceptable(init, txs, bal, k);
      assert init[..k] == order[..k];
    } else {
      assert order[n] !in init;
    }
  }

  /** From nonnegative balances a transaction is selected if and only if no account occurs in it twice and it
      overdraws none of the balances at the prefix where it was considered. */
  lemma SelectedIffCovered(order: seq<Bytes>, txs: Txs, bal: Balances, k: nat)
    requires k < |order| && AllKnown(order, txs) && Distinct(order)
    requires forall p :: p in bal ==> bal[p] >= 0
    ensures AllKnown(order[..k], txs)
    ensures var credits := txs[order[k]].credits; var led := Greedy(order[..k], txs, bal).1;
      order[k] in Greedy(order, txs, bal).0
      <==> (forall i, j :: 0 <= i < j < |credits| ==> credits[i].pub != credits[j].pub)
           && (forall p :: Get(led, p) + CreditTo(credits, p) >= 0)
  {
    hide Greedy, Apply, Acceptable, CreditTo, UniqueKeys;
    var credits := txs[order[k]].credits;
    SelectedIffAcceptable(order, txs, bal, k);
    NoOverdraft(order[..k], txs, bal);
    var led := Greedy(order[..k], txs, bal).1;
    AcceptableInShort(credits, led);
    SpelledOut(credits, led);
    NonnegativeAfter(credits, led);
  }

  lemma NonnegativeAfter(credits: seq<Credit>, bal: Balances)
    ensures Nonnegative(Apply(credits, bal)) <==> forall p :: Get(bal, p) + CreditTo(credits, p) >= 0
  {
    hide Apply, CreditTo;
    var after := Apply(credits, bal);
    if Nonnegative(after) {
      forall p
        ensures Get(bal, p) + CreditTo(credits, p) >= 0
      {
        ApplyAdds(credits, bal, p);
        assert Get(after, p) >= 0;
      }
    } else {
      var p :| p in after && after[p] < 0;
      ApplyAdds(credits, bal, p);
      assert Get(bal, p) + CreditTo(credits, p) < 0;
    }
  }

  /** A payment to an account without a balance is selected. */
  lemma PaysNewAccount(x: Bytes, a: Bytes, b: Bytes)
    requires a != b
    ensures var txs: Txs := map[x := Transaction([Credit(a, -5), Credit(b, 5)], [])];
      Greedy([x], txs, map[a := 5]) == ([x], map[a := 0, b := 5])
  {
    var credits := [Credit(a, -5), Credit(b, 5)];
    var txs: Txs := map[x := Transaction(credits, [])];
    var bal := map[a := 5];
    GreedyOne(x, txs, bal);
    assert credits[..1] == [Credit(a, -5)] && credits[..1][..0] == [];
    assert Apply([], bal) == bal;
    assert Apply(credits[..1], bal) == map[a := 0];
    assert Apply(credits, bal) == map[a := 0, b := 5];
    assert Covered(credits[0], bal) && Covered(credits[1], bal);
  }

  lemma GreedyOne(x: Bytes, txs: Txs, bal: Balances)
    requires x in txs && AllKnown([x], txs)
    ensures Acceptable(txs[x].credits, bal) ==> Greedy([x], txs, bal) == ([x], Apply(txs[x].credits, bal))
  {
    var order := [x];
    assert order[..|order| - 1] == [];
    assert Greedy(order[..|order| - 1], txs, bal) == ([], bal);
    var none: seq<Bytes> := [];
    assert none + [x] == order;
  }

  /** After each selected transaction, in order, no account is overdrawn. */
  lemma NoOverdraftInAnyPrefix(order: seq<Bytes>, txs: Txs, bal: Balances, m: nat)
    requires AllKnown(order, txs) && Nonnegative(bal) && m <= |Greedy(order, txs, bal).0|
    ensures var sel := Greedy(order, txs, bal).0;
      && AllKnown(sel[..m], txs)
      && Greedy(sel[..m], txs, bal).0 == sel[..m]
      && Nonnegative(Greedy(sel[..m], txs, bal).1)
  {
    var sel := Greedy(order, txs, bal).0;
    SelectionReplays(order, txs, bal);
    ReplayPrefix(sel, txs, bal, m);
    NoOverdraft(sel[..m], txs, bal);
  }

  lemma {:induction false} SelectedLength(order: seq<Bytes>, txs: Txs, bal: Balances)
    requires AllKnown(order, txs)
    ensures |Greedy(order, txs, bal).0| <= |order|
  {
    if order != [] {
      SelectedLength(order[..|order| - 1], txs, bal);
    }
  }

  lemma {:induction false} ReplayPrefix(sel: seq<Bytes>, txs: Txs, bal: Balances, m: nat)
    requires AllKnown(sel, txs) && Greedy(sel, txs, bal).0 == sel && m <= |sel|
    ensures AllKnown(sel[..m], txs) && Greedy(sel[..m], txs, bal).0 == sel[..m]
    decreases |sel|
  {
    if m == |sel| {
      assert sel[..m] == sel;
    } else {
      var init := sel[..|sel| - 1];
      SelectedLength(init, txs, bal);
      assert Greedy(init, txs, bal).0 == init;
      ReplayPrefix(init, txs, bal, m);
      assert init[..m] == sel[..m];
    }
  }

  /** The selection over a mempool of transaction hashes, in the order of `std::set`. */
  function Select(mempool: set<Bytes>, txs: Txs, bal: Balances): (seq<Bytes>, Balances)
    requires mempool <= txs.Keys
  {
    EnumerateKnown(mempool, txs);
    Greedy(Enumerate(mempool), txs, bal)
  }

  lemma EnumerateKnown(mempool: set<Bytes>, txs: Txs)
    requires mempool <= txs.Keys
    ensures AllKnown(Enumerate(mempool), txs)
  {
    var e := Enumerate(mempool);
    forall i | 0 <= i < |e|
      ensures e[i] in txs
    {
      assert e[i] in e;
    }
  }

  lemma {:induction false} GreedyIgnoresOthers(order: seq<Bytes>, txs: Txs, txs': Txs, bal: Balances)
    requires AllKnown(order, txs) && AllKnown(order, txs')
    requires forall x :: x in order ==> txs[x] == txs'[x]
    ensures Greedy(order, txs, bal) == Greedy(order, txs', bal)
  {
    if order != [] {
      assert order[|order| - 1] in order;
      GreedyIgnoresOthers(order[..|order| - 1], txs, txs', bal);
    }
  }

  /** A new transaction whose hash sorts last leaves the earlier selection as a prefix, and is added
      exactly if it is acceptable after all of it. */
  lemma AddingLastExtends(mempool: set<Bytes>, txs: Txs, bal: Balances, x: Bytes, tx: Transaction)
    requires mempool <= txs.Keys && x !in txs && forall y :: y in mempool ==> Less(y, x)
    ensures mempool + {x} <= txs[x := tx].Keys
    ensures var (sel, led) := Select(mempool, txs, bal);
      Select(mempool + {x}, txs[x := tx], bal)
      == if Acceptable(tx.credits, led) then (sel + [x], Apply(tx.credits, led)) else (sel, led)
  {
    hide Less, Acceptable, Apply, Greedy, Enumerate;
    var e := Enumerate(mempool);
    EnumerateLast(mempool, x);
    EnumerateKnown(mempool, txs);
    EnumerateKnown(mempool + {x}, txs[x := tx]);
    EnumerateKnown(mempool, txs[x := tx]);
    GreedyIgnoresOthers(e, txs, txs[x := tx], bal);
    GreedySnoc(e, x, txs[x := tx], bal);
  }

  lemma GreedySnoc(order: seq<Bytes>, x: Bytes, txs: Txs, bal: Balances)
    requires AllKnown(order, txs) && AllKnown(order + [x], txs) && x in txs
    ensures var (sel, led) := Greedy(order, txs, bal);
      Greedy(order + [x], txs, bal)
      == if Acceptable(txs[x].credits, led) then (sel + [x], Apply(txs[x].credits, led)) else (sel, led)
  {
    hide Acceptable, Apply;
    assert (order + [x])[..|order|] == order;
  }
}
