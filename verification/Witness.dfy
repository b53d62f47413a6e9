/** Witnesses of transactions: src/process.cc and the `pttp::Transaction` constructor of bin/p2p.cc.

    Signatures and Cap'n Proto are outside this model: `verify`, `sign`, `encode` and `decode` are
    parameters, and a message that cannot be read is `None`. */
module Witness {
  import opened Common
  import opened Ledger

  /** A transaction on the wire: the serialised credit set and the data of its witnesses. */
  datatype WireTx = WireTx(creditSet: Bytes, signatures: seq<Bytes>)

  datatype KeyPair = KeyPair(priv: Bytes, pub: Bytes)

  type Verify = (Bytes, Bytes, Bytes) -> bool

  type Sign = (Bytes, Bytes) -> Bytes

  type Encoder = seq<Credit> -> Bytes

  type Decoder = Bytes -> Option<seq<Credit>>

  /** The 64-bit amount of a credit stored in an `int`. */
  function ToInt32(x: int): int { (x + 0x8000_0000) % 0x1_0000_0000 - 0x8000_0000 }

  predicate IsInt32(x: int) { -0x8000_0000 <= x <= 0x7FFF_FFFF }

  lemma Int32Fixed(x: int)
    requires IsInt32(x)
    ensures ToInt32(x) == x
  {
  }

  function Truncated(credits: seq<Credit>): (r: seq<Credit>)
    ensures |r| == |credits|
  {
    seq(|credits|, i requires 0 <= i < |credits| => Credit(credits[i].pub, ToInt32(credits[i].amount)))
  }

  /** The number of debits, and so the rank of the next one. */
  function Debits(credits: seq<Credit>): (n: nat)
    ensures n <= |credits|
  {
    if credits == [] then 0
    else Debits(credits[..|credits| - 1]) + (if credits[|credits| - 1].amount < 0 then 1 else 0)
  }

  function Rank(credits: seq<Credit>, i: nat): (r: nat)
    requires i < |credits|
    ensures r <= i
  {
    Debits(credits[..i])
  }

  /** Debit `i` has a witness at its rank, and the witness verifies over the credit data. */
  predicate Witnessed(verify: Verify, data: Bytes, credits: seq<Credit>, signatures: seq<Bytes>, i: nat)
    requires i < |credits|
  {
    Rank(credits, i) < |signatures| && verify(signatures[Rank(credits, i)], data, credits[i].pub)
  }

  predicate AllWitnessed(verify: Verify, data: Bytes, credits: seq<Credit>, signatures: seq<Bytes>) {
    forall i :: 0 <= i < |credits| && credits[i].amount < 0 ==> Witnessed(verify, data, credits, signatures, i)
  }

  function DebitsBefore(credits: seq<Credit>, n: nat): set<nat>
    requires n <= |credits|
  {
    set k: nat | 0 <= k < n && credits[k].amount < 0
  }

  lemma {:induction false} DebitsCounted(credits: seq<Credit>)
    ensures Debits(credits) == |set k: nat | 0 <= k < |credits| && credits[k].amount < 0|
  {
    if credits != [] {
      var n := |credits| - 1;
      DebitsCounted(credits[..n]);
      assert (set k: nat | 0 <= k < n && credits[..n][k].amount < 0) == DebitsBefore(credits, n);
      assert (set k: nat | 0 <= k < |credits| && credits[k].amount < 0)
          == DebitsBefore(credits, n) + (if credits[n].amount < 0 then {n} else {});
    }
  }

  /** Witnessed in plain terms: the witness numbered by the debits before it verifies over the data under the
      debited account. */
  lemma WitnessedIff(verify: Verify, data: Bytes, credits: seq<Credit>, signatures: seq<Bytes>)
    ensures AllWitnessed(verify, data, credits, signatures)
            <==> forall i :: 0 <= i < |credits| && credits[i].amount < 0 ==>
                   var r := |DebitsBefore(credits, i)|;
                   r < |signatures| && verify(signatures[r], data, credits[i].pub)
  {
    hide Debits;
    forall i | 0 <= i < |credits|
      ensures Rank(credits, i) == |DebitsBefore(credits, i)|
    {
      DebitsCounted(credits[..i]);
      assert (set k: nat | 0 <= k < |credits[..i]| && credits[..i][k].amount < 0) == DebitsBefore(credits, i);
    }
  }

  /** An amount is cut to the 32-bit number that agrees with it modulo 2^32. */
  lemma TruncatedAmount(x: int)
    ensures -0x8000_0000 <= ToInt32(x) < 0x8000_0000 && (ToInt32(x) - x) % 0x1_0000_0000 == 0
  {
  }

  lemma RankNext(credits: seq<Credit>, i: nat)
    requires i < |credits|
    ensures Debits(credits[..i + 1]) == Rank(credits, i) + (if credits[i].amount < 0 then 1 else 0)
  {
    assert credits[..i + 1][..i] == credits[..i];
  }

  lemma {:induction false} DebitsMonotone(credits: seq<Credit>, i: nat, j: nat)
    requires i <= j <= |credits|
    ensures Debits(credits[..i]) <= Debits(credits[..j])
    decreases j
  {
    if i < j {
      DebitsMonotone(credits, i, j - 1);
      RankNext(credits, j - 1);
    }
  }

  // ---------------------------------------------------------------------------
  // Creating
  // ---------------------------------------------------------------------------

  function CreditsOf(accounts: seq<KeyPair>, amounts: seq<int>): (r: seq<Credit>)
    requires |accounts| == |amounts|
    ensures |r| == |accounts|
  {
    seq(|accounts|, i requires 0 <= i < |accounts| => Credit(accounts[i].pub, amounts[i]))
  }

  /** The debits before `n` have their account's signature over `data` at their rank. */
  ghost predicate SignedUpTo(sign: Sign, data: Bytes, accounts: seq<KeyPair>, credits: seq<Credit>,
                             sigs: seq<Bytes>, n: nat)
  {
    && |accounts| == |credits| && n <= |credits|
    && forall k :: 0 <= k < n && credits[k].amount < 0 ==>
         Rank(credits, k) < |sigs| && sigs[Rank(credits, k)] == sign(data, accounts[k].priv)
  }

  lemma SignStep(sign: Sign, data: Bytes, accounts: seq<KeyPair>, credits: seq<Credit>, sigs: seq<Bytes>, i: nat)
    requires SignedUpTo(sign, data, accounts, credits, sigs, i) && i < |credits| && credits[i].amount < 0
    requires Rank(credits, i) < |sigs|
    ensures SignedUpTo(sign, data, accounts, credits, sigs[Rank(credits, i) := sign(data, accounts[i].priv)], i + 1)
  {
    hide Debits;
    forall k | 0 <= k < i && credits[k].amount < 0
      ensures Rank(credits, k) < Rank(credits, i)
    {
      RankNext(credits, k);
      DebitsMonotone(credits, k + 1, i);
    }
  }

  /** The second loop of `create_transaction`. */
  method SignDebits(sign: Sign, data: Bytes, accounts: seq<KeyPair>, credits: seq<Credit>, nNegative: nat)
    returns (sigs: seq<Bytes>)
    requires |accounts| == |credits| && nNegative == Debits(credits)
    ensures |sigs| == nNegative && SignedUpTo(sign, data, accounts, credits, sigs, |credits|)
  {
    hide Debits;
    sigs := seq(nNegative, _ => []);
    var c, i := 0, 0;
    DebitsOfEnds(credits);
    while i < |credits|
      invariant 0 <= i <= |credits| && c == Debits(credits[..i]) && |sigs| == nNegative
      invariant SignedUpTo(sign, data, accounts, credits, sigs, i)
    {
      RankNext(credits, i);
      DebitsMonotone(credits, i + 1, |credits|);
      if credits[i].amount < 0 {
        SignStep(sign, data, accounts, credits, sigs, i);
        sigs := sigs[c := sign(data, accounts[i].priv)];
        c := c + 1;
      }
      i := i + 1;
    }
  }

  lemma DebitsOfEnds(credits: seq<Credit>)
    ensures Debits(credits[..0]) == 0 && Debits(credits[..|credits|]) == Debits(credits)
  {
    assert credits[..|credits|] == credits;
  }

  /** A transaction over the given accounts and amounts with one right witness per debit, in order. */
  ghost predicate CreatedFrom(encode: Encoder, sign: Sign, accounts: seq<KeyPair>, amounts: seq<int>, tx: WireTx)
    requires |accounts| == |amounts|
  {
    var credits := CreditsOf(accounts, amounts);
    && tx.creditSet == encode(credits)
    && |tx.signatures| == Debits(credits)
    && SignedUpTo(sign, encode(credits), accounts, credits, tx.signatures, |credits|)
  }

  /** `create_transaction`: `None` where it returns false. */
  method CreateTransaction(encode: Encoder, sign: Sign, accounts: seq<KeyPair>, amounts: seq<int>)
    returns (tx: Option<WireTx>)
    ensures tx.Some? <==> |accounts| == |amounts|
    ensures tx.Some? ==> CreatedFrom(encode, sign, accounts, amounts, tx.value)
  {
    hide Debits;
    var n := |accounts|;
    if |amounts| != n {
      return None;
    }
    var credits: seq<Credit> := [];
    ghost var all := CreditsOf(accounts, amounts);
    DebitsOfEnds(all);
    var nNegative := 0;
    var i := 0;
    while i < n
      invariant 0 <= i <= n && credits == all[..i] && nNegative == Debits(all[..i])
    {
      RankNext(all, i);
      credits := credits + [Credit(accounts[i].pub, amounts[i])];
      if amounts[i] < 0 {
        nNegative := nNegative + 1;
      }
      i := i + 1;
    }
    assert credits == all;
    var creditData := encode(credits);
    var sigs := SignDebits(sign, creditData, accounts, credits, nNegative);
    tx := Some(WireTx(creditData, sigs));
  }

  // ---------------------------------------------------------------------------
  // Processing
  // ---------------------------------------------------------------------------

  function Pubs(credits: seq<Credit>): (r: seq<Bytes>)
    ensures |r| == |credits|
  {
    seq(|credits|, i requires 0 <= i < |credits| => credits[i].pub)
  }

  function Amounts(credits: seq<Credit>): (r: seq<int>)
    ensures |r| == |credits|
  {
    seq(|credits|, i requires 0 <= i < |credits| => credits[i].amount)
  }

  /** `process_transaction` on a readable credit set: accepts exactly if every debit is witnessed.
      Accounts and used signatures are appended to what the caller passes in. */
  method ProcessTransaction(verify: Verify, data: Bytes, wireCredits: seq<Credit>, signatures: seq<Bytes>,
                            accounts0: seq<Bytes>, sigs0: seq<Bytes>)
    returns (ok: bool, accounts: seq<Bytes>, amounts: seq<int>, sigs: seq<Bytes>)
    ensures ok <==> AllWitnessed(verify, data, Truncated(wireCredits), signatures)
    ensures ok ==> accounts == accounts0 + Pubs(wireCredits) && amounts == Amounts(Truncated(wireCredits))
    ensures ok ==> var used := Debits(Truncated(wireCredits));
      used <= |signatures| && sigs == sigs0 + signatures[..used]
  {
    hide Debits, ToInt32, Witnessed, AllWitnessed;
    ghost var credits := Truncated(wireCredits);
    ok, accounts, sigs := false, accounts0, sigs0;
    var nNeg := 0;
    var n := |wireCredits|;
    amounts := seq(n, _ => 0);
    var i := 0;
    DebitsOfEnds(credits);
    while i < n
      invariant 0 <= i <= n && nNeg == Debits(credits[..i]) && nNeg <= |signatures|
      invariant |amounts| == n && amounts[..i] == Amounts(credits)[..i]
      invariant accounts == accounts0 + Pubs(wireCredits)[..i]
      invariant sigs == sigs0 + signatures[..nNeg]
      invariant WitnessedUpTo(verify, data, credits, signatures, i)
    {
      RankNext(credits, i);
      WitnessStep(verify, data, credits, signatures, i);
      var a := ToInt32(wireCredits[i].amount);
      amounts := amounts[i := a];
      accounts := accounts + [wireCredits[i].pub];
      if a < 0 {
        if nNeg >= |signatures| {
          return;
        }
        var sig := signatures[nNeg];
        sigs := sigs + [sig];
        if !verify(sig, data, wireCredits[i].pub) {
          return;
        }
        nNeg := nNeg + 1;
      }
      i := i + 1;
    }
    WitnessEnd(verify, data, credits, signatures);
    ok := true;
  }

  ghost predicate WitnessedUpTo(verify: Verify, data: Bytes, credits: seq<Credit>, signatures: seq<Bytes>, n: nat) {
    && n <= |credits|
    && forall k :: 0 <= k < n && credits[k].amount < 0 ==> Witnessed(verify, data, credits, signatures, k)
  }

  lemma WitnessStep(verify: Verify, data: Bytes, credits: seq<Credit>, signatures: seq<Bytes>, i: nat)
    requires i < |credits| && WitnessedUpTo(verify, data, credits, signatures, i)
    ensures if credits[i].amount >= 0
              || (Rank(credits, i) < |signatures| && verify(signatures[Rank(credits, i)], data, credits[i].pub))
            then WitnessedUpTo(verify, data, credits, signatures, i + 1)
            else !AllWitnessed(verify, data, credits, signatures)
  {
    hide Rank;
    assert credits[i].amount < 0 ==> (Witnessed(verify, data, credits, signatures, i)
      <==> Rank(credits, i) < |signatures| && verify(signatures[Rank(credits, i)], data, credits[i].pub));
  }

  lemma WitnessEnd(verify: Verify, data: Bytes, credits: seq<Credit>, signatures: seq<Bytes>)
    ensures WitnessedUpTo(verify, data, credits, signatures, |credits|)
            <==> AllWitnessed(verify, data, credits, signatures)
  {
  }

  /** Everything `create_transaction` makes is accepted, and the same accounts and amounts come back,
      if the serialiser is faithful and signatures of the key pairs verify. */
  lemma CreatedIsAccepted(encode: Encoder, decode: Decoder, sign: Sign, verify: Verify,
                          accounts: seq<KeyPair>, amounts: seq<int>, tx: WireTx)
    requires |accounts| == |amounts| && forall i :: 0 <= i < |amounts| ==> IsInt32(amounts[i])
    requires forall cs :: decode(encode(cs)) == Some(cs)
    requires forall i, m :: 0 <= i < |accounts| ==> verify(sign(m, accounts[i].priv), m, accounts[i].pub)
    requires CreatedFrom(encode, sign, accounts, amounts, tx)
    ensures var credits := CreditsOf(accounts, amounts);
      && decode(tx.creditSet) == Some(credits)
      && Truncated(credits) == credits
      && AllWitnessed(verify, tx.creditSet, Truncated(credits), tx.signatures)
      && (forall i :: 0 <= i < |accounts| ==> Pubs(credits)[i] == accounts[i].pub)
      && Amounts(Truncated(credits)) == amounts
  {
    hide ToInt32, Debits;
    var credits := CreditsOf(accounts, amounts);
    forall i | 0 <= i < |credits|
      ensures Truncated(credits)[i] == credits[i]
    {
      Int32Fixed(amounts[i]);
    }
    assert Truncated(credits) == credits;
  }

  // ---------------------------------------------------------------------------
  // The transaction constructor
  // ---------------------------------------------------------------------------

  /** `PastTheList`: the constructor reads a witness beyond the end of the list. */
  datatype Construction = Built(tx: Transaction) | Thrown | PastTheList

  /** Debit `i` is the first without a good witness, and the list has ended before its rank. */
  ghost predicate RunsOutAt(verify: Verify, data: Bytes, credits: seq<Credit>, signatures: seq<Bytes>, i: nat) {
    && i < |credits| && credits[i].amount < 0 && Rank(credits, i) >= |signatures|
    && WitnessedUpTo(verify, data, credits, signatures, i)
  }

  /** A debit without any witness: the constructor reads the first of no witnesses. */
  lemma RunsOutExample(verify: Verify, data: Bytes, pub: Bytes)
    ensures RunsOutAt(verify, data, [Credit(pub, -1)], [], 0)
  {
    assert [Credit(pub, -1)][..0] == [];
  }

  /** What the constructor makes of credit data that can be read, and a good list of witnesses. */
  ghost predicate BuiltFrom(verify: Verify, decode: Decoder, data: Bytes, tx: Transaction) {
    && decode(data).Some? && tx.credits == Truncated(decode(data).value)
    && AllWitnessed(verify, data, tx.credits, tx.witnesses)
  }

  /** The constructor on a readable credit set. Its guard compares the rank with the number of credits,
      not of witnesses, and so never fires; a short witness list is read past its end instead. */
  method Construct(verify: Verify, data: Bytes, wireCredits: seq<Credit>, signatures: seq<Bytes>)
    returns (r: Construction)
    ensures r.Built? <==> AllWitnessed(verify, data, Truncated(wireCredits), signatures)
    ensures r.PastTheList? <==> exists i :: RunsOutAt(verify, data, Truncated(wireCredits), signatures, i)
    ensures r.Built? ==> r.tx.credits == Truncated(wireCredits)
    ensures r.Built? ==> AllWitnessed(verify, data, r.tx.credits, r.tx.witnesses)
    ensures r.Built? ==> var used := Debits(r.tx.credits);
      && used <= |signatures| && |r.tx.witnesses| == |r.tx.credits|
      && r.tx.witnesses[..used] == signatures[..used]
      && forall k :: used <= k < |r.tx.witnesses| ==> r.tx.witnesses[k] == []
  {
    hide Debits, ToInt32, AllWitnessed, Witnessed, RunsOutAt;
    ghost var all := Truncated(wireCredits);
    var n := |wireCredits|;
    var credits: seq<Credit> := [];
    var witnesses: seq<Bytes> := seq(n, _ => []);
    var nNeg := 0;
    var i := 0;
    DebitsOfEnds(all);
    while i < n
      invariant 0 <= i <= n && nNeg == Debits(all[..i]) && nNeg <= |signatures| && nNeg <= i
      invariant credits == all[..i] && |witnesses| == n
      invariant witnesses[..nNeg] == signatures[..nNeg]
      invariant forall k :: nNeg <= k < n ==> witnesses[k] == []
      invariant WitnessedUpTo(verify, data, all, signatures, i)
    {
      RankNext(all, i);
      WitnessStep(verify, data, all, signatures, i);
      RunsOutFirst(verify, data, all, signatures, i);
      var amount := ToInt32(wireCredits[i].amount);
      credits := credits + [Credit(wireCredits[i].pub, amount)];
      if amount < 0 {
        if nNeg >= |witnesses| {
          assert false;
        }
        if nNeg >= |signatures| {
          return PastTheList;
        }
        witnesses := witnesses[nNeg := signatures[nNeg]];
        if !verify(signatures[nNeg], data, wireCredits[i].pub) {
          return Thrown;
        }
        nNeg := nNeg + 1;
      }
      i := i + 1;
    }
    assert credits == all;
    WitnessEnd(verify, data, all, signatures);
    NeverRunsOut(verify, data, all, signatures);
    SameWitnesses(verify, data, all, signatures, witnesses);
    r := Built(Transaction(credits, witnesses));
  }

  /** Debit `i` has a witness that does not verify. */
  predicate BadWitness(verify: Verify, data: Bytes, credits: seq<Credit>, signatures: seq<Bytes>, i: nat)
    requires i < |credits|
  {
    && credits[i].amount < 0 && Rank(credits, i) < |signatures|
    && !verify(signatures[Rank(credits, i)], data, credits[i].pub)
  }

  /** With every debit before `i` witnessed, the list runs out at `i`, or nowhere if the witness of `i`
      is bad. */
  lemma RunsOutFirst(verify: Verify, data: Bytes, credits: seq<Credit>, signatures: seq<Bytes>, i: nat)
    requires i < |credits| && WitnessedUpTo(verify, data, credits, signatures, i)
    ensures credits[i].amount < 0 && Rank(credits, i) >= |signatures|
      ==> RunsOutAt(verify, data, credits, signatures, i)
    ensures BadWitness(verify, data, credits, signatures, i)
      ==> !exists k :: RunsOutAt(verify, data, credits, signatures, k)
  {
    hide Debits;
    forall k: nat | RunsOutAt(verify, data, credits, signatures, k)
      ensures !BadWitness(verify, data, credits, signatures, i)
    {
      assert k < i ==> Witnessed(verify, data, credits, signatures, k);
      assert i < k && credits[i].amount < 0 ==> Witnessed(verify, data, credits, signatures, i);
    }
  }

  lemma NeverRunsOut(verify: Verify, data: Bytes, credits: seq<Credit>, signatures: seq<Bytes>)
    requires AllWitnessed(verify, data, credits, signatures)
    ensures !exists k :: RunsOutAt(verify, data, credits, signatures, k)
  {
    hide Debits;
    forall k: nat
      ensures !RunsOutAt(verify, data, credits, signatures, k)
    {
      assert k < |credits| && credits[k].amount < 0 ==> Witnessed(verify, data, credits, signatures, k);
    }
  }

  lemma SameWitnesses(verify: Verify, data: Bytes, credits: seq<Credit>, xs: seq<Bytes>, ys: seq<Bytes>)
    requires AllWitnessed(verify, data, credits, xs)
    requires Debits(credits) <= |xs| && Debits(credits) <= |ys| && xs[..Debits(credits)] == ys[..Debits(credits)]
    ensures AllWitnessed(verify, data, credits, ys)
  {
    hide Debits;
    var used := Debits(credits);
    DebitsOfEnds(credits);
    forall i | 0 <= i < |credits| && credits[i].amount < 0
      ensures Witnessed(verify, data, credits, ys, i)
    {
      RankNext(credits, i);
      DebitsMonotone(credits, i + 1, |credits|);
      assert Witnessed(verify, data, credits, xs, i);
      assert xs[..used][Rank(credits, i)] == ys[..used][Rank(credits, i)];
    }
  }

  // ---------------------------------------------------------------------------
  // Falling balances are signed for
  // ---------------------------------------------------------------------------

  /** The transaction debits `pub`, the credit data says so when it is read, and a witness of the transaction
      verifies for `pub` over that data. */
  ghost predicate SignedDebit(verify: Verify, decode: Decoder, data: Bytes, tx: Transaction, pub: Bytes) {
    && decode(data).Some?
    && (exists i :: 0 <= i < |tx.credits| == |decode(data).value|
          && tx.credits[i].pub == pub && tx.credits[i].amount < 0
          && decode(data).value[i].pub == pub && ToInt32(decode(data).value[i].amount) == tx.credits[i].amount)
    && (exists w :: w in tx.witnesses && verify(w, data, pub))
  }

  lemma DebitIsSigned(verify: Verify, decode: Decoder, data: Bytes, tx: Transaction, pub: Bytes)
    requires BuiltFrom(verify, decode, data, tx) && UniqueKeys(tx.credits)
    requires CreditTo(tx.credits, pub) < 0
    ensures SignedDebit(verify, decode, data, tx, pub)
  {
    hide Debits, ToInt32;
    CreditIsSingle(tx.credits, pub);
    var i :| 0 <= i < |tx.credits| && tx.credits[i].pub == pub && CreditTo(tx.credits, pub) == tx.credits[i].amount;
    assert Witnessed(verify, data, tx.credits, tx.witnesses, i);
    assert tx.witnesses[Rank(tx.credits, i)] in tx.witnesses;
    assert tx.credits[i] == Truncated(decode(data).value)[i];
  }

  /** If selection lowers an account's balance, some selected transaction debits that account, in the credit
      data that it was built from and that a witness of the account signs. */
  lemma {:induction false} FallIsSigned(verify: Verify, decode: Decoder, data: map<Bytes, Bytes>, order: seq<Bytes>,
                                        txs: Txs, bal: Balances, pub: Bytes)
    requires AllKnown(order, txs)
    requires forall x :: x in order ==> x in data && BuiltFrom(verify, decode, data[x], txs[x])
    requires Get(Greedy(order, txs, bal).1, pub) < Get(bal, pub)
    ensures exists x :: x in Greedy(order, txs, bal).0 && x in order
                        && SignedDebit(verify, decode, data[x], txs[x], pub)
  {
    hide BuiltFrom, SignedDebit, Debits;
    if order != [] {
      var n := |order| - 1;
      var x := order[n];
      var (sel, led) := Greedy(order[..n], txs, bal);
      assert x in order;
      if Get(led, pub) < Get(bal, pub) {
        FallIsSigned(verify, decode, data, order[..n], txs, bal, pub);
        var y :| y in sel && y in order[..n] && SignedDebit(verify, decode, data[y], txs[y], pub);
        assert y in Greedy(order, txs, bal).0 && y in order;
      } else {
        ApplyAdds(txs[x].credits, led, pub);
        DebitIsSigned(verify, decode, data[x], txs[x], pub);
        assert x in Greedy(order, txs, bal).0;
      }
    }
  }
}
