/** Set reconciliation in bin/p2p.cc: `SetReconsiler` and the REQ_SET case of `serve`. */
module Reconcile {
  import opened Common
  import opened ByteOrder
  import opened Merkle
  import opened Ledger
  import opened Bloom

  /** The size that every filter of the program is made with. */
  const FILTER_SIZE: nat := 4999

  /** The filter of a set, as REQ_HASHSET and REQ_SET_FILTER build it: each element set once. */
  function FilterOf(sh: ShortHash, key: Bytes, elements: seq<Bytes>): (f: Filter)
    ensures f.Valid() && f.p == FILTER_SIZE && f.key == key
  {
    RunOps(sh, Fresh(FILTER_SIZE, key), seq(|elements|, i requires 0 <= i < |elements| => OpSet(elements[i])))
  }

  /** A filter after it was sent: the bits packed by `bytes` and read by the data constructor. */
  function Received(f: Filter): (g: Filter)
    requires f.Valid() && f.p > 0
    ensures g.Valid() && g.p == f.p && g.key == f.key
  {
    Filter(f.p, f.key, Unpack(Pack(f.hits), f.p), 0)
  }

  lemma {:induction false} AllSetRemembered(elements: seq<Bytes>, x: Bytes)
    requires x in elements
    ensures x in SinceReset(seq(|elements|, i requires 0 <= i < |elements| => OpSet(elements[i])))
  {
    var n := |elements| - 1;
    var ops := seq(|elements|, i requires 0 <= i < |elements| => OpSet(elements[i]));
    var init := elements[..n];
    assert ops[..n] == seq(|init|, i requires 0 <= i < |init| => OpSet(init[i]));
    if x != elements[n] {
      assert x in init;
      AllSetRemembered(init, x);
    }
  }

  /** A filter loses no member, sent or not: it reports every element of the set it was made from. */
  lemma NoMemberLost(sh: ShortHash, key: Bytes, elements: seq<Bytes>, x: Bytes)
    requires x in elements
    ensures Has(sh, FilterOf(sh, key, elements), x)
    ensures Has(sh, Received(FilterOf(sh, key, elements)), x)
  {
    hide Index, RunOps;
    var ops := seq(|elements|, i requires 0 <= i < |elements| => OpSet(elements[i]));
    AllSetRemembered(elements, x);
    PresentIffSet(sh, FILTER_SIZE, key, ops, x);
    var f := FilterOf(sh, key, elements);
    WireRoundTrip(f.hits);
    IndexIgnoresHits(sh, f, Received(f), x);
  }

  lemma IndexIgnoresHits(sh: ShortHash, f: Filter, g: Filter, x: Bytes)
    requires f.Valid() && g.Valid() && f.p == g.p > 0 && f.key == g.key
    ensures Index(sh, f, x) == Index(sh, g, x)
  {
  }

  // ---------------------------------------------------------------------------
  // Filtering and replying
  // ---------------------------------------------------------------------------

  predicate AllValid(filters: seq<Filter>) { forall i :: 0 <= i < |filters| ==> filters[i].Valid() }

  predicate InEvery(sh: ShortHash, filters: seq<Filter>, x: Bytes)
    requires AllValid(filters)
  {
    forall i :: 0 <= i < |filters| ==> Has(sh, filters[i], x)
  }

  /** The candidates that every filter reports, in order. */
  function Keep(sh: ShortHash, filters: seq<Filter>, candidates: seq<Bytes>): seq<Bytes>
    requires AllValid(filters)
  {
    if candidates == [] then []
    else
      var x := candidates[|candidates| - 1];
      Keep(sh, filters, candidates[..|candidates| - 1]) + (if InEvery(sh, filters, x) then [x] else [])
  }

  /** The hashes of a set that a filter does not report, in order. */
  function Missing(sh: ShortHash, f: Filter, hashes: seq<Bytes>): seq<Bytes>
    requires f.Valid()
  {
    if hashes == [] then []
    else
      var x := hashes[|hashes| - 1];
      Missing(sh, f, hashes[..|hashes| - 1]) + (if Has(sh, f, x) then [] else [x])
  }

  lemma {:induction false} KeepMembers(sh: ShortHash, filters: seq<Filter>, candidates: seq<Bytes>, x: Bytes)
    requires AllValid(filters)
    ensures x in Keep(sh, filters, candidates) <==> x in candidates && InEvery(sh, filters, x)
  {
    if candidates != [] {
      var n := |candidates| - 1;
      KeepMembers(sh, filters, candidates[..n], x);
      assert candidates == candidates[..n] + [candidates[n]];
    }
  }

  lemma {:induction false} MissingMembers(sh: ShortHash, f: Filter, hashes: seq<Bytes>, x: Bytes)
    requires f.Valid()
    ensures x in Missing(sh, f, hashes) <==> x in hashes && !Has(sh, f, x)
  {
    hide Has;
    if hashes != [] {
      var n := |hashes| - 1;
      MissingMembers(sh, f, hashes[..n], x);
      assert hashes == hashes[..n] + [hashes[n]];
    }
  }

  /** `out` is `input` without the positions that are not in `at`: those are ascending and kept in order. */
  ghost predicate IsSelection(input: seq<Bytes>, out: seq<Bytes>, at: seq<nat>) {
    && |at| == |out|
    && (forall k :: 0 <= k < |at| ==> at[k] < |input| && out[k] == input[at[k]])
    && (forall k, l :: 0 <= k < l < |at| ==> at[k] < at[l])
  }

  /** One element more, taken or left. */
  lemma SelectionStep(input: seq<Bytes>, x: Bytes, out: seq<Bytes>, at: seq<nat>)
    requires IsSelection(input, out, at)
    ensures IsSelection(input + [x], out, at) && IsSelection(input + [x], out + [x], at + [|input|])
    ensures forall i :: i in at ==> i < |input|
    ensures forall i :: i in at + [|input|] <==> i in at || i == |input|
  {
  }

  lemma SplitLast(s: seq<Bytes>)
    requires s != []
    ensures s == s[..|s| - 1] + [s[|s| - 1]]
  {
  }

  /** The reply goes through the hashes in order and takes each one that the filter does not report, once. */
  lemma {:induction false} MissingInOrder(sh: ShortHash, f: Filter, hashes: seq<Bytes>) returns (at: seq<nat>)
    requires f.Valid()
    ensures IsSelection(hashes, Missing(sh, f, hashes), at)
    ensures forall i :: 0 <= i < |hashes| ==> (i in at <==> !Has(sh, f, hashes[i]))
  {
    hide Has;
    at := [];
    if hashes != [] {
      hide IsSelection;
      var n := |hashes| - 1;
      SplitLast(hashes);
      at := MissingInOrder(sh, f, hashes[..n]);
      SelectionStep(hashes[..n], hashes[n], Missing(sh, f, hashes[..n]), at);
      assert forall i :: 0 <= i < n ==> hashes[..n][i] == hashes[i];
      if !Has(sh, f, hashes[n]) {
        at := at + [n];
      }
    }
  }

  lemma KeepStep(sh: ShortHash, filters: seq<Filter>, candidates: seq<Bytes>)
    requires AllValid(filters) && candidates != []
    ensures var n := |candidates| - 1; var before := Keep(sh, filters, candidates[..n]);
      Keep(sh, filters, candidates)
      == if InEvery(sh, filters, candidates[n]) then before + [candidates[n]] else before
  {
    hide InEvery;
  }

  lemma {:induction false} KeptAt(sh: ShortHash, filters: seq<Filter>, candidates: seq<Bytes>) returns (at: seq<nat>)
    requires AllValid(filters)
    ensures IsSelection(candidates, Keep(sh, filters, candidates), at)
    ensures forall i :: 0 <= i < |candidates| ==> (i in at <==> InEvery(sh, filters, candidates[i]))
  {
    hide InEvery, AllValid;
    at := [];
    if candidates != [] {
      hide IsSelection, Keep;
      var n := |candidates| - 1;
      SplitLast(candidates);
      at := KeptAt(sh, filters, candidates[..n]);
      KeepStep(sh, filters, candidates);
      SelectionStep(candidates[..n], candidates[n], Keep(sh, filters, candidates[..n]), at);
      assert forall i :: 0 <= i < n ==> candidates[..n][i] == candidates[i];
      if InEvery(sh, filters, candidates[n]) {
        at := at + [n];
      }
    }
  }

  /** Filtering goes through the candidates in order and keeps each one that every filter reports, once. */
  lemma KeepInOrder(sh: ShortHash, filters: seq<Filter>, candidates: seq<Bytes>) returns (at: seq<nat>)
    requires AllValid(filters)
    ensures IsSelection(candidates, Keep(sh, filters, candidates), at)
    ensures forall i :: 0 <= i < |candidates| ==>
      (i in at <==> forall k :: 0 <= k < |filters| ==> Has(sh, filters[k], candidates[i]))
  {
    hide Keep, Has, IsSelection;
    at := KeptAt(sh, filters, candidates);
  }

  /** The selection of hashes in the REQ_SET case: everything the requester's filter does not report. Size and
      data come from the requester; `ok` is false where the filter has been read past the end of its data. */
  method ReplySet(sh: ShortHash, hashes: seq<Bytes>, data: Bytes, p: nat, key: Bytes)
    returns (ok: bool, selected: seq<Bytes>)
    requires |data| < 0x1000_0000
    ensures ok <==> Covers(data, p)
    ensures ok ==> selected == Missing(sh, Filter(p, key, Unpack(data, p), 0), hashes)
  {
    hide Unpack, Has;
    selected := [];
    var bloom := new Bloom.FromData(sh, data, p, key);
    ok := Covers(data, p);
    if !ok {
      return;
    }
    var i := 0;
    assert hashes[..0] == [];
    while i < |hashes|
      invariant 0 <= i <= |hashes|
      invariant bloom.State() == Filter(p, key, Unpack(data, p), 0)
      invariant selected == Missing(sh, Filter(p, key, Unpack(data, p), 0), hashes[..i])
    {
      assert hashes[..i + 1][..i] == hashes[..i];
      var has := bloom.Contains(hashes[i]);
      if !has {
        selected := selected + [hashes[i]];
      }
      i := i + 1;
    }
    assert hashes[..i] == hashes;
  }

  /** A reply never holds a hash that the requester put into its filter. */
  lemma ReplyOmitsKnown(sh: ShortHash, key: Bytes, owned: seq<Bytes>, hashes: seq<Bytes>, x: Bytes)
    requires x in owned
    ensures x !in Missing(sh, Received(FilterOf(sh, key, owned)), hashes)
  {
    hide Has, FilterOf, Received, Missing;
    NoMemberLost(sh, key, owned, x);
    MissingMembers(sh, Received(FilterOf(sh, key, owned)), hashes, x);
  }

  /** Filters received for several source sets. */
  function ReceivedAll(sh: ShortHash, sources: seq<(Bytes, seq<Bytes>)>): (r: seq<Filter>)
    ensures |r| == |sources| && AllValid(r)
  {
    seq(|sources|, i requires 0 <= i < |sources| => Received(FilterOf(sh, sources[i].0, sources[i].1)))
  }

  /** Filtering drops no candidate that is in the source set of every received filter. */
  lemma FilterKeepsCommon(sh: ShortHash, sources: seq<(Bytes, seq<Bytes>)>, candidates: seq<Bytes>, x: Bytes)
    requires x in candidates && forall i :: 0 <= i < |sources| ==> x in sources[i].1
    ensures x in Keep(sh, ReceivedAll(sh, sources), candidates)
  {
    hide Has, FilterOf, Received, Keep;
    forall i | 0 <= i < |sources|
      ensures Has(sh, ReceivedAll(sh, sources)[i], x)
    {
      NoMemberLost(sh, sources[i].0, sources[i].1, x);
    }
    KeepMembers(sh, ReceivedAll(sh, sources), candidates, x);
  }

  // ---------------------------------------------------------------------------
  // The check against the target root
  // ---------------------------------------------------------------------------

  function SortedRoot(h: Hash, s: seq<Bytes>): Bytes
    requires s != []
  {
    SortKeeps(s);
    Root(h, Sort(s))
  }

  predicate Check(h: Hash, target: Bytes, s: seq<Bytes>) { s != [] && target == SortedRoot(h, s) }

  class SetReconsiler {
    const sh: ShortHash
    const h: Hash
    const hash: Bytes
    var filters: seq<Filter>
    var currentSet: seq<Bytes>

    constructor (sh: ShortHash, h: Hash, hash: Bytes)
      ensures this.sh == sh && this.h == h && this.hash == hash && filters == [] && currentSet == []
    {
      this.sh, this.h, this.hash := sh, h, hash;
      filters, currentSet := [], [];
    }

    method FilterSet(candidates: seq<Bytes>)
      requires AllValid(filters)
      modifies this`currentSet
      ensures currentSet == Keep(sh, filters, candidates)
    {
      currentSet := [];
      var i := 0;
      assert candidates[..0] == [];
      while i < |candidates|
        invariant 0 <= i <= |candidates|
        invariant currentSet == Keep(sh, filters, candidates[..i])
      {
        assert candidates[..i + 1][..i] == candidates[..i];
        var inset := true;
        var j := 0;
        while j < |filters|
          invariant 0 <= j <= |filters|
          invariant inset && forall k :: 0 <= k < j ==> Has(sh, filters[k], candidates[i])
        {
          if !Has(sh, filters[j], candidates[i]) {
            inset := false;
            break;
          }
          j := j + 1;
        }
        assert inset == InEvery(sh, filters, candidates[i]);
        if inset {
          currentSet := currentSet + [candidates[i]];
        }
        i := i + 1;
      }
      assert candidates[..i] == candidates;
    }

    method CheckSet() returns (ok: bool)
      ensures ok == Check(h, hash, currentSet)
    {
      if |currentSet| == 0 {
        return false;
      }
      SortKeeps(currentSet);
      var pointerSet := Sort(currentSet);
      var currentHash := HashVec(h, pointerSet);
      ok := hash == currentHash;
    }
  }

  /** The answer depends on the contents of the set only. */
  lemma CheckIgnoresOrder(h: Hash, target: Bytes, s: seq<Bytes>, t: seq<Bytes>)
    requires multiset(s) == multiset(t)
    ensures Check(h, target, s) == Check(h, target, t)
    ensures Check(h, target, s) ==> s != []
  {
    hide Sort, Root;
    assert |multiset(s)| == |s| && |multiset(t)| == |t|;
    SortCanonical(s, t);
  }

  lemma {:induction false} SelectionAscends(order: seq<Bytes>, txs: Txs, bal: Balances)
    requires AllKnown(order, txs) && Ascending(order)
    ensures Ascending(Greedy(order, txs, bal).0)
  {
    hide Less, Acceptable, Apply;
    if order != [] {
      var n := |order| - 1;
      SelectionAscends(order[..n], txs, bal);
      SelectedIsKnown(order[..n], txs, bal);
      var sel := Greedy(order[..n], txs, bal).0;
      forall i | 0 <= i < |sel|
        ensures Less(sel[i], order[n])
      {
        assert sel[i] in order[..n];
      }
    }
  }

  /** Any rearrangement of the transactions that `get_latest` selected passes the check against the
      root that `get_latest` returned. */
  lemma CheckAcceptsSelection(h: Hash, mempool: set<Bytes>, txs: Txs, bal: Balances, s: seq<Bytes>)
    requires mempool <= txs.Keys && Select(mempool, txs, bal).0 != []
    requires multiset(s) == multiset(Select(mempool, txs, bal).0)
    ensures Check(h, Root(h, Select(mempool, txs, bal).0), s)
  {
    hide Less, Greedy, Sort, Root;
    var sel := Select(mempool, txs, bal).0;
    EnumerateAscending(mempool);
    EnumerateKnown(mempool, txs);
    SelectionAscends(Enumerate(mempool), txs, bal);
    AscendingIsSorted(sel);
    assert |multiset(s)| == |s| && |multiset(sel)| == |sel|;
    SortCanonical(sel, s);
  }

  lemma SortedFacts(s: seq<Bytes>, len: nat)
    requires Distinct(s) && Uniform(s, len)
    ensures Distinct(Sort(s)) && Uniform(Sort(s), len) && |Sort(s)| == |s|
  {
    hide Sort;
    SortKeeps(s);
    var t := Sort(s);
    forall i | 0 <= i < |t|
      ensures |t[i]| == len
    {
      assert t[i] in multiset(t);
    }
    forall i, j | 0 <= i < j < |t|
      ensures t[i] != t[j]
    {
      if t[i] == t[j] {
        TwiceCounted(t, i, j);
        OnceCounted(s, t[i]);
      }
    }
  }

  lemma TwiceCounted(t: seq<Bytes>, i: nat, j: nat)
    requires i < j < |t| && t[i] == t[j]
    ensures multiset(t)[t[i]] >= 2
  {
    assert t == t[..j] + [t[j]] + t[j + 1..];
    assert t[..j][i] == t[i];
    assert t[i] in multiset(t[..j]);
  }

  lemma {:induction false} OnceCounted(s: seq<Bytes>, x: Bytes)
    requires Distinct(s)
    ensures multiset(s)[x] <= 1
  {
    if s != [] {
      var n := |s| - 1;
      OnceCounted(s[..n], x);
      assert s == s[..n] + [s[n]];
      if x == s[n] {
        assert x !in s[..n];
      }
    }
  }

  /** If the check passes for a duplicate-free set whose tree is as deep as that of the set behind the
      target, the two sets are the same, or two inputs hashed on the way collide. */
  lemma CheckBinds(h: Hash, s: seq<Bytes>, t: seq<Bytes>, len: nat, digest: nat)
    requires s != [] && Check(h, SortedRoot(h, s), t)
    requires Distinct(s) && Distinct(t) && Uniform(s, len) && Uniform(t, len) && Depth(|s|) == Depth(|t|)
    requires forall x :: |h(x)| == digest
    ensures multiset(s) == multiset(t) || Collides(h, Inputs(h, Sort(s)) + Inputs(h, Sort(t)))
  {
    hide Sort, Root, Collides, Inputs, Depth, Distinct, Uniform;
    SortKeeps(s);
    SortKeeps(t);
    SortedFacts(s, len);
    SortedFacts(t, len);
    RootBinds(h, Sort(s), Sort(t), len, digest);
  }
}
