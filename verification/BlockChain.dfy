/** `pttp::BlockChain` of bin/p2p.cc: `add`, `get_latest` and `mark_blocks`. */
module BlockChain {
  import opened Common
  import opened ByteOrder
  import opened Merkle
  import opened Ledger
  import opened Heights

  class BlockChain {
    /** The hash function and the serialiser of transactions, both outside this model. */
    const h: Hash
    const serialise: Transaction -> Bytes
    const zeroBlock: Bytes

    var blocks: Blocks
    var heights: map<Bytes, int>
    var txs: Txs
    var mempool: set<Bytes>
    var latestSet: seq<Bytes>
    var latestHash: Bytes
    var balance: Balances

    /** Every hash in the mempool belongs to a stored transaction. */
    predicate Valid()
      reads this
    {
      mempool <= txs.Keys
    }

    constructor (h: Hash, serialise: Transaction -> Bytes)
      ensures Valid() && this.h == h && this.serialise == serialise
      ensures |zeroBlock| == 32 && forall i :: 0 <= i < 32 ==> zeroBlock[i] == 0
      ensures txs == map[] && mempool == {} && latestSet == [] && balance == map[] && blocks == map[]
    {
      this.h := h;
      this.serialise := serialise;
      zeroBlock := seq(32, _ => 0);
      blocks, heights, txs, mempool, latestSet, latestHash, balance := map[], map[], map[], {}, [], [], map[];
    }

    method Add(tx: Transaction)
      requires Valid()
      modifies this`txs, this`mempool
      ensures Valid()
      ensures var x := h(serialise(tx));
        if x in old(txs) then txs == old(txs) && mempool == old(mempool)
        else txs == old(txs)[x := tx] && mempool == old(mempool) + {x}
    {
      var hash := h(serialise(tx));
      if hash !in txs {
        txs := txs[hash := tx];
        mempool := mempool + {hash};
      }
    }

    /** The validity loop over one transaction's credits. */
    method CheckCredits(credits: seq<Credit>, bal: Balances) returns (valid: bool)
      ensures valid == Acceptable(credits, bal)
    {
      valid := true;
      var pubSet: set<Bytes> := {};
      var i := 0;
      while i < |credits|
        invariant 0 <= i <= |credits|
        invariant pubSet == set j | 0 <= j < i :: credits[j].pub
        invariant UniqueKeys(credits[..i])
        invariant forall j :: 0 <= j < i ==> Covered(credits[j], bal)
      {
        var cred := credits[i];
        if cred.pub in pubSet {
          return false;
        }
        pubSet := pubSet + {cred.pub};
        if cred.amount < 0 && (cred.pub !in bal || bal[cred.pub] < -cred.amount) {
          return false;
        }
        i := i + 1;
      }
      assert credits[..i] == credits;
    }

    method ApplyCredits(credits: seq<Credit>, bal: Balances) returns (result: Balances)
      ensures result == Apply(credits, bal)
    {
      result := bal;
      var i := 0;
      assert credits[..0] == [];
      while i < |credits|
        invariant 0 <= i <= |credits|
        invariant result == Apply(credits[..i], bal)
      {
        var cred := credits[i];
        assert credits[..i + 1][..i] == credits[..i];
        if cred.pub in result {
          result := result[cred.pub := result[cred.pub] + cred.amount];
        } else {
          result := result[cred.pub := cred.amount];
        }
        i := i + 1;
      }
      assert credits[..i] == credits;
    }

    /** `get_latest`: greedy selection over a copy of the balances, then the root of what was selected.
        `hash_vec` asserts a nonempty list, so with nothing selected the program stops: `None`. */
    method GetLatest() returns (root: Option<Bytes>)
      requires Valid()
      modifies this`latestSet, this`latestHash
      ensures latestSet == Select(mempool, txs, balance).0
      ensures root == if latestSet == [] then None else Some(Root(h, latestSet))
      ensures latestHash == if root.Some? then root.value else old(latestHash)
    {
      hide Acceptable, Apply, Root, Greedy, Enumerate;
      var balanceCpy := balance;
      latestSet := [];
      var order := Enumerate(mempool);
      EnumerateKnown(mempool, txs);
      var k := 0;
      GreedyEmpty(txs, balance);
      assert order[..0] == [];
      while k < |order|
        invariant 0 <= k <= |order|
        invariant (latestSet, balanceCpy) == Greedy(order[..k], txs, balance)
        invariant latestHash == old(latestHash)
      {
        var tx := txs[order[k]];
        var valid := CheckCredits(tx.credits, balanceCpy);
        assert order[..k + 1] == order[..k] + [order[k]];
        GreedySnoc(order[..k], order[k], txs, balance);
        if valid {
          latestSet := latestSet + [order[k]];
          balanceCpy := ApplyCredits(tx.credits, balanceCpy);
        }
        k := k + 1;
      }
      assert order[..k] == order;
      if latestSet == [] {
        return None;
      }
      var hash := HashVec(h, latestSet);
      latestHash := hash;
      root := Some(hash);
    }

    // -------------------------------------------------------------------------
    // Block heights
    // -------------------------------------------------------------------------

    /** The loops that mark a walked list from its end: `below + 1`, `below + 2`, and so on. */
    method MarkUpwards(list: seq<Bytes>, below: int)
      requires Distinct(list)
      modifies this`heights
      ensures heights.Keys == old(heights.Keys) + (set x | x in list)
      ensures forall j :: 0 <= j < |list| ==> list[j] in heights && heights[list[j]] == below + |list| - j
      ensures forall x :: x in old(heights) && x !in list ==> heights[x] == old(heights[x])
    {
      var hgt := below;
      var j := |list|;
      while j > 0
        invariant 0 <= j <= |list| && hgt == below + |list| - j
        invariant heights.Keys == old(heights.Keys) + (set x | x in list[j..])
        invariant forall i :: j <= i < |list| ==> list[i] in heights && heights[list[i]] == below + |list| - i
        invariant forall x :: x in old(heights) && x !in list ==> heights[x] == old(heights[x])
      {
        j := j - 1;
        assert list[j..] == [list[j]] + list[j + 1..];
        heights := heights[list[j] := hgt + 1];
        hgt := hgt + 1;
      }
    }

    /** The loops that mark a walked list as leading out of the map. */
    method MarkLost(list: seq<Bytes>)
      modifies this`heights
      ensures heights.Keys == old(heights.Keys) + (set x | x in list)
      ensures forall x :: x in list ==> x in heights && heights[x] == -1
      ensures forall x :: x in old(heights) && x !in list ==> heights[x] == old(heights[x])
    {
      var j := 0;
      while j < |list|
        invariant 0 <= j <= |list|
        invariant heights.Keys == old(heights.Keys) + (set x | x in list[..j])
        invariant forall x :: x in list[..j] ==> x in heights && heights[x] == -1
        invariant forall x :: x in old(heights) && x !in list ==> heights[x] == old(heights[x])
      {
        assert list[..j + 1] == list[..j] + [list[j]];
        heights := heights[list[j] := -1];
        j := j + 1;
      }
      assert list[..j] == list;
    }

    /** The first loop of `mark_blocks`, over all blocks. */
    method ZeroHeights(order: seq<Bytes>)
      requires forall x :: x in order <==> x in blocks
      modifies this`heights
      ensures heights.Keys == old(heights.Keys) + blocks.Keys
      ensures forall x :: x in blocks ==> heights[x] == 0
      ensures forall x :: x in old(heights) && x !in blocks ==> heights[x] == old(heights[x])
    {
      var j := 0;
      while j < |order|
        invariant 0 <= j <= |order|
        invariant heights.Keys == old(heights.Keys) + (set x | x in order[..j])
        invariant forall x :: x in order[..j] ==> x in heights && heights[x] == 0
        invariant forall x :: x in old(heights) && x !in blocks ==> heights[x] == old(heights[x])
      {
        assert order[..j + 1] == order[..j] + [order[j]];
        heights := heights[order[j] := 0];
        j := j + 1;
      }
      assert order[..j] == order;
    }

    /** The inner loop of `mark_blocks`, from the block at position `k`. */
    method MarkFrom(start: Bytes, ghost order: seq<Bytes>, ghost k: nat)
      requires InMap(order, blocks) && k < |order| && order[k] == start && Grounded(blocks, zeroBlock, start)
      requires MarksAfter(blocks, zeroBlock, order, k, heights)
      modifies this`heights
      ensures MarksAfter(blocks, zeroBlock, order, k + 1, heights)
      ensures heights.Keys == old(heights.Keys)
      ensures forall x :: x in heights && x !in blocks ==> heights[x] == old(heights[x])
    {
      hide Height, Path, Marked, Grounded;
      var list := [start];
      var cur := start;
      while true
        invariant Chain(list, blocks, zeroBlock) && list[0] == start && cur == list[|list| - 1]
        invariant heights == old(heights)
        invariant |list| <= |Path(blocks, zeroBlock, start)|
        decreases |Path(blocks, zeroBlock, start)| - |list|
      {
        var prev := blocks[cur].prevHash;
        ChainDistinct(list, blocks, zeroBlock);
        ListHeights(list, blocks, zeroBlock);
        if prev == zeroBlock {
          MarkUpwards(list, 0);
          break;
        }
        if prev !in blocks {
          MarkLost(list);
          break;
        }
        if heights[prev] == -1 {
          MarkLost(list);
          break;
        }
        if heights[prev] > 0 {
          MarkUpwards(list, heights[prev]);
          break;
        }
        ChainStaysOnPath(list, blocks, zeroBlock);
        list := list + [prev];
        cur := prev;
      }
      WalkDone(blocks, zeroBlock, order, k, list, old(heights), heights);
    }

    /** `mark_blocks`: after it every block bears the mark of the walks made before the outer loop ended.
        The walks have to end; `WalkGoesOn` shows what happens otherwise. */
    method MarkBlocks()
      requires WalksEnd(blocks, zeroBlock, Enumerate(blocks.Keys))
      modifies this`heights
      ensures var order := Enumerate(blocks.Keys);
        MarksAfter(blocks, zeroBlock, order, Stop(blocks, zeroBlock, order, 0), heights)
      ensures heights.Keys == old(heights.Keys) + blocks.Keys
      ensures forall x :: x in old(heights) && x !in blocks ==> heights[x] == old(heights[x])
    {
      hide Height, Grounded, Marked, MarksAfter, Stop, Enumerate;
      var order := Enumerate(blocks.Keys);
      EnumerateInMap(blocks);
      ZeroHeights(order);
      MarksStart(blocks, zeroBlock, order, heights);
      var k := 0;
      while k < |order|
        invariant 0 <= k <= |order|
        invariant MarksAfter(blocks, zeroBlock, order, k, heights)
        invariant Stop(blocks, zeroBlock, order, k) == Stop(blocks, zeroBlock, order, 0)
        invariant heights.Keys == old(heights.Keys) + blocks.Keys
        invariant forall x :: x in old(heights) && x !in blocks ==> heights[x] == old(heights[x])
      {
        StopStep(blocks, zeroBlock, order, k, heights);
        if heights[order[k]] == -1 {
          break;
        }
        MarkFrom(order[k], order, k);
        k := k + 1;
      }
    }
  }

  lemma GreedyEmpty(txs: Txs, bal: Balances)
    ensures Greedy([], txs, bal) == ([], bal)
  {
  }

  lemma EnumerateInMap(blocks: Blocks)
    ensures InMap(Enumerate(blocks.Keys), blocks)
  {
    var e := Enumerate(blocks.Keys);
    forall i | 0 <= i < |e|
      ensures e[i] in blocks
    {
      assert e[i] in e;
    }
  }

  /** What the walk's list holds: the heights of its blocks follow from what is below its end. */
  lemma ListHeights(list: seq<Bytes>, blocks: Blocks, zero: Bytes)
    requires Chain(list, blocks, zero) && Grounded(blocks, zero, list[0])
    ensures var below := Below(list, blocks, zero);
      && (below != zero && below in blocks ==> Grounded(blocks, zero, below))
      && forall j :: 0 <= j < |list| ==>
           && Grounded(blocks, zero, list[j])
           && Height(blocks, zero, list[j])
              == if below == zero then |list| - j
                 else if below !in blocks || Height(blocks, zero, below) == -1 then -1
                 else Height(blocks, zero, below) + |list| - j
  {
    hide Height, Path, Grounded;
    ChainHeights(list, blocks, zero, 0);
    forall j | 0 <= j < |list|
      ensures var below := Below(list, blocks, zero);
        && Grounded(blocks, zero, list[j])
        && Height(blocks, zero, list[j])
           == if below == zero then |list| - j
              else if below !in blocks || Height(blocks, zero, below) == -1 then -1
              else Height(blocks, zero, below) + |list| - j
    {
      ChainHeights(list, blocks, zero, j);
    }
  }

  lemma MarksStart(blocks: Blocks, zero: Bytes, order: seq<Bytes>, m: map<Bytes, int>)
    requires forall x :: x in blocks ==> x in m && m[x] == 0
    ensures MarksAfter(blocks, zero, order, 0, m)
  {
    hide OnPath;
  }

  /** The test at the head of the outer loop finds exactly the position where it is specified to stop. */
  lemma StopStep(blocks: Blocks, zero: Bytes, order: seq<Bytes>, k: nat, m: map<Bytes, int>)
    requires k < |order| && InMap(order, blocks) && MarksAfter(blocks, zero, order, k, m)
    ensures order[k] in m
    ensures Stop(blocks, zero, order, k)
         == if m[order[k]] == -1 then k else Stop(blocks, zero, order, k + 1)
  {
    hide Height, OnPath, Marked;
  }
}
