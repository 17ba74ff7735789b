/** The secondary indices of the chain core (BlockchainIndices.cpp).

    Each index has an `enabled` flag fixed at construction. When it is off,
    `add` and `remove` answer false and change nothing, `clear` does nothing,
    and `find` throws; the throw is the `Failure` of a `Result`, and the
    caller's output vector is left as it was.

    The block height, the block and transaction hashes and the payment id
    are computed outside these files; here they are fields of the `Block`
    and `Transaction` inputs. */
module BlockchainIndices {
  import opened Wrappers
  import opened Crypto
  import opened Multimap

  /** A transaction as the payment-id index sees it: its object hash and the
      payment id found in it, if any. */
  datatype Transaction = Transaction(hash: Hash, paymentId: Option<Hash>)

  /** A block as the generated-count and orphan indices see it: its hash, the
      height recorded in its base transaction, and the hashes of the
      transactions it includes besides the base transaction. */
  datatype Block = Block(hash: Hash, height: nat, transactionHashes: seq<Hash>)

  /** The `std::runtime_error` that a query on a disabled index throws. */
  datatype IndexError = IndexDisabled(message: string)

  const PaymentIdIndexDisabled := IndexDisabled("Payment id index disabled.")
  const TimestampBlockIndexDisabled := IndexDisabled("Timestamp block index disabled.")
  const TimestampTransactionsIndexDisabled := IndexDisabled("Timestamp transactions index disabled.")
  const GeneratedTransactionsIndexDisabled := IndexDisabled("Generated transactions index disabled.")
  const OrphanBlocksIndexDisabled := IndexDisabled("Orphan blocks index disabled.")

  /** Payment id -> transaction hash, an unordered multimap. The entries are
      kept in a sequence, but every contract speaks of their multiset only:
      the order of a bucket is not part of the model. */
  class PaymentIdIndex {
    const enabled: bool
    var index: seq<(Hash, Hash)>

    constructor(enabled: bool)
      ensures this.enabled == enabled && index == []
    {
      this.enabled := enabled;
      index := [];
    }

    /** Adds (payment id, transaction hash) when the transaction carries a payment id; duplicates are kept. */
    method Add(transaction: Transaction) returns (ok: bool)
      modifies this
      ensures ok == (enabled && transaction.paymentId.Some?)
      ensures ok ==> multiset(index) == old(multiset(index)) + multiset{(transaction.paymentId.value, transaction.hash)}
      ensures !ok ==> index == old(index)
    {
      if !enabled {
        return false;
      }
      if transaction.paymentId.None? {
        return false;
      }
      index := index + [(transaction.paymentId.value, transaction.hash)];
      return true;
    }

    /** Removes one copy of (payment id, transaction hash), if there is one. */
    method Remove(transaction: Transaction) returns (ok: bool)
      modifies this
      ensures ok == (enabled && transaction.paymentId.Some?
                     && (transaction.paymentId.value, transaction.hash) in old(index))
      ensures ok ==> multiset(index) == old(multiset(index)) - multiset{(transaction.paymentId.value, transaction.hash)}
      ensures !ok ==> index == old(index)
    {
      if !enabled {
        return false;
      }
      if transaction.paymentId.None? {
        return false;
      }
      var entry := (transaction.paymentId.value, transaction.hash);
      var rest;
      ok, rest := EraseFirstWithKey(index, entry.0, entry.1);
      RemoveFirstMultiset(index, entry);
      index := rest;
    }

    /** Appends every transaction hash stored under the payment id to the
        caller's vector, as often as it is stored; true iff one was appended. */
    method Find(paymentId: Hash, transactionHashes: seq<Hash>)
      returns (r: Result<bool, IndexError>, transactionHashes': seq<Hash>)
      ensures !enabled ==> r == Failure(PaymentIdIndexDisabled) && transactionHashes' == transactionHashes
      ensures enabled ==>
        && |transactionHashes| <= |transactionHashes'|
        && transactionHashes'[..|transactionHashes|] == transactionHashes
        && (forall v :: multiset(transactionHashes'[|transactionHashes|..])[v] == multiset(index)[(paymentId, v)])
        && r == Success(|transactionHashes| < |transactionHashes'|)
    {
      if !enabled {
        return Failure(PaymentIdIndexDisabled), transactionHashes;
      }
      var found;
      transactionHashes', found := AppendWithKey(index, paymentId, transactionHashes);
      assert transactionHashes'[|transactionHashes|..] == Values(WithKey(index, paymentId));
      forall v {
        ValuesWithKeyCount(index, paymentId, v);
      }
      r := Success(found);
    }

    method Clear()
      modifies this
      ensures index == if enabled then [] else old(index)
    {
      if enabled {
        index := [];
      }
    }
  }

  /** Block timestamp -> block hash, an ordered multimap. */
  class TimestampBlocksIndex {
    const enabled: bool
    var index: seq<(nat, Hash)>

    ghost predicate Valid()
      reads this
    {
      Sorted(index)
    }

    constructor(enabled: bool)
      ensures Valid() && this.enabled == enabled && index == []
    {
      this.enabled := enabled;
      index := [];
    }

    method Add(timestamp: nat, hash: Hash) returns (ok: bool)
      requires Valid()
      modifies this
      ensures Valid()
      ensures ok == enabled
      ensures index == if enabled then Emplace(old(index), timestamp, hash) else old(index)
    {
      if !enabled {
        return false;
      }
      index := Emplace(index, timestamp, hash);
      return true;
    }

    /** Erases the first entry (timestamp, hash) of the timestamp's range, if there is one. */
    method Remove(timestamp: nat, hash: Hash) returns (ok: bool)
      requires Valid()
      modifies this
      ensures Valid()
      ensures ok == (enabled && (timestamp, hash) in old(index))
      ensures index == if enabled then RemoveFirst(old(index), (timestamp, hash)) else old(index)
    {
      if !enabled {
        return false;
      }
      var rest;
      ok, rest := EraseFromEqualRange(index, timestamp, hash);
      RemoveFirstSorted(index, (timestamp, hash));
      index := rest;
    }

    /** Appends, in timestamp order, the first `hashesNumberLimit` hashes whose
        timestamp lies in [timestampBegin, timestampEnd], and reports how many
        lie there in all. An empty interval answers false and writes neither output. */
    method Find(timestampBegin: nat, timestampEnd: nat, hashesNumberLimit: nat, hashes: seq<Hash>)
      returns (r: Result<bool, IndexError>, hashes': seq<Hash>, hashesNumberWithinTimestamps: Option<nat>)
      requires Valid()
      ensures !enabled ==> r == Failure(TimestampBlockIndexDisabled) && hashes' == hashes && hashesNumberWithinTimestamps.None?
      ensures enabled && timestampBegin > timestampEnd ==>
        r == Success(false) && hashes' == hashes && hashesNumberWithinTimestamps.None?
      ensures enabled && timestampBegin <= timestampEnd ==>
        var within := InRange(index, timestampBegin, timestampEnd);
        && hashesNumberWithinTimestamps == Some(|within|)
        && hashes' == hashes + Take(Values(within), hashesNumberLimit)
        && r == Success(0 < hashesNumberLimit && within != [])
    {
      if !enabled {
        return Failure(TimestampBlockIndexDisabled), hashes, None;
      }
      if timestampBegin > timestampEnd {
        return Success(false), hashes, None;
      }
      var begin, end := LowerBound(index, timestampBegin), UpperBound(index, timestampEnd);
      RangeIsSlice(index, timestampBegin, timestampEnd);
      hashesNumberWithinTimestamps := Some(end - begin);
      var hashesNumber;
      hashes', hashesNumber := AppendRange(index, begin, end, hashesNumberLimit, hashes);
      r := Success(hashesNumber > 0);
    }

    method Clear()
      requires Valid()
      modifies this
      ensures Valid()
      ensures index == if enabled then [] else old(index)
    {
      if enabled {
        index := [];
      }
    }
  }

  /** The entries a transaction-timestamp query covers: those stamped in
      [b, e], except that a query ending at 0 on a non-empty index with no
      entry stamped 0 covers the first entry instead, so that a genesis
      transaction stamped later than 0 is still found. */
  function TransactionsInRange(s: seq<(nat, Hash)>, b: nat, e: nat): seq<(nat, Hash)> {
    if e == 0 && |s| > 0 && InRange(s, b, e) == [] then [s[0]] else InRange(s, b, e)
  }

  /** Transaction timestamp -> transaction hash, an ordered multimap. */
  class TimestampTransactionsIndex {
    const enabled: bool
    var index: seq<(nat, Hash)>

    ghost predicate Valid()
      reads this
    {
      Sorted(index)
    }

    constructor(enabled: bool)
      ensures Valid() && this.enabled == enabled && index == []
    {
      this.enabled := enabled;
      index := [];
    }

    method Add(timestamp: nat, hash: Hash) returns (ok: bool)
      requires Valid()
      modifies this
      ensures Valid()
      ensures ok == enabled
      ensures index == if enabled then Emplace(old(index), timestamp, hash) else old(index)
    {
      if !enabled {
        return false;
      }
      index := Emplace(index, timestamp, hash);
      return true;
    }

    method Remove(timestamp: nat, hash: Hash) returns (ok: bool)
      requires Valid()
      modifies this
      ensures Valid()
      ensures ok == (enabled && (timestamp, hash) in old(index))
      ensures index == if enabled then RemoveFirst(old(index), (timestamp, hash)) else old(index)
    {
      if !enabled {
        return false;
      }
      var rest;
      ok, rest := EraseFromEqualRange(index, timestamp, hash);
      RemoveFirstSorted(index, (timestamp, hash));
      index := rest;
    }

    /** As `TimestampBlocksIndex.Find`, over `TransactionsInRange`. */
    method Find(timestampBegin: nat, timestampEnd: nat, hashesNumberLimit: nat, hashes: seq<Hash>)
      returns (r: Result<bool, IndexError>, hashes': seq<Hash>, hashesNumberWithinTimestamps: Option<nat>)
      requires Valid()
      ensures !enabled ==> r == Failure(TimestampTransactionsIndexDisabled) && hashes' == hashes && hashesNumberWithinTimestamps.None?
      ensures enabled && timestampBegin > timestampEnd ==>
        r == Success(false) && hashes' == hashes && hashesNumberWithinTimestamps.None?
      ensures enabled && timestampBegin <= timestampEnd ==>
        var within := TransactionsInRange(index, timestampBegin, timestampEnd);
        && hashesNumberWithinTimestamps == Some(|within|)
        && hashes' == hashes + Take(Values(within), hashesNumberLimit)
        && r == Success(0 < hashesNumberLimit && within != [])
    {
      if !enabled {
        return Failure(TimestampTransactionsIndexDisabled), hashes, None;
      }
      if timestampBegin > timestampEnd {
        return Success(false), hashes, None;
      }
      var begin, end := LowerBound(index, timestampBegin), UpperBound(index, timestampEnd);
      RangeIsSlice(index, timestampBegin, timestampEnd);
      if timestampEnd == 0 && end == begin && begin == 0 && |index| > 0 {
        end := end + 1;
      }
      assert index[begin..end] == TransactionsInRange(index, timestampBegin, timestampEnd);
      hashesNumberWithinTimestamps := Some(end - begin);
      var hashesNumber;
      hashes', hashesNumber := AppendRange(index, begin, end, hashesNumberLimit, hashes);
      r := Success(hashesNumber > 0);
    }

    method Clear()
      requires Valid()
      modifies this
      ensures Valid()
      ensures index == if enabled then [] else old(index)
    {
      if enabled {
        index := [];
      }
    }
  }

  /** A query ending at 0 on an index whose earliest entry is stamped later
      than 0 finds exactly that entry. */
  lemma GenesisTransactionFound(s: seq<(nat, Hash)>)
    requires Sorted(s) && |s| > 0 && s[0].0 > 0
    ensures TransactionsInRange(s, 0, 0) == [s[0]]
  {
    RangeIsSlice(s, 0, 0);
  }

  /** The sum of a sequence of counts. */
  function Sum(s: seq<nat>): nat {
    if |s| == 0 then 0 else Sum(s[..|s| - 1]) + s[|s| - 1]
  }

  /** The stored heights are exactly 0 .. size-1. */
  ghost predicate Dense(index: map<nat, nat>) {
    forall h: nat :: h in index <==> h < |index|
  }

  /** The count stored just below height h, or 0 at height 0. */
  ghost function Below(index: map<nat, nat>, h: nat): nat
    requires Dense(index) && h <= |index|
  {
    if h == 0 then 0 else index[h - 1]
  }

  /** Each stored count is the count below it plus its height's
      contribution, and the running total is the top count. */
  ghost predicate Counted(index: map<nat, nat>, total: nat, contributions: seq<nat>) {
    && Dense(index)
    && |contributions| == |index|
    && (forall h: nat {:trigger contributions[h]} :: h < |index| ==> index[h] == Below(index, h) + contributions[h])
    && total == Below(index, |index|)
  }

  lemma DenseAppend(index: map<nat, nat>, count: nat)
    requires Dense(index)
    ensures Dense(index[|index| := count])
  {
    var index' := index[|index| := count];
    assert |index| !in index;
    assert |index'| == |index| + 1;
    forall h: nat
      ensures h in index' <==> h < |index'|
    {
    }
  }

  lemma DenseDropTop(index: map<nat, nat>, top: nat)
    requires Dense(index) && top + 1 == |index|
    ensures Dense(index - {top})
  {
    var index' := index - {top};
    assert index.Keys == index'.Keys + {top};
    assert |index'| == top;
    forall h: nat
      ensures h in index' <==> h < |index'|
    {
    }
  }

  /** Adding a block stores the previous total plus its contribution at the next height. */
  lemma CountedAppend(index: map<nat, nat>, total: nat, contributions: seq<nat>, c: nat)
    requires Counted(index, total, contributions)
    ensures Counted(index[|index| := total + c], total + c, contributions + [c])
  {
    var n := |index|;
    var index' := index[n := total + c];
    var cs := contributions + [c];
    DenseAppend(index, total + c);
    assert |index'| == n + 1;
    forall h: nat | h < n + 1
      ensures index'[h] == Below(index', h) + cs[h]
    {
      if h < n {
        assert index'[h] == index[h] && cs[h] == contributions[h];
        assert Below(index', h) == Below(index, h);
      }
    }
  }

  /** Removing the top height leaves the other counts, and the count below
      the top, or 0, becomes the running total. */
  lemma CountedDropTop(index: map<nat, nat>, total: nat, contributions: seq<nat>, top: nat)
    requires Counted(index, total, contributions) && top + 1 == |index|
    ensures Counted(index - {top}, Below(index, top), contributions[..top])
  {
    var index' := index - {top};
    var cs := contributions[..top];
    DenseDropTop(index, top);
    assert |index'| == top;
    forall h: nat | h < top
      ensures index'[h] == Below(index', h) + cs[h]
    {
      assert index'[h] == index[h] && cs[h] == contributions[h];
      assert Below(index', h) == Below(index, h);
    }
  }

  /** The count stored below each height is the sum of the contributions of
      the heights under it. */
  lemma {:induction false} CountedBelowIsSum(index: map<nat, nat>, total: nat, contributions: seq<nat>, h: nat)
    requires Counted(index, total, contributions) && h <= |index|
    ensures Below(index, h) == Sum(contributions[..h])
    decreases h
  {
    if h > 0 {
      CountedBelowIsSum(index, total, contributions, h - 1);
      assert contributions[..h][..h - 1] == contributions[..h - 1];
    }
  }

  /** Height -> number of transactions in the chain up to and including that
      height, plus the running total of the top height. */
  class GeneratedTransactionsIndex {
    const enabled: bool
    var index: map<nat, nat>
    var lastGeneratedTxNumber: nat
    /** What each stored height added to the total (its transactions plus the
        miner transaction), in height order. */
    ghost var Contributions: seq<nat>

    /** The stored heights are exactly 0 .. size-1. */
    ghost predicate Valid()
      reads this
    {
      Dense(index)
    }

    /** Every stored count and the running total agree with the blocks added
        since the index was last empty with a zero total. */
    ghost predicate Consistent()
      reads this
    {
      Counted(index, lastGeneratedTxNumber, Contributions)
    }

    constructor(enabled: bool)
      ensures Consistent() && this.enabled == enabled && index == map[] && lastGeneratedTxNumber == 0
    {
      this.enabled := enabled;
      index := map[];
      lastGeneratedTxNumber := 0;
      Contributions := [];
    }

    /** Appends the next height: succeeds iff the block's height is the
        current size, and then stores the previous total plus the block's
        transactions plus its miner transaction. */
    method Add(block: Block) returns (ok: bool)
      requires Valid()
      modifies this
      ensures Valid()
      ensures ok == (enabled && block.height == |old(index)|)
      ensures ok ==>
        && index == old(index)[block.height := old(lastGeneratedTxNumber) + |block.transactionHashes| + 1]
        && lastGeneratedTxNumber == old(lastGeneratedTxNumber) + |block.transactionHashes| + 1
      ensures !ok ==> index == old(index) && lastGeneratedTxNumber == old(lastGeneratedTxNumber)
      ensures Contributions == if ok then old(Contributions) + [|block.transactionHashes| + 1] else old(Contributions)
      ensures old(Consistent()) ==> Consistent()
    {
      if !enabled {
        return false;
      }
      var blockHeight := block.height;
      if |index| != blockHeight {
        return false;
      }
      var contribution := |block.transactionHashes| + 1;
      var newIndex := index[blockHeight := lastGeneratedTxNumber + contribution];
      var newTotal := lastGeneratedTxNumber + contribution;
      ghost var newContributions := Contributions + [contribution];
      assert Dense(newIndex) by {
        DenseAppend(index, newTotal);
      }
      ghost var wasConsistent := Consistent();
      assert wasConsistent ==> Counted(newIndex, newTotal, newContributions) by {
        if wasConsistent {
          CountedAppend(index, lastGeneratedTxNumber, Contributions, contribution);
        }
      }
      index, lastGeneratedTxNumber, Contributions := newIndex, newTotal, newContributions;
      return true;
    }

    /** Removes the top height: succeeds iff the block's height is size-1,
        and then rewinds the total to the count stored one height below, or
        to 0 when the index becomes empty. */
    method Remove(block: Block) returns (ok: bool)
      requires Valid()
      modifies this
      ensures Valid()
      ensures ok == (enabled && |old(index)| > 0 && block.height == |old(index)| - 1)
      ensures ok ==>
        && index == old(index) - {block.height}
        && lastGeneratedTxNumber == if block.height == 0 then 0 else old(index)[block.height - 1]
      ensures !ok ==> index == old(index) && lastGeneratedTxNumber == old(lastGeneratedTxNumber)
      ensures !ok ==> Contributions == old(Contributions)
      ensures ok && old(Consistent()) ==> Contributions == old(Contributions)[..block.height]
      ensures old(Consistent()) ==> Consistent()
    {
      if !enabled {
        return false;
      }
      var blockHeight := block.height;
      if blockHeight != |index| - 1 {
        return false;
      }
      assert blockHeight in index;
      var newIndex := index - {blockHeight};
      var newTotal := if blockHeight != 0 then index[blockHeight - 1] else 0;
      ghost var newContributions := if |Contributions| >= blockHeight then Contributions[..blockHeight] else [];
      assert Dense(newIndex) by {
        DenseDropTop(index, blockHeight);
      }
      ghost var wasConsistent := Consistent();
      assert wasConsistent ==> Counted(newIndex, newTotal, newContributions) by {
        if wasConsistent {
          CountedDropTop(index, lastGeneratedTxNumber, Contributions, blockHeight);
        }
      }
      index, lastGeneratedTxNumber, Contributions := newIndex, newTotal, newContributions;
      return true;
    }

    /** The cumulative count stored at a height; for a consistent index this
        is the sum of the contributions of heights 0 .. height. */
    method Find(height: nat) returns (r: Result<Option<nat>, IndexError>)
      ensures !enabled ==> r == Failure(GeneratedTransactionsIndexDisabled)
      ensures enabled ==> r.Success? && (r.value.Some? <==> height in index)
      ensures enabled && height in index ==> r.value.value == index[height]
      ensures enabled && Consistent() && height < |Contributions| ==> r == Success(Some(Sum(Contributions[..height + 1])))
    {
      if !enabled {
        return Failure(GeneratedTransactionsIndexDisabled);
      }
      if Consistent() && height < |Contributions| {
        CountedBelowIsSum(index, lastGeneratedTxNumber, Contributions, height + 1);
      }
      if height !in index {
        return Success(None);
      }
      return Success(Some(index[height]));
    }

    /** `clear` as BlockchainIndices.cpp writes it: the entries go, but the
        running total is kept, so the index is left consistent only when that
        total was already 0. */
    method ClearAsWritten()
      requires Valid()
      modifies this
      ensures Valid()
      ensures index == (if enabled then map[] else old(index))
      ensures lastGeneratedTxNumber == old(lastGeneratedTxNumber)
      ensures enabled ==> (Consistent() <==> lastGeneratedTxNumber == 0)
      ensures !enabled ==> Contributions == old(Contributions)
    {
      if enabled {
        index := map[];
        Contributions := [];
      }
    }

    /** `clear` with the running total reset as well: the index is left
        empty and consistent, as after construction. */
    method Clear()
      requires Valid()
      modifies this
      ensures Valid()
      ensures enabled ==> index == map[] && lastGeneratedTxNumber == 0 && Consistent()
      ensures !enabled ==>
        index == old(index) && lastGeneratedTxNumber == old(lastGeneratedTxNumber) && Contributions == old(Contributions)
    {
      if enabled {
        index := map[];
        lastGeneratedTxNumber := 0;
        Contributions := [];
      }
    }
  }

  /** In a consistent index each stored count is the number of transactions
      (miner transactions included) of the heights up to it, and the running
      total is that number for the whole index. */
  lemma CountsAreSums(g: GeneratedTransactionsIndex)
    requires g.Consistent()
    ensures forall h: nat :: h < |g.index| ==> h in g.index && g.index[h] == Sum(g.Contributions[..h + 1])
    ensures g.lastGeneratedTxNumber == Sum(g.Contributions)
  {
    forall h: nat | h < |g.index|
      ensures h in g.index && g.index[h] == Sum(g.Contributions[..h + 1])
    {
      CountedBelowIsSum(g.index, g.lastGeneratedTxNumber, g.Contributions, h + 1);
    }
    CountedBelowIsSum(g.index, g.lastGeneratedTxNumber, g.Contributions, |g.index|);
    assert g.Contributions[..|g.index|] == g.Contributions;
  }

  /** Applying a block and rolling it back leaves a consistent index as it was. */
  method GeneratedRollback(g: GeneratedTransactionsIndex, block: Block)
    requires g.Consistent() && g.enabled && block.height == |g.index|
    modifies g
    ensures g.Consistent()
    ensures g.index == old(g.index) && g.lastGeneratedTxNumber == old(g.lastGeneratedTxNumber)
  {
    ghost var index0 := g.index;
    var added := g.Add(block);
    var removed := g.Remove(block);
    assert block.height !in index0;
    assert g.index == index0;
  }

  /** Adding a block with no transactions besides the miner transaction at
      height 0, clearing, and adding it again: with `clear` as written the
      stored count is 2, although the chain holds one transaction. */
  method StaleTotalAfterClear(h: Hash) returns (r: Result<Option<nat>, IndexError>)
    ensures r == Success(Some(2))
  {
    var block := Block(h, 0, []);
    var g := new GeneratedTransactionsIndex(true);
    var ok := g.Add(block);
    g.ClearAsWritten();
    ok := g.Add(block);
    r := g.Find(0);
  }

  /** The same steps with the running total reset by `Clear`: the stored count is 1. */
  method RestartedTotalAfterClear(h: Hash) returns (r: Result<Option<nat>, IndexError>)
    ensures r == Success(Some(1))
  {
    var block := Block(h, 0, []);
    var g := new GeneratedTransactionsIndex(true);
    var ok := g.Add(block);
    g.Clear();
    ok := g.Add(block);
    r := g.Find(0);
  }

  /** Block height -> hash of a block that left the main chain, an ordered multimap. */
  class OrphanBlocksIndex {
    const enabled: bool
    var index: seq<(nat, Hash)>

    ghost predicate Valid()
      reads this
    {
      Sorted(index)
    }

    constructor(enabled: bool)
      ensures Valid() && this.enabled == enabled && index == []
    {
      this.enabled := enabled;
      index := [];
    }

    method Add(block: Block) returns (ok: bool)
      requires Valid()
      modifies this
      ensures Valid()
      ensures ok == enabled
      ensures index == if enabled then Emplace(old(index), block.height, block.hash) else old(index)
    {
      if !enabled {
        return false;
      }
      index := Emplace(index, block.height, block.hash);
      return true;
    }

    method Remove(block: Block) returns (ok: bool)
      requires Valid()
      modifies this
      ensures Valid()
      ensures ok == (enabled && (block.height, block.hash) in old(index))
      ensures index == if enabled then RemoveFirst(old(index), (block.height, block.hash)) else old(index)
    {
      if !enabled {
        return false;
      }
      var rest;
      ok, rest := EraseFromEqualRange(index, block.height, block.hash);
      RemoveFirstSorted(index, (block.height, block.hash));
      index := rest;
    }

    /** Appends every orphan hash stored at the height, in insertion order;
        true iff one was appended. */
    method Find(height: nat, blockHashes: seq<Hash>) returns (r: Result<bool, IndexError>, blockHashes': seq<Hash>)
      requires Valid()
      ensures !enabled ==> r == Failure(OrphanBlocksIndexDisabled) && blockHashes' == blockHashes
      ensures enabled ==>
        && blockHashes' == blockHashes + Values(WithKey(index, height))
        && r == Success(WithKey(index, height) != [])
    {
      if !enabled {
        return Failure(OrphanBlocksIndexDisabled), blockHashes;
      }
      var begin, end := LowerBound(index, height), UpperBound(index, height);
      EqualRangeIsWithKey(index, height);
      var found;
      blockHashes', found := AppendAll(index, begin, end, blockHashes);
      r := Success(found);
    }

    method Clear()
      requires Valid()
      modifies this
      ensures Valid()
      ensures index == if enabled then [] else old(index)
    {
      if enabled {
        index := [];
      }
    }
  }
}
