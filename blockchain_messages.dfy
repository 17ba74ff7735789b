/** Blockchain event messages (BlockchainMessages.cpp): a tagged union of
    three payloads, with accessors that each answer for one tag only.

    An accessor takes the caller's out-parameter and returns whether it
    answered together with the parameter's new value, which is the payload
    when it answered and the old value otherwise. */
module BlockchainMessages {
  import opened Crypto

  /** The tag of a message. */
  datatype MessageType = NewBlockType | NewAlternativeBlockType | ChainSwitchType

  /** A block added to the main chain. */
  datatype NewBlockMessage = NewBlockMessage(blockHash: Hash) {
    function Get(): Hash {
      blockHash
    }
  }

  /** A block added to an alternative chain. */
  datatype NewAlternativeBlockMessage = NewAlternativeBlockMessage(blockHash: Hash) {
    function Get(): Hash {
      blockHash
    }
  }

  /** The blocks of the new main chain from the common root, in order. */
  datatype ChainSwitchMessage = ChainSwitchMessage(blocksFromCommonRoot: seq<Hash>) {
    function Get(): seq<Hash> {
      blocksFromCommonRoot
    }

    /** The copy constructor: a copy holding the same hashes. */
    function Copy(): (c: ChainSwitchMessage)
      ensures c.Get() == Get()
    {
      ChainSwitchMessage(blocksFromCommonRoot[..])
    }
  }

  /** Each payload hands back what it was built from. */
  lemma PayloadsRoundTrip(h: Hash, hashes: seq<Hash>)
    ensures NewBlockMessage(h).Get() == h
    ensures NewAlternativeBlockMessage(h).Get() == h
    ensures ChainSwitchMessage(hashes).Get() == hashes
  {
  }

  datatype BlockchainMessage =
    | NewBlock(newBlockMessage: NewBlockMessage)
    | NewAlternativeBlock(newAlternativeBlockMessage: NewAlternativeBlockMessage)
    | ChainSwitch(chainSwitchMessage: ChainSwitchMessage)
  {
    /** The tag fixed by the constructor that built the message. */
    function GetType(): (t: MessageType)
      ensures t == NewBlockType <==> this.NewBlock?
      ensures t == NewAlternativeBlockType <==> this.NewAlternativeBlock?
      ensures t == ChainSwitchType <==> this.ChainSwitch?
    {
      match this
      case NewBlock(_) => NewBlockType
      case NewAlternativeBlock(_) => NewAlternativeBlockType
      case ChainSwitch(_) => ChainSwitchType
    }

    /** Answers with the block hash of a new-block message only. */
    function GetNewBlockHash(hash: Hash): (r: (bool, Hash))
      ensures r.0 <==> GetType() == NewBlockType
      ensures r.1 == if r.0 then newBlockMessage.blockHash else hash
    {
      if this.NewBlock? then (true, newBlockMessage.Get()) else (false, hash)
    }

    /** Answers with the block hash of an alternative-block message only. */
    function GetNewAlternativeBlockHash(hash: Hash): (r: (bool, Hash))
      ensures r.0 <==> GetType() == NewAlternativeBlockType
      ensures r.1 == if r.0 then newAlternativeBlockMessage.blockHash else hash
    {
      if this.NewAlternativeBlock? then (true, newAlternativeBlockMessage.Get()) else (false, hash)
    }

    /** Answers with the hashes of a chain-switch message only, replacing the caller's list. */
    function GetChainSwitch(hashes: seq<Hash>): (r: (bool, seq<Hash>))
      ensures r.0 <==> GetType() == ChainSwitchType
      ensures r.1 == if r.0 then chainSwitchMessage.blocksFromCommonRoot else hashes
    {
      if this.ChainSwitch? then (true, chainSwitchMessage.Get()) else (false, hashes)
    }
  }

  /** The copy constructor: the same tag and a copy of the payload. */
  function Copy(m: BlockchainMessage): (c: BlockchainMessage)
    ensures c.GetType() == m.GetType()
    ensures c == m
  {
    match m
    case NewBlock(b) => NewBlock(NewBlockMessage(b.blockHash))
    case NewAlternativeBlock(a) => NewAlternativeBlock(NewAlternativeBlockMessage(a.blockHash))
    case ChainSwitch(s) => ChainSwitch(s.Copy())
  }

  /** A message built from a payload gives that payload back from its own accessor. */
  lemma ConstructedMessagesAnswer(h: Hash, hashes: seq<Hash>, other: Hash, otherHashes: seq<Hash>)
    ensures NewBlock(NewBlockMessage(h)).GetType() == NewBlockType
    ensures NewBlock(NewBlockMessage(h)).GetNewBlockHash(other) == (true, h)
    ensures NewAlternativeBlock(NewAlternativeBlockMessage(h)).GetType() == NewAlternativeBlockType
    ensures NewAlternativeBlock(NewAlternativeBlockMessage(h)).GetNewAlternativeBlockHash(other) == (true, h)
    ensures ChainSwitch(ChainSwitchMessage(hashes)).GetType() == ChainSwitchType
    ensures ChainSwitch(ChainSwitchMessage(hashes)).GetChainSwitch(otherHashes) == (true, hashes)
  {
  }

  /** Exactly one accessor answers for any message; the others leave the caller's values alone. */
  lemma ExactlyOneAccessorAnswers(m: BlockchainMessage, h: Hash, hashes: seq<Hash>)
    ensures (if m.GetNewBlockHash(h).0 then 1 else 0)
          + (if m.GetNewAlternativeBlockHash(h).0 then 1 else 0)
          + (if m.GetChainSwitch(hashes).0 then 1 else 0) == 1
    ensures !m.GetNewBlockHash(h).0 ==> m.GetNewBlockHash(h).1 == h
    ensures !m.GetNewAlternativeBlockHash(h).0 ==> m.GetNewAlternativeBlockHash(h).1 == h
    ensures !m.GetChainSwitch(hashes).0 ==> m.GetChainSwitch(hashes).1 == hashes
  {
  }

  /** A copy answers every accessor as the original does. */
  lemma CopyAnswersAlike(m: BlockchainMessage, h: Hash, hashes: seq<Hash>)
    ensures Copy(m).GetType() == m.GetType()
    ensures Copy(m).GetNewBlockHash(h) == m.GetNewBlockHash(h)
    ensures Copy(m).GetNewAlternativeBlockHash(h) == m.GetNewAlternativeBlockHash(h)
    ensures Copy(m).GetChainSwitch(hashes) == m.GetChainSwitch(hashes)
  {
  }
}
