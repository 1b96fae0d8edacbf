/**
Keeping the number-to-hash index and the transaction lookup index in step with the head
block, across reorganisations.  Blocks are stored by hash; hashes and transaction hashes
are numbers.
 */
module Reorg {
  import opened Options

  type Hash = nat
  type Tx = nat

  datatype Block = Block(hash: Hash, parent: Hash, number: nat, difficulty: nat, txs: seq<Tx>)

  type Blocks = map<Hash, Block>

  /** `GetBlock`: the block with this hash, if it is stored under this number. */
  function GetBlock(blocks: Blocks, hash: Hash, number: int): Option<Block> {
    if hash in blocks && blocks[hash].number == number then Some(blocks[hash]) else None
  }

  function Parent(blocks: Blocks, b: Block): (p: Option<Block>)
    ensures p.Some? ==> p.value.number + 1 == b.number
  {
    GetBlock(blocks, b.parent, b.number - 1)
  }

  predicate Stored(blocks: Blocks, b: Block) {
    b.hash in blocks && blocks[b.hash] == b
  }

  predicate Linked(blocks: Blocks, h: Hash)
    requires h in blocks
  {
    blocks[h].parent in blocks ==> blocks[h].number == blocks[blocks[h].parent].number + 1
  }

  /** Blocks are stored under their own hash, one above their parent. */
  predicate StoreOk(blocks: Blocks) {
    && (forall h {:trigger blocks[h]} :: h in blocks ==> blocks[h].hash == h)
    && (forall h {:trigger Linked(blocks, h)} :: h in blocks ==> Linked(blocks, h))
  }

  /** `chain` is the ancestry of `b`, from block 0 to `b`. */
  ghost predicate Ancestry(blocks: Blocks, chain: seq<Block>, b: Block) {
    && |chain| == b.number + 1 && chain[b.number] == b
    && (forall i :: 0 <= i < |chain| ==> chain[i].number == i && Stored(blocks, chain[i]))
    && (forall i :: 0 < i < |chain| ==> chain[i].parent == chain[i - 1].hash)
  }

  /** No transaction occurs in two blocks of a chain. */
  ghost predicate DistinctTxs(chain: seq<Block>) {
    forall i, j, tx :: 0 <= i < |chain| && 0 <= j < |chain| && tx in chain[i].txs && tx in chain[j].txs ==> i == j
  }

  /** The number-to-hash index of exactly these blocks. */
  ghost predicate IndexesNumbers(canon: map<nat, Hash>, chain: seq<Block>) {
    && (forall n :: n in canon <==> 0 <= n < |chain|)
    && (forall n :: 0 <= n < |chain| ==> canon[n] == chain[n].hash)
  }

  /** The number index is right up to the head; entries above it, left behind by a lower head, reach
      without a gap up to `top`. */
  ghost predicate NumbersTo(canon: map<nat, Hash>, chain: seq<Block>, top: nat) {
    && |chain| <= top && (forall n :: n in canon <==> 0 <= n < top)
    && (forall n :: 0 <= n < |chain| ==> canon[n] == chain[n].hash)
  }

  /** The transaction index of exactly these blocks. */
  ghost predicate IndexesTxs(lookup: map<Tx, nat>, chain: seq<Block>) {
    && (forall n, tx :: 0 <= n < |chain| && tx in chain[n].txs ==> tx in lookup && lookup[tx] == n)
    && (forall tx :: tx in lookup ==> lookup[tx] < |chain| && tx in chain[lookup[tx]].txs)
  }

  class BlockChain {
    var blocks: Blocks
    var canon: map<nat, Hash>
    var lookup: map<Tx, nat>
    var currentBlock: Block
    var headHeader: Hash
    var headFastBlock: Hash
    var td: map<Hash, nat>

    constructor (genesis: Block)
      requires genesis.number == 0 && genesis.parent != genesis.hash && genesis.txs == []
      ensures Current([genesis], 1) && Sound(blocks, td, [genesis], currentBlock) && Marks([genesis], 1)
    {
      blocks := map[genesis.hash := genesis];
      td := map[genesis.hash := genesis.difficulty];
      canon, lookup := map[0 := genesis.hash], map[];
      currentBlock, headHeader, headFastBlock := genesis, genesis.hash, genesis.hash;
    }

    /** Makes a block the head: its number and its transactions are indexed. */
    method WriteHeadBlock(block: Block)
      modifies this`canon, this`lookup, this`currentBlock, this`headHeader, this`headFastBlock
      ensures canon == old(canon)[block.number := block.hash] && currentBlock == block
      ensures lookup == old(lookup) + (map tx | tx in block.txs :: block.number)
      ensures var known := block.number in old(canon) && old(canon)[block.number] == block.hash;
              && headHeader == (if known then old(headHeader) else block.hash)
              && headFastBlock == (if known then old(headFastBlock) else block.hash)
    {
      var updateHeads := !(block.number in canon && canon[block.number] == block.hash);
      var batch := IndexTxs(lookup, block);
      canon := canon[block.number := block.hash];
      lookup := batch;
      if updateHeads {
        headHeader, headFastBlock := block.hash, block.hash;
      }
      currentBlock := block;
    }

    /** The transaction index describes exactly the ancestry of the head block, and so does the number
        index up to the head. */
    ghost predicate Current(chain: seq<Block>, top: nat)
      reads this
    {
      && StoreOk(blocks) && Ancestry(blocks, chain, currentBlock) && DistinctTxs(chain)
      && NumbersTo(canon, chain, top) && IndexesTxs(lookup, chain)
    }

    /** The head header and the head fast block are one block, and the head lies on its chain. */
    ghost predicate Marks(chain: seq<Block>, top: nat)
      reads this
    {
      Marked(blocks, canon, chain, top, currentBlock, headHeader) && headFastBlock == headHeader
    }

    /** Switches the indexes to the branch of `newBlock`, all but that block itself, which the
        caller writes next.  `common` is the height of the last block shared with the old chain. */
    method Reorg(newBlock: Block, ghost oldFull: seq<Block>, ghost top: nat)
      returns (ok: bool, ghost newFull: seq<Block>, ghost common: nat)
      requires Current(oldFull, top) && Stored(blocks, newBlock)
      requires forall chain :: Ancestry(blocks, chain, newBlock) ==> DistinctTxs(chain)
      modifies this`canon, this`lookup, this`currentBlock, this`headHeader, this`headFastBlock
      ensures ok <==> Connects(blocks, oldFull, newBlock)
      ensures !ok ==> unchanged(this)
      ensures ok ==>
                && Ancestry(blocks, newFull, newBlock)
                && SharedTo(newFull, oldFull, common)
                && (forall n :: common < n < |newFull| ==> !OnChain(oldFull, newFull[n]))
                && IndexesTxs(lookup, if common + 1 < |newFull| then newFull[..|newFull| - 1] else newFull)
                && IndexesNumbers(canon, if common + 2 < |newFull| then newFull[..|newFull| - 1] else oldFull)
      ensures ok && common + 2 >= |newFull| ==>
                headHeader == old(headHeader) && headFastBlock == old(headFastBlock)
    {
      var newChain, deleted;
      ok, newChain, deleted, common, newFull := Fork(blocks, currentBlock, newBlock, oldFull);
      if !ok {
        return;
      }
      StartsHalf(canon, lookup, oldFull, newFull, common, top);
      var added;
      ghost var m;
      added, m := WriteBranch(newChain, oldFull, newFull, common, top);
      DropStale(lookup, newFull, oldFull, common, m);
      lookup := lookup - (deleted - added);
      assert newFull[..|newFull|] == newFull;
      ClearAfter(oldFull, newFull, m, top, |newChain| >= 2);
    }

    /** Makes a stored block the head.  It fails, and writes nothing, exactly when the block does not
        lead back to the present chain.  Otherwise the transaction index is exact and the number index
        right up to the head; it says exactly when nothing stale is left above.  The block becomes the
        head header and the head fast block, unless the index already had it below or on top of the
        head: then both stay. */
    method WriteKnownBlock(block: Block, ghost oldFull: seq<Block>, ghost top: nat)
      returns (ok: bool, ghost newFull: seq<Block>, ghost top': nat)
      requires Current(oldFull, top) && Stored(blocks, block)
      requires forall chain :: Ancestry(blocks, chain, block) ==> DistinctTxs(chain)
      modifies this`canon, this`lookup, this`currentBlock, this`headHeader, this`headFastBlock
      ensures ok <==> Connects(blocks, oldFull, block)
      ensures !ok ==> unchanged(this)
      ensures ok ==> currentBlock == block && Current(newFull, top')
      ensures ok ==> (top' == |newFull| <==> !LeavesStale(old(canon), old(currentBlock), block))
      ensures ok ==>
                if block.number in old(canon) && old(canon)[block.number] == block.hash
                   && (block.number <= old(currentBlock).number || block.parent == old(currentBlock).hash)
                then headHeader == old(headHeader) && headFastBlock == old(headFastBlock)
                else headHeader == block.hash && headFastBlock == block.hash
      ensures ok && old(Marks(oldFull, top)) ==> Marks(newFull, top')
    {
      ghost var head := currentBlock;
      ghost var was := canon;
      ghost var header := headHeader;
      top' := top;
      if block.parent != currentBlock.hash {
        ghost var common;
        ok, newFull, common := Reorg(block, oldFull, top);
        if !ok {
          return;
        }
        WritesLast(lookup, newFull, common + 1 >= |newFull|);
        top' := if common + 2 < |newFull| then |newFull| else |oldFull|;
        AncestryStep(blocks, newFull, block);
        NumbersExactIff(was, canon, oldFull, newFull, common, head, block, top);
        NamedIff(was, canon, oldFull, newFull, common, head, block, top);
        ReorgMarks(blocks, was, canon, oldFull, newFull, common, head, block, top, header);
      } else {
        newFull := oldFull + [block];
        ExtendsAncestry(blocks, oldFull, head, block);
        top' := if top == |oldFull| then top + 1 else top;
        ExtendsHead(canon, lookup, oldFull, block, top);
        ExtendMarks(blocks, canon, oldFull, head, block, top, header);
        ok := true;
      }
      WriteHeadBlock(block);
    }

    /** Stores a block whose parent's total difficulty is known, and makes it the head if fork choice
        says so.  The two `preserve` flags and the coin are the answers of the miner's policy and of
        the random source.  No such reorganisation ever fails, and the head stays a heaviest block. */
    method WriteBlockWithState(block: Block, policy: Policy, ghost oldFull: seq<Block>, ghost top: nat)
      returns (status: WriteStatus, ghost newFull: seq<Block>, ghost top': nat)
      requires Current(oldFull, top) && Sound(blocks, td, oldFull, currentBlock)
      requires Extends(blocks, block)
      modifies this
      ensures status.Unknown? <==> Parent(old(blocks), block).None?
      ensures status.Unknown? ==> unchanged(this) && newFull == oldFull && top' == top
      ensures blocks == StoreAfter(old(blocks), block)
      ensures Current(newFull, top') && Sound(blocks, td, newFull, currentBlock)
      ensures !status.Unknown? ==>
                && block.hash in td && old(currentBlock).hash in td
                && (status.Canon? <==> Adopts(td[block.hash], td[old(currentBlock).hash], block.number,
                                              old(currentBlock).number, policy))
      ensures status.Side? ==> newFull == oldFull && currentBlock == old(currentBlock) && top' == top
                               && headHeader == old(headHeader) && headFastBlock == old(headFastBlock)
      ensures status.Canon? ==> currentBlock == block
      ensures status.Canon? ==>
                if block.number in old(canon) && old(canon)[block.number] == block.hash
                   && (block.number <= old(currentBlock).number || block.parent == old(currentBlock).hash)
                then headHeader == old(headHeader) && headFastBlock == old(headFastBlock)
                else headHeader == block.hash && headFastBlock == block.hash
      ensures old(Marks(oldFull, top)) ==> Marks(newFull, top')
      ensures status.Canon? ==> (top' == |newFull| <==> !LeavesStale(old(canon), old(currentBlock), block))
    {
      newFull, top' := oldFull, top;
      if Parent(blocks, block).None? {
        return Unknown, oldFull, top;
      }
      var externTd, localTd := block.difficulty + td[block.parent], td[currentBlock.hash];
      StoreGrows(blocks, td, oldFull, currentBlock, block, externTd);
      MarkedGrows(blocks, canon, oldFull, top, currentBlock, headHeader, block);
      td := td[block.hash := externTd];
      blocks := blocks[block.hash := block];
      var canonical;
      var adopt := Adopts(externTd, localTd, block.number, currentBlock.number, policy);
      canonical, newFull, top' := Choose(block, adopt, oldFull, top);
      status := if canonical then Canon else Side;
    }

    method Choose(block: Block, adopt: bool, ghost oldFull: seq<Block>, ghost top: nat)
      returns (canonical: bool, ghost newFull: seq<Block>, ghost top': nat)
      requires Current(oldFull, top) && Stored(blocks, block) && Rooted(blocks, oldFull[0])
      requires forall chain :: Ancestry(blocks, chain, block) ==> DistinctTxs(chain)
      requires Heaviest(blocks, td, if adopt then block else currentBlock)
      modifies this`canon, this`lookup, this`currentBlock, this`headHeader, this`headFastBlock
      ensures Sound(blocks, td, newFull, currentBlock) && canonical == adopt && Current(newFull, top')
      ensures !adopt ==> newFull == oldFull && currentBlock == old(currentBlock) && top' == top
                         && headHeader == old(headHeader) && headFastBlock == old(headFastBlock)
      ensures adopt ==> currentBlock == block
      ensures adopt ==>
                if block.number in old(canon) && old(canon)[block.number] == block.hash
                   && (block.number <= old(currentBlock).number || block.parent == old(currentBlock).hash)
                then headHeader == old(headHeader) && headFastBlock == old(headFastBlock)
                else headHeader == block.hash && headFastBlock == block.hash
      ensures old(Marks(oldFull, top)) ==> Marks(newFull, top')
      ensures adopt ==> (top' == |newFull| <==> !LeavesStale(old(canon), old(currentBlock), block))
    {
      newFull, top' := oldFull, top;
      canonical := adopt;
      if adopt {
        RootedConnects(blocks, oldFull, currentBlock, block);
        canonical, newFull, top' := WriteKnownBlock(block, oldFull, top);
        SameGenesis(blocks, oldFull[0], newFull, block);
      }
    }

    /** Any blocks, offered in any order: in every state reached the head is a heaviest stored block, the
        transaction index is exact, the number index is right up to the head, and the head lies on the
        chain of the head header and the head fast block, which are one. */
    method WriteBlocks(news: seq<Block>, policies: nat -> Policy, ghost chain0: seq<Block>, ghost top0: nat)
      returns (ghost chain: seq<Block>, ghost top: nat)
      requires Current(chain0, top0) && Sound(blocks, td, chain0, currentBlock) && Insertable(blocks, news)
      modifies this
      ensures Current(chain, top) && Sound(blocks, td, chain, currentBlock)
      ensures blocks == StoreAfterAll(old(blocks), news)
      ensures old(Marks(chain0, top0)) ==> Marks(chain, top)
      ensures old(Marks(chain0, top0)) ==>
                && headFastBlock == headHeader && headHeader in blocks
                && exists full :: Ancestry(blocks, full, blocks[headHeader]) && chain <= full
    {
      chain, top := chain0, top0;
      for i := 0 to |news|
        invariant old(Marks(chain0, top0)) ==> Marks(chain, top)
        invariant Current(chain, top) && Sound(blocks, td, chain, currentBlock)
        invariant Insertable(blocks, news[i..]) && StoreAfterAll(blocks, news[i..]) == StoreAfterAll(old(blocks), news)
      {
        assert news[i..][1..] == news[i + 1..];
        var status;
        status, chain, top := WriteBlockWithState(news[i], policies(i), chain, top);
      }
      if Marks(chain, top) {
        HeadBelowHeader(blocks, canon, chain, top, currentBlock, headHeader);
      }
    }

    /** Writes the branch from below, leaving out its last block. */
    method WriteBranch(newChain: seq<Block>, ghost oldFull: seq<Block>, ghost newFull: seq<Block>, ghost c: nat,
                       ghost top: nat)
      returns (added: set<Tx>, ghost m: nat)
      requires TopDown(newChain, newFull, c) && Half(canon, lookup, oldFull, newFull, c, c + 1, top)
      requires DistinctTxs(newFull) && Numbered(newFull)
      modifies this`canon, this`lookup, this`currentBlock, this`headHeader, this`headFastBlock
      ensures m == (if newChain == [] then |newFull| else |newFull| - 1)
      ensures Half(canon, lookup, oldFull, newFull, c, m, top) && added == TxsBetween(newFull, c + 1, m)
      ensures currentBlock == if |newChain| >= 2 then newFull[m - 1] else old(currentBlock)
      ensures |newChain| < 2 ==> unchanged(this)
    {
      added := {};
      var i := |newChain| - 1;
      m := c + 1;
      while i >= 1
        invariant m == |newFull| - 1 - i && c + 1 <= m && (i < 1 ==> i == if newChain == [] then -1 else 0)
        invariant Half(canon, lookup, oldFull, newFull, c, m, top) && added == TxsBetween(newFull, c + 1, m)
        invariant currentBlock == if m > c + 1 then newFull[m - 1] else old(currentBlock)
        invariant m == c + 1 ==> unchanged(this)
        decreases i
      {
        NextOfBranch(newChain, newFull, c, i);
        added := WriteNext(newChain[i], added, oldFull, newFull, c, m, top);
        m := m + 1;
        i := i - 1;
      }
    }

    /** One block of the branch more is indexed. */
    method WriteNext(block: Block, added: set<Tx>, ghost oldFull: seq<Block>, ghost newFull: seq<Block>,
                     ghost c: nat, ghost m: nat, ghost top: nat)
      returns (added': set<Tx>)
      requires c < m < |newFull| && added == TxsBetween(newFull, c + 1, m)
      requires block == newFull[m] && block.number == m && DistinctTxs(newFull)
      requires Half(canon, lookup, oldFull, newFull, c, m, top)
      modifies this`canon, this`lookup, this`currentBlock, this`headHeader, this`headFastBlock
      ensures Half(canon, lookup, oldFull, newFull, c, m + 1, top)
      ensures currentBlock == newFull[m] && added' == TxsBetween(newFull, c + 1, m + 1)
    {
      TxsBetweenNext(newFull, c + 1, m);
      NumbersAtStep(canon, newFull, m, top);
      TxsAtStep(lookup, newFull, oldFull, c, m);
      WriteHeadBlock(block);
      added' := added + BlockTxs(block);
    }

    /** Clears the numbers above the block written last, or above the old head if none was. */
    method ClearAfter(ghost oldFull: seq<Block>, ghost newFull: seq<Block>, ghost m: nat, ghost top: nat,
                      ghost written: bool)
      requires if written then NumbersAt(canon, newFull, m, top) else NumbersTo(canon, oldFull, top)
      requires currentBlock.number + 1 == if written then m else |oldFull|
      modifies this`canon
      ensures if written then m <= |newFull| && IndexesNumbers(canon, newFull[..m]) else IndexesNumbers(canon, oldFull)
    {
      ghost var was := canon;
      ghost var to := ClearAbove(currentBlock.number + 1);
      if written {
        NumbersCleared(was, newFull, m, top, to);
      } else {
        NumbersCleared(was, oldFull, |oldFull|, top, to);
        assert oldFull[..|oldFull|] == oldFull;
      }
    }

    /** Deletes number entries from `from` on, up to the first gap. */
    method ClearAbove(from: nat) returns (ghost to: nat)
      modifies this`canon
      ensures to >= from && to !in old(canon) && (forall k :: from <= k < to ==> k in old(canon))
      ensures canon == old(canon) - (set k | k in old(canon) && from <= k < to)
    {
      var i := from;
      var batch := canon;
      ghost var left := canon.Keys;
      while i in canon
        invariant i >= from && (forall k :: from <= k < i ==> k in canon)
        invariant batch == canon - (set k | k in canon && from <= k < i)
        invariant left == set k | k in canon && !(from <= k < i)
        decreases left
      {
        batch := batch - {i};
        left := left - {i};
        i := i + 1;
      }
      canon := batch;
      to := i;
    }
  }

  datatype WriteStatus = Unknown | Side | Canon

  /** The answers of the miner's policy, and of the random source. */
  datatype Policy = Policy(currentPreserve: bool, blockPreserve: bool, coin: bool)

  /** Fork choice: more total difficulty wins; at equal difficulty the lower block wins, and between
      blocks of one height the policy and then the coin decide. */
  function Adopts(externTd: nat, localTd: nat, number: nat, current: nat, policy: Policy): (r: bool)
    ensures externTd != localTd ==> (r <==> externTd > localTd)
    ensures externTd == localTd && number != current ==> (r <==> number < current)
    ensures externTd == localTd && number == current && policy.currentPreserve ==> !r
    ensures externTd == localTd && number == current && !policy.currentPreserve ==>
              (r <==> policy.blockPreserve || policy.coin)
  {
    || externTd > localTd
    || (externTd == localTd
        && (|| number < current
            || (number == current && !policy.currentPreserve && (policy.blockPreserve || policy.coin))))
  }

  /** A block is stored if its parent is. */
  function StoreAfter(blocks: Blocks, b: Block): Blocks {
    if Parent(blocks, b).Some? then blocks[b.hash := b] else blocks
  }

  function StoreAfterAll(blocks: Blocks, news: seq<Block>): Blocks
    decreases |news|
  {
    if news == [] then blocks else StoreAfterAll(StoreAfter(blocks, news[0]), news[1..])
  }

  /** Each block may be added when its turn comes. */
  ghost predicate Insertable(blocks: Blocks, news: seq<Block>)
    decreases |news|
  {
    news == [] || (Extends(blocks, news[0]) && Insertable(StoreAfter(blocks, news[0]), news[1..]))
  }

  /** The total difficulty of a block is its own and that of its parent. */
  predicate Weighed(blocks: Blocks, td: map<Hash, nat>, h: Hash)
    requires h in blocks && blocks.Keys <= td.Keys
  {
    blocks[h].parent in blocks ==> td[h] == blocks[h].difficulty + td[blocks[h].parent]
  }

  predicate HasRoot(blocks: Blocks, genesis: Block, h: Hash)
    requires h in blocks
  {
    if blocks[h].number == 0 then blocks[h] == genesis else blocks[h].parent in blocks
  }

  /** Total difficulties add up along parents, and no stored block has more than the head. */
  ghost predicate Heaviest(blocks: Blocks, td: map<Hash, nat>, head: Block) {
    && Stored(blocks, head) && blocks.Keys <= td.Keys
    && forall h {:trigger Weighed(blocks, td, h)} :: h in blocks ==> Weighed(blocks, td, h) && td[h] <= td[head.hash]
  }

  /** Every stored block but the genesis has its parent stored. */
  ghost predicate Rooted(blocks: Blocks, genesis: Block) {
    && Stored(blocks, genesis)
    && forall h {:trigger HasRoot(blocks, genesis, h)} :: h in blocks ==> HasRoot(blocks, genesis, h)
  }

  /** A store whose head is a heaviest block, `chain` its ancestry down to the one genesis. */
  ghost predicate Sound(blocks: Blocks, td: map<Hash, nat>, chain: seq<Block>, head: Block) {
    StoreOk(blocks) && Ancestry(blocks, chain, head) && Rooted(blocks, chain[0]) && Heaviest(blocks, td, head)
  }

  /** A block that may be added: it is one above its parent, its hash is its own, the blocks stored
      already do not descend from it, and no transaction occurs twice in its ancestry. */
  ghost predicate Extends(blocks: Blocks, b: Block) {
    && b.number > 0 && (b.hash in blocks ==> blocks[b.hash] == b)
    && StoreOk(blocks[b.hash := b])
    && forall chain :: Ancestry(blocks[b.hash := b], chain, b) ==> DistinctTxs(chain)
  }

  lemma {:induction false} RootedConnects(blocks: Blocks, chain: seq<Block>, head: Block, b: Block)
    requires StoreOk(blocks) && Ancestry(blocks, chain, head) && Rooted(blocks, chain[0]) && Stored(blocks, b)
    ensures Connects(blocks, chain, b)
    decreases b.number
  {
    assert HasRoot(blocks, chain[0], b.hash) && Linked(blocks, b.hash);
    if b.number > 0 {
      RootedConnects(blocks, chain, head, Parent(blocks, b).value);
    }
  }

  lemma StoreGrows(blocks: Blocks, td: map<Hash, nat>, chain: seq<Block>, head: Block, b: Block, externTd: nat)
    requires Sound(blocks, td, chain, head) && Extends(blocks, b)
    requires Parent(blocks, b).Some? && externTd == b.difficulty + td[b.parent]
    ensures Ancestry(blocks[b.hash := b], chain, head) && Rooted(blocks[b.hash := b], chain[0])
    ensures b.hash in blocks ==> td[b.hash] == externTd
    ensures externTd <= td[head.hash] ==> Heaviest(blocks[b.hash := b], td[b.hash := externTd], head)
    ensures externTd >= td[head.hash] ==> Heaviest(blocks[b.hash := b], td[b.hash := externTd], b)
  {
    var blocks', td' := blocks[b.hash := b], td[b.hash := externTd];
    if b.hash in blocks {
      assert Weighed(blocks, td, b.hash);
      assert blocks' == blocks && td' == td;
      forall h | h in blocks ensures Weighed(blocks, td, h) && td[h] <= td[head.hash] {
      }
    } else {
      StaysRooted(blocks, chain[0], b);
      WeighsNew(blocks, td, chain[0], head, b, externTd);
    }
  }

  lemma StaysRooted(blocks: Blocks, genesis: Block, b: Block)
    requires StoreOk(blocks) && Rooted(blocks, genesis) && b.number > 0 && b.hash !in blocks && Parent(blocks, b).Some?
    ensures Rooted(blocks[b.hash := b], genesis)
  {
    var blocks' := blocks[b.hash := b];
    forall h | h in blocks' ensures HasRoot(blocks', genesis, h) {
      if h != b.hash {
        assert HasRoot(blocks, genesis, h);
      }
    }
  }

  lemma WeighsNew(blocks: Blocks, td: map<Hash, nat>, genesis: Block, head: Block, b: Block, externTd: nat)
    requires StoreOk(blocks) && Rooted(blocks, genesis) && Heaviest(blocks, td, head) && b.number > 0
             && b.hash !in blocks
    requires StoreOk(blocks[b.hash := b])
    requires Parent(blocks, b).Some? && externTd == b.difficulty + td[b.parent]
    ensures externTd <= td[head.hash] ==> Heaviest(blocks[b.hash := b], td[b.hash := externTd], head)
    ensures externTd >= td[head.hash] ==> Heaviest(blocks[b.hash := b], td[b.hash := externTd], b)
  {
    var blocks', td' := blocks[b.hash := b], td[b.hash := externTd];
    forall h | h in blocks'
      ensures Weighed(blocks', td', h) && (h != b.hash ==> td'[h] == td[h] && td[h] <= td[head.hash]) {
      if h != b.hash {
        assert Weighed(blocks, td, h) && HasRoot(blocks, genesis, h) && Linked(blocks', h);
      }
    }
  }

  lemma SameGenesis(blocks: Blocks, genesis: Block, chain: seq<Block>, head: Block)
    requires Rooted(blocks, genesis) && Ancestry(blocks, chain, head)
    ensures chain[0] == genesis
  {
    assert Stored(blocks, chain[0]) && HasRoot(blocks, genesis, chain[0].hash);
  }

  /** Writing this block leaves number entries above it behind.  On top of the head, those left behind
      before stay; else the head is lowered to a block that is on the old chain, or whose parent is. */
  predicate LeavesStale(canon: map<nat, Hash>, head: Block, block: Block) {
    if block.parent == head.hash then block.number + 1 in canon
    else
      && block.number < head.number
      && (|| (block.number in canon && canon[block.number] == block.hash)
          || (block.number > 0 && block.number - 1 in canon && canon[block.number - 1] == block.parent))
  }

  // ----- the head header, above the head or the head itself

  /** A number entry above the head is that of a stored block, on top of the entry below it. */
  ghost predicate StaleAt(blocks: Blocks, canon: map<nat, Hash>, from: nat, n: nat) {
    && n in canon && canon[n] in blocks && blocks[canon[n]].number == n
    && (n > from ==> n - 1 in canon && blocks[canon[n]].parent == canon[n - 1])
  }

  /** The chain that the head header names goes on above the head, and the number index with it. */
  ghost predicate Behind(blocks: Blocks, canon: map<nat, Hash>, chain: seq<Block>, top: nat, header: Hash,
                         full: seq<Block>)
    requires header in blocks
  {
    && Ancestry(blocks, full, blocks[header]) && |chain| < |full| && top <= |full| && chain == full[..|chain|]
    && forall n :: |chain| <= n < top ==> n in canon && canon[n] == full[n].hash
  }

  /** Either the head header names the head, and the stale entries do not continue from it; or the head
      was lowered on the chain that the header names. */
  ghost predicate Marked(blocks: Blocks, canon: map<nat, Hash>, chain: seq<Block>, top: nat, head: Block,
                         header: Hash)
  {
    && header in blocks && |chain| <= top
    && (forall n {:trigger StaleAt(blocks, canon, |chain|, n)} :: |chain| <= n < top ==>
          StaleAt(blocks, canon, |chain|, n))
    && if header == head.hash
       then top > |chain| ==> StaleAt(blocks, canon, |chain|, |chain|) && blocks[canon[|chain|]].parent != head.hash
       else exists full :: Behind(blocks, canon, chain, top, header, full)
  }

  lemma HeadBelowHeader(blocks: Blocks, canon: map<nat, Hash>, chain: seq<Block>, top: nat, head: Block, header: Hash)
    requires Marked(blocks, canon, chain, top, head, header) && Ancestry(blocks, chain, head)
    ensures exists full :: Ancestry(blocks, full, blocks[header]) && chain <= full
  {
    if header == head.hash {
      assert Stored(blocks, chain[head.number]);
      assert Ancestry(blocks, chain, blocks[header]) && chain <= chain;
    } else {
      var full :| Behind(blocks, canon, chain, top, header, full);
    }
  }

  /** A block of an ancestry is where its hash and number say. */
  lemma SameStored(blocks: Blocks, full: seq<Block>, tip: Block, b: Block)
    requires Ancestry(blocks, full, tip) && Stored(blocks, b) && b.number < |full| && full[b.number].hash == b.hash
    ensures full[b.number] == b
  {
    assert Stored(blocks, full[b.number]);
  }

  /** The head header when a block is put on top of the head. */
  lemma ExtendMarks(blocks: Blocks, canon: map<nat, Hash>, chain: seq<Block>, head: Block, block: Block, top: nat,
                    header: Hash)
    requires StoreOk(blocks) && Ancestry(blocks, chain, head) && Stored(blocks, block) && block.parent == head.hash
    requires block.number == |chain| && NumbersTo(canon, chain, top)
    ensures var named := block.number in canon && canon[block.number] == block.hash;
            var top' := if top == |chain| then top + 1 else top;
            Marked(blocks, canon, chain, top, head, header) ==>
              Marked(blocks, canon[block.number := block.hash], chain + [block], top', block,
                     if named then header else block.hash)
  {
    if Marked(blocks, canon, chain, top, head, header) {
      if block.number in canon && canon[block.number] == block.hash {
        ExtendBehind(blocks, canon, chain, head, block, top, header);
      } else {
        ExtendSynced(blocks, canon, chain, head, block, top, header);
      }
    }
  }

  lemma ExtendSynced(blocks: Blocks, canon: map<nat, Hash>, chain: seq<Block>, head: Block, block: Block, top: nat,
                     header: Hash)
    requires Marked(blocks, canon, chain, top, head, header) && NumbersTo(canon, chain, top)
    requires Stored(blocks, block) && block.number == |chain|
    requires block.number in canon ==> canon[block.number] != block.hash
    ensures Marked(blocks, canon[block.number := block.hash], chain + [block],
                   if top == |chain| then top + 1 else top, block, block.hash)
  {
    var canon', from := canon[block.number := block.hash], |chain| + 1;
    assert |chain + [block]| == from;
    forall n | from <= n < top ensures StaleAt(blocks, canon', from, n) {
      assert StaleAt(blocks, canon, |chain|, n);
    }
    if top > from {
      assert StaleAt(blocks, canon, |chain|, from);
    }
  }

  lemma ExtendBehind(blocks: Blocks, canon: map<nat, Hash>, chain: seq<Block>, head: Block, block: Block, top: nat,
                     header: Hash)
    requires StoreOk(blocks) && Marked(blocks, canon, chain, top, head, header) && NumbersTo(canon, chain, top)
    requires Stored(blocks, block) && block.number == |chain| && block.parent == head.hash
    requires block.number in canon && canon[block.number] == block.hash
    ensures Marked(blocks, canon, chain + [block], top, block, header)
    ensures canon[block.number := block.hash] == canon && top > |chain|
  {
    assert header != head.hash;
    var full :| Behind(blocks, canon, chain, top, header, full);
    SameStored(blocks, full, blocks[header], block);
    var from := |chain| + 1;
    assert |chain + [block]| == from;
    assert full[..from] == chain + [block];
    forall n | from <= n < top ensures StaleAt(blocks, canon, from, n) {
      assert StaleAt(blocks, canon, |chain|, n);
    }
    if |full| == from {
      assert full[|chain|] == blocks[header] && Stored(blocks, full[|chain|]);
    } else {
      assert blocks[header].number == |full| - 1;
      assert Behind(blocks, canon, chain + [block], top, header, full);
    }
  }

  /** After a reorganisation the index names the new head exactly when it did before, at or below the
      old head. */
  lemma NamedIff(was: map<nat, Hash>, canon: map<nat, Hash>, oldFull: seq<Block>, newFull: seq<Block>, c: nat,
                 head: Block, block: Block, top: nat)
    requires NumbersTo(was, oldFull, top) && SharedTo(newFull, oldFull, c)
    requires |oldFull| == head.number + 1 && |newFull| == block.number + 1 && newFull[block.number] == block
    requires forall n :: c < n < |newFull| ==> newFull[n].number == n && !OnChain(oldFull, newFull[n])
    requires IndexesNumbers(canon, if c + 2 < |newFull| then newFull[..|newFull| - 1] else oldFull)
    ensures block.number in canon && canon[block.number] == block.hash <==>
            block.number in was && was[block.number] == block.hash && block.number <= head.number
  {
    if c + 2 < |newFull| {
      assert !OnChain(oldFull, newFull[block.number]);
    }
  }

  /** The head header after a reorganisation and the writing of its head. */
  lemma ReorgMarks(blocks: Blocks, was: map<nat, Hash>, canon: map<nat, Hash>, oldFull: seq<Block>,
                   newFull: seq<Block>, c: nat, head: Block, block: Block, top: nat, header: Hash)
    requires Ancestry(blocks, oldFull, head) && Ancestry(blocks, newFull, block) && block.parent != head.hash
    requires NumbersTo(was, oldFull, top) && SharedTo(newFull, oldFull, c)
    requires forall n :: c < n < |newFull| ==> !OnChain(oldFull, newFull[n])
    requires IndexesNumbers(canon, if c + 2 < |newFull| then newFull[..|newFull| - 1] else oldFull)
    ensures var named := block.number in canon && canon[block.number] == block.hash;
            var top' := if c + 2 < |newFull| then |newFull| else |oldFull|;
            Marked(blocks, was, oldFull, top, head, header) ==>
              Marked(blocks, canon[block.number := block.hash], newFull, top', block,
                     if named then header else block.hash)
  {
    if Marked(blocks, was, oldFull, top, head, header) {
      if c + 1 >= |newFull| {
        LoweredMarks(blocks, was, canon, oldFull, newFull, head, block, top, header);
      } else if c + 2 == |newFull| {
        BesideMarks(blocks, canon, oldFull, newFull, c, head, block);
      }
    }
  }

  /** The head was lowered on its own chain. */
  lemma LoweredMarks(blocks: Blocks, was: map<nat, Hash>, canon: map<nat, Hash>, oldFull: seq<Block>,
                     newFull: seq<Block>, head: Block, block: Block, top: nat, header: Hash)
    requires Ancestry(blocks, oldFull, head) && Ancestry(blocks, newFull, block)
    requires |newFull| <= |oldFull| && newFull == oldFull[..|newFull|]
    requires Marked(blocks, was, oldFull, top, head, header) && IndexesNumbers(canon, oldFull)
    ensures canon[block.number := block.hash] == canon
    ensures Marked(blocks, canon, newFull, |oldFull|, block, header)
  {
    forall n | |newFull| <= n < |oldFull| ensures StaleAt(blocks, canon, |newFull|, n) {
      assert Stored(blocks, oldFull[n]);
    }
    if header == head.hash {
      assert blocks[header] == head && Stored(blocks, head);
      assert |newFull| < |oldFull| ==> Behind(blocks, canon, newFull, |oldFull|, header, oldFull);
    } else {
      var full :| Behind(blocks, was, oldFull, top, header, full);
      assert newFull == full[..|newFull|];
      assert Behind(blocks, canon, newFull, |oldFull|, header, full);
    }
  }

  /** The new head sits directly on the old chain. */
  lemma BesideMarks(blocks: Blocks, canon: map<nat, Hash>, oldFull: seq<Block>, newFull: seq<Block>, c: nat,
                    head: Block, block: Block)
    requires Ancestry(blocks, oldFull, head) && Ancestry(blocks, newFull, block) && block.parent != head.hash
    requires SharedTo(newFull, oldFull, c) && |newFull| == c + 2 && !OnChain(oldFull, block)
    requires IndexesNumbers(canon, oldFull)
    ensures Marked(blocks, canon[block.number := block.hash], newFull, |oldFull|, block, block.hash)
  {
    assert newFull[c + 1].parent == newFull[c].hash && newFull[c] == oldFull[c];
    assert c < head.number;
    var canon' := canon[block.number := block.hash];
    assert Stored(blocks, newFull[c + 1]);
    forall n | |newFull| <= n < |oldFull| ensures StaleAt(blocks, canon', |newFull|, n) {
      assert Stored(blocks, oldFull[n]);
    }
    if |newFull| < |oldFull| {
      assert Stored(blocks, oldFull[c + 2]) && oldFull[c + 2].parent == oldFull[c + 1].hash;
    }
  }

  lemma MarkedGrows(blocks: Blocks, canon: map<nat, Hash>, chain: seq<Block>, top: nat, head: Block, header: Hash,
                    b: Block)
    requires b.hash in blocks ==> blocks[b.hash] == b
    ensures Marked(blocks, canon, chain, top, head, header) ==>
              Marked(blocks[b.hash := b], canon, chain, top, head, header)
  {
    if Marked(blocks, canon, chain, top, head, header) {
      var blocks' := blocks[b.hash := b];
      forall n | |chain| <= n < top ensures StaleAt(blocks', canon, |chain|, n) {
        assert StaleAt(blocks, canon, |chain|, n);
      }
      if header != head.hash {
        var full :| Behind(blocks, canon, chain, top, header, full);
        assert Behind(blocks', canon, chain, top, header, full);
      } else if top > |chain| {
        assert StaleAt(blocks, canon, |chain|, |chain|);
      }
    }
  }

  lemma WritesLast(lookup: map<Tx, nat>, newFull: seq<Block>, whole: bool)
    requires newFull != [] && DistinctTxs(newFull) && newFull[|newFull| - 1].number == |newFull| - 1
    requires IndexesTxs(lookup, if whole then newFull else newFull[..|newFull| - 1])
    ensures var b := newFull[|newFull| - 1];
            IndexesTxs(lookup + (map tx | tx in b.txs :: b.number), newFull)
  {
  }

  lemma {:induction false} ExtendsAncestry(blocks: Blocks, oldFull: seq<Block>, head: Block, block: Block)
    requires StoreOk(blocks) && Ancestry(blocks, oldFull, head) && Stored(blocks, block) && block.parent == head.hash
    ensures Ancestry(blocks, oldFull + [block], block) && Connects(blocks, oldFull, block) && block.number == |oldFull|
  {
    assert Stored(blocks, head) && Linked(blocks, block.hash);
    assert Parent(blocks, block) == Some(head) && OnChain(oldFull, head);
  }

  lemma ExtendsHead(canon: map<nat, Hash>, lookup: map<Tx, nat>, oldFull: seq<Block>, block: Block, top: nat)
    requires block.number == |oldFull|
    requires NumbersTo(canon, oldFull, top) && IndexesTxs(lookup, oldFull) && DistinctTxs(oldFull + [block])
    ensures NumbersTo(canon[block.number := block.hash], oldFull + [block], if top == |oldFull| then top + 1 else top)
    ensures IndexesTxs(lookup + (map tx | tx in block.txs :: block.number), oldFull + [block])
  {
    var newFull := oldFull + [block];
    assert newFull[..|newFull| - 1] == oldFull;
    WritesLast(lookup, newFull, false);
  }

  lemma AncestryStep(blocks: Blocks, chain: seq<Block>, b: Block)
    requires Ancestry(blocks, chain, b)
    ensures b.number > 0 ==> b.parent == chain[b.number - 1].hash
  {
  }

  /** The number index after a reorganisation and the writing of its head. */
  lemma NumbersExactIff(was: map<nat, Hash>, canon: map<nat, Hash>, oldFull: seq<Block>, newFull: seq<Block>,
                        c: nat, head: Block, block: Block, top: nat)
    requires NumbersTo(was, oldFull, top) && SharedTo(newFull, oldFull, c)
    requires |oldFull| == head.number + 1 && oldFull[head.number] == head && block.parent != head.hash
    requires |newFull| == block.number + 1 && newFull[block.number] == block
    requires forall i :: 0 < i < |newFull| ==> newFull[i].parent == newFull[i - 1].hash
    requires forall n :: c < n < |newFull| ==> newFull[n].number == n && !OnChain(oldFull, newFull[n])
    requires IndexesNumbers(canon, if c + 2 < |newFull| then newFull[..|newFull| - 1] else oldFull)
    ensures var top' := if c + 2 < |newFull| then |newFull| else |oldFull|;
            && NumbersTo(canon[block.number := block.hash], newFull, top')
            && (top' == |newFull| <==> !LeavesStale(was, head, block))
  {
    if c + 2 < |newFull| {
      assert !OnChain(oldFull, newFull[block.number]) && !OnChain(oldFull, newFull[block.number - 1]);
    } else {
      assert newFull[c] == oldFull[c];
      assert |newFull| == c + 2 ==> c < head.number;
    }
  }

  /** Two light blocks above the genesis, then one heavy block beside the lower of them: fork choice
      takes the heavy block, and height 2 keeps the entry of a block that is no ancestor of it. */
  lemma StaleNumberExample()
    ensures var g, a1 := Block(10, 0, 0, 1, []), Block(11, 10, 1, 1, []);
            var a2, b1 := Block(12, 11, 2, 1, []), Block(21, 10, 1, 5, []);
            var blocks := map[10 := g, 11 := a1, 12 := a2, 21 := b1];
            var canon := map[0 := g.hash, 1 := a1.hash, 2 := a2.hash];
            && StoreOk(blocks) && Ancestry(blocks, [g, a1, a2], a2) && Ancestry(blocks, [g, b1], b1)
            && IndexesNumbers(canon, [g, a1, a2]) && Connects(blocks, [g, a1, a2], b1)
            && Adopts(1 + 5, 1 + 1 + 1, 1, 2, Policy(false, false, false)) && LeavesStale(canon, a2, b1)
            && !IndexesNumbers(canon[b1.number := b1.hash], [g, b1])
  {
    var g, a1 := Block(10, 0, 0, 1, []), Block(11, 10, 1, 1, []);
    var a2, b1 := Block(12, 11, 2, 1, []), Block(21, 10, 1, 5, []);
    var blocks := map[10 := g, 11 := a1, 12 := a2, 21 := b1];
    assert Parent(blocks, b1) == Some(g) && OnChain([g, a1, a2], g);
    assert 2 in map[0 := g.hash, 1 := a1.hash, 2 := a2.hash][b1.number := b1.hash];
  }

  function BlockTxs(b: Block): set<Tx> {
    set tx | tx in b.txs
  }

  /** The transactions of blocks `a` to `b - 1` of a chain. */
  ghost function TxsBetween(bs: seq<Block>, a: nat, b: nat): set<Tx>
    requires b <= |bs|
  {
    set n: nat, tx | a <= n < b && tx in bs[n].txs :: tx
  }

  /** Two chains agree up to block `c`. */
  ghost predicate SharedTo(newFull: seq<Block>, oldFull: seq<Block>, c: nat) {
    c < |newFull| && c < |oldFull| && forall k :: 0 <= k <= c ==> newFull[k] == oldFull[k]
  }

  ghost predicate Numbered(chain: seq<Block>) {
    forall n {:trigger chain[n]} :: 0 <= n < |chain| ==> chain[n].number == n
  }

  /** `newChain` lists the blocks above block `c`, highest first. */
  ghost predicate TopDown(newChain: seq<Block>, newFull: seq<Block>, c: nat) {
    |newFull| == c + 1 + |newChain| && forall i :: 0 <= i < |newChain| ==> newChain[i] == newFull[|newFull| - 1 - i]
  }

  lemma NextOfBranch(newChain: seq<Block>, newFull: seq<Block>, c: nat, i: nat)
    requires TopDown(newChain, newFull, c) && Numbered(newFull) && i < |newChain|
    ensures newChain[i] == newFull[|newFull| - 1 - i] && newChain[i].number == |newFull| - 1 - i
  {
  }

  /** The indexes half-way through a reorganisation that has written the new chain up to block `m`. */
  ghost predicate Half(canon: map<nat, Hash>, lookup: map<Tx, nat>, oldFull: seq<Block>, newFull: seq<Block>,
                       c: nat, m: nat, top: nat) {
    NumbersAt(canon, newFull, m, top) && TxsAt(lookup, newFull, oldFull, c, m)
  }

  ghost function Reverse(bs: seq<Block>): (r: seq<Block>)
    ensures |r| == |bs|
  {
    if bs == [] then [] else Reverse(bs[1..]) + [bs[0]]
  }

  /** `branch` leads from (but without) `base` up to `head`. */
  ghost predicate Branch(blocks: Blocks, base: Block, branch: seq<Block>, head: Block)
    decreases |branch|
  {
    if branch == [] then base == head
    else branch[0].parent == base.hash && branch[0].number == base.number + 1 && Stored(blocks, branch[0])
         && Branch(blocks, branch[0], branch[1..], head)
  }

  /** Some ancestor of `b`, or `b`, lies on the chain. */
  ghost predicate Connects(blocks: Blocks, chain: seq<Block>, b: Block)
    decreases b.number
  {
    || OnChain(chain, b)
    || (Parent(blocks, b).Some? && Connects(blocks, chain, Parent(blocks, b).value))
  }

  method IndexTxs(lookup: map<Tx, nat>, block: Block) returns (batch: map<Tx, nat>)
    ensures batch == lookup + (map tx | tx in block.txs :: block.number)
  {
    batch := lookup;
    for i := 0 to |block.txs|
      invariant batch == lookup + (map tx | tx in block.txs[..i] :: block.number)
    {
      assert block.txs[..i + 1] == block.txs[..i] + [block.txs[i]];
      batch := batch[block.txs[i] := block.number];
    }
    assert block.txs[..|block.txs|] == block.txs;
  }

  /** The old side of the walk: the cursor stands on the old chain, what is above it is dropped. */
  ghost predicate OldSide(oldFull: seq<Block>, o: Block, deleted: set<Tx>) {
    o.number < |oldFull| && o == oldFull[o.number] && deleted == TxsBetween(oldFull, o.number + 1, |oldFull|)
  }

  predicate OnChain(chain: seq<Block>, b: Block) {
    b.number < |chain| && chain[b.number].hash == b.hash
  }

  /** The new side: the blocks above the cursor lead to the new head, and none of them is on the old chain. */
  ghost predicate NewSide(blocks: Blocks, oldFull: seq<Block>, newHead: Block, n: Block, newChain: seq<Block>,
                          branch: seq<Block>) {
    && Stored(blocks, n) && Branch(blocks, n, branch, newHead) && newChain == Reverse(branch)
    && (forall i :: 0 <= i < |branch| ==> !OnChain(oldFull, branch[i]))
    && (Connects(blocks, oldFull, newHead) <==> Connects(blocks, oldFull, n))
  }

  lemma OldStep(blocks: Blocks, oldFull: seq<Block>, head: Block, o: Block, deleted: set<Tx>)
    requires StoreOk(blocks) && Ancestry(blocks, oldFull, head) && OldSide(oldFull, o, deleted)
    ensures Parent(blocks, o).Some? <==> o.number > 0
    ensures o.number > 0 ==> OldSide(oldFull, Parent(blocks, o).value, deleted + BlockTxs(o))
  {
    if o.number > 0 {
      assert oldFull[o.number].parent == oldFull[o.number - 1].hash;
      assert Stored(blocks, oldFull[o.number - 1]);
    }
  }

  lemma NewStep(blocks: Blocks, oldFull: seq<Block>, newHead: Block, n: Block, newChain: seq<Block>, branch: seq<Block>)
    requires StoreOk(blocks) && NewSide(blocks, oldFull, newHead, n, newChain, branch)
    requires !OnChain(oldFull, n)
    ensures Parent(blocks, n).None? ==> !Connects(blocks, oldFull, newHead)
    ensures Parent(blocks, n).Some? ==>
              NewSide(blocks, oldFull, newHead, Parent(blocks, n).value, newChain + [n], [n] + branch)
  {
  }

  /** Walks both blocks back to their common ancestor.  `oldFull` is the ancestry of the old head. */
  method FindCommon(blocks: Blocks, oldHead: Block, newHead: Block, ghost oldFull: seq<Block>)
    returns (ok: bool, newChain: seq<Block>, deleted: set<Tx>, ghost common: nat, ghost branch: seq<Block>)
    requires StoreOk(blocks) && Ancestry(blocks, oldFull, oldHead) && Stored(blocks, newHead)
    ensures ok <==> Connects(blocks, oldFull, newHead)
    ensures ok ==> common < |oldFull| && Branch(blocks, oldFull[common], branch, newHead)
    ensures ok ==> newChain == Reverse(branch) && deleted == TxsBetween(oldFull, common + 1, |oldFull|)
    ensures ok ==> forall i :: 0 <= i < |branch| ==> !OnChain(oldFull, branch[i])
  {
    var o: Block, n: Block;
    ok, o, n, newChain, deleted, branch := SameHeight(blocks, oldHead, newHead, oldFull);
    common := 0;
    if !ok {
      return;
    }
    while o.hash != n.hash
      invariant o.number == n.number && OldSide(oldFull, o, deleted)
      invariant NewSide(blocks, oldFull, newHead, n, newChain, branch)
      decreases n.number
    {
      OldStep(blocks, oldFull, oldHead, o, deleted);
      NewStep(blocks, oldFull, newHead, n, newChain, branch);
      deleted := deleted + BlockTxs(o);
      newChain := newChain + [n];
      branch := [n] + branch;
      var p := Parent(blocks, o);
      if p.None? {
        ok := false;
        return;
      }
      o := p.value;
      p := Parent(blocks, n);
      if p.None? {
        ok := false;
        return;
      }
      n := p.value;
    }
    common := o.number;
  }

  /** The walk, told by the two ancestries: they part above block `common`. */
  method Fork(blocks: Blocks, oldHead: Block, newHead: Block, ghost oldFull: seq<Block>)
    returns (ok: bool, newChain: seq<Block>, deleted: set<Tx>, ghost common: nat, ghost newFull: seq<Block>)
    requires StoreOk(blocks) && Ancestry(blocks, oldFull, oldHead) && Stored(blocks, newHead)
    ensures ok <==> Connects(blocks, oldFull, newHead)
    ensures ok ==>
              Ancestry(blocks, newFull, newHead) && SharedTo(newFull, oldFull, common)
              && TopDown(newChain, newFull, common)
    ensures ok ==> deleted == TxsBetween(oldFull, common + 1, |oldFull|)
    ensures ok ==> forall n :: common < n < |newFull| ==> !OnChain(oldFull, newFull[n])
  {
    ghost var branch;
    ok, newChain, deleted, common, branch := FindCommon(blocks, oldHead, newHead, oldFull);
    newFull := [];
    if ok {
      ghost var base := oldFull[..common + 1];
      newFull := base + branch;
      BranchAncestry(blocks, base, branch, newHead);
      forall i | 0 <= i < |newChain| ensures newChain[i] == newFull[|newFull| - 1 - i] {
        ReverseAt(branch, i);
      }
    }
  }

  /** Lowers the higher of the two blocks to the height of the other. */
  method SameHeight(blocks: Blocks, oldHead: Block, newHead: Block, ghost oldFull: seq<Block>)
    returns (ok: bool, o: Block, n: Block, newChain: seq<Block>, deleted: set<Tx>, ghost branch: seq<Block>)
    requires StoreOk(blocks) && Ancestry(blocks, oldFull, oldHead) && Stored(blocks, newHead)
    ensures !ok ==> !Connects(blocks, oldFull, newHead)
    ensures ok ==> o.number == n.number && OldSide(oldFull, o, deleted)
    ensures ok ==> NewSide(blocks, oldFull, newHead, n, newChain, branch)
  {
    o, n, newChain, deleted, branch := oldHead, newHead, [], {}, [];
    if o.number > n.number {
      while o.number != n.number
        invariant n.number <= o.number && OldSide(oldFull, o, deleted)
        decreases o.number
      {
        OldStep(blocks, oldFull, oldHead, o, deleted);
        deleted := deleted + BlockTxs(o);
        o := Parent(blocks, o).value;
      }
    } else {
      while n.number != o.number
        invariant o == oldHead && n.number >= o.number && NewSide(blocks, oldFull, newHead, n, newChain, branch)
        decreases n.number
      {
        NewStep(blocks, oldFull, newHead, n, newChain, branch);
        newChain := newChain + [n];
        branch := [n] + branch;
        var p := Parent(blocks, n);
        if p.None? {
          ok := false;
          return;
        }
        n := p.value;
      }
    }
    ok := true;
  }

  // ----- what the two indexes look like half-way through a reorganisation

  /** The first `m` blocks of the new chain are indexed by number; entries above reach up to `top`. */
  ghost predicate NumbersAt(canon: map<nat, Hash>, newFull: seq<Block>, m: nat, top: nat) {
    && m <= |newFull|
    && (forall k :: k in canon <==> 0 <= k < m || 0 <= k < top)
    && (forall k :: 0 <= k < m ==> canon[k] == newFull[k].hash)
  }

  /** The transactions of the first `m` blocks of the new chain are indexed; entries left over
      come from the part of the old chain above block `c`. */
  ghost predicate TxsAt(lookup: map<Tx, nat>, newFull: seq<Block>, oldFull: seq<Block>, c: nat, m: nat) {
    && m <= |newFull|
    && (forall n, tx :: 0 <= n < m && tx in newFull[n].txs ==> tx in lookup && lookup[tx] == n)
    && (forall tx :: tx in lookup ==>
          || (lookup[tx] < m && tx in newFull[lookup[tx]].txs)
          || (c < lookup[tx] < |oldFull| && tx in oldFull[lookup[tx]].txs))
  }

  /** Exact indexes of the old chain, seen as those of a reorganisation about to write. */
  lemma StartsHalf(canon: map<nat, Hash>, lookup: map<Tx, nat>, oldFull: seq<Block>,
                   newFull: seq<Block>, c: nat, top: nat)
    requires NumbersTo(canon, oldFull, top) && IndexesTxs(lookup, oldFull) && SharedTo(newFull, oldFull, c)
    ensures Half(canon, lookup, oldFull, newFull, c, c + 1, top)
  {
  }

  lemma TxsAtStep(lookup: map<Tx, nat>, newFull: seq<Block>, oldFull: seq<Block>, c: nat, m: nat)
    requires TxsAt(lookup, newFull, oldFull, c, m) && m < |newFull| && DistinctTxs(newFull) && newFull[m].number == m
    ensures TxsAt(lookup + (map tx | tx in newFull[m].txs :: newFull[m].number), newFull, oldFull, c, m + 1)
  {
  }

  /** Deleting the dropped transactions that were not added again leaves exactly the new ones. */
  lemma DropStale(lookup: map<Tx, nat>, newFull: seq<Block>, oldFull: seq<Block>, c: nat, m: nat)
    requires c + 1 <= m <= |newFull| && SharedTo(newFull, oldFull, c)
    requires TxsAt(lookup, newFull, oldFull, c, m) && DistinctTxs(oldFull)
    ensures IndexesTxs(lookup - (TxsBetween(oldFull, c + 1, |oldFull|) - TxsBetween(newFull, c + 1, m)), newFull[..m])
  {
  }

  lemma TxsBetweenNext(bs: seq<Block>, a: nat, m: nat)
    requires a <= m < |bs|
    ensures TxsBetween(bs, a, m + 1) == TxsBetween(bs, a, m) + BlockTxs(bs[m])
  {
  }

  lemma NumbersAtStep(canon: map<nat, Hash>, newFull: seq<Block>, m: nat, top: nat)
    requires NumbersAt(canon, newFull, m, top) && m < |newFull|
    ensures NumbersAt(canon[m := newFull[m].hash], newFull, m + 1, top)
  {
  }

  /** Clearing the entries above block `m - 1`. */
  lemma NumbersCleared(canon: map<nat, Hash>, chain: seq<Block>, m: nat, top: nat, to: nat)
    requires NumbersAt(canon, chain, m, top) && to >= m && to !in canon
    requires forall k :: m <= k < to ==> k in canon
    ensures IndexesNumbers(canon - (set k | k in canon && m <= k < to), chain[..m])
  {
  }

  /** The ancestry of the new head: the shared part of the old chain, then the branch. */
  lemma {:induction false} BranchAncestry(blocks: Blocks, base: seq<Block>, branch: seq<Block>, head: Block)
    requires base != [] && Ancestry(blocks, base, base[|base| - 1]) && Branch(blocks, base[|base| - 1], branch, head)
    ensures Ancestry(blocks, base + branch, head)
    decreases |branch|
  {
    if branch == [] {
      assert base + branch == base;
    } else {
      var base' := base + [branch[0]];
      assert Ancestry(blocks, base', branch[0]);
      BranchAncestry(blocks, base', branch[1..], head);
      assert base + branch == base' + branch[1..];
    }
  }

  lemma {:induction false} ReverseAt(bs: seq<Block>, i: nat)
    requires i < |bs|
    ensures Reverse(bs)[i] == bs[|bs| - 1 - i]
  {
    if i < |bs| - 1 {
      ReverseAt(bs[1..], i);
    }
  }
}
