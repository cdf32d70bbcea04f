/** Bitcoin values shared by the block tree and the UTXO projection.  Digests are
    opaque identities; proof of work and retargeting are parameters. */
module BitcoinDomain {
  import opened Prelude
  import opened BlockWork

  datatype BlockHash = BlockHash(digest: nat)
  datatype Txid = Txid(digest: nat)
  datatype OutPoint = OutPoint(txid: Txid, vout: nat)

  const ZERO_HASH := BlockHash(0)

  type Sats = n: nat | n <= U64_MAX

  datatype Output = Output(value: Sats, script: nat)
  datatype Tx = Tx(txid: Txid, coinbase: bool, inputs: seq<OutPoint>, outputs: seq<Output>)
  datatype Block = Block(hash: BlockHash, prev: BlockHash, target: nat, work: Work, txs: seq<Tx>)

  datatype StateError =
    | InvalidGenesis(hash: BlockHash)
    | InvalidProofOfWork(hash: BlockHash)
    | UnknownParent(hash: BlockHash, parent: BlockHash)
    | MissingDifficultyBoundary(hash: BlockHash, height: int)
    | WorkOverflow(hash: BlockHash)
    | InconsistentDag(hash: BlockHash)
    | UnexpectedConnect(hash: BlockHash, parent: BlockHash, currentTip: Option<BlockHash>)
    | MissingPrevout(blockHash: BlockHash, txid: Txid, inputIndex: nat, outpoint: OutPoint)
    | DuplicateOutpoint(blockHash: BlockHash, txid: Txid, outputIndex: nat, outpoint: OutPoint)
    | NegativeFee(blockHash: BlockHash, txid: Txid, inputSats: nat, outputSats: nat)
    | AmountOverflow(blockHash: BlockHash, txid: Txid)
    | OutOfOrderDisconnect(requested: BlockHash, currentTip: Option<BlockHash>)
    | InconsistentUtxo(outpoint: OutPoint)
}
