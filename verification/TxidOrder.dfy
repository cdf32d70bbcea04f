/** The orders in which the mempool lists transactions and conflicting spends. */
module TxidOrder {
  import opened BitcoinDomain
  import opened SetOrder

  function TxidKey(t: Txid): Key {
    Key(t.digest, 0, 0)
  }

  /** The members of a set of transactions in ascending order. */
  ghost function Listing(s: set<Txid>): (r: seq<Txid>)
    ensures forall x :: x in r <==> x in s
    ensures |r| == |s|
  {
    SetOrder.Listing(TxidKey, s)
  }

  lemma ListedSet(s: set<Txid>)
    ensures (set t | t in Listing(s)) == s
  {
  }

  lemma ListingAscends(s: set<Txid>, i: nat, j: nat)
    requires i < j < |Listing(s)|
    ensures Listing(s)[i].digest < Listing(s)[j].digest
  {
    SetOrder.ListingAscends(TxidKey, s, i, j);
  }

  method Ordered(s: set<Txid>) returns (r: seq<Txid>)
    ensures r == Listing(s)
  {
    r := SetOrder.Ordered(TxidKey, s);
  }

  /** An output and an earlier transaction that spends it. */
  type Edge = (OutPoint, Txid)

  /** Edges are ordered by the output's transaction, its index, and the spender. */
  function EdgeKey(e: Edge): Key {
    Key(e.0.txid.digest, e.0.vout, e.1.digest)
  }

  ghost function Edges(s: set<Edge>): (r: seq<Edge>)
    ensures forall e :: e in r <==> e in s
    ensures |r| == |s|
  {
    SetOrder.Listing(EdgeKey, s)
  }

  lemma EdgesAscend(s: set<Edge>, i: nat, j: nat)
    requires i < j < |Edges(s)|
    ensures Before(EdgeKey(Edges(s)[i]), EdgeKey(Edges(s)[j]))
  {
    SetOrder.ListingAscends(EdgeKey, s, i, j);
  }

  method OrderedEdges(s: set<Edge>) returns (r: seq<Edge>)
    ensures r == Edges(s)
  {
    r := SetOrder.Ordered(EdgeKey, s);
  }
}
