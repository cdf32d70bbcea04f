/** When a refused block is not atomic: the guard of the input-sum overflow, said of the block and the map
    it meets, a supply under which it cannot hold, and blocks for which it does. */
module UtxoOverflow {
  import opened Prelude
  import opened BitcoinDomain
  import opened UtxoSpec
  import opened UtxoValue

  /** The map a valid transaction leaves: its prevouts gone, its outputs there. */
  function Settled(e: Entries, tx: Tx): Entries {
    WithOutputs(Without(e, Prevouts(tx)), tx, |tx.outputs|)
  }

  function SettledAll(e: Entries, txs: seq<Tx>): Entries
    decreases |txs|
  {
    if txs == [] then e else SettledAll(Settled(e, txs[0]), txs[1..])
  }

  ghost predicate ValidTxs(e: Entries, txs: seq<Tx>)
    decreases |txs|
  {
    txs == [] || (ValidTx(e, txs[0]) && ValidTxs(Settled(e, txs[0]), txs[1..]))
  }

  /** The first `j` inputs can be spent together, and input `j`, though it is there and new, takes
      their sum out of 64 bits. */
  ghost predicate SumOverflows(e: Entries, tx: Tx, j: nat) {
    var spent := Prevouts(tx);
    && j < |spent| && j <= U32_MAX && Spendable(e, spent[..j])
    && spent[j] in e && spent[j] !in spent[..j]
    && InputSum(e, spent[..j]) + e[spent[j]].value > U64_MAX
  }

  /** The transactions before `k` are valid, and input `j` of transaction `k` overflows. */
  ghost predicate OverflowsAt(e: Entries, txs: seq<Tx>, k: nat, j: nat) {
    && k < |txs| && ValidTxs(e, txs[..k])
    && SumOverflows(SettledAll(e, txs[..k]), txs[k], j)
  }

  /** One of the first `k` transactions has the outpoint as an output. */
  ghost predicate MadeBefore(txs: seq<Tx>, k: nat, o: OutPoint)
    requires k <= |txs|
  {
    exists i | 0 <= i < k :: Makes(txs[i], o)
  }

  predicate Makes(tx: Tx, o: OutPoint) {
    o.txid == tx.txid && o.vout < |tx.outputs|
  }

  // ---------------------------------------------------------------- the guard is the failing branch

  lemma TxOverflows(e: Entries, tx: Tx, j: nat)
    requires SumOverflows(e, tx, j)
    ensures var a := ApplyTx(e, tx);
            && a.failure == Some(InputSumOverflow(tx.txid, j, Prevouts(tx)[j]))
            && a.journal == Spends(e, tx, j)
  {
    NoInputFailureIffSpendable(e, tx, j);
    FirstInputFailure(e, tx, j + 1, |Prevouts(tx)|);
  }

  lemma OverflowIsGuarded(e: Entries, tx: Tx)
    requires IsOverflow(ApplyTx(e, tx))
    ensures SumOverflows(e, tx, ApplyTx(e, tx).failure.value.index)
  {
    var n := |Prevouts(tx)|;
    NoInputFailureIffSpendable(e, tx, ApplyTx(e, tx).failure.value.index);
    OverflowSum(e, tx, n);
  }

  lemma {:induction false} OverflowSum(e: Entries, tx: Tx, n: nat)
    requires n <= |Prevouts(tx)| && InputFailure(e, tx, n).Some? && InputFailure(e, tx, n).value.InputSumOverflow?
    ensures var j := InputFailure(e, tx, n).value.index;
            j <= U32_MAX && InputSum(e, Prevouts(tx)[..j]) + e[Prevouts(tx)[j]].value > U64_MAX
  {
    if InputFailure(e, tx, n - 1).Some? {
      OverflowSum(e, tx, n - 1);
    }
  }

  lemma JournalOfTx(e: Entries, tx: Tx, o: OutPoint)
    requires ApplyTx(e, tx).failure.None?
    ensures Created(o) in ApplyTx(e, tx).journal <==> Makes(tx, o)
  {
    SpendsOnly(e, tx, |Prevouts(tx)|, o);
    CreatesExactly(tx, |tx.outputs|, o);
  }

  lemma {:induction false} SpendsOnly(e: Entries, tx: Tx, n: nat, o: OutPoint)
    requires n <= |Prevouts(tx)| && forall p | p in Prevouts(tx)[..n] :: p in e
    ensures Created(o) !in Spends(e, tx, n)
  {
    if n != 0 {
      TakeOneMore(Prevouts(tx), n - 1);
      SpendsOnly(e, tx, n - 1, o);
    }
  }

  lemma {:induction false} CreatesExactly(tx: Tx, n: nat, o: OutPoint)
    requires n <= |tx.outputs|
    ensures Created(o) in Creates(tx, n) <==> o.txid == tx.txid && o.vout < n
  {
    if n != 0 {
      CreatesExactly(tx, n - 1, o);
    }
  }

  /** At the guard the block fails there, and its journal has created exactly what the transactions before
      made. */
  lemma {:induction false} GuardFails(e: Entries, txs: seq<Tx>, k: nat, j: nat)
    requires OverflowsAt(e, txs, k, j)
    ensures var a := ApplyTxs(e, txs);
            var o := Prevouts(txs[k])[j];
            && a.failure == Some(InputSumOverflow(txs[k].txid, j, o))
            && (Created(o) in a.journal <==> MadeBefore(txs, k, o))
    decreases k
  {
    var o := Prevouts(txs[k])[j];
    var first := ApplyTx(e, txs[0]);
    assert ApplyTxs(e, txs) == After(first, txs[1..]);
    if k == 0 {
      TxOverflows(e, txs[0], j);
      SpendsOnly(e, txs[0], j, o);
    } else {
      ApplyTxIsValidTx(e, txs[0]);
      OneLess(e, txs, k, j);
      GuardFails(first.entries, txs[1..], k - 1, j);
      JournalOfTx(e, txs[0], o);
      MadeFirstOrLater(txs, k, o);
    }
  }

  lemma OneLess(e: Entries, txs: seq<Tx>, k: nat, j: nat)
    requires 0 < k < |txs|
    ensures OverflowsAt(e, txs, k, j) <==> ValidTx(e, txs[0]) && OverflowsAt(Settled(e, txs[0]), txs[1..], k - 1, j)
  {
    assert txs[..k][0] == txs[0] && txs[..k][1..] == txs[1..][..k - 1];
  }

  lemma MadeFirstOrLater(txs: seq<Tx>, k: nat, o: OutPoint)
    requires 0 < k <= |txs|
    ensures MadeBefore(txs, k, o) <==> Makes(txs[0], o) || MadeBefore(txs[1..], k - 1, o)
  {
    if MadeBefore(txs[1..], k - 1, o) {
      var i :| 0 <= i < k - 1 && Makes(txs[1..][i], o);
      assert Makes(txs[i + 1], o);
    }
    if MadeBefore(txs, k, o) {
      var i :| 0 <= i < k && Makes(txs[i], o);
      if i != 0 {
        assert Makes(txs[1..][i - 1], o);
      }
    }
  }

  lemma {:induction false} FailureIsGuarded(e: Entries, txs: seq<Tx>) returns (k: nat, j: nat)
    requires IsOverflow(ApplyTxs(e, txs))
    ensures OverflowsAt(e, txs, k, j)
    decreases |txs|
  {
    var first := ApplyTx(e, txs[0]);
    assert ApplyTxs(e, txs) == After(first, txs[1..]);
    if first.failure.Some? {
      k, j := 0, first.failure.value.index;
      OverflowIsGuarded(e, txs[0]);
    } else {
      ApplyTxIsValidTx(e, txs[0]);
      k, j := FailureIsGuarded(first.entries, txs[1..]);
      k := k + 1;
      OneLess(e, txs, k, j);
    }
  }

  /** A block is atomic exactly when no input of it meets the guard.  At the guard, an entry from before
      the block disappears, or, when the block itself made that entry, undoing gets stuck on it. */
  lemma AtomicIffNoOverflow(u: Utxo, b: Block)
    ensures Atomic(u, b) <==> !(Extends(u, b) && exists k: nat, j: nat :: OverflowsAt(u.entries, b.txs, k, j))
    ensures forall k: nat, j: nat | Extends(u, b) && OverflowsAt(u.entries, b.txs, k, j) ::
              var o := Prevouts(b.txs[k])[j];
              if MadeBefore(b.txs, k, o) then ApplyBlock(u, b).1 == Err(InconsistentUtxo(o))
              else o in u.entries
                   && ApplyBlock(u, b) == (u.(entries := u.entries - {o}), Err(AmountOverflow(b.hash, b.txs[k].txid)))
  {
    AtomicIffNoInputSumOverflow(u, b);
    if IsOverflow(ApplyTxs(u.entries, b.txs)) {
      var k, j := FailureIsGuarded(u.entries, b.txs);
    }
    forall k: nat, j: nat | OverflowsAt(u.entries, b.txs, k, j)
      ensures var a := ApplyTxs(u.entries, b.txs);
              var o := Prevouts(b.txs[k])[j];
              && a.failure == Some(InputSumOverflow(b.txs[k].txid, j, o))
              && (Created(o) in a.journal <==> MadeBefore(b.txs, k, o))
    {
      GuardFails(u.entries, b.txs, k, j);
    }
  }

  // ---------------------------------------------------------------- a supply that fits

  /** No sum of distinct entries exceeds what the map holds altogether. */
  lemma SumWithinTotal(e: Entries, spent: seq<OutPoint>, o: OutPoint)
    requires Spendable(e, spent) && o in e && o !in spent
    ensures InputSum(e, spent) + e[o].value <= Total(e)
  {
    TotalWithout(e, spent);
    TotalRemove(Without(e, spent), o);
  }

  lemma {:induction false} NoOverflowWithin(e: Entries, txs: seq<Tx>)
    requires Total(e) + Minted(txs) <= U64_MAX
    ensures !IsOverflow(ApplyTxs(e, txs))
    decreases |txs|
  {
    if txs != [] {
      var first := ApplyTx(e, txs[0]);
      assert ApplyTxs(e, txs) == After(first, txs[1..]);
      if IsOverflow(first) {
        OverflowIsGuarded(e, txs[0]);
        var j := first.failure.value.index;
        SumWithinTotal(e, Prevouts(txs[0])[..j], Prevouts(txs[0])[j]);
      } else if first.failure.None? {
        TxConservesValue(e, txs[0]);
        NoOverflowWithin(first.entries, txs[1..]);
      }
    }
  }

  /** While what is unspent and what the block's coinbases create fit in 64 bits, the block is atomic. */
  lemma SupplyFitsIsAtomic(u: Utxo, b: Block)
    requires Total(u.entries) + Minted(b.txs) <= U64_MAX
    ensures Atomic(u, b)
  {
    NoOverflowWithin(u.entries, b.txs);
    AtomicIffNoInputSumOverflow(u, b);
  }

  // ---------------------------------------------------------------- the guard is reachable

  /** A coinbase worth the largest amount. */
  function Richest(txid: Txid): Tx {
    Tx(txid, true, [], [Output(U64_MAX, 0)])
  }

  lemma RichestSettles(e: Entries, txid: Txid)
    requires OutPoint(txid, 0) !in e
    ensures ValidTx(e, Richest(txid)) && Settled(e, Richest(txid)) == e[OutPoint(txid, 0) := Entry(U64_MAX, 0)]
  {
    var tx := Richest(txid);
    assert Without(e, []) == e;
    assert tx.outputs[..0] == [];
    assert OutputSum(tx.outputs) == U64_MAX;
    assert WithOutputs(e, tx, 0) == e;
  }

  lemma TwoRichest(x: Txid, y: Txid)
    requires x != y
    ensures var txs := [Richest(x), Richest(y)];
            && ValidTxs(map[], txs)
            && SettledAll(map[], txs) == map[OutPoint(x, 0) := Entry(U64_MAX, 0), OutPoint(y, 0) := Entry(U64_MAX, 0)]
  {
    var txs := [Richest(x), Richest(y)];
    var e1 := Settled(map[], Richest(x));
    RichestSettles(map[], x);
    RichestSettles(e1, y);
    assert txs[1..] == [Richest(y)] && txs[1..][1..] == [];
    assert SettledAll(e1, txs[1..]) == Settled(e1, Richest(y));
    assert ValidTxs(e1, txs[1..]);
  }

  lemma BothTogether(e: Entries, x: OutPoint, y: OutPoint, tx: Tx)
    requires x != y && x in e && y in e && e[x].value == U64_MAX && e[y].value > 0
    requires !tx.coinbase && tx.inputs == [x, y]
    ensures SumOverflows(e, tx, 1)
  {
    assert Prevouts(tx)[..1] == [x] && [x][..0] == [];
    assert InputSum(e, [x]) == U64_MAX;
  }

  /** From nothing: a block creates two outputs worth the largest amount, and the next block spends both in
      one transaction.  It is refused, and the second output is gone. */
  lemma OverflowLosesAnEntry(first: Block, second: Block, x: Txid, y: Txid, txid: Txid)
    requires x != y && first.hash != second.hash && second.prev == first.hash
    requires first.txs == [Richest(x), Richest(y)]
    requires second.txs == [Tx(txid, false, [OutPoint(x, 0), OutPoint(y, 0)], [])]
    ensures var (u, r) := ApplyBlock(Utxo(map[], []), first);
            && r.Ok? && u.entries == map[OutPoint(x, 0) := Entry(U64_MAX, 0), OutPoint(y, 0) := Entry(U64_MAX, 0)]
            && ApplyBlock(u, second) == (u.(entries := map[OutPoint(x, 0) := Entry(U64_MAX, 0)]),
                                         Err(AmountOverflow(second.hash, txid)))
            && !Atomic(u, second)
  {
    TwoRichest(x, y);
    ValidTxsApply(map[], first.txs);
    var u := ApplyBlock(Utxo(map[], []), first).0;
    BothTogether(u.entries, OutPoint(x, 0), OutPoint(y, 0), second.txs[0]);
    assert second.txs[..0] == [];
    assert OverflowsAt(u.entries, second.txs, 0, 1);
    AtomicIffNoOverflow(u, second);
    assert u.entries - {OutPoint(y, 0)} == map[OutPoint(x, 0) := Entry(U64_MAX, 0)];
  }

  /** The same three transactions in one block: undoing gets stuck on the output the block made. */
  lemma OverflowGetsStuck(b: Block, x: Txid, y: Txid, txid: Txid)
    requires x != y
    requires b.txs == [Richest(x), Richest(y), Tx(txid, false, [OutPoint(x, 0), OutPoint(y, 0)], [])]
    ensures ApplyBlock(Utxo(map[], []), b).1 == Err(InconsistentUtxo(OutPoint(y, 0)))
  {
    TwoRichest(x, y);
    var u := Utxo(map[], []);
    assert b.txs[..2] == [Richest(x), Richest(y)];
    BothTogether(SettledAll(map[], b.txs[..2]), OutPoint(x, 0), OutPoint(y, 0), b.txs[2]);
    assert OverflowsAt(u.entries, b.txs, 2, 1);
    assert Makes(b.txs[1], OutPoint(y, 0));
    AtomicIffNoOverflow(u, b);
  }

  lemma {:induction false} ValidTxsApply(e: Entries, txs: seq<Tx>)
    ensures ApplyTxs(e, txs).failure.None? <==> ValidTxs(e, txs)
    ensures ValidTxs(e, txs) ==> ApplyTxs(e, txs).entries == SettledAll(e, txs)
    decreases |txs|
  {
    if txs != [] {
      ApplyTxIsValidTx(e, txs[0]);
      assert ApplyTxs(e, txs) == After(ApplyTx(e, txs[0]), txs[1..]);
      ValidTxsApply(Settled(e, txs[0]), txs[1..]);
    }
  }
}
