/**
De-interleaving the codewords of a QR symbol into its blocks
(Frontend/scripts/check_qr.py:83-99; section 7.6 of ISO/IEC 18004:2015), and its partner,
the interleaving of the standard.
*/
module QrBlocks {
  import opened Algebra

  // ----- the order in which blocks receive codewords

  /** Blocks below `k` that still have a data codeword in row `i`. */
  function Row(lens: seq<nat>, i: nat, k: nat): seq<nat>
    requires k <= |lens|
  {
    if k == 0 then [] else Row(lens, i, k - 1) + (if i < lens[k - 1] then [k - 1] else [])
  }

  function DataOrder(lens: seq<nat>, rows: nat): seq<nat>
  {
    if rows == 0 then [] else DataOrder(lens, rows - 1) + Row(lens, rows - 1, |lens|)
  }

  /** Row `i` is full: every block, in order. */
  function AllBlocks(nb: nat): (r: seq<nat>)
    ensures |r| == nb && forall b :: 0 <= b < nb ==> r[b] == b
  {
    seq(nb, b => b)
  }

  function EccOrder(nb: nat, rows: nat): seq<nat>
  {
    if rows == 0 then [] else EccOrder(nb, rows - 1) + AllBlocks(nb)
  }

  /** Hands each codeword to the block named at its position. */
  function Distribute<T>(order: seq<nat>, cw: seq<T>, nb: nat): (blocks: seq<seq<T>>)
    requires |order| == |cw| && forall k :: 0 <= k < |order| ==> order[k] < nb
    ensures |blocks| == nb
  {
    if |order| == 0 then seq(nb, _ => [])
    else
      var n := |order| - 1;
      var before := Distribute(order[..n], cw[..n], nb);
      before[order[n] := before[order[n]] + [cw[n]]]
  }

  ghost predicate InBlocks(order: seq<nat>, nb: nat) {
    forall k :: 0 <= k < |order| ==> order[k] < nb
  }

  lemma {:induction false} DistributeOne<T>(order: seq<nat>, cw: seq<T>, nb: nat, b: nat, x: T)
    requires |order| == |cw| && InBlocks(order, nb) && b < nb
    ensures InBlocks(order + [b], nb)
    ensures Distribute(order + [b], cw + [x], nb)
         == Distribute(order, cw, nb)[b := Distribute(order, cw, nb)[b] + [x]]
  {
    assert (order + [b])[..|order|] == order && (cw + [x])[..|cw|] == cw;
  }

  // ----- how many codewords each row takes

  lemma {:induction false} RowInBlocks(lens: seq<nat>, i: nat, k: nat)
    requires k <= |lens|
    ensures InBlocks(Row(lens, i, k), |lens|) && |Row(lens, i, k)| <= k
    ensures (forall b :: 0 <= b < k ==> i < lens[b]) ==> |Row(lens, i, k)| == k
  {
    if k > 0 {
      RowInBlocks(lens, i, k - 1);
    }
  }

  /** The data lengths of the two block groups: `short` blocks of `base`, the rest one longer. */
  ghost predicate TwoGroups(lens: seq<nat>, base: nat, short: nat) {
    short <= |lens| && forall b :: 0 <= b < |lens| ==> lens[b] == if b < short then base else base + 1
  }

  lemma {:induction false} LastRow(lens: seq<nat>, base: nat, short: nat, k: nat)
    requires TwoGroups(lens, base, short) && k <= |lens|
    ensures |Row(lens, base, k)| == if k <= short then 0 else k - short
  {
    if k > 0 {
      LastRow(lens, base, short, k - 1);
    }
  }

  lemma {:induction false} DataInBlocks(lens: seq<nat>, rows: nat)
    ensures InBlocks(DataOrder(lens, rows), |lens|)
  {
    if rows > 0 {
      DataInBlocks(lens, rows - 1);
      RowInBlocks(lens, rows - 1, |lens|);
    }
  }

  lemma {:induction false} FullRows(lens: seq<nat>, base: nat, short: nat, rows: nat)
    requires TwoGroups(lens, base, short) && rows <= base
    ensures |DataOrder(lens, rows)| == |lens| * rows
  {
    if rows > 0 {
      FullRows(lens, base, short, rows - 1);
      RowInBlocks(lens, rows - 1, |lens|);
      assert |lens| * rows == |lens| * (rows - 1) + |lens|;
    } else {
      assert |lens| * rows == 0;
    }
  }

  lemma {:induction false} EccLength(nb: nat, rows: nat)
    ensures |EccOrder(nb, rows)| == nb * rows && InBlocks(EccOrder(nb, rows), nb)
  {
    if rows > 0 {
      EccLength(nb, rows - 1);
      assert nb * rows == nb * (rows - 1) + nb;
    } else {
      assert nb * rows == 0;
    }
  }

  // ----- the symbol's own layout

  /** Data length of block `b` in a symbol of `raw` codewords, `nb` blocks and `ecl` check codewords each. */
  function DataLength(raw: nat, nb: nat, ecl: nat, b: nat): nat
    requires nb > 0 && ecl <= raw / nb
  {
    raw / nb - ecl + (if b < nb - raw % nb then 0 else 1)
  }

  function Lengths(raw: nat, nb: nat, ecl: nat): (lens: seq<nat>)
    requires nb > 0 && ecl <= raw / nb
    ensures |lens| == nb && forall b :: 0 <= b < nb ==> lens[b] == DataLength(raw, nb, ecl, b)
  {
    seq(nb, b requires 0 <= b < nb => DataLength(raw, nb, ecl, b))
  }

  /** The longest data length. */
  function Rows(raw: nat, nb: nat, ecl: nat): nat
    requires nb > 0 && ecl <= raw / nb
  {
    raw / nb - ecl + (if raw % nb == 0 then 0 else 1)
  }

  function Order(raw: nat, nb: nat, ecl: nat): seq<nat>
    requires nb > 0 && ecl <= raw / nb
  {
    DataOrder(Lengths(raw, nb, ecl), Rows(raw, nb, ecl)) + EccOrder(nb, ecl)
  }

  /** The rows use up exactly the codewords of the symbol. */
  lemma {:induction false} OrderUsesAll(raw: nat, nb: nat, ecl: nat)
    requires nb > 0 && ecl <= raw / nb
    ensures |Order(raw, nb, ecl)| == raw && InBlocks(Order(raw, nb, ecl), nb)
    ensures |DataOrder(Lengths(raw, nb, ecl), Rows(raw, nb, ecl))| == raw - nb * ecl
  {
    hide EccOrder, DataOrder, Row, Lengths;
    var lens, base, extra := Lengths(raw, nb, ecl), raw / nb - ecl, raw % nb;
    FullRows(lens, base, nb - extra, base);
    EccLength(nb, ecl);
    DataInBlocks(lens, Rows(raw, nb, ecl));
    LastRow(lens, base, nb - extra, nb);
    DataRows(lens, base);
    Total(raw, nb, ecl);
  }

  lemma {:induction false} DataRows(lens: seq<nat>, base: nat)
    ensures |DataOrder(lens, base + 1)| == |DataOrder(lens, base)| + |Row(lens, base, |lens|)|
  {
  }

  lemma {:induction false} Total(raw: nat, nb: nat, ecl: nat)
    requires nb > 0
    ensures nb * (raw / nb - ecl) + raw % nb + nb * ecl == raw
  {
    assert nb * (raw / nb - ecl) == nb * (raw / nb) - nb * ecl;
  }

  // ----- the loops

  method DeInterleave<T>(cw: seq<T>, raw: nat, nb: nat, ecl: nat) returns (blocks: seq<seq<T>>, idx: nat)
    requires nb > 0 && ecl <= raw / nb && |cw| == raw
    ensures idx == raw
    ensures InBlocks(Order(raw, nb, ecl), nb) && |Order(raw, nb, ecl)| == raw
    ensures blocks == Distribute(Order(raw, nb, ecl), cw, nb)
  {
    hide Row, EccOrder, DataOrder, Distribute, Lengths;
    OrderUsesAll(raw, nb, ecl);
    var lens := Lengths(raw, nb, ecl);
    blocks := seq(nb, _ => []);
    idx := 0;
    var i := 0;
    NoOrder(lens, nb, cw);
    while i < Rows(raw, nb, ecl)
      invariant 0 <= i <= Rows(raw, nb, ecl)
      invariant Progress(blocks, idx, DataOrder(lens, i), cw, nb)
    {
      OrderPrefix(lens, i, Rows(raw, nb, ecl));
      blocks, idx := DataRow(lens, i, cw, blocks, idx);
      i := i + 1;
    }
    i := 0;
    ghost var data := DataOrder(lens, Rows(raw, nb, ecl));
    NoEcc(data, nb);
    while i < ecl
      invariant 0 <= i <= ecl
      invariant Progress(blocks, idx, data + EccOrder(nb, i), cw, nb)
    {
      EccPrefix(nb, i, ecl);
      EccRow(nb, i);
      var b := 0;
      ghost var done := data + EccOrder(nb, i);
      assert done + AllBlocks(nb)[..0] == done;
      while b < nb
        invariant 0 <= b <= nb
        invariant Progress(blocks, idx, done + AllBlocks(nb)[..b], cw, nb)
      {
        ProgressStep(blocks, idx, done + AllBlocks(nb)[..b], cw, nb, b);
        assert done + AllBlocks(nb)[..b + 1] == done + AllBlocks(nb)[..b] + [b];
        blocks := blocks[b := blocks[b] + [cw[idx]]];
        idx := idx + 1;
        b := b + 1;
      }
      assert AllBlocks(nb)[..nb] == AllBlocks(nb);
      assert done + AllBlocks(nb) == data + (EccOrder(nb, i) + AllBlocks(nb));
      i := i + 1;
    }
    assert cw[..idx] == cw;
  }

  ghost predicate Progress<T>(blocks: seq<seq<T>>, idx: nat, order: seq<nat>, cw: seq<T>, nb: nat) {
    InBlocks(order, nb) && idx == |order| <= |cw| && blocks == Distribute(order, cw[..idx], nb)
  }

  lemma {:induction false} ProgressStep<T>(blocks: seq<seq<T>>, idx: nat, order: seq<nat>, cw: seq<T>, nb: nat, b: nat)
    requires Progress(blocks, idx, order, cw, nb) && b < nb && idx < |cw|
    ensures |blocks| == nb && Progress(blocks[b := blocks[b] + [cw[idx]]], idx + 1, order + [b], cw, nb)
  {
    DistributeOne(order, cw[..idx], nb, b, cw[idx]);
    assert cw[..idx + 1] == cw[..idx] + [cw[idx]];
  }

  lemma {:induction false} NoOrder<T>(lens: seq<nat>, nb: nat, cw: seq<T>)
    requires |lens| == nb
    ensures Progress<T>(seq(nb, _ => []), 0, DataOrder(lens, 0), cw, nb)
  {
  }

  lemma {:induction false} NoEcc(data: seq<nat>, nb: nat)
    ensures data + EccOrder(nb, 0) == data
  {
  }

  lemma {:induction false} EccRow(nb: nat, i: nat)
    ensures EccOrder(nb, i + 1) == EccOrder(nb, i) + AllBlocks(nb)
  {
  }

  lemma {:induction false} EccPrefix(nb: nat, i: nat, rows: nat)
    requires i < rows
    ensures |EccOrder(nb, i)| + nb <= |EccOrder(nb, rows)|
    decreases rows
  {
    if i + 1 < rows {
      EccPrefix(nb, i, rows - 1);
    }
  }

  lemma {:induction false} OrderPrefix(lens: seq<nat>, i: nat, rows: nat)
    requires i < rows
    ensures |DataOrder(lens, i)| + |Row(lens, i, |lens|)| <= |DataOrder(lens, rows)|
    decreases rows
  {
    if i + 1 < rows {
      OrderPrefix(lens, i, rows - 1);
    }
  }

  method DataRow<T>(lens: seq<nat>, i: nat, cw: seq<T>, blocks: seq<seq<T>>, idx: nat)
    returns (blocks': seq<seq<T>>, idx': nat)
    requires Progress(blocks, idx, DataOrder(lens, i), cw, |lens|)
    requires |DataOrder(lens, i)| + |Row(lens, i, |lens|)| <= |cw|
    ensures Progress(blocks', idx', DataOrder(lens, i + 1), cw, |lens|)
  {
    hide Distribute;
    blocks', idx' := blocks, idx;
    ghost var done := DataOrder(lens, i);
    var b := 0;
    assert done + [] == done;
    while b < |lens|
      invariant 0 <= b <= |lens|
      invariant Progress(blocks', idx', done + Row(lens, i, b), cw, |lens|)
    {
      RowPrefix(lens, i, b + 1, |lens|);
      if i < lens[b] {
        ProgressStep(blocks', idx', done + Row(lens, i, b), cw, |lens|, b);
        assert done + Row(lens, i, b + 1) == done + Row(lens, i, b) + [b];
        blocks' := blocks'[b := blocks'[b] + [cw[idx']]];
        idx' := idx' + 1;
      } else {
        assert Row(lens, i, b + 1) == Row(lens, i, b);
      }
      b := b + 1;
    }
  }

  lemma {:induction false} RowPrefix(lens: seq<nat>, i: nat, j: nat, k: nat)
    requires j <= k <= |lens|
    ensures |Row(lens, i, j)| <= |Row(lens, i, k)|
    decreases k
  {
    if j < k {
      RowPrefix(lens, i, j, k - 1);
    }
  }

  // ----- the interleaving of the standard, and the round trip

  /** Codeword `i` of every data block below `k` that has one. */
  function RowText<T>(blocks: seq<seq<T>>, lens: seq<nat>, i: nat, k: nat): seq<T>
    requires k <= |lens| == |blocks| && forall b :: 0 <= b < |lens| ==> lens[b] <= |blocks[b]|
  {
    if k == 0 then [] else RowText(blocks, lens, i, k - 1) + (if i < lens[k - 1] then [blocks[k - 1][i]] else [])
  }

  function DataText<T>(blocks: seq<seq<T>>, lens: seq<nat>, rows: nat): seq<T>
    requires |lens| == |blocks| && forall b :: 0 <= b < |lens| ==> lens[b] <= |blocks[b]|
  {
    if rows == 0 then [] else DataText(blocks, lens, rows - 1) + RowText(blocks, lens, rows - 1, |lens|)
  }

  /** Check codeword `i` of every block. */
  function EccRowText<T>(blocks: seq<seq<T>>, lens: seq<nat>, ecl: nat, i: nat): (r: seq<T>)
    requires i < ecl && |lens| == |blocks| && forall b :: 0 <= b < |lens| ==> |blocks[b]| == lens[b] + ecl
    ensures |r| == |blocks|
  {
    seq(|blocks|, b requires 0 <= b < |blocks| => blocks[b][lens[b] + i])
  }

  function EccText<T>(blocks: seq<seq<T>>, lens: seq<nat>, ecl: nat, rows: nat): seq<T>
    requires rows <= ecl && |lens| == |blocks| && forall b :: 0 <= b < |lens| ==> |blocks[b]| == lens[b] + ecl
  {
    if rows == 0 then [] else EccText(blocks, lens, ecl, rows - 1) + EccRowText(blocks, lens, ecl, rows - 1)
  }

  /** All data codewords row by row, then all check codewords row by row. */
  function Interleave<T>(blocks: seq<seq<T>>, lens: seq<nat>, rows: nat, ecl: nat): seq<T>
    requires |lens| == |blocks| && forall b :: 0 <= b < |lens| ==> |blocks[b]| == lens[b] + ecl
  {
    DataText(blocks, lens, rows) + EccText(blocks, lens, ecl, ecl)
  }

  /** Block `b` has received the first `n(b)` of its codewords. */
  ghost predicate Filled<T>(order: seq<nat>, cw: seq<T>, blocks: seq<seq<T>>, n: nat -> nat) {
    |order| == |cw| && InBlocks(order, |blocks|)
    && forall b :: 0 <= b < |blocks| ==> n(b) <= |blocks[b]| && Distribute(order, cw, |blocks|)[b] == blocks[b][..n(b)]
  }

  lemma {:induction false} FillOne<T>(order: seq<nat>, cw: seq<T>, blocks: seq<seq<T>>, n: nat -> nat, n': nat -> nat,
                                      b: nat)
    requires Filled(order, cw, blocks, n) && b < |blocks| && n(b) < |blocks[b]|
    requires n'(b) == n(b) + 1 && forall k :: 0 <= k < |blocks| && k != b ==> n'(k) == n(k)
    ensures Filled(order + [b], cw + [blocks[b][n(b)]], blocks, n')
  {
    hide Distribute;
    DistributeOne(order, cw, |blocks|, b, blocks[b][n(b)]);
    assert blocks[b][..n(b) + 1] == blocks[b][..n(b)] + [blocks[b][n(b)]];
  }

  lemma {:induction false} FillSame<T>(order: seq<nat>, cw: seq<T>, blocks: seq<seq<T>>, n: nat -> nat, n': nat -> nat)
    requires Filled(order, cw, blocks, n) && forall k :: 0 <= k < |blocks| ==> n'(k) == n(k)
    ensures Filled(order, cw, blocks, n')
  {
  }

  /** After row `i` has been handed to the blocks below `k`. */
  ghost function DataLevel(lens: seq<nat>, i: nat, k: nat): nat -> nat {
    (b: nat) => if b < |lens| then Min(if b < k then i + 1 else i, lens[b]) else 0
  }

  lemma {:induction false} FillRow<T>(blocks: seq<seq<T>>, lens: seq<nat>, i: nat, k: nat)
    requires k <= |lens| == |blocks| && forall b :: 0 <= b < |lens| ==> lens[b] <= |blocks[b]|
    requires Filled(DataOrder(lens, i), DataText(blocks, lens, i), blocks, DataLevel(lens, i, 0))
    ensures Filled(DataOrder(lens, i) + Row(lens, i, k), DataText(blocks, lens, i) + RowText(blocks, lens, i, k),
        blocks, DataLevel(lens, i, k))
  {
    hide Distribute, DataOrder, DataText, Filled;
    var order, cw := DataOrder(lens, i), DataText(blocks, lens, i);
    if k == 0 {
      assert order + [] == order && cw + [] == cw;
    } else {
      FillRow(blocks, lens, i, k - 1);
      var order', cw' := order + Row(lens, i, k - 1), cw + RowText(blocks, lens, i, k - 1);
      if i < lens[k - 1] {
        assert lens[k - 1] <= |blocks[k - 1]|;
        FillOne(order', cw', blocks, DataLevel(lens, i, k - 1), DataLevel(lens, i, k), k - 1);
        assert order + Row(lens, i, k) == order' + [k - 1];
        assert cw + RowText(blocks, lens, i, k) == cw' + [blocks[k - 1][i]];
      } else {
        FillSame(order', cw', blocks, DataLevel(lens, i, k - 1), DataLevel(lens, i, k));
        assert Row(lens, i, k) == Row(lens, i, k - 1);
        assert RowText(blocks, lens, i, k) == RowText(blocks, lens, i, k - 1);
      }
    }
  }

  lemma {:induction false} FillData<T>(blocks: seq<seq<T>>, lens: seq<nat>, rows: nat)
    requires |lens| == |blocks| && forall b :: 0 <= b < |lens| ==> lens[b] <= |blocks[b]|
    ensures Filled(DataOrder(lens, rows), DataText(blocks, lens, rows), blocks, DataLevel(lens, rows, 0))
  {
    if rows > 0 {
      hide Distribute, Row, RowText, Filled;
      FillData(blocks, lens, rows - 1);
      FillRow(blocks, lens, rows - 1, |lens|);
      FillSame(DataOrder(lens, rows), DataText(blocks, lens, rows), blocks, DataLevel(lens, rows - 1, |lens|),
            DataLevel(lens, rows, 0));
    }
  }

  ghost function EccLevel(lens: seq<nat>, i: nat, k: nat): nat -> nat {
    (b: nat) => if b < |lens| then lens[b] + (if b < k then i + 1 else i) else 0
  }

  lemma {:induction false} FillEccRow<T>(order: seq<nat>, cw: seq<T>, blocks: seq<seq<T>>, lens: seq<nat>, ecl: nat,
                                         i: nat, k: nat)
    requires i < ecl && k <= |lens| == |blocks| && forall b :: 0 <= b < |lens| ==> |blocks[b]| == lens[b] + ecl
    requires Filled(order, cw, blocks, EccLevel(lens, i, 0))
    ensures Filled(order + AllBlocks(|lens|)[..k], cw + EccRowText(blocks, lens, ecl, i)[..k], blocks,
        EccLevel(lens, i, k))
  {
    hide Distribute, Filled;
    if k == 0 {
      assert order + AllBlocks(|lens|)[..0] == order && cw + EccRowText(blocks, lens, ecl, i)[..0] == cw;
    } else {
      FillEccRow(order, cw, blocks, lens, ecl, i, k - 1);
      var order', cw' := order + AllBlocks(|lens|)[..k - 1], cw + EccRowText(blocks, lens, ecl, i)[..k - 1];
      assert |blocks[k - 1]| == lens[k - 1] + ecl;
      FillOne(order', cw', blocks, EccLevel(lens, i, k - 1), EccLevel(lens, i, k), k - 1);
      assert order + AllBlocks(|lens|)[..k] == order' + [k - 1];
      assert cw + EccRowText(blocks, lens, ecl, i)[..k] == cw' + [blocks[k - 1][lens[k - 1] + i]];
    }
  }

  lemma {:induction false} FillEcc<T>(order: seq<nat>, cw: seq<T>, blocks: seq<seq<T>>, lens: seq<nat>, ecl: nat,
                                      rows: nat)
    requires rows <= ecl && |lens| == |blocks| && forall b :: 0 <= b < |lens| ==> |blocks[b]| == lens[b] + ecl
    requires Filled(order, cw, blocks, EccLevel(lens, 0, 0))
    ensures Filled(order + EccOrder(|lens|, rows), cw + EccText(blocks, lens, ecl, rows), blocks,
        EccLevel(lens, rows, 0))
  {
    hide Distribute, Filled, EccRowText, AllBlocks;
    if rows == 0 {
      assert order + [] == order && cw + [] == cw;
    } else {
      FillEcc(order, cw, blocks, lens, ecl, rows - 1);
      var order', cw' := order + EccOrder(|lens|, rows - 1), cw + EccText(blocks, lens, ecl, rows - 1);
      FillEccRow(order', cw', blocks, lens, ecl, rows - 1, |lens|);
      assert AllBlocks(|lens|)[..|lens|] == AllBlocks(|lens|);
      assert EccRowText(blocks, lens, ecl, rows - 1)[..|lens|] == EccRowText(blocks, lens, ecl, rows - 1);
      assert order + EccOrder(|lens|, rows) == order' + AllBlocks(|lens|);
      assert cw + EccText(blocks, lens, ecl, rows) == cw' + EccRowText(blocks, lens, ecl, rows - 1);
      FillSame(order + EccOrder(|lens|, rows), cw + EccText(blocks, lens, ecl, rows), blocks,
               EccLevel(lens, rows - 1, |lens|), EccLevel(lens, rows, 0));
    }
  }

  /** De-interleaving undoes the interleaving, for every number of blocks and every length. */
  lemma {:induction false} DeInterleaveInverts<T>(blocks: seq<seq<T>>, raw: nat, ecl: nat)
    requires |blocks| > 0 && ecl <= raw / |blocks|
    requires forall b :: 0 <= b < |blocks| ==> |blocks[b]| == DataLength(raw, |blocks|, ecl, b) + ecl
    ensures var nb := |blocks|; var cw := Interleave(blocks, Lengths(raw, nb, ecl), Rows(raw, nb, ecl), ecl);
            |cw| == raw == |Order(raw, nb, ecl)| && InBlocks(Order(raw, nb, ecl), nb)
            && Distribute(Order(raw, nb, ecl), cw, nb) == blocks
  {
    hide Distribute, DataOrder, DataText, EccOrder, EccText;
    var nb := |blocks|;
    var lens, rows := Lengths(raw, nb, ecl), Rows(raw, nb, ecl);
    OrderUsesAll(raw, nb, ecl);
    FillData(blocks, lens, rows);
    FillSame(DataOrder(lens, rows), DataText(blocks, lens, rows), blocks, DataLevel(lens, rows, 0),
          EccLevel(lens, 0, 0));
    FillEcc(DataOrder(lens, rows), DataText(blocks, lens, rows), blocks, lens, ecl, ecl);
    var received := Distribute(Order(raw, nb, ecl), Interleave(blocks, lens, rows, ecl), nb);
    forall b | 0 <= b < nb ensures received[b] == blocks[b] {
      assert blocks[b][..|blocks[b]|] == blocks[b];
    }
  }
}
