/**
Where a QR symbol keeps the codewords of its blocks, in closed form
(Frontend/scripts/check_qr.py:83-99; section 7.6 of ISO/IEC 18004:2015):

- first row by row the data codewords that all blocks have;
- then the last data codeword of each longer block;
- then row by row the check codewords.
*/
module QrPlaces {
  import opened Algebra
  import opened QrBlocks

  /** The longer blocks come last and have one data codeword more. */
  function BlockLength(raw: nat, nb: nat, b: nat): nat
    requires nb > 0
  {
    if b < nb - raw % nb then raw / nb else raw / nb + 1
  }

  /** Where codeword `i` of block `b` stands: row by row, then the extra row of the longer blocks, then the checks. */
  function Place(raw: nat, nb: nat, ecl: nat, b: nat, i: nat): int
    requires nb > 0 && ecl <= raw / nb
  {
    var base, long := raw / nb - ecl, raw % nb;
    var length := if b < nb - long then base else base + 1;
    if i < base then nb * i + b
    else if i < length then nb * base + b - (nb - long)
    else nb * base + long + nb * (i - length) + b
  }

  // ----- the rows of the interleaved text

  lemma {:induction false} FullRow<T>(blocks: seq<seq<T>>, lens: seq<nat>, i: nat, k: nat)
    requires k <= |lens| == |blocks| && forall b :: 0 <= b < |lens| ==> lens[b] <= |blocks[b]|
    requires forall b :: 0 <= b < |lens| ==> i < lens[b]
    ensures |RowText(blocks, lens, i, k)| == k
    ensures forall b :: 0 <= b < k ==> i < |blocks[b]| && RowText(blocks, lens, i, k)[b] == blocks[b][i]
  {
    if k > 0 {
      FullRow(blocks, lens, i, k - 1);
    }
  }

  lemma {:induction false} LongRow<T>(blocks: seq<seq<T>>, lens: seq<nat>, base: nat, short: nat, k: nat)
    requires k <= |lens| == |blocks| && forall b :: 0 <= b < |lens| ==> lens[b] <= |blocks[b]|
    requires TwoGroups(lens, base, short)
    ensures |RowText(blocks, lens, base, k)| == if k <= short then 0 else k - short
    ensures forall b :: short <= b < k
                        ==> base < |blocks[b]| && RowText(blocks, lens, base, k)[b - short] == blocks[b][base]
  {
    if k > 0 {
      LongRow(blocks, lens, base, short, k - 1);
    }
  }

  lemma {:induction false} Rowed(nb: nat, i: nat, b: nat, rows: nat)
    requires b < nb && i < rows
    ensures 0 <= nb * i + b < nb * rows && nb * (rows - 1) + nb == nb * rows
    ensures i < rows - 1 ==> nb * i + b < nb * (rows - 1)
  {
    MulMonotone(i + 1, rows, nb);
    if i < rows - 1 {
      MulMonotone(i + 1, rows - 1, nb);
    }
  }

  lemma {:induction false} DataSize<T>(blocks: seq<seq<T>>, lens: seq<nat>, rows: nat)
    requires |lens| == |blocks| && forall b :: 0 <= b < |lens| ==> lens[b] <= |blocks[b]|
    requires forall b :: 0 <= b < |lens| ==> rows <= lens[b]
    ensures |DataText(blocks, lens, rows)| == |lens| * rows
  {
    if rows > 0 {
      hide RowText;
      DataSize(blocks, lens, rows - 1);
      FullRow(blocks, lens, rows - 1, |lens|);
      assert |lens| * rows == |lens| * (rows - 1) + |lens|;
    } else {
      assert |lens| * rows == 0;
    }
  }

  lemma {:induction false} DataAt<T>(blocks: seq<seq<T>>, lens: seq<nat>, rows: nat, b: nat, i: nat, at: nat)
    requires |lens| == |blocks| && forall b :: 0 <= b < |lens| ==> lens[b] <= |blocks[b]|
    requires forall b :: 0 <= b < |lens| ==> rows <= lens[b]
    requires b < |lens| && i < rows && at == |lens| * i + b
    ensures i < |blocks[b]| && at < |DataText(blocks, lens, rows)| && DataText(blocks, lens, rows)[at] == blocks[b][i]
  {
    hide RowText;
    Rowed(|lens|, i, b, rows);
    DataSize(blocks, lens, rows - 1);
    FullRow(blocks, lens, rows - 1, |lens|);
    if i < rows - 1 {
      DataAt(blocks, lens, rows - 1, b, i, at);
    }
  }

  lemma {:induction false} EccSize<T>(blocks: seq<seq<T>>, lens: seq<nat>, ecl: nat, rows: nat)
    requires rows <= ecl && |lens| == |blocks| && forall b :: 0 <= b < |lens| ==> |blocks[b]| == lens[b] + ecl
    ensures |EccText(blocks, lens, ecl, rows)| == |lens| * rows
  {
    if rows > 0 {
      EccSize(blocks, lens, ecl, rows - 1);
      assert |lens| * rows == |lens| * (rows - 1) + |lens|;
    } else {
      assert |lens| * rows == 0;
    }
  }

  lemma {:induction false} EccAt<T>(blocks: seq<seq<T>>, lens: seq<nat>, ecl: nat, rows: nat, b: nat, i: nat, at: nat)
    requires rows <= ecl && |lens| == |blocks| && forall b :: 0 <= b < |lens| ==> |blocks[b]| == lens[b] + ecl
    requires b < |lens| && i < rows && at == |lens| * i + b
    ensures lens[b] + i < |blocks[b]| && at < |EccText(blocks, lens, ecl, rows)|
    ensures EccText(blocks, lens, ecl, rows)[at] == blocks[b][lens[b] + i]
  {
    Rowed(|lens|, i, b, rows);
    EccSize(blocks, lens, ecl, rows - 1);
    assert |blocks[b]| == lens[b] + ecl;
    if i < rows - 1 {
      EccAt(blocks, lens, ecl, rows - 1, b, i, at);
    }
  }

  // ----- the whole text

  /** The blocks have the lengths of the symbol. */
  ghost predicate Shaped<T>(blocks: seq<seq<T>>, raw: nat, ecl: nat) {
    |blocks| > 0 && ecl <= raw / |blocks|
    && forall b :: 0 <= b < |blocks| ==> |blocks[b]| == BlockLength(raw, |blocks|, b)
  }

  lemma {:induction false} ShapedLengths<T>(blocks: seq<seq<T>>, raw: nat, ecl: nat)
    requires Shaped(blocks, raw, ecl)
    ensures var nb := |blocks|; var lens := Lengths(raw, nb, ecl);
            TwoGroups(lens, raw / nb - ecl, nb - raw % nb)
            && forall b :: 0 <= b < nb ==> |blocks[b]| == lens[b] + ecl
  {
  }

  lemma {:induction false} DataTextIs<T>(blocks: seq<seq<T>>, raw: nat, ecl: nat)
    requires Shaped(blocks, raw, ecl)
    ensures var nb := |blocks|; var lens, base := Lengths(raw, nb, ecl), raw / nb - ecl;
            (forall b :: 0 <= b < nb ==> |blocks[b]| == lens[b] + ecl)
            && DataText(blocks, lens, Rows(raw, nb, ecl))
               == DataText(blocks, lens, base) + RowText(blocks, lens, base, nb)
  {
    hide RowText;
    ShapedLengths(blocks, raw, ecl);
    var nb := |blocks|;
    var lens, base := Lengths(raw, nb, ecl), raw / nb - ecl;
    LongRow(blocks, lens, base, nb - raw % nb, nb);
    if raw % nb == 0 {
      assert RowText(blocks, lens, base, nb) == [];
    }
  }

  lemma {:induction false} TextAt<T>(blocks: seq<seq<T>>, raw: nat, ecl: nat, b: nat, i: nat)
    requires Shaped(blocks, raw, ecl) && b < |blocks| && i < |blocks[b]|
    ensures var nb := |blocks|; var lens := Lengths(raw, nb, ecl);
            (forall b :: 0 <= b < nb ==> |blocks[b]| == lens[b] + ecl)
            && var text := Interleave(blocks, lens, Rows(raw, nb, ecl), ecl);
            0 <= Place(raw, nb, ecl, b, i) < |text| && text[Place(raw, nb, ecl, b, i)] == blocks[b][i]
  {
    hide DataText, RowText, EccText, Rows, Lengths;
    var nb := |blocks|;
    var lens, base, short := Lengths(raw, nb, ecl), raw / nb - ecl, nb - raw % nb;
    ShapedLengths(blocks, raw, ecl);
    DataTextIs(blocks, raw, ecl);
    DataSize(blocks, lens, base);
    if i < base {
      DataAt(blocks, lens, base, b, i, nb * i + b);
    } else if i < lens[b] {
      LongRow(blocks, lens, base, short, nb);
    } else {
      DataAll(blocks, raw, ecl);
      Rowed(nb, i - lens[b], b, ecl);
      EccAt(blocks, lens, ecl, ecl, b, i - lens[b], nb * (i - lens[b]) + b);
    }
  }

  lemma {:induction false} DataAll<T>(blocks: seq<seq<T>>, raw: nat, ecl: nat)
    requires Shaped(blocks, raw, ecl)
    ensures var nb := |blocks|; var lens := Lengths(raw, nb, ecl);
            (forall b :: 0 <= b < nb ==> |blocks[b]| == lens[b] + ecl)
            && |DataText(blocks, lens, Rows(raw, nb, ecl))| == nb * (raw / nb - ecl) + raw % nb
  {
    hide DataText, RowText, Rows, Lengths;
    var nb := |blocks|;
    var lens, base := Lengths(raw, nb, ecl), raw / nb - ecl;
    ShapedLengths(blocks, raw, ecl);
    DataTextIs(blocks, raw, ecl);
    DataSize(blocks, lens, base);
    LongRow(blocks, lens, base, nb - raw % nb, nb);
  }

  // ----- every place is taken

  lemma {:induction false} Parts(raw: nat, nb: nat, ecl: nat)
    requires nb > 0 && ecl <= raw / nb
    ensures nb * (raw / nb - ecl) + raw % nb + nb * ecl == raw
  {
    Total(raw, nb, ecl);
  }

  lemma {:induction false} RowOf(n: nat, nb: nat, rows: nat) returns (i: nat, b: nat)
    requires nb > 0 && n < nb * rows
    ensures b < nb && i < rows && n == nb * i + b
  {
    i, b := n / nb, n % nb;
    if i >= rows {
      MulMonotone(rows, i, nb);
    }
  }

  lemma {:induction false} PlaceOf(raw: nat, nb: nat, ecl: nat, n: nat) returns (b: nat, i: nat)
    requires nb > 0 && ecl <= raw / nb && n < raw
    ensures b < nb && i < BlockLength(raw, nb, b) && Place(raw, nb, ecl, b, i) == n
  {
    Parts(raw, nb, ecl);
    var base, long := raw / nb - ecl, raw % nb;
    if n < nb * base {
      i, b := RowOf(n, nb, base);
    } else if n < nb * base + long {
      b, i := n - nb * base + (nb - long), base;
    } else {
      i, b := RowOf(n - nb * base - long, nb, ecl);
      i := i + if b < nb - long then base else base + 1;
    }
  }

  lemma {:induction false} PlaceInside(raw: nat, nb: nat, ecl: nat, b: nat, i: nat)
    requires nb > 0 && ecl <= raw / nb && b < nb && i < BlockLength(raw, nb, b)
    ensures 0 <= Place(raw, nb, ecl, b, i) < raw
  {
    Parts(raw, nb, ecl);
    var base, long := raw / nb - ecl, raw % nb;
    if i < base {
      Rowed(nb, i, b, base);
    } else {
      var length := if b < nb - long then base else base + 1;
      if i >= length {
        Rowed(nb, i - length, b, ecl);
      }
    }
  }

  /** The codewords of block `b` stand at their places in `cw`. */
  ghost predicate Stands<T>(block: seq<T>, cw: seq<T>, nb: nat, ecl: nat, b: nat)
    requires nb > 0 && ecl <= |cw| / nb
  {
    |block| == BlockLength(|cw|, nb, b) && forall i :: 0 <= i < |block| ==> StandsAt(block[i], cw, nb, ecl, b, i)
  }

  ghost predicate StandsAt<T>(codeword: T, cw: seq<T>, nb: nat, ecl: nat, b: nat, i: nat)
    requires nb > 0 && ecl <= |cw| / nb
  {
    0 <= Place(|cw|, nb, ecl, b, i) < |cw| && codeword == cw[Place(|cw|, nb, ecl, b, i)]
  }

  lemma {:induction false} BlockFrom<T>(cw: seq<T>, nb: nat, ecl: nat, b: nat, n: nat) returns (block: seq<T>)
    requires nb > 0 && ecl <= |cw| / nb && b < nb && n <= BlockLength(|cw|, nb, b)
    ensures |block| == n && forall i :: 0 <= i < n ==> StandsAt(block[i], cw, nb, ecl, b, i)
  {
    hide Place, BlockLength;
    block := [];
    if n > 0 {
      block := BlockFrom(cw, nb, ecl, b, n - 1);
      PlaceInside(|cw|, nb, ecl, b, n - 1);
      block := block + [cw[Place(|cw|, nb, ecl, b, n - 1)]];
    }
  }

  lemma {:induction false} BlocksFrom<T>(cw: seq<T>, nb: nat, ecl: nat, n: nat) returns (blocks: seq<seq<T>>)
    requires nb > 0 && ecl <= |cw| / nb && n <= nb
    ensures |blocks| == n && forall b :: 0 <= b < n ==> Stands(blocks[b], cw, nb, ecl, b)
  {
    hide StandsAt, BlockLength;
    blocks := [];
    if n > 0 {
      blocks := BlocksFrom(cw, nb, ecl, n - 1);
      var block := BlockFrom(cw, nb, ecl, n - 1, BlockLength(|cw|, nb, n - 1));
      blocks := blocks + [block];
    }
  }

  /** Each block is handed exactly the codewords at its places. */
  lemma {:induction false} BlocksAreAtTheirPlaces<T>(cw: seq<T>, nb: nat, ecl: nat)
    requires nb > 0 && ecl <= |cw| / nb
    ensures |Order(|cw|, nb, ecl)| == |cw| && InBlocks(Order(|cw|, nb, ecl), nb)
    ensures forall b :: 0 <= b < nb ==> Stands(Distribute(Order(|cw|, nb, ecl), cw, nb)[b], cw, nb, ecl, b)
  {
    hide Place, Interleave, Distribute, Order, Rows, Lengths, BlockLength;
    var raw := |cw|;
    var blocks := BlocksFrom(cw, nb, ecl, nb);
    ShapedLengths(blocks, raw, ecl);
    var text := Interleave(blocks, Lengths(raw, nb, ecl), Rows(raw, nb, ecl), ecl);
    assert forall b :: 0 <= b < nb ==> |blocks[b]| == Lengths(raw, nb, ecl)[b] + ecl;
    DeInterleaveInverts(blocks, raw, ecl);
    forall n: nat | n < raw ensures text[n] == cw[n] {
      var b, i := PlaceOf(raw, nb, ecl, n);
      TextAt(blocks, raw, ecl, b, i);
      assert StandsAt(blocks[b][i], cw, nb, ecl, b, i);
    }
    assert text == cw;
  }
}
