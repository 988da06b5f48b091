/** From the modules of a symbol to its blocks (Frontend/scripts/check_qr.py, `decode`). */
module QrDecode {
  import opened Algebra
  import opened Sorting
  import opened QrMask
  import opened QrCount
  import opened QrScan
  import opened QrBlocks

  // Mark the function modules, read the others along the zigzag with the data mask taken off,
  // cut the bits into codewords, and hand the codewords to the blocks. Error correction is
  // level M and versions run to 10.

  /** Check codewords per block, and blocks, of versions 1 to 10; entry 0 is unused. */
  const EPC: seq<nat> := [0, 10, 16, 26, 18, 24, 16, 18, 22, 22, 26]
  const NB: seq<nat> := [0, 1, 1, 1, 2, 2, 4, 4, 4, 5, 5]

  predicate Supported(v: nat) {
    1 <= v <= 10
  }

  function RawCodewords(v: nat): (raw: nat)
    requires Supported(v)
    ensures NB[v] > 0 && EPC[v] <= raw / NB[v]
  {
    RawModules(v) / 8
  }

  /** Data codewords at level M, versions 1 to 10 (Table 7 of ISO/IEC 18004:2015); entry 0 is unused. */
  const CAPACITY: seq<nat> := [0, 16, 28, 44, 64, 86, 108, 124, 154, 182, 216]

  /** What the check codewords of all blocks leave is the capacity of the standard. */
  lemma {:induction false} DataCapacity(v: nat)
    requires Supported(v)
    ensures RawCodewords(v) - NB[v] * EPC[v] == CAPACITY[v]
  {
    assert v == 1 || v == 2 || v == 3 || v == 4 || v == 5 || v == 6 || v == 7 || v == 8 || v == 9 || v == 10;
  }

  // ----- codewords

  type Byte = b: nat | b < 256

  function Bit(b: bool): nat {
    if b then 1 else 0
  }

  function Codeword(bits: seq<bool>): Byte
    requires |bits| == 8
  {
    128 * Bit(bits[0]) + 64 * Bit(bits[1]) + 32 * Bit(bits[2]) + 16 * Bit(bits[3])
    + 8 * Bit(bits[4]) + 4 * Bit(bits[5]) + 2 * Bit(bits[6]) + Bit(bits[7])
  }

  /** The `n` low bits of `b`, most significant first. */
  function LowBits(b: nat, n: nat): (bits: seq<bool>)
    ensures |bits| == n
  {
    if n == 0 then [] else LowBits(b / 2, n - 1) + [b % 2 == 1]
  }

  /** The number that `bits` write, most significant first. */
  ghost function Reading(bits: seq<bool>): nat {
    if |bits| == 0 then 0 else 2 * Reading(bits[..|bits| - 1]) + Bit(bits[|bits| - 1])
  }

  lemma {:induction false} ReadingOfLowBits(b: nat, n: nat, limit: nat)
    requires b < limit && limit == Power2(n)
    ensures Reading(LowBits(b, n)) == b
  {
    if n > 0 {
      ReadingOfLowBits(b / 2, n - 1, Power2(n - 1));
      assert LowBits(b, n)[..n - 1] == LowBits(b / 2, n - 1);
    }
  }

  lemma {:induction false} CodewordReads(bits: seq<bool>)
    requires |bits| == 8
    ensures Reading(bits) == Codeword(bits)
  {
    hide Reading, Bit;
    ReadingTwo(bits);
    ReadingTwo(bits[..6]);
    ReadingTwo(bits[..4]);
    ReadingTwo(bits[..2]);
    assert bits[..6][..4] == bits[..4] && bits[..4][..2] == bits[..2] && bits[..2][..0] == [];
    ReadingNone();
  }

  lemma {:induction false} ReadingNone()
    ensures Reading([]) == 0
  {
  }

  lemma {:induction false} ReadingTwo(bits: seq<bool>)
    requires |bits| >= 2
    ensures Reading(bits) == 4 * Reading(bits[..|bits| - 2]) + 2 * Bit(bits[|bits| - 2]) + Bit(bits[|bits| - 1])
  {
    var n := |bits|;
    assert bits[..n - 1][..n - 2] == bits[..n - 2];
  }

  /** The eight bits of a byte, most significant first. */
  function BitsOf(b: Byte): (bits: seq<bool>)
    ensures |bits| == 8
  {
    LowBits(b, 8)
  }

  lemma {:induction false} LowBitsAt(b: nat, n: nat, i: nat)
    requires i < n
    ensures LowBits(b, n)[i] <==> b / Power2(n - 1 - i) % 2 == 1
  {
    if i < n - 1 {
      LowBitsAt(b / 2, n - 1, i);
      DivideTwice(b, 2, Power2(n - 2 - i));
      assert Power2(n - 1 - i) == 2 * Power2(n - 2 - i);
    }
  }

  /** Bit `i` of a byte is the one that counts `2^(7 - i)`. */
  lemma {:induction false} BitsOfAt(b: Byte, i: nat)
    requires i < 8
    ensures BitsOf(b)[i] <==> b / Power2(7 - i) % 2 == 1
  {
    hide LowBits, Power2;
    LowBitsAt(b, 8, i);
  }

  lemma {:induction false} CodewordOfBits(b: Byte)
    ensures Codeword(BitsOf(b)) == b
  {
    hide Codeword, Reading, LowBits;
    assert Power2(8) == 2 * Power2(7) == 4 * Power2(6) == 8 * Power2(5) == 16 * Power2(4) == 32 * Power2(3);
    ReadingOfLowBits(b, 8, 256);
    CodewordReads(BitsOf(b));
  }

  function Codewords(out: seq<bool>, raw: nat): (cw: seq<Byte>)
    requires 8 * raw <= |out|
    ensures |cw| == raw
    ensures forall i :: 0 <= i < raw ==> cw[i] == Codeword(out[8 * i..8 * i + 8])
  {
    seq(raw, i requires 0 <= i < raw => Codeword(out[8 * i..8 * i + 8]))
  }

  // ----- reading

  ghost function Marked(v: nat): Cell -> bool {
    (c: Cell) => IsFunction(v, c)
  }

  /** The data bits of a symbol in reading order. */
  ghost function DataBits(v: nat, bit: Cell -> bool): seq<bool> {
    Bits(ZigZag(v), Marked(v), bit)
  }

  /** The reader takes exactly as many bits as the formula says, for every version of the standard. */
  lemma {:induction false} ReadsRawModules(v: nat, bit: Cell -> bool)
    requires Version(v)
    ensures |DataBits(v, bit)| == RawModules(v)
  {
    hide Path, ZigZag, IsFunction, NoDuplicates, Free;
    PathIsZigZag(v);
    ScanVisitsOnce(v);
    FreeCount(v);
    forall c ensures c in Free(v) <==> c in Path(Side(v)) && !Marked(v)(c) {
      FreeHas(v, c);
    }
    BitsCount(Path(Side(v)), Marked(v), bit, Free(v));
  }

  lemma {:induction false} FreeHas(v: nat, c: Cell)
    ensures c in Free(v) <==> 0 <= c.0 < Side(v) && c.0 != 6 && 0 <= c.1 < Side(v) && !Marked(v)(c)
  {
    hide Aligned, Finder, Format, VersionInfo, Board;
    OnBoard(v, c);
  }

  lemma {:induction false} SupportedFits(v: nat, bit: Cell -> bool)
    requires Supported(v)
    ensures 8 * RawCodewords(v) <= |DataBits(v, bit)|
  {
    hide DataBits;
    ReadsRawModules(v, bit);
  }

  // ----- the data mask

  /** The eight mask patterns (section 7.8.2 of ISO/IEC 18004:2015). */
  predicate Pattern(mask: nat, c: Cell)
    requires mask < 8
  {
    var (x, y) := c;
    match mask
    case 0 => (x + y) % 2 == 0
    case 1 => y % 2 == 0
    case 2 => x % 3 == 0
    case 3 => (x + y) % 3 == 0
    case 4 => (x / 3 + y / 2) % 2 == 0
    case 5 => x * y % 2 + x * y % 3 == 0
    case 6 => (x * y % 2 + x * y % 3) % 2 == 0
    case 7 => ((x + y) % 2 + x * y % 3) % 2 == 0
  }

  /** What each pattern picks out: parities, thirds, or a remainder of the product. */
  lemma {:induction false} PatternPicks(c: Cell)
    ensures var (x, y) := c;
            (Pattern(0, c) <==> (x % 2 == y % 2))
            && (Pattern(1, c) <==> exists k: int :: y == 2 * k)
            && (Pattern(2, c) <==> exists k: int :: x == 3 * k)
            && (Pattern(3, c) <==> exists k: int :: x + y == 3 * k)
            && (Pattern(4, c) <==> (x % 6 < 3) == (y % 4 < 2))
            && (Pattern(5, c) <==> x * y % 6 == 0)
            && (Pattern(6, c) <==> x * y % 6 < 3)
            && (Pattern(7, c) <==> (x % 2 == y % 2) != (x * y % 3 == 1))
  {
    var (x, y) := c;
    Halves(x, y);
    Multiple(y, 2);
    Multiple(x, 3);
    Multiple(x + y, 3);
    Blocks(x, y);
    ProductPatterns(c, x * y);
  }

  lemma {:induction false} ProductPatterns(c: Cell, p: int)
    requires p == c.0 * c.1
    ensures Pattern(5, c) <==> p % 6 == 0
    ensures Pattern(6, c) <==> p % 6 < 3
    ensures Pattern(7, c) <==> (c.0 % 2 == c.1 % 2) != (p % 3 == 1)
  {
    Halves(c.0, c.1);
    Sixths(p);
  }

  lemma {:induction false} Halves(x: int, y: int)
    ensures (x + y) % 2 == 0 <==> x % 2 == y % 2
  {
  }

  /** Thirds across and halves down. */
  lemma {:induction false} Blocks(x: int, y: int)
    ensures (x / 3 + y / 2) % 2 == 0 <==> (x % 6 < 3) == (y % 4 < 2)
  {
    assert x / 3 % 2 == 0 <==> x % 6 < 3;
    assert y / 2 % 2 == 0 <==> y % 4 < 2;
    Halves(x / 3, y / 2);
  }

  lemma {:induction false} Sixths(p: int)
    ensures p % 2 + p % 3 == 0 <==> p % 6 == 0
    ensures (p % 2 + p % 3) % 2 == 0 <==> p % 6 < 3
  {
    SameRest(p, 2, 3);
    SameRest(p, 3, 2);
    SmallSixths(p % 6);
  }

  lemma {:induction false} SmallSixths(r: nat)
    requires r < 6
    ensures r % 2 + r % 3 == 0 <==> r == 0
    ensures (r % 2 + r % 3) % 2 == 0 <==> r < 3
  {
    assert r == 0 || r == 1 || r == 2 || r == 3 || r == 4 || r == 5;
  }

  /** The modules with the mask taken off. */
  function Unmasked(mask: nat, m: Cell -> bool): Cell -> bool
    requires mask < 8
  {
    (c: Cell) => m(c) != Pattern(mask, c)
  }

  /** What a symbol shows when `bit` was placed and then masked, outside its function modules. */
  ghost predicate Shows(v: nat, mask: nat, m: Cell -> bool, bit: Cell -> bool)
    requires mask < 8
  {
    forall c: Cell :: !Marked(v)(c) ==> m(c) == (bit(c) != Pattern(mask, c))
  }

  /** Taking the mask off gives back the data bits that were placed. */
  lemma {:induction false} MaskComesOff(v: nat, mask: nat, m: Cell -> bool, bit: Cell -> bool)
    requires mask < 8 && Shows(v, mask, m, bit)
    ensures DataBits(v, Unmasked(mask, m)) == DataBits(v, bit)
  {
    hide ZigZag, IsFunction, Pattern;
    BitsAgree(ZigZag(v), Marked(v), Unmasked(mask, m), bit);
  }

  /** The blocks of a symbol with modules `m` under data mask `mask`; no step reads out of range. */
  method Decode(v: nat, mask: nat, m: Cell -> bool) returns (blocks: seq<seq<Byte>>)
    requires Supported(v) && mask < 8
    ensures 8 * RawCodewords(v) <= |DataBits(v, Unmasked(mask, m))|
    ensures InBlocks(Order(RawCodewords(v), NB[v], EPC[v]), NB[v])
    ensures |Order(RawCodewords(v), NB[v], EPC[v])| == RawCodewords(v)
    ensures blocks == Distribute(Order(RawCodewords(v), NB[v], EPC[v]),
                                 Codewords(DataBits(v, Unmasked(mask, m)), RawCodewords(v)), NB[v])
  {
    hide IsFunction, Path, ZigZag, Bits, Pattern;
    PathIsZigZag(v);
    SupportedFits(v, Unmasked(mask, m));
    var f := FuncMask(v);
    var out := Scan(Side(v), f, Unmasked(mask, m), Marked(v));
    var idx;
    blocks, idx := DeInterleave(Codewords(out, RawCodewords(v)), RawCodewords(v), NB[v], EPC[v]);
    assert idx == RawCodewords(v);
  }

  /** The placed bits hold the codewords of `text` in reading order. */
  ghost predicate Carries(v: nat, bit: Cell -> bool, text: seq<Byte>) {
    8 * |text| <= |DataBits(v, bit)|
    && forall i :: 0 <= i < |text| ==> DataBits(v, bit)[8 * i..8 * i + 8] == BitsOf(text[i])
  }

  /** A symbol in which interleaved blocks of the right lengths were placed and masked decodes to those blocks. */
  lemma {:induction false} DecodesWhatWasPlaced(v: nat, mask: nat, m: Cell -> bool, bit: Cell -> bool,
                                                blocks: seq<seq<Byte>>)
    requires Supported(v) && |blocks| == NB[v] && mask < 8 && Shows(v, mask, m, bit)
    requires forall b :: 0 <= b < NB[v] ==> |blocks[b]| == DataLength(RawCodewords(v), NB[v], EPC[v], b) + EPC[v]
    requires var raw := RawCodewords(v);
             Carries(v, bit, Interleave(blocks, Lengths(raw, NB[v], EPC[v]), Rows(raw, NB[v], EPC[v]), EPC[v]))
    ensures 8 * RawCodewords(v) <= |DataBits(v, Unmasked(mask, m))|
    ensures InBlocks(Order(RawCodewords(v), NB[v], EPC[v]), NB[v])
    ensures |Order(RawCodewords(v), NB[v], EPC[v])| == RawCodewords(v)
    ensures Distribute(Order(RawCodewords(v), NB[v], EPC[v]),
                       Codewords(DataBits(v, Unmasked(mask, m)), RawCodewords(v)), NB[v]) == blocks
  {
    hide DataBits, Distribute, Order, Interleave, Rows, BitsOf, Codeword, RawCodewords, Unmasked, Shows;
    var raw := RawCodewords(v);
    var text := Interleave(blocks, Lengths(raw, NB[v], EPC[v]), Rows(raw, NB[v], EPC[v]), EPC[v]);
    MaskComesOff(v, mask, m, bit);
    SupportedFits(v, bit);
    DeInterleaveInverts(blocks, raw, EPC[v]);
    forall i | 0 <= i < raw ensures Codewords(DataBits(v, bit), raw)[i] == text[i] {
      CodewordOfBits(text[i]);
    }
    assert Codewords(DataBits(v, bit), raw) == text;
  }
}
