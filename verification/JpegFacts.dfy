/** What jpeg.c writes for a number and for the first coefficients of a scan (ITU-T T.81,
    tables F.1 and F.2). */
module JpegFacts {
  import opened Arith
  import opened Bits
  import opened BitStrings
  import opened Bytes
  import opened Huffman
  import opened JpegBlocks
  import opened JpegScan

  /** A positive number is written in as few bits as it has; a negative one in as many, but
      all of them the other way round. */
  lemma ValueMeaning(v: int)
    requires v != 0 && NBits(Abs(v)) <= 16
    ensures var t := |ValueBits(v)|;
      && t >= 1 && Pow2(t - 1) <= Abs(v) < Pow2(t)
      && Number(ValueBits(v)) == if v > 0 then v else Pow2(t) - 1 + v
  {
    hide Number, NBits, Pow2;
    var t := |ValueBits(v)|;
    ExtendValue(v);
    NBitsRange(Abs(v));
    BitsOfNumber(ValueBits(v));
    assert Pow2(t) == 2 * Pow2(t - 1) by { Pow2Sum(1, t - 1); TwoIs(); }
  }

  /** The first coefficient of a block is coded by its difference from that of the block
      before, which begins the bits of the block: its size, and then its bits. */
  lemma Differences(prev: int, blocks: seq<seq<int>>) returns (others: seq<bool>)
    requires IsScan(blocks) && blocks != [] && ScanEncodable(prev, blocks)
    ensures var diff := blocks[0][0] - prev;
      var size := NBits(Abs(diff));
      && size <= 11
      && ScanBits(prev, blocks)
         == BigEndian(DcCode(size), DcLen(size)) + ValueBits(diff) + others + ScanBits(blocks[0][0], blocks[1..])
  {
    hide BigEndian, DcCode, DcLen, NBits, AcBits, EndBits, LengthOf, Coefs, ValueBits;
    var z := Zigzag(blocks[0]);
    var len := LengthOf(z, 64);
    CoefsAll(z);
    Origin();
    assert z[0] == blocks[0][0];
    others := AcBits(z, len, 1, 0) + EndBits(len);
    assert DcBits(z[0] - prev) + AcBits(z, len, 1, 0) + EndBits(len) == DcBits(z[0] - prev) + others;
  }
}
