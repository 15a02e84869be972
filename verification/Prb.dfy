/** get_affected_prbs: from pixels of a spectrogram to physical resource blocks, over exact reals. */
module Prb {

  const CHANN_BANDWIDTH := 10000000.0
  const NUM_PRBS := 50.0

  // The calculation replaces the extent of the signal of interest by a fixed one.
  const YMIN_SOI := 93.23387145996094
  const YMAX_SOI := 552.609619140625

  const OCCUPIED_BANDWIDTH := CHANN_BANDWIDTH - 0.1 * CHANN_BANDWIDTH
  const SOI_FULL_HEIGHT := YMAX_SOI - YMIN_SOI
  const SOI_EFFECTIVE_HEIGHT := OCCUPIED_BANDWIDTH * SOI_FULL_HEIGHT / CHANN_BANDWIDTH
  const PX_PER_PRB := SOI_EFFECTIVE_HEIGHT / NUM_PRBS
  const SOI_END := YMIN_SOI + (SOI_FULL_HEIGHT - SOI_EFFECTIVE_HEIGHT) / 2.0 + SOI_EFFECTIVE_HEIGHT

  function Ceil(x: real): int {
    -(-x).Floor
  }

  /** How many blocks below the upper end of the channel a pixel row lies. */
  function Offset(y: real): real {
    (SOI_END - y) / PX_PER_PRB
  }

  /** The strings the source returns for the first two, a one-element list for the third. */
  datatype Detection = NoDetections | NoInterference | Interference(prb1: int, prb2: int)

  /** Rows ymin and ymax of the interference box, if there is one. */
  datatype Box = Nil | Box(ymin: real, ymax: real)

  function GetAffectedPrbs(soiFound: bool, box: Box): Detection {
    match box
    case Nil => if soiFound then NoInterference else NoDetections
    case Box(ymin, ymax) =>
      var prb1, prb2 := Offset(ymax).Floor, Ceil(Offset(ymin));
      if prb1 < 0 || prb2 < 0 then Interference(prb1 + 1, prb2 + 2) else Interference(prb1, prb2)
  }

  /** What a detection gives, for every box: the block boundaries next to its edges, moved by 1 and 2
      exactly if one of them lies below 0; and without a box one of two texts. */
  lemma DetectionIs(soiFound: bool, box: Box)
    ensures box.Nil? ==> GetAffectedPrbs(soiFound, box) == if soiFound then NoInterference else NoDetections
    ensures box.Box? ==>
              var low, high := Offset(box.ymax), Offset(box.ymin);
              var (a, b) := if low < 0.0 || high <= -1.0 then (1, 2) else (0, 0);
              var d := GetAffectedPrbs(soiFound, box);
              && d.Interference?
              && (d.prb1 - a) as real <= low < (d.prb1 - a) as real + 1.0
              && (d.prb2 - b) as real - 1.0 < high <= (d.prb2 - b) as real
  {
  }

  /** A box that reaches above the channel is moved. */
  lemma AdjustedDetection()
    ensures GetAffectedPrbs(true, Box.Box(500.0, 540.0)) == Interference(-1, 6)
  {
  }

  lemma PxPerPrbIsPositive()
    ensures PX_PER_PRB > 0.0
  {
  }

  /** The 50 blocks fill the occupied band, which lies in the middle of the signal of interest with
      5 percent of guard band on either side. */
  lemma ChannelGeometry()
    ensures SOI_END == YMAX_SOI - 0.05 * SOI_FULL_HEIGHT
    ensures SOI_END - NUM_PRBS * PX_PER_PRB == YMIN_SOI + 0.05 * SOI_FULL_HEIGHT
    ensures Offset(SOI_END) == 0.0 && Offset(SOI_END - PX_PER_PRB) == 1.0
  {
    PxPerPrbIsPositive();
  }

  /** A row's offset in terms of the extent alone: 50 blocks over 90 percent of the height between rows
      93.23... and 552.6..., counted down from 5 percent below its end. */
  lemma OffsetIs(y: real)
    ensures var end, height := 552.609619140625, 552.609619140625 - 93.23387145996094;
            Offset(y) * (0.9 * height) == 50.0 * (end - 0.05 * height - y)
  {
    PxPerPrbIsPositive();
    assert Offset(y) * PX_PER_PRB == SOI_END - y;
  }

  lemma OffsetOfBoundary(n: int)
    ensures Offset(SOI_END - n as real * PX_PER_PRB) == n as real
  {
    PxPerPrbIsPositive();
    Cancel(n as real, PX_PER_PRB);
  }

  lemma Cancel(n: real, h: real)
    requires h > 0.0
    ensures (n * h) / h == n
  {
  }

  lemma QuotientOrder(a: real, b: real, h: real)
    requires a <= b && h > 0.0
    ensures a / h <= b / h
  {
    assert (b - a) / h >= 0.0;
    assert b / h == a / h + (b - a) / h;
  }

  lemma OffsetOrder(y: real, z: real)
    requires y <= z
    ensures Offset(z) <= Offset(y)
  {
    PxPerPrbIsPositive();
    QuotientOrder(SOI_END - z, SOI_END - y, PX_PER_PRB);
  }

  lemma CeilBounds(x: real)
    ensures x <= Ceil(x) as real < x + 1.0
  {
  }

  /** The pair is ordered, and the blocks from prb1 to prb2 contain every row of the box that lies in
      the channel, also after the adjustment for negative indices; without it they are less than two
      blocks wider than the box. */
  lemma RangeCoversBox(soiFound: bool, box: Box, y: real)
    requires box.Box? && box.ymin <= y <= box.ymax
    ensures var d := GetAffectedPrbs(soiFound, box);
            && d.Interference? && d.prb1 <= d.prb2
            && (Offset(y) >= 0.0 ==> d.prb1 as real <= Offset(y) <= d.prb2 as real)
            && (Offset(box.ymax) >= 0.0 ==> (d.prb2 - d.prb1) as real < Offset(box.ymin) - Offset(box.ymax) + 2.0)
  {
    OffsetOrder(box.ymin, y);
    OffsetOrder(y, box.ymax);
    CeilBounds(Offset(box.ymin));
  }

  /** A range fit to be sent to the base station. */
  predicate InChannel(lo: int, hi: int) {
    lo > 0 && hi > lo && lo < 50 && hi < 50
  }

  /** The range passes the check before sending exactly when the box lies between the first and the
      last block boundary of the channel and is not a single row on a block boundary.  So a confirmed
      range was never adjusted: it covers the whole box, and is less than two blocks wider. */
  lemma ConfirmedRangeIsTight(soiFound: bool, box: Box)
    requires box.Box? && box.ymin <= box.ymax
    ensures var d := GetAffectedPrbs(soiFound, box);
            var low, high := Offset(box.ymax), Offset(box.ymin);
            && (InChannel(d.prb1, d.prb2) <==>
                  1.0 <= low && high <= 49.0 && !(low == high && low == low.Floor as real))
            && (InChannel(d.prb1, d.prb2) ==>
                  && (forall y | box.ymin <= y <= box.ymax :: d.prb1 as real <= Offset(y) <= d.prb2 as real)
                  && (d.prb2 - d.prb1) as real < high - low + 2.0)
  {
    OffsetOrder(box.ymin, box.ymax);
    CeilBounds(Offset(box.ymin));
    var d := GetAffectedPrbs(soiFound, box);
    forall y | box.ymin <= y <= box.ymax
      ensures InChannel(d.prb1, d.prb2) ==> d.prb1 as real <= Offset(y) <= d.prb2 as real
    {
      OffsetOrder(y, box.ymax);
      RangeCoversBox(soiFound, box, y);
    }
  }
}
