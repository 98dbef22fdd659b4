/** Fixed-point link quality: expected transmissions, smoothed signal strength, and the route metric. */
module LinkMetrics {
  import opened Octets

  type U16 = x: nat | x < 0x1_0000
  type I16 = x: int | -0x8000 <= x < 0x8000
  type I8 = x: int | -128 <= x < 128

  const ETX_UNIT := 256
  const ETX_MAX := 2048
  const TX_WINDOW := 320
  const METRIC_MAX := 0xFFFF
  const ROUTE_HYSTERESIS := 48
  const METRIC_WEIGHT_HOP := 32
  const METRIC_WEIGHT_ETX := 128
  const METRIC_WEIGHT_RSSI := 8
  const UNKNOWN_RSSI: I8 := -85

  /** Signed division as the hardware does it: towards zero. */
  function TruncDiv(a: int, b: nat): int
    requires b > 0
  {
    if a >= 0 then a / b else -((-a) / b)
  }

  /** It rounds down without a sign, and the sign does not matter. */
  lemma TruncatesTowardsZero(a: int, b: nat)
    requires b > 0
    ensures a >= 0 ==> TruncDiv(a, b) == a / b
    ensures TruncDiv(-a, b) == -TruncDiv(a, b)
  {
    assert 0 / b == 0;
  }

  lemma Quotient(a: nat, k: nat)
    requires k > 0
    ensures a / k * k <= a < (a / k + 1) * k
  {
  }

  datatype LinkStats = LinkStats(rssiEwmaQ8: I16, txOk: U16, txFail: U16, etxQ8: U16, consecutiveTxFailures: Octet)

  const NEW_LINK := LinkStats(0, 0, 0, ETX_UNIT, 0)

  /** What every sequence of results and frames maintains. */
  predicate InRange(s: LinkStats) {
    ETX_UNIT <= s.etxQ8 <= ETX_MAX && s.txOk + s.txFail <= TX_WINDOW
  }

  function EtxSample(ok: nat, fail: nat): U16 {
    var k := if ok == 0 then 1 else ok;
    var sample := (k + fail) * ETX_UNIT / k;
    if sample < ETX_UNIT then ETX_UNIT else if sample > ETX_MAX then ETX_MAX else sample
  }

  /** One transmission result: count, halve a full window, and smooth the clamped sample. */
  function UpdateTxEtx(s: LinkStats, success: bool): (r: LinkStats)
    ensures InRange(s) ==> InRange(r)
    ensures r.rssiEwmaQ8 == s.rssiEwmaQ8 && r.consecutiveTxFailures == s.consecutiveTxFailures
  {
    var ok := if success && s.txOk < 0xFFFF then s.txOk + 1 else s.txOk;
    var fail := if !success && s.txFail < 0xFFFF then s.txFail + 1 else s.txFail;
    var halve := ok + fail > TX_WINDOW;
    var ok' := if halve then ok / 2 else ok;
    var fail' := if halve then fail / 2 else fail;
    var sample := EtxSample(ok', fail');
    s.(txOk := ok', txFail := fail', etxQ8 := if s.etxQ8 == 0 then sample else (s.etxQ8 * 7 + sample + 4) / 8)
  }

  function CountFailures(s: LinkStats, success: bool): Octet {
    if success then 0 else if s.consecutiveTxFailures < 255 then s.consecutiveTxFailures + 1 else 255
  }

  function UsedRssi(rssi: I8): I8 { if rssi == 0 then UNKNOWN_RSSI else rssi }

  /** One frame heard; a reading of zero stands for unknown. The average stays within 16 bits. */
  function UpdateRssi(s: LinkStats, rssi: I8): (r: LinkStats)
    ensures InRange(s) ==> InRange(r)
  {
    var sample: I16 := UsedRssi(rssi) * 256;
    s.(rssiEwmaQ8 := if s.rssiEwmaQ8 == 0 then sample else TruncDiv(s.rssiEwmaQ8 * 7 + sample + 4, 8))
  }

  /** Smoothing: one result counts once, and the ETX moves towards the sample of the counters, an eighth of the way. */
  lemma EtxSmooths(s: LinkStats, success: bool)
    requires InRange(s)
    ensures var r := UpdateTxEtx(s, success);
      var x := EtxSample(r.txOk, r.txFail);
      && (s.txOk + s.txFail < TX_WINDOW ==>
            r.txOk == s.txOk + (if success then 1 else 0) && r.txFail == s.txFail + (if success then 0 else 1))
      && (s.txOk + s.txFail == TX_WINDOW ==>
            r.txOk == (s.txOk + if success then 1 else 0) / 2 && r.txFail == (s.txFail + if success then 0 else 1) / 2)
      && (s.etxQ8 <= x ==> s.etxQ8 <= r.etxQ8 <= x) && (x <= s.etxQ8 ==> x <= r.etxQ8 <= s.etxQ8)
      && -4 <= 8 * (r.etxQ8 - s.etxQ8) - (x - s.etxQ8) <= 4
  {
    hide EtxSample;
  }

  /** Full counters stay full before they are halved, and an ETX of zero takes the sample as it is. */
  lemma EtxEdges(s: LinkStats, success: bool)
    ensures var r := UpdateTxEtx(s, success);
      && (s.txOk == 65535 && success ==> r.txOk == 32767 && r.txFail == s.txFail / 2)
      && (s.txFail == 65535 && !success ==> r.txFail == 32767 && r.txOk == s.txOk / 2)
      && (s.etxQ8 == 0 ==> r.etxQ8 == EtxSample(r.txOk, r.txFail))
  {
  }

  /** The sample of the counters is 256 transmissions per success, rounded down and kept within 1 and 8 units; without a
      success, one counts. */
  lemma SampleIs(ok: nat, fail: nat)
    ensures var k, x := if ok == 0 then 1 else ok, EtxSample(ok, fail);
      && 256 <= x <= 2048
      && (x < 2048 ==> x * k <= 256 * (k + fail) < (x + 1) * k)
      && (x == 2048 ==> 256 * (k + fail) >= 2048 * k)
  {
    var k := if ok == 0 then 1 else ok;
    Quotient(256 * (k + fail), k);
    assert (k + fail) * 256 >= 256 * k;
  }

  /** The first reading is taken as it is; after that the average stays between itself and the reading, but for the
      rounding towards zero, which may add one, and moves an eighth of the way. A reading of zero stands for -85. */
  lemma RssiSmooths(s: LinkStats, rssi: I8)
    ensures var r, x := UpdateRssi(s, rssi).rssiEwmaQ8, 256 * UsedRssi(rssi);
      && (s.rssiEwmaQ8 == 0 ==> r == x)
      && (s.rssiEwmaQ8 != 0 && s.rssiEwmaQ8 <= x ==> s.rssiEwmaQ8 <= r <= x + 1)
      && (s.rssiEwmaQ8 != 0 && x <= s.rssiEwmaQ8 ==> x <= r <= s.rssiEwmaQ8 + 1)
      && (s.rssiEwmaQ8 != 0 && 7 * s.rssiEwmaQ8 + x >= -4 ==> -4 < 8 * (r - s.rssiEwmaQ8) - (x - s.rssiEwmaQ8) <= 4)
      && (s.rssiEwmaQ8 != 0 && 7 * s.rssiEwmaQ8 + x <= -4 ==> 4 <= 8 * (r - s.rssiEwmaQ8) - (x - s.rssiEwmaQ8) < 12)
      && (rssi != 0 ==> x == 256 * rssi) && (rssi == 0 ==> x == 256 * -85)
      && UpdateRssi(s, rssi) == s.(rssiEwmaQ8 := r)
  {
  }

  function RssiTerm(s: LinkStats, rssi: I8): nat {
    var used := if s.rssiEwmaQ8 != 0 then TruncDiv(s.rssiEwmaQ8, 256) else rssi;
    (if -used > 0 then -used else 0) * METRIC_WEIGHT_RSSI / 2
  }

  /** The saturating route metric. */
  function RouteMetric(s: LinkStats, hops: Octet, rssi: I8): U16 {
    var total := hops * METRIC_WEIGHT_HOP * 8 + s.etxQ8 * METRIC_WEIGHT_ETX / 16 + RssiTerm(s, rssi);
    if total > METRIC_MAX then METRIC_MAX else total
  }

  /** Below saturation a hop counts 256, an expected transmission 2048, and a decibel below zero 4. */
  lemma MetricIs(s: LinkStats, hops: Octet, rssi: I8)
    ensures var level := if s.rssiEwmaQ8 == 0 then rssi else TruncDiv(s.rssiEwmaQ8, 256);
      var total := 256 * hops + 8 * s.etxQ8 + if level < 0 then -4 * level else 0;
      RouteMetric(s, hops, rssi) == if total <= 65535 then total else 65535
  {
    assert s.etxQ8 * METRIC_WEIGHT_ETX / 16 == 8 * s.etxQ8;
  }

  /** More hops or more expected transmissions never improve the metric; below saturation each hop costs 256. */
  lemma MetricMonotone(s: LinkStats, s': LinkStats, hops: Octet, hops': Octet, rssi: I8)
    requires hops <= hops' && s.etxQ8 <= s'.etxQ8 && s.rssiEwmaQ8 == s'.rssiEwmaQ8
    ensures RouteMetric(s, hops, rssi) <= RouteMetric(s', hops', rssi)
    ensures RouteMetric(s', hops', rssi) < METRIC_MAX ==>
              RouteMetric(s, hops, rssi) + 256 * (hops' - hops) <= RouteMetric(s', hops', rssi)
  {
    assert s.etxQ8 * METRIC_WEIGHT_ETX / 16 == 8 * s.etxQ8 && s'.etxQ8 * METRIC_WEIGHT_ETX / 16 == 8 * s'.etxQ8;
    assert RssiTerm(s, rssi) == RssiTerm(s', rssi);
    hide RssiTerm;
  }

  datatype LinkEvent = TxResult(success: bool) | Heard(rssi: I8)

  function AfterEvent(s: LinkStats, e: LinkEvent): LinkStats {
    match e
    case TxResult(success) => UpdateTxEtx(s, success).(consecutiveTxFailures := CountFailures(s, success))
    case Heard(rssi) => UpdateRssi(s, rssi)
  }

  function AfterAll(s: LinkStats, es: seq<LinkEvent>): LinkStats {
    if es == [] then s else AfterEvent(AfterAll(s, es[..|es| - 1]), es[|es| - 1])
  }

  /** The failures since the last success. */
  function FailuresInARow(es: seq<LinkEvent>): nat {
    if es == [] then 0
    else
      var n := FailuresInARow(es[..|es| - 1]);
      match es[|es| - 1]
      case TxResult(success) => if success then 0 else n + 1
      case Heard(_) => n
  }

  /** Over every history they are what is counted, up to 255. */
  lemma {:induction false} CountsFailuresInARow(es: seq<LinkEvent>)
    ensures AfterAll(NEW_LINK, es).consecutiveTxFailures
            == if FailuresInARow(es) <= 255 then FailuresInARow(es) else 255
  {
    hide UpdateTxEtx, UpdateRssi;
    if es != [] {
      CountsFailuresInARow(es[..|es| - 1]);
      if es[|es| - 1].Heard? {
        RssiSmooths(AfterAll(NEW_LINK, es[..|es| - 1]), es[|es| - 1].rssi);
      }
    }
  }

  /** Over every history of results and frames the statistics stay in range. */
  lemma {:induction false} StatsStayInRange(es: seq<LinkEvent>)
    ensures InRange(AfterAll(NEW_LINK, es))
  {
    hide UpdateTxEtx, UpdateRssi, CountFailures;
    if es != [] {
      StatsStayInRange(es[..|es| - 1]);
    }
  }
}
