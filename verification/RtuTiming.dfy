/** The timer values of eMBRTUInit, eMBMasterRTUInit and the two porttimer files, in ticks of the kernel. */
module RtuTiming {

  const RT_TICK_PER_SECOND := 10000
  const MB_MASTER_TIMEOUT_MS_RESPOND := 100
  const MB_MASTER_DELAY_MS_CONVERT := 200

  type Period = n: nat | n >= 1 witness 1

  /** usTimerT35_50us, cut to 16 bits where it is passed on. */
  function T35Units(baud: nat): nat
    requires baud > 0
  {
    if baud > 19200 then 35 else (7 * 220000) / (2 * baud) % 0x1_0000
  }

  /** xMBPortTimersInit */
  function SlaveTicks(baud: nat): nat
    requires baud > 0
  {
    50 * T35Units(baud) / (1000000 / RT_TICK_PER_SECOND) + 1
  }

  /** vMBMasterPortTimersT35Enable */
  function MasterTicks(baud: nat): nat
    requires baud > 0
  {
    50 * T35Units(baud) / (1000000 / RT_TICK_PER_SECOND)
  }

  const RESPOND_TICKS: Period := MB_MASTER_TIMEOUT_MS_RESPOND * RT_TICK_PER_SECOND / 1000
  const CONVERT_TICKS: Period := MB_MASTER_DELAY_MS_CONVERT * RT_TICK_PER_SECOND / 1000

  /** At baud rates up to 19200 the slave waits longer than three and a half characters of 11 bits, and the master
      does so never: it rounds down. */
  lemma SilenceRounding(baud: nat)
    requires 12 <= baud <= 19200
    ensures 2 * SlaveTicks(baud) * baud > 77 * RT_TICK_PER_SECOND
    ensures 2 * MasterTicks(baud) * baud <= 77 * RT_TICK_PER_SECOND && MasterTicks(baud) >= 1
  {
    var u := 1540000 / (2 * baud);
    Quotient(1540000, 2 * baud, u);
    UnitsCutIff(baud);
    var t := 50 * u / 100;
    assert u <= 2 * t + 1 && 2 * t <= u;
    Scaled(u, 2 * t + 1, 2 * baud);
    Scaled(2 * t, u, 2 * baud);
    assert u >= 40 by { if u < 40 { Scaled(u + 1, 40, 2 * baud); } }
  }

  /** Below 12 baud the cut to 16 bits takes something away. */
  lemma UnitsCutIff(baud: nat)
    requires 0 < baud <= 19200
    ensures T35Units(baud) == (7 * 220000) / (2 * baud) <==> baud >= 12
  {
    var u := 1540000 / (2 * baud);
    Quotient(1540000, 2 * baud, u);
    if baud >= 12 && u >= 0x1_0000 { Scaled(0x1_0000, u, 2 * baud); }
    if baud < 12 && u < 0x1_0000 { Scaled(u + 1, 0x1_0000, 2 * baud); }
  }

  lemma Quotient(a: nat, b: nat, q: nat)
    requires b > 0 && q == a / b
    ensures q * b <= a < (q + 1) * b
  {
  }

  lemma Scaled(a: nat, b: nat, c: nat)
    requires a <= b
    ensures a * c <= b * c
  {
  }

  /** Above 19200 the master waits 1.7 ms and the slave 1.8 ms, where 1.75 ms are due. */
  lemma FixedSilence(baud: nat)
    requires baud > 19200
    ensures MasterTicks(baud) == 17 && SlaveTicks(baud) == 18
    ensures 1000000 * MasterTicks(baud) < 1750 * RT_TICK_PER_SECOND < 1000000 * SlaveTicks(baud)
  {
  }
}
