/** The two values set_swparams (src/core.c:113-158) computes before handing
    them to ALSA: the start threshold and avail_min. */
module SwParams {

  /** period_event: 0 in the program, so no poll event per period. */
  const PERIOD_EVENT: bool := false

  /** C's `/` on signed integers: the quotient truncated toward zero. */
  function CDiv(a: int, b: int): (q: int)
    requires b > 0
    ensures a >= 0 ==> q == a / b
  {
    if a >= 0 then a / b else -((-a) / b)
  }

  /** `(buffer_size / period_size) * period_size`: the start threshold. */
  function StartThreshold(bufferSize: int, periodSize: int): (t: int)
    requires periodSize > 0
  {
    CDiv(bufferSize, periodSize) * periodSize
  }

  /** `period_event ? buffer_size : period_size`: avail_min. */
  function AvailMin(periodEvent: bool, bufferSize: int, periodSize: int): (m: int) {
    if periodEvent then bufferSize else periodSize
  }

  /** The start threshold is a whole number of periods, at most the buffer,
      and more than the buffer less one period: playback starts once the
      buffer holds as many whole periods as fit in it. */
  lemma StartThresholdBounds(bufferSize: int, periodSize: int)
    requires periodSize > 0 && bufferSize >= 0
    ensures StartThreshold(bufferSize, periodSize) % periodSize == 0
    ensures 0 <= StartThreshold(bufferSize, periodSize) <= bufferSize
    ensures bufferSize - periodSize < StartThreshold(bufferSize, periodSize)
  {
    var q := bufferSize / periodSize;
    var r := bufferSize % periodSize;
    assert bufferSize == q * periodSize + r && 0 <= r < periodSize;
    assert q >= 0;
    MultipleMod(q, periodSize);
  }

  lemma MultipleMod(q: int, p: int)
    requires p > 0
    ensures (q * p) % p == 0
  {
    var d := (q * p) / p;
    var m := (q * p) % p;
    assert q * p == d * p + m && 0 <= m < p;
    assert (q - d) * p == m;
    ScaleBounds(q - d, p);
  }

  /** A multiple of p other than 0 is at least p away from 0. */
  lemma ScaleBounds(x: int, p: int)
    requires p > 0
    ensures x >= 1 ==> x * p >= p
    ensures x <= -1 ==> x * p <= -p
  {
    if x >= 1 {
      assert x * p == (x - 1) * p + p;
      assert (x - 1) * p >= 0;
    } else if x <= -1 {
      assert x * p == (x + 1) * p - p;
      assert (x + 1) * p <= 0;
    }
  }

  /** The start threshold is the largest whole number of periods that fits
      in the buffer. */
  lemma StartThresholdLargest(bufferSize: int, periodSize: int, k: int)
    requires periodSize > 0 && bufferSize >= 0 && k * periodSize <= bufferSize
    ensures k * periodSize <= StartThreshold(bufferSize, periodSize)
  {
    StartThresholdBounds(bufferSize, periodSize);
    var q := bufferSize / periodSize;
    assert bufferSize < (q + 1) * periodSize;
    ScaleBounds(k - q, periodSize);
    assert k * periodSize - q * periodSize == (k - q) * periodSize;
  }

  /** With period events off, as in the program, avail_min is one period,
      and a buffer holding at least one period starts playback no earlier
      than avail_min frames are queued. */
  lemma AvailMinIsPeriod(bufferSize: int, periodSize: int)
    requires periodSize > 0 && bufferSize >= periodSize
    ensures AvailMin(PERIOD_EVENT, bufferSize, periodSize) == periodSize
    ensures AvailMin(PERIOD_EVENT, bufferSize, periodSize) <= StartThreshold(bufferSize, periodSize)
  {
    StartThresholdLargest(bufferSize, periodSize, 1);
  }
}
