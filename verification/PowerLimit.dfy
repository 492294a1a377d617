/** The power limiter of LED strips and rings, in services/led_internal.h. */
module PowerLimit {
  import opened Bytes

  /** Microamps for one step of one channel, for the chip, and for a pixel that is dark. */
  const STEP := 46
  const CHIP := 14000
  const DARK := 930

  /** A channel value dimmed to intensity `i`. */
  function Scale(v: byte, i: byte): (r: nat)
    ensures r <= v && 256 * r <= v * (1 + i)
  {
    Product(v, i);
    v * (1 + i) / 256
  }

  lemma Product(v: byte, i: byte)
    ensures 0 <= v * (1 + i) <= v * 256
  {
    assert v * 256 - v * (1 + i) == v * (255 - i);
    NotNegative(v, 255 - i);
    NotNegative(v, 1 + i);
  }

  lemma NotNegative(x: nat, y: nat)
    ensures x * y >= 0
  {
  }

  /** Sum of the first `n` channels at intensity `i`. */
  function Dimmed(d: seq<byte>, i: byte, n: nat): nat
    requires n <= |d|
  {
    if n == 0 then 0 else Dimmed(d, i, n - 1) + Scale(d[n - 1], i)
  }

  function Full(d: seq<byte>, n: nat): nat
    requires n <= |d|
  {
    if n == 0 then 0 else Full(d, n - 1) + d[n - 1]
  }

  /** The current estimated for the pixels at intensity `i`. */
  function Current(d: seq<byte>, i: byte): nat {
    STEP * Dimmed(d, i, |d|)
  }

  /** What is left for the pixels' light; negative if the strip alone draws too much. */
  function Limit(maxpower: nat, numpixels: nat): int {
    maxpower * 1000 - (CHIP + DARK * numpixels)
  }

  /** The intensity asked for next: a little more, up to the one requested. */
  function Raised(intensity: byte, requested: byte): byte {
    var i := intensity as int + 1 + intensity / 32;
    if i > requested then requested else i
  }

  /** C's division: the quotient is cut off toward zero. */
  function CDiv(a: int, b: nat): int
    requires b > 0
  {
    if a >= 0 then a / b else -(-a / b)
  }

  /** The program ends by a division by zero, or stores an intensity. */
  datatype Outcome = Fault | Stored(intensity: byte)

  /** The intensity computed from the limit when both the old and the raised one draw too much. */
  function Fallback(limit: int, unit: nat): int
    requires unit > 0
  {
    var i := CDiv(limit, unit) - 1;
    if i < 0 then 0 else i
  }

  class State {
    const numpixels: nat
    const maxpower: nat
    var pixels: array<byte>
    var intensity: byte
    var requested: byte

    constructor (pixels: array<byte>, maxpower: nat)
      requires pixels.Length % 3 == 0
      ensures this.pixels == pixels && this.maxpower == maxpower && numpixels * 3 == pixels.Length
    {
      this.pixels, this.maxpower, intensity, requested := pixels, maxpower, 0, 0;
      numpixels := pixels.Length / 3;
    }

    /** Sets the intensity for the next refresh. */
    method LimitIntensity() returns (outcome: Outcome)
      requires numpixels * 3 <= pixels.Length
      modifies this`intensity
      ensures outcome == Limited(pixels[..numpixels * 3], old(intensity), requested, Limit(maxpower, numpixels))
      ensures intensity == if outcome == Fault then old(intensity) else outcome.intensity
    {
      var n := numpixels * 3;
      var raised: int := intensity as int + 1 + intensity / 32;
      if raised > requested {
        raised := requested;
      }
      var i: byte := raised;
      var current, currentPrev, currentFull := 0, 0, 0;
      ghost var d := pixels[..n];
      for k := 0 to n
        invariant current == Dimmed(d, i, k) && currentPrev == Dimmed(d, intensity, k) && currentFull == Full(d, k)
      {
        var v := pixels[k];
        assert v == d[k];
        current := current + Scale(v, i);
        currentPrev := currentPrev + Scale(v, intensity);
        currentFull := currentFull + v;
      }
      current, currentPrev, currentFull := current * STEP, currentPrev * STEP, currentFull * STEP;
      var limit := maxpower * 1000 - (CHIP + DARK * numpixels);
      if current <= limit {
        intensity := i;
        return Stored(i);
      }
      if currentPrev <= limit {
        return Stored(intensity);
      }
      if currentFull / 256 == 0 {
        return Fault;
      }
      var inten := CDiv(limit, currentFull / 256) - 1;
      if inten < 0 {
        inten := 0;
      }
      intensity := inten % 256;
      outcome := Stored(intensity);
    }
  }

  function Limited(d: seq<byte>, intensity: byte, requested: byte, limit: int): Outcome {
    var raised := Raised(intensity, requested);
    var unit := STEP * Full(d, |d|) / 256;
    if Current(d, raised) <= limit then Stored(raised)
    else if Current(d, intensity) <= limit then Stored(intensity)
    else if unit == 0 then Fault
    else Stored(Fallback(limit, unit) % 256)
  }

  // ---------------------------------------------------------------- what is stored is within the limit

  lemma {:induction false} DimmedBound(d: seq<byte>, i: byte, n: nat)
    requires n <= |d|
    ensures 256 * Dimmed(d, i, n) <= (1 + i) * Full(d, n) <= 256 * Full(d, n)
  {
    if n == 0 {
      assert (1 + i) * Full(d, 0) == 0;
    } else {
      DimmedBound(d, i, n - 1);
      Product(d[n - 1], i);
      Distribute(1 + i, Full(d, n - 1), d[n - 1]);
    }
  }

  lemma Distribute(a: int, x: int, y: int)
    ensures a * (x + y) == a * x + y * a
  {
  }

  lemma {:induction false} DimmedByOne(d: seq<byte>, n: nat)
    requires n <= |d|
    ensures Dimmed(d, 0, n) == 0
  {
    if n > 0 {
      DimmedByOne(d, n - 1);
    }
  }

  lemma Monotone(a: int, b: int, c: nat)
    requires a <= b
    ensures a * c <= b * c
  {
    NotNegative(b - a, c);
    assert b * c - a * c == (b - a) * c;
  }

  /** In terms of the sum of all channels and the intensity plus one. */
  lemma CurrentBound(d: seq<byte>, i: byte)
    ensures 256 * Current(d, i) <= (1 + i) * (STEP * Full(d, |d|)) <= 256 * (STEP * Full(d, |d|))
  {
    DimmedBound(d, i, |d|);
    var f := Full(d, |d|);
    assert (1 + i) * (STEP * f) == STEP * ((1 + i) * f);
  }

  /** `full` and the unit `u` that is its 256th part. */
  lemma UnitBound(full: nat, u: nat, q: nat)
    requires u == full / 256 && q <= 256
    ensures q * full <= 256 * (q * u) + 255 * q
  {
    Monotone(full, 256 * u + 255, q);
    assert (256 * u + 255) * q == 256 * (q * u) + 255 * q;
  }

  lemma Quotient(limit: nat, u: nat, q: nat)
    requires u > 0 && q == limit / u
    ensures q * u <= limit
  {
    assert limit == u * (limit / u) + limit % u;
  }

  /** An intensity one below a quotient that fits draws at most 255 microamps too much. */
  lemma FallbackBound(d: seq<byte>, limit: nat, i: byte, u: nat)
    requires u == STEP * Full(d, |d|) / 256 && u > 0 && i as int + 1 <= limit / u
    ensures Current(d, i) <= limit + 255
  {
    var q, q' := i as int + 1, limit / u;
    CurrentBound(d, i);
    UnitBound(STEP * Full(d, |d|), u, q);
    Quotient(limit, u, q');
    Monotone(q, q', u);
  }

  /**
   * Whatever intensity is stored, the current estimated for it is at most 255 microamps over the
   * limit; and if even a dark strip draws too much, it adds nothing.
   */
  lemma WithinLimit(d: seq<byte>, intensity: byte, requested: byte, limit: int)
    requires Limited(d, intensity, requested, limit).Stored?
    ensures var c := Current(d, Limited(d, intensity, requested, limit).intensity);
      if limit < 0 then c == 0 else c <= limit + 255
  {
    var unit := STEP * Full(d, |d|) / 256;
    var out := Limited(d, intensity, requested, limit).intensity;
    if Current(d, Raised(intensity, requested)) > limit && Current(d, intensity) > limit {
      var inten := Fallback(limit, unit);
      if inten == 0 {
        DimmedByOne(d, |d|);
      } else {
        NegativeQuotient(limit, unit);
        FallbackBound(d, limit, out, unit);
      }
    }
  }

  lemma NegativeQuotient(limit: int, unit: nat)
    requires unit > 0 && Fallback(limit, unit) > 0
    ensures limit >= 0 && Fallback(limit, unit) + 1 == limit / unit
  {
  }

  /** Exactly when the division is by zero: both intensities draw too much and the pixels are nearly dark. */
  lemma FaultIff(d: seq<byte>, intensity: byte, requested: byte, limit: int)
    ensures Limited(d, intensity, requested, limit) == Fault
       <==> limit < Current(d, intensity) && limit < Current(d, Raised(intensity, requested))
            && Full(d, |d|) <= 5
  {
    assert STEP * 5 < 256 <= STEP * 6;
  }

  /** It does happen: a dark strip whose budget does not even cover itself. */
  lemma DarkStripFaults(d: seq<byte>, intensity: byte, requested: byte, limit: int)
    requires limit < 0 && forall k :: 0 <= k < |d| ==> d[k] == 0
    ensures Limited(d, intensity, requested, limit) == Fault
  {
    NothingLit(d, |d|);
  }

  lemma {:induction false} NothingLit(d: seq<byte>, n: nat)
    requires n <= |d| && forall k :: 0 <= k < n ==> d[k] == 0
    ensures Full(d, n) == 0
  {
    if n > 0 {
      NothingLit(d, n - 1);
    }
  }

  lemma QuotientFits(full: nat, u: nat, p: nat, limit: nat, q: nat)
    requires u == full / 256 && u >= 256 && p <= 256 && q * u <= limit && 256 * limit < p * full
    ensures q <= p
  {
    UnitBound(full, u, p);
    if q > p {
      assert (p + 1) * u == p * u + u;
      Monotone(p + 1, q, u);
    }
  }

  /**
   * With enough light in the pixels the computed intensity needs no cutting to a byte, and a strip
   * that draws too much is never made brighter.
   */
  lemma FallbackFits(d: seq<byte>, i: byte, limit: int)
    requires STEP * Full(d, |d|) >= 65536 && limit < Current(d, i)
    ensures Fallback(limit, STEP * Full(d, |d|) / 256) <= i
  {
    CurrentBound(d, i);
    FitsCore(STEP * Full(d, |d|), Current(d, i), i, limit);
  }

  lemma FitsCore(full: nat, current: nat, i: byte, limit: int)
    requires full >= 65536 && limit < current && 256 * current <= (1 + i) * full
    ensures Fallback(limit, full / 256) <= i
  {
    var u := full / 256;
    FallbackIs(limit, u);
    if limit >= u {
      var q := limit / u;
      Quotient(limit, u, q);
      QuotientFits(full, u, i as int + 1, limit, q);
    }
  }

  lemma FallbackIs(limit: int, u: nat)
    requires u > 0
    ensures Fallback(limit, u) == if limit < u then 0 else limit / u - 1
  {
    if limit >= 0 {
      var q := limit / u;
      assert limit == u * q + limit % u;
      if limit < u && q >= 1 {
        Monotone(1, q, u);
      }
      if limit >= u && q < 1 {
        Monotone(q, 0, u);
      }
    }
  }

  /** Exactly when the computed intensity fits a byte. */
  lemma FallbackFitsIff(limit: int, unit: nat)
    requires unit > 0
    ensures Fallback(limit, unit) <= 255 <==> limit < 257 * unit
  {
    FallbackIs(limit, unit);
    if limit >= unit {
      var q := limit / unit;
      assert limit == unit * q + limit % unit;
      if q <= 256 {
        Monotone(q, 256, unit);
      } else {
        Monotone(257, q, unit);
      }
    }
  }

  /**
   * With less light it may not fit, and the strip is then dimmed more than the limit asks for: one
   * faintly lit pixel of four, with 18 mA to spend.
   */
  lemma FallbackCut()
    ensures Limit(18, 4) == 280
    ensures var d := [8] + Zeros(11);
      && Limited(d, 255, 255, Limit(18, 4)) == Stored(23)
      && Fallback(Limit(18, 4), STEP * Full(d, |d|) / 256) == 279
      && Current(d, 222) <= Limit(18, 4)
  {
    var d := [8] + Zeros(11);
    FaintSum(d, 1);
    FaintSum(d, 12);
  }

  lemma {:induction false} FaintSum(d: seq<byte>, n: nat)
    requires 1 <= n <= |d| && d[0] == 8 && forall k :: 1 <= k < |d| ==> d[k] == 0
    ensures Full(d, n) == 8 && Dimmed(d, 255, n) == 8 && Dimmed(d, 222, n) == 6
  {
    assert Full(d, 0) == 0 && Dimmed(d, 255, 0) == 0 && Dimmed(d, 222, 0) == 0;
    if n > 1 {
      FaintSum(d, n - 1);
    }
  }

  // ---------------------------------------------------------------- it gets as bright as was asked for

  lemma ScaleMono(v: byte, i: byte, j: byte)
    requires i <= j
    ensures Scale(v, i) <= Scale(v, j)
  {
    Monotone(1 + i, 1 + j, v);
    Commute(v, 1 + i);
    Commute(v, 1 + j);
  }

  lemma Commute(a: int, b: int)
    ensures a * b == b * a
  {
  }

  lemma {:induction false} DimmedMono(d: seq<byte>, i: byte, j: byte, n: nat)
    requires i <= j && n <= |d|
    ensures Dimmed(d, i, n) <= Dimmed(d, j, n)
  {
    if n > 0 {
      DimmedMono(d, i, j, n - 1);
      ScaleMono(d[n - 1], i, j);
    }
  }

  /** A strip that draws no more than its limit is never dimmed below what it has or was asked for. */
  lemma NotDimmed(d: seq<byte>, intensity: byte, requested: byte, limit: int)
    requires Current(d, intensity) <= limit
    ensures Limited(d, intensity, requested, limit).Stored?
    ensures var i := Limited(d, intensity, requested, limit).intensity;
      i == intensity || (intensity < i <= requested) || (requested == i <= intensity)
  {
  }

  /** One refresh goes up by 1 and a 32nd of the intensity, but not beyond the one asked for, while the limit allows it. */
  lemma Brightens(d: seq<byte>, intensity: byte, requested: byte, limit: int)
    requires Current(d, requested) <= limit
    ensures var more := intensity as int + 1 + intensity as int / 32;
      Limited(d, intensity, requested, limit) == Stored(if more < requested as int then more else requested)
  {
    DimmedMono(d, Raised(intensity, requested), requested, |d|);
  }

  /** The intensity after `n` refreshes of the same pixels, or none after a fault. */
  function AfterRefreshes(d: seq<byte>, intensity: byte, requested: byte, limit: int, n: nat): Outcome {
    if n == 0 then Stored(intensity)
    else
      match AfterRefreshes(d, intensity, requested, limit, n - 1)
      case Fault => Fault
      case Stored(i) => Limited(d, i, requested, limit)
  }

  /** When the limit allows the intensity asked for, that is reached, from wherever the strip starts, and kept. */
  lemma {:induction false} ReachesRequested(d: seq<byte>, intensity: byte, requested: byte, limit: int, n: nat)
    requires Current(d, requested) <= limit && n >= 1
    ensures var o := AfterRefreshes(d, intensity, requested, limit, n);
      && o.Stored? && o.intensity <= requested
      && (o.intensity == requested || o.intensity as int >= intensity as int + n)
    ensures n >= 255 ==> AfterRefreshes(d, intensity, requested, limit, n) == Stored(requested)
  {
    if n == 1 {
      assert AfterRefreshes(d, intensity, requested, limit, 0) == Stored(intensity);
      Brightens(d, intensity, requested, limit);
    } else {
      ReachesRequested(d, intensity, requested, limit, n - 1);
      Brightens(d, AfterRefreshes(d, intensity, requested, limit, n - 1).intensity, requested, limit);
    }
  }
}
