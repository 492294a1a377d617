/** Event de-duplication by a 7-bit counter, in client/routing.c. */
module Events {
  const MODULUS := 128
  /** Value of the counter before the first event. */
  const UNKNOWN := 0xff

  class Tracker {
    var counter: nat

    constructor ()
      ensures counter == UNKNOWN
    {
      counter := UNKNOWN;
    }

    /** An event packet with counter `pec`: is it new? */
    method Handle(pec: nat) returns (isNew: bool)
      requires pec < MODULUS && (counter < MODULUS || counter == UNKNOWN)
      modifies this
      ensures isNew == Accepts(old(counter), pec)
      ensures counter == if isNew then pec else old(counter)
    {
      var ec: int := counter;
      if ec == UNKNOWN {
        ec := pec - 1;
      }
      ec := ec + 1;
      var ahead := (pec - ec) % MODULUS;
      var behind := (ec - pec) % MODULUS;
      if ahead > 0 && (behind < 60 || ahead < 5) {
        isNew := false;
      } else {
        counter := pec;
        isNew := true;
      }
    }
  }

  /** New: the expected event, or one that is 5 to 68 ahead of it. */
  predicate Accepts(counter: nat, pec: nat) {
    counter == UNKNOWN ||
    var d := (pec - counter - 1) % MODULUS;
    d == 0 || 5 <= d <= 68
  }

  /** The numbers accepted among the first `k` arrivals, where `ns` are true, unbounded event numbers. */
  function Accepted(ns: seq<nat>, k: nat): seq<nat>
    requires k <= |ns|
  {
    if k == 0 then []
    else if Accepts(Counter(ns, k - 1), ns[k - 1] % MODULUS) then Accepted(ns, k - 1) + [ns[k - 1]]
    else Accepted(ns, k - 1)
  }

  /** The tracker's counter after the first `k` arrivals. */
  function Counter(ns: seq<nat>, k: nat): (c: nat)
    requires k <= |ns|
    ensures c < MODULUS || c == UNKNOWN
  {
    if k == 0 then UNKNOWN
    else if Accepts(Counter(ns, k - 1), ns[k - 1] % MODULUS) then ns[k - 1] % MODULUS
    else Counter(ns, k - 1)
  }

  lemma {:induction false} CounterIsLast(ns: seq<nat>, k: nat)
    requires k <= |ns|
    ensures var a := Accepted(ns, k); Counter(ns, k) == if a == [] then UNKNOWN else a[|a| - 1] % MODULUS
  {
    if k > 0 {
      CounterIsLast(ns, k - 1);
    }
  }

  /** Distance of arrival `k` from the event expected then; the first arrival is always expected. */
  function Ahead(ns: seq<nat>, k: nat): int
    requires k < |ns|
  {
    var a := Accepted(ns, k);
    if a == [] then 0 else ns[k] as int - a[|a| - 1] - 1
  }

  lemma DistanceIsModular(n: nat, last: nat)
    ensures (n % MODULUS - last % MODULUS - 1) % MODULUS == (n - last - 1) % MODULUS
  {
    var q, p := n / MODULUS, last / MODULUS;
    assert n == MODULUS * q + n % MODULUS && last == MODULUS * p + last % MODULUS;
    var x := n % MODULUS - last % MODULUS - 1;
    assert n - last - 1 == x + MODULUS * (q - p);
    Shift(x, q - p);
  }

  lemma Shift(x: int, q: int)
    ensures (x + MODULUS * q) % MODULUS == x % MODULUS
  {
    var y := x + MODULUS * q;
    assert y == MODULUS * (y / MODULUS) + y % MODULUS && x == MODULUS * (x / MODULUS) + x % MODULUS;
    var z := y / MODULUS - q - x / MODULUS;
    assert MODULUS * z == x % MODULUS - y % MODULUS;
  }

  /** Exactly which arrivals are accepted, by their true distance from the expected one. */
  lemma AcceptedIff(ns: seq<nat>, k: nat)
    requires k < |ns|
    ensures |Accepted(ns, k + 1)| > |Accepted(ns, k)|
       <==> Ahead(ns, k) % MODULUS == 0 || 5 <= Ahead(ns, k) % MODULUS <= 68
  {
    CounterIsLast(ns, k);
    var a := Accepted(ns, k);
    if a != [] {
      DistanceIsModular(ns[k], a[|a| - 1]);
    }
  }

  ghost predicate Increasing(a: seq<nat>) {
    forall i, j :: 0 <= i < j < |a| ==> a[i] < a[j]
  }

  /** No arrival is more than 59 events behind the expected one. */
  ghost predicate InWindow(ns: seq<nat>) {
    forall k :: 0 <= k < |ns| ==> Ahead(ns, k) >= -59
  }

  lemma NotBehind(d: int)
    requires d >= -59 && (d % MODULUS == 0 || 5 <= d % MODULUS <= 68)
    ensures d >= 0
  {
  }

  /**
   * The true numbers accepted are strictly increasing, so that each event is accepted at most once
   * and in order, as long as arrivals are at most 59 behind. They may be ahead by any distance.
   */
  lemma {:induction false} AcceptedIncreases(ns: seq<nat>, k: nat)
    requires InWindow(ns) && k <= |ns|
    ensures Increasing(Accepted(ns, k))
  {
    if k > 0 {
      AcceptedIncreases(ns, k - 1);
      AcceptedIff(ns, k - 1);
      var a := Accepted(ns, k - 1);
      if a != [] && |Accepted(ns, k)| > |a| {
        NotBehind(Ahead(ns, k - 1));
      }
    }
  }

  /** An arrival breaks the order exactly when it is behind by a distance the counter cannot tell. */
  lemma StaleAcceptedIff(ns: seq<nat>, k: nat)
    requires k < |ns| && Increasing(Accepted(ns, k))
    ensures !Increasing(Accepted(ns, k + 1))
       <==> Ahead(ns, k) < 0 && (Ahead(ns, k) % MODULUS == 0 || 5 <= Ahead(ns, k) % MODULUS <= 68)
    ensures !Increasing(Accepted(ns, k + 1)) ==> Ahead(ns, k) <= -60
  {
    AcceptedIff(ns, k);
    var a, b := Accepted(ns, k), Accepted(ns, k + 1);
    if |b| > |a| && a != [] {
      assert b[|a| - 1] == a[|a| - 1] && b[|a|] == ns[k];
    }
  }

  /** The window is tight: 60 behind is too far. */
  lemma SixtyBehind()
    ensures var ns := [60, 1]; Ahead(ns, 1) == -60 && Accepted(ns, 2) == [60, 1]
  {
    var ns := [60, 1];
    assert Accepted(ns, 0) == [];
    assert Accepted(ns, 1) == [60] && Counter(ns, 1) == 60;
  }

  /** When all arrivals are at most 68 ahead, an accepted event follows the last one or skips at least 5. */
  lemma {:induction false} NoShortGaps(ns: seq<nat>, k: nat, i: nat)
    requires InWindow(ns) && k <= |ns| && i + 1 < |Accepted(ns, k)|
    requires forall j :: 0 <= j < |ns| ==> Ahead(ns, j) <= 68
    ensures var a := Accepted(ns, k); a[i + 1] == a[i] + 1 || a[i] + 6 <= a[i + 1] <= a[i] + 69
  {
    var before := Accepted(ns, k - 1);
    if i + 1 < |before| {
      NoShortGaps(ns, k - 1, i);
    } else {
      AcceptedIff(ns, k - 1);
      assert Accepted(ns, k) == before + [ns[k - 1]] && before[|before| - 1] == before[i];
      GapOf(Ahead(ns, k - 1));
    }
  }

  lemma GapOf(ahead: int)
    requires -59 <= ahead <= 68 && (ahead % MODULUS == 0 || 5 <= ahead % MODULUS <= 68)
    ensures ahead == 0 || 5 <= ahead
  {
  }

  lemma NextIsAccepted(ns: seq<nat>, k: nat)
    requires k < |ns| && Ahead(ns, k) == 0
    ensures Accepted(ns, k + 1) == Accepted(ns, k) + [ns[k]]
  {
    AcceptedIff(ns, k);
  }

  /** Events that arrive without loss or repetition are all accepted. */
  lemma {:induction false} AllInOrder(ns: seq<nat>, k: nat)
    requires k <= |ns| && forall i :: 0 < i < |ns| ==> ns[i] == ns[i - 1] + 1
    ensures Accepted(ns, k) == ns[..k]
  {
    if k > 0 {
      AllInOrder(ns, k - 1);
      var a := Accepted(ns, k - 1);
      assert k > 1 ==> a[|a| - 1] == ns[k - 2];
      NextIsAccepted(ns, k - 1);
      assert ns[..k] == ns[..k - 1] + [ns[k - 1]];
    }
  }
}
