/**
  One pass of the interrupt poller: for each logical pin in ascending
  order, an armed pin (mode != 0) is sampled; a sample that differs from
  the last observed level replaces it, and the pin's callback fires when
  the new level matches its edge mode. A fired callback is recorded as the
  pin's index in the list of pins fired during the pass.
 */
module Poller {
  import opened Rock64Header
  import opened PinMap
  import opened PinControl

  /** The edge mode of every record. */
  function ModesOf(recs: seq<PinRecord>): seq<int>
  {
    seq(|recs|, i requires 0 <= i < |recs| => recs[i].mode)
  }

  /** What digitalRead returns for every pin, given whether each pin's value file opens. */
  function Samples(b: Board, opens: seq<bool>): seq<int>
    requires WellFormed(b) && |opens| == GpioPins
  {
    seq(GpioPins, i requires 0 <= i < GpioPins => ReadLevel(b, i, opens[i]))
  }

  /** The last observed level of one pin after the pass. */
  function NextLast(last: int, mode: int, sample: int): int
  {
    if mode == IntEdgeSetup || last == sample then last else sample
  }

  /** Whether the pass invokes one pin's callback. */
  predicate Fires(last: int, mode: int, sample: int)
  {
    && mode != IntEdgeSetup
    && last != sample
    && ((sample == 1 && (mode == IntEdgeBoth || mode == IntEdgeRising)) ||
        (sample == 0 && (mode == IntEdgeBoth || mode == IntEdgeFalling)))
  }

  predicate PassInputs(last: seq<int>, modes: seq<int>, samples: seq<int>)
  {
    |last| == |modes| == |samples|
  }

  /** The whole last-state array after the pass. */
  function PassLast(last: seq<int>, modes: seq<int>, samples: seq<int>): (r: seq<int>)
    requires PassInputs(last, modes, samples)
    ensures |r| == |last|
  {
    seq(|last|, i requires 0 <= i < |last| => NextLast(last[i], modes[i], samples[i]))
  }

  /** The pins fired while the pass has visited pins 0 .. n-1, in visiting order. */
  function FiredUpTo(last: seq<int>, modes: seq<int>, samples: seq<int>, n: nat): seq<int>
    requires PassInputs(last, modes, samples) && n <= |last|
  {
    if n == 0 then []
    else
      FiredUpTo(last, modes, samples, n - 1) +
      (if Fires(last[n - 1], modes[n - 1], samples[n - 1]) then [n - 1] else [])
  }

  predicate IsLevel(x: int)
  {
    x == 0 || x == 1
  }

  // ---------------------------------------------------------------------
  // Properties
  // ---------------------------------------------------------------------

  /**
    An idle pin keeps its last state; an armed pin's last state becomes the
    sample, so it changes exactly when the sample differs from it.
   */
  lemma NextLastRule(last: int, mode: int, sample: int)
    ensures mode == IntEdgeSetup ==> NextLast(last, mode, sample) == last
    ensures mode != IntEdgeSetup ==> NextLast(last, mode, sample) == sample
    ensures NextLast(last, mode, sample) != last <==> mode != IntEdgeSetup && sample != last
  {
  }

  /**
    The edge rule on levels 0 and 1: a callback fires only on a change,
    rising fires on 0 to 1, falling on 1 to 0, both on either, and any
    other mode never fires.
   */
  lemma EdgeRule(last: int, mode: int, sample: int)
    requires IsLevel(last) && IsLevel(sample)
    ensures Fires(last, mode, sample) ==> mode != IntEdgeSetup && last != sample
    ensures mode == IntEdgeRising ==> (Fires(last, mode, sample) <==> last == 0 && sample == 1)
    ensures mode == IntEdgeFalling ==> (Fires(last, mode, sample) <==> last == 1 && sample == 0)
    ensures mode == IntEdgeBoth ==> (Fires(last, mode, sample) <==> last != sample)
    ensures mode !in {IntEdgeFalling, IntEdgeRising, IntEdgeBoth} ==> !Fires(last, mode, sample)
  {
  }

  /**
    A pass keeps last states in {0, 1} when the samples are levels, so
    EdgeRule applies to every pass that starts from the initial zeros.
   */
  lemma PassKeepsLevels(last: seq<int>, modes: seq<int>, samples: seq<int>)
    requires PassInputs(last, modes, samples)
    requires forall i :: 0 <= i < |last| ==> IsLevel(last[i]) && IsLevel(samples[i])
    ensures forall i :: 0 <= i < |last| ==> IsLevel(PassLast(last, modes, samples)[i])
  {
  }

  /** Every sample is what digitalRead returns, a level. */
  lemma SamplesAreLevels(b: Board, opens: seq<bool>)
    requires WellFormed(b) && |opens| == GpioPins
    ensures |Samples(b, opens)| == GpioPins
    ensures forall i :: 0 <= i < GpioPins ==> IsLevel(Samples(b, opens)[i])
  {
  }

  /** A pin is in the fired list exactly when it was visited and its edge rule matched. */
  lemma {:induction false} FiredMembership(last: seq<int>, modes: seq<int>, samples: seq<int>, n: nat, i: int)
    requires PassInputs(last, modes, samples) && n <= |last|
    ensures i in FiredUpTo(last, modes, samples, n) <==> 0 <= i < n && Fires(last[i], modes[i], samples[i])
  {
    if n > 0 {
      FiredMembership(last, modes, samples, n - 1, i);
    }
  }

  /** Every element lies in [0, n). */
  predicate AllBelow(s: seq<int>, n: int)
  {
    forall j :: 0 <= j < |s| ==> 0 <= s[j] < n
  }

  predicate StrictlyIncreasing(s: seq<int>)
  {
    forall j, k :: 0 <= j < k < |s| ==> s[j] < s[k]
  }

  /**
    The fired list is strictly increasing and below n, so no pin fires more
    than once in a pass.
   */
  lemma {:induction false} FiredIncreasing(last: seq<int>, modes: seq<int>, samples: seq<int>, n: nat)
    requires PassInputs(last, modes, samples) && n <= |last|
    ensures AllBelow(FiredUpTo(last, modes, samples, n), n)
    ensures StrictlyIncreasing(FiredUpTo(last, modes, samples, n))
  {
    if n > 0 {
      FiredIncreasing(last, modes, samples, n - 1);
      var prev := FiredUpTo(last, modes, samples, n - 1);
      if Fires(last[n - 1], modes[n - 1], samples[n - 1]) {
        var fired := prev + [n - 1];
        assert FiredUpTo(last, modes, samples, n) == fired;
        assert forall j :: 0 <= j < |prev| ==> fired[j] == prev[j];
        assert fired[|prev|] == n - 1;
      } else {
        assert FiredUpTo(last, modes, samples, n) == prev;
      }
    }
  }

  /** Each pin occurs at most once among the pins fired in one pass. */
  lemma FiredAtMostOnce(last: seq<int>, modes: seq<int>, samples: seq<int>, i: int)
    requires PassInputs(last, modes, samples)
    ensures multiset(FiredUpTo(last, modes, samples, |last|))[i] <= 1
  {
    var fired := FiredUpTo(last, modes, samples, |last|);
    FiredIncreasing(last, modes, samples, |last|);
    DistinctOccursOnce(fired, i);
  }

  lemma {:induction false} DistinctOccursOnce(s: seq<int>, x: int)
    requires StrictlyIncreasing(s)
    ensures multiset(s)[x] <= 1
  {
    if |s| > 0 {
      DistinctOccursOnce(s[1..], x);
      assert s == [s[0]] + s[1..];
      if s[0] == x {
        assert x !in s[1..] by {
          forall k | 0 <= k < |s[1..]| ensures s[1..][k] != x {
            assert s[1..][k] == s[k + 1];
          }
        }
      }
    }
  }

  /**
    Sampling the same levels again right after a pass fires nothing and
    changes nothing: each transition fires its callback once.
   */
  lemma RepeatedPassIsQuiet(last: seq<int>, modes: seq<int>, samples: seq<int>)
    requires PassInputs(last, modes, samples)
    ensures var next := PassLast(last, modes, samples);
            PassLast(next, modes, samples) == next &&
            FiredUpTo(next, modes, samples, |last|) == []
  {
    var next := PassLast(last, modes, samples);
    var fired := FiredUpTo(next, modes, samples, |last|);
    if fired != [] {
      FiredMembership(next, modes, samples, |last|, fired[0]);
      assert false;
    }
  }

  /**
    With every record reset (all modes 0) a pass keeps the last states and
    fires nothing, whatever is sampled.
   */
  lemma IdleRegistryIsQuiet(b: Board, last: seq<int>, samples: seq<int>)
    requires WellFormed(b) && |last| == GpioPins && |samples| == GpioPins
    requires forall i :: 0 <= i < GpioPins ==> b.gpio[i] == DefaultRecord
    ensures PassLast(last, ModesOf(b.gpio), samples) == last
    ensures FiredUpTo(last, ModesOf(b.gpio), samples, GpioPins) == []
  {
    var modes := ModesOf(b.gpio);
    var fired := FiredUpTo(last, modes, samples, GpioPins);
    if fired != [] {
      FiredMembership(last, modes, samples, GpioPins, fired[0]);
      assert false;
    }
  }

  /**
    A logical pin the board does not have always samples 0, so from the
    initial last state 0 it never changes and never fires, whatever its mode.
   */
  lemma UnmappedPinNeverFires(b: Board, opens: seq<bool>, last: seq<int>, i: int)
    requires WellFormed(b) && |opens| == GpioPins && |last| == GpioPins
    requires 0 <= i < GpioPins && GpioNum(i) == Unavailable && last[i] == 0
    ensures var samples := Samples(b, opens);
            PassLast(last, ModesOf(b.gpio), samples)[i] == 0 &&
            i !in FiredUpTo(last, ModesOf(b.gpio), samples, GpioPins)
  {
    FiredMembership(last, ModesOf(b.gpio), Samples(b, opens), GpioPins, i);
  }
}
