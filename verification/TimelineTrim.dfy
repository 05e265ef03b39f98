/** performance_config/timeline_trim.py: shrinking idle gaps of a recording.
    The source's floats are real numbers here; rounding is not modelled. */
module TimelineTrim {
  import opened Prelude

  /** Raw timestamps at or above this value are already milliseconds. */
  const MS_THRESHOLD: real := 1000000000000.0

  function MqttTimestampToMs(raw: Option<real>): real {
    match raw
    case None => 0.0
    case Some(x) => if x >= MS_THRESHOLD then x else x * 1000.0
  }

  function MsToMqttStorage(prevRaw: Option<real>, newMs: real): real {
    if prevRaw.Some? && prevRaw.value >= MS_THRESHOLD then newMs else newMs / 1000.0
  }

  function Min(a: real, b: real): real { if a < b then a else b }

  ghost predicate Sorted(times: seq<real>) {
    forall i, j :: 0 <= i < j < |times| ==> times[i] <= times[j]
  }

  /** What compression promises: the first time stays and every gap is capped at the pause. */
  ghost predicate Compresses(times: seq<real>, pause: real, out: seq<real>) {
    && |out| == |times|
    && (|times| > 0 ==> out[0] == times[0])
    && forall i :: 0 < i < |times| ==> out[i] - out[i - 1] == Min(times[i] - times[i - 1], pause)
  }

  method CompressSortedTimesMs(times: seq<real>, minPauseMs: real) returns (r: Result<seq<real>, string>)
    ensures r.Err? <==> minPauseMs < 0.0
    ensures r.Ok? ==> Compresses(times, minPauseMs, r.value)
  {
    if minPauseMs < 0.0 {
      return Err("min_pause_ms must be non-negative");
    }
    if times == [] {
      return Ok([]);
    }
    var out := [times[0]];
    var removal := 0.0;
    for i := 1 to |times|
      invariant |out| == i
      invariant removal == times[i - 1] - out[i - 1]
      invariant out[0] == times[0]
      invariant forall k :: 0 < k < i ==> out[k] - out[k - 1] == Min(times[k] - times[k - 1], minPauseMs)
    {
      var gap := times[i] - times[i - 1];
      if gap > minPauseMs {
        removal := removal + (gap - minPauseMs);
      }
      out := out + [times[i] - removal];
    }
    return Ok(out);
  }

  /** The capped gaps leave no freedom: compression is a function. */
  lemma {:induction false} CompressionUnique(times: seq<real>, pause: real, a: seq<real>, b: seq<real>)
    requires Compresses(times, pause, a) && Compresses(times, pause, b)
    ensures a == b
  {
    var n := 0;
    while n < |times|
      invariant 0 <= n <= |times|
      invariant forall k :: 0 <= k < n ==> a[k] == b[k]
    {
      if n > 0 {
        assert a[n] - a[n - 1] == Min(times[n] - times[n - 1], pause) == b[n] - b[n - 1];
      }
      n := n + 1;
    }
  }

  /** Over any stretch of a sorted timeline the compressed stretch is ordered and no longer. */
  lemma {:induction false} CompressionShrinks(times: seq<real>, pause: real, out: seq<real>, i: nat, j: nat)
    requires pause >= 0.0 && Sorted(times) && Compresses(times, pause, out)
    requires i <= j < |times|
    ensures 0.0 <= out[j] - out[i] <= times[j] - times[i]
    decreases j
  {
    if i < j {
      CompressionShrinks(times, pause, out, i, j - 1);
      assert times[j - 1] <= times[j];
    }
  }

  lemma CompressionOfSorted(times: seq<real>, pause: real, out: seq<real>)
    requires pause >= 0.0 && Sorted(times) && Compresses(times, pause, out)
    ensures Sorted(out)
    ensures forall i :: 0 <= i < |times| ==> times[0] <= out[i] <= times[i]
    ensures forall i :: 0 < i < |out| ==> out[i] - out[i - 1] <= pause
  {
    forall i, j | 0 <= i < j < |out| ensures out[i] <= out[j] {
      CompressionShrinks(times, pause, out, i, j);
    }
    forall i | 0 <= i < |times| ensures times[0] <= out[i] <= times[i] {
      CompressionShrinks(times, pause, out, 0, i);
    }
  }

  /** Compression changes nothing exactly when no gap exceeds the pause. */
  lemma CompressionIdentity(times: seq<real>, pause: real, out: seq<real>)
    requires Compresses(times, pause, out)
    ensures out == times <==> forall i :: 0 < i < |times| ==> times[i] - times[i - 1] <= pause
  {
    if forall i :: 0 < i < |times| ==> times[i] - times[i - 1] <= pause {
      assert Compresses(times, pause, times);
      CompressionUnique(times, pause, out, times);
    }
  }

  /** Compressing by p and then by q is compressing once by the smaller pause. */
  lemma CompressionComposes(times: seq<real>, p: real, q: real, byP: seq<real>, thenQ: seq<real>, once: seq<real>)
    requires Compresses(times, p, byP) && Compresses(byP, q, thenQ) && Compresses(times, Min(p, q), once)
    ensures thenQ == once
  {
    assert Compresses(times, Min(p, q), thenQ);
    CompressionUnique(times, Min(p, q), thenQ, once);
  }

  /** Compressing an already compressed timeline again is a no-op. */
  lemma CompressionIdempotent(times: seq<real>, p: real, once: seq<real>, twice: seq<real>)
    requires Compresses(times, p, once) && Compresses(once, p, twice)
    ensures twice == once
  {
    CompressionComposes(times, p, p, once, twice, once);
  }

  /** The unit-by-unit condition under which a stored time survives being read. */
  predicate ReadsBack(prevRaw: Option<real>, newMs: real) {
    || newMs == 0.0
    || (if prevRaw.Some? && prevRaw.value >= MS_THRESHOLD
        then newMs >= MS_THRESHOLD else newMs < 1000.0 * MS_THRESHOLD)
  }

  /** A stored time reads back as itself exactly when it lies on its own unit's side of the threshold. */
  lemma StorageRoundTrip(prevRaw: Option<real>, newMs: real)
    ensures ReadsBack(prevRaw, newMs) <==> MqttTimestampToMs(Some(MsToMqttStorage(prevRaw, newMs))) == newMs
  {
    if !(prevRaw.Some? && prevRaw.value >= MS_THRESHOLD) {
      assert (newMs / 1000.0) * 1000.0 == newMs;
    }
  }

  /** The failing side is inhabited: a millisecond row whose chat clock is small is read back 1000 times too late. */
  lemma StorageRoundTripCanFail()
    ensures MqttTimestampToMs(Some(MsToMqttStorage(Some(MS_THRESHOLD), 5.0))) == 5000.0
  {
  }
}
