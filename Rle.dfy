/** The run-length codec of wpls.js (`rleEncode`, lines 8-22, and `rleDecode`,
    lines 24-32): a byte array becomes (count, value) byte pairs, with runs
    longer than 255 split. */
module Rle {
  import opened Bytes

  /** `n` copies of `v`. */
  function Repeat(v: byte, n: nat): (s: seq<byte>)
    ensures |s| == n
    ensures forall k :: 0 <= k < n ==> s[k] == v
  {
    if n == 0 then [] else Repeat(v, n - 1) + [v]
  }

  /** Where the run starting at `start` ends, once it is known to reach `i`:
      it is extended while the value repeats and the count stays below 255. */
  function RunFrom(arr: seq<byte>, start: nat, i: nat): (e: nat)
    requires start < i <= |arr|
    decreases |arr| - i
  {
    if i < |arr| && arr[i] == arr[start] && i - start < 255 then RunFrom(arr, start, i + 1) else i
  }

  /** The scan stops at the first differing value or at a count of 255. */
  lemma {:induction false} RunFromEnds(arr: seq<byte>, start: nat, i: nat)
    requires start < i <= |arr| && i - start <= 255
    requires forall k :: start <= k < i ==> arr[k] == arr[start]
    ensures var e := RunFrom(arr, start, i);
      && i <= e <= |arr| && e - start <= 255
      && (forall k :: start <= k < e ==> arr[k] == arr[start])
      && (e < |arr| ==> e - start == 255 || arr[e] != arr[start])
    decreases |arr| - i
  {
    if i < |arr| && arr[i] == arr[start] && i - start < 255 {
      RunFromEnds(arr, start, i + 1);
    }
  }

  /** The end of the run `rleEncode` emits as one pair from `start`. */
  function RunEnd(arr: seq<byte>, start: nat): (e: nat)
    requires start < |arr|
  {
    RunFrom(arr, start, start + 1)
  }

  /** That run is the longest stretch of `arr[start]` from `start`, cut at 255
      values ... */
  lemma RunEndFacts(arr: seq<byte>, start: nat)
    requires start < |arr|
    ensures var e := RunEnd(arr, start);
      && start < e <= |arr| && e - start <= 255
      && (forall k :: start <= k < e ==> arr[k] == arr[start])
      && (e < |arr| ==> e - start == 255 || arr[e] != arr[start])
  {
    RunFromEnds(arr, start, start + 1);
  }

  /** ... and those conditions pin its end down. */
  lemma RunEndIs(arr: seq<byte>, start: nat, e: nat)
    requires start < e <= |arr| && e - start <= 255
    requires forall k :: start <= k < e ==> arr[k] == arr[start]
    requires e == |arr| || e - start == 255 || arr[e] != arr[start]
    ensures RunEnd(arr, start) == e
  {
    RunEndFacts(arr, start);
  }

  /** The pairs `rleEncode` emits for `arr[start..]`, run after run. */
  function EncodeFrom(arr: seq<byte>, start: nat): (out: seq<byte>)
    decreases |arr| - start
  {
    if start >= |arr| then []
    else
      var e := RunEnd(arr, start);
      RunEndFacts(arr, start);
      [(e - start) as byte, arr[start]] + EncodeFrom(arr, e)
  }

  /** What `rleEncode(arr)` returns.  For an empty array the source still
      pushes the pending pair (1, `arr[0]`), and `undefined` stored in a
      `Uint8Array` is 0, so the result is [1, 0]. */
  function Encoded(arr: seq<byte>): (out: seq<byte>)
  {
    if |arr| == 0 then [1, 0] else EncodeFrom(arr, 0)
  }

  /** What `rleDecode(arr)` returns: each pair expands to `count` copies of
      its value; a lone trailing count reads its value past the end, which is
      `undefined` and is stored as 0. */
  function Decoded(pairs: seq<byte>): (out: seq<byte>)
    decreases |pairs|
  {
    if |pairs| == 0 then []
    else if |pairs| == 1 then Repeat(0, pairs[0])
    else Repeat(pairs[1], pairs[0]) + Decoded(pairs[2..])
  }

  /** `rleEncode` (lines 8-22). */
  method RleEncode(arr: seq<byte>) returns (out: seq<byte>)
    ensures out == Encoded(arr)
  {
    if |arr| == 0 {
      return [1, 0];
    }
    out := [];
    var prev, count := arr[0], 1;
    var i := 1;
    ghost var start := 0;
    while i < |arr|
      invariant 1 <= count <= 255 && start + count == i <= |arr|
      invariant prev == arr[start]
      invariant RunFrom(arr, start, i) == RunEnd(arr, start)
      invariant out + EncodeFrom(arr, start) == EncodeFrom(arr, 0)
    {
      if arr[i] == prev && count < 255 {
        assert RunFrom(arr, start, i + 1) == RunEnd(arr, start);
        count := count + 1;
      } else {
        assert out + [count as byte, prev] + EncodeFrom(arr, i) == EncodeFrom(arr, 0) by {
          EmitRun(arr, out, start, i);
        }
        out := out + [count as byte, prev];
        prev := arr[i];
        count := 1;
        start := i;
      }
      i := i + 1;
    }
    assert out + [count as byte, prev] == EncodeFrom(arr, 0) by {
      EmitRun(arr, out, start, i);
    }
    out := out + [count as byte, prev];
  }

  /** A run that the scan ends at `i` is emitted as one pair, followed by the
      encoding of the rest. */
  lemma EmitRun(arr: seq<byte>, out: seq<byte>, start: nat, i: nat)
    requires start < i <= |arr| && i - start <= 255
    requires RunFrom(arr, start, i) == RunEnd(arr, start) == i
    requires out + EncodeFrom(arr, start) == EncodeFrom(arr, 0)
    ensures out + [(i - start) as byte, arr[start]] + EncodeFrom(arr, i) == EncodeFrom(arr, 0)
  {
    assert EncodeFrom(arr, start) == [(i - start) as byte, arr[start]] + EncodeFrom(arr, i);
  }

  /** `rleDecode` (lines 24-32). */
  method RleDecode(arr: seq<byte>) returns (out: seq<byte>)
    ensures out == Decoded(arr)
  {
    out := [];
    var i := 0;
    while i < |arr|
      invariant i <= |arr| + 1
      invariant i < |arr| ==> out + Decoded(arr[i..]) == Decoded(arr)
      invariant i >= |arr| ==> out == Decoded(arr)
    {
      var count := arr[i];
      var id := if i + 1 < |arr| then arr[i + 1] else 0;
      ghost var before := out;
      for j := 0 to count
        invariant out == before + Repeat(id, j)
      {
        out := out + [id];
      }
      if i + 2 < |arr| {
        assert arr[i..][2..] == arr[i + 2..];
      }
      i := i + 2;
    }
  }

  /** A run is that many copies of its first value. */
  lemma RepeatOfRun(arr: seq<byte>, start: nat, e: nat)
    requires start < e <= |arr| && forall k :: start <= k < e ==> arr[k] == arr[start]
    ensures Repeat(arr[start], e - start) == arr[start..e]
  {
  }

  /** Decoding undoes the run encoding of any suffix. */
  lemma {:induction false} DecodeEncodeFrom(arr: seq<byte>, start: nat)
    requires start <= |arr|
    ensures Decoded(EncodeFrom(arr, start)) == arr[start..]
    decreases |arr| - start
  {
    if start < |arr| {
      var e := RunEnd(arr, start);
      RunEndFacts(arr, start);
      var rest := EncodeFrom(arr, e);
      DecodeEncodeFrom(arr, e);
      assert ([(e - start) as byte, arr[start]] + rest)[2..] == rest;
      if |rest| == 0 {
        assert Decoded([(e - start) as byte, arr[start]]) == Repeat(arr[start], e - start) + Decoded([]);
      }
      RepeatOfRun(arr, start, e);
      assert arr[start..] == arr[start..e] + arr[e..];
    }
  }

  /** `rleDecode(rleEncode(x)) == x` for every non-empty array ... */
  lemma DecodeEncode(arr: seq<byte>)
    requires |arr| > 0
    ensures Decoded(Encoded(arr)) == arr
  {
    DecodeEncodeFrom(arr, 0);
  }

  /** ... while the empty array comes back as a single 0. */
  lemma DecodeEncodeEmpty()
    ensures Encoded([]) == [1, 0]
    ensures Decoded(Encoded([])) == [0]
  {
    assert Decoded([1, 0]) == Repeat(0, 1) + Decoded([]);
  }

  /** The shape of an encoding: (count, value) pairs with counts 1..255, and a
      run shorter than 255 is never followed by a run of the same value. */
  ghost predicate WellFormedRuns(e: seq<byte>)
  {
    |e| % 2 == 0 && CountsInRange(e) && RunsMaximal(e)
  }

  /** Every count of the pairs is between 1 and 255. */
  ghost predicate CountsInRange(e: seq<byte>)
  {
    forall j :: 0 <= j && 2 * j + 1 < |e| ==> 1 <= e[2 * j] <= 255
  }

  /** A count below 255 is never followed by a pair of the same value. */
  ghost predicate RunsMaximal(e: seq<byte>)
  {
    forall j :: 0 <= j && 2 * j + 3 < |e| && e[2 * j] < 255 ==> e[2 * j + 1] != e[2 * j + 3]
  }

  /** The encoding has even length, at most twice that of the suffix ... */
  lemma {:induction false} EncodeFromLength(arr: seq<byte>, start: nat)
    requires start <= |arr|
    ensures |EncodeFrom(arr, start)| % 2 == 0
    ensures |EncodeFrom(arr, start)| <= 2 * (|arr| - start)
    decreases |arr| - start
  {
    if start < |arr| {
      RunEndFacts(arr, start);
      EncodeFromLength(arr, RunEnd(arr, start));
    }
  }

  /** ... every count in it is between 1 and 255 ... */
  lemma {:induction false} EncodeFromCounts(arr: seq<byte>, start: nat)
    requires start <= |arr|
    ensures CountsInRange(EncodeFrom(arr, start))
    decreases |arr| - start
  {
    if start < |arr| {
      var end := RunEnd(arr, start);
      RunEndFacts(arr, start);
      var rest := EncodeFrom(arr, end);
      EncodeFromCounts(arr, end);
      var e := [(end - start) as byte, arr[start]] + rest;
      forall j | 0 <= j && 2 * j + 1 < |e|
        ensures 1 <= e[2 * j] <= 255
      {
        if j >= 1 {
          var j' := j - 1;
          assert 2 * j' + 1 < |rest|;
          assert e[2 * j] == rest[2 * j'];
        }
      }
    }
  }

  /** ... and a count below 255 is followed by a pair of another value. */
  lemma {:induction false} EncodeFromMaximal(arr: seq<byte>, start: nat)
    requires start <= |arr|
    ensures RunsMaximal(EncodeFrom(arr, start))
    decreases |arr| - start
  {
    if start < |arr| {
      var end := RunEnd(arr, start);
      RunEndFacts(arr, start);
      var rest := EncodeFrom(arr, end);
      EncodeFromMaximal(arr, end);
      var e := [(end - start) as byte, arr[start]] + rest;
      forall j | 0 <= j && 2 * j + 3 < |e| && e[2 * j] < 255
        ensures e[2 * j + 1] != e[2 * j + 3]
      {
        if j >= 1 {
          var j' := j - 1;
          assert 2 * j' + 3 < |rest|;
          assert e[2 * j] == rest[2 * j'] && e[2 * j + 1] == rest[2 * j' + 1] && e[2 * j + 3] == rest[2 * j' + 3];
        } else {
          assert rest[1] == arr[end];
        }
      }
    }
  }

  /** The encoding of every non-empty array is well formed and at most twice
      as long as the array. */
  lemma EncodedShape(arr: seq<byte>)
    requires |arr| > 0
    ensures WellFormedRuns(Encoded(arr))
    ensures |Encoded(arr)| <= 2 * |arr|
  {
    EncodeFromLength(arr, 0);
    EncodeFromCounts(arr, 0);
    EncodeFromMaximal(arr, 0);
  }

  /** A run of 256 equal values is split into (255, v), (1, v). */
  lemma Run256(v: byte)
    ensures Encoded(Repeat(v, 256)) == [255, v, 1, v]
  {
    var arr := Repeat(v, 256);
    RunEndIs(arr, 0, 255);
    RunEndIs(arr, 255, 256);
    assert EncodeFrom(arr, 0) == [255 as byte, v] + EncodeFrom(arr, 255);
    assert EncodeFrom(arr, 255) == [1 as byte, v] + EncodeFrom(arr, 256);
  }
}
