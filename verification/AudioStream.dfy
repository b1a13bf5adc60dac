/** The audio callback: recording its input and playing a file in a circle (patestCallback). */
module AudioStream {
  import opened Options
  import opened Division

  type Sample = x: int | -0x8000 <= x < 0x8000

  const CONTINUE := 0
  const COMPLETE := 1

  /* ---- what a run of callbacks is about ---- */

  // The samples offered by the callbacks so far; one with a null input offers nothing.
  function Offered(inputs: seq<Option<seq<Sample>>>): seq<Sample> {
    if inputs == [] then []
    else
      var last := inputs[|inputs| - 1];
      Offered(inputs[..|inputs| - 1]) + match last case None => [] case Some(s) => s
  }

  lemma OfferedSnoc(inputs: seq<Option<seq<Sample>>>, s: Option<seq<Sample>>)
    ensures Offered(inputs + [s]) == Offered(inputs) + match s case None => [] case Some(x) => x
  {
    assert (inputs + [s])[..|inputs|] == inputs;
  }

  lemma NextInCycle(k: nat, size: nat)
    requires size > 0
    ensures (k + 1) % size == if k % size + 1 == size then 0 else k % size + 1
  {
    var q, r := k / size, k % size;
    assert k == q * size + r;
    if r + 1 == size {
      assert (q + 1) * size == q * size + size;
      DivModUnique(k + 1, size, q + 1, 0);
    } else {
      DivModUnique(k + 1, size, q, r + 1);
    }
  }

  /* ---- the stream ---- */

  class Stream {
    const recorded: array<Sample>
    var frameIndex: nat
    const maxFrameIndex: nat
    // File_data: no buffer when only recording
    const file: Option<array<Sample>>
    const fileSize: nat
    var playbackIndex: nat
    ghost var inputs: seq<Option<seq<Sample>>>
    ghost var played: nat

    // The recording is the prefix of what was offered that fits.
    ghost predicate Recorded()
      reads this`frameIndex, this`inputs, this`played, recorded
    {
      && recorded.Length == maxFrameIndex && played == |Offered(inputs)|
      && frameIndex == (if played < maxFrameIndex then played else maxFrameIndex)
      && recorded[..frameIndex] == Offered(inputs)[..frameIndex]
    }

    ghost predicate Valid()
      reads this, recorded
    {
      Recorded() &&
      (file.Some? ==> 0 < fileSize <= file.value.Length && playbackIndex == played % fileSize
                      && file.value as object != recorded)
    }

    constructor (maxFrameIndex: nat, file: Option<array<Sample>>, fileSize: nat)
      requires file.Some? ==> 0 < fileSize <= file.value.Length
      ensures Valid() && fresh(recorded) && inputs == [] && played == 0
      ensures this.maxFrameIndex == maxFrameIndex && this.file == file && this.fileSize == fileSize
    {
      recorded := new Sample[maxFrameIndex](_ => 0);
      this.maxFrameIndex, this.file, this.fileSize := maxFrameIndex, file, fileSize;
      frameIndex, playbackIndex, inputs, played := 0, 0, [], 0;
    }

    method Play(output: array<Sample>)
      requires Valid() && file.Some?
      requires output != recorded && output != file.value
      modifies this`playbackIndex, output
      ensures playbackIndex == (played + output.Length) % fileSize
      ensures forall i :: 0 <= i < output.Length ==> output[i] == file.value[(played + i) % fileSize]
    {
      var buffer := file.value;
      for i := 0 to output.Length
        invariant playbackIndex == (played + i) % fileSize && buffer[..] == old(buffer[..])
        invariant forall j :: 0 <= j < i ==> output[j] == buffer[(played + j) % fileSize]
      {
        output[i] := buffer[playbackIndex];
        NextInCycle(played + i, fileSize);
        playbackIndex := playbackIndex + 1;
        if playbackIndex >= fileSize {
          playbackIndex := 0;
        }
      }
    }

    // The recording half of the callback.
    method Record(samples: seq<Sample>) returns (finished: int)
      requires recorded.Length == maxFrameIndex && frameIndex <= maxFrameIndex
      modifies this`frameIndex, recorded
      ensures frameIndex <= maxFrameIndex
      ensures frameIndex ==
              if old(frameIndex) + |samples| < maxFrameIndex then old(frameIndex) + |samples| else maxFrameIndex
      ensures recorded[..frameIndex] == old(recorded[..frameIndex]) + samples[..frameIndex - old(frameIndex)]
      ensures finished == if old(frameIndex) + |samples| > maxFrameIndex then COMPLETE else CONTINUE
    {
      var left := maxFrameIndex - frameIndex;
      var take: nat;
      if left < |samples| {
        take, finished := left, COMPLETE;
      } else {
        take, finished := |samples|, CONTINUE;
      }
      for i := 0 to take
        invariant frameIndex == old(frameIndex)
        invariant forall j :: 0 <= j < frameIndex ==> recorded[j] == old(recorded[j])
        invariant forall j :: 0 <= j < i ==> recorded[frameIndex + j] == samples[j]
      {
        recorded[frameIndex + i] := samples[i];
      }
      frameIndex := frameIndex + take;
    }

    method Callback(input: Option<seq<Sample>>, output: array<Sample>) returns (finished: int)
      requires Valid() && (input.Some? ==> |input.value| == output.Length)
      requires output != recorded && (file.Some? ==> output != file.value)
      modifies this, recorded, output
      ensures Valid() && inputs == old(inputs) + [input]
      // the file goes on exactly where the last callback stopped; without input nothing is played
      ensures forall i :: 0 <= i < output.Length ==>
        output[i] ==
        if input.Some? && file.Some? then file.value[(old(played) + i) % fileSize] else old(output[i])
      // completion is reported for each input that is not empty as soon as more was offered than fits
      ensures finished == if input.Some? && input.value != [] && played > maxFrameIndex then COMPLETE else CONTINUE
    {
      hide Recorded;
      if input.None? {
        Nothing();
        return CONTINUE;
      }
      if file.Some? {
        Play(output);
      }
      finished := Take(input.value);
    }

    // The rest of the callback: recording, and the books.
    method Take(samples: seq<Sample>) returns (finished: int)
      requires Recorded()
      modifies this`frameIndex, this`inputs, this`played, recorded
      ensures Recorded() && inputs == old(inputs) + [Some(samples)] && played == old(played) + |samples|
      ensures finished == if samples != [] && played > maxFrameIndex then COMPLETE else CONTINUE
    {
      OfferedSnoc(inputs, Some(samples));
      hide Offered;
      ghost var offered, f := Offered(inputs), frameIndex;
      finished := Record(samples);
      PrefixGrows(offered, samples, f, frameIndex);
      played := played + |samples|;
      inputs := inputs + [Some(samples)];
    }

    ghost method Nothing()
      requires Recorded()
      modifies this`inputs
      ensures Recorded() && inputs == old(inputs) + [None]
    {
      OfferedSnoc(inputs, None);
      inputs := inputs + [None];
    }

    // Callbacks with buffers of a fixed size: completion is answered from call maxFrameIndex / size + 1 on, counted
    // from one, and not before, and then the recording is full. So when the size divides the limit, and the recording
    // is full already, one more call is needed.
    method RunFixed(buffers: seq<seq<Sample>>, output: array<Sample>) returns (answers: seq<int>)
      requires Valid() && inputs == [] && output.Length > 0
      requires forall k :: 0 <= k < |buffers| ==> |buffers[k]| == output.Length
      requires output != recorded && (file.Some? ==> output != file.value)
      modifies this, recorded, output
      ensures Valid() && |answers| == |buffers| && played == |buffers| * output.Length
      ensures forall k :: 0 <= k < |answers| ==>
        answers[k] == if k >= maxFrameIndex / output.Length then COMPLETE else CONTINUE
      ensures |buffers| > maxFrameIndex / output.Length ==> frameIndex == maxFrameIndex
      // sample after sample as the buffers come
      ensures frameIndex <= |buffers| * output.Length && frameIndex <= maxFrameIndex
      ensures SamplesOf(buffers, output.Length, recorded[..frameIndex])
      ensures inputs == seq(|buffers|, i requires 0 <= i < |buffers| => Some(buffers[i]))
    {
      hide Offered;
      answers := [];
      for k := 0 to |buffers|
        invariant Valid() && |answers| == k && inputs == seq(k, i requires 0 <= i < k => Some(buffers[i]))
        invariant forall j :: 0 <= j < k ==>
          answers[j] == if j >= maxFrameIndex / output.Length then COMPLETE else CONTINUE
      {
        var answer := Callback(Some(buffers[k]), output);
        FixedSizeOffered(inputs, output.Length, maxFrameIndex);
        answers := answers + [answer];
      }
      FixedSizeOffered(inputs, output.Length, maxFrameIndex);
      FixedRecording(inputs, buffers, output.Length, recorded[..], frameIndex);
    }
  }

  lemma {:induction false} OfferedLength(inputs: seq<Option<seq<Sample>>>, size: nat)
    requires forall k :: 0 <= k < |inputs| ==> inputs[k].Some? && |inputs[k].value| == size
    ensures |Offered(inputs)| == |inputs| * size
  {
    if inputs != [] {
      OfferedLength(inputs[..|inputs| - 1], size);
      assert (|inputs| - 1) * size + size == |inputs| * size;
    }
  }

  // Sample i of what buffers of a fixed size offer is in buffer i / size.
  lemma {:induction false} OfferedAt(inputs: seq<Option<seq<Sample>>>, size: nat, i: nat)
    requires size > 0 && forall k :: 0 <= k < |inputs| ==> inputs[k].Some? && |inputs[k].value| == size
    requires i < |Offered(inputs)|
    ensures 0 <= i / size < |inputs| && 0 <= i % size < size && Offered(inputs)[i] == inputs[i / size].value[i % size]
  {
    if inputs != [] {
      var n := |inputs| - 1;
      var init := inputs[..n];
      var before := Offered(init);
      assert Offered(inputs) == before + inputs[n].value;
      hide Offered;
      if i < |before| {
        OfferedAt(init, size, i);
        assert init[i / size] == inputs[i / size];
      } else {
        OfferedLength(init, size);
        InBuffer(i, n, size, |before|);
      }
    }
  }

  lemma InBuffer(i: nat, n: nat, size: nat, start: nat)
    requires start == n * size && start <= i < start + size
    ensures i / size == n && i % size == i - start
  {
    DivModUnique(i, size, n, i - start);
  }

  // Sample after sample as the buffers come.
  ghost predicate SamplesOf(buffers: seq<seq<Sample>>, size: nat, rec: seq<Sample>)
    requires size > 0
  {
    forall i :: 0 <= i < |rec| ==>
      0 <= i / size < |buffers| && 0 <= i % size < |buffers[i / size]| && rec[i] == buffers[i / size][i % size]
  }

  lemma FixedRecording(inputs: seq<Option<seq<Sample>>>, buffers: seq<seq<Sample>>, size: nat, rec: seq<Sample>, f: nat)
    requires size > 0 && |inputs| == |buffers| && f <= |rec| && f <= |Offered(inputs)|
    requires forall k :: 0 <= k < |buffers| ==> inputs[k] == Some(buffers[k]) && |buffers[k]| == size
    requires rec[..f] == Offered(inputs)[..f]
    ensures f <= |buffers| * size
    ensures SamplesOf(buffers, size, rec[..f])
  {
    hide Offered;
    OfferedLength(inputs, size);
    forall i | 0 <= i < f
      ensures 0 <= i / size < |buffers| && 0 <= i % size < |buffers[i / size]|
      ensures rec[..f][i] == buffers[i / size][i % size]
    {
      OfferedAt(inputs, size, i);
      assert rec[i] == rec[..f][i] == Offered(inputs)[..f][i];
    }
  }

  // With buffers of a fixed size the limit is passed on call limit / size + 1 and not before.
  lemma FixedSizeOffered(inputs: seq<Option<seq<Sample>>>, size: nat, limit: nat)
    requires size > 0 && forall k :: 0 <= k < |inputs| ==> inputs[k].Some? && |inputs[k].value| == size
    ensures |Offered(inputs)| == |inputs| * size
    ensures |Offered(inputs)| > limit <==> |inputs| > limit / size
  {
    OfferedLength(inputs, size);
    QuotientBound(|inputs|, size, limit);
  }

  lemma PrefixGrows(offered: seq<Sample>, samples: seq<Sample>, f: nat, g: nat)
    requires f <= g <= |offered| + |samples| && f <= |offered| && (f == |offered| || f == g)
    ensures offered[..f] + samples[..g - f] == (offered + samples)[..g]
  {
  }
}
