/**
 * The microphone's capture loop (src/assist_audio.cpp:96-144): a byte stream, cut by reads in
 * any way, becomes frames of 320 mono samples.
 */
module AudioCapture {
  import opened Basics
  import opened Arithmetic

  const SAMPLES := 320
  const BLOCK := 1280

  /** Two bytes as a signed 16-bit sample, low byte first. */
  function Sample(low: Byte, high: Byte): (v: int)
    ensures -32768 <= v <= 32767
  {
    var v := low as int + 256 * (high as int);
    if v >= 32768 then v - 65536 else v
  }

  /** The left channel of the first `n` stereo samples of a block. */
  function LeftOf(block: Bytes, n: nat): (mono: seq<int>)
    requires |block| >= 4 * n
    ensures |mono| == n
    ensures forall i :: 0 <= i < n ==> mono[i] == Sample(block[4 * i], block[4 * i + 1])
    decreases n, block
  {
    if n == 0 then [] else LeftOf(block, n - 1) + [Sample(block[4 * n - 4], block[4 * n - 3])]
  }

  function Magnitude(v: int): nat { if v < 0 then -v else v }

  function Peak(frame: seq<int>): nat {
    if frame == [] then 0
    else
      var last := |frame| - 1;
      var before := Peak(frame[..last]);
      if Magnitude(frame[last]) > before then Magnitude(frame[last]) else before
  }

  /** The peak is the largest magnitude. */
  lemma {:induction false} PeakIsMaximum(frame: seq<int>)
    ensures forall i :: 0 <= i < |frame| ==> Magnitude(frame[i]) <= Peak(frame)
    ensures Peak(frame) == 0 || exists i :: 0 <= i < |frame| && Magnitude(frame[i]) == Peak(frame)
  {
    if frame != [] {
      var last := |frame| - 1;
      PeakIsMaximum(frame[..last]);
      assert forall i :: 0 <= i < last ==> frame[..last][i] == frame[i];
    }
  }

  lemma PeakGrows(frame: seq<int>, i: nat)
    requires i < |frame|
    ensures Peak(frame[..i + 1]) ==
      if Magnitude(frame[i]) > Peak(frame[..i]) then Magnitude(frame[i]) else Peak(frame[..i])
  {
    assert frame[..i + 1][..i] == frame[..i];
  }

  function Level(frame: seq<int>): nat { Peak(frame) * 100 / 32768 }

  /** The frames of a stream: its complete blocks, in order. */
  function Frames(stream: Bytes): seq<seq<int>> {
    if |stream| < BLOCK then []
    else [LeftOf(stream[..BLOCK], SAMPLES)] + Frames(stream[BLOCK..])
  }

  /** The bytes behind the last complete block. */
  function Unframed(stream: Bytes): (rest: Bytes)
    ensures |rest| < BLOCK
  {
    if |stream| < BLOCK then stream else Unframed(stream[BLOCK..])
  }

  /** What more bytes, up to the end of the block begun, add to the frames. */
  lemma {:induction false} FramesExtend(stream: Bytes, chunk: Bytes)
    requires |Unframed(stream)| + |chunk| <= BLOCK
    ensures
      var held := Unframed(stream) + chunk;
      if |held| < BLOCK then Frames(stream + chunk) == Frames(stream) && Unframed(stream + chunk) == held
      else Frames(stream + chunk) == Frames(stream) + [LeftOf(held, SAMPLES)] && Unframed(stream + chunk) == []
    decreases |stream|
  {
    var whole := stream + chunk;
    if |stream| < BLOCK {
      if |whole| == BLOCK {
        assert whole[..BLOCK] == whole && whole[BLOCK..] == [];
      }
    } else {
      FramesExtend(stream[BLOCK..], chunk);
      assert whole[..BLOCK] == stream[..BLOCK] && whole[BLOCK..] == stream[BLOCK..] + chunk;
    }
  }

  const NO_DATA := "arecord nie zwrócił danych audio"

  /** How the loop ends: the stop flag is cleared, waiting or reading fails, or the recorder's
      stream does. */
  datatype End = Stopped | Failed | StreamEnded

  /** What a poll brings: nothing yet, something to read, or a failure of it or of the read. */
  datatype Poll = Silent | Ready | Failing

  function CountReady(polls: seq<Poll>): nat {
    if polls == [] then 0 else CountReady(polls[..|polls| - 1]) + (if polls[|polls| - 1] == Ready then 1 else 0)
  }

  /** `incoming` is what the recorder writes; `handled` records the frame handler's calls. */
  class Capture {
    const stereo: array<Byte>
    const mono: array<int>
    var incoming: Bytes
    var bytesUsed: nat
    var receivedAudio: bool
    var frameCount: nat
    var levelPercent: nat
    var lastError: string
    var handled: seq<seq<int>>

    constructor (incoming: Bytes)
      ensures this.incoming == incoming && bytesUsed == 0 && !receivedAudio && frameCount == 0
      ensures levelPercent == 0 && lastError == "" && handled == []
      ensures stereo.Length == BLOCK && mono.Length == SAMPLES && fresh(stereo) && fresh(mono)
    {
      stereo := new Byte[BLOCK](_ => 0);
      mono := new int[SAMPLES](_ => 0);
      this.incoming, bytesUsed, receivedAudio := incoming, 0, false;
      frameCount, levelPercent, lastError, handled := 0, 0, "", [];
    }

    /** One read into the buffer: any part of what is there, at least a byte; nothing at the
        end of the stream. */
    method Read() returns (count: nat)
      requires stereo.Length == BLOCK && bytesUsed < BLOCK
      modifies stereo, this`incoming
      ensures bytesUsed + count <= BLOCK && (count == 0 <==> old(incoming) == [])
      ensures stereo[..bytesUsed + count] + incoming == old(stereo[..bytesUsed] + incoming)
    {
      if incoming == [] {
        return 0;
      }
      count :| 1 <= count <= BLOCK - bytesUsed && count <= |incoming|;
      ghost var before := stereo[..bytesUsed];
      for i := 0 to count
        modifies stereo
        invariant stereo[..bytesUsed] == before
        invariant forall j :: 0 <= j < i ==> stereo[bytesUsed + j] == incoming[j]
      {
        stereo[bytesUsed + i] := incoming[i];
      }
      assert stereo[..bytesUsed + count] == before + incoming[..count];
      incoming := incoming[count..];
    }

    /** A complete buffer: the left channel, its level, the handler. */
    method Emit()
      requires stereo.Length == BLOCK && mono.Length == SAMPLES
      modifies mono, this`levelPercent, this`frameCount, this`handled
      ensures
        var frame := LeftOf(stereo[..], SAMPLES);
        handled == old(handled) + [frame] && levelPercent == Level(frame)
      ensures frameCount == old(frameCount) + 1
    {
      ghost var block := stereo[..];
      ghost var frame := LeftOf(block, SAMPLES);
      var peak: nat := 0;
      for i := 0 to SAMPLES
        modifies mono
        invariant peak == Peak(frame[..i])
        invariant forall j :: 0 <= j < i ==> mono[j] == frame[j]
      {
        var sample := Sample(stereo[i * 4], stereo[i * 4 + 1]);
        assert sample == frame[i] by {
          assert stereo[i * 4] == block[4 * i] && stereo[i * 4 + 1] == block[4 * i + 1];
        }
        mono[i] := sample;
        var magnitude := if sample < 0 then -sample else sample;
        PeakGrows(frame, i);
        if magnitude > peak {
          peak := magnitude;
        }
      }
      assert frame[..SAMPLES] == frame && mono[..] == frame;
      levelPercent := peak * 100 / 32768;
      frameCount := frameCount + 1;
      handled := handled + [mono[..]];
      assert stereo[..] == block;
    }

    /** A read, and the frame it completes if it does; nothing at the end of the stream. */
    method Step() returns (more: bool, ghost chunk: Bytes)
      requires stereo.Length == BLOCK && mono.Length == SAMPLES && bytesUsed < BLOCK
      modifies stereo, mono, this`incoming, this`bytesUsed, this`levelPercent, this`frameCount, this`handled
      ensures chunk + incoming == old(incoming) && more == (chunk != []) == (old(incoming) != [])
      ensures
        var held := old(stereo[..bytesUsed]) + chunk;
        |held| <= BLOCK &&
        if |held| < BLOCK then
          bytesUsed == |held| && stereo[..bytesUsed] == held && handled == old(handled) &&
          frameCount == old(frameCount) && levelPercent == old(levelPercent)
        else
          bytesUsed == 0 && handled == old(handled) + [LeftOf(held, SAMPLES)] &&
          frameCount == old(frameCount) + 1 && levelPercent == Level(LeftOf(held, SAMPLES))
    {
      ghost var start, before := stereo[..bytesUsed], incoming;
      var count := Read();
      chunk := before[..count];
      if count == 0 {
        assert start + chunk == start;
        return false, chunk;
      }
      bytesUsed := bytesUsed + count;
      ghost var held := start + chunk;
      HeldBytes(stereo[..bytesUsed], incoming, start, before, count);
      if bytesUsed == BLOCK {
        assert stereo[..] == stereo[..bytesUsed];
        Emit();
        bytesUsed := 0;
      }
      return true, chunk;
    }

    /** The same, in terms of all that was read: `taken` before, when `before` was handled first. */
    method Take(ghost taken: Bytes, ghost before: seq<seq<int>>) returns (more: bool, ghost chunk: Bytes)
      requires stereo.Length == BLOCK && mono.Length == SAMPLES && bytesUsed < BLOCK
      requires stereo[..bytesUsed] == Unframed(taken) && handled == before + Frames(taken)
      modifies stereo, mono, this`incoming, this`bytesUsed, this`levelPercent, this`frameCount, this`handled
      ensures chunk + incoming == old(incoming) && more == (chunk != []) == (old(incoming) != [])
      ensures bytesUsed < BLOCK && stereo[..bytesUsed] == Unframed(taken + chunk)
      ensures handled == before + Frames(taken + chunk)
      ensures frameCount == old(frameCount) + |Frames(taken + chunk)| - |Frames(taken)|
      ensures if handled == old(handled) then frameCount == old(frameCount) && levelPercent == old(levelPercent)
              else frameCount == old(frameCount) + 1 && levelPercent == Level(handled[|handled| - 1])
    {
      more, chunk := Step();
      FramesExtend(taken, chunk);
    }

    /** The loop: it polls until the stop flag is cleared, behind the last of `polls`, until one
        fails, with `failure`, or until the stream ends, at poll `last`. `running` is the stop
        flag when an error is reported, which may have been cleared meanwhile; `taken` is what was
        read: at least a byte at every earlier poll that brought something. */
    method CaptureLoop(polls: seq<Poll>, failure: string, running: bool)
      returns (end: End, last: nat, ghost taken: Bytes)
      requires stereo.Length == BLOCK && mono.Length == SAMPLES
      requires bytesUsed == 0 && !receivedAudio
      modifies this, stereo, mono
      ensures last <= |polls| && Failing !in polls[..last]
      ensures match end
              case Stopped => last == |polls|
              case Failed => last < |polls| && polls[last] == Failing
              case StreamEnded => last < |polls| && polls[last] == Ready && incoming == []
      ensures taken + incoming == old(incoming) && |taken| >= CountReady(polls[..last])
      ensures handled == old(handled) + Frames(taken)
      ensures frameCount == old(frameCount) + |Frames(taken)|
      ensures levelPercent ==
        if Frames(taken) == [] then old(levelPercent) else Level(handled[|handled| - 1])
      ensures lastError ==
        if running && end.Failed? then failure
        else if running && end.StreamEnded? && taken == [] then "arecord nie zwrócił danych audio"
        else old(lastError)
    {
      end, last, taken := Stopped, 0, [];
      while last < |polls|
        invariant last <= |polls| && Failing !in polls[..last]
        invariant taken + incoming == old(incoming) && |taken| >= CountReady(polls[..last])
        invariant bytesUsed < BLOCK && end == Stopped
        invariant handled == old(handled) + Frames(taken) && stereo[..bytesUsed] == Unframed(taken)
        invariant frameCount == old(frameCount) + |Frames(taken)|
        invariant levelPercent ==
          if Frames(taken) == [] then old(levelPercent) else Level(handled[|handled| - 1])
        invariant lastError == old(lastError) && (receivedAudio <==> taken != [])
      {
        NextPoll(polls, last);
        if polls[last] == Failing {
          end := Failed;
          break;
        }
        if polls[last] == Ready {
          var more, chunk := Take(taken, old(handled));
          if !more {
            assert taken + chunk == taken;
            end := StreamEnded;
            break;
          }
          Regroup(taken, chunk, incoming);
          taken := taken + chunk;
          receivedAudio := true;
        }
        last := last + 1;
      }
      if running && end.Failed? {
        lastError := failure;
      } else if running && end.StreamEnded? && !receivedAudio {
        lastError := NO_DATA;
      }
    }
  }

  lemma NextPoll(polls: seq<Poll>, i: nat)
    requires i < |polls|
    ensures CountReady(polls[..i + 1]) == CountReady(polls[..i]) + (if polls[i] == Ready then 1 else 0)
    ensures Failing !in polls[..i] && polls[i] != Failing ==> Failing !in polls[..i + 1]
    ensures CountReady(polls[..0]) == 0
  {
    assert polls[..i + 1][..i] == polls[..i] && polls[..i + 1] == polls[..i] + [polls[i]];
  }

  lemma HeldBytes(now: Bytes, left: Bytes, start: Bytes, before: Bytes, count: nat)
    requires now + left == start + before && count <= |before| && |now| == |start| + count
    ensures now == start + before[..count] && before[..count] + left == before
  {
    assert now == (now + left)[..|now|] && left == (now + left)[|now|..];
    assert (start + before)[..|start| + count] == start + before[..count];
    assert (start + before)[|start| + count..] == before[count..];
  }

  // ---------------------------------------------------------------- what the frames are

  lemma {:induction false} FrameCount(stream: Bytes)
    ensures |Frames(stream)| == |stream| / 1280
    decreases |stream|
  {
    if |stream| >= BLOCK {
      FrameCount(stream[BLOCK..]);
    }
  }

  /** Sample `i` of frame `k` is the left channel of stereo sample 320 k + i of the stream. */
  lemma {:induction false} FrameSample(stream: Bytes, k: nat, i: nat)
    requires 1280 * (k + 1) <= |stream| && i < 320
    ensures k < |Frames(stream)| && |Frames(stream)[k]| == 320
    ensures
      var at := 4 * (320 * k + i);
      at + 1 < |stream| && Frames(stream)[k][i] == Sample(stream[at], stream[at + 1])
    decreases k
  {
    if k > 0 {
      FrameSample(stream[BLOCK..], k - 1, i);
    }
  }

  /** The level of a frame of samples is a percentage. */
  lemma LevelIsPercent(frame: seq<int>)
    requires forall i :: 0 <= i < |frame| ==> -32768 <= frame[i] <= 32767
    ensures 0 <= Level(frame) <= 100
  {
    PeakIsMaximum(frame);
    assert forall i :: 0 <= i < |frame| ==> Magnitude(frame[i]) <= 32768;
  }

  /** Every level the capture shows is a percentage. */
  lemma {:induction false} LevelsArePercents(stream: Bytes)
    ensures forall k :: 0 <= k < |Frames(stream)| ==> 0 <= Level(Frames(stream)[k]) <= 100
    decreases |stream|
  {
    if |stream| >= BLOCK {
      LevelsArePercents(stream[BLOCK..]);
      LevelIsPercent(LeftOf(stream[..BLOCK], SAMPLES));
    }
  }

  /** Low byte first, two's complement: the value, and on some bytes. */
  lemma SampleMeans(low: Byte, high: Byte)
    ensures (Sample(low, high) - 256 * (high as int) - low) % 65536 == 0
    ensures Sample(low, high) < 0 <==> high >= 0x80
    ensures Sample(0x34, 0x12) == 0x1234 && Sample(0xFF, 0xFF) == -1 && Sample(0x00, 0x80) == -0x8000
  {}

  /** The level is the hundredth parts of 32768 that the largest magnitude `peak` is, rounded
      down. */
  lemma LevelMeans(frame: seq<int>, peak: nat)
    requires forall i :: 0 <= i < |frame| ==> 0 - peak <= frame[i] <= peak
    requires peak == 0 || exists i :: 0 <= i < |frame| && (frame[i] == peak || frame[i] == 0 - peak)
    ensures 32768 * Level(frame) <= 100 * peak < 32768 * (Level(frame) + 1)
  {
    PeakIsMaximum(frame);
    assert Peak(frame) <= peak by {
      if i :| 0 <= i < |frame| && Magnitude(frame[i]) == Peak(frame) {}
    }
    if i :| 0 <= i < |frame| && (frame[i] == peak || frame[i] == 0 - peak) {
      assert Magnitude(frame[i]) == peak;
    }
    var n := peak * 100;
    assert n == 32768 * (n / 32768) + n % 32768;
  }
}
