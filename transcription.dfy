/** `transcribe_audio` of app/transcription.py: convert an .ogg upload to WAV,
    cut a WAV over the 20 MiB ceiling into segments each at or under it by
    trial and shrink, transcribe the segments in order, join the texts and
    remove the temporary files.

    What the program learns from foreign code is passed in:
    - the files on disk are a map from path to size in bytes
      (`os.path.getsize`, `os.path.exists`, `os.remove`, and every export
      writes one entry);
    - `Media` says what pydub makes of the upload: whether it decodes, the
      size of the converted WAV, the duration, and the size of the WAV
      exported for each slice;
    - `transcribe_segment` is reduced to what the Whisper endpoint answers
      for a path (`Reply`), and the method reports every path it sent there. */
module Transcription {
  import opened PyStr

  const MAX_FILE_SIZE: nat := 20 * 1024 * 1024
  const INITIAL_SEGMENT_MS: nat := 120000
  const MIN_SEGMENT_MS: nat := 10000

  const ERROR_PREFIX: string := "Transcription error: "
  const UNABLE_TO_SPLIT: string := ERROR_PREFIX + "Unable to split audio under 20MB"

  datatype Option<T> = None | Some(value: T)

  /** Every existing file with its size in bytes. */
  type FileSystem = map<string, nat>

  /** What decoding and exporting the upload yields. */
  datatype Media = Media(
    decodeError: Option<string>,    // str(e) when pydub cannot decode the upload
    wavSize: nat,                   // size of the WAV written for an .ogg upload
    totalMs: nat,                   // len(audio), in milliseconds
    sliceSize: (nat, nat) -> nat)   // size of the WAV exported for audio[start:end]

  /** What the Whisper endpoint does with one request. */
  datatype Reply =
    | Transcribed(text: string)      // status 200; the "text" field of the JSON body
    | Rejected(body: string)         // any other status; the response body
    | RequestFailed(message: string) // an exception inside the request; str(e)

  /** The test the pipeline and both of its callers apply to a returned
      string: `"error" in s.lower()`. */
  predicate LooksLikeError(s: string) {
    Contains(Lower(s), "error")
  }

  /** The test is case-insensitive: any five consecutive characters that
      spell "error" in any mix of cases make a text look like an error. */
  lemma LooksLikeErrorAnyCase(s: string, i: nat)
    requires i + 5 <= |s| && Lower(s[i..i + 5]) == "error"
    ensures LooksLikeError(s)
  {
    LowerSlice(s, i, i + 5);
    assert OccursAt(Lower(s), "error", i);
  }

  /** Every message that starts with the pipeline's error prefix is
      recognised as a failure by that test. */
  lemma ErrorPrefixDetected(detail: string)
    ensures LooksLikeError(ERROR_PREFIX + detail)
  {
    LowerAppend(ERROR_PREFIX, detail);
    var low := Lower(ERROR_PREFIX + detail);
    assert low[14..19] == "error";
    assert OccursAt(low, "error", 14);
  }

  /** `transcribe_segment`: the recognised text, or the error prefix and the
      diagnostic. */
  function SegmentText(reply: Reply): (t: string)
    ensures reply.Transcribed? ==> t == reply.text
    ensures !reply.Transcribed? ==> StartsWith(t, ERROR_PREFIX) && LooksLikeError(t)
    ensures reply.Rejected? ==> t[|ERROR_PREFIX|..] == reply.body
    ensures reply.RequestFailed? ==> t[|ERROR_PREFIX|..] == reply.message
  {
    match reply
    case Transcribed(text) => text
    case Rejected(body) => ErrorPrefixDetected(body); ERROR_PREFIX + body
    case RequestFailed(message) => ErrorPrefixDetected(message); ERROR_PREFIX + message
  }

  /** str(e) of the FileNotFoundError that `os.path.getsize` raises. */
  function NoSuchFile(path: string): string {
    "[Errno 2] No such file or directory: '" + path + "'"
  }

  // ---------------------------------------------------------------------------
  // Paths

  /** The path the pipeline works on: an .ogg upload is converted to the path
      with every ".ogg" replaced by ".wav"; any other upload is used as is. */
  function ConvertedPath(filePath: string): (w: string)
    ensures EndsWith(filePath, ".ogg") ==> EndsWith(w, ".wav") && |w| == |filePath| && w != filePath
    ensures !EndsWith(filePath, ".ogg") ==> w == filePath
  {
    if EndsWith(filePath, ".ogg") then
      ReplaceOggSuffix(filePath);
      ReplaceLength(filePath, ".ogg", ".wav");
      Replace(filePath, ".ogg", ".wav")
    else filePath
  }

  /** The name under which the segment with the given index (and every trial
      for it) is exported. */
  function SegmentPath(wavPath: string, index: nat): (p: string)
    ensures |p| > |wavPath|
  {
    DropLast(wavPath, 4) + "_segment_" + NatToString(index) + ".wav"
  }

  /** Two indexes share a segment name only when they are equal. */
  lemma SegmentPathInjective(wavPath: string, i: nat, j: nat)
    requires SegmentPath(wavPath, i) == SegmentPath(wavPath, j)
    ensures i == j
  {
    var pre := DropLast(wavPath, 4) + "_segment_";
    var p, q := SegmentPath(wavPath, i), SegmentPath(wavPath, j);
    assert p == pre + NatToString(i) + ".wav";
    assert q == pre + NatToString(j) + ".wav";
    assert p[|pre|..|p| - 4] == NatToString(i);
    assert q[|pre|..|q| - 4] == NatToString(j);
    NatToStringInjective(i, j);
  }

  // ---------------------------------------------------------------------------
  // The candidate segment length

  function Min(a: nat, b: nat): nat {
    if a <= b then a else b
  }

  /** `int(ms * 0.75)`; 0.75 is exact in binary, so this is floor(3 ms / 4). */
  function Shrink(ms: nat): (r: nat)
    ensures r <= ms
    ensures ms > 0 ==> r < ms
  {
    ms * 3 / 4
  }

  /** The lengths the loop can try, from the first to the last. */
  const CANDIDATES: seq<nat> := [120000, 90000, 67500, 50625, 37968, 28476, 21357, 16017, 12012]

  /** The last length tried before the loop gives up. */
  const SMALLEST_CANDIDATE_MS: nat := 12012

  /** A length the loop can try: one of CANDIDATES. */
  predicate IsCandidate(d: int) {
    exists c :: 0 <= c < |CANDIDATES| && CANDIDATES[c] == d
  }

  /** Each entry is the shrink of the one before. */
  predicate ShrinkChain(cs: seq<nat>) {
    forall i :: 0 <= i < |cs| - 1 ==> cs[i + 1] == Shrink(cs[i])
  }

  /** CANDIDATES is the chain of shrinks from the initial length down to the
      floor: it starts at 120000 ms, each entry is the shrink of the one
      before, every entry is at or above the floor and the shrink of the last
      one is below it. */
  lemma CandidatesAreShrinks()
    ensures CANDIDATES[0] == INITIAL_SEGMENT_MS
    ensures ShrinkChain(CANDIDATES)
    ensures forall i :: 0 <= i < |CANDIDATES| ==> SMALLEST_CANDIDATE_MS <= CANDIDATES[i] <= INITIAL_SEGMENT_MS
    ensures CANDIDATES[|CANDIDATES| - 1] == SMALLEST_CANDIDATE_MS
    ensures MIN_SEGMENT_MS <= SMALLEST_CANDIDATE_MS && Shrink(SMALLEST_CANDIDATE_MS) < MIN_SEGMENT_MS
  {
  }

  lemma CandidateBounds(d: int)
    requires IsCandidate(d)
    ensures MIN_SEGMENT_MS <= SMALLEST_CANDIDATE_MS <= d <= INITIAL_SEGMENT_MS
  {
    CandidatesAreShrinks();
  }

  /** Shrinking a candidate either gives the next candidate or falls below
      the floor, and the latter only for the smallest one. */
  lemma ShrinkCandidate(d: nat)
    requires IsCandidate(d)
    ensures Shrink(d) >= MIN_SEGMENT_MS ==> IsCandidate(Shrink(d))
    ensures Shrink(d) < MIN_SEGMENT_MS <==> d == SMALLEST_CANDIDATE_MS
  {
    CandidatesAreShrinks();
    var c :| 0 <= c < |CANDIDATES| && CANDIDATES[c] == d;
    if c < |CANDIDATES| - 1 {
      assert Shrink(d) == CANDIDATES[c + 1];
      assert d != SMALLEST_CANDIDATE_MS by {
        assert forall i :: 0 <= i < |CANDIDATES| - 1 ==> CANDIDATES[i] > SMALLEST_CANDIDATE_MS;
      }
    }
  }

  // ---------------------------------------------------------------------------
  // Segmentation

  /** An exported slice of the audio: the file it was written to, its size,
      and the milliseconds [startMs, endMs) it holds. */
  datatype Segment = Segment(path: string, size: nat, startMs: nat, endMs: nat)

  function Duration(s: Segment): int {
    s.endMs - s.startMs
  }

  /** The outcome of the loop at lines 45-63: the segments, or the segments
      kept before a trial that could not be brought under the ceiling. */
  datatype SplitOutcome =
    | Segmented(segments: seq<Segment>)
    | Unsplittable(accepted: seq<Segment>, rejected: Segment)

  function Kept(o: SplitOutcome): seq<Segment> {
    match o
    case Segmented(s) => s
    case Unsplittable(a, _) => a
  }

  /** The segmentation the loop at lines 45-63 performs from its state: the
      offset `startMs`, the candidate length `segmentMs` and the segments
      kept so far. */
  function SplitFrom(wavPath: string, totalMs: nat, sliceSize: (nat, nat) -> nat,
                     startMs: nat, segmentMs: nat, kept: seq<Segment>): SplitOutcome
    requires segmentMs > 0
    decreases totalMs - startMs, segmentMs
  {
    if startMs >= totalMs then Segmented(kept)
    else
      var endMs := Min(startMs + segmentMs, totalMs);
      var trial := Segment(SegmentPath(wavPath, |kept|), sliceSize(startMs, endMs), startMs, endMs);
      if trial.size > MAX_FILE_SIZE then
        if Shrink(segmentMs) < MIN_SEGMENT_MS then Unsplittable(kept, trial)
        else SplitFrom(wavPath, totalMs, sliceSize, startMs, Shrink(segmentMs), kept)
      else
        SplitFrom(wavPath, totalMs, sliceSize, startMs + segmentMs, segmentMs, kept + [trial])
  }

  /** The segmentation `transcribe_audio` performs. */
  function SplitFromStart(wavPath: string, totalMs: nat, sliceSize: (nat, nat) -> nat): SplitOutcome
  {
    SplitFrom(wavPath, totalMs, sliceSize, 0, INITIAL_SEGMENT_MS, [])
  }

  /** One step of the loop, for a trial over the ceiling that can still
      shrink: the same offset is tried again with the shorter length. */
  lemma SplitShrinkStep(wavPath: string, totalMs: nat, sliceSize: (nat, nat) -> nat,
                        startMs: nat, segmentMs: nat, kept: seq<Segment>)
    requires 0 < segmentMs && startMs < totalMs
    requires sliceSize(startMs, Min(startMs + segmentMs, totalMs)) > MAX_FILE_SIZE
    requires Shrink(segmentMs) >= MIN_SEGMENT_MS
    ensures SplitFrom(wavPath, totalMs, sliceSize, startMs, segmentMs, kept)
         == SplitFrom(wavPath, totalMs, sliceSize, startMs, Shrink(segmentMs), kept)
  {
  }

  /** One step of the loop, for a trial over the ceiling that cannot shrink
      any more: the loop gives up on that trial. */
  lemma SplitGiveUpStep(wavPath: string, totalMs: nat, sliceSize: (nat, nat) -> nat,
                        startMs: nat, segmentMs: nat, kept: seq<Segment>)
    requires 0 < segmentMs && startMs < totalMs
    requires sliceSize(startMs, Min(startMs + segmentMs, totalMs)) > MAX_FILE_SIZE
    requires Shrink(segmentMs) < MIN_SEGMENT_MS
    ensures SplitFrom(wavPath, totalMs, sliceSize, startMs, segmentMs, kept)
         == Unsplittable(kept, Segment(SegmentPath(wavPath, |kept|), sliceSize(startMs, Min(startMs + segmentMs, totalMs)),
                                       startMs, Min(startMs + segmentMs, totalMs)))
  {
  }

  /** One step of the loop, for a trial at or under the ceiling: it is kept
      and the loop moves on by the candidate length. */
  lemma SplitAcceptStep(wavPath: string, totalMs: nat, sliceSize: (nat, nat) -> nat,
                        startMs: nat, segmentMs: nat, kept: seq<Segment>, trial: Segment)
    requires 0 < segmentMs && startMs < totalMs
    requires trial == Segment(SegmentPath(wavPath, |kept|), sliceSize(startMs, Min(startMs + segmentMs, totalMs)),
                              startMs, Min(startMs + segmentMs, totalMs))
    requires trial.size <= MAX_FILE_SIZE
    ensures SplitFrom(wavPath, totalMs, sliceSize, startMs, segmentMs, kept)
         == SplitFrom(wavPath, totalMs, sliceSize, startMs + segmentMs, segmentMs, kept + [trial])
  {
  }

  /** The segments kept so far are never dropped or changed. */
  lemma {:induction false} SplitExtends(wavPath: string, totalMs: nat, sliceSize: (nat, nat) -> nat,
                                        startMs: nat, segmentMs: nat, kept: seq<Segment>)
    requires segmentMs > 0
    ensures kept <= Kept(SplitFrom(wavPath, totalMs, sliceSize, startMs, segmentMs, kept))
    decreases totalMs - startMs, segmentMs
  {
    var o := SplitFrom(wavPath, totalMs, sliceSize, startMs, segmentMs, kept);
    if startMs < totalMs {
      var endMs := Min(startMs + segmentMs, totalMs);
      var trial := Segment(SegmentPath(wavPath, |kept|), sliceSize(startMs, endMs), startMs, endMs);
      if trial.size > MAX_FILE_SIZE {
        if Shrink(segmentMs) >= MIN_SEGMENT_MS {
          SplitShrinkStep(wavPath, totalMs, sliceSize, startMs, segmentMs, kept);
          SplitExtends(wavPath, totalMs, sliceSize, startMs, Shrink(segmentMs), kept);
        }
      } else {
        SplitAcceptStep(wavPath, totalMs, sliceSize, startMs, segmentMs, kept, trial);
        SplitExtends(wavPath, totalMs, sliceSize, startMs + segmentMs, segmentMs, kept + [trial]);
      }
    }
  }

  /** Segment i is named as segment number i. */
  predicate NamedInOrder(wavPath: string, segs: seq<Segment>) {
    forall i :: 0 <= i < |segs| ==> segs[i].path == SegmentPath(wavPath, i)
  }

  lemma NamedStep(wavPath: string, kept: seq<Segment>, trial: Segment)
    requires NamedInOrder(wavPath, kept) && trial.path == SegmentPath(wavPath, |kept|)
    ensures NamedInOrder(wavPath, kept + [trial])
  {
    var more := kept + [trial];
    forall i | 0 <= i < |more|
      ensures more[i].path == SegmentPath(wavPath, i)
    {
      if i < |kept| {
        assert more[i] == kept[i];
      }
    }
  }

  /** Segment i is exported as segment number i; the trial that fails is
      exported under the name of the segment it would have become. */
  lemma {:induction false} SplitNamed(wavPath: string, totalMs: nat, sliceSize: (nat, nat) -> nat,
                                      startMs: nat, segmentMs: nat, kept: seq<Segment>)
    requires segmentMs > 0 && NamedInOrder(wavPath, kept)
    ensures var o := SplitFrom(wavPath, totalMs, sliceSize, startMs, segmentMs, kept);
      NamedInOrder(wavPath, Kept(o)) &&
      (o.Unsplittable? ==> o.rejected.path == SegmentPath(wavPath, |Kept(o)|))
    decreases totalMs - startMs, segmentMs
  {
    if startMs < totalMs {
      var endMs := Min(startMs + segmentMs, totalMs);
      var trial := Segment(SegmentPath(wavPath, |kept|), sliceSize(startMs, endMs), startMs, endMs);
      if trial.size > MAX_FILE_SIZE {
        if Shrink(segmentMs) >= MIN_SEGMENT_MS {
          SplitShrinkStep(wavPath, totalMs, sliceSize, startMs, segmentMs, kept);
          SplitNamed(wavPath, totalMs, sliceSize, startMs, Shrink(segmentMs), kept);
        }
      } else {
        NamedStep(wavPath, kept, trial);
        SplitAcceptStep(wavPath, totalMs, sliceSize, startMs, segmentMs, kept, trial);
        SplitNamed(wavPath, totalMs, sliceSize, startMs + segmentMs, segmentMs, kept + [trial]);
      }
    }
  }

  /** Every segment is what exporting its slice yields and is at or under
      the ceiling; the failing trial is over it. */
  lemma {:induction false} SplitUnderCeiling(wavPath: string, totalMs: nat, sliceSize: (nat, nat) -> nat,
                                             startMs: nat, segmentMs: nat, kept: seq<Segment>)
    requires segmentMs > 0
    requires forall i :: 0 <= i < |kept| ==>
      kept[i].size == sliceSize(kept[i].startMs, kept[i].endMs) && kept[i].size <= MAX_FILE_SIZE
    ensures var o := SplitFrom(wavPath, totalMs, sliceSize, startMs, segmentMs, kept);
      (forall i :: 0 <= i < |Kept(o)| ==>
         Kept(o)[i].size == sliceSize(Kept(o)[i].startMs, Kept(o)[i].endMs) &&
         Kept(o)[i].size <= MAX_FILE_SIZE) &&
      (o.Unsplittable? ==>
         o.rejected.size == sliceSize(o.rejected.startMs, o.rejected.endMs) &&
         o.rejected.size > MAX_FILE_SIZE)
    decreases totalMs - startMs, segmentMs
  {
    if startMs < totalMs {
      var endMs := Min(startMs + segmentMs, totalMs);
      var trial := Segment(SegmentPath(wavPath, |kept|), sliceSize(startMs, endMs), startMs, endMs);
      if trial.size > MAX_FILE_SIZE {
        if Shrink(segmentMs) >= MIN_SEGMENT_MS {
          SplitShrinkStep(wavPath, totalMs, sliceSize, startMs, segmentMs, kept);
          SplitUnderCeiling(wavPath, totalMs, sliceSize, startMs, Shrink(segmentMs), kept);
        }
      } else {
        SplitAcceptStep(wavPath, totalMs, sliceSize, startMs, segmentMs, kept, trial);
        SplitUnderCeiling(wavPath, totalMs, sliceSize, startMs + segmentMs, segmentMs, kept + [trial]);
      }
    }
  }

  /** Where the kept segments end: the offset the loop resumes from. */
  function ResumeMs(segs: seq<Segment>, startMs: nat): nat {
    if |segs| == 0 then startMs else segs[|segs| - 1].endMs
  }

  /** Non-empty segments laid back to back from `startMs`, each ending where
      the next begins, none past `totalMs`. */
  predicate Contiguous(segs: seq<Segment>, startMs: nat, totalMs: nat) {
    (|segs| > 0 ==> segs[0].startMs == startMs) &&
    (forall i :: 0 <= i < |segs| ==> segs[i].startMs < segs[i].endMs <= totalMs) &&
    (forall i :: 0 <= i < |segs| - 1 ==> segs[i].endMs == segs[i + 1].startMs)
  }

  /** Keeping the trial cut at `startMs` extends the contiguous run. */
  lemma ContiguousStep(kept: seq<Segment>, trial: Segment, startMs: nat, segmentMs: nat, totalMs: nat)
    requires Contiguous(kept, 0, totalMs) && ResumeMs(kept, 0) == Min(startMs, totalMs)
    requires 0 < segmentMs && startMs < totalMs
    requires trial.startMs == startMs && trial.endMs == Min(startMs + segmentMs, totalMs)
    ensures Contiguous(kept + [trial], 0, totalMs)
    ensures ResumeMs(kept + [trial], 0) == Min(startMs + segmentMs, totalMs)
  {
    var more := kept + [trial];
    assert forall i :: 0 <= i < |kept| ==> more[i] == kept[i];
  }

  /** The segments are contiguous from 0; a completed segmentation ends
      exactly at `totalMs`; the failing trial starts where the segments end. */
  lemma {:induction false} SplitContiguous(wavPath: string, totalMs: nat, sliceSize: (nat, nat) -> nat,
                                           startMs: nat, segmentMs: nat, kept: seq<Segment>)
    requires segmentMs > 0
    requires Contiguous(kept, 0, totalMs) && ResumeMs(kept, 0) == Min(startMs, totalMs)
    ensures var o := SplitFrom(wavPath, totalMs, sliceSize, startMs, segmentMs, kept);
      Contiguous(Kept(o), 0, totalMs) &&
      (o.Segmented? ==> ResumeMs(Kept(o), 0) == totalMs) &&
      (o.Unsplittable? ==>
         o.rejected.startMs == ResumeMs(Kept(o), 0) && o.rejected.startMs < o.rejected.endMs <= totalMs)
    decreases totalMs - startMs, segmentMs
  {
    if startMs < totalMs {
      var endMs := Min(startMs + segmentMs, totalMs);
      var trial := Segment(SegmentPath(wavPath, |kept|), sliceSize(startMs, endMs), startMs, endMs);
      if trial.size > MAX_FILE_SIZE {
        if Shrink(segmentMs) >= MIN_SEGMENT_MS {
          SplitShrinkStep(wavPath, totalMs, sliceSize, startMs, segmentMs, kept);
          SplitContiguous(wavPath, totalMs, sliceSize, startMs, Shrink(segmentMs), kept);
        }
      } else {
        ContiguousStep(kept, trial, startMs, segmentMs, totalMs);
        SplitAcceptStep(wavPath, totalMs, sliceSize, startMs, segmentMs, kept, trial);
        SplitContiguous(wavPath, totalMs, sliceSize, startMs + segmentMs, segmentMs, kept + [trial]);
      }
    }
  }

  /** The lengths of a sequence of segments as the loop cuts them: none
      longer than the initial length, every one but the last exactly a
      candidate long, and never increasing. */
  predicate DurationsShape(segs: seq<Segment>) {
    (forall i :: 0 <= i < |segs| ==> Duration(segs[i]) <= INITIAL_SEGMENT_MS) &&
    (forall i :: 0 <= i < |segs| - 1 ==>
       IsCandidate(Duration(segs[i])) && Duration(segs[i + 1]) <= Duration(segs[i]))
  }

  /** The loop state as far as lengths go: the candidate is one, and while
      the loop goes on the last kept segment is a full candidate long, and no
      shorter than the current candidate. */
  predicate DurationsState(kept: seq<Segment>, startMs: nat, segmentMs: nat, totalMs: nat) {
    IsCandidate(segmentMs) && segmentMs >= MIN_SEGMENT_MS && DurationsShape(kept) &&
    (|kept| > 0 && startMs < totalMs ==>
       IsCandidate(Duration(kept[|kept| - 1])) && segmentMs <= Duration(kept[|kept| - 1]))
  }

  lemma DurationsShrinkStep(kept: seq<Segment>, startMs: nat, segmentMs: nat, totalMs: nat)
    requires DurationsState(kept, startMs, segmentMs, totalMs) && Shrink(segmentMs) >= MIN_SEGMENT_MS
    ensures DurationsState(kept, startMs, Shrink(segmentMs), totalMs)
  {
    ShrinkCandidate(segmentMs);
  }

  lemma DurationsAcceptStep(kept: seq<Segment>, trial: Segment, startMs: nat, segmentMs: nat, totalMs: nat)
    requires DurationsState(kept, startMs, segmentMs, totalMs) && startMs < totalMs
    requires trial.startMs == startMs && trial.endMs == Min(startMs + segmentMs, totalMs)
    ensures DurationsState(kept + [trial], startMs + segmentMs, segmentMs, totalMs)
  {
    CandidateBounds(segmentMs);
    var more := kept + [trial];
    assert forall i :: 0 <= i < |kept| ==> more[i] == kept[i];
    assert Duration(trial) <= segmentMs;
  }

  /** The segments of a segmentation have the lengths described above. */
  lemma {:induction false} SplitDurations(wavPath: string, totalMs: nat, sliceSize: (nat, nat) -> nat,
                                          startMs: nat, segmentMs: nat, kept: seq<Segment>)
    requires DurationsState(kept, startMs, segmentMs, totalMs)
    ensures DurationsShape(Kept(SplitFrom(wavPath, totalMs, sliceSize, startMs, segmentMs, kept)))
    decreases totalMs - startMs, segmentMs
  {
    if startMs < totalMs {
      var endMs := Min(startMs + segmentMs, totalMs);
      var trial := Segment(SegmentPath(wavPath, |kept|), sliceSize(startMs, endMs), startMs, endMs);
      if trial.size > MAX_FILE_SIZE {
        if Shrink(segmentMs) >= MIN_SEGMENT_MS {
          DurationsShrinkStep(kept, startMs, segmentMs, totalMs);
          SplitShrinkStep(wavPath, totalMs, sliceSize, startMs, segmentMs, kept);
          SplitDurations(wavPath, totalMs, sliceSize, startMs, Shrink(segmentMs), kept);
        }
      } else {
        DurationsAcceptStep(kept, trial, startMs, segmentMs, totalMs);
        SplitAcceptStep(wavPath, totalMs, sliceSize, startMs, segmentMs, kept, trial);
        SplitDurations(wavPath, totalMs, sliceSize, startMs + segmentMs, segmentMs, kept + [trial]);
      }
    }
  }

  /** The trial that fails is the 12012 ms one, or what is left of the
      audio if that is shorter. */
  lemma {:induction false} SplitRejectedLength(wavPath: string, totalMs: nat, sliceSize: (nat, nat) -> nat,
                                               startMs: nat, segmentMs: nat, kept: seq<Segment>)
    requires IsCandidate(segmentMs) && segmentMs > 0
    ensures var o := SplitFrom(wavPath, totalMs, sliceSize, startMs, segmentMs, kept);
      o.Unsplittable? ==> o.rejected.endMs == Min(o.rejected.startMs + SMALLEST_CANDIDATE_MS, totalMs)
    decreases totalMs - startMs, segmentMs
  {
    if startMs < totalMs {
      var endMs := Min(startMs + segmentMs, totalMs);
      var trial := Segment(SegmentPath(wavPath, |kept|), sliceSize(startMs, endMs), startMs, endMs);
      if trial.size > MAX_FILE_SIZE {
        ShrinkCandidate(segmentMs);
        if Shrink(segmentMs) >= MIN_SEGMENT_MS {
          SplitShrinkStep(wavPath, totalMs, sliceSize, startMs, segmentMs, kept);
          SplitRejectedLength(wavPath, totalMs, sliceSize, startMs, Shrink(segmentMs), kept);
        } else {
          SplitGiveUpStep(wavPath, totalMs, sliceSize, startMs, segmentMs, kept);
        }
      } else {
        SplitAcceptStep(wavPath, totalMs, sliceSize, startMs, segmentMs, kept, trial);
        SplitRejectedLength(wavPath, totalMs, sliceSize, startMs + segmentMs, segmentMs, kept + [trial]);
      }
    }
  }

  /** Every segment `transcribe_audio` keeps is at or under the ceiling, and
      when it gives up, the trial it gave up on is over it. */
  lemma SegmentSizes(wavPath: string, totalMs: nat, sliceSize: (nat, nat) -> nat)
    ensures var o := SplitFromStart(wavPath, totalMs, sliceSize);
      (forall i :: 0 <= i < |Kept(o)| ==>
         Kept(o)[i].size == sliceSize(Kept(o)[i].startMs, Kept(o)[i].endMs) &&
         Kept(o)[i].size <= MAX_FILE_SIZE) &&
      (o.Unsplittable? ==> o.rejected.size > MAX_FILE_SIZE)
  {
    SplitUnderCeiling(wavPath, totalMs, sliceSize, 0, INITIAL_SEGMENT_MS, []);
  }

  /** The lengths of the segments `transcribe_audio` cuts: all but the last
      are a candidate long and they never grow; and when it gives up, it
      was on a 12012 ms trial, or on what was left of the audio if shorter. */
  lemma SegmentLengths(wavPath: string, totalMs: nat, sliceSize: (nat, nat) -> nat)
    ensures var o := SplitFromStart(wavPath, totalMs, sliceSize);
      DurationsShape(Kept(o)) &&
      (o.Unsplittable? ==> o.rejected.endMs == Min(o.rejected.startMs + SMALLEST_CANDIDATE_MS, totalMs))
  {
    InitialDurationsState(totalMs);
    SplitDurations(wavPath, totalMs, sliceSize, 0, INITIAL_SEGMENT_MS, []);
    SplitRejectedLength(wavPath, totalMs, sliceSize, 0, INITIAL_SEGMENT_MS, []);
  }

  /** The split loop starts in a state that `DurationsState` accepts. */
  lemma InitialDurationsState(totalMs: nat)
    ensures IsCandidate(INITIAL_SEGMENT_MS)
    ensures DurationsState([], 0, INITIAL_SEGMENT_MS, totalMs)
  {
    assert CANDIDATES[0] == INITIAL_SEGMENT_MS;
  }

  /** `t` falls within segment `s`. */
  predicate Covers(s: Segment, t: nat) {
    s.startMs <= t < s.endMs
  }

  /** Contiguous segments never overlap: an earlier one ends before a later
      one begins. */
  lemma {:induction false} ContiguousOrdered(segs: seq<Segment>, startMs: nat, totalMs: nat, i: nat, j: nat)
    requires Contiguous(segs, startMs, totalMs) && i < j < |segs|
    ensures segs[i].endMs <= segs[j].startMs
    decreases j - i
  {
    if i + 1 < j {
      ContiguousOrdered(segs, startMs, totalMs, i + 1, j);
    }
  }

  /** Contiguous segments cover every millisecond from `startMs` to where the
      last one ends exactly once. */
  lemma {:induction false} ContiguousCoverOnce(segs: seq<Segment>, startMs: nat, totalMs: nat, t: nat)
    requires Contiguous(segs, startMs, totalMs) && startMs <= t < ResumeMs(segs, startMs)
    ensures exists i :: 0 <= i < |segs| && Covers(segs[i], t)
    ensures forall i, j :: 0 <= i < |segs| && 0 <= j < |segs| && Covers(segs[i], t) && Covers(segs[j], t) ==> i == j
    decreases |segs|
  {
    var n := |segs|;
    if t >= segs[n - 1].startMs {
      assert Covers(segs[n - 1], t);
    } else {
      var init := segs[..n - 1];
      assert Contiguous(init, startMs, totalMs);
      assert n > 1;
      assert ResumeMs(init, startMs) == segs[n - 1].startMs;
      ContiguousCoverOnce(init, startMs, totalMs, t);
      var i :| 0 <= i < |init| && Covers(init[i], t);
      assert Covers(segs[i], t);
    }
    forall i, j | 0 <= i < n && 0 <= j < n && Covers(segs[i], t) && Covers(segs[j], t)
      ensures i == j
    {
      if i < j {
        ContiguousOrdered(segs, startMs, totalMs, i, j);
      } else if j < i {
        ContiguousOrdered(segs, startMs, totalMs, j, i);
      }
    }
  }

  /** A completed segmentation covers [0, totalMs) exactly once. */
  lemma SplitCoversAudio(wavPath: string, totalMs: nat, sliceSize: (nat, nat) -> nat, t: nat)
    requires SplitFromStart(wavPath, totalMs, sliceSize).Segmented? && t < totalMs
    ensures var segs := SplitFromStart(wavPath, totalMs, sliceSize).segments;
      (exists i :: 0 <= i < |segs| && Covers(segs[i], t)) &&
      (forall i, j :: 0 <= i < |segs| && 0 <= j < |segs| && Covers(segs[i], t) && Covers(segs[j], t) ==> i == j)
  {
    SplitContiguous(wavPath, totalMs, sliceSize, 0, INITIAL_SEGMENT_MS, []);
    var segs := SplitFromStart(wavPath, totalMs, sliceSize).segments;
    ContiguousCoverOnce(segs, 0, totalMs, t);
  }

  // ---------------------------------------------------------------------------
  // Files written while segmenting

  /** The files after the segments have been exported in order. */
  function Written(fs: FileSystem, segs: seq<Segment>): FileSystem
    decreases |segs|
  {
    if segs == [] then fs
    else Written(fs, segs[..|segs| - 1])[segs[|segs| - 1].path := segs[|segs| - 1].size]
  }

  /** The files after segmenting: every kept segment written, and the failing
      trial, if any, removed again. */
  function SplitFiles(fs: FileSystem, o: SplitOutcome): FileSystem {
    match o
    case Segmented(segs) => Written(fs, segs)
    case Unsplittable(acc, rej) => Written(fs, acc) - {rej.path}
  }

  function PathSet(segs: seq<Segment>): set<string> {
    set s | s in segs :: s.path
  }

  lemma PathSetAppend(segs: seq<Segment>, s: Segment)
    ensures PathSet(segs + [s]) == PathSet(segs) + {s.path}
  {
    assert forall x :: x in segs + [s] <==> x in segs || x == s;
  }

  /** Exporting leaves every other path as it was. */
  lemma {:induction false} WrittenOther(fs: FileSystem, segs: seq<Segment>, p: string)
    requires p !in PathSet(segs)
    ensures (p in Written(fs, segs)) == (p in fs)
    ensures p in fs ==> Written(fs, segs)[p] == fs[p]
    decreases |segs|
  {
    if segs != [] {
      var init := segs[..|segs| - 1];
      assert segs == init + [segs[|segs| - 1]];
      PathSetAppend(init, segs[|segs| - 1]);
      WrittenOther(fs, init, p);
    }
  }

  /** Every exported segment exists afterwards. */
  lemma {:induction false} WrittenHas(fs: FileSystem, segs: seq<Segment>)
    ensures PathSet(segs) <= Written(fs, segs).Keys
    decreases |segs|
  {
    if segs != [] {
      var init := segs[..|segs| - 1];
      assert segs == init + [segs[|segs| - 1]];
      PathSetAppend(init, segs[|segs| - 1]);
      WrittenHas(fs, init);
    }
  }

  /** Exporting segments and then removing them all leaves the files as they
      were, less any file that happened to have a segment's name. */
  lemma {:induction false} WrittenThenRemoved(fs: FileSystem, segs: seq<Segment>)
    ensures Written(fs, segs) - PathSet(segs) == fs - PathSet(segs)
    decreases |segs|
  {
    if segs != [] {
      var init := segs[..|segs| - 1];
      var last := segs[|segs| - 1];
      assert segs == init + [last];
      PathSetAppend(init, last);
      WrittenThenRemoved(fs, init);
      assert Written(fs, segs) - PathSet(segs) == (Written(fs, init) - PathSet(init)) - {last.path};
    }
  }

  /** When splitting gives up, the kept segments' files are still on disk. */
  lemma UnsplittableLeavesSegments(wavPath: string, totalMs: nat, sliceSize: (nat, nat) -> nat, fs: FileSystem)
    requires SplitFromStart(wavPath, totalMs, sliceSize).Unsplittable?
    ensures var o := SplitFromStart(wavPath, totalMs, sliceSize);
      PathSet(o.accepted) <= SplitFiles(fs, o).Keys && o.rejected.path !in SplitFiles(fs, o)
  {
    var o := SplitFromStart(wavPath, totalMs, sliceSize);
    SplitNamed(wavPath, totalMs, sliceSize, 0, INITIAL_SEGMENT_MS, []);
    WrittenHas(fs, o.accepted);
    forall s | s in o.accepted
      ensures s.path != o.rejected.path
    {
      var i :| 0 <= i < |o.accepted| && o.accepted[i] == s;
      if s.path == o.rejected.path {
        SegmentPathInjective(wavPath, i, |o.accepted|);
      }
    }
  }

  lemma UpdateThenRemove(m: FileSystem, p: string, v: nat)
    ensures m[p := v] - {p} == m - {p}
  {
  }

  lemma RemoveThenUpdate(m: FileSystem, p: string, v: nat)
    ensures (m - {p})[p := v] == m[p := v]
  {
  }

  /** The loop at lines 40-63. */
  method SplitAudio(wavPath: string, totalMs: nat, sliceSize: (nat, nat) -> nat, fs0: FileSystem)
    returns (outcome: SplitOutcome, fs: FileSystem)
    ensures outcome == SplitFromStart(wavPath, totalMs, sliceSize)
    ensures fs == SplitFiles(fs0, outcome)
  {
    var segmentMs: nat := INITIAL_SEGMENT_MS;
    var segments: seq<Segment> := [];
    var startMs: nat := 0;
    fs := fs0;
    ghost var trialRemoved := false;
    while startMs < totalMs
      invariant segmentMs >= MIN_SEGMENT_MS
      invariant SplitFrom(wavPath, totalMs, sliceSize, startMs, segmentMs, segments)
        == SplitFromStart(wavPath, totalMs, sliceSize)
      invariant fs == if trialRemoved then Written(fs0, segments) - {SegmentPath(wavPath, |segments|)}
                      else Written(fs0, segments)
      invariant trialRemoved ==> startMs < totalMs
      decreases totalMs - startMs, segmentMs
    {
      ghost var written := Written(fs0, segments);
      var endMs := Min(startMs + segmentMs, totalMs);
      var segmentPath := SegmentPath(wavPath, |segments|);
      var exported := sliceSize(startMs, endMs);
      if trialRemoved {
        RemoveThenUpdate(written, segmentPath, exported);
      }
      fs := fs[segmentPath := exported];                     // segment.export
      var segmentSize := fs[segmentPath];                    // os.path.getsize
      if segmentSize > MAX_FILE_SIZE {
        fs := fs - {segmentPath};                            // os.remove
        UpdateThenRemove(written, segmentPath, segmentSize);
        var shrunk := Shrink(segmentMs);
        if shrunk < MIN_SEGMENT_MS {
          outcome := Unsplittable(segments, Segment(segmentPath, segmentSize, startMs, endMs));
          return;
        }
        segmentMs := shrunk;
        trialRemoved := true;
        continue;
      }
      var segment := Segment(segmentPath, segmentSize, startMs, endMs);
      assert (segments + [segment])[..|segments|] == segments;
      segments := segments + [segment];
      startMs := startMs + segmentMs;
      trialRemoved := false;
    }
    outcome := Segmented(segments);
  }

  // ---------------------------------------------------------------------------
  // Transcribing the segments

  function Paths(segs: seq<Segment>): (ps: seq<string>)
    ensures |ps| == |segs|
  {
    seq(|segs|, i requires 0 <= i < |segs| => segs[i].path)
  }

  /** What `transcribe_segment` returns for each segment, in order. */
  function Texts(segs: seq<Segment>, whisper: string -> Reply): (ts: seq<string>)
    ensures |ts| == |segs|
  {
    seq(|segs|, i requires 0 <= i < |segs| => SegmentText(whisper(segs[i].path)))
  }

  /** The index of the first text the check at line 69 rejects, or the number
      of texts when it rejects none. */
  function FirstFailure(texts: seq<string>): (k: nat)
    ensures k <= |texts|
    ensures forall i :: 0 <= i < k ==> !LooksLikeError(texts[i])
    ensures k < |texts| ==> LooksLikeError(texts[k])
  {
    if texts == [] then 0
    else if LooksLikeError(texts[0]) then 0
    else 1 + FirstFailure(texts[1..])
  }

  lemma TakeOneMore<T>(s: seq<T>, i: nat)
    requires i < |s|
    ensures s[..i + 1] == s[..i] + [s[i]]
  {
  }

  /** Scanning the texts in order: the text at a position no later than the
      first failure is that failure exactly when it looks like an error. */
  lemma FirstFailureStep(texts: seq<string>, i: nat)
    requires i <= FirstFailure(texts) && i < |texts|
    ensures LooksLikeError(texts[i]) ==> i == FirstFailure(texts)
    ensures !LooksLikeError(texts[i]) ==> i < FirstFailure(texts)
  {
  }

  /** Removing the files of the segments in order: the next one is still
      there when its turn comes. */
  lemma RemoveNext(fs0: FileSystem, segments: seq<Segment>, i: nat)
    requires PathSet(segments) <= fs0.Keys
    requires forall i, j :: 0 <= i < j < |segments| ==> segments[i].path != segments[j].path
    requires i < |segments|
    ensures segments[i].path in fs0 - PathSet(segments[..i])
    ensures (fs0 - PathSet(segments[..i])) - {segments[i].path} == fs0 - PathSet(segments[..i + 1])
  {
    assert segments[..i + 1] == segments[..i] + [segments[i]];
    PathSetAppend(segments[..i], segments[i]);
    assert segments[i] in segments;
    forall s | s in segments[..i]
      ensures s.path != segments[i].path
    {
      var j :| 0 <= j < i && segments[..i][j] == s;
    }
  }

  /** The loop at lines 66-75: each segment is transcribed in order and its
      file removed; the first text that looks like an error is returned as it
      is, the later segments are not sent, and their files stay. */
  method TranscribeSegments(segments: seq<Segment>, whisper: string -> Reply, fs0: FileSystem)
    returns (failed: bool, result: string, fs: FileSystem, calls: seq<string>)
    requires PathSet(segments) <= fs0.Keys
    requires forall i, j :: 0 <= i < j < |segments| ==> segments[i].path != segments[j].path
    ensures var texts := Texts(segments, whisper); var k := FirstFailure(texts);
      && failed == (k < |segments|)
      && (failed ==> result == texts[k] && calls == Paths(segments)[..k + 1])
      && (!failed ==> result == JoinSpace(texts) && calls == Paths(segments))
      && fs == fs0 - PathSet(segments[..k])
  {
    ghost var texts := Texts(segments, whisper);
    var transcripts: seq<string> := [];
    fs := fs0;
    calls := [];
    var i := 0;
    while i < |segments|
      invariant i <= FirstFailure(texts) && i <= |segments|
      invariant transcripts == texts[..i]
      invariant calls == Paths(segments)[..i]
      invariant fs == fs0 - PathSet(segments[..i])
    {
      var segment := segments[i];
      var transcript := SegmentText(whisper(segment.path));
      assert transcript == texts[i];
      TakeOneMore(Paths(segments), i);
      calls := calls + [segment.path];
      FirstFailureStep(texts, i);
      if LooksLikeError(transcript) {
        return true, transcript, fs, calls;
      }
      TakeOneMore(texts, i);
      transcripts := transcripts + [transcript];
      // The file is still there, so os.remove does not raise.
      RemoveNext(fs0, segments, i);
      fs := fs - {segment.path};
      i := i + 1;
    }
    assert transcripts == texts;
    assert segments[..i] == segments;
    return false, JoinSpace(transcripts), fs, calls;
  }

  // ---------------------------------------------------------------------------
  // The whole pipeline

  /** The files once an .ogg upload has been converted: its WAV is written
      next to it. */
  function Converted(filePath: string, fs: FileSystem, media: Media): FileSystem {
    if EndsWith(filePath, ".ogg") then fs[ConvertedPath(filePath) := media.wavSize] else fs
  }

  /** Lines 80-82: a path ending in ".wav" is removed if it exists. */
  function Cleanup(fs: FileSystem, path: string): (r: FileSystem)
    ensures EndsWith(path, ".wav") ==> r == fs - {path}
    ensures !EndsWith(path, ".wav") ==> r == fs
  {
    if EndsWith(path, ".wav") && path in fs then fs - {path} else fs
  }

  /** Every file a segmentation writes has a longer name than the WAV it
      cuts, so the WAV and the upload are never among them. */
  lemma SegmentNamesLonger(wavPath: string, totalMs: nat, sliceSize: (nat, nat) -> nat)
    ensures var o := SplitFromStart(wavPath, totalMs, sliceSize);
      (forall s :: s in Kept(o) ==> |s.path| > |wavPath|) &&
      (o.Unsplittable? ==> |o.rejected.path| > |wavPath|)
  {
    var o := SplitFromStart(wavPath, totalMs, sliceSize);
    SplitNamed(wavPath, totalMs, sliceSize, 0, INITIAL_SEGMENT_MS, []);
    forall s | s in Kept(o)
      ensures |s.path| > |wavPath|
    {
      var i :| 0 <= i < |Kept(o)| && Kept(o)[i] == s;
    }
  }

  /** Two file systems agree on the path `p`. */
  predicate SameAt(a: FileSystem, b: FileSystem, p: string) {
    (p in a <==> p in b) && (p in a ==> a[p] == b[p])
  }

  /** A file whose name is no longer than the WAV's keeps its state through
      a segmentation. */
  lemma SplitKeepsShortName(wavPath: string, totalMs: nat, sliceSize: (nat, nat) -> nat, fs1: FileSystem, p: string)
    requires |p| <= |wavPath|
    ensures SameAt(SplitFiles(fs1, SplitFromStart(wavPath, totalMs, sliceSize)), fs1, p)
  {
    var o := SplitFromStart(wavPath, totalMs, sliceSize);
    SegmentNamesLonger(wavPath, totalMs, sliceSize);
    assert p !in PathSet(Kept(o));
    WrittenOther(fs1, Kept(o), p);
  }

  /** Names of at most `n` characters are not among the names of the
      first `k` segments when every segment name is longer. */
  lemma PrefixNamesLonger(segs: seq<Segment>, k: nat, n: nat)
    requires k <= |segs| && forall s :: s in segs ==> |s.path| > n
    ensures forall q :: q in PathSet(segs[..k]) ==> |q| > n
  {
    forall q | q in PathSet(segs[..k])
      ensures |q| > n
    {
      var s :| s in segs[..k] && s.path == q;
      var i :| 0 <= i < k && segs[..k][i] == s;
      assert s == segs[i];
    }
  }

  /** Segment names are pairwise distinct. */
  lemma SegmentNamesDistinct(wavPath: string, totalMs: nat, sliceSize: (nat, nat) -> nat)
    ensures var segs := Kept(SplitFromStart(wavPath, totalMs, sliceSize));
      forall i, j :: 0 <= i < j < |segs| ==> segs[i].path != segs[j].path
  {
    var segs := Kept(SplitFromStart(wavPath, totalMs, sliceSize));
    SplitNamed(wavPath, totalMs, sliceSize, 0, INITIAL_SEGMENT_MS, []);
    forall i, j | 0 <= i < j < |segs|
      ensures segs[i].path != segs[j].path
    {
      if segs[i].path == segs[j].path {
        SegmentPathInjective(wavPath, i, j);
      }
    }
  }

  /** Where lines 36-75 leave the run: `finished` when it goes on to the
      clean-up at line 80, otherwise it returns `transcript` at once. */
  datatype Stage = Stage(finished: bool, transcript: string, fs: FileSystem, calls: seq<string>)

  /** Lines 36-75, for a WAV over the ceiling: decode it, segment it, and
      transcribe the segments in order until one fails. */
  function Oversize(wavPath: string, fs1: FileSystem, media: Media, whisper: string -> Reply): Stage {
    if media.decodeError.Some? then Stage(false, ERROR_PREFIX + media.decodeError.value, fs1, [])
    else
      var o := SplitFromStart(wavPath, media.totalMs, media.sliceSize);
      match o
      case Unsplittable(_, _) => Stage(false, UNABLE_TO_SPLIT, SplitFiles(fs1, o), [])
      case Segmented(segs) =>
        var texts := Texts(segs, whisper);
        var k := FirstFailure(texts);
        if k < |segs| then
          Stage(false, texts[k], Written(fs1, segs) - PathSet(segs[..k]), Paths(segs)[..k + 1])
        else
          Stage(true, JoinSpace(texts), fs1 - PathSet(segs), Paths(segs))
  }

  /** What a run of `transcribe_audio` returns, the files it leaves and the
      paths it sends to the Whisper endpoint. */
  datatype Run = Run(result: string, fs: FileSystem, calls: seq<string>)

  /** `transcribe_audio(file_path)` as a function of the files on disk and of
      what pydub and the endpoint do. */
  function Pipeline(filePath: string, fs0: FileSystem, media: Media, whisper: string -> Reply): Run {
    if filePath !in fs0 then Run(ERROR_PREFIX + NoSuchFile(filePath), fs0, [])
    else if EndsWith(filePath, ".ogg") && media.decodeError.Some? then
      Run(ERROR_PREFIX + media.decodeError.value, fs0, [])
    else
      var wav, fs1 := ConvertedPath(filePath), Converted(filePath, fs0, media);
      if fs1[wav] <= MAX_FILE_SIZE then Run(SegmentText(whisper(wav)), Cleanup(fs1, wav), [wav])
      else
        var st := Oversize(wav, fs1, media, whisper);
        if st.finished then Run(st.transcript, Cleanup(st.fs, wav), st.calls)
        else Run(st.transcript, st.fs, st.calls)
  }

  /** Whenever lines 36-75 return early, the value returned is taken for a
      failure by the callers. */
  lemma OversizeFailureIsError(wavPath: string, fs1: FileSystem, media: Media, whisper: string -> Reply)
    ensures var st := Oversize(wavPath, fs1, media, whisper);
      !st.finished ==> LooksLikeError(st.transcript)
  {
    if media.decodeError.Some? {
      ErrorPrefixDetected(media.decodeError.value);
    } else if SplitFromStart(wavPath, media.totalMs, media.sliceSize).Unsplittable? {
      ErrorPrefixDetected("Unable to split audio under 20MB");
    }
  }

  /** A file whose name is no longer than the WAV's is left alone by lines
      36-75. */
  lemma OversizeKeepsShortName(wavPath: string, fs1: FileSystem, media: Media, whisper: string -> Reply, p: string)
    requires |p| <= |wavPath|
    ensures SameAt(Oversize(wavPath, fs1, media, whisper).fs, fs1, p)
  {
    var st := Oversize(wavPath, fs1, media, whisper);
    if media.decodeError.None? {
      var o := SplitFromStart(wavPath, media.totalMs, media.sliceSize);
      SplitKeepsShortName(wavPath, media.totalMs, media.sliceSize, fs1, p);
      if o.Segmented? {
        var segs := o.segments;
        var texts := Texts(segs, whisper);
        var k := FirstFailure(texts);
        SegmentNamesLonger(wavPath, media.totalMs, media.sliceSize);
        if k < |segs| {
          PrefixNamesLonger(segs, k, |wavPath|);
          assert p !in PathSet(segs[..k]);
          assert st.fs == Written(fs1, segs) - PathSet(segs[..k]);
        } else {
          assert p !in PathSet(segs);
          assert st.fs == fs1 - PathSet(segs);
        }
      }
    }
  }

  /** When lines 36-75 run to the end, they leave no file that was not
      there before. */
  lemma OversizeFinishedIsClean(wavPath: string, fs1: FileSystem, media: Media, whisper: string -> Reply)
    ensures var st := Oversize(wavPath, fs1, media, whisper);
      st.finished ==> st.fs.Keys <= fs1.Keys
  {
  }

  /** The requests lines 36-75 send are the segments' files, a prefix of
      them in order; the WAV itself is never sent. */
  lemma OversizeCalls(wavPath: string, fs1: FileSystem, media: Media, whisper: string -> Reply)
    ensures var st := Oversize(wavPath, fs1, media, whisper);
      st.calls <= Paths(Kept(SplitFromStart(wavPath, media.totalMs, media.sliceSize))) &&
      forall c :: c in st.calls ==> |c| > |wavPath|
  {
    var st := Oversize(wavPath, fs1, media, whisper);
    var segs := Kept(SplitFromStart(wavPath, media.totalMs, media.sliceSize));
    SegmentNamesLonger(wavPath, media.totalMs, media.sliceSize);
    forall c | c in st.calls
      ensures |c| > |wavPath|
    {
      var i :| 0 <= i < |st.calls| && st.calls[i] == c;
      assert c == Paths(segs)[i] == segs[i].path;
      assert segs[i] in segs;
    }
  }

  /** A file at or under the ceiling is sent whole, in exactly one request,
      and only such a file is: the test at line 36 is strict. */
  lemma PipelineSingleRequest(filePath: string, fs0: FileSystem, media: Media, whisper: string -> Reply)
    requires filePath in fs0 && !(EndsWith(filePath, ".ogg") && media.decodeError.Some?)
    ensures var wav := ConvertedPath(filePath);
      var r := Pipeline(filePath, fs0, media, whisper);
      wav in Converted(filePath, fs0, media) &&
      (Converted(filePath, fs0, media)[wav] <= MAX_FILE_SIZE <==> r.calls == [wav]) &&
      (Converted(filePath, fs0, media)[wav] <= MAX_FILE_SIZE ==> r.result == SegmentText(whisper(wav)))
  {
    var wav, fs1 := ConvertedPath(filePath), Converted(filePath, fs0, media);
    if fs1[wav] > MAX_FILE_SIZE {
      OversizeCalls(wav, fs1, media, whisper);
      var st := Oversize(wav, fs1, media, whisper);
      assert st.calls != [] ==> st.calls[0] in st.calls;
    }
  }

  /** When no segment can be brought under the ceiling, the run returns the
      "Unable to split" message without sending anything, and leaves the WAV
      and the segments kept so far on disk. */
  lemma PipelineUnsplittable(filePath: string, fs0: FileSystem, media: Media, whisper: string -> Reply)
    requires filePath in fs0 && media.decodeError.None?
    requires var wav := ConvertedPath(filePath);
      Converted(filePath, fs0, media)[wav] > MAX_FILE_SIZE &&
      SplitFromStart(wav, media.totalMs, media.sliceSize).Unsplittable?
    ensures var wav := ConvertedPath(filePath);
      var r := Pipeline(filePath, fs0, media, whisper);
      r.result == UNABLE_TO_SPLIT && LooksLikeError(r.result) && r.calls == [] &&
      r.fs == SplitFiles(Converted(filePath, fs0, media), SplitFromStart(wav, media.totalMs, media.sliceSize)) &&
      wav in r.fs && PathSet(SplitFromStart(wav, media.totalMs, media.sliceSize).accepted) <= r.fs.Keys
  {
    var wav, fs1 := ConvertedPath(filePath), Converted(filePath, fs0, media);
    ErrorPrefixDetected("Unable to split audio under 20MB");
    SplitKeepsShortName(wav, media.totalMs, media.sliceSize, fs1, wav);
    UnsplittableLeavesSegments(wav, media.totalMs, media.sliceSize, fs1);
  }

  /** When every segment is transcribed, the run returns their texts joined
      by single spaces in segment order, sends each segment once in order,
      and removes every segment and then the WAV (`Cleanup`). */
  lemma PipelineJoinsSegments(filePath: string, fs0: FileSystem, media: Media, whisper: string -> Reply)
    requires filePath in fs0 && media.decodeError.None?
    requires var wav := ConvertedPath(filePath);
      var o := SplitFromStart(wav, media.totalMs, media.sliceSize);
      Converted(filePath, fs0, media)[wav] > MAX_FILE_SIZE &&
      o.Segmented? && FirstFailure(Texts(o.segments, whisper)) == |o.segments|
    ensures var wav := ConvertedPath(filePath);
      var segs := SplitFromStart(wav, media.totalMs, media.sliceSize).segments;
      var r := Pipeline(filePath, fs0, media, whisper);
      r.result == JoinSpace(Texts(segs, whisper)) && r.calls == Paths(segs) &&
      r.fs == Cleanup(Converted(filePath, fs0, media) - PathSet(segs), wav)
  {
  }

  /** An upload that is not itself a WAV is never removed or overwritten. */
  lemma PipelineKeepsUpload(filePath: string, fs0: FileSystem, media: Media, whisper: string -> Reply)
    requires filePath in fs0 && !EndsWith(filePath, ".wav")
    ensures var r := Pipeline(filePath, fs0, media, whisper);
      filePath in r.fs && r.fs[filePath] == fs0[filePath]
  {
    if !(EndsWith(filePath, ".ogg") && media.decodeError.Some?) {
      var wav, fs1 := ConvertedPath(filePath), Converted(filePath, fs0, media);
      assert filePath in fs1 && fs1[filePath] == fs0[filePath];
      OversizeKeepsShortName(wav, fs1, media, whisper, filePath);
    }
  }

  /** Whenever the caller sees success, no file the run created is left:
      the WAV and every segment are removed. */
  lemma PipelineSuccessIsClean(filePath: string, fs0: FileSystem, media: Media, whisper: string -> Reply)
    requires !LooksLikeError(Pipeline(filePath, fs0, media, whisper).result)
    ensures Pipeline(filePath, fs0, media, whisper).fs.Keys <= fs0.Keys
  {
    if filePath in fs0 && !(EndsWith(filePath, ".ogg") && media.decodeError.Some?) {
      var wav, fs1 := ConvertedPath(filePath), Converted(filePath, fs0, media);
      OversizeFailureIsError(wav, fs1, media, whisper);
      OversizeFinishedIsClean(wav, fs1, media, whisper);
    }
  }

  /** Every early return is an error message the callers recognise, and it
      comes before any request is sent. */
  lemma PipelineEarlyErrors(filePath: string, fs0: FileSystem, media: Media, whisper: string -> Reply)
    requires filePath !in fs0 || (EndsWith(filePath, ".ogg") && media.decodeError.Some?)
    ensures var r := Pipeline(filePath, fs0, media, whisper);
      LooksLikeError(r.result) && StartsWith(r.result, ERROR_PREFIX) && r.fs == fs0 && r.calls == [] &&
      r.result[|ERROR_PREFIX|..] == (if filePath !in fs0 then NoSuchFile(filePath) else media.decodeError.value)
  {
    if filePath !in fs0 {
      ErrorPrefixDetected(NoSuchFile(filePath));
    } else {
      ErrorPrefixDetected(media.decodeError.value);
    }
  }

  /** When a segment fails, the segments after it are never sent, their
      files stay on disk, and so does the WAV. */
  lemma OversizeFailureLeaks(wavPath: string, fs1: FileSystem, media: Media, whisper: string -> Reply)
    requires media.decodeError.None? && wavPath in fs1
    requires SplitFromStart(wavPath, media.totalMs, media.sliceSize).Segmented?
    requires var segs := SplitFromStart(wavPath, media.totalMs, media.sliceSize).segments;
      FirstFailure(Texts(segs, whisper)) < |segs|
    ensures var segs := SplitFromStart(wavPath, media.totalMs, media.sliceSize).segments;
      var k := FirstFailure(Texts(segs, whisper));
      var st := Oversize(wavPath, fs1, media, whisper);
      !st.finished && st.transcript == Texts(segs, whisper)[k] && |st.calls| == k + 1 &&
      PathSet(segs[k..]) <= st.fs.Keys && wavPath in st.fs
  {
    var o := SplitFromStart(wavPath, media.totalMs, media.sliceSize);
    var segs := o.segments;
    var texts := Texts(segs, whisper);
    var k := FirstFailure(texts);
    var rest := Written(fs1, segs) - PathSet(segs[..k]);
    assert Oversize(wavPath, fs1, media, whisper) == Stage(false, texts[k], rest, Paths(segs)[..k + 1]);
    assert segs == Kept(o);
    WrittenHas(fs1, segs);
    SegmentNamesDistinct(wavPath, media.totalMs, media.sliceSize);
    LaterNamesNotEarlier(segs, k);
    assert PathSet(segs[k..]) <= PathSet(segs);
    OversizeKeepsShortName(wavPath, fs1, media, whisper, wavPath);
  }

  /** With distinct names, no segment from index `k` on shares its name with
      one before `k`. */
  lemma LaterNamesNotEarlier(segs: seq<Segment>, k: nat)
    requires k <= |segs|
    requires forall i, j :: 0 <= i < j < |segs| ==> segs[i].path != segs[j].path
    ensures forall s :: s in segs[k..] ==> s.path !in PathSet(segs[..k])
  {
    forall s | s in segs[k..]
      ensures s.path !in PathSet(segs[..k])
    {
      var j :| k <= j < |segs| && segs[j] == s;
      forall t | t in segs[..k]
        ensures t.path != s.path
      {
        var i :| 0 <= i < k && segs[..k][i] == t;
        assert segs[i] == t && i < j;
      }
    }
  }

  /** Lines 36-75. */
  method SplitAndTranscribe(wavPath: string, fs1: FileSystem, media: Media, whisper: string -> Reply)
    returns (finished: bool, transcript: string, fs: FileSystem, calls: seq<string>)
    ensures Stage(finished, transcript, fs, calls) == Oversize(wavPath, fs1, media, whisper)
  {
    if media.decodeError.Some? {                             // AudioSegment.from_wav raises
      return false, ERROR_PREFIX + media.decodeError.value, fs1, [];
    }
    var outcome;
    outcome, fs := SplitAudio(wavPath, media.totalMs, media.sliceSize, fs1);
    if outcome.Unsplittable? {
      return false, UNABLE_TO_SPLIT, fs, [];
    }
    var segments := outcome.segments;
    assert segments == Kept(outcome);
    WrittenHas(fs1, segments);
    SegmentNamesDistinct(wavPath, media.totalMs, media.sliceSize);
    var failed;
    failed, transcript, fs, calls := TranscribeSegments(segments, whisper, fs);
    if !failed {
      assert segments[..|segments|] == segments;
      WrittenThenRemoved(fs1, segments);
    }
    finished := !failed;
  }

  /** Lines 24-32: an .ogg upload is decoded and exported as a WAV next to
      it; any other upload is left as it is. `decoded` is false when pydub
      cannot decode the .ogg upload. */
  method ConvertUpload(filePath: string, fs0: FileSystem, media: Media)
    returns (decoded: bool, path: string, fs: FileSystem)
    ensures decoded == !(EndsWith(filePath, ".ogg") && media.decodeError.Some?)
    ensures !decoded ==> fs == fs0
    ensures decoded ==> path == ConvertedPath(filePath) && fs == Converted(filePath, fs0, media)
  {
    fs := fs0;
    path := filePath;
    if EndsWith(path, ".ogg") {
      if media.decodeError.Some? {                           // AudioSegment.from_ogg raises
        return false, path, fs;
      }
      var wavPath := Replace(path, ".ogg", ".wav");
      fs := fs[wavPath := media.wavSize];                    // audio.export
      path := wavPath;
    }
    decoded := true;
  }

  /** `transcribe_audio(file_path)`. */
  method TranscribeAudio(filePath: string, fs0: FileSystem, media: Media, whisper: string -> Reply)
    returns (result: string, fs: FileSystem, calls: seq<string>)
    ensures Run(result, fs, calls) == Pipeline(filePath, fs0, media, whisper)
  {
    if filePath !in fs0 {                                    // os.path.getsize raises
      return ERROR_PREFIX + NoSuchFile(filePath), fs0, [];
    }
    var decoded, path;
    decoded, path, fs := ConvertUpload(filePath, fs0, media);
    if !decoded {
      return ERROR_PREFIX + media.decodeError.value, fs, [];
    }
    var fileSize := fs[path];                                // os.path.getsize
    var transcript: string;
    if fileSize > MAX_FILE_SIZE {
      var finished;
      finished, transcript, fs, calls := SplitAndTranscribe(path, fs, media, whisper);
      if !finished {
        return transcript, fs, calls;
      }
    } else {
      transcript := SegmentText(whisper(path));              // transcribe_segment
      calls := [path];
    }
    fs := Cleanup(fs, path);                                 // os.path.exists, os.remove
    result := transcript;
  }
}
