/** backend/app/utils/tts_utils.py: the text-to-audiobook pipeline.

    Text is split into segments whose estimated reading time stays under a cap,
    every segment is spoken by the speech engine, the engine's word boundaries
    become word timings, and the per-segment timings are merged into one
    chapter timeline with a silence between consecutive segments.

    Units: times are integers in the engine's 100-nanosecond ticks, so a time
    `t` stands for `t / 10^7` seconds and the one-second silence is 10^7
    ticks.  The speech engine, ffmpeg and the file system are parameters: the
    engine is a function from a text to its event stream (None when it
    raises), and the merge of audio files is a function that says whether
    ffmpeg succeeded for a list of segments. */
module TtsUtils {
  import opened Common
  import opened Strings

  /** `TTSConfig.MAX_MINUTES_PER_SEGMENT` */
  const MaxMinutesPerSegment: real := 8.0

  const TicksPerSecond: nat := 10000000

  /** `TTSConfig.SEGMENT_SILENCE_DURATION` (1.0 s) in ticks. */
  const SegmentSilence: nat := 10000000

  // ---------------------------------------------------------------------------
  // TokenAnalyzer.analyze_text
  // ---------------------------------------------------------------------------

  /** `[一-鿿]` */
  predicate IsChineseChar(c: char) { 0x4E00 <= c as int <= 0x9FFF }

  /** The word characters that decide where `\b` holds: ASCII letters, digits,
      '_', and the ideographs counted as Chinese. */
  predicate IsWordChar(c: char) { IsAsciiLetter(c) || IsDigit(c) || c == '_' || IsChineseChar(c) }

  /** End of the run of ASCII letters that starts at `i`. */
  function RunEnd(s: string, i: nat): (j: nat)
    requires i <= |s|
    ensures i <= j <= |s|
    ensures j == |s| || !IsAsciiLetter(s[j])
    decreases |s| - i
  {
    if i < |s| && IsAsciiLetter(s[i]) then RunEnd(s, i + 1) else i
  }

  /** `\b[a-zA-Z]+\b` matches at `i`: a run of ASCII letters with no word
      character directly before or after it. */
  predicate EnglishWordAt(s: string, i: nat)
    requires i < |s|
  {
    && IsAsciiLetter(s[i])
    && (i == 0 || !IsWordChar(s[i - 1]))
    && (RunEnd(s, i) == |s| || !IsWordChar(s[RunEnd(s, i)]))
  }

  function CountChineseFrom(s: string, i: nat): nat
    requires i <= |s|
    decreases |s| - i
  {
    if i == |s| then 0 else (if IsChineseChar(s[i]) then 1 else 0) + CountChineseFrom(s, i + 1)
  }

  function CountEnglishFrom(s: string, i: nat): nat
    requires i <= |s|
    decreases |s| - i
  {
    if i == |s| then 0 else (if EnglishWordAt(s, i) then 1 else 0) + CountEnglishFrom(s, i + 1)
  }

  /** No position holds both a Chinese character and the start of an English
      word, so together they never outnumber the characters. */
  lemma {:induction false} CountsBounded(s: string, i: nat)
    requires i <= |s|
    ensures CountChineseFrom(s, i) + CountEnglishFrom(s, i) <= |s| - i
    decreases |s| - i
  {
    if i < |s| {
      CountsBounded(s, i + 1);
    }
  }

  datatype Analysis = Analysis(chineseChars: nat, englishWords: nat, totalWords: nat, estimatedMinutes: real)

  /** About 220 Chinese characters or 200 English words per minute.  The
      estimate is the exact rational c/220 + e/200; Python computes it in
      floating point. */
  function AnalyzeText(text: string): (r: Analysis)
    ensures r.totalWords == r.chineseChars + r.englishWords <= |text|
    ensures r.estimatedMinutes >= 0.0
    ensures r.estimatedMinutes == (10 * r.chineseChars + 11 * r.englishWords) as real / 2200.0
  {
    var c := CountChineseFrom(text, 0);
    var e := CountEnglishFrom(text, 0);
    CountsBounded(text, 0);
    Analysis(c, e, c + e, c as real / 220.0 + e as real / 200.0)
  }

  function Minutes(text: string): real
  {
    AnalyzeText(text).estimatedMinutes
  }

  // ---------------------------------------------------------------------------
  // split_text_by_minutes
  // ---------------------------------------------------------------------------

  /** `[p for p in lines if p.strip()]` */
  function KeepNonBlank(lines: seq<string>): (r: seq<string>)
    ensures |r| <= |lines|
    ensures forall k | 0 <= k < |r| :: !IsBlank(r[k]) && r[k] in lines
  {
    if lines == [] then []
    else (if IsBlank(lines[0]) then [] else [lines[0]]) + KeepNonBlank(lines[1..])
  }

  /** The paragraphs of a text: its '\n'-separated lines that are not blank. */
  function Paragraphs(text: string): (r: seq<string>)
    ensures forall k | 0 <= k < |r| :: !IsBlank(r[k]) && '\n' !in r[k]
  {
    SplitCharPieces(text, '\n');
    KeepNonBlank(Split(text, "\n"))
  }

  function SumMinutes(paras: seq<string>): real
  {
    if paras == [] then 0.0 else SumMinutes(paras[..|paras| - 1]) + Minutes(paras[|paras| - 1])
  }

  /** What the greedy packing loop holds after some paragraphs: the finished
      groups, the group being filled and its summed estimate. */
  datatype PackState = PackState(done: seq<seq<string>>, current: seq<string>, currentMinutes: real)

  function Flush(st: PackState): seq<seq<string>>
  {
    if st.current != [] then st.done + [st.current] else st.done
  }

  /** One iteration of the loop over paragraphs. */
  function PackStep(st: PackState, para: string, maxMinutes: real): PackState
  {
    var m := Minutes(para);
    if m > maxMinutes then PackState(Flush(st) + [[para]], [], 0.0)
    else if st.currentMinutes + m <= maxMinutes then PackState(st.done, st.current + [para], st.currentMinutes + m)
    else PackState(Flush(st), [para], m)
  }

  function Pack(paras: seq<string>, maxMinutes: real): PackState
  {
    if paras == [] then PackState([], [], 0.0)
    else PackStep(Pack(paras[..|paras| - 1], maxMinutes), paras[|paras| - 1], maxMinutes)
  }

  /** The paragraph groups that become segments. */
  function Groups(paras: seq<string>, maxMinutes: real): seq<seq<string>>
  {
    Flush(Pack(paras, maxMinutes))
  }

  function JoinParagraphs(group: seq<string>): string
  {
    Join(group, "\n\n")
  }

  function JoinGroups(groups: seq<seq<string>>): (r: seq<string>)
    ensures |r| == |groups| && forall k | 0 <= k < |groups| :: r[k] == JoinParagraphs(groups[k])
  {
    seq(|groups|, k requires 0 <= k < |groups| => JoinParagraphs(groups[k]))
  }

  /** What `split_text_by_minutes(text, maxMinutes)` returns. */
  function SplitSpec(text: string, maxMinutes: real): seq<string>
  {
    if Minutes(text) <= maxMinutes then [text]
    else JoinGroups(Groups(Paragraphs(text), maxMinutes))
  }

  /** A group either fits under the cap or is one paragraph that alone exceeds it. */
  predicate GroupOk(group: seq<string>, maxMinutes: real)
  {
    group != [] && (SumMinutes(group) <= maxMinutes || (|group| == 1 && Minutes(group[0]) > maxMinutes))
  }

  /** What holds of the packing state once `consumed` has been packed. */
  predicate PackOk(st: PackState, consumed: seq<string>, maxMinutes: real)
  {
    && Flatten(st.done) + st.current == consumed
    && (forall k | 0 <= k < |st.done| :: GroupOk(st.done[k], maxMinutes))
    && st.currentMinutes == SumMinutes(st.current)
    && (st.current != [] ==> st.currentMinutes <= maxMinutes)
  }

  lemma FlattenSingle<T>(xs: seq<T>)
    ensures Flatten([xs]) == xs
  {
    assert [xs][..0] == [];
  }

  lemma SumMinutesSingle(para: string)
    ensures SumMinutes([para]) == Minutes(para)
  {
    assert [para][..0] == [];
  }

  /** Flushing the group being filled loses nothing and keeps every group valid. */
  lemma FlushOk(st: PackState, consumed: seq<string>, maxMinutes: real)
    requires PackOk(st, consumed, maxMinutes)
    ensures Flatten(Flush(st)) == consumed
    ensures forall k | 0 <= k < |Flush(st)| :: GroupOk(Flush(st)[k], maxMinutes)
  {
    if st.current != [] {
      FlattenAppend(st.done, [st.current]);
      FlattenSingle(st.current);
    }
  }

  lemma {:induction false} PackStepOk(st: PackState, consumed: seq<string>, para: string, maxMinutes: real)
    requires PackOk(st, consumed, maxMinutes)
    ensures PackOk(PackStep(st, para, maxMinutes), consumed + [para], maxMinutes)
  {
    var m := Minutes(para);
    FlushOk(st, consumed, maxMinutes);
    var flushed := Flush(st);
    if m > maxMinutes {
      FlattenAppend(flushed, [[para]]);
      FlattenSingle([para]);
      SumMinutesSingle(para);
      var next := PackState(flushed + [[para]], [], 0.0);
      assert GroupOk([para], maxMinutes);
      assert forall k | 0 <= k < |next.done| :: GroupOk(next.done[k], maxMinutes) by {
        forall k | 0 <= k < |next.done| ensures GroupOk(next.done[k], maxMinutes) {
          if k < |flushed| {
            assert next.done[k] == flushed[k];
          }
        }
      }
    } else if st.currentMinutes + m <= maxMinutes {
      assert (st.current + [para])[..|st.current|] == st.current;
    } else {
      SumMinutesSingle(para);
    }
  }

  lemma {:induction false} PackInvariant(paras: seq<string>, maxMinutes: real)
    ensures PackOk(Pack(paras, maxMinutes), paras, maxMinutes)
    decreases |paras|
  {
    if paras != [] {
      var n := |paras|;
      var prev, last := paras[..n - 1], paras[n - 1];
      assert prev + [last] == paras;
      PackInvariant(prev, maxMinutes);
      PackStepOk(Pack(prev, maxMinutes), prev, last, maxMinutes);
    }
  }

  lemma GroupsInvariant(paras: seq<string>, maxMinutes: real)
    ensures Flatten(Groups(paras, maxMinutes)) == paras
    ensures forall k | 0 <= k < |Groups(paras, maxMinutes)| :: GroupOk(Groups(paras, maxMinutes)[k], maxMinutes)
  {
    PackInvariant(paras, maxMinutes);
    FlushOk(Pack(paras, maxMinutes), paras, maxMinutes);
  }

  /** Each segment split back on "\n\n". */
  function Unjoin(segments: seq<string>): (r: seq<seq<string>>)
    ensures |r| == |segments| && forall k | 0 <= k < |segments| :: r[k] == Split(segments[k], "\n\n")
  {
    seq(|segments|, k requires 0 <= k < |segments| => Split(segments[k], "\n\n"))
  }

  /** A text whose estimate is over the cap is cut into segments that, split on
      "\n\n", give back its non-blank lines in order; no segment is empty; and
      every segment fits under the cap or is a single over-long paragraph. */
  lemma SplitOverCap(text: string, maxMinutes: real)
    requires Minutes(text) > maxMinutes
    ensures var segs := SplitSpec(text, maxMinutes);
      && Flatten(Unjoin(segs)) == Paragraphs(text)
      && (forall k | 0 <= k < |segs| :: segs[k] != "")
      && (forall k | 0 <= k < |segs| :: GroupOk(Split(segs[k], "\n\n"), maxMinutes))
  {
    var paras := Paragraphs(text);
    var groups := Groups(paras, maxMinutes);
    var segs := SplitSpec(text, maxMinutes);
    assert segs == JoinGroups(groups);
    GroupsInvariant(paras, maxMinutes);
    forall k | 0 <= k < |groups|
      ensures Split(segs[k], "\n\n") == groups[k] && segs[k] != ""
    {
      GroupRoundTrip(groups, paras, k);
    }
    assert Unjoin(segs) == groups;
  }

  /** One group of single-line paragraphs, joined with "\n\n", is not empty
      and splits back into the same paragraphs. */
  lemma GroupRoundTrip(groups: seq<seq<string>>, paras: seq<string>, k: nat)
    requires Flatten(groups) == paras && k < |groups| && groups[k] != []
    requires forall p | 0 <= p < |paras| :: paras[p] != "" && '\n' !in paras[p]
    ensures Split(JoinParagraphs(groups[k]), "\n\n") == groups[k] && JoinParagraphs(groups[k]) != ""
  {
    var g := groups[k];
    forall j | 0 <= j < |g| ensures '\n' !in g[j] {
      FlattenIndex(groups, k, j);
    }
    SplitJoin(g, "\n\n");
    FlattenIndex(groups, k, 0);
    assert |JoinParagraphs(g)| >= |g[0]| by { JoinFirst(g, "\n\n"); }
  }

  lemma PackExtend(paras: seq<string>, i: nat, maxMinutes: real)
    requires i < |paras|
    ensures Pack(paras[..i + 1], maxMinutes) == PackStep(Pack(paras[..i], maxMinutes), paras[i], maxMinutes)
  {
    assert paras[..i + 1][..i] == paras[..i];
  }

  lemma JoinGroupsAppend(groups: seq<seq<string>>, g: seq<string>)
    ensures JoinGroups(groups + [g]) == JoinGroups(groups) + [JoinParagraphs(g)]
  {
  }

  /** `split_text_by_minutes`: returns the whole text when its estimate is under
      the cap, otherwise greedily packs paragraphs into segments. */
  method SplitTextByMinutes(text: string, maxMinutes: real) returns (segments: seq<string>)
    ensures Minutes(text) <= maxMinutes ==> segments == [text]
    ensures segments == SplitSpec(text, maxMinutes)
  {
    var analysis := AnalyzeText(text);
    if analysis.estimatedMinutes <= maxMinutes {
      return [text];
    }
    var paragraphs := Paragraphs(text);
    segments := [];
    var current: seq<string> := [];
    var currentMinutes: real := 0.0;
    ghost var st := PackState([], [], 0.0);
    for i := 0 to |paragraphs|
      invariant st == Pack(paragraphs[..i], maxMinutes)
      invariant st.current == current && st.currentMinutes == currentMinutes
      invariant segments == JoinGroups(st.done)
    {
      var para := paragraphs[i];
      PackExtend(paragraphs, i, maxMinutes);
      ghost var flushed := Flush(st);
      if current != [] {
        JoinGroupsAppend(st.done, current);
      }
      assert JoinGroups(flushed) == segments + (if current != [] then [JoinParagraphs(current)] else []);
      var paraMinutes := AnalyzeText(para).estimatedMinutes;
      if paraMinutes > maxMinutes {
        if current != [] {
          segments := segments + [JoinParagraphs(current)];
          current := [];
          currentMinutes := 0.0;
        }
        JoinGroupsAppend(flushed, [para]);
        assert JoinParagraphs([para]) == para;
        segments := segments + [para];
        st := PackState(flushed + [[para]], [], 0.0);
        continue;
      }
      if currentMinutes + paraMinutes <= maxMinutes {
        current := current + [para];
        currentMinutes := currentMinutes + paraMinutes;
        st := PackState(st.done, current, currentMinutes);
      } else {
        if current != [] {
          segments := segments + [JoinParagraphs(current)];
        }
        current := [para];
        currentMinutes := paraMinutes;
        st := PackState(flushed, current, currentMinutes);
      }
    }
    assert paragraphs[..|paragraphs|] == paragraphs;
    if current != [] {
      JoinGroupsAppend(st.done, current);
      segments := segments + [JoinParagraphs(current)];
    }
  }

  // ---------------------------------------------------------------------------
  // run_edge_tts_with_alignment: word boundaries to word timings
  // ---------------------------------------------------------------------------

  /** One event of the engine's stream; audio bytes go to the MP3 file. */
  datatype StreamChunk = Audio | WordBoundary(text: string, offset: nat, duration: nat) | OtherChunk

  /** A word (or a merged segment item) with start and end in ticks. */
  datatype Timing = Timing(text: string, start: int, end: int)

  /** `start = offset / 10^7 s`, `end = start + duration / 10^7 s`, kept in ticks. */
  function BoundaryTiming(b: StreamChunk): (t: Timing)
    requires b.WordBoundary?
    ensures t.text == b.text && t.start == b.offset && t.end - t.start == b.duration
  {
    Timing(b.text, b.offset, b.offset + b.duration)
  }

  /** The timings of the word-boundary events, in stream order. */
  function BoundaryTimings(chunks: seq<StreamChunk>): (r: seq<Timing>)
    ensures |r| <= |chunks|
  {
    if chunks == [] then []
    else
      var last := chunks[|chunks| - 1];
      BoundaryTimings(chunks[..|chunks| - 1]) + (if last.WordBoundary? then [BoundaryTiming(last)] else [])
  }

  /** Every word timing starts at or after 0 and ends no earlier than it starts. */
  lemma {:induction false} BoundaryTimingsOrdered(chunks: seq<StreamChunk>)
    ensures forall k | 0 <= k < |BoundaryTimings(chunks)| :: 0 <= BoundaryTimings(chunks)[k].start <= BoundaryTimings(chunks)[k].end
    decreases |chunks|
  {
    if chunks != [] {
      BoundaryTimingsOrdered(chunks[..|chunks| - 1]);
    }
  }

  /** The latest end, or 0 when there is none: `last_end_time`. */
  function MaxEnd(ts: seq<Timing>): (m: int)
    ensures m >= 0
  {
    if ts == [] then 0 else Max(MaxEnd(ts[..|ts| - 1]), ts[|ts| - 1].end)
  }

  /** `last_end_time` bounds every end and is one of them unless it is 0. */
  lemma {:induction false} MaxEndSpec(ts: seq<Timing>)
    ensures forall k | 0 <= k < |ts| :: ts[k].end <= MaxEnd(ts)
    ensures MaxEnd(ts) == 0 || exists k | 0 <= k < |ts| :: ts[k].end == MaxEnd(ts)
    decreases |ts|
  {
    if ts != [] {
      var init := ts[..|ts| - 1];
      MaxEndSpec(init);
      assert forall k | 0 <= k < |init| :: ts[k] == init[k];
    }
  }

  datatype TtsResult = TtsResult(success: bool, duration: int, alignment: seq<Timing>)

  /** The engine's outcome for one text: a failure (the engine raised, or is not
      installed) gives `(False, 0.0, [])`. */
  function TtsOutcome(stream: Option<seq<StreamChunk>>): (r: TtsResult)
    ensures !r.success ==> r.duration == 0 && r.alignment == []
    ensures r.success ==> r.duration >= 0 && forall k | 0 <= k < |r.alignment| :: 0 <= r.alignment[k].start <= r.alignment[k].end <= r.duration
    ensures r.success <==> stream.Some?
  {
    if stream.None? then TtsResult(false, 0, [])
    else
      var a := BoundaryTimings(stream.value);
      BoundaryTimingsOrdered(stream.value);
      MaxEndSpec(a);
      TtsResult(true, MaxEnd(a), a)
  }

  /** `run_edge_tts_with_alignment`, with the stream given: collects one timing
      per word boundary and tracks the latest end. */
  method RunEdgeTtsWithAlignment(stream: Option<seq<StreamChunk>>) returns (r: TtsResult)
    ensures r == TtsOutcome(stream)
  {
    if stream.None? {
      return TtsResult(false, 0, []);
    }
    var chunks := stream.value;
    var alignment: seq<Timing> := [];
    var lastEndTime := 0;
    for i := 0 to |chunks|
      invariant alignment == BoundaryTimings(chunks[..i])
      invariant lastEndTime == MaxEnd(alignment)
    {
      var chunk := chunks[i];
      BoundaryStep(chunks, i);
      if chunk.WordBoundary? {
        var startTime := chunk.offset;
        var endTime := startTime + chunk.duration;
        MaxEndSnoc(alignment, Timing(chunk.text, startTime, endTime));
        alignment := alignment + [Timing(chunk.text, startTime, endTime)];
        lastEndTime := Max(lastEndTime, endTime);
      }
    }
    assert chunks[..|chunks|] == chunks;
    return TtsResult(true, lastEndTime, alignment);
  }

  lemma BoundaryStep(chunks: seq<StreamChunk>, i: nat)
    requires i < |chunks|
    ensures BoundaryTimings(chunks[..i + 1]) == BoundaryTimings(chunks[..i])
      + (if chunks[i].WordBoundary? then [Timing(chunks[i].text, chunks[i].offset, chunks[i].offset + chunks[i].duration)] else [])
  {
    var p := chunks[..i + 1];
    assert p[..|p| - 1] == chunks[..i] && p[|p| - 1] == chunks[i];
  }

  lemma MaxEndSnoc(ts: seq<Timing>, t: Timing)
    ensures MaxEnd(ts + [t]) == Max(MaxEnd(ts), t.end)
  {
    var p := ts + [t];
    assert p[..|p| - 1] == ts && p[|p| - 1] == t;
  }

  // ---------------------------------------------------------------------------
  // merge_alignment_data and merge_audio_files_with_silence
  // ---------------------------------------------------------------------------

  /** The offset `time_offset` holds when chunk `i` is shifted: the loop adds
      the chunk's duration, and a silence unless it was the last duration. */
  function ChunkOffset(durations: seq<int>, silence: int, i: nat): int
  {
    if i == 0 then 0
    else
      var k := i - 1;
      ChunkOffset(durations, silence, k)
      + (if k < |durations| then durations[k] + (if k < |durations| - 1 then silence else 0) else 0)
  }

  /** Chunk `i` is shifted by the durations before it plus one silence per
      boundary before it; past the last duration the offset stops growing. */
  lemma {:induction false} ChunkOffsetClosedForm(durations: seq<int>, silence: int, i: nat)
    ensures ChunkOffset(durations, silence, i)
      == Sum(durations[..Min(i, |durations|)]) + Max(0, Min(i, |durations| - 1)) * silence
  {
    if i > 0 {
      var k := i - 1;
      ChunkOffsetClosedForm(durations, silence, k);
      if k < |durations| {
        assert durations[..k + 1][..k] == durations[..k];
        if k < |durations| - 1 {
          assert Max(0, Min(i, |durations| - 1)) * silence == Max(0, Min(k, |durations| - 1)) * silence + silence;
        }
      }
    }
  }

  function Shift(ts: seq<Timing>, offset: int): (r: seq<Timing>)
    ensures |r| == |ts|
    ensures forall k | 0 <= k < |ts| :: r[k] == Timing(ts[k].text, ts[k].start + offset, ts[k].end + offset)
  {
    seq(|ts|, k requires 0 <= k < |ts| => Timing(ts[k].text, ts[k].start + offset, ts[k].end + offset))
  }

  /** Every chunk's timings shifted by its offset, concatenated in order. */
  function MergedAlignment(alignments: seq<seq<Timing>>, durations: seq<int>, silence: int): (r: seq<Timing>)
    ensures |r| == Sum(Lengths(alignments))
  {
    if alignments == [] then []
    else
      var n := |alignments| - 1;
      LengthsPrefix(alignments, n);
      MergedAlignment(alignments[..n], durations, silence) + Shift(alignments[n], ChunkOffset(durations, silence, n))
  }

  /** Item `j` of chunk `i` sits after all items of earlier chunks, keeps its
      text, and is shifted by `ChunkOffset(i)`. */
  lemma {:induction false} MergedAlignmentAt(alignments: seq<seq<Timing>>, durations: seq<int>, silence: int, i: nat, j: nat)
    requires i < |alignments| && j < |alignments[i]|
    ensures 0 <= Sum(Lengths(alignments[..i])) + j < |MergedAlignment(alignments, durations, silence)|
    ensures MergedAlignment(alignments, durations, silence)[Sum(Lengths(alignments[..i])) + j]
      == Timing(alignments[i][j].text, alignments[i][j].start + ChunkOffset(durations, silence, i),
                alignments[i][j].end + ChunkOffset(durations, silence, i))
    decreases |alignments|
  {
    var n := |alignments| - 1;
    var front := MergedAlignment(alignments[..n], durations, silence);
    SumNonNegative(Lengths(alignments[..i]));
    if i == n {
      assert alignments[..n] == alignments[..i];
    } else {
      MergedAlignmentAt(alignments[..n], durations, silence, i, j);
      assert alignments[..n][..i] == alignments[..i];
    }
  }

  /** Every timing lies within [0, bound]. */
  predicate Within(ts: seq<Timing>, bound: int)
  {
    forall k | 0 <= k < |ts| :: 0 <= ts[k].start <= ts[k].end <= bound
  }

  /** Once shifted by `offset`, every timing lies within [0, bound]. */
  predicate ChunkFits(ts: seq<Timing>, offset: int, bound: int)
  {
    forall k | 0 <= k < |ts| :: 0 <= ts[k].start + offset && ts[k].start <= ts[k].end && ts[k].end + offset <= bound
  }

  /** When every chunk fits once shifted, the whole merged timeline does. */
  lemma {:induction false} MergedWithin(alignments: seq<seq<Timing>>, durations: seq<int>, silence: int, bound: int)
    requires forall i | 0 <= i < |alignments| :: ChunkFits(alignments[i], ChunkOffset(durations, silence, i), bound)
    ensures Within(MergedAlignment(alignments, durations, silence), bound)
    decreases |alignments|
  {
    if alignments != [] {
      var n := |alignments| - 1;
      forall i | 0 <= i < n ensures ChunkFits(alignments[..n][i], ChunkOffset(durations, silence, i), bound) {
        assert alignments[..n][i] == alignments[i];
      }
      MergedWithin(alignments[..n], durations, silence, bound);
      var front: seq<Timing> := MergedAlignment(alignments[..n], durations, silence);
      var last: seq<Timing> := Shift(alignments[n], ChunkOffset(durations, silence, n));
      assert ChunkFits(alignments[n], ChunkOffset(durations, silence, n), bound);
      forall k | 0 <= k < |front + last| ensures 0 <= (front + last)[k].start <= (front + last)[k].end <= bound {
        if k >= |front| {
          assert (front + last)[k] == last[k - |front|];
        }
      }
    }
  }

  lemma ShiftExtend(ts: seq<Timing>, j: nat, offset: int)
    requires j < |ts|
    ensures Shift(ts[..j + 1], offset) == Shift(ts[..j], offset) + [Timing(ts[j].text, ts[j].start + offset, ts[j].end + offset)]
  {
    assert ts[..j + 1][j] == ts[j];
  }

  /** Merging one more chunk appends its shifted timings. */
  lemma MergeExtend(alignments: seq<seq<Timing>>, durations: seq<int>, silence: int, i: nat)
    requires i < |alignments|
    ensures MergedAlignment(alignments[..i + 1], durations, silence)
      == MergedAlignment(alignments[..i], durations, silence) + Shift(alignments[i], ChunkOffset(durations, silence, i))
  {
    var p := alignments[..i + 1];
    assert p[..|p| - 1] == alignments[..i];
    assert p[|p| - 1] == alignments[i];
  }

  /** `merge_alignment_data`: shifts every chunk's timings by the accumulated
      durations and silences. */
  method MergeAlignmentData(alignments: seq<seq<Timing>>, durations: seq<int>, silence: int) returns (merged: seq<Timing>)
    ensures merged == MergedAlignment(alignments, durations, silence)
  {
    merged := [];
    var timeOffset := 0;
    for i := 0 to |alignments|
      invariant timeOffset == ChunkOffset(durations, silence, i)
      invariant merged == MergedAlignment(alignments[..i], durations, silence)
    {
      var alignment := alignments[i];
      ghost var before := merged;
      for j := 0 to |alignment|
        invariant merged == before + Shift(alignment[..j], timeOffset)
      {
        var item := alignment[j];
        ShiftExtend(alignment, j, timeOffset);
        merged := merged + [Timing(item.text, item.start + timeOffset, item.end + timeOffset)];
      }
      assert alignment[..|alignment|] == alignment;
      MergeExtend(alignments, durations, silence, i);
      assert ChunkOffset(durations, silence, i + 1)
        == timeOffset + (if i < |durations| then durations[i] + (if i < |durations| - 1 then silence else 0) else 0);
      if i < |durations| {
        timeOffset := timeOffset + durations[i];
        if i < |durations| - 1 {
          timeOffset := timeOffset + silence;
        }
      }
    }
    assert alignments[..|alignments|] == alignments;
  }

  /** `merge_audio_files_with_silence` on files whose audio lasts `lengths`:
      every file but the last is padded with the silence (`apad=pad_dur`); one
      file is copied as it is; without a positive silence the files are
      concatenated directly. The lengths are those of the MP3 files themselves,
      which the engine does not report. */
  function PaddedLengths(lengths: seq<int>, silence: nat): (r: seq<int>)
    ensures |r| == |lengths|
    ensures forall k | 0 <= k < |lengths| - 1 :: r[k] == lengths[k] + silence
    ensures lengths != [] ==> r[|lengths| - 1] == lengths[|lengths| - 1]
  {
    seq(|lengths|, k requires 0 <= k < |lengths| =>
      if |lengths| > 1 && silence > 0 && k < |lengths| - 1 then lengths[k] + silence else lengths[k])
  }

  /** Where file `i` starts in the merged audio. */
  function AudioStart(lengths: seq<int>, silence: nat, i: nat): int
    requires i <= |lengths|
  {
    Sum(PaddedLengths(lengths, silence)[..i])
  }

  /** The length of the merged audio: the files' lengths plus one silence per
      boundary between files. */
  function MergedAudioLength(lengths: seq<int>, silence: nat): (r: int)
    ensures lengths != [] ==> r == Sum(lengths) + (|lengths| - 1) * silence
  {
    if lengths != [] then PaddedLengthsSum(lengths, silence); Sum(PaddedLengths(lengths, silence))
    else Sum(PaddedLengths(lengths, silence))
  }

  /** File `i` starts in the merged audio later than the offset its timings are
      shifted by, by exactly as much as the files before it outlast the
      durations the engine reported for them. */
  lemma {:induction false} AudioStartDrift(lengths: seq<int>, durations: seq<int>, silence: nat, i: nat)
    requires |lengths| == |durations| && i <= |durations|
    ensures AudioStart(lengths, silence, i) == ChunkOffset(durations, silence, i) + (Sum(lengths[..i]) - Sum(durations[..i]))
  {
    if i > 0 {
      AudioStartDrift(lengths, durations, silence, i - 1);
      var padded := PaddedLengths(lengths, silence);
      assert padded[..i][..i - 1] == padded[..i - 1];
      assert lengths[..i][..i - 1] == lengths[..i - 1];
      assert durations[..i][..i - 1] == durations[..i - 1];
    }
  }

  /** When every earlier file lasts exactly its reported duration, the audio
      merge and the alignment merge agree: file `i` starts in the merged audio
      at the offset its timings are shifted by. */
  lemma AudioStartAgrees(lengths: seq<int>, durations: seq<int>, silence: nat, i: nat)
    requires |lengths| == |durations| && i <= |durations|
    requires forall k | 0 <= k < i :: lengths[k] == durations[k]
    ensures AudioStart(lengths, silence, i) == ChunkOffset(durations, silence, i)
  {
    AudioStartDrift(lengths, durations, silence, i);
    assert lengths[..i] == durations[..i];
  }

  /** A segment whose audio lasts 10 s while its last word ends at 9 s: the
      second segment's audio starts one second after its timings do. */
  lemma SegmentAudioDrift()
    ensures var lengths, durations := [10 * TicksPerSecond, 5 * TicksPerSecond], [9 * TicksPerSecond, 5 * TicksPerSecond];
      && AudioStart(lengths, SegmentSilence, 1) == 11 * TicksPerSecond
      && ChunkOffset(durations, SegmentSilence, 1) == 10 * TicksPerSecond
      && MergedAudioLength(lengths, SegmentSilence) == Sum(durations) + SegmentSilence + TicksPerSecond
  {
    var lengths, durations := [10 * TicksPerSecond, 5 * TicksPerSecond], [9 * TicksPerSecond, 5 * TicksPerSecond];
    AudioStartDrift(lengths, durations, SegmentSilence, 1);
    assert lengths[..1] == [10 * TicksPerSecond] && durations[..1] == [9 * TicksPerSecond];
    assert Sum(lengths) == Sum(durations) + TicksPerSecond;
  }

  /** The padded files together last the files' lengths plus one silence per
      boundary between files. */
  lemma PaddedLengthsSum(lengths: seq<int>, silence: nat)
    requires lengths != []
    ensures Sum(PaddedLengths(lengths, silence)) == Sum(lengths) + (|lengths| - 1) * silence
  {
    var n := |lengths|;
    AudioStartDrift(lengths, lengths, silence, n);
    ChunkOffsetClosedForm(lengths, silence, n);
    assert PaddedLengths(lengths, silence)[..n] == PaddedLengths(lengths, silence);
    assert lengths[..n] == lengths;
  }

  // ---------------------------------------------------------------------------
  // process_chapter_with_segments
  // ---------------------------------------------------------------------------

  /** The speech engine: the event stream for a text, or None when it raises. */
  type Engine = string -> Option<seq<StreamChunk>>

  /** Whether ffmpeg merges the audio of these segments. */
  type AudioMerger = seq<string> -> bool

  datatype ChapterResult = ChapterResult(success: bool, duration: int, alignment: seq<Timing>)

  function SegmentResults(segments: seq<string>, tts: Engine): (r: seq<TtsResult>)
    ensures |r| == |segments| && forall k | 0 <= k < |segments| :: r[k] == TtsOutcome(tts(segments[k]))
  {
    seq(|segments|, k requires 0 <= k < |segments| => TtsOutcome(tts(segments[k])))
  }

  function Durations(rs: seq<TtsResult>): (r: seq<int>)
    ensures |r| == |rs| && forall k | 0 <= k < |rs| :: r[k] == rs[k].duration
  {
    seq(|rs|, k requires 0 <= k < |rs| => rs[k].duration)
  }

  function Alignments(rs: seq<TtsResult>): (r: seq<seq<Timing>>)
    ensures |r| == |rs| && forall k | 0 <= k < |rs| :: r[k] == rs[k].alignment
  {
    seq(|rs|, k requires 0 <= k < |rs| => rs[k].alignment)
  }

  predicate AllSucceed(rs: seq<TtsResult>)
  {
    forall k | 0 <= k < |rs| :: rs[k].success
  }

  /** The chapter made of several segments: every segment must be spoken and
      the audio merge must succeed; the timeline is the merged alignment. */
  function SegmentedChapter(segments: seq<string>, tts: Engine, mergeAudio: AudioMerger): ChapterResult
  {
    var rs := SegmentResults(segments, tts);
    if !AllSucceed(rs) || !mergeAudio(segments) then ChapterResult(false, 0, [])
    else
      var durations := Durations(rs);
      ChapterResult(true, Sum(durations) + (|durations| - 1) * SegmentSilence,
                    MergedAlignment(Alignments(rs), durations, SegmentSilence))
  }

  /** What `process_chapter_with_segments` returns, with the alignment it writes. */
  function ChapterSpec(text: string, tts: Engine, mergeAudio: AudioMerger): ChapterResult
  {
    var segments := SplitSpec(text, MaxMinutesPerSegment);
    if |segments| == 1 then
      var r := TtsOutcome(tts(text));
      ChapterResult(r.success, r.duration, r.alignment)
    else
      SegmentedChapter(segments, tts, mergeAudio)
  }

  lemma ResultsExtend(rs: seq<TtsResult>, i: nat)
    requires i < |rs|
    ensures Alignments(rs[..i + 1]) == Alignments(rs[..i]) + [rs[i].alignment]
    ensures Durations(rs[..i + 1]) == Durations(rs[..i]) + [rs[i].duration]
    ensures AllSucceed(rs[..i]) && rs[i].success ==> AllSucceed(rs[..i + 1])
  {
  }

  /** `process_chapter_with_segments`: one engine call for a short chapter,
      otherwise one per segment, stopping at the first failure, then the audio
      merge and the alignment merge. */
  method ProcessChapterWithSegments(chapterText: string, tts: Engine, mergeAudio: AudioMerger) returns (r: ChapterResult)
    ensures r == ChapterSpec(chapterText, tts, mergeAudio)
  {
    var segments := SplitTextByMinutes(chapterText, MaxMinutesPerSegment);
    if |segments| == 1 {
      var single := RunEdgeTtsWithAlignment(tts(chapterText));
      return ChapterResult(single.success, single.duration, single.alignment);
    }
    assert ChapterSpec(chapterText, tts, mergeAudio) == SegmentedChapter(segments, tts, mergeAudio);
    ghost var rs := SegmentResults(segments, tts);
    var allAlignments: seq<seq<Timing>> := [];
    var segmentDurations: seq<int> := [];
    for i := 0 to |segments|
      invariant AllSucceed(rs[..i])
      invariant allAlignments == Alignments(rs[..i])
      invariant segmentDurations == Durations(rs[..i])
    {
      var result := RunEdgeTtsWithAlignment(tts(segments[i]));
      assert result == rs[i];
      if !result.success {
        assert !AllSucceed(rs);
        return ChapterResult(false, 0, []);
      }
      ResultsExtend(rs, i);
      allAlignments := allAlignments + [result.alignment];
      segmentDurations := segmentDurations + [result.duration];
    }
    assert rs[..|segments|] == rs;
    if !mergeAudio(segments) {
      return ChapterResult(false, 0, []);
    }
    var merged := MergeAlignmentData(allAlignments, segmentDurations, SegmentSilence);
    var totalDuration := Sum(segmentDurations) + (|segmentDurations| - 1) * SegmentSilence;
    return ChapterResult(true, totalDuration, merged);
  }

  /** Chunk `i`'s offset plus its own duration stays within the chapter total. */
  lemma ChunkWithinTotal(durations: seq<int>, i: nat)
    requires i < |durations|
    requires forall k | 0 <= k < |durations| :: durations[k] >= 0
    ensures 0 <= ChunkOffset(durations, SegmentSilence, i)
    ensures ChunkOffset(durations, SegmentSilence, i) + durations[i]
      <= Sum(durations) + (|durations| - 1) * SegmentSilence
  {
    var n := |durations|;
    assert ChunkOffset(durations, SegmentSilence, i) == Sum(durations[..i]) + i * SegmentSilence by {
      ChunkOffsetClosedForm(durations, SegmentSilence, i);
      assert Min(i, n) == i && Max(0, Min(i, n - 1)) == i;
    }
    assert 0 <= Sum(durations[..i]) by {
      SumNonNegative(durations[..i]);
    }
    assert Sum(durations[..i]) + durations[i] <= Sum(durations) by {
      SumPrefixLe(durations, i + 1);
      var p := durations[..i + 1];
      assert p[..|p| - 1] == durations[..i];
    }
    assert 0 <= i * SegmentSilence <= (n - 1) * SegmentSilence by {
      MulMonotone(i, n - 1, SegmentSilence);
    }
  }

  /** The length of the MP3 file the engine writes for a text; the source
      never measures it. */
  type AudioLength = string -> int

  function SegmentLengths(segments: seq<string>, audioLength: AudioLength): (r: seq<int>)
    ensures |r| == |segments| && forall k | 0 <= k < |segments| :: r[k] == audioLength(segments[k])
  {
    seq(|segments|, k requires 0 <= k < |segments| => audioLength(segments[k]))
  }

  /** Every timing of a successful multi-segment chapter lies within
      [0, duration]. The merged audio lasts longer than the reported duration by
      exactly as much as the segment files outlast their last words, so the two
      agree iff those overruns sum to zero. */
  lemma SegmentedTimeline(segments: seq<string>, tts: Engine, mergeAudio: AudioMerger, audioLength: AudioLength)
    requires SegmentedChapter(segments, tts, mergeAudio).success
    ensures var r := SegmentedChapter(segments, tts, mergeAudio);
      var lengths, durations := SegmentLengths(segments, audioLength), Durations(SegmentResults(segments, tts));
      && (segments != [] ==> MergedAudioLength(lengths, SegmentSilence) == r.duration + (Sum(lengths) - Sum(durations)))
      && Within(r.alignment, r.duration)
  {
    var rs := SegmentResults(segments, tts);
    var durations := Durations(rs);
    var alignments := Alignments(rs);
    assert forall k | 0 <= k < |durations| :: durations[k] >= 0;
    var total := Sum(durations) + (|durations| - 1) * SegmentSilence;
    forall i | 0 <= i < |alignments| ensures ChunkFits(alignments[i], ChunkOffset(durations, SegmentSilence, i), total) {
      ChunkWithinTotal(durations, i);
    }
    MergedWithin(alignments, durations, SegmentSilence, total);
  }

  /** A successful chapter's timings all lie within [0, duration]; when it was
      cut into several segments, its duration is that of the merged audio iff
      the segment files' overruns past their last words sum to zero. */
  lemma ChapterTimeline(text: string, tts: Engine, mergeAudio: AudioMerger, audioLength: AudioLength)
    requires ChapterSpec(text, tts, mergeAudio).success
    ensures var r := ChapterSpec(text, tts, mergeAudio);
      var segments := SplitSpec(text, MaxMinutesPerSegment);
      var lengths, durations := SegmentLengths(segments, audioLength), Durations(SegmentResults(segments, tts));
      && (|segments| > 1 ==> (r.duration == MergedAudioLength(lengths, SegmentSilence) <==> Sum(lengths) == Sum(durations)))
      && Within(r.alignment, r.duration)
  {
    var segments := SplitSpec(text, MaxMinutesPerSegment);
    if |segments| != 1 {
      SegmentedTimeline(segments, tts, mergeAudio, audioLength);
    }
  }

  // ---------------------------------------------------------------------------
  // process_text_to_audiobook: the book manifest
  // ---------------------------------------------------------------------------

  datatype ChapterInfo = ChapterInfo(
    id: nat, title: string, audioFile: string, alignFile: string, textFile: string,
    duration: int, words: nat)

  datatype Manifest = Manifest(
    bookTitle: string, totalChapters: nat, totalDuration: int, totalWords: nat, chapters: seq<ChapterInfo>)

  /** `f"ch{idx:03d}"` */
  function FilePrefix(idx: nat): string
  {
    "ch" + ZeroPad3(idx)
  }

  /** The manifest entry of chapter `idx` (1-based). */
  function ChapterEntry(idx: nat, text: string, duration: int): ChapterInfo
  {
    var prefix := FilePrefix(idx);
    ChapterInfo(idx, "Chapter " + NatToString(idx), prefix + "_audio.mp3", prefix + "_align.json",
                prefix + "_text.txt", duration, AnalyzeText(text).totalWords)
  }

  function ChapterDurations(cs: seq<ChapterInfo>): (r: seq<int>)
    ensures |r| == |cs| && forall k | 0 <= k < |cs| :: r[k] == cs[k].duration
  {
    seq(|cs|, k requires 0 <= k < |cs| => cs[k].duration)
  }

  function ChapterWords(cs: seq<ChapterInfo>): (r: seq<int>)
    ensures |r| == |cs| && forall k | 0 <= k < |cs| :: r[k] == cs[k].words
  {
    seq(|cs|, k requires 0 <= k < |cs| => cs[k].words)
  }

  /** The outcome of every chapter. */
  function ChapterResults(chapters: seq<string>, tts: Engine, mergeAudio: AudioMerger): (r: seq<ChapterResult>)
    ensures |r| == |chapters| && forall k | 0 <= k < |chapters| :: r[k] == ChapterSpec(chapters[k], tts, mergeAudio)
  {
    seq(|chapters|, k requires 0 <= k < |chapters| => ChapterSpec(chapters[k], tts, mergeAudio))
  }

  /** The manifest entries, numbered from 1. */
  function Entries(chapters: seq<string>, results: seq<ChapterResult>): (r: seq<ChapterInfo>)
    requires |results| == |chapters|
    ensures |r| == |chapters| && forall k | 0 <= k < |chapters| :: r[k] == ChapterEntry(k + 1, chapters[k], results[k].duration)
  {
    seq(|chapters|, k requires 0 <= k < |chapters| => ChapterEntry(k + 1, chapters[k], results[k].duration))
  }

  lemma EntriesExtend(chapters: seq<string>, results: seq<ChapterResult>, i: nat)
    requires |results| == |chapters| && i < |chapters|
    ensures Entries(chapters[..i + 1], results[..i + 1])
      == Entries(chapters[..i], results[..i]) + [ChapterEntry(i + 1, chapters[i], results[i].duration)]
    ensures AllChaptersOk(results[..i]) && results[i].success ==> AllChaptersOk(results[..i + 1])
  {
  }

  predicate AllChaptersOk(results: seq<ChapterResult>)
  {
    forall k | 0 <= k < |results| :: results[k].success
  }

  function MakeManifest(bookTitle: string, entries: seq<ChapterInfo>): Manifest
  {
    SumNonNegative(ChapterWords(entries));
    Manifest(bookTitle, |entries|, Sum(ChapterDurations(entries)), Sum(ChapterWords(entries)), entries)
  }

  /** What `process_text_to_audiobook` returns. */
  function BookSpec(rawText: string, bookTitle: string, tts: Engine, mergeAudio: AudioMerger): Option<Manifest>
  {
    var chapters := SplitSpec(rawText, MaxMinutesPerSegment);
    var results := ChapterResults(chapters, tts, mergeAudio);
    if AllChaptersOk(results) then Some(MakeManifest(bookTitle, Entries(chapters, results))) else None
  }

  /** `process_text_to_audiobook`: the text is cut into chapters by the same
      time cap, every chapter is processed in order, the first failure aborts
      the book, and otherwise the manifest lists the chapters with their totals. */
  method ProcessTextToAudiobook(rawText: string, bookTitle: string, tts: Engine, mergeAudio: AudioMerger)
    returns (manifest: Option<Manifest>)
    ensures manifest == BookSpec(rawText, bookTitle, tts, mergeAudio)
  {
    var chapters := SplitTextByMinutes(rawText, MaxMinutesPerSegment);
    ghost var results := ChapterResults(chapters, tts, mergeAudio);
    var chaptersInfo: seq<ChapterInfo> := [];
    for i := 0 to |chapters|
      invariant AllChaptersOk(results[..i])
      invariant chaptersInfo == Entries(chapters[..i], results[..i])
    {
      var idx := i + 1;
      var chapterText := chapters[i];
      var result := ProcessChapterWithSegments(chapterText, tts, mergeAudio);
      if !result.success {
        assert !AllChaptersOk(results);
        return None;
      }
      assert result == results[i];
      EntriesExtend(chapters, results, i);
      chaptersInfo := chaptersInfo + [ChapterEntry(idx, chapterText, result.duration)];
    }
    assert chapters[..|chapters|] == chapters && results[..|results|] == results;
    SumNonNegative(ChapterWords(chaptersInfo));
    manifest := Some(Manifest(bookTitle, |chaptersInfo|, Sum(ChapterDurations(chaptersInfo)),
                              Sum(ChapterWords(chaptersInfo)), chaptersInfo));
  }

  /** The book fails exactly when some chapter fails; otherwise it lists every
      chapter in order, numbered from 1, with the engine's duration and the
      chapter's word count, and totals that add the chapters up. */
  lemma BookManifest(rawText: string, bookTitle: string, tts: Engine, mergeAudio: AudioMerger)
    ensures var chapters := SplitSpec(rawText, MaxMinutesPerSegment);
      BookSpec(rawText, bookTitle, tts, mergeAudio).None? <==>
        exists k | 0 <= k < |chapters| :: !ChapterSpec(chapters[k], tts, mergeAudio).success
    ensures var chapters := SplitSpec(rawText, MaxMinutesPerSegment);
      var book := BookSpec(rawText, bookTitle, tts, mergeAudio);
      book.Some? ==>
        && book.value.bookTitle == bookTitle
        && book.value.totalChapters == |book.value.chapters| == |chapters|
        && (forall k | 0 <= k < |chapters| ::
              && book.value.chapters[k].id == k + 1
              && book.value.chapters[k].duration == ChapterSpec(chapters[k], tts, mergeAudio).duration
              && book.value.chapters[k].words == AnalyzeText(chapters[k]).totalWords)
        && book.value.totalDuration == Sum(ChapterDurations(book.value.chapters))
        && book.value.totalWords == Sum(ChapterWords(book.value.chapters))
  {
    var chapters := SplitSpec(rawText, MaxMinutesPerSegment);
    var results := ChapterResults(chapters, tts, mergeAudio);
    if !AllChaptersOk(results) {
      var k :| 0 <= k < |results| && !results[k].success;
      assert !ChapterSpec(chapters[k], tts, mergeAudio).success;
    }
  }

  lemma ConcatCancel(x: string, y: string, suffix: string)
    ensures x + suffix == y + suffix ==> x == y
  {
    if x + suffix == y + suffix {
      assert |x| == |y|;
      assert x == (x + suffix)[..|x|];
      assert y == (y + suffix)[..|y|];
    }
  }

  lemma PrefixCancel(prefix: string, x: string, y: string)
    ensures prefix + x == prefix + y ==> x == y
  {
    if prefix + x == prefix + y {
      assert x == (prefix + x)[|prefix|..];
      assert y == (prefix + y)[|prefix|..];
    }
  }

  /** Different chapters get different file names. */
  lemma ChapterFilesDistinct(a: nat, b: nat, textA: string, textB: string, durA: int, durB: int)
    requires a != b
    ensures ChapterEntry(a, textA, durA).audioFile != ChapterEntry(b, textB, durB).audioFile
    ensures ChapterEntry(a, textA, durA).alignFile != ChapterEntry(b, textB, durB).alignFile
    ensures ChapterEntry(a, textA, durA).textFile != ChapterEntry(b, textB, durB).textFile
  {
    var pa, pb := FilePrefix(a), FilePrefix(b);
    PrefixCancel("ch", ZeroPad3(a), ZeroPad3(b));
    assert pa != pb;
    ConcatCancel(pa, pb, "_audio.mp3");
    ConcatCancel(pa, pb, "_align.json");
    ConcatCancel(pa, pb, "_text.txt");
  }
}
