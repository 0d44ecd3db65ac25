/** scripts/prepare_alignment.py: preparing one alignment for a book whose
    chapters were transcribed file by file.

    Each audio file's transcription becomes a list of timed segments (word by
    word where the recogniser gives words, one sentence otherwise).  The audio
    files are concatenated with a gap between consecutive files, and the
    per-file alignments are merged into one whose segment ids run over the
    whole book and whose times are shifted to the merged audio.

    Units: times are integers in milliseconds (pydub's unit), so the default
    gap of 1.0 s is 1000; the script's `round(x, 2)` is not modelled.  The
    recogniser, pydub and the file system are parameters: the recogniser's
    output is given as data, an audio file as its length, a text file as its
    content. */
module PrepareAlignment {
  import opened Common
  import opened Strings

  /** `gap_seconds = 1.0` in milliseconds. */
  const DefaultGap: nat := 1000

  /** One entry of an alignment: `{"id", "start", "end", "text"}`. */
  datatype Seg = Seg(id: nat, start: int, end: int, text: string)

  /** `{"segments", "language", "duration"}` */
  datatype Alignment = Alignment(segments: seq<Seg>, language: string, duration: int)

  /** A segment before it is numbered. */
  datatype Timed = Timed(start: int, end: int, text: string)

  /** The entries numbered consecutively from 0, in order. */
  function Numbered(ts: seq<Timed>): (r: seq<Seg>)
    ensures |r| == |ts|
  {
    if ts == [] then []
    else
      var t := ts[|ts| - 1];
      Numbered(ts[..|ts| - 1]) + [Seg(|ts| - 1, t.start, t.end, t.text)]
  }

  lemma NumberedSnoc(ts: seq<Timed>, t: Timed)
    ensures Numbered(ts + [t]) == Numbered(ts) + [Seg(|ts|, t.start, t.end, t.text)]
  {
    assert (ts + [t])[..|ts|] == ts;
  }

  /** Entry `k` gets id `k` and keeps its times and text. */
  lemma {:induction false} NumberedAt(ts: seq<Timed>, k: nat)
    requires k < |ts|
    ensures Numbered(ts)[k] == Seg(k, ts[k].start, ts[k].end, ts[k].text)
    decreases |ts|
  {
    if k < |ts| - 1 {
      NumberedAt(ts[..|ts| - 1], k);
    }
  }

  // ---------------------------------------------------------------------------
  // Segment extraction in transcribe_with_alignment
  // ---------------------------------------------------------------------------

  /** A word of the recogniser's output. */
  datatype RawWord = RawWord(word: string, start: int, end: int)

  /** A sentence of the recogniser's output; `words` is empty both when the
      recogniser gave no word list and when it gave an empty one. */
  datatype RawSegment = RawSegment(start: int, end: int, text: string, words: seq<RawWord>)

  /** A word yields its stripped text, or nothing when that is empty. */
  function WordEntry(w: RawWord): (r: seq<Timed>)
    ensures |r| == if Strip(w.word) != [] then 1 else 0
  {
    if Strip(w.word) != [] then [Timed(w.start, w.end, Strip(w.word))] else []
  }

  function WordEntries(words: seq<RawWord>): seq<Timed>
  {
    if words == [] then [] else WordEntries(words[..|words| - 1]) + WordEntry(words[|words| - 1])
  }

  /** A sentence without words falls back to one sentence-level entry. */
  function SentenceEntries(s: RawSegment): seq<Timed>
  {
    if s.words != [] then WordEntries(s.words) else [Timed(s.start, s.end, Strip(s.text))]
  }

  function Entries(raw: seq<RawSegment>): seq<Timed>
  {
    if raw == [] then [] else Entries(raw[..|raw| - 1]) + SentenceEntries(raw[|raw| - 1])
  }

  lemma WordEntriesExtend(words: seq<RawWord>, j: nat)
    requires j < |words|
    ensures WordEntries(words[..j + 1]) == WordEntries(words[..j]) + WordEntry(words[j])
  {
    assert words[..j + 1][..j] == words[..j];
  }

  lemma EntriesExtend(raw: seq<RawSegment>, i: nat)
    requires i < |raw|
    ensures Entries(raw[..i + 1]) == Entries(raw[..i]) + SentenceEntries(raw[i])
  {
    assert raw[..i + 1][..i] == raw[..i];
  }

  lemma WordsExtend(before: seq<Timed>, words: seq<RawWord>, j: nat)
    requires j < |words|
    ensures before + WordEntries(words[..j + 1]) == (before + WordEntries(words[..j])) + WordEntry(words[j])
  {
    WordEntriesExtend(words, j);
  }

  /** The extraction loop shared by both recognisers: every non-blank word
      becomes an entry, a sentence without words becomes one entry, and
      `segment_id` numbers them from 0. */
  method ExtractSegments(raw: seq<RawSegment>) returns (segments: seq<Seg>)
    ensures segments == Numbered(Entries(raw))
  {
    segments := [];
    var segmentId := 0;
    ghost var entries: seq<Timed> := [];
    for i := 0 to |raw|
      invariant entries == Entries(raw[..i])
      invariant segments == Numbered(entries)
      invariant segmentId == |segments|
    {
      var segment := raw[i];
      if segment.words != [] {
        ghost var before := entries;
        for j := 0 to |segment.words|
          invariant entries == before + WordEntries(segment.words[..j])
          invariant segments == Numbered(entries)
          invariant segmentId == |segments|
        {
          var wordData := segment.words[j];
          var wordText := Strip(wordData.word);
          if wordText != [] {
            ghost var t := Timed(wordData.start, wordData.end, wordText);
            assert entries + [t] == before + WordEntries(segment.words[..j + 1]) by {
              WordsExtend(before, segment.words, j);
            }
            assert Numbered(entries + [t]) == segments + [Seg(segmentId, wordData.start, wordData.end, wordText)] by {
              NumberedSnoc(entries, t);
            }
            segments := segments + [Seg(segmentId, wordData.start, wordData.end, wordText)];
            segmentId := segmentId + 1;
            entries := entries + [t];
          } else {
            assert entries == before + WordEntries(segment.words[..j + 1]) by {
              WordsExtend(before, segment.words, j);
              assert entries + WordEntry(wordData) == entries;
            }
          }
        }
        assert entries == Entries(raw[..i + 1]) by {
          assert segment.words[..|segment.words|] == segment.words;
          EntriesExtend(raw, i);
        }
      } else {
        EntriesExtend(raw, i);
        NumberedSnoc(entries, Timed(segment.start, segment.end, Strip(segment.text)));
        segments := segments + [Seg(segmentId, segment.start, segment.end, Strip(segment.text))];
        segmentId := segmentId + 1;
        entries := entries + [Timed(segment.start, segment.end, Strip(segment.text))];
      }
    }
    assert raw[..|raw|] == raw;
  }

  /** Every word-level entry has a non-empty text without surrounding white space. */
  lemma {:induction false} WordEntriesClean(words: seq<RawWord>)
    ensures forall k | 0 <= k < |WordEntries(words)| :: Clean(WordEntries(words)[k].text)
    decreases |words|
  {
    if words != [] {
      WordEntriesClean(words[..|words| - 1]);
      StripSpec(words[|words| - 1].word);
    }
  }

  predicate NoBlankWord(words: seq<RawWord>)
  {
    forall k | 0 <= k < |words| :: Strip(words[k].word) != []
  }

  lemma NoBlankWordSnoc(words: seq<RawWord>)
    requires words != []
    ensures NoBlankWord(words)
      <==> NoBlankWord(words[..|words| - 1]) && Strip(words[|words| - 1].word) != []
  {
    var init := words[..|words| - 1];
    assert forall k | 0 <= k < |init| :: init[k] == words[k];
  }

  /** Word-level entries never outnumber the words, and there are as many as
      words exactly when no word is blank. */
  lemma {:induction false} WordEntriesCount(words: seq<RawWord>)
    ensures |WordEntries(words)| <= |words|
    ensures |WordEntries(words)| == |words| <==> NoBlankWord(words)
    decreases |words|
  {
    if words != [] {
      var init := words[..|words| - 1];
      var last := words[|words| - 1];
      WordEntriesCount(init);
      NoBlankWordSnoc(words);
      assert |WordEntries(words)| == |WordEntries(init)| + |WordEntry(last)|;
    }
  }

  /** A sentence without word data adds exactly one entry, its stripped text. */
  lemma SentenceFallback(raw: seq<RawSegment>, s: RawSegment)
    requires s.words == []
    ensures Entries(raw + [s]) == Entries(raw) + [Timed(s.start, s.end, Strip(s.text))]
  {
    assert (raw + [s])[..|raw|] == raw;
  }

  /** The recogniser that produced the output: the MLX one, whose duration
      the script takes from the segments, or the CPU one, which reports its
      own duration when it has one. */
  datatype Backend = Mlx | Cpu(reportedDuration: Option<int>)

  /** The latest segment end of a non-empty list. */
  function MaxSegEnd(segs: seq<Seg>): (m: int)
    requires segs != []
    ensures forall k | 0 <= k < |segs| :: segs[k].end <= m
    ensures exists k | 0 <= k < |segs| :: segs[k].end == m
  {
    if |segs| == 1 then segs[0].end
    else
      var rest := MaxSegEnd(segs[..|segs| - 1]);
      var last := segs[|segs| - 1].end;
      assert forall k | 0 <= k < |segs| - 1 :: segs[..|segs| - 1][k] == segs[k];
      if rest >= last then rest else last
  }

  /** The duration the script records for one file. */
  function ReportedDuration(backend: Backend, segs: seq<Seg>): int
  {
    match backend
    case Mlx => if segs == [] then 0 else MaxSegEnd(segs)
    case Cpu(d) => if d.Some? then d.value else 0
  }

  /** The result of `transcribe_with_alignment` for one file, once the
      recogniser has run. */
  method Transcribe(backend: Backend, raw: seq<RawSegment>, language: string) returns (a: Alignment)
    ensures a.segments == Numbered(Entries(raw))
    ensures a.language == language
    ensures a.duration == ReportedDuration(backend, a.segments)
  {
    var segments := ExtractSegments(raw);
    return Alignment(segments, language, ReportedDuration(backend, segments));
  }

  /** On the MLX path the duration is never before any segment's end, and is
      0 exactly when there are no segments or the latest end is 0. */
  lemma MlxDurationBounds(segs: seq<Seg>)
    ensures forall k | 0 <= k < |segs| :: segs[k].end <= ReportedDuration(Mlx, segs)
    ensures segs != [] ==> exists k | 0 <= k < |segs| :: segs[k].end == ReportedDuration(Mlx, segs)
    ensures segs == [] ==> ReportedDuration(Mlx, segs) == 0
  {
    if segs != [] {
      var m := MaxSegEnd(segs);
      assert ReportedDuration(Mlx, segs) == m;
    }
  }

  // ---------------------------------------------------------------------------
  // adjust_timestamps_for_merged
  // ---------------------------------------------------------------------------

  function Durations(alignments: seq<Alignment>): (r: seq<int>)
    ensures |r| == |alignments| && forall k | 0 <= k < |alignments| :: r[k] == alignments[k].duration
  {
    seq(|alignments|, k requires 0 <= k < |alignments| => alignments[k].duration)
  }

  function Counts(alignments: seq<Alignment>): (r: seq<int>)
    ensures |r| == |alignments| && forall k | 0 <= k < |alignments| :: r[k] == |alignments[k].segments|
  {
    seq(|alignments|, k requires 0 <= k < |alignments| => |alignments[k].segments|)
  }

  /** The offset of file `i`: the durations of the files before it, each
      followed by one gap. */
  function FileOffset(alignments: seq<Alignment>, gap: int, i: nat): int
    requires i <= |alignments|
  {
    if i == 0 then 0 else FileOffset(alignments, gap, i - 1) + alignments[i - 1].duration + gap
  }

  /** The segments of one file moved later by `offset`. */
  function ShiftSegs(segs: seq<Seg>, offset: int): (r: seq<Timed>)
    ensures |r| == |segs|
  {
    if segs == [] then []
    else
      var s := segs[|segs| - 1];
      ShiftSegs(segs[..|segs| - 1], offset) + [Timed(s.start + offset, s.end + offset, s.text)]
  }

  lemma {:induction false} ShiftSegsAt(segs: seq<Seg>, offset: int, k: nat)
    requires k < |segs|
    ensures ShiftSegs(segs, offset)[k] == Timed(segs[k].start + offset, segs[k].end + offset, segs[k].text)
    decreases |segs|
  {
    if k < |segs| - 1 {
      ShiftSegsAt(segs[..|segs| - 1], offset, k);
    }
  }

  /** The segments of the first `i` files, each file shifted by its offset. */
  function MergedEntries(alignments: seq<Alignment>, gap: int, i: nat): seq<Timed>
    requires i <= |alignments|
  {
    if i == 0 then []
    else MergedEntries(alignments, gap, i - 1) + ShiftSegs(alignments[i - 1].segments, FileOffset(alignments, gap, i - 1))
  }

  /** What `adjust_timestamps_for_merged(alignments, gap)` returns. */
  function AdjustSpec(alignments: seq<Alignment>, gap: int): (r: Alignment)
    ensures r.duration == Sum(Durations(alignments)) + (|alignments| - 1) * gap
  {
    AdjustDurationClosed(alignments, gap);
    Alignment(Numbered(MergedEntries(alignments, gap, |alignments|)),
              if alignments != [] then alignments[0].language else "zh",
              FileOffset(alignments, gap, |alignments|) - gap)
  }

  /** The offset of file `i` is the sum of the durations before it plus one
      gap for each of them. */
  lemma {:induction false} FileOffsetClosed(alignments: seq<Alignment>, gap: int, i: nat)
    requires i <= |alignments|
    ensures FileOffset(alignments, gap, i) == Sum(Durations(alignments)[..i]) + i * gap
  {
    if i > 0 {
      FileOffsetClosed(alignments, gap, i - 1);
      var d := Durations(alignments);
      assert d[..i][..i - 1] == d[..i - 1];
    }
  }

  lemma ShiftSegsExtend(before: seq<Timed>, segs: seq<Seg>, j: nat, offset: int)
    requires j < |segs|
    ensures before + ShiftSegs(segs[..j + 1], offset)
      == (before + ShiftSegs(segs[..j], offset)) + [Timed(segs[j].start + offset, segs[j].end + offset, segs[j].text)]
  {
    assert segs[..j + 1][..j] == segs[..j];
  }

  /** One more segment of file `i`, shifted and numbered next. */
  lemma SegmentDone(before: seq<Timed>, segs: seq<Seg>, j: nat, offset: int, merged: seq<Seg>, id: int, segment: Seg)
    requires j < |segs| && segment == segs[j] && id == |merged|
    requires merged == Numbered(before + ShiftSegs(segs[..j], offset))
    ensures merged + [Seg(id, segment.start + offset, segment.end + offset, segment.text)]
      == Numbered(before + ShiftSegs(segs[..j + 1], offset))
  {
    var t := Timed(segs[j].start + offset, segs[j].end + offset, segs[j].text);
    ShiftSegsExtend(before, segs, j, offset);
    NumberedSnoc(before + ShiftSegs(segs[..j], offset), t);
  }

  /** Finishing file `i` completes the entries of the first `i + 1` files and
      moves the offset past its duration and one gap. */
  lemma FileDone(alignments: seq<Alignment>, gap: int, i: nat, merged: seq<Seg>, offset: int)
    requires i < |alignments| && offset == FileOffset(alignments, gap, i)
    requires merged == Numbered(MergedEntries(alignments, gap, i)
      + ShiftSegs(alignments[i].segments[..|alignments[i].segments|], offset))
    ensures merged == Numbered(MergedEntries(alignments, gap, i + 1))
    ensures offset + alignments[i].duration + gap == FileOffset(alignments, gap, i + 1)
  {
    var segs := alignments[i].segments;
    assert segs[..|segs|] == segs;
  }

  /** `adjust_timestamps_for_merged`: walks the files in order, renumbers every
      segment with a running id, shifts it by the running offset, and adds the
      file's duration and a gap to the offset after each file. */
  method AdjustTimestampsForMerged(alignments: seq<Alignment>, gap: int) returns (merged: Alignment)
    ensures merged == AdjustSpec(alignments, gap)
  {
    var mergedSegments: seq<Seg> := [];
    var currentOffset := 0;
    var segmentId := 0;
    for i := 0 to |alignments|
      invariant mergedSegments == Numbered(MergedEntries(alignments, gap, i))
      invariant segmentId == |mergedSegments|
      invariant currentOffset == FileOffset(alignments, gap, i)
    {
      var alignment := alignments[i];
      ghost var before := MergedEntries(alignments, gap, i);
      assert before + ShiftSegs(alignment.segments[..0], currentOffset) == before;
      for j := 0 to |alignment.segments|
        invariant mergedSegments == Numbered(before + ShiftSegs(alignment.segments[..j], currentOffset))
        invariant segmentId == |mergedSegments|
      {
        var segment := alignment.segments[j];
        SegmentDone(before, alignment.segments, j, currentOffset, mergedSegments, segmentId, segment);
        mergedSegments := mergedSegments + [Seg(segmentId, segment.start + currentOffset, segment.end + currentOffset, segment.text)];
        segmentId := segmentId + 1;
      }
      FileDone(alignments, gap, i, mergedSegments, currentOffset);
      currentOffset := currentOffset + alignment.duration + gap;
    }
    var language := if alignments != [] then alignments[0].language else "zh";
    merged := Alignment(mergedSegments, language, currentOffset - gap);
  }

  /** The final offset minus one gap is the sum of the durations plus one gap
      per boundary between files; for no file at all it is minus one gap,
      because the last gap is taken off unconditionally. */
  lemma AdjustDurationClosed(alignments: seq<Alignment>, gap: int)
    ensures FileOffset(alignments, gap, |alignments|) - gap == Sum(Durations(alignments)) + (|alignments| - 1) * gap
  {
    FileOffsetClosed(alignments, gap, |alignments|);
    assert Durations(alignments)[..|alignments|] == Durations(alignments);
    assert (|alignments| - 1) * gap == |alignments| * gap - gap;
  }

  lemma {:induction false} MergedEntriesLength(alignments: seq<Alignment>, gap: int, i: nat)
    requires i <= |alignments|
    ensures |MergedEntries(alignments, gap, i)| == Sum(Counts(alignments)[..i])
  {
    if i > 0 {
      MergedEntriesLength(alignments, gap, i - 1);
      var c := Counts(alignments);
      assert c[..i][..i - 1] == c[..i - 1];
    }
  }

  /** The entries of fewer files stay where they are when more files follow. */
  lemma {:induction false} MergedEntriesKeep(alignments: seq<Alignment>, gap: int, i: nat, m: nat, p: nat)
    requires i <= m <= |alignments| && p < |MergedEntries(alignments, gap, i)|
    ensures p < |MergedEntries(alignments, gap, m)|
    ensures MergedEntries(alignments, gap, m)[p] == MergedEntries(alignments, gap, i)[p]
    decreases m - i
  {
    if i < m {
      MergedEntriesKeep(alignments, gap, i, m - 1, p);
      var prev := MergedEntries(alignments, gap, m - 1);
      var x := ShiftSegs(alignments[m - 1].segments, FileOffset(alignments, gap, m - 1));
      assert MergedEntries(alignments, gap, m) == prev + x;
      assert (prev + x)[p] == prev[p];
    }
  }

  lemma MergedEntryAt(alignments: seq<Alignment>, gap: int, i: nat, j: nat)
    requires i < |alignments| && j < |alignments[i].segments|
    ensures |MergedEntries(alignments, gap, i)| + j < |MergedEntries(alignments, gap, |alignments|)|
    ensures MergedEntries(alignments, gap, |alignments|)[|MergedEntries(alignments, gap, i)| + j]
      == Timed(alignments[i].segments[j].start + FileOffset(alignments, gap, i),
               alignments[i].segments[j].end + FileOffset(alignments, gap, i),
               alignments[i].segments[j].text)
  {
    var prev := MergedEntries(alignments, gap, i);
    var next := MergedEntries(alignments, gap, i + 1);
    var x := ShiftSegs(alignments[i].segments, FileOffset(alignments, gap, i));
    assert next == prev + x;
    ShiftSegsAt(alignments[i].segments, FileOffset(alignments, gap, i), j);
    assert next[|prev| + j] == x[j];
    MergedEntriesKeep(alignments, gap, i + 1, |alignments|, |prev| + j);
  }

  /** Segment `j` of file `i` lands after every segment of the files before
      it, gets that position as its id, keeps its text, and is shifted by the
      file's offset (the durations of the files before it plus one gap each,
      `FileOffsetClosed`). */
  lemma MergedSegmentAt(alignments: seq<Alignment>, gap: int, i: nat, j: nat)
    requires i < |alignments| && j < |alignments[i].segments|
    ensures |AdjustSpec(alignments, gap).segments| == Sum(Counts(alignments))
    ensures 0 <= Sum(Counts(alignments)[..i]) + j < |AdjustSpec(alignments, gap).segments|
    ensures AdjustSpec(alignments, gap).segments[Sum(Counts(alignments)[..i]) + j]
      == Seg(Sum(Counts(alignments)[..i]) + j,
             alignments[i].segments[j].start + FileOffset(alignments, gap, i),
             alignments[i].segments[j].end + FileOffset(alignments, gap, i),
             alignments[i].segments[j].text)
  {
    var all := MergedEntries(alignments, gap, |alignments|);
    var pos := Sum(Counts(alignments)[..i]) + j;
    assert AdjustSpec(alignments, gap).segments == Numbered(all);
    assert |all| == Sum(Counts(alignments)) by {
      MergedEntriesLength(alignments, gap, |alignments|);
      assert Counts(alignments)[..|alignments|] == Counts(alignments);
    }
    assert pos == |MergedEntries(alignments, gap, i)| + j by {
      MergedEntriesLength(alignments, gap, i);
    }
    MergedEntryAt(alignments, gap, i, j);
    NumberedAt(all, pos);
  }

  // ---------------------------------------------------------------------------
  // merge_audio_files
  // ---------------------------------------------------------------------------

  /** A piece of the merged audio: file `file`'s audio, or a silence. */
  datatype Piece = Clip(file: nat, length: int) | Silence(length: int)

  /** File `k`'s audio, followed by a silence unless it is the last file. */
  function FilePieces(lengths: seq<int>, gap: int, k: nat): seq<Piece>
    requires k < |lengths|
  {
    [Clip(k, lengths[k])] + (if k < |lengths| - 1 then [Silence(gap)] else [])
  }

  /** The pieces of the first `i` files. */
  function Timeline(lengths: seq<int>, gap: int, i: nat): (r: seq<Piece>)
    requires i <= |lengths|
    ensures |r| == 2 * i - (if 0 < i == |lengths| then 1 else 0)
  {
    if i == 0 then [] else Timeline(lengths, gap, i - 1) + FilePieces(lengths, gap, i - 1)
  }

  function TotalLength(pieces: seq<Piece>): int
  {
    if pieces == [] then 0 else TotalLength(pieces[..|pieces| - 1]) + pieces[|pieces| - 1].length
  }

  /** `merge_audio_files`: appends every file and, after every file but the
      last, a silence of the gap's length. */
  method MergeAudioFiles(lengths: seq<int>, gap: int) returns (combined: seq<Piece>)
    ensures combined == Timeline(lengths, gap, |lengths|)
  {
    combined := [];
    for i := 0 to |lengths|
      invariant combined == Timeline(lengths, gap, i)
    {
      combined := combined + [Clip(i, lengths[i])];
      if i < |lengths| - 1 {
        combined := combined + [Silence(gap)];
      }
    }
  }

  lemma {:induction false} TotalLengthAppend(a: seq<Piece>, b: seq<Piece>)
    ensures TotalLength(a + b) == TotalLength(a) + TotalLength(b)
    decreases |b|
  {
    if b != [] {
      var ab := a + b;
      assert ab[..|ab| - 1] == a + b[..|b| - 1];
      assert ab[|ab| - 1] == b[|b| - 1];
      TotalLengthAppend(a, b[..|b| - 1]);
    } else {
      assert a + b == a;
    }
  }

  lemma FilePiecesLength(lengths: seq<int>, gap: int, k: nat)
    requires k < |lengths|
    ensures TotalLength(FilePieces(lengths, gap, k)) == lengths[k] + (if k < |lengths| - 1 then gap else 0)
  {
    var c := [Clip(k, lengths[k])];
    assert c[..0] == [];
    assert TotalLength(c) == lengths[k];
    if k < |lengths| - 1 {
      assert FilePieces(lengths, gap, k)[..1] == c;
    } else {
      assert FilePieces(lengths, gap, k) == c;
    }
  }

  /** File `k` is the piece at position 2k, and a silence follows it exactly
      when another file comes after it. */
  lemma {:induction false} TimelineShape(lengths: seq<int>, gap: int, i: nat)
    requires 0 < i <= |lengths|
    ensures |Timeline(lengths, gap, i)| == 2 * i - (if i == |lengths| then 1 else 0)
    ensures forall k | 0 <= k < i :: Timeline(lengths, gap, i)[2 * k] == Clip(k, lengths[k])
    ensures forall k | 0 <= k < i && k < |lengths| - 1 :: Timeline(lengths, gap, i)[2 * k + 1] == Silence(gap)
  {
    if i > 1 {
      TimelineShape(lengths, gap, i - 1);
    }
  }

  /** n files get n - 1 silences: the merged audio ends with the last file. */
  lemma TimelineEnds(lengths: seq<int>, gap: int)
    requires lengths != []
    ensures var t := Timeline(lengths, gap, |lengths|);
      |t| == 2 * |lengths| - 1 && t[|t| - 1] == Clip(|lengths| - 1, lengths[|lengths| - 1])
  {
    TimelineShape(lengths, gap, |lengths|);
  }

  /** How long the first `i` files and the silences after them last. */
  lemma {:induction false} TimelineLength(lengths: seq<int>, gap: int, i: nat)
    requires i <= |lengths|
    ensures TotalLength(Timeline(lengths, gap, i)) == Sum(lengths[..i]) + i * gap - (if 0 < i == |lengths| then gap else 0)
  {
    if i > 0 {
      TimelineLength(lengths, gap, i - 1);
      TotalLengthAppend(Timeline(lengths, gap, i - 1), FilePieces(lengths, gap, i - 1));
      FilePiecesLength(lengths, gap, i - 1);
      assert lengths[..i][..i - 1] == lengths[..i - 1];
      assert Sum(lengths[..i]) == Sum(lengths[..i - 1]) + lengths[i - 1];
      assert (i - 1) * gap + gap == i * gap;
    }
  }

  /** The audio of file `i` begins after the files before it and one silence
      after each of them. */
  lemma ClipStart(lengths: seq<int>, gap: int, i: nat)
    requires i < |lengths|
    ensures TotalLength(Timeline(lengths, gap, i)) == Sum(lengths[..i]) + i * gap
    ensures Timeline(lengths, gap, i + 1)[|Timeline(lengths, gap, i)|] == Clip(i, lengths[i])
  {
    TimelineLength(lengths, gap, i);
  }

  /** When every alignment's duration is its file's audio length, file `i`'s
      segments are shifted to exactly where its audio begins in the merged
      audio. */
  lemma OffsetMatchesAudio(alignments: seq<Alignment>, lengths: seq<int>, gap: int, i: nat)
    requires |lengths| == |alignments| && i < |alignments|
    requires forall k | 0 <= k < |alignments| :: alignments[k].duration == lengths[k]
    ensures FileOffset(alignments, gap, i) == TotalLength(Timeline(lengths, gap, i))
  {
    FileOffsetClosed(alignments, gap, i);
    assert Durations(alignments)[..i] == lengths[..i];
    TimelineLength(lengths, gap, i);
  }

  /** ... and the merged duration is the merged audio's length. */
  lemma DurationMatchesAudio(alignments: seq<Alignment>, lengths: seq<int>, gap: int)
    requires |lengths| == |alignments| > 0
    requires forall k | 0 <= k < |alignments| :: alignments[k].duration == lengths[k]
    ensures AdjustSpec(alignments, gap).duration == TotalLength(Timeline(lengths, gap, |lengths|))
  {
    FileOffsetClosed(alignments, gap, |alignments|);
    assert Durations(alignments)[..|alignments|] == lengths[..|lengths|];
    TimelineLength(lengths, gap, |lengths|);
    assert AdjustSpec(alignments, gap).duration == FileOffset(alignments, gap, |alignments|) - gap;
  }

  /** On the MLX path a file's duration is its last segment end, not its audio
      length, so a file whose audio runs on after its last word moves every
      later file's segments earlier than its audio: here a 10 s file whose only
      sentence ends at 9 s puts the second file 1 s early. */
  lemma MlxDurationDrift()
    ensures var first := Alignment([Seg(0, 0, 9000, "a")], "zh", ReportedDuration(Mlx, [Seg(0, 0, 9000, "a")]));
      var second := Alignment([Seg(0, 0, 500, "b")], "zh", 500);
      && first.duration == 9000
      && FileOffset([first, second], DefaultGap, 1) == 10000
      && TotalLength(Timeline([10000, 500], DefaultGap, 1)) == 11000
  {
    var first := Alignment([Seg(0, 0, 9000, "a")], "zh", 9000);
    var second := Alignment([Seg(0, 0, 500, "b")], "zh", 500);
    ClipStart([10000, 500], DefaultGap, 1);
    assert [10000, 500][..1] == [10000];
    assert Sum([10000]) == 10000 by {
      assert [10000][..0] == [];
    }
  }

  // ---------------------------------------------------------------------------
  // merge_txt_files
  // ---------------------------------------------------------------------------

  lemma KeepStrippedExtend(contents: seq<string>, i: nat)
    requires i < |contents|
    ensures KeepStripped(contents[..i + 1])
      == KeepStripped(contents[..i]) + (if Strip(contents[i]) != [] then [Strip(contents[i])] else [])
  {
    KeepStrippedSnoc(contents[..i], contents[i]);
    assert contents[..i + 1] == contents[..i] + [contents[i]];
  }

  /** `merge_txt_files`: the stripped contents that are not empty, in the given
      order, joined with "\n". */
  method MergeTxtFiles(contents: seq<string>) returns (merged: string)
    ensures merged == Join(KeepStripped(contents), "\n")
  {
    var mergedContent: seq<string> := [];
    for i := 0 to |contents|
      invariant mergedContent == KeepStripped(contents[..i])
    {
      var content := Strip(contents[i]);
      KeepStrippedExtend(contents, i);
      if content != [] {
        mergedContent := mergedContent + [content];
      } else {
        assert mergedContent + [] == mergedContent;
      }
    }
    assert mergedContent == KeepStripped(contents) by {
      assert contents[..|contents|] == contents;
    }
    merged := Join(mergedContent, "\n");
  }

  /** The merged text of files with no line break inside splits back, on "\n",
      into exactly their non-empty stripped contents. */
  lemma MergeTxtRoundTrip(contents: seq<string>)
    requires forall k | 0 <= k < |contents| :: '\n' !in contents[k]
    requires KeepStripped(contents) != []
    ensures Split(Join(KeepStripped(contents), "\n"), "\n") == KeepStripped(contents)
  {
    KeepStrippedWithout(contents, '\n');
    SplitJoin(KeepStripped(contents), "\n");
  }
}
