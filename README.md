# Audiobook web app: verified model of its core logic

This project models, in Dafny, the deterministic core of an audiobook web
application. The application turns text into narrated chapters with
word-level alignment, ingests uploaded audiobooks and EPUB books, controls who
may see a book, and admits users by invitation. Six parts are modelled, one
Dafny module each:

- `TtsUtils` (`tts_utils.dfy`), the text-to-audiobook pipeline:
  - the reading-time estimate and the greedy cutting of a text into segments under a time cap;
  - the reduction of the speech engine's word-boundary events to timings;
  - the merge of per-segment alignments with a silence between segments;
  - the chapter and book drivers that total durations and write the manifest.
- `PrepareAlignment` (`prepare_alignment.dfy`), the offline alignment script:
  - extraction of word-level (or sentence-level) segments from a recogniser's output;
  - concatenation of audio files with a gap between them;
  - renumbering and shifting of the per-file alignments into one;
  - the joining of text files.
- `Books` (`books.dfy`), the book routes:
  - recognition of chapter files in an uploaded ZIP and the book manifest built from them;
  - the segment count of a new book;
  - the de-duplicated book list;
  - the access rules of reading, deleting and sharing a book;
  - the progress upsert.

  A `Library` class holds the tables that these routes change.
- `Epub` (`epub_utils.dfy`), EPUB structure analysis:
  - chapter classification;
  - the OPF manifest and spine;
  - the NCX title map;
  - the chapter list;
  - the pairing of content chapters with alignment files;
  - the choice of the cover image.
- `Auth` (`auth.dfy`), accounts:
  - e-mail codes with a resend cooldown;
  - registration, with its ordered checks and the counting of invitation uses;
  - login;
  - the issuing of invitation codes.

  An `AuthService` class holds the three tables.
- `Config` (`config.dfy`): the parsing of the CORS origin list.

Two shared modules hold Python's own semantics:

- `Common` (`common.dfy`): sums, flattening, filtering, and SQLAlchemy's `scalar_one_or_none()`.
- `Strings` (`strings.dfy`):
  - `str.strip` with Python's whitespace set;
  - `str.split` and `str.join`, with their round trips;
  - ASCII `str.lower`;
  - `os.path.basename`;
  - string ordering;
  - zero-padded numbers.

Where the source updates state step by step, the model does too. Loops become
`method`s with invariants, and mutated records become fields of a class.
Each method is proved equal to a specification function of its inputs and
its old state, and the properties are lemmas about those functions.

Units:

- Speech-engine times are integers in 100 ns ticks, the engine's own unit.
- The alignment script's times are integers in milliseconds, pydub's unit.
- Audio lengths read from MP3 files are `real`.
- Times in `Auth` are integers in microseconds. Every request reads the clock once.

## Model

| member | source | states |
|---|---|---|
| TtsUtils.AnalyzeText | backend/app/utils/tts_utils.py:47-64 | total words = Chinese characters + English words ≤ text length; the estimate is never negative and equals (10·c + 11·e)/2200 minutes exactly |
| TtsUtils.RunEnd | backend/app/utils/tts_utils.py:50 | a run of ASCII letters ends at the text's end or at a non-letter |
| TtsUtils.CountsBounded | backend/app/utils/tts_utils.py:49-52 | no character is counted both as Chinese and as the start of an English word, so the two counts together never exceed the length |
| TtsUtils.KeepNonBlank | backend/app/utils/tts_utils.py:160 | kept lines are non-blank lines of the input |
| TtsUtils.Paragraphs | backend/app/utils/tts_utils.py:159-160 | paragraphs are non-blank and contain no '\n' |
| TtsUtils.PackStepOk | backend/app/utils/tts_utils.py:166-186 | one loop iteration keeps the packing invariant: finished and current groups flatten to the paragraphs consumed, and each group fits the cap or is one over-cap paragraph |
| TtsUtils.PackInvariant | backend/app/utils/tts_utils.py:162-186 | the invariant holds after the whole loop |
| TtsUtils.FlushOk | backend/app/utils/tts_utils.py:188-189 | the final flush loses no paragraph and keeps every group valid |
| TtsUtils.GroupsInvariant | backend/app/utils/tts_utils.py:159-191 | the groups concatenate to the paragraphs in order, and each group fits under the cap or is a single paragraph whose own estimate exceeds it |
| TtsUtils.GroupRoundTrip | backend/app/utils/tts_utils.py:173-189 | a group joined with "\n\n" is non-empty and splits back on "\n\n" into the same paragraphs |
| TtsUtils.SplitOverCap | backend/app/utils/tts_utils.py:159-191 | over the cap, splitting every segment on "\n\n" and concatenating gives exactly the text's non-blank lines in order; no segment is empty; every segment fits or is one over-cap paragraph |
| TtsUtils.SplitTextByMinutes | backend/app/utils/tts_utils.py:152-191 | the loop computes the segmentation function; within the cap the result is exactly `[text]` |
| TtsUtils.BoundaryTiming | backend/app/utils/tts_utils.py:223-231 | a boundary's timing keeps its text, starts at its offset and lasts its duration |
| TtsUtils.BoundaryTimingsOrdered | backend/app/utils/tts_utils.py:219-231 | every timing starts at or after 0 and ends no earlier than it starts |
| TtsUtils.MaxEndSpec | backend/app/utils/tts_utils.py:213-233 | `last_end_time` bounds every end and equals one of them, or is 0 |
| TtsUtils.TtsOutcome | backend/app/utils/tts_utils.py:206-242 | success iff the engine produced a stream; a failure is `(False, 0, [])`; on success every timing lies within [0, duration] |
| TtsUtils.RunEdgeTtsWithAlignment | backend/app/utils/tts_utils.py:212-238 | the streaming loop computes the engine outcome |
| TtsUtils.ChunkOffsetClosedForm | backend/app/utils/tts_utils.py:299-312 | chunk i is shifted by the sum of the durations before it plus one silence per boundary before it; the offset stops growing when durations run out |
| TtsUtils.Shift | backend/app/utils/tts_utils.py:303-307 | each timing keeps its text and both ends move by the offset |
| TtsUtils.MergedAlignment | backend/app/utils/tts_utils.py:292-314 | the merged list has as many items as all inputs together |
| TtsUtils.MergedAlignmentAt | backend/app/utils/tts_utils.py:301-307 | item j of chunk i lands after all earlier chunks' items, keeps its text and is shifted by chunk i's offset |
| TtsUtils.MergedWithin | backend/app/utils/tts_utils.py:298-314 | if every chunk fits within a bound once shifted, so does the merged list |
| TtsUtils.MergeAlignmentData | backend/app/utils/tts_utils.py:292-314 | the nested loop computes the merged alignment |
| TtsUtils.PaddedLengths | backend/app/utils/tts_utils.py:260-269 | every file but the last is followed by one silence; the last is not |
| TtsUtils.AudioStartDrift | backend/app/utils/tts_utils.py:260-312 | where the audio merge starts file i differs from the alignment offset of chunk i by exactly the earlier files' lengths minus their reported durations |
| TtsUtils.AudioStartAgrees | backend/app/utils/tts_utils.py:260-312 | when every earlier file lasts exactly its reported duration (its last word's end), file i starts where chunk i's alignment is placed |
| TtsUtils.SegmentAudioDrift | backend/app/utils/tts_utils.py:260-312 | a 10 s first file whose last word ends at 9 s starts the second file at 11 s in the audio but at 10 s in the alignment, and the audio outlasts the reported total by 1 s |
| TtsUtils.MergedAudioLength | backend/app/utils/tts_utils.py:260-269 | the merged audio lasts Σ lengths + (n−1)·silence |
| TtsUtils.PaddedLengthsSum | backend/app/utils/tts_utils.py:260-269 | the padded lengths add up to Σ lengths + (n−1)·silence |
| TtsUtils.SegmentResults | backend/app/utils/tts_utils.py:339-345 | one engine outcome per segment, in order |
| TtsUtils.ProcessChapterWithSegments | backend/app/utils/tts_utils.py:317-375 | the driver computes the chapter outcome: one engine call for a single segment; otherwise the first failing segment or merge gives `(False, 0)` |
| TtsUtils.ChunkWithinTotal | backend/app/utils/tts_utils.py:362-366 | every chunk's offset plus its duration stays within the chapter total |
| TtsUtils.SegmentedTimeline | backend/app/utils/tts_utils.py:339-366 | a successful multi-segment chapter reports Σ durations + (n−1)·silence, which falls short of the merged audio by exactly Σ lengths − Σ durations; every merged timing lies within [0, reported total] |
| TtsUtils.ChapterTimeline | backend/app/utils/tts_utils.py:325-375 | every successful chapter's timings lie within [0, duration]; a multi-segment chapter's duration is the merged audio's length iff the segment files add up to their reported durations |
| TtsUtils.Entries | backend/app/utils/tts_utils.py:411-442 | chapter k gets id k+1 and its own duration |
| TtsUtils.ProcessTextToAudiobook | backend/app/utils/tts_utils.py:388-470 | the chapter loop computes the book outcome |
| TtsUtils.BookManifest | backend/app/utils/tts_utils.py:406-462 | None iff some chapter fails; otherwise ids run 1..n, each chapter's duration and words are its own, and the totals are the chapter count and the sums |
| TtsUtils.ChapterFilesDistinct | backend/app/utils/tts_utils.py:412-415 | different chapter numbers give different audio, alignment and text file names |
| PrepareAlignment.NumberedAt | scripts/prepare_alignment.py:126-153 | entry k gets id k and keeps its times and text |
| PrepareAlignment.WordEntry | scripts/prepare_alignment.py:132-143 | a word yields one entry, or none when it is blank once stripped |
| PrepareAlignment.ExtractSegments | scripts/prepare_alignment.py:125-153 | the nested loop numbers the word-level or sentence-level entries consecutively from 0 |
| PrepareAlignment.WordEntriesClean | scripts/prepare_alignment.py:133-140 | every kept word text is stripped and non-empty |
| PrepareAlignment.WordEntriesCount | scripts/prepare_alignment.py:132-135 | at most one entry per word, and one per word iff no word is blank |
| PrepareAlignment.SentenceFallback | scripts/prepare_alignment.py:144-153 | a segment without words yields exactly one entry with its stripped text |
| PrepareAlignment.MaxSegEnd | scripts/prepare_alignment.py:158 | the maximum end bounds every segment's end and is one of them |
| PrepareAlignment.Transcribe | scripts/prepare_alignment.py:86-226 | the alignment has the numbered entries and the given language; its duration is the maximum end on the MLX path, or the recogniser's duration otherwise |
| PrepareAlignment.MlxDurationBounds | scripts/prepare_alignment.py:158 | on the MLX path the duration bounds every end and is one of them, or 0 without segments |
| PrepareAlignment.FileOffsetClosed | scripts/prepare_alignment.py:293 | file i's offset is Σ_{k<i}(duration_k + gap) |
| PrepareAlignment.AdjustTimestampsForMerged | scripts/prepare_alignment.py:262-299 | the nested loop computes the merge: segments renumbered, shifted by the file offsets, language of the first file or "zh", duration the final offset minus one gap |
| PrepareAlignment.MergedSegmentAt | scripts/prepare_alignment.py:276-290 | segment j of file i gets id Σ_{k<i} count_k + j, keeps its text and is shifted by file i's offset; there are Σ count_k segments |
| PrepareAlignment.AdjustSpec | scripts/prepare_alignment.py:262-299 | the merged duration is Σ duration_k + (n−1)·gap, and −gap for no files |
| PrepareAlignment.AdjustDurationClosed | scripts/prepare_alignment.py:293-298 | the final offset minus one gap is Σ duration_k + (n−1)·gap |
| PrepareAlignment.MergeAudioFiles | scripts/prepare_alignment.py:247-256 | the loop builds the clip/silence timeline |
| PrepareAlignment.Timeline | scripts/prepare_alignment.py:247-256 | after i files the timeline has one clip per file and a silence after each but the last file |
| PrepareAlignment.TimelineShape | scripts/prepare_alignment.py:250-256 | clip k sits at position 2k with a silence after every clip but the last |
| PrepareAlignment.TimelineEnds | scripts/prepare_alignment.py:254-256 | n files give 2n−1 pieces ending with the last clip, so there is no trailing silence |
| PrepareAlignment.TimelineLength | scripts/prepare_alignment.py:250-256 | the merged audio lasts Σ lengths + (n−1)·gap |
| PrepareAlignment.OffsetMatchesAudio | scripts/prepare_alignment.py:250-293 | when each alignment's duration is its file's length, file i's offset is where its clip starts in the merged audio |
| PrepareAlignment.DurationMatchesAudio | scripts/prepare_alignment.py:256-298 | under the same condition, the merged duration is the merged audio's length |
| PrepareAlignment.MlxDurationDrift | scripts/prepare_alignment.py:158-293 | a file whose speech ends before its audio does shifts the next file's alignment earlier than its audio |
| PrepareAlignment.MergeTxtFiles | scripts/prepare_alignment.py:311-321 | the loop keeps the non-empty stripped contents in order and joins them with "\n" |
| PrepareAlignment.MergeTxtRoundTrip | scripts/prepare_alignment.py:313-321 | with single-line files, splitting the merged text on "\n" gives back the kept contents |
| Books.MatchChapterBody | backend/app/routers/books.py:49 | a match is 1–9 digits followed by "." |
| Books.ChapterId | backend/app/routers/books.py:49-56 | an id is 1–9 digits and the basename starts with it and a dot |
| Books.ChapterIdOfFile | backend/app/routers/books.py:49-56 | an entry `dir/<1-9 digits>.<mp3, txt or json in any case>` yields its digits |
| Books.ChapterIdTrailingNewline | backend/app/routers/books.py:49-54 | the pattern's `$` accepts a trailing newline: "1.mp3\n" yields id "1" |
| Books.IdsOfSound | backend/app/routers/books.py:51-56 | every collected id comes from an entry that yields it |
| Books.IdsOfComplete | backend/app/routers/books.py:51-56 | every entry that yields an id contributes it |
| Books.SortedOfUnique | backend/app/routers/books.py:62 | the sorted id list is unique |
| Books.StringOrderNotNumeric | backend/app/routers/books.py:62 | ids sort as strings: "10" precedes "9" although 10 > 9 |
| Books.FindLastFound | backend/app/routers/books.py:72-79 | a found file is an entry whose lower-cased basename is the target |
| Books.FindLastNone | backend/app/routers/books.py:72-81 | nothing is found iff no entry's lower-cased basename is the target |
| Books.FindChapterFiles | backend/app/routers/books.py:68-79 | the inner loop finds the last entry for each of the three files |
| Books.ProcessBookZip | backend/app/routers/books.py:35-122 | the loops compute the ZIP result |
| Books.ZipErrors | backend/app/routers/books.py:58-109 | "no chapter files" iff no entry yields an id; "no complete chapter" iff ids exist but none has all three files |
| Books.ZipChapters | backend/app/routers/books.py:62-115 | chapters are the complete ids, all of them, in ascending string order; each duration is its own MP3 length rounded; the total rounds the sum of the unrounded lengths |
| Books.UnreadableMp3 | backend/app/routers/books.py:26-32 | an unreadable MP3 counts as 0.0 |
| Books.TrailingNewlineUpload | backend/app/routers/books.py:49-109 | entries that all end in a newline yield ids but never a complete chapter, so the upload fails as having no complete chapter |
| Books.TotalSegments | backend/app/routers/books.py:211-221 | the loop adds each chapter's alignment length, 0 for a missing file or another shape, and fails where `len` would raise |
| Books.SegmentTotal | backend/app/routers/books.py:211-221 | when no chapter has an alignment file the total is 0 |
| Books.SegmentTotalAppend | backend/app/routers/books.py:212-221 | the total over two chapter lists is the sum of their totals, and fails if either fails |
| Books.SegmentTotalOfLists | backend/app/routers/books.py:218-219 | with list-shaped alignments the total is the sum of their lengths |
| Books.SegmentTotalRaises | backend/app/routers/books.py:218-221 | once the count over a prefix fails, the count over the whole list fails |
| Books.DedupSpec | backend/app/routers/books.py:153-155 | the de-duplicated list has unique ids, keeps every id and holds only input rows |
| Books.DedupById | backend/app/routers/books.py:153-155 | the de-duplicated list has no more rows than the input |
| Books.DedupUnique | backend/app/routers/books.py:153-155 | the de-duplicated list has unique ids |
| Books.DedupKeepsIds | backend/app/routers/books.py:153-155 | every input id appears in the de-duplicated list |
| Books.GetBooks | backend/app/routers/books.py:125-157 | `total` is the number of books returned |
| Books.GetBooksVisible | backend/app/routers/books.py:131-157 | the list has unique ids and holds exactly the books the user owns, that are shared to the user, or that are public |
| Books.SharesToLookup | backend/app/routers/books.py:278-283 | without duplicate shares the lookup finds the one share or none |
| Books.GetBook | backend/app/routers/books.py:259-289 | 404 iff no book has the id; a granted book is that book and the user owns it, it is public or a share names the user; 403 only without a share to the user |
| Books.GetBookAccess | backend/app/routers/books.py:259-289 | 404 iff no book has the id; otherwise the book if the user owns it, it is public, or it is shared to the user, else 403 |
| Books.GetBooksAgreesWithGetBook | backend/app/routers/books.py:259-289 | a book is in the user's list iff reading it is granted |
| Books.GetBookDuplicateShare | backend/app/routers/books.py:278-283 | two share rows for the same reader make the lookup fail with a server error |
| Books.ShareStep | backend/app/routers/books.py:516-576 | a share appends one row from the owner to the target and keeps the books; a publication makes the book public and keeps the shares; any other answer changes nothing; 404 iff no book has the id |
| Books.ShareKeepsTables | backend/app/routers/books.py:516-576 | sharing keeps book ids unique and shares free of duplicates |
| Books.ShareOnlyByOwner | backend/app/routers/books.py:533-576 | only a share or a publication changes the tables, and both need the user to own the book; the owner without an e-mail makes it public |
| Books.ShareGrantsAccess | backend/app/routers/books.py:562-576 | after a share the target may read the book; after a publication anyone may |
| Books.DeleteStep | backend/app/routers/books.py:482-513 | any answer but a deletion changes nothing; 404 iff no book has the id; a deletion needs the one book to be the user's or the user to be an admin |
| Books.DeleteAllowed | backend/app/routers/books.py:489-502 | deleted iff the book exists and the user owns it or is an admin; 404 iff it does not exist; otherwise nothing changes |
| Books.DeleteCascades | backend/app/routers/books.py:510-511 | the book, its shares and its progress rows go, and every other row stays |
| Books.DeleteKeepsTables | backend/app/routers/books.py:482-513 | deleting keeps the tables' uniqueness |
| Books.ProgressStep | backend/app/routers/books.py:447-479 | a save answers with the stored row; a failure changes nothing; an unknown book is reported only without the book and without an earlier row |
| Books.ProgressUnknownBookOnly | backend/app/routers/books.py:455-476 | without duplicate progress the save fails only for an unknown book with no earlier row, and then changes nothing |
| Books.ProgressUpsert | backend/app/routers/books.py:462-474 | after a save the table holds exactly one row for the user and book, with the new values, and keeps every other row |
| Books.ProgressInsert | backend/app/routers/books.py:466-474 | inserting into a table without a row for the user and book leaves exactly the new row for them and no duplicates |
| Books.ProgressUpdate | backend/app/routers/books.py:462-465 | updating replaces the one row for the user and book by the new values, keeps no duplicates, and keeps every row of other users or books |
| Books.ProgressIdempotent | backend/app/routers/books.py:462-474 | saving the same values twice leaves the table as saving them once |
| Books.Library.constructor | backend/app/models/book.py:10-65 | a library starts with the given users and no books, shares or progress rows |
| Books.Library.CreateBook | backend/app/routers/books.py:224-236 | the new book row is appended, private, and the tables stay valid |
| Books.Library.ShareBook | backend/app/routers/books.py:516-576 | the tables and answer follow the share step, and the tables stay valid |
| Books.Library.DeleteBook | backend/app/routers/books.py:482-513 | the tables and answer follow the delete step, and the tables stay valid |
| Books.Library.UpdateProgress | backend/app/routers/books.py:447-479 | the progress table and answer follow the upsert step, and the tables stay valid |
| Epub.FirstMatchSpec | backend/app/utils/epub_utils.py:240-247 | the search returns a type iff its pattern matches and no earlier type's does |
| Epub.ClassifyChapterType | backend/app/utils/epub_utils.py:227-249 | the type is Content or one of the searched types, and a searched type is returned only when its pattern matches |
| Epub.ClassifyFirstMatch | backend/app/utils/epub_utils.py:227-249 | the chapter type is the first of Cover, Title, Copyright, Contents, Introduction, Chapter whose pattern matches the lower-cased file name or id, and Content iff none does |
| Epub.FirstMatchNone | backend/app/utils/epub_utils.py:240-249 | the search falls through to Content iff no listed type matches |
| Epub.TitleBeforeChapter | backend/app/utils/epub_utils.py:231-247 | a name containing both "title" and "chapter" (and no cover pattern) is a Title, as "chapter_title" is |
| Epub.ContentNameIsContents | backend/app/utils/epub_utils.py:235-247 | "contents?" matches "content", so a content file is classed as Contents unless an earlier type matches |
| Epub.ParseOpfFile | backend/app/utils/epub_utils.py:94-172 | the loops compute the OPF result; a parse error gives empty metadata, manifest and spine |
| Epub.ManifestKeys | backend/app/utils/epub_utils.py:133-146 | an id is in the manifest iff some item has non-empty id and href with that id |
| Epub.ManifestLastWins | backend/app/utils/epub_utils.py:140-146 | the last kept item with an id gives its entry |
| Epub.ManifestNonEmpty | backend/app/utils/epub_utils.py:140 | every key and every href in the manifest is non-empty |
| Epub.SpineItemsNamed | backend/app/utils/epub_utils.py:149-161 | each spine item's order is the 1-based position of an itemref naming it, and its id and href come from the manifest |
| Epub.SpineOrdered | backend/app/utils/epub_utils.py:149-161 | spine orders strictly increase |
| Epub.SpineComplete | backend/app/utils/epub_utils.py:151-161 | every itemref whose idref is in the manifest appears in the spine |
| Epub.FilePart | backend/app/utils/epub_utils.py:206 | the file part is the text before the first '#' |
| Epub.NcxReader.constructor | backend/app/utils/epub_utils.py:182 | the title map starts empty |
| Epub.NcxReader.ExtractNavPoints | backend/app/utils/epub_utils.py:199-213 | the recursive helper updates the title map as the fold over the navPoints does |
| Epub.ParseNcxFile | backend/app/utils/epub_utils.py:175-224 | the parse computes the NCX map, empty without an NCX or on a parse error |
| Epub.NavFoldPreOrder | backend/app/utils/epub_utils.py:199-213 | the traversal records navPoints in pre-order |
| Epub.RecordAllLastWins | backend/app/utils/epub_utils.py:205-210 | a file is in the map iff some navPoint records it, and the last such navPoint's title wins |
| Epub.NcxLastWins | backend/app/utils/epub_utils.py:199-215 | the same, over the pre-order of the whole navMap |
| Epub.NcxClean | backend/app/utils/epub_utils.py:205-210 | every key is non-empty and free of '#', and every title is non-empty |
| Epub.AnalyzeEpubStructure | backend/app/utils/epub_utils.py:252-320 | the loop computes the structure |
| Epub.AnalyzeChapters | backend/app/utils/epub_utils.py:271-320 | errors iff container or OPF is missing; otherwise one chapter per spine item with increasing orders, titled iff its href is in the NCX map |
| Epub.AlignIdOfName | backend/app/utils/epub_utils.py:339-344 | a name starting "ch<digits>_align.json" yields its digits |
| Epub.AlignIdOfSound | backend/app/utils/epub_utils.py:339-344 | a yielded id is non-empty digits and the name starts with "ch<id>_align.json" |
| Epub.ReadAlignIds | backend/app/utils/epub_utils.py:339-344 | the loop collects the ids in file order |
| Epub.PairChapters | backend/app/utils/epub_utils.py:350-365 | the loop pairs chapters with ids position by position |
| Epub.CreateEpubManifest | backend/app/utils/epub_utils.py:323-372 | the manifest follows the structure and the ids |
| Epub.ManifestPairing | backend/app/utils/epub_utils.py:347-371 | total = min(#content chapters, #ids); chapter i is the i-th Chapter/Content chapter with the i-th id and its file names; orders increase |
| Epub.CoverImageFirst | backend/app/utils/epub_utils.py:405-415 | strategy A takes the first item whose properties contain "cover-image" |
| Epub.CoverImageNone | backend/app/utils/epub_utils.py:405-415 | without a "cover-image" item strategy A finds nothing |
| Epub.CoverPrefersProperty | backend/app/utils/epub_utils.py:405-431 | a "cover-image" item with an href wins over `<meta name="cover">` |
| Epub.CoverFromMeta | backend/app/utils/epub_utils.py:417-431 | without such an item, the first cover meta's content names the item whose href is used |
| Epub.CoverMetaFirst | backend/app/utils/epub_utils.py:419-424 | the first `<meta name="cover">` is the one used |
| Epub.HrefByIdFirst | backend/app/utils/epub_utils.py:425-429 | the first item with that id gives the href |
| Epub.CoverHref | backend/app/utils/epub_utils.py:405-431 | a found cover reference is non-empty |
| Epub.CoverNameShape | backend/app/utils/epub_utils.py:434-447 | the cover is saved as "cover" plus a dot-led extension with no further dot, and as "cover.jpg" when the href has no suffix |
| Epub.ExtensionShape | backend/app/utils/epub_utils.py:434-437 | the extension is a dot and at least one more character, none of them a dot |
| Epub.ExtractCoverImage | backend/app/utils/epub_utils.py:375-452 | a cover name is returned iff there is a package with a parsed OPF whose cover reference names an existing file; the name is "cover." and an extension |
| Auth.TimedeltaSecondsBelowADay | backend/app/routers/auth.py:48 | for deltas under a day, `.seconds` < 60 iff the delta is under 60 s; a negative delta reads as nearly a day |
| Auth.TimedeltaSeconds | backend/app/routers/auth.py:48 | `timedelta.seconds` lies in [0, 86400) |
| Auth.SendCodeAsWritten | backend/app/routers/auth.py:39-62 | as written, the request fails with a server error iff more than one active code exists; a sent code is appended, and any other answer changes nothing |
| Auth.SendCodeSpec | backend/app/routers/auth.py:39-62 | with the newest-code lookup the request never fails with a server error; a sent code is appended, and any other answer changes nothing |
| Auth.SendCodeThirdRequestFails | backend/app/routers/auth.py:39-62 | as written, a third request 62 s after the first finds two active codes and fails with a server error |
| Auth.SendCodeCooldown | backend/app/routers/auth.py:38-61 | with the newest-code lookup the request never fails; it is refused iff an unused code of the e-mail is younger than 60 s; a new code expires 10 minutes after creation |
| Auth.Newest | backend/app/routers/auth.py:44 | the newest row is one of the rows with the latest creation time |
| Auth.AuthService.SendEmailCode | backend/app/routers/auth.py:32-71 | the table and answer follow the corrected send step; other tables are unchanged |
| Auth.AuthService.constructor | backend/app/models/user.py:10-53 | the service starts with the given accounts, whose e-mails are unique, and no invitations or codes |
| Auth.UsedByNotRecorded | backend/app/routers/auth.py:125-136 | as written, the first registration with a single-use invitation closes it with `used_by` empty |
| Auth.RegisterCheckOrder | backend/app/routers/auth.py:80-122 | with unique keys, e-mail taken, invitation missing or used, invitation expired (never without expiry), and e-mail code invalid are answered in that order; a failure changes nothing |
| Auth.EmailLookup | backend/app/routers/auth.py:81-82 | with unique e-mails the lookup finds the one account or none |
| Auth.InvitationLookup | backend/app/routers/auth.py:89-94 | with unique codes the lookup finds the one open invitation or none |
| Auth.CodeLookup | backend/app/routers/auth.py:109-118 | no accepted code iff no row matches e-mail, code, unused and unexpired |
| Auth.RegisterStep | backend/app/routers/auth.py:80-137 | a failure changes nothing; a success appends the active, non-admin account with the hashed password and keeps the sizes of the other tables, and needs a free e-mail and exactly one open invitation |
| Auth.RegisterSuccess | backend/app/routers/auth.py:125-137 | success appends the active non-admin account, adds exactly one use, closes the invitation (naming the account) iff uses reach the maximum, changes no other invitation and leaves no accepted code |
| Auth.SingleUseInvitation | backend/app/routers/auth.py:133-136 | a default invitation (max 1, used 0) names its user and refuses a second registration |
| Auth.NicknameDefault | backend/app/routers/auth.py:128 | without a nickname, the account is named by the e-mail's text before its first '@' |
| Auth.AuthService.Register | backend/app/routers/auth.py:74-144 | the tables and answer follow the corrected register step, and keys stay unique |
| Auth.Login | backend/app/routers/auth.py:147-169 | an unknown e-mail is 401; a login or a 403 needs the one account with the e-mail and the right password; a login gives that active account's id |
| Auth.LoginOutcomes | backend/app/routers/auth.py:153-169 | 401 for an unknown e-mail or a wrong password, 403 for a disabled account only once the password is right, otherwise the account's id |
| Auth.IssueCount | backend/app/routers/auth.py:192 | min(count, 10) codes, none for count ≤ 0 |
| Auth.IssueSpec | backend/app/routers/auth.py:185-202 | 403 iff not an admin; any failure changes nothing; an issue appends min(count, 10) codes as the admin's invitations |
| Auth.IssueCodes | backend/app/routers/auth.py:185-202 | 403 iff not an admin; an admin gets the codes appended, each single-use, open, theirs and expiring 30 days later; codes stay unique |
| Auth.AuthService.CreateInvitationCodes | backend/app/routers/auth.py:178-202 | the loop builds the codes; the table and answer follow the issue step |
| Config.CorsOriginsList | backend/app/config.py:23-25 | every origin is non-empty and has no surrounding whitespace |
| Config.CorsOriginsCount | backend/app/config.py:25 | at most (number of commas + 1) origins |
| Config.CorsOriginsDefault | backend/app/config.py:21-25 | the default setting gives no origin |
| Config.CorsOriginsSingle | backend/app/config.py:25 | a setting without a comma gives its stripped self, or nothing when blank |
| Config.CorsOriginsConcat | backend/app/config.py:25 | order is kept: the list of "a,b" is the list of a followed by the list of b |
| Config.CorsOriginsKeepsDuplicates | backend/app/config.py:25 | a repeated origin stays repeated |
| Common.ScalarOneOrNone | backend/app/routers/auth.py:46 | no row iff the query is empty, the row iff it has one |
| Strings.StripSpec | backend/app/config.py:25 | a stripped string is empty iff the input is blank, and otherwise has no surrounding whitespace |
| Strings.JoinSplit | backend/app/config.py:25 | joining the pieces of a split with the separator gives the string back |
| Strings.SplitJoin | scripts/prepare_alignment.py:321 | splitting a join of separator-free pieces gives the pieces back |
| Strings.SplitCharCount | backend/app/config.py:25 | splitting on a character gives one piece more than its occurrences |
| Strings.SplitCharFirst | backend/app/routers/auth.py:128 | the first piece is the prefix before the first separator |
| Strings.KeepStrippedAppend | backend/app/config.py:25 | the comprehension distributes over concatenation |
| Strings.LexTotal | backend/app/routers/books.py:62 | string order is total |
| Strings.LexTransitive | backend/app/routers/books.py:62 | string order is transitive |
| Strings.LexIrreflexive | backend/app/routers/books.py:62 | no string precedes itself |
| Strings.LexAsymmetric | backend/app/routers/books.py:62 | two strings never precede each other |
| Strings.Lower | backend/app/routers/books.py:74-79 | lower-casing keeps the length |
| Strings.Basename | backend/app/routers/books.py:73 | a basename is no longer than its path |
| Strings.DigitRunOf | backend/app/routers/books.py:49 | the digit run of digits followed by a non-digit is exactly those digits |
| Strings.ZeroPad3 | backend/app/utils/tts_utils.py:412 | `{idx:03d}` is at least three digits and reads back as idx |

## Left out

- Files and parsing. ZIP reading, EPUB/XML parsing, JSON files, directories and paths are outside the model. The model takes the name list, the parsed OPF/NCX trees, the file-existence test and the file contents as inputs.
- `find_container_xml` and `parse_container_xml` (backend/app/utils/epub_utils.py:40-91) are outside the model. Their outcome enters as the choice between no container, no OPF and a package.
- `opf_dir`, `file_path` and `full_path` (path joins) are left out. So are the dictionary order of the OPF manifest and pathlib's normalisation of a cover href.
- The failed copy of a cover file is left out: a cover is returned when the file exists.
- Foreign calls become parameters:
  - the speech engine's event stream;
  - ffmpeg's success;
  - MP3 length reads;
  - the recogniser's output;
  - password hashing and checking;
  - random codes and fresh ids.

  The interactive CPU-mode prompt and `sys.exit` are left out.
- E-mail sending, the DEBUG response text, JWT tokens and HTTP plumbing are left out.
- Float rounding is left out:
  - `round(x, 2)` in books.py is an abstract function;
  - `round(x, 3)` in tts_utils.py and `round(x, 2)` in prepare_alignment.py are not modelled;
  - in `TtsUtils.BookManifest`, `round(duration, 2)` per chapter (backend/app/utils/tts_utils.py:440) and `round(sum(...), 2)` for the total (backend/app/utils/tts_utils.py:459) are not modelled: the manifest holds the exact durations and their exact sum;
  - times are exact integers in ticks or milliseconds.
- Float comparisons at exact boundaries are left out. The reading-time estimate is an exact rational.
- Python's Unicode-aware `\d`, `\b`, `str.lower()` and `re.IGNORECASE` are modelled for ASCII only. A Chinese ideograph counts as a word character for `\b`.
- `MarkdownCleaner`, `get_mp3_duration` of tts_utils.py, `load_audio_files` and `main` of prepare_alignment.py are left out. They are I/O or regex substitution chains.
- The `asyncio.sleep` pauses, temporary files and their clean-up are left out.
- The clock is one reading `now` per request. Requests do not interleave.
- The database is sequences of rows. Commits are atomic, and the IntegrityError of a unique column is a server-error answer.
- `Books.ProgressStep`: `update_progress` checks no read permission. The model states this rather than adding a check.
- Books.Library.CreateBook: a fresh uuid is a precondition (an id not yet present), and the ZIP work before the insert is `ProcessBookZip`. The book row carries neither `total_duration` (the `int(...)` of the rounded total, backend/app/routers/books.py:232) nor `total_segments`; these are computed by `ProcessBookZip` and `TotalSegments` but not stored.
- `Auth.SendCodeCooldown`: the equivalence with "younger than 60 s" needs every stored code to be created by this route up to `now`. Under clock skew, `.seconds` reads a negative age as nearly a day (`Auth.TimedeltaSecondsBelowADay`).
- TtsUtils.AudioStartAgrees: the source never measures the segment MP3s; it places each chunk by its last word's end, so the agreement with the audio holds only when each file ends with its last word. `TtsUtils.AudioStartDrift` and `TtsUtils.SegmentAudioDrift` give the gap otherwise.
- TtsUtils.SegmentedTimeline: the reported total is the engine's durations plus the silences, not the merged audio's length; the two differ by the segment files' trailing audio, as stated.
- TtsUtils.ChapterTimeline: the same holds for a multi-segment chapter; the real MP3 lengths enter as a parameter the source never reads.

## Findings

| source | as written | input that shows it | evidently intended | confidence | as-written member | corrected member |
|---|---|---|---|---|---|---|
| backend/app/routers/auth.py:39-46 | `scalar_one_or_none()` over every unused, unexpired code of the e-mail raises MultipleResultsFound once two such codes exist | send a code at t, again at t+61 s (allowed), and again at t+62 s: the third request fails with a server error instead of 429 | use the newest active code, as the `order_by(created_at.desc())` suggests (`.first()`) | medium, not executed | Auth.SendCodeThirdRequestFails | Auth.SendCodeCooldown |
| backend/app/routers/auth.py:125-136 | `invitation.used_by = user.id` reads the id before the flush that assigns the Python-side uuid default, so `used_by` is stored empty | register once with a single-use invitation: it is closed with `used_by` None | record the new account in `used_by` | medium, not executed | Auth.UsedByNotRecorded | Auth.SingleUseInvitation |
| scripts/prepare_alignment.py:158-293 | on the MLX path a file's duration is its last segment's end, while `merge_audio_files` places files by their real audio length | a 10 s file whose speech ends at 9 s: the next file's segments are placed at 10 s although its audio starts at 11 s | offset each file by its audio length, as `merge_audio_files` does | high, not executed | PrepareAlignment.MlxDurationDrift | PrepareAlignment.DurationMatchesAudio |
