/** backend/app/routers/books.py: ingestion of a book ZIP, the per-book
    segment count, the de-duplicated book list and the access rules.

    The ZIP is its list of entry names; the MP3 reader (mutagen) is a function
    from an entry name to its length in seconds, None when it raises; Python's
    `round(x, 2)` is a function parameter; parsed JSON files are values of
    `Json`.  The database tables are sequences of rows. */
module Books {
  import opened Common
  import opened Strings

  // ---------------------------------------------------------------------------
  // Chapter file names: `^(\d{1,9})\.(mp3|txt|json)$`, case-insensitive
  // ---------------------------------------------------------------------------

  /** The extensions a chapter file may carry, lower-cased. */
  const Extensions: set<string> := {"mp3", "txt", "json"}

  /** `\d{1,9}\.(mp3|txt|json)` matched against the whole of `body`: the run
      of leading digits is 1 to 9 long, a dot follows it and the rest is one
      of the extensions in any letter case (a tenth digit cannot be a dot, so
      backtracking never helps). */
  function MatchChapterBody(body: string): (r: Option<string>)
    ensures r.Some? ==> 1 <= |r.value| <= 9 && AllDigits(r.value)
    ensures r.Some? ==> StartsWith(body, r.value + ".")
  {
    var n := DigitRun(body);
    if 1 <= n <= 9 && n < |body| && body[n] == '.' && Lower(body[n + 1..]) in Extensions then
      assert body[..n + 1] == body[..n] + ".";
      Some(body[..n])
    else None
  }

  /** The chapter id an entry name stands for. `re.match` anchors at the
      start of the basename; `$` matches at the end or just before a final
      "\n", so one trailing newline is accepted. */
  function ChapterId(name: string): (r: Option<string>)
    ensures r.Some? ==> 1 <= |r.value| <= 9 && AllDigits(r.value)
    ensures r.Some? ==> StartsWith(Basename(name), r.value + ".")
  {
    var b := Basename(name);
    if b != [] && b[|b| - 1] == '\n' then
      var r := MatchChapterBody(b[..|b| - 1]);
      assert r.Some? ==> b[..|r.value| + 1] == b[..|b| - 1][..|r.value| + 1];
      r
    else MatchChapterBody(b)
  }

  lemma MatchChapterBodyOf(id: string, ext: string)
    requires 1 <= |id| <= 9 && AllDigits(id) && Lower(ext) in Extensions
    ensures MatchChapterBody(id + "." + ext) == Some(id)
  {
    var body := id + "." + ext;
    DigitRunOf(id, "." + ext);
    assert body == id + ("." + ext);
    assert body[..|id|] == id && body[|id|] == '.' && body[|id| + 1..] == ext;
  }

  /** No extension ends in a newline, in any letter case. */
  lemma ExtensionLast(ext: string)
    requires Lower(ext) in Extensions
    ensures ext != [] && ext[|ext| - 1] != '\n' && '/' !in ext
  {
    var l := Lower(ext);
    assert l[|l| - 1] == LowerChar(ext[|ext| - 1]);
    assert l[|l| - 1] in {'3', 't', 'n'};
    forall k | 0 <= k < |ext| ensures ext[k] != '/' {
      assert l[k] == LowerChar(ext[k]);
      assert l[k] != '/';
    }
  }

  lemma {:induction false} BasenameOfFile(dir: string, file: string)
    requires '/' !in file
    ensures Basename(dir + "/" + file) == file
    decreases |file|
  {
    var p := dir + "/" + file;
    if file == [] {
      assert p[|p| - 1] == '/';
    } else {
      var init := file[..|file| - 1];
      assert p[..|p| - 1] == dir + "/" + init;
      assert '/' !in init by {
        forall k | 0 <= k < |init| ensures init[k] != '/' { assert init[k] == file[k]; }
      }
      BasenameOfFile(dir, init);
      assert file == init + [file[|file| - 1]];
    }
  }

  /** A file `<id>.<ext>` in any directory, with 1 to 9 digits and one of the
      three extensions in any letter case, is recognised as chapter `id`. */
  lemma ChapterIdOfFile(dir: string, id: string, ext: string)
    requires 1 <= |id| <= 9 && AllDigits(id) && Lower(ext) in Extensions
    ensures ChapterId(dir + "/" + id + "." + ext) == Some(id)
  {
    var file := id + "." + ext;
    ExtensionLast(ext);
    assert '/' !in file by {
      forall k | 0 <= k < |file| ensures file[k] != '/' {
        if k < |id| { assert IsDigit(id[k]); }
        else if k > |id| { assert file[k] == ext[k - |id| - 1]; }
      }
    }
    assert dir + "/" + id + "." + ext == dir + "/" + file;
    BasenameOfFile(dir, file);
    assert file[|file| - 1] == ext[|ext| - 1];
    MatchChapterBodyOf(id, ext);
  }

  /** The accepted trailing newline: "1.mp3\n" names chapter "1". */
  lemma ChapterIdTrailingNewline()
    ensures ChapterId("1.mp3\n") == Some("1")
  {
    var b := "1.mp3\n";
    BasenameTail(b);
    assert Lower("mp3") == "mp3";
    MatchChapterBodyOf("1", "mp3");
    assert b[..|b| - 1] == "1" + "." + "mp3";
  }

  lemma {:induction false} BasenameTail(p: string)
    requires '/' !in p
    ensures Basename(p) == p
    decreases |p|
  {
    if p != [] {
      var init := p[..|p| - 1];
      assert '/' !in init by {
        forall k | 0 <= k < |init| ensures init[k] != '/' { assert init[k] == p[k]; }
      }
      BasenameTail(init);
      assert p == init + [p[|p| - 1]];
    }
  }

  /** The ids of every recognised entry: `chapter_ids`. */
  function IdsOf(names: seq<string>): (r: set<string>)
  {
    if names == [] then {}
    else
      var last := ChapterId(names[|names| - 1]);
      IdsOf(names[..|names| - 1]) + (if last.Some? then {last.value} else {})
  }

  /** Every recognised entry contributes its id. */
  lemma {:induction false} IdsOfComplete(names: seq<string>, k: nat)
    requires k < |names| && ChapterId(names[k]).Some?
    ensures ChapterId(names[k]).value in IdsOf(names)
    decreases |names|
  {
    var init := names[..|names| - 1];
    if k < |init| {
      assert init[k] == names[k];
      IdsOfComplete(init, k);
    }
  }

  /** Every id comes from a recognised entry. */
  lemma {:induction false} IdsOfSound(names: seq<string>, id: string) returns (k: nat)
    requires id in IdsOf(names)
    ensures k < |names| && ChapterId(names[k]) == Some(id)
    decreases |names|
  {
    var init := names[..|names| - 1];
    if id in IdsOf(init) {
      k := IdsOfSound(init, id);
      assert init[k] == names[k];
    } else {
      k := |names| - 1;
    }
  }

  // ---------------------------------------------------------------------------
  // `sorted(chapter_ids)`: the ids in ascending code-point order
  // ---------------------------------------------------------------------------

  predicate StrictlySorted(q: seq<string>)
  {
    forall i, j | 0 <= i < j < |q| :: LexLess(q[i], q[j])
  }

  /** `q` lists the set `s` in ascending order, each element once. */
  predicate SortedOf(q: seq<string>, s: set<string>)
  {
    && StrictlySorted(q)
    && (forall k | 0 <= k < |q| :: q[k] in s)
    && (forall x | x in s :: x in q)
  }

  /** Every non-empty set of strings has a least element. */
  lemma LeastOf(s: set<string>) returns (m: string)
    requires s != {}
    ensures m in s && forall x | x in s && x != m :: LexLess(m, x)
    decreases |s|
  {
    var x :| x in s;
    if s == {x} {
      m := x;
    } else {
      var rest := LeastOf(s - {x});
      if LexLess(x, rest) {
        m := x;
        forall y | y in s && y != m ensures LexLess(m, y) {
          if y != rest { LexTransitive(x, rest, y); }
        }
      } else {
        LexTotal(x, rest);
        m := rest;
      }
    }
  }

  lemma SortedOfExists(s: set<string>) returns (q: seq<string>)
    ensures SortedOf(q, s)
    decreases |s|
  {
    if s == {} {
      q := [];
    } else {
      var m := LeastOf(s);
      var rest := SortedOfExists(s - {m});
      q := [m] + rest;
      forall i, j | 0 <= i < j < |q| ensures LexLess(q[i], q[j]) {
        assert q[j] == rest[j - 1];
        if i > 0 { assert q[i] == rest[i - 1]; }
      }
      forall x | x in s ensures x in q {
        if x != m { assert x in rest; }
      }
    }
  }

  lemma SortedExists(s: set<string>)
    ensures exists q :: SortedOf(q, s)
  {
    var q := SortedOfExists(s);
  }

  /** Two ascending listings of the same set are the same sequence, so
      `sorted` is determined by the set. */
  lemma {:induction false} SortedOfUnique(a: seq<string>, b: seq<string>, s: set<string>)
    requires SortedOf(a, s) && SortedOf(b, s)
    ensures a == b
    decreases |s|
  {
    if a == [] || b == [] {
      if a != [] { NonEmptyListing(a, b, s); }
      if b != [] { NonEmptyListing(b, a, s); }
    } else {
      if a[0] != b[0] {
        assert b[0] in a;
        var i :| 0 <= i < |a| && a[i] == b[0];
        assert a[0] in b;
        var j :| 0 <= j < |b| && b[j] == a[0];
        assert LexLess(a[0], b[0]) && LexLess(b[0], a[0]);
        LexAsymmetric(a[0], b[0]);
      }
      var m := a[0];
      var t := s - {m};
      forall k | 1 <= k < |a| ensures a[k] != m { LexIrreflexive(m); }
      forall k | 1 <= k < |b| ensures b[k] != m { LexIrreflexive(m); }
      assert SortedOf(a[1..], t) by {
        forall x | x in t ensures x in a[1..] {
          var k :| 0 <= k < |a| && a[k] == x;
          assert a[1..][k - 1] == x;
        }
      }
      assert SortedOf(b[1..], t) by {
        forall x | x in t ensures x in b[1..] {
          var k :| 0 <= k < |b| && b[k] == x;
          assert b[1..][k - 1] == x;
        }
      }
      SortedOfUnique(a[1..], b[1..], t);
      assert a == [m] + a[1..] && b == [m] + b[1..];
    }
  }

  lemma NonEmptyListing(a: seq<string>, b: seq<string>, s: set<string>)
    requires SortedOf(a, s) && SortedOf(b, s) && a != []
    ensures b != []
  {
    assert a[0] in s;
  }

  /** Python's `sorted(s)` for a set of strings. */
  ghost function SortedIds(s: set<string>): (q: seq<string>)
    ensures SortedOf(q, s)
  {
    SortedExists(s);
    var q :| SortedOf(q, s);
    q
  }

  /** Chapter "10" comes before chapter "9": the order is the order of the
      strings, not of the numbers they spell. */
  lemma StringOrderNotNumeric()
    ensures SortedIds({"9", "10"}) == ["10", "9"]
    ensures ParseDigits("10") > ParseDigits("9")
  {
    assert LexLess("10", "9");
    assert SortedOf(["10", "9"], {"9", "10"});
    SortedOfUnique(SortedIds({"9", "10"}), ["10", "9"], {"9", "10"});
    assert ParseDigits("1") == 1;
  }

  // ---------------------------------------------------------------------------
  // process_book_zip
  // ---------------------------------------------------------------------------

  /** The entry whose lower-cased basename is `target`; when several match,
      the last one wins, because each match overwrites the previous one. */
  function FindLast(names: seq<string>, target: string): (r: Option<string>)
  {
    if names == [] then None
    else if Lower(Basename(names[|names| - 1])) == target then Some(names[|names| - 1])
    else FindLast(names[..|names| - 1], target)
  }

  /** A found entry is an entry with that basename. */
  lemma {:induction false} FindLastFound(names: seq<string>, target: string)
    requires FindLast(names, target).Some?
    ensures FindLast(names, target).value in names && Lower(Basename(FindLast(names, target).value)) == target
    decreases |names|
  {
    var init := names[..|names| - 1];
    if Lower(Basename(names[|names| - 1])) != target {
      FindLastFound(init, target);
      var k :| 0 <= k < |init| && init[k] == FindLast(names, target).value;
      assert names[k] == init[k];
    }
  }

  /** Nothing is found exactly when no entry has that basename. */
  lemma {:induction false} FindLastNone(names: seq<string>, target: string)
    ensures FindLast(names, target).None? <==> forall k | 0 <= k < |names| :: Lower(Basename(names[k])) != target
    decreases |names|
  {
    if names != [] {
      var init := names[..|names| - 1];
      FindLastNone(init, target);
      if FindLast(names, target).None? {
        var last := names[|names| - 1];
        assert Lower(Basename(last)) != target;
        forall k | 0 <= k < |names| ensures Lower(Basename(names[k])) != target {
          if k < |init| { assert names[k] == init[k]; } else { assert names[k] == last; }
        }
      } else if Lower(Basename(names[|names| - 1])) != target {
        var k :| 0 <= k < |init| && Lower(Basename(init[k])) == target;
        assert names[k] == init[k];
      }
    }
  }

  /** The mp3, txt and json files of a chapter all exist, in any directories. */
  predicate Complete(names: seq<string>, id: string)
  {
    FindLast(names, id + ".mp3").Some? && FindLast(names, id + ".txt").Some? && FindLast(names, id + ".json").Some?
  }

  /** The inner loop of `process_book_zip`: looks up the three files of chapter
      `chId` among the entries. */
  method FindChapterFiles(names: seq<string>, chId: string) returns (mp3File: Option<string>, txtFile: Option<string>, jsonFile: Option<string>)
    ensures mp3File == FindLast(names, chId + ".mp3")
    ensures txtFile == FindLast(names, chId + ".txt")
    ensures jsonFile == FindLast(names, chId + ".json")
  {
    mp3File, txtFile, jsonFile := None, None, None;
    var mp3Name, txtName, jsonName := chId + ".mp3", chId + ".txt", chId + ".json";
    assert mp3Name[|chId| + 1] == 'm' && txtName[|chId| + 1] == 't' && jsonName[|chId| + 1] == 'j';
    for j := 0 to |names|
      invariant mp3File == FindLast(names[..j], mp3Name)
      invariant txtFile == FindLast(names[..j], txtName)
      invariant jsonFile == FindLast(names[..j], jsonName)
    {
      var p := names[..j + 1];
      assert p[..|p| - 1] == names[..j] && p[|p| - 1] == names[j];
      var basename := Lower(Basename(names[j]));
      if basename == mp3Name {
        mp3File := Some(names[j]);
      } else if basename == txtName {
        txtFile := Some(names[j]);
      } else if basename == jsonName {
        jsonFile := Some(names[j]);
      }
    }
    assert names[..|names|] == names;
  }

  /** The MP3 reader: the length in seconds, None when it raises. */
  type Mp3Reader = string -> Option<real>

  /** Python's `round(x, 2)`. */
  type Rounder = real -> real

  /** `get_mp3_duration`: the reader's length, or 0.0 when it raises. */
  function Mp3Duration(read: Mp3Reader, entry: string): real
  {
    match read(entry)
    case Some(length) => length
    case None => 0.0
  }

  datatype ChapterEntry = ChapterEntry(id: string, duration: real)

  datatype ZipManifest = ZipManifest(chapters: seq<ChapterEntry>, totalDuration: real)

  /** The manifest, or the ValueError raised when no entry is a chapter file
      or when no chapter is complete. */
  datatype ZipResult = ZipOk(manifest: ZipManifest) | NoChapterFiles | NoCompleteChapter

  /** The ids, in the given order, whose three files exist. */
  function CompleteIds(names: seq<string>, ids: seq<string>): (r: seq<string>)
    ensures |r| <= |ids|
    ensures forall k | 0 <= k < |r| :: Complete(names, r[k])
  {
    if ids == [] then []
    else
      var last := ids[|ids| - 1];
      CompleteIds(names, ids[..|ids| - 1]) + (if Complete(names, last) then [last] else [])
  }

  /** The unrounded length of each complete chapter, read from its mp3 entry. */
  function RawDurations(names: seq<string>, ids: seq<string>, read: Mp3Reader): (r: seq<real>)
    requires forall k | 0 <= k < |ids| :: Complete(names, ids[k])
    ensures |r| == |ids|
  {
    seq(|ids|, k requires 0 <= k < |ids| && Complete(names, ids[k]) => Mp3Duration(read, FindLast(names, ids[k] + ".mp3").value))
  }

  function SumReal(xs: seq<real>): real
  {
    if xs == [] then 0.0 else SumReal(xs[..|xs| - 1]) + xs[|xs| - 1]
  }

  /** The manifest's chapter list: each complete chapter with its own rounded length. */
  function ChapterEntries(ids: seq<string>, raw: seq<real>, round: Rounder): (r: seq<ChapterEntry>)
    requires |raw| == |ids|
    ensures |r| == |ids|
  {
    seq(|ids|, k requires 0 <= k < |ids| => ChapterEntry(ids[k], round(raw[k])))
  }

  /** What `process_book_zip` returns for a ZIP with these entries. */
  ghost function ZipSpec(names: seq<string>, read: Mp3Reader, round: Rounder): ZipResult
  {
    var ids := IdsOf(names);
    if ids == {} then NoChapterFiles
    else
      var complete := CompleteIds(names, SortedIds(ids));
      var raw := RawDurations(names, complete, read);
      if complete == [] then NoCompleteChapter
      else ZipOk(ZipManifest(ChapterEntries(complete, raw, round), round(SumReal(raw))))
  }

  lemma IdsOfStep(names: seq<string>, i: nat)
    requires i < |names|
    ensures IdsOf(names[..i + 1]) == IdsOf(names[..i]) + (if ChapterId(names[i]).Some? then {ChapterId(names[i]).value} else {})
  {
    var p := names[..i + 1];
    assert p[..|p| - 1] == names[..i] && p[|p| - 1] == names[i];
  }

  /** One more id of the sorted list: it is appended when it is complete. */
  lemma ChapterStep(names: seq<string>, ids: seq<string>, i: nat, done: seq<string>)
    requires i < |ids| && done == CompleteIds(names, ids[..i])
    ensures CompleteIds(names, ids[..i + 1]) == done + (if Complete(names, ids[i]) then [ids[i]] else [])
  {
    var p := ids[..i + 1];
    assert p[..|p| - 1] == ids[..i] && p[|p| - 1] == ids[i];
  }

  lemma RawDurationsSnoc(names: seq<string>, done: seq<string>, id: string, read: Mp3Reader)
    requires forall k | 0 <= k < |done| :: Complete(names, done[k])
    requires Complete(names, id)
    ensures RawDurations(names, done + [id], read) == RawDurations(names, done, read) + [Mp3Duration(read, FindLast(names, id + ".mp3").value)]
  {
  }

  lemma ChapterEntriesSnoc(ids: seq<string>, raw: seq<real>, id: string, x: real, round: Rounder)
    requires |raw| == |ids|
    ensures ChapterEntries(ids + [id], raw + [x], round) == ChapterEntries(ids, raw, round) + [ChapterEntry(id, round(x))]
  {
  }

  lemma SumRealSnoc(xs: seq<real>, x: real)
    ensures SumReal(xs + [x]) == SumReal(xs) + x
  {
    var p := xs + [x];
    assert p[..|p| - 1] == xs;
  }

  /** `process_book_zip`: collects the chapter ids, walks them in sorted order,
      skips a chapter that lacks one of its three files, and records each
      complete chapter with its rounded length; the total rounds the sum of
      the unrounded lengths. */
  method ProcessBookZip(names: seq<string>, read: Mp3Reader, round: Rounder) returns (r: ZipResult)
    ensures r == ZipSpec(names, read, round)
  {
    var chapterIds: set<string> := {};
    for i := 0 to |names|
      invariant chapterIds == IdsOf(names[..i])
    {
      IdsOfStep(names, i);
      var m := ChapterId(names[i]);
      if m.Some? {
        chapterIds := chapterIds + {m.value};
      }
    }
    assert names[..|names|] == names;
    if chapterIds == {} {
      return NoChapterFiles;
    }
    SortedExists(chapterIds);
    var sortedIds :| SortedOf(sortedIds, chapterIds);
    SortedOfUnique(sortedIds, SortedIds(chapterIds), chapterIds);
    var chapters: seq<ChapterEntry> := [];
    var totalDuration := 0.0;
    ghost var done: seq<string> := [];
    for i := 0 to |sortedIds|
      invariant done == CompleteIds(names, sortedIds[..i])
      invariant chapters == ChapterEntries(done, RawDurations(names, done, read), round)
      invariant totalDuration == SumReal(RawDurations(names, done, read))
    {
      var chId := sortedIds[i];
      var mp3File, txtFile, jsonFile := FindChapterFiles(names, chId);
      ChapterStep(names, sortedIds, i, done);
      if mp3File.None? || txtFile.None? || jsonFile.None? {
        continue;
      }
      var duration := Mp3Duration(read, mp3File.value);
      RawDurationsSnoc(names, done, chId, read);
      ChapterEntriesSnoc(done, RawDurations(names, done, read), chId, duration, round);
      SumRealSnoc(RawDurations(names, done, read), duration);
      chapters := chapters + [ChapterEntry(chId, round(duration))];
      totalDuration := totalDuration + duration;
      done := done + [chId];
    }
    assert sortedIds[..|sortedIds|] == sortedIds;
    if chapters == [] {
      return NoCompleteChapter;
    }
    return ZipOk(ZipManifest(chapters, round(totalDuration)));
  }

  /** Filtering keeps order and takes only ids from the list. */
  lemma {:induction false} CompleteIdsFrom(names: seq<string>, ids: seq<string>)
    ensures forall k | 0 <= k < |CompleteIds(names, ids)| :: CompleteIds(names, ids)[k] in ids
    ensures StrictlySorted(ids) ==> StrictlySorted(CompleteIds(names, ids))
    decreases |ids|
  {
    if ids != [] {
      var init := ids[..|ids| - 1];
      var last := ids[|ids| - 1];
      var r0 := CompleteIds(names, init);
      CompleteIdsFrom(names, init);
      assert forall x | x in init :: x in ids;
      if StrictlySorted(ids) && Complete(names, last) {
        var r := r0 + [last];
        forall i, j | 0 <= i < j < |r| ensures LexLess(r[i], r[j]) {
          if j == |r| - 1 {
            var m :| 0 <= m < |init| && init[m] == r[i];
            assert ids[m] == r[i];
          } else {
            assert r[i] == r0[i] && r[j] == r0[j];
          }
        }
      }
    }
  }

  /** Filtering drops no complete id. */
  lemma {:induction false} CompleteIdsKeep(names: seq<string>, ids: seq<string>, id: string)
    requires id in ids && Complete(names, id)
    ensures id in CompleteIds(names, ids)
    decreases |ids|
  {
    var init := ids[..|ids| - 1];
    if id != ids[|ids| - 1] {
      var m :| 0 <= m < |ids| && ids[m] == id;
      assert init[m] == id;
      CompleteIdsKeep(names, init, id);
    }
  }

  /** The two ValueErrors: no entry is a chapter file, or entries are but no
      chapter has all three files. */
  lemma ZipErrors(names: seq<string>, read: Mp3Reader, round: Rounder)
    ensures ZipSpec(names, read, round).NoChapterFiles? <==> forall k | 0 <= k < |names| :: ChapterId(names[k]).None?
    ensures ZipSpec(names, read, round).NoCompleteChapter? <==>
      IdsOf(names) != {} && forall id | id in IdsOf(names) :: !Complete(names, id)
  {
    var ids := IdsOf(names);
    if ids == {} {
      forall k | 0 <= k < |names| ensures ChapterId(names[k]).None? {
        if ChapterId(names[k]).Some? { IdsOfComplete(names, k); }
      }
    } else {
      var id :| id in ids;
      var k := IdsOfSound(names, id);
      var sorted := SortedIds(ids);
      var complete := CompleteIds(names, sorted);
      CompleteIdsFrom(names, sorted);
      if complete == [] {
        forall x | x in ids ensures !Complete(names, x) {
          if Complete(names, x) { CompleteIdsKeep(names, sorted, x); }
        }
      } else {
        assert complete[0] in sorted;
      }
    }
  }

  /** A manifest lists exactly the complete chapters, in ascending string order
      of id, each with its own rounded length; the total rounds the sum of the
      unrounded lengths. */
  lemma ZipChapters(names: seq<string>, read: Mp3Reader, round: Rounder)
    requires ZipSpec(names, read, round).ZipOk?
    ensures var m := ZipSpec(names, read, round).manifest;
      && (forall i, j | 0 <= i < j < |m.chapters| :: LexLess(m.chapters[i].id, m.chapters[j].id))
      && (forall k | 0 <= k < |m.chapters| ::
            && m.chapters[k].id in IdsOf(names)
            && Complete(names, m.chapters[k].id)
            && m.chapters[k].duration == round(Mp3Duration(read, FindLast(names, m.chapters[k].id + ".mp3").value)))
      && (forall id | id in IdsOf(names) && Complete(names, id) :: exists k | 0 <= k < |m.chapters| :: m.chapters[k].id == id)
      && m.totalDuration == round(SumReal(seq(|m.chapters|, k requires 0 <= k < |m.chapters| =>
            Mp3Duration(read, FindLast(names, m.chapters[k].id + ".mp3").value))))
  {
    var ids := IdsOf(names);
    var sorted := SortedIds(ids);
    var complete := CompleteIds(names, sorted);
    var raw := RawDurations(names, complete, read);
    var m := ZipSpec(names, read, round).manifest;
    CompleteIdsFrom(names, sorted);
    assert m.chapters == ChapterEntries(complete, raw, round);
    forall id | id in ids && Complete(names, id) ensures exists k | 0 <= k < |m.chapters| :: m.chapters[k].id == id {
      CompleteIdsKeep(names, sorted, id);
      var k :| 0 <= k < |complete| && complete[k] == id;
      assert m.chapters[k].id == id;
    }
    assert raw == seq(|m.chapters|, k requires 0 <= k < |m.chapters| =>
            Mp3Duration(read, FindLast(names, m.chapters[k].id + ".mp3").value));
  }

  /** An mp3 entry the reader cannot read counts as 0.0 seconds. */
  lemma UnreadableMp3(names: seq<string>, read: Mp3Reader, round: Rounder, k: nat)
    requires ZipSpec(names, read, round).ZipOk?
    requires k < |ZipSpec(names, read, round).manifest.chapters|
    requires var c := ZipSpec(names, read, round).manifest.chapters[k];
      Complete(names, c.id) && read(FindLast(names, c.id + ".mp3").value).None?
    ensures ZipSpec(names, read, round).manifest.chapters[k].duration == round(0.0)
  {
    ZipChapters(names, read, round);
  }

  /** A name with a trailing newline passes the pattern but not the lookup of
      the chapter's files, so such an upload is rejected as having no complete
      chapter rather than as having no chapter file. */
  lemma TrailingNewlineUpload(names: seq<string>, k: nat, read: Mp3Reader, round: Rounder)
    requires forall j | 0 <= j < |names| :: names[j] != [] && names[j][|names[j]| - 1] == '\n' && '/' !in names[j]
    requires k < |names| && ChapterId(names[k]).Some?
    ensures ZipSpec(names, read, round) == NoCompleteChapter
  {
    IdsOfComplete(names, k);
    NewlineNamesIncomplete(names);
    ZipErrors(names, read, round);
  }

  lemma NewlineNamesIncomplete(names: seq<string>)
    requires forall j | 0 <= j < |names| :: names[j] != [] && names[j][|names[j]| - 1] == '\n' && '/' !in names[j]
    ensures forall id :: !Complete(names, id)
  {
    forall id ensures !Complete(names, id) {
      NewlineNamesMatchNothing(names, id + ".mp3");
    }
  }

  /** Entries that end in a newline are never found under a name that does not. */
  lemma NewlineNamesMatchNothing(names: seq<string>, target: string)
    requires forall j | 0 <= j < |names| :: names[j] != [] && names[j][|names[j]| - 1] == '\n' && '/' !in names[j]
    requires target != [] && target[|target| - 1] != '\n'
    ensures FindLast(names, target).None?
  {
    forall j | 0 <= j < |names| ensures Lower(Basename(names[j])) != target {
      BasenameTail(names[j]);
      var l := Lower(names[j]);
      assert l[|l| - 1] == LowerChar(names[j][|names[j]| - 1]);
    }
    FindLastNone(names, target);
  }

  // ---------------------------------------------------------------------------
  // create_book: total_segments
  // ---------------------------------------------------------------------------

  /** A parsed JSON value. */
  datatype Json = JList(items: seq<Json>) | JObject(fields: map<string, Json>) | JString(text: string) | JScalar

  /** Python's `len` of a JSON value; None where it raises TypeError. */
  function JsonLen(j: Json): Option<nat>
  {
    match j
    case JList(items) => Some(|items|)
    case JObject(fields) => Some(|fields|)
    case JString(text) => Some(|text|)
    case JScalar => None
  }

  /** What one chapter's alignment file adds: the length of a list, the length
      of a dict's "segments" entry, 0 for anything else or a missing file;
      None where `len` raises. */
  function SegmentCount(align: Option<Json>): Option<nat>
  {
    match align
    case None => Some(0)
    case Some(JList(items)) => Some(|items|)
    case Some(JObject(fields)) => if "segments" in fields then JsonLen(fields["segments"]) else Some(0)
    case Some(_) => Some(0)
  }

  /** The sum of the counts, or None when one of them raises. */
  function SegmentTotal(chapterIds: seq<string>, alignFiles: map<string, Json>): (r: Option<nat>)
    ensures (forall k | 0 <= k < |chapterIds| :: chapterIds[k] !in alignFiles) ==> r == Some(0)
  {
    if chapterIds == [] then Some(0)
    else
      var id := chapterIds[|chapterIds| - 1];
      var before := SegmentTotal(chapterIds[..|chapterIds| - 1], alignFiles);
      var here := SegmentCount(if id in alignFiles then Some(alignFiles[id]) else None);
      if before.Some? && here.Some? then Some(before.value + here.value) else None
  }

  /** The `total_segments` loop of `create_book`: the alignment file of chapter
      `id` is `alignFiles[id]` when it exists. */
  method TotalSegments(chapterIds: seq<string>, alignFiles: map<string, Json>) returns (r: Option<nat>)
    ensures r == SegmentTotal(chapterIds, alignFiles)
  {
    var totalSegments := 0;
    for i := 0 to |chapterIds|
      invariant SegmentTotal(chapterIds[..i], alignFiles) == Some(totalSegments)
    {
      var p := chapterIds[..i + 1];
      assert p[..|p| - 1] == chapterIds[..i] && p[|p| - 1] == chapterIds[i];
      var id := chapterIds[i];
      if id in alignFiles {
        var alignData := alignFiles[id];
        if alignData.JList? {
          totalSegments := totalSegments + |alignData.items|;
        } else if alignData.JObject? && "segments" in alignData.fields {
          var n := JsonLen(alignData.fields["segments"]);
          if n.None? {
            SegmentTotalRaises(chapterIds, alignFiles, i + 1);
            return None;
          }
          totalSegments := totalSegments + n.value;
        }
      }
    }
    assert chapterIds[..|chapterIds|] == chapterIds;
    return Some(totalSegments);
  }

  /** Once one count raises, the whole total raises. */
  lemma {:induction false} SegmentTotalRaises(chapterIds: seq<string>, alignFiles: map<string, Json>, i: nat)
    requires i <= |chapterIds| && SegmentTotal(chapterIds[..i], alignFiles).None?
    ensures SegmentTotal(chapterIds, alignFiles).None?
    decreases |chapterIds| - i
  {
    if i < |chapterIds| {
      var p := chapterIds[..i + 1];
      assert p[..|p| - 1] == chapterIds[..i];
      SegmentTotalRaises(chapterIds, alignFiles, i + 1);
    } else {
      assert chapterIds[..i] == chapterIds;
    }
  }

  /** The total is the sum over the chapters: counting two lists of chapters
      one after the other adds their totals, and raises when either raises. */
  lemma {:induction false} SegmentTotalAppend(a: seq<string>, b: seq<string>, alignFiles: map<string, Json>)
    ensures var ta, tb, t := SegmentTotal(a, alignFiles), SegmentTotal(b, alignFiles), SegmentTotal(a + b, alignFiles);
      t == if ta.Some? && tb.Some? then Some(ta.value + tb.value) else None
    decreases |b|
  {
    if b == [] {
      assert a + b == a;
    } else {
      var p := a + b;
      assert p[..|p| - 1] == a + b[..|b| - 1] && p[|p| - 1] == b[|b| - 1];
      SegmentTotalAppend(a, b[..|b| - 1], alignFiles);
    }
  }

  /** A book whose alignment files are all lists counts all their items. */
  lemma {:induction false} SegmentTotalOfLists(chapterIds: seq<string>, alignFiles: map<string, Json>)
    requires forall k | 0 <= k < |chapterIds| :: chapterIds[k] in alignFiles && alignFiles[chapterIds[k]].JList?
    ensures SegmentTotal(chapterIds, alignFiles) == Some(Sum(seq(|chapterIds|, k requires 0 <= k < |chapterIds| => |alignFiles[chapterIds[k]].items|)))
    decreases |chapterIds|
  {
    if chapterIds != [] {
      var n := |chapterIds|;
      var init := chapterIds[..n - 1];
      SegmentTotalOfLists(init, alignFiles);
      var counts := seq(n, k requires 0 <= k < n => |alignFiles[chapterIds[k]].items|);
      assert counts[..n - 1] == seq(n - 1, k requires 0 <= k < n - 1 => |alignFiles[init[k]].items|);
    }
  }

  // ---------------------------------------------------------------------------
  // The book tables: listing, access, sharing, deletion, reading progress
  // ---------------------------------------------------------------------------

  datatype BookRow = BookRow(id: string, ownerId: string, isPublic: bool)

  datatype ShareRow = ShareRow(bookId: string, sharedBy: string, sharedTo: string)

  datatype UserRow = UserRow(id: string, email: string, isAdmin: bool)

  datatype ProgressRow = ProgressRow(userId: string, bookId: string, position: real, segment: int, speed: real)

  predicate UniqueBookIds(rows: seq<BookRow>)
  {
    forall i, j | 0 <= i < j < |rows| :: rows[i].id != rows[j].id
  }

  /** The user may read the book: owner, public, or shared with them. */
  predicate CanView(shares: seq<ShareRow>, userId: string, book: BookRow)
  {
    book.ownerId == userId || book.isPublic || exists k | 0 <= k < |shares| :: shares[k].bookId == book.id && shares[k].sharedTo == userId
  }

  /** The position of the row with this id among `rows`. */
  function IndexOfId(rows: seq<BookRow>, id: string): (r: Option<nat>)
    ensures r.Some? ==> r.value < |rows| && rows[r.value].id == id
    ensures r.None? ==> forall k | 0 <= k < |rows| :: rows[k].id != id
  {
    if rows == [] then None
    else if rows[|rows| - 1].id == id then Some(|rows| - 1)
    else IndexOfId(rows[..|rows| - 1], id)
  }

  /** `{str(b.id): b for b in rows}.values()`: one row per id, at the place of
      the id's first occurrence, holding the id's last row. */
  function DedupById(rows: seq<BookRow>): (r: seq<BookRow>)
    ensures |r| <= |rows|
  {
    if rows == [] then []
    else
      var d := DedupById(rows[..|rows| - 1]);
      var b := rows[|rows| - 1];
      match IndexOfId(d, b.id)
      case Some(k) => d[k := b]
      case None => d + [b]
  }

  /** The de-duplicated list has each id once, has every id of the input,
      and holds only input rows. */
  lemma DedupSpec(rows: seq<BookRow>)
    ensures UniqueBookIds(DedupById(rows))
    ensures forall k | 0 <= k < |rows| :: IndexOfId(DedupById(rows), rows[k].id).Some?
    ensures forall j | 0 <= j < |DedupById(rows)| :: DedupById(rows)[j] in rows
  {
    DedupUnique(rows);
    forall k | 0 <= k < |rows| ensures IndexOfId(DedupById(rows), rows[k].id).Some? {
      DedupKeepsIds(rows, k);
    }
    DedupRowsFrom(rows);
  }

  lemma {:induction false} DedupUnique(rows: seq<BookRow>)
    ensures UniqueBookIds(DedupById(rows))
    decreases |rows|
  {
    if rows != [] {
      var init := rows[..|rows| - 1];
      var d := DedupById(init);
      var b := rows[|rows| - 1];
      DedupUnique(init);
      if IndexOfId(d, b.id).None? {
        var r := d + [b];
        forall i, j | 0 <= i < j < |r| ensures r[i].id != r[j].id {
          assert r[i] == d[i];
        }
      }
    }
  }

  lemma {:induction false} DedupKeepsIds(rows: seq<BookRow>, k: nat)
    requires k < |rows|
    ensures IndexOfId(DedupById(rows), rows[k].id).Some?
    decreases |rows|
  {
    var init := rows[..|rows| - 1];
    var d := DedupById(init);
    var b := rows[|rows| - 1];
    var r := DedupById(rows);
    if k < |init| {
      DedupKeepsIds(init, k);
      var i := IndexOfId(d, init[k].id).value;
      assert r[i].id == d[i].id;
    } else if IndexOfId(d, b.id).None? {
      assert rows[k] == b && r[|r| - 1] == b;
    } else {
      var i := IndexOfId(d, b.id).value;
      assert rows[k] == b && r[i] == b;
    }
  }

  lemma {:induction false} DedupRowsFrom(rows: seq<BookRow>)
    ensures forall j | 0 <= j < |DedupById(rows)| :: DedupById(rows)[j] in rows
    decreases |rows|
  {
    if rows != [] {
      var init := rows[..|rows| - 1];
      DedupRowsFrom(init);
      assert forall x | x in init :: x in rows;
    }
  }

  /** The three queries of `get_books`, each in table order: own books,
      books shared with the user, and other users' public books. */
  function OwnBooks(books: seq<BookRow>, userId: string): seq<BookRow>
  {
    Filter(books, (b: BookRow) => b.ownerId == userId)
  }

  function SharedBooks(books: seq<BookRow>, shares: seq<ShareRow>, userId: string): seq<BookRow>
  {
    Filter(books, (b: BookRow) => exists k | 0 <= k < |shares| :: shares[k].bookId == b.id && shares[k].sharedTo == userId)
  }

  function PublicBooks(books: seq<BookRow>, userId: string): seq<BookRow>
  {
    Filter(books, (b: BookRow) => b.isPublic && b.ownerId != userId)
  }

  /** What `get_books` returns: the merged list and its length as `total`. */
  function GetBooks(books: seq<BookRow>, shares: seq<ShareRow>, userId: string): (r: (seq<BookRow>, nat))
    ensures r.1 == |r.0|
  {
    var all := DedupById(OwnBooks(books, userId) + SharedBooks(books, shares, userId) + PublicBooks(books, userId));
    (all, |all|)
  }

  /** `get_books` lists each book once, and lists exactly the books the user
      may open with `get_book`. */
  lemma GetBooksVisible(books: seq<BookRow>, shares: seq<ShareRow>, userId: string, book: BookRow)
    requires UniqueBookIds(books)
    ensures UniqueBookIds(GetBooks(books, shares, userId).0)
    ensures book in GetBooks(books, shares, userId).0 <==> book in books && CanView(shares, userId, book)
  {
    var own, shared, public := OwnBooks(books, userId), SharedBooks(books, shares, userId), PublicBooks(books, userId);
    var all := own + shared + public;
    var r := DedupById(all);
    DedupSpec(all);
    FilterMember(books, (b: BookRow) => b.ownerId == userId, book);
    FilterMember(books, (b: BookRow) => exists k | 0 <= k < |shares| :: shares[k].bookId == b.id && shares[k].sharedTo == userId, book);
    FilterMember(books, (b: BookRow) => b.isPublic && b.ownerId != userId, book);
    assert forall x | x in all :: x in books by {
      forall x | x in all ensures x in books {
        FilterMember(books, (b: BookRow) => b.ownerId == userId, x);
        FilterMember(books, (b: BookRow) => exists k | 0 <= k < |shares| :: shares[k].bookId == b.id && shares[k].sharedTo == userId, x);
        FilterMember(books, (b: BookRow) => b.isPublic && b.ownerId != userId, x);
      }
    }
    if book in r {
      assert book in all;
      FilterMember(books, (b: BookRow) => b.ownerId == userId, book);
    }
    if book in books && CanView(shares, userId, book) {
      assert book in all;
      var k :| 0 <= k < |all| && all[k] == book;
      var j := IndexOfId(r, book.id).value;
      assert r[j] in all;
      var i1 :| 0 <= i1 < |books| && books[i1] == r[j];
      var i2 :| 0 <= i2 < |books| && books[i2] == book;
      assert i1 == i2;
    }
  }

  // ---------------------------------------------------------------------------
  // get_book, share_book, delete_book and update_progress
  // ---------------------------------------------------------------------------

  /** No two share rows give the same book to the same user. */
  predicate NoDuplicateShares(shares: seq<ShareRow>)
  {
    forall i, j | 0 <= i < j < |shares| :: !(shares[i].bookId == shares[j].bookId && shares[i].sharedTo == shares[j].sharedTo)
  }

  /** No two progress rows for the same user and book. */
  predicate NoDuplicateProgress(progress: seq<ProgressRow>)
  {
    forall i, j | 0 <= i < j < |progress| :: !(progress[i].userId == progress[j].userId && progress[i].bookId == progress[j].bookId)
  }

  /** `users.email` is declared unique. */
  predicate UniqueEmails(users: seq<UserRow>)
  {
    forall i, j | 0 <= i < j < |users| :: users[i].email != users[j].email
  }

  /** `select(Book).where(Book.id == book_id)` */
  function BooksWithId(books: seq<BookRow>, bookId: string): seq<BookRow>
  {
    Filter(books, (b: BookRow) => b.id == bookId)
  }

  /** `select(BookShare).where(book_id == ...).where(shared_to == ...)` */
  function SharesTo(shares: seq<ShareRow>, bookId: string, userId: string): seq<ShareRow>
  {
    Filter(shares, (s: ShareRow) => s.bookId == bookId && s.sharedTo == userId)
  }

  /** `select(User).where(User.email == email)` */
  function UsersWithEmail(users: seq<UserRow>, email: string): seq<UserRow>
  {
    Filter(users, (u: UserRow) => u.email == email)
  }

  /** `select(ReadingProgress).where(book_id == ...).where(user_id == ...)` */
  function ProgressOf(progress: seq<ProgressRow>, userId: string, bookId: string): seq<ProgressRow>
  {
    Filter(progress, (p: ProgressRow) => p.userId == userId && p.bookId == bookId)
  }

  /** The response of `get_book`: 404, 403, the book, or a 500 when a
      `scalar_one_or_none` query finds several rows. */
  datatype BookAccess = BookNotFound | Forbidden | Granted(book: BookRow) | AccessServerError

  /** `get_book`: the book by id; a reader who neither owns it nor finds it
      public needs a share row naming them. */
  function GetBook(books: seq<BookRow>, shares: seq<ShareRow>, userId: string, bookId: string): (r: BookAccess)
    ensures r == BookNotFound <==> BooksWithId(books, bookId) == []
    ensures r.Granted? ==>
      (r.book == BooksWithId(books, bookId)[0]
       && (r.book.ownerId == userId || r.book.isPublic || SharesTo(shares, bookId, userId) != []))
    ensures r == Forbidden ==> SharesTo(shares, bookId, userId) == []
  {
    match ScalarOneOrNone(BooksWithId(books, bookId))
    case NoRow => BookNotFound
    case ManyRows => AccessServerError
    case OneRow(book) =>
      if book.ownerId != userId && !book.isPublic then
        match ScalarOneOrNone(SharesTo(shares, bookId, userId))
        case NoRow => Forbidden
        case OneRow(_) => Granted(book)
        case ManyRows => AccessServerError
      else Granted(book)
  }

  /** With unique book ids, the query by id finds exactly the row carrying it. */
  lemma BooksWithIdOne(books: seq<BookRow>, k: nat)
    requires UniqueBookIds(books) && k < |books|
    ensures BooksWithId(books, books[k].id) == [books[k]]
  {
    var p := (b: BookRow) => b.id == books[k].id;
    var f := Filter(books, p);
    FilterAtMostOne(books, p);
    FilterEmpty(books, p);
    assert f != [];
    FilterMember(books, p, f[0]);
    var j :| 0 <= j < |books| && books[j] == f[0];
    assert j == k;
  }

  lemma BooksWithIdNone(books: seq<BookRow>, bookId: string)
    requires forall k | 0 <= k < |books| :: books[k].id != bookId
    ensures BooksWithId(books, bookId) == []
  {
    FilterEmpty(books, (b: BookRow) => b.id == bookId);
  }

  /** Without duplicate shares, the share query finds a row exactly when one
      exists. */
  lemma SharesToLookup(shares: seq<ShareRow>, bookId: string, userId: string)
    requires NoDuplicateShares(shares)
    ensures !ScalarOneOrNone(SharesTo(shares, bookId, userId)).ManyRows?
    ensures ScalarOneOrNone(SharesTo(shares, bookId, userId)).OneRow? <==>
      exists k | 0 <= k < |shares| :: shares[k].bookId == bookId && shares[k].sharedTo == userId
  {
    var p := (s: ShareRow) => s.bookId == bookId && s.sharedTo == userId;
    FilterAtMostOne(shares, p);
    FilterEmpty(shares, p);
  }

  /** `get_book` grants a row exactly when the reader may view it, refuses it
      otherwise, answers 404 exactly when no row has the id, and never fails
      on well-formed tables. */
  lemma GetBookAccess(books: seq<BookRow>, shares: seq<ShareRow>, userId: string, bookId: string)
    requires UniqueBookIds(books) && NoDuplicateShares(shares)
    ensures GetBook(books, shares, userId, bookId) == BookNotFound <==> forall k | 0 <= k < |books| :: books[k].id != bookId
    ensures forall k | 0 <= k < |books| && books[k].id == bookId ::
      GetBook(books, shares, userId, bookId) == (if CanView(shares, userId, books[k]) then Granted(books[k]) else Forbidden)
  {
    if k :| 0 <= k < |books| && books[k].id == bookId {
      BooksWithIdOne(books, k);
      SharesToLookup(shares, bookId, userId);
      forall j | 0 <= j < |books| && books[j].id == bookId ensures j == k {}
    } else {
      BooksWithIdNone(books, bookId);
    }
  }

  /** `get_books` lists a book exactly when `get_book` grants it. */
  lemma GetBooksAgreesWithGetBook(books: seq<BookRow>, shares: seq<ShareRow>, userId: string, book: BookRow)
    requires UniqueBookIds(books) && NoDuplicateShares(shares)
    ensures book in GetBooks(books, shares, userId).0 <==> GetBook(books, shares, userId, book.id) == Granted(book)
  {
    GetBooksVisible(books, shares, userId, book);
    GetBookAccess(books, shares, userId, book.id);
    if GetBook(books, shares, userId, book.id) == Granted(book) {
      var k :| 0 <= k < |books| && books[k].id == book.id;
    }
  }

  /** A duplicated share row turns `get_book` into a server error for the
      reader it names. */
  lemma GetBookDuplicateShare(owner: string, reader: string, s: ShareRow)
    requires owner != reader
    ensures GetBook([BookRow(s.bookId, owner, false)], [s.(sharedTo := reader), s.(sharedTo := reader)], reader, s.bookId) == AccessServerError
  {
    var shares := [s.(sharedTo := reader), s.(sharedTo := reader)];
    var p := (x: ShareRow) => x.bookId == s.bookId && x.sharedTo == reader;
    assert Filter(shares[..1], p) == [shares[0]];
    assert |SharesTo(shares, s.bookId, reader)| == 2;
    assert BooksWithId([BookRow(s.bookId, owner, false)], s.bookId) == [BookRow(s.bookId, owner, false)];
  }

  /** The responses of `share_book`. */
  datatype ShareOutcome = ShareBookNotFound | NotOwner | TargetNotFound | AlreadyShared | SharedWith(targetId: string) | MadePublic | ShareServerError

  /** `book.is_public = True` on the row with this id. */
  function SetPublic(books: seq<BookRow>, bookId: string): (r: seq<BookRow>)
    ensures |r| == |books|
  {
    seq(|books|, k requires 0 <= k < |books| => if books[k].id == bookId then books[k].(isPublic := true) else books[k])
  }

  /** `share_book` by `userId`: its response with the new book and share
      tables.  A missing or empty email makes the book public. */
  function ShareStep(books: seq<BookRow>, shares: seq<ShareRow>, users: seq<UserRow>, userId: string, bookId: string, email: Option<string>)
    : (r: (seq<BookRow>, seq<ShareRow>, ShareOutcome))
    ensures r.2.SharedWith? ==> r.0 == books && r.1 == shares + [ShareRow(bookId, userId, r.2.targetId)]
    ensures r.2 == MadePublic ==> r.0 == SetPublic(books, bookId) && r.1 == shares
    ensures !r.2.SharedWith? && r.2 != MadePublic ==> r.0 == books && r.1 == shares
    ensures r.2 == ShareBookNotFound <==> BooksWithId(books, bookId) == []
  {
    match ScalarOneOrNone(BooksWithId(books, bookId))
    case NoRow => (books, shares, ShareBookNotFound)
    case ManyRows => (books, shares, ShareServerError)
    case OneRow(book) =>
      if book.ownerId != userId then (books, shares, NotOwner)
      else if email.Some? && email.value != "" then
        match ScalarOneOrNone(UsersWithEmail(users, email.value))
        case NoRow => (books, shares, TargetNotFound)
        case ManyRows => (books, shares, ShareServerError)
        case OneRow(target) =>
          match ScalarOneOrNone(SharesTo(shares, bookId, target.id))
          case NoRow => (books, shares + [ShareRow(bookId, userId, target.id)], SharedWith(target.id))
          case OneRow(_) => (books, shares, AlreadyShared)
          case ManyRows => (books, shares, ShareServerError)
      else (SetPublic(books, bookId), shares, MadePublic)
  }

  /** `share_book` keeps book ids unique and never writes a second share row
      for the same book and user. */
  lemma ShareKeepsTables(books: seq<BookRow>, shares: seq<ShareRow>, users: seq<UserRow>, userId: string, bookId: string, email: Option<string>)
    requires UniqueBookIds(books) && NoDuplicateShares(shares)
    ensures UniqueBookIds(ShareStep(books, shares, users, userId, bookId, email).0)
    ensures NoDuplicateShares(ShareStep(books, shares, users, userId, bookId, email).1)
  {
    var r := ShareStep(books, shares, users, userId, bookId, email);
    if r.2.SharedWith? {
      var t := r.2.targetId;
      assert r.1 == shares + [ShareRow(bookId, userId, t)];
      SharesToLookup(shares, bookId, t);
      forall i, j | 0 <= i < j < |r.1| ensures !(r.1[i].bookId == r.1[j].bookId && r.1[i].sharedTo == r.1[j].sharedTo) {
        assert r.1[i] == shares[i];
      }
    } else if r.2 == MadePublic {
      var b := SetPublic(books, bookId);
      forall i, j | 0 <= i < j < |b| ensures b[i].id != b[j].id {
        assert b[i].id == books[i].id && b[j].id == books[j].id;
      }
    }
  }

  /** Every response but a share or a publication leaves both tables as they
      were, and only the owner of an existing book gets one of those two; for
      the owner a missing or empty email publishes the book. */
  lemma ShareOnlyByOwner(books: seq<BookRow>, shares: seq<ShareRow>, users: seq<UserRow>, userId: string, bookId: string, email: Option<string>)
    requires UniqueBookIds(books)
    ensures var r := ShareStep(books, shares, users, userId, bookId, email);
      (r.0, r.1) != (books, shares) ==> r.2.SharedWith? || r.2 == MadePublic
    ensures var r := ShareStep(books, shares, users, userId, bookId, email);
      r.2.SharedWith? || r.2 == MadePublic ==> exists k | 0 <= k < |books| :: books[k].id == bookId && books[k].ownerId == userId
    ensures (exists k | 0 <= k < |books| :: books[k].id == bookId && books[k].ownerId == userId) && (email.None? || email.value == "") ==>
      ShareStep(books, shares, users, userId, bookId, email).2 == MadePublic
  {
    if k :| 0 <= k < |books| && books[k].id == bookId {
      BooksWithIdOne(books, k);
      forall j | 0 <= j < |books| && books[j].id == bookId ensures j == k {}
    } else {
      BooksWithIdNone(books, bookId);
    }
  }

  /** After a share the named user can open the book; after making it public
      every user can. */
  lemma ShareGrantsAccess(books: seq<BookRow>, shares: seq<ShareRow>, users: seq<UserRow>, userId: string, bookId: string, email: Option<string>, reader: string)
    requires UniqueBookIds(books) && NoDuplicateShares(shares)
    ensures var r := ShareStep(books, shares, users, userId, bookId, email);
      r.2.SharedWith? ==> GetBook(r.0, r.1, r.2.targetId, bookId).Granted?
    ensures var r := ShareStep(books, shares, users, userId, bookId, email);
      r.2 == MadePublic ==> GetBook(r.0, r.1, reader, bookId).Granted?
  {
    var r := ShareStep(books, shares, users, userId, bookId, email);
    ShareKeepsTables(books, shares, users, userId, bookId, email);
    if r.2.SharedWith? || r.2 == MadePublic {
      var k :| 0 <= k < |books| && books[k].id == bookId by {
        FilterEmpty(books, (b: BookRow) => b.id == bookId);
      }
      if r.2.SharedWith? {
        var t := r.2.targetId;
        assert r.1[|shares|] == ShareRow(bookId, userId, t);
        assert r.0 == books;
        GetBookAccess(r.0, r.1, t, bookId);
      } else {
        assert r.0[k].id == bookId && r.0[k].isPublic;
        GetBookAccess(r.0, r.1, reader, bookId);
      }
    }
  }

  /** The responses of `delete_book`. */
  datatype DeleteOutcome = DeleteNotFound | DeleteForbidden | Deleted | DeleteServerError

  /** `delete_book` by `user`: the owner or an administrator removes the book,
      and the cascades remove its share and progress rows. */
  function DeleteStep(books: seq<BookRow>, shares: seq<ShareRow>, progress: seq<ProgressRow>, user: UserRow, bookId: string)
    : (r: (seq<BookRow>, seq<ShareRow>, seq<ProgressRow>, DeleteOutcome))
    ensures r.3 != Deleted ==> r.0 == books && r.1 == shares && r.2 == progress
    ensures r.3 == DeleteNotFound <==> BooksWithId(books, bookId) == []
    ensures r.3 == Deleted ==>
      (|BooksWithId(books, bookId)| == 1 && (BooksWithId(books, bookId)[0].ownerId == user.id || user.isAdmin))
  {
    match ScalarOneOrNone(BooksWithId(books, bookId))
    case NoRow => (books, shares, progress, DeleteNotFound)
    case ManyRows => (books, shares, progress, DeleteServerError)
    case OneRow(book) =>
      if book.ownerId != user.id && !user.isAdmin then (books, shares, progress, DeleteForbidden)
      else
        (Filter(books, (b: BookRow) => b.id != bookId),
         Filter(shares, (s: ShareRow) => s.bookId != bookId),
         Filter(progress, (p: ProgressRow) => p.bookId != bookId),
         Deleted)
  }

  /** A deletion happens exactly when the book exists and the user owns it or
      is an administrator; otherwise nothing changes. */
  lemma DeleteAllowed(books: seq<BookRow>, shares: seq<ShareRow>, progress: seq<ProgressRow>, user: UserRow, bookId: string)
    requires UniqueBookIds(books)
    ensures DeleteStep(books, shares, progress, user, bookId).3 == Deleted <==>
      exists k | 0 <= k < |books| :: books[k].id == bookId && (books[k].ownerId == user.id || user.isAdmin)
    ensures DeleteStep(books, shares, progress, user, bookId).3 == DeleteNotFound <==>
      forall k | 0 <= k < |books| :: books[k].id != bookId
    ensures DeleteStep(books, shares, progress, user, bookId).3 != Deleted ==>
      DeleteStep(books, shares, progress, user, bookId) == (books, shares, progress, DeleteStep(books, shares, progress, user, bookId).3)
  {
    if k :| 0 <= k < |books| && books[k].id == bookId {
      BooksWithIdOne(books, k);
      forall j | 0 <= j < |books| && books[j].id == bookId ensures j == k {}
    } else {
      BooksWithIdNone(books, bookId);
    }
  }

  /** After a deletion no row of any table refers to the book, and every row
      about another book is still there. */
  lemma DeleteCascades(books: seq<BookRow>, shares: seq<ShareRow>, progress: seq<ProgressRow>, user: UserRow, bookId: string,
                       b: BookRow, s: ShareRow, p: ProgressRow)
    requires DeleteStep(books, shares, progress, user, bookId).3 == Deleted
    ensures b in DeleteStep(books, shares, progress, user, bookId).0 <==> b in books && b.id != bookId
    ensures s in DeleteStep(books, shares, progress, user, bookId).1 <==> s in shares && s.bookId != bookId
    ensures p in DeleteStep(books, shares, progress, user, bookId).2 <==> p in progress && p.bookId != bookId
  {
    FilterMember(books, (x: BookRow) => x.id != bookId, b);
    FilterMember(shares, (x: ShareRow) => x.bookId != bookId, s);
    FilterMember(progress, (x: ProgressRow) => x.bookId != bookId, p);
  }

  /** Deletion keeps every table well-formed. */
  lemma DeleteKeepsTables(books: seq<BookRow>, shares: seq<ShareRow>, progress: seq<ProgressRow>, user: UserRow, bookId: string)
    requires UniqueBookIds(books) && NoDuplicateShares(shares) && NoDuplicateProgress(progress)
    ensures var r := DeleteStep(books, shares, progress, user, bookId);
      UniqueBookIds(r.0) && NoDuplicateShares(r.1) && NoDuplicateProgress(r.2)
  {
    FilterPairs(books, (x: BookRow) => x.id != bookId, (x: BookRow, y: BookRow) => x.id != y.id);
    FilterPairs(shares, (x: ShareRow) => x.bookId != bookId, (x: ShareRow, y: ShareRow) => !(x.bookId == y.bookId && x.sharedTo == y.sharedTo));
    FilterPairs(progress, (x: ProgressRow) => x.bookId != bookId, (x: ProgressRow, y: ProgressRow) => !(x.userId == y.userId && x.bookId == y.bookId));
  }

  /** The responses of `update_progress`: the saved row, a 500 when the
      lookup finds several rows, or a 500 from the foreign key when a new row
      names no book. */
  datatype ProgressOutcome = ProgressSaved(row: ProgressRow) | ProgressServerError | ProgressUnknownBook

  /** The three assignments to the fields of the found record. */
  function SetProgress(progress: seq<ProgressRow>, row: ProgressRow): (r: seq<ProgressRow>)
    ensures |r| == |progress|
  {
    seq(|progress|, k requires 0 <= k < |progress| =>
      if progress[k].userId == row.userId && progress[k].bookId == row.bookId then row else progress[k])
  }

  /** `update_progress`: the new progress table and the response.  There is
      no access check: any user may store progress for any existing book. */
  function ProgressStep(books: seq<BookRow>, progress: seq<ProgressRow>, row: ProgressRow): (r: (seq<ProgressRow>, ProgressOutcome))
    ensures r.1.ProgressSaved? ==> r.1.row == row
    ensures !r.1.ProgressSaved? ==> r.0 == progress
    ensures r.1 == ProgressUnknownBook ==> BooksWithId(books, row.bookId) == [] && ProgressOf(progress, row.userId, row.bookId) == []
  {
    match ScalarOneOrNone(ProgressOf(progress, row.userId, row.bookId))
    case ManyRows => (progress, ProgressServerError)
    case OneRow(_) => (SetProgress(progress, row), ProgressSaved(row))
    case NoRow =>
      if BooksWithId(books, row.bookId) == [] then (progress, ProgressUnknownBook)
      else (progress + [row], ProgressSaved(row))
  }

  lemma ProgressOfNone(progress: seq<ProgressRow>, row: ProgressRow)
    ensures ProgressOf(progress, row.userId, row.bookId) == [] <==>
      forall k | 0 <= k < |progress| :: !(progress[k].userId == row.userId && progress[k].bookId == row.bookId)
  {
    FilterEmpty(progress, (p: ProgressRow) => p.userId == row.userId && p.bookId == row.bookId);
  }

  /** The save fails only on an unknown book with no earlier row, and then
      changes nothing. */
  lemma ProgressUnknownBookOnly(books: seq<BookRow>, progress: seq<ProgressRow>, row: ProgressRow)
    requires NoDuplicateProgress(progress)
    ensures ProgressStep(books, progress, row).1 != ProgressServerError
    ensures ProgressStep(books, progress, row).1 == ProgressUnknownBook <==>
      ProgressOf(progress, row.userId, row.bookId) == [] && forall k | 0 <= k < |books| :: books[k].id != row.bookId
    ensures !ProgressStep(books, progress, row).1.ProgressSaved? ==> ProgressStep(books, progress, row).0 == progress
  {
    FilterAtMostOne(progress, (p: ProgressRow) => p.userId == row.userId && p.bookId == row.bookId);
    FilterEmpty(books, (b: BookRow) => b.id == row.bookId);
  }

  /** After a save the table holds exactly one row for the user and book,
      carrying the new values, keeps every other row, and stays free of
      duplicates. */
  lemma ProgressUpsert(books: seq<BookRow>, progress: seq<ProgressRow>, row: ProgressRow, other: ProgressRow)
    requires NoDuplicateProgress(progress)
    requires ProgressStep(books, progress, row).1.ProgressSaved?
    ensures ProgressStep(books, progress, row).1 == ProgressSaved(row)
    ensures ProgressOf(ProgressStep(books, progress, row).0, row.userId, row.bookId) == [row]
    ensures NoDuplicateProgress(ProgressStep(books, progress, row).0)
    ensures !(other.userId == row.userId && other.bookId == row.bookId) ==>
      (other in ProgressStep(books, progress, row).0 <==> other in progress)
  {
    if ProgressOf(progress, row.userId, row.bookId) == [] {
      ProgressInsert(progress, row);
    } else {
      ProgressUpdate(progress, row, other);
    }
  }

  lemma ProgressInsert(progress: seq<ProgressRow>, row: ProgressRow)
    requires NoDuplicateProgress(progress) && ProgressOf(progress, row.userId, row.bookId) == []
    ensures ProgressOf(progress + [row], row.userId, row.bookId) == [row]
    ensures NoDuplicateProgress(progress + [row])
  {
    var t := progress + [row];
    ProgressOfNone(progress, row);
    forall i, j | 0 <= i < j < |t| ensures !(t[i].userId == t[j].userId && t[i].bookId == t[j].bookId) {
      assert t[i] == progress[i];
    }
    assert t[|progress|] == row;
    FilterOnly(t, (p: ProgressRow) => p.userId == row.userId && p.bookId == row.bookId, row);
  }

  lemma ProgressUpdate(progress: seq<ProgressRow>, row: ProgressRow, other: ProgressRow)
    requires NoDuplicateProgress(progress) && ProgressOf(progress, row.userId, row.bookId) != []
    ensures ProgressOf(SetProgress(progress, row), row.userId, row.bookId) == [row]
    ensures NoDuplicateProgress(SetProgress(progress, row))
    ensures !(other.userId == row.userId && other.bookId == row.bookId) ==>
      (other in SetProgress(progress, row) <==> other in progress)
  {
    var t := SetProgress(progress, row);
    var key := (p: ProgressRow) => p.userId == row.userId && p.bookId == row.bookId;
    FilterEmpty(progress, key);
    var a :| 0 <= a < |progress| && key(progress[a]);
    assert t[a] == row;
    forall i, j | 0 <= i < j < |t| ensures !(t[i].userId == t[j].userId && t[i].bookId == t[j].bookId) {
      assert t[i].userId == progress[i].userId && t[i].bookId == progress[i].bookId;
      assert t[j].userId == progress[j].userId && t[j].bookId == progress[j].bookId;
    }
    FilterOnly(t, key, row);
    if !key(other) {
      if other in t {
        var k :| 0 <= k < |t| && t[k] == other;
        assert progress[k] == other;
      }
      if other in progress {
        var k :| 0 <= k < |progress| && progress[k] == other;
        assert t[k] == other;
      }
    }
  }

  /** Saving the same values twice leaves the table as saving them once. */
  lemma ProgressIdempotent(books: seq<BookRow>, progress: seq<ProgressRow>, row: ProgressRow)
    ensures ProgressStep(books, ProgressStep(books, progress, row).0, row).0 == ProgressStep(books, progress, row).0
  {
    var key := (p: ProgressRow) => p.userId == row.userId && p.bookId == row.bookId;
    var t := ProgressStep(books, progress, row).0;
    if ProgressStep(books, progress, row).1.ProgressSaved? {
      if ProgressOf(progress, row.userId, row.bookId) == [] {
        FilterEmpty(progress, key);
        assert t == progress + [row];
        assert t[|t| - 1] == row && key(t[|t| - 1]);
      } else {
        assert t == SetProgress(progress, row);
        FilterEmpty(progress, key);
        var a :| 0 <= a < |progress| && key(progress[a]);
        assert t[a] == row && key(t[a]);
      }
      assert forall k | 0 <= k < |t| && key(t[k]) :: t[k] == row;
      assert SetProgress(t, row) == t;
      FilterEmpty(t, key);
      assert ProgressOf(t, row.userId, row.bookId) != [];
    } else {
      assert t == progress;
    }
  }

  /** The four tables the book routes read and write. */
  class Library {
    var books: seq<BookRow>
    var shares: seq<ShareRow>
    var users: seq<UserRow>
    var progress: seq<ProgressRow>

    /** Book ids and emails are unique; the routes never write a second share
        or progress row for the same pair. */
    ghost predicate Valid()
      reads this
    {
      UniqueBookIds(books) && NoDuplicateShares(shares) && NoDuplicateProgress(progress) && UniqueEmails(users)
    }

    constructor (accounts: seq<UserRow>)
      requires UniqueEmails(accounts)
      ensures Valid()
      ensures books == [] && shares == [] && progress == [] && users == accounts
    {
      books, shares, users, progress := [], [], accounts, [];
    }

    /** The insert at the end of `create_book`; `uuid4` gives a fresh id and
        a new book is private. */
    method CreateBook(bookId: string, ownerId: string)
      requires Valid()
      requires forall k | 0 <= k < |books| :: books[k].id != bookId
      modifies this
      ensures Valid()
      ensures books == old(books) + [BookRow(bookId, ownerId, false)]
      ensures shares == old(shares) && users == old(users) && progress == old(progress)
    {
      books := books + [BookRow(bookId, ownerId, false)];
      assert forall i | 0 <= i < |books| - 1 :: books[i] == old(books)[i];
    }

    /** `share_book` */
    method ShareBook(userId: string, bookId: string, email: Option<string>) returns (outcome: ShareOutcome)
      requires Valid()
      modifies this
      ensures Valid()
      ensures (books, shares, outcome) == ShareStep(old(books), old(shares), old(users), userId, bookId, email)
      ensures users == old(users) && progress == old(progress)
    {
      ShareKeepsTables(books, shares, users, userId, bookId, email);
      var found := ScalarOneOrNone(BooksWithId(books, bookId));
      if found.NoRow? {
        return ShareBookNotFound;
      } else if found.ManyRows? {
        return ShareServerError;
      }
      if found.row.ownerId != userId {
        return NotOwner;
      }
      if email.Some? && email.value != "" {
        var target := ScalarOneOrNone(UsersWithEmail(users, email.value));
        if target.NoRow? {
          return TargetNotFound;
        } else if target.ManyRows? {
          return ShareServerError;
        }
        var existing := ScalarOneOrNone(SharesTo(shares, bookId, target.row.id));
        if existing.OneRow? {
          return AlreadyShared;
        } else if existing.ManyRows? {
          return ShareServerError;
        }
        shares := shares + [ShareRow(bookId, userId, target.row.id)];
        outcome := SharedWith(target.row.id);
      } else {
        books := SetPublic(books, bookId);
        outcome := MadePublic;
      }
    }

    /** `delete_book`; the cascades of the book's relationships remove its
        shares and reading progress. */
    method DeleteBook(user: UserRow, bookId: string) returns (outcome: DeleteOutcome)
      requires Valid()
      modifies this
      ensures Valid()
      ensures (books, shares, progress, outcome) == DeleteStep(old(books), old(shares), old(progress), user, bookId)
      ensures users == old(users)
    {
      DeleteKeepsTables(books, shares, progress, user, bookId);
      var found := ScalarOneOrNone(BooksWithId(books, bookId));
      if found.NoRow? {
        return DeleteNotFound;
      } else if found.ManyRows? {
        return DeleteServerError;
      }
      if found.row.ownerId != user.id && !user.isAdmin {
        return DeleteForbidden;
      }
      books := Filter(books, (b: BookRow) => b.id != bookId);
      shares := Filter(shares, (s: ShareRow) => s.bookId != bookId);
      progress := Filter(progress, (p: ProgressRow) => p.bookId != bookId);
      outcome := Deleted;
    }

    /** `update_progress`: overwrite the user's record for the book, or add
        one. */
    method UpdateProgress(userId: string, bookId: string, position: real, segment: int, speed: real) returns (outcome: ProgressOutcome)
      requires Valid()
      modifies this
      ensures Valid()
      ensures (progress, outcome) == ProgressStep(old(books), old(progress), ProgressRow(userId, bookId, position, segment, speed))
      ensures books == old(books) && shares == old(shares) && users == old(users)
    {
      var row := ProgressRow(userId, bookId, position, segment, speed);
      var found := ScalarOneOrNone(ProgressOf(progress, userId, bookId));
      if found.ManyRows? {
        return ProgressServerError;
      }
      if found.OneRow? {
        ProgressUpdate(progress, row, row);
        progress := SetProgress(progress, row);
      } else if BooksWithId(books, bookId) == [] {
        return ProgressUnknownBook;
      } else {
        ProgressInsert(progress, row);
        progress := progress + [row];
      }
      outcome := ProgressSaved(row);
    }
  }
}
