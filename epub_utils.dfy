/** backend/app/utils/epub_utils.py: reading the structure of an unpacked
    EPUB and pairing its chapters with alignment files.

    XML parsing, directory walks and file copies are not modelled: the OPF
    and NCX documents arrive as parsed trees (`None` where ElementTree would
    raise), the container lookup as its outcome, and file existence as a
    predicate.  Lower-casing and `\d` are ASCII-only. */
module Epub {
  import opened Common
  import opened Strings

  // ---------------------------------------------------------------------------
  // classify_chapter_type
  // ---------------------------------------------------------------------------

  datatype ChapterType = Cover | Title | Copyright | Contents | Introduction | Chapter | Content

  /** The order of the pattern table; `Content` is the fallback. */
  const SearchOrder: seq<ChapterType> := [Cover, Title, Copyright, Contents, Introduction, Chapter]

  /** `n` digits start at `i` and an underscore follows them. */
  predicate DigitsThenUnderscore(s: string, i: nat, n: nat)
  {
    i + n < |s| && AllDigits(s[i..i + n]) && s[i + n] == '_'
  }

  /** `re.search(r'_c\d{3,4}_', s)` */
  predicate NumberedChapter(s: string)
  {
    exists i | 0 <= i <= |s| - 2 :: OccursAt(s, "_c", i) && (DigitsThenUnderscore(s, i + 2, 3) || DigitsThenUnderscore(s, i + 2, 4))
  }

  /** `re.search(r'^c\d{3,4}', s)`: a 'c' and at least three digits. */
  predicate LeadingChapterNumber(s: string)
  {
    |s| >= 4 && s[0] == 'c' && AllDigits(s[1..4])
  }

  /** One of the type's patterns occurs in the lower-cased `s`.  `contents?`
      occurs exactly where "content" does. */
  predicate PatternsMatch(t: ChapterType, s: string)
  {
    match t
    case Cover => Contains(s, "cover") || Contains(s, "_cvi_")
    case Title => Contains(s, "title") || Contains(s, "_tp_")
    case Copyright => Contains(s, "copyright") || Contains(s, "_cop_")
    case Contents => Contains(s, "toc") || Contains(s, "content") || Contains(s, "inlinetoc")
    case Introduction => Contains(s, "intro") || Contains(s, "_itr_")
    case Chapter => Contains(s, "chapter") || NumberedChapter(s) || LeadingChapterNumber(s)
    case Content => false
  }

  predicate TypeMatches(t: ChapterType, filename: string, fileId: string)
  {
    PatternsMatch(t, Lower(filename)) || PatternsMatch(t, Lower(fileId))
  }

  /** The first of `types` whose patterns match the file name or the id. */
  function FirstMatch(types: seq<ChapterType>, filename: string, fileId: string): (r: ChapterType)
    ensures r == Content || r in types
    ensures r != Content ==> TypeMatches(r, filename, fileId)
  {
    if types == [] then Content
    else if TypeMatches(types[0], filename, fileId) then types[0]
    else FirstMatch(types[1..], filename, fileId)
  }

  /** The type the first matching pattern names, Content when none does. */
  function ClassifyChapterType(filename: string, fileId: string): (r: ChapterType)
    ensures r == Content || r in SearchOrder
    ensures r != Content ==> TypeMatches(r, filename, fileId)
  {
    FirstMatch(SearchOrder, filename, fileId)
  }

  lemma {:induction false} FirstMatchSpec(types: seq<ChapterType>, filename: string, fileId: string, k: nat)
    requires k < |types| && Content !in types
    requires forall i, j | 0 <= i < j < |types| :: types[i] != types[j]
    ensures FirstMatch(types, filename, fileId) == types[k] <==>
      TypeMatches(types[k], filename, fileId) && forall j | 0 <= j < k :: !TypeMatches(types[j], filename, fileId)
    decreases k
  {
    if k > 0 {
      assert types[0] != types[k];
      if !TypeMatches(types[0], filename, fileId) {
        var rest := types[1..];
        FirstMatchSpec(rest, filename, fileId, k - 1);
        assert rest[k - 1] == types[k];
        assert (forall j | 0 <= j < k - 1 :: !TypeMatches(rest[j], filename, fileId)) <==>
          (forall j | 0 <= j < k :: !TypeMatches(types[j], filename, fileId)) by {
          assert forall j | 0 <= j < k - 1 :: rest[j] == types[j + 1];
        }
      }
    }
  }

  lemma {:induction false} FirstMatchNone(types: seq<ChapterType>, filename: string, fileId: string)
    requires Content !in types
    ensures FirstMatch(types, filename, fileId) == Content <==> forall j | 0 <= j < |types| :: !TypeMatches(types[j], filename, fileId)
    decreases |types|
  {
    if types != [] {
      FirstMatchNone(types[1..], filename, fileId);
      assert forall j | 0 < j < |types| :: types[1..][j - 1] == types[j];
    }
  }

  /** The type is the first one, in table order, with a matching pattern in
      the file name or the id; 'Content' exactly when none matches. */
  lemma ClassifyFirstMatch(filename: string, fileId: string, k: nat)
    requires k < |SearchOrder|
    ensures ClassifyChapterType(filename, fileId) == SearchOrder[k] <==>
      TypeMatches(SearchOrder[k], filename, fileId) && forall j | 0 <= j < k :: !TypeMatches(SearchOrder[j], filename, fileId)
    ensures ClassifyChapterType(filename, fileId) == Content <==>
      forall j | 0 <= j < |SearchOrder| :: !TypeMatches(SearchOrder[j], filename, fileId)
  {
    FirstMatchSpec(SearchOrder, filename, fileId, k);
    FirstMatchNone(SearchOrder, filename, fileId);
  }

  /** 'title' is tried before 'chapter', so "chapter_title" is a Title. */
  lemma TitleBeforeChapter(filename: string, fileId: string)
    requires Contains(Lower(filename), "title") && Contains(Lower(filename), "chapter")
    requires !TypeMatches(Cover, filename, fileId)
    ensures ClassifyChapterType(filename, fileId) == Title
  {
    ClassifyFirstMatch(filename, fileId, 1);
  }

  /** A spine file whose name holds "content" but no cover, title or
      copyright pattern is classed as a table of contents. */
  lemma ContentNameIsContents(filename: string, fileId: string)
    requires Contains(Lower(filename), "content")
    requires !TypeMatches(Cover, filename, fileId) && !TypeMatches(Title, filename, fileId) && !TypeMatches(Copyright, filename, fileId)
    ensures ClassifyChapterType(filename, fileId) == Contents
  {
    ClassifyFirstMatch(filename, fileId, 3);
  }

  // ---------------------------------------------------------------------------
  // parse_opf_file
  // ---------------------------------------------------------------------------

  /** An `<item>` of the OPF manifest; an absent attribute is None. */
  datatype ItemElem = ItemElem(id: Option<string>, href: Option<string>, mediaType: Option<string>, properties: Option<string>)

  /** A `<meta>` of the OPF metadata. */
  datatype MetaElem = MetaElem(name: Option<string>, content: Option<string>)

  /** A parsed OPF document: the text of `dc:title` and `dc:creator`, the
      items of `<manifest>`, the `idref`s of the `<itemref>`s of `<spine>`
      and the `<meta>`s of `<metadata>`; None for an absent element. */
  datatype OpfDoc = OpfDoc(title: Option<string>, creator: Option<string>, manifest: Option<seq<ItemElem>>,
                           spine: Option<seq<Option<string>>>, metas: Option<seq<MetaElem>>)

  datatype ManifestEntry = ManifestEntry(href: string, mediaType: Option<string>, properties: string)

  datatype SpineItem = SpineItem(order: nat, id: string, href: string, mediaType: Option<string>, properties: string)

  /** What `parse_opf_file` returns, without `opf_dir`. */
  datatype OpfData = OpfData(metadata: map<string, string>, manifest: map<string, ManifestEntry>, spine: seq<SpineItem>)

  /** Python truthiness of an optional string. */
  predicate Truthy(o: Option<string>)
  {
    o.Some? && o.value != ""
  }

  /** `item.get('properties', '')` */
  function PropertiesOf(item: ItemElem): string
  {
    if item.properties.Some? then item.properties.value else ""
  }

  predicate Kept(item: ItemElem)
  {
    Truthy(item.id) && Truthy(item.href)
  }

  function EntryOf(item: ItemElem): ManifestEntry
    requires Kept(item)
  {
    ManifestEntry(item.href.value, item.mediaType, PropertiesOf(item))
  }

  /** The manifest dict after the items, in order: an item with a non-empty id
      and href is stored under its id, a later one replacing an earlier. */
  function ManifestOf(items: seq<ItemElem>): map<string, ManifestEntry>
  {
    if items == [] then map[]
    else
      var m := ManifestOf(items[..|items| - 1]);
      var item := items[|items| - 1];
      if Kept(item) then m[item.id.value := EntryOf(item)] else m
  }

  /** The spine list after the itemrefs: a present idref naming a manifest
      entry appends that entry with its 1-based position among the itemrefs. */
  function SpineOf(refs: seq<Option<string>>, manifest: map<string, ManifestEntry>): (r: seq<SpineItem>)
    ensures |r| <= |refs|
  {
    if refs == [] then []
    else
      var s := SpineOf(refs[..|refs| - 1], manifest);
      var ref := refs[|refs| - 1];
      if Truthy(ref) && ref.value in manifest then
        var e := manifest[ref.value];
        s + [SpineItem(|refs|, ref.value, e.href, e.mediaType, e.properties)]
      else s
  }

  function MetadataOf(doc: OpfDoc): map<string, string>
  {
    var m := if Truthy(doc.title) then map["title" := doc.title.value] else map[];
    if Truthy(doc.creator) then m["creator" := doc.creator.value] else m
  }

  function ItemsOf(doc: OpfDoc): seq<ItemElem>
  {
    if doc.manifest.Some? then doc.manifest.value else []
  }

  function RefsOf(doc: OpfDoc): seq<Option<string>>
  {
    if doc.spine.Some? then doc.spine.value else []
  }

  /** `parse_opf_file`; an unparsable document yields empty results. */
  function OpfSpec(doc: Option<OpfDoc>): OpfData
  {
    if doc.None? then OpfData(map[], map[], [])
    else
      var manifest := ManifestOf(ItemsOf(doc.value));
      OpfData(MetadataOf(doc.value), manifest, SpineOf(RefsOf(doc.value), manifest))
  }

  method ParseOpfFile(doc: Option<OpfDoc>) returns (r: OpfData)
    ensures r == OpfSpec(doc)
  {
    if doc.None? {
      return OpfData(map[], map[], []);
    }
    var d := doc.value;
    var metadata: map<string, string> := map[];
    if Truthy(d.title) {
      metadata := metadata["title" := d.title.value];
    }
    if Truthy(d.creator) {
      metadata := metadata["creator" := d.creator.value];
    }
    var items := ItemsOf(d);
    var manifest: map<string, ManifestEntry> := map[];
    for i := 0 to |items|
      invariant manifest == ManifestOf(items[..i])
    {
      var p := items[..i + 1];
      assert p[..|p| - 1] == items[..i] && p[|p| - 1] == items[i];
      if Kept(items[i]) {
        manifest := manifest[items[i].id.value := EntryOf(items[i])];
      }
    }
    assert items[..|items|] == items;
    var refs := RefsOf(d);
    var spine: seq<SpineItem> := [];
    for idx := 0 to |refs|
      invariant spine == SpineOf(refs[..idx], manifest)
    {
      var p := refs[..idx + 1];
      assert p[..|p| - 1] == refs[..idx] && p[|p| - 1] == refs[idx];
      var ref := refs[idx];
      if Truthy(ref) && ref.value in manifest {
        var e := manifest[ref.value];
        spine := spine + [SpineItem(idx + 1, ref.value, e.href, e.mediaType, e.properties)];
      }
    }
    assert refs[..|refs|] == refs;
    r := OpfData(metadata, manifest, spine);
  }

  /** An id is in the manifest exactly when some item with a non-empty id and
      href carries it. */
  lemma {:induction false} ManifestKeys(items: seq<ItemElem>, id: string)
    ensures id in ManifestOf(items) <==> exists k | 0 <= k < |items| :: Kept(items[k]) && items[k].id.value == id
    decreases |items|
  {
    if items != [] {
      var init := items[..|items| - 1];
      ManifestKeys(init, id);
      assert forall k | 0 <= k < |init| :: init[k] == items[k];
    }
  }

  /** The entry under an id is the last item carrying it. */
  lemma {:induction false} ManifestLastWins(items: seq<ItemElem>, k: nat)
    requires k < |items| && Kept(items[k])
    requires forall j | k < j < |items| :: !(Kept(items[j]) && items[j].id == items[k].id)
    ensures items[k].id.value in ManifestOf(items)
    ensures ManifestOf(items)[items[k].id.value] == EntryOf(items[k])
    decreases |items|
  {
    var init := items[..|items| - 1];
    if k < |init| {
      ManifestLastWins(init, k);
      assert init[k] == items[k];
    }
  }

  /** Every entry has a non-empty id and href. */
  lemma {:induction false} ManifestNonEmpty(items: seq<ItemElem>)
    ensures forall id | id in ManifestOf(items) :: id != "" && ManifestOf(items)[id].href != ""
    decreases |items|
  {
    if items != [] {
      ManifestNonEmpty(items[..|items| - 1]);
    }
  }

  /** Spine items follow the itemrefs: each order is the 1-based position of
      an itemref naming the item's id, and the id is a manifest entry whose
      href the item carries. */
  lemma {:induction false} SpineItemsNamed(refs: seq<Option<string>>, manifest: map<string, ManifestEntry>)
    ensures forall i | 0 <= i < |SpineOf(refs, manifest)| ::
      1 <= SpineOf(refs, manifest)[i].order <= |refs| && refs[SpineOf(refs, manifest)[i].order - 1] == Some(SpineOf(refs, manifest)[i].id) &&
      SpineOf(refs, manifest)[i].id in manifest && SpineOf(refs, manifest)[i].href == manifest[SpineOf(refs, manifest)[i].id].href
    decreases |refs|
  {
    if refs != [] {
      var init := refs[..|refs| - 1];
      SpineItemsNamed(init, manifest);
      var s0 := SpineOf(init, manifest);
      var s := SpineOf(refs, manifest);
      forall i | 0 <= i < |s|
        ensures 1 <= s[i].order <= |refs| && refs[s[i].order - 1] == Some(s[i].id) && s[i].id in manifest && s[i].href == manifest[s[i].id].href
      {
        if i < |s0| {
          assert s[i] == s0[i];
          assert refs[s0[i].order - 1] == init[s0[i].order - 1];
        }
      }
    }
  }

  /** Spine orders strictly increase (with gaps where itemrefs were skipped). */
  lemma {:induction false} SpineOrdered(refs: seq<Option<string>>, manifest: map<string, ManifestEntry>)
    ensures forall i, j | 0 <= i < j < |SpineOf(refs, manifest)| :: SpineOf(refs, manifest)[i].order < SpineOf(refs, manifest)[j].order
    decreases |refs|
  {
    if refs != [] {
      var init := refs[..|refs| - 1];
      SpineOrdered(init, manifest);
      SpineItemsNamed(init, manifest);
      var s0 := SpineOf(init, manifest);
      var s := SpineOf(refs, manifest);
      forall i, j | 0 <= i < j < |s| ensures s[i].order < s[j].order {
        assert s[i] == s0[i];
        if j < |s0| {
          assert s[j] == s0[j];
        }
      }
    }
  }

  /** Every itemref naming a manifest entry yields a spine item. */
  lemma {:induction false} SpineComplete(refs: seq<Option<string>>, manifest: map<string, ManifestEntry>, k: nat)
    requires k < |refs| && Truthy(refs[k]) && refs[k].value in manifest
    ensures exists i | 0 <= i < |SpineOf(refs, manifest)| :: SpineOf(refs, manifest)[i].order == k + 1
    decreases |refs|
  {
    var init := refs[..|refs| - 1];
    var s := SpineOf(refs, manifest);
    if k < |init| {
      SpineComplete(init, manifest, k);
      var i :| 0 <= i < |SpineOf(init, manifest)| && SpineOf(init, manifest)[i].order == k + 1;
      assert s[i] == SpineOf(init, manifest)[i];
    } else {
      assert s[|s| - 1].order == k + 1;
    }
  }

  // ---------------------------------------------------------------------------
  // parse_ncx_file
  // ---------------------------------------------------------------------------

  /** A `<navPoint>`: the text of its label ('' when absent or empty), the
      `src` of its `<content>` ('' when the element or the attribute is
      absent) and its nested navPoints. */
  datatype NavPoint = NavPoint(title: string, src: string, children: seq<NavPoint>)

  /** The NCX file beside the OPF: none, one ElementTree cannot parse, or
      the navPoints of its `<navMap>` (None without a navMap). */
  datatype NcxSource = NoNcx | UnparsableNcx | Ncx(navMap: Option<seq<NavPoint>>)

  function PointSize(p: NavPoint): nat
    decreases p
  {
    1 + ListSize(p.children)
  }

  function ListSize(points: seq<NavPoint>): nat
    decreases points
  {
    if points == [] then 0 else PointSize(points[0]) + ListSize(points[1..])
  }

  lemma ListSizeHead(points: seq<NavPoint>)
    requires points != []
    ensures ListSize(points[0].children) < ListSize(points) && ListSize(points[1..]) < ListSize(points)
  {
  }

  lemma {:induction false} ListSizeElem(points: seq<NavPoint>, i: nat)
    requires i < |points|
    ensures PointSize(points[i]) <= ListSize(points)
    decreases |points|
  {
    if i > 0 {
      ListSizeElem(points[1..], i - 1);
    }
  }

  /** `src.split('#')[0]`: the part before the first '#'. */
  function FilePart(src: string): (r: string)
    ensures |r| <= |src| && src[..|r|] == r
    ensures '#' !in r
    ensures |r| < |src| ==> src[|r|] == '#'
  {
    if src == [] || src[0] == '#' then [] else [src[0]] + FilePart(src[1..])
  }

  /** The navPoint's entry is recorded when its file part and title are
      both non-empty. */
  predicate Records(p: NavPoint)
  {
    FilePart(p.src) != "" && p.title != ""
  }

  function Record(titles: map<string, string>, p: NavPoint): map<string, string>
  {
    if Records(p) then titles[FilePart(p.src) := p.title] else titles
  }

  /** `extract_nav_points`: each navPoint is recorded, then its children. */
  function NavFold(titles: map<string, string>, points: seq<NavPoint>): map<string, string>
    decreases ListSize(points)
  {
    if points == [] then titles
    else
      ListSizeHead(points);
      NavFold(NavFold(Record(titles, points[0]), points[0].children), points[1..])
  }

  function NcxSpec(source: NcxSource): map<string, string>
  {
    if source.Ncx? && source.navMap.Some? then NavFold(map[], source.navMap.value) else map[]
  }

  /** The `ncx_titles` dict the nested helper fills. */
  class NcxReader {
    var titles: map<string, string>

    constructor ()
      ensures titles == map[]
    {
      titles := map[];
    }

    method ExtractNavPoints(points: seq<NavPoint>)
      modifies this
      ensures titles == NavFold(old(titles), points)
      decreases ListSize(points)
    {
      for i := 0 to |points|
        invariant NavFold(titles, points[i..]) == NavFold(old(titles), points)
      {
        var p := points[i];
        assert points[i..][0] == p && points[i..][1..] == points[i + 1..];
        if Records(p) {
          titles := titles[FilePart(p.src) := p.title];
        }
        ListSizeElem(points, i);
        ExtractNavPoints(p.children);
      }
    }
  }

  method ParseNcxFile(source: NcxSource) returns (titles: map<string, string>)
    ensures titles == NcxSpec(source)
  {
    var reader := new NcxReader();
    if source.Ncx? && source.navMap.Some? {
      reader.ExtractNavPoints(source.navMap.value);
    }
    titles := reader.titles;
  }

  /** The navPoints in document (pre-)order. */
  function PreOrder(points: seq<NavPoint>): seq<NavPoint>
    decreases ListSize(points)
  {
    if points == [] then []
    else
      ListSizeHead(points);
      [points[0]] + PreOrder(points[0].children) + PreOrder(points[1..])
  }

  /** Recording a flat list of navPoints, in order. */
  function RecordAll(titles: map<string, string>, points: seq<NavPoint>): map<string, string>
  {
    if points == [] then titles else Record(RecordAll(titles, points[..|points| - 1]), points[|points| - 1])
  }

  lemma {:induction false} RecordAllAppend(titles: map<string, string>, a: seq<NavPoint>, b: seq<NavPoint>)
    ensures RecordAll(titles, a + b) == RecordAll(RecordAll(titles, a), b)
    decreases |b|
  {
    if b == [] {
      assert a + b == a;
    } else {
      var c := a + b;
      assert c[..|c| - 1] == a + b[..|b| - 1] && c[|c| - 1] == b[|b| - 1];
      RecordAllAppend(titles, a, b[..|b| - 1]);
    }
  }

  lemma RecordAllOne(titles: map<string, string>, p: NavPoint)
    ensures RecordAll(titles, [p]) == Record(titles, p)
  {
    assert [p][..0] == [];
  }

  /** The recursive walk records the navPoints in document order. */
  lemma {:induction false} NavFoldPreOrder(titles: map<string, string>, points: seq<NavPoint>)
    ensures NavFold(titles, points) == RecordAll(titles, PreOrder(points))
    decreases ListSize(points)
  {
    if points != [] {
      var p := points[0];
      ListSizeHead(points);
      var t1 := Record(titles, p);
      NavFoldPreOrder(t1, p.children);
      var t2 := NavFold(t1, p.children);
      NavFoldPreOrder(t2, points[1..]);
      RecordAllOne(titles, p);
      RecordAllAppend(titles, [p], PreOrder(p.children));
      RecordAllAppend(titles, [p] + PreOrder(p.children), PreOrder(points[1..]));
    }
  }

  /** In a flat walk a file maps to the title of the last navPoint recording
      it, and only recorded files appear. */
  lemma {:induction false} RecordAllLastWins(titles: map<string, string>, points: seq<NavPoint>, f: string)
    ensures f in RecordAll(titles, points) <==> f in titles || exists k | 0 <= k < |points| :: Records(points[k]) && FilePart(points[k].src) == f
    ensures forall k | 0 <= k < |points| && Records(points[k]) && FilePart(points[k].src) == f &&
        (forall j | k < j < |points| :: !(Records(points[j]) && FilePart(points[j].src) == f)) ::
      f in RecordAll(titles, points) && RecordAll(titles, points)[f] == points[k].title
    decreases |points|
  {
    if points != [] {
      var init := points[..|points| - 1];
      RecordAllLastWins(titles, init, f);
      assert forall k | 0 <= k < |init| :: init[k] == points[k];
    }
  }

  /** The NCX map: a file is present exactly when some navPoint records it,
      and it carries the title of the last such navPoint in document order. */
  lemma NcxLastWins(points: seq<NavPoint>, f: string)
    ensures f in NavFold(map[], points) <==> exists k | 0 <= k < |PreOrder(points)| :: Records(PreOrder(points)[k]) && FilePart(PreOrder(points)[k].src) == f
    ensures forall k | 0 <= k < |PreOrder(points)| && Records(PreOrder(points)[k]) && FilePart(PreOrder(points)[k].src) == f &&
        (forall j | k < j < |PreOrder(points)| :: !(Records(PreOrder(points)[j]) && FilePart(PreOrder(points)[j].src) == f)) ::
      f in NavFold(map[], points) && NavFold(map[], points)[f] == PreOrder(points)[k].title
  {
    NavFoldPreOrder(map[], points);
    RecordAllLastWins(map[], PreOrder(points), f);
  }

  /** Every key is a non-empty file part without '#', every title non-empty. */
  lemma {:induction false} RecordAllClean(titles: map<string, string>, points: seq<NavPoint>)
    requires forall f | f in titles :: f != "" && '#' !in f && titles[f] != ""
    ensures forall f | f in RecordAll(titles, points) :: f != "" && '#' !in f && RecordAll(titles, points)[f] != ""
    decreases |points|
  {
    if points != [] {
      RecordAllClean(titles, points[..|points| - 1]);
    }
  }

  lemma NcxClean(source: NcxSource)
    ensures forall f | f in NcxSpec(source) :: f != "" && '#' !in f && NcxSpec(source)[f] != ""
  {
    if source.Ncx? && source.navMap.Some? {
      NavFoldPreOrder(map[], source.navMap.value);
      RecordAllClean(map[], PreOrder(source.navMap.value));
    }
  }

  // ---------------------------------------------------------------------------
  // analyze_epub_structure
  // ---------------------------------------------------------------------------

  /** The unpacked EPUB as the container lookup sees it: no container.xml, a
      container naming no existing OPF, or the OPF document (None when
      ElementTree cannot parse it) and the NCX beside it. */
  datatype EpubFiles = NoContainer | NoOpf | Package(opf: Option<OpfDoc>, ncx: NcxSource)

  /** One entry of the `chapters` list; the path fields are left out. */
  datatype EpubChapter = EpubChapter(id: string, order: nat, title: string, href: string, kind: ChapterType)

  datatype Structure = Structure(chapters: seq<EpubChapter>, metadata: map<string, string>)

  /** A value, or the ValueError message's cause. */
  datatype Outcome<T> = Ok(value: T) | MissingContainer | MissingOpf

  /** `ncx_titles.get(href, '')` */
  function TitleOf(titles: map<string, string>, href: string): string
  {
    if href in titles then titles[href] else ""
  }

  function ChapterOf(item: SpineItem, titles: map<string, string>): EpubChapter
  {
    EpubChapter(item.id, item.order, TitleOf(titles, item.href), item.href, ClassifyChapterType(item.href, item.id))
  }

  function ChaptersOf(spine: seq<SpineItem>, titles: map<string, string>): (r: seq<EpubChapter>)
    ensures |r| == |spine|
  {
    seq(|spine|, i requires 0 <= i < |spine| => ChapterOf(spine[i], titles))
  }

  function AnalyzeSpec(files: EpubFiles): Outcome<Structure>
  {
    match files
    case NoContainer => MissingContainer
    case NoOpf => MissingOpf
    case Package(opf, ncx) =>
      var data := OpfSpec(opf);
      Ok(Structure(ChaptersOf(data.spine, NcxSpec(ncx)), data.metadata))
  }

  method AnalyzeEpubStructure(files: EpubFiles) returns (r: Outcome<Structure>)
    ensures r == AnalyzeSpec(files)
  {
    if files.NoContainer? {
      return MissingContainer;
    } else if files.NoOpf? {
      return MissingOpf;
    }
    var data := ParseOpfFile(files.opf);
    var titles := ParseNcxFile(files.ncx);
    var chapters: seq<EpubChapter> := [];
    for i := 0 to |data.spine|
      invariant chapters == ChaptersOf(data.spine[..i], titles)
    {
      var item := data.spine[i];
      chapters := chapters + [ChapterOf(item, titles)];
    }
    assert data.spine[..|data.spine|] == data.spine;
    r := Ok(Structure(chapters, data.metadata));
  }

  /** The analysis fails exactly when the container or the OPF is missing;
      otherwise there is one chapter per spine item, in spine order, each
      titled from the NCX map when the map has its href and '' otherwise. */
  lemma AnalyzeChapters(files: EpubFiles)
    ensures AnalyzeSpec(files).Ok? <==> files.Package?
    ensures AnalyzeSpec(files).Ok? ==> |AnalyzeSpec(files).value.chapters| == |OpfSpec(files.opf).spine|
    ensures AnalyzeSpec(files).Ok? ==> forall i, j | 0 <= i < j < |AnalyzeSpec(files).value.chapters| ::
      AnalyzeSpec(files).value.chapters[i].order < AnalyzeSpec(files).value.chapters[j].order
    ensures AnalyzeSpec(files).Ok? ==> forall i | 0 <= i < |AnalyzeSpec(files).value.chapters| ::
      (AnalyzeSpec(files).value.chapters[i].title != "" <==> AnalyzeSpec(files).value.chapters[i].href in NcxSpec(files.ncx))
  {
    if files.Package? {
      var data := OpfSpec(files.opf);
      if files.opf.Some? {
        SpineOrdered(RefsOf(files.opf.value), ManifestOf(ItemsOf(files.opf.value)));
      }
      NcxClean(files.ncx);
    }
  }

  // ---------------------------------------------------------------------------
  // create_epub_manifest
  // ---------------------------------------------------------------------------

  /** `re.match(r'ch(\d+)_align\.json', name)`, anchored at the start only:
      the digits after "ch", when "_align.json" follows them. */
  function AlignIdOf(name: string): (r: Option<string>)
  {
    if |name| < 2 || name[..2] != "ch" then None
    else
      var n := DigitRun(name[2..]);
      if n >= 1 && StartsWith(name[2 + n..], "_align.json") then Some(name[2..2 + n]) else None
  }

  /** `align_chapter_ids`: the matched digits, in file order. */
  function AlignIds(files: seq<string>): (r: seq<string>)
    ensures |r| <= |files|
  {
    if files == [] then []
    else
      var ids := AlignIds(files[..|files| - 1]);
      match AlignIdOf(files[|files| - 1])
      case Some(id) => ids + [id]
      case None => ids
  }

  /** A manifest chapter; `has_audio` is always true and `file_path` is left
      out with the other paths. */
  datatype ManifestChapter = ManifestChapter(id: string, epubId: string, order: nat, title: string, href: string,
                                             audioFile: string, alignmentFile: string)

  datatype EpubManifest = EpubManifest(metadata: map<string, string>, chapters: seq<ManifestChapter>, totalChapters: nat)

  predicate IsContent(c: EpubChapter)
  {
    c.kind == Chapter || c.kind == Content
  }

  function ContentChapters(chapters: seq<EpubChapter>): seq<EpubChapter>
  {
    Filter(chapters, IsContent)
  }

  function PairOf(id: string, c: EpubChapter): ManifestChapter
  {
    ManifestChapter(id, c.id, c.order, c.title, c.href, "ch" + id + "_audio.mp3", "ch" + id + "_align.json")
  }

  /** The i-th content chapter goes with the i-th alignment id. */
  function Pairs(content: seq<EpubChapter>, ids: seq<string>): (r: seq<ManifestChapter>)
  {
    seq(Min(|content|, |ids|), i requires 0 <= i < Min(|content|, |ids|) => PairOf(ids[i], content[i]))
  }

  function ManifestSpec(files: EpubFiles, alignFiles: seq<string>): Outcome<EpubManifest>
  {
    match AnalyzeSpec(files)
    case Ok(structure) =>
      var chapters := Pairs(ContentChapters(structure.chapters), AlignIds(alignFiles));
      Ok(EpubManifest(structure.metadata, chapters, |chapters|))
    case MissingContainer => MissingContainer
    case MissingOpf => MissingOpf
  }

  /** The chapter ids read off the alignment file names, in order. */
  method ReadAlignIds(alignFiles: seq<string>) returns (ids: seq<string>)
    ensures ids == AlignIds(alignFiles)
  {
    ids := [];
    for i := 0 to |alignFiles|
      invariant ids == AlignIds(alignFiles[..i])
    {
      var p := alignFiles[..i + 1];
      assert p[..|p| - 1] == alignFiles[..i] && p[|p| - 1] == alignFiles[i];
      var m := AlignIdOf(alignFiles[i]);
      if m.Some? {
        ids := ids + [m.value];
      }
    }
    assert alignFiles[..|alignFiles|] == alignFiles;
  }

  lemma PairsStep(content: seq<EpubChapter>, ids: seq<string>, i: nat)
    requires i < |content|
    ensures Pairs(content[..i + 1], ids) ==
      Pairs(content[..i], ids) + (if i < |ids| then [PairOf(ids[i], content[i])] else [])
  {
  }

  /** The content chapters paired with the ids, while both last. */
  method PairChapters(content: seq<EpubChapter>, ids: seq<string>) returns (chapters: seq<ManifestChapter>)
    ensures chapters == Pairs(content, ids)
  {
    chapters := [];
    for i := 0 to |content|
      invariant chapters == Pairs(content[..i], ids)
    {
      PairsStep(content, ids, i);
      if i < |ids| {
        chapters := chapters + [PairOf(ids[i], content[i])];
      }
    }
    assert content[..|content|] == content;
  }

  method CreateEpubManifest(files: EpubFiles, alignFiles: seq<string>) returns (r: Outcome<EpubManifest>)
    ensures r == ManifestSpec(files, alignFiles)
  {
    var structure := AnalyzeEpubStructure(files);
    if !structure.Ok? {
      return if structure.MissingContainer? then MissingContainer else MissingOpf;
    }
    var ids := ReadAlignIds(alignFiles);
    var chapters := PairChapters(ContentChapters(structure.value.chapters), ids);
    r := Ok(EpubManifest(structure.value.metadata, chapters, |chapters|));
  }

  /** A name "ch<digits>_align.json" yields its digits, whatever follows. */
  lemma AlignIdOfName(digits: string, rest: string)
    requires digits != [] && AllDigits(digits)
    ensures AlignIdOf("ch" + digits + "_align.json" + rest) == Some(digits)
  {
    var name := "ch" + digits + "_align.json" + rest;
    assert name[2..] == digits + ("_align.json" + rest);
    DigitRunOf(digits, "_align.json" + rest);
    assert name[2 + |digits|..] == "_align.json" + rest;
    assert name[2..2 + |digits|] == digits;
  }

  /** A matched id is a non-empty digit string and the name starts with
      "ch<id>_align.json". */
  lemma AlignIdOfSound(name: string)
    requires AlignIdOf(name).Some?
    ensures AlignIdOf(name).value != [] && AllDigits(AlignIdOf(name).value)
    ensures StartsWith(name, "ch" + AlignIdOf(name).value + "_align.json")
  {
    var id := AlignIdOf(name).value;
    var n := |id|;
    assert name[..2 + n + 11] == name[..2] + name[2..2 + n] + name[2 + n..][..11];
  }

  /** The manifest lists min(#content chapters, #alignment ids) chapters; the
      i-th pairs the i-th Chapter/Content chapter with the i-th id and names
      that id's audio and alignment files; orders strictly increase. */
  lemma ManifestPairing(files: EpubFiles, alignFiles: seq<string>)
    requires files.Package?
    ensures var content := ContentChapters(AnalyzeSpec(files).value.chapters);
      var ids := AlignIds(alignFiles);
      ManifestSpec(files, alignFiles).Ok? &&
      ManifestSpec(files, alignFiles).value.totalChapters == Min(|content|, |ids|) &&
      |ManifestSpec(files, alignFiles).value.chapters| == Min(|content|, |ids|)
    ensures var content := ContentChapters(AnalyzeSpec(files).value.chapters);
      var ids := AlignIds(alignFiles);
      var m := ManifestSpec(files, alignFiles).value.chapters;
      forall i | 0 <= i < |m| :: IsContent(content[i]) && m[i].epubId == content[i].id && m[i].id == ids[i] &&
        m[i].audioFile == "ch" + ids[i] + "_audio.mp3" && m[i].alignmentFile == "ch" + ids[i] + "_align.json"
    ensures var m := ManifestSpec(files, alignFiles).value.chapters;
      forall i, j | 0 <= i < j < |m| :: m[i].order < m[j].order
  {
    var chapters := AnalyzeSpec(files).value.chapters;
    var content := ContentChapters(chapters);
    AnalyzeChapters(files);
    FilterPairs(chapters, IsContent, (a: EpubChapter, b: EpubChapter) => a.order < b.order);
    forall i | 0 <= i < |content| ensures IsContent(content[i]) {
      FilterMember(chapters, IsContent, content[i]);
    }
  }

  // ---------------------------------------------------------------------------
  // extract_cover_image: choosing the cover and its file name
  // ---------------------------------------------------------------------------

  /** Strategy A: the href (possibly absent) of the first manifest item whose
      properties contain "cover-image". */
  function CoverImageHref(items: seq<ItemElem>): Option<Option<string>>
  {
    if items == [] then None
    else if Contains(PropertiesOf(items[0]), "cover-image") then Some(items[0].href)
    else CoverImageHref(items[1..])
  }

  /** Strategy B, first half: the content of the first `<meta name="cover">`. */
  function CoverMetaContent(metas: seq<MetaElem>): Option<Option<string>>
  {
    if metas == [] then None
    else if metas[0].name == Some("cover") then Some(metas[0].content)
    else CoverMetaContent(metas[1..])
  }

  /** Strategy B, second half: the href of the first item whose id attribute
      equals `id` (an absent id equals an absent content). */
  function HrefById(items: seq<ItemElem>, id: Option<string>): Option<Option<string>>
  {
    if items == [] then None
    else if items[0].id == id then Some(items[0].href)
    else HrefById(items[1..], id)
  }

  /** `cover_href` when it is truthy: strategy A's, else strategy B's. */
  function CoverHref(doc: OpfDoc): (r: Option<string>)
    ensures r.Some? ==> r.value != ""
  {
    var a := if doc.manifest.Some? then CoverImageHref(doc.manifest.value) else None;
    if a.Some? && Truthy(a.value) then a.value
    else if doc.metas.None? || doc.manifest.None? then None
    else match CoverMetaContent(doc.metas.value)
      case None => None
      case Some(coverId) =>
        match HrefById(doc.manifest.value, coverId)
        case Some(h) => if Truthy(h) then h else None
        case None => None
  }

  /** The index of the last '.' in `name`. */
  function LastDot(name: string): (r: Option<nat>)
    ensures r.Some? ==> r.value < |name| && name[r.value] == '.' && '.' !in name[r.value + 1..]
    ensures r.None? ==> '.' !in name
  {
    if name == [] then None
    else if name[|name| - 1] == '.' then Some(|name| - 1)
    else
      var r := LastDot(name[..|name| - 1]);
      assert r.Some? ==> name[r.value + 1..] == name[..|name| - 1][r.value + 1..] + [name[|name| - 1]];
      assert r.None? ==> name == name[..|name| - 1] + [name[|name| - 1]];
      r
  }

  /** `PurePath.suffix` of a final component: from the last dot, unless the
      dot leads the name or ends it. */
  function Suffix(name: string): string
  {
    match LastDot(name)
    case Some(i) => if 0 < i < |name| - 1 then name[i..] else ""
    case None => ""
  }

  /** The extension of the copied cover, lower-cased, ".jpg" when absent. */
  function CoverExtension(href: string): string
  {
    var ext := Lower(Suffix(Basename(href)));
    if ext == "" then ".jpg" else ext
  }

  /** The name the cover is saved under, or None: no container or OPF, an
      unparsable OPF, no cover reference, or no such file. */
  function ExtractCoverImage(files: EpubFiles, present: string -> bool): (r: Option<string>)
    ensures r.Some? <==>
      (files.Package? && files.opf.Some? && CoverHref(files.opf.value).Some? && present(CoverHref(files.opf.value).value))
    ensures r.Some? ==> |r.value| >= 7 && r.value[..6] == "cover."
  {
    if !files.Package? || files.opf.None? then None
    else match CoverHref(files.opf.value)
      case None => None
      case Some(href) =>
        ExtensionShape(href);
        if present(href) then Some("cover" + CoverExtension(href)) else None
  }

  /** The suffix is empty or a dot followed by at least one character with
      no further dot, and it ends the name. */
  lemma SuffixShape(name: string)
    ensures Suffix(name) == "" || (|Suffix(name)| >= 2 && Suffix(name)[0] == '.' && '.' !in Suffix(name)[1..] &&
      Suffix(name) == name[|name| - |Suffix(name)|..] && |Suffix(name)| < |name|)
  {
  }

  /** The saved name is "cover" and a dot-led extension of two or more
      characters; a file without a suffix is saved as "cover.jpg". */
  lemma CoverNameShape(files: EpubFiles, present: string -> bool)
    ensures var r := ExtractCoverImage(files, present);
      r.Some? ==> r.value[..5] == "cover" && |r.value| >= 7 && r.value[5] == '.' && '.' !in r.value[6..]
    ensures var r := ExtractCoverImage(files, present);
      r.Some? && Suffix(Basename(CoverHref(files.opf.value).value)) == "" ==> r.value == "cover.jpg"
  {
    var r := ExtractCoverImage(files, present);
    if r.Some? {
      var ext := CoverExtension(CoverHref(files.opf.value).value);
      ExtensionShape(CoverHref(files.opf.value).value);
      assert r.value == "cover" + ext && r.value[6..] == ext[1..];
    }
  }

  /** The extension is a dot and at least one more character, none of them a dot. */
  lemma ExtensionShape(href: string)
    ensures |CoverExtension(href)| >= 2 && CoverExtension(href)[0] == '.' && '.' !in CoverExtension(href)[1..]
  {
    var suf := Suffix(Basename(href));
    SuffixShape(Basename(href));
    if suf != "" {
      assert Lower(suf)[0] == '.' && Lower(suf)[1..] == Lower(suf[1..]);
      var tail := suf[1..];
      assert '.' !in Lower(tail) by {
        forall k | 0 <= k < |tail| ensures Lower(tail)[k] != '.' {
          assert tail[k] != '.';
        }
      }
    }
  }

  lemma {:induction false} CoverImageFirst(items: seq<ItemElem>, k: nat)
    requires k < |items| && Contains(PropertiesOf(items[k]), "cover-image")
    requires forall j | 0 <= j < k :: !Contains(PropertiesOf(items[j]), "cover-image")
    ensures CoverImageHref(items) == Some(items[k].href)
    decreases k
  {
    if k > 0 {
      CoverImageFirst(items[1..], k - 1);
    }
  }

  /** An item marked "cover-image" wins: the first such item's non-empty href
      is the cover, whatever the `<meta name="cover">` says. */
  lemma CoverPrefersProperty(doc: OpfDoc, k: nat)
    requires doc.manifest.Some? && k < |doc.manifest.value|
    requires Contains(PropertiesOf(doc.manifest.value[k]), "cover-image") && Truthy(doc.manifest.value[k].href)
    requires forall j | 0 <= j < k :: !Contains(PropertiesOf(doc.manifest.value[j]), "cover-image")
    ensures CoverHref(doc) == doc.manifest.value[k].href
  {
    CoverImageFirst(doc.manifest.value, k);
  }

  lemma {:induction false} CoverImageNone(items: seq<ItemElem>)
    requires forall j | 0 <= j < |items| :: !Contains(PropertiesOf(items[j]), "cover-image")
    ensures CoverImageHref(items) == None
    decreases |items|
  {
    if items != [] {
      CoverImageNone(items[1..]);
    }
  }

  lemma {:induction false} CoverMetaFirst(metas: seq<MetaElem>, m: nat)
    requires m < |metas| && metas[m].name == Some("cover")
    requires forall j | 0 <= j < m :: metas[j].name != Some("cover")
    ensures CoverMetaContent(metas) == Some(metas[m].content)
    decreases m
  {
    if m > 0 {
      CoverMetaFirst(metas[1..], m - 1);
    }
  }

  lemma {:induction false} HrefByIdFirst(items: seq<ItemElem>, id: Option<string>, k: nat)
    requires k < |items| && items[k].id == id
    requires forall j | 0 <= j < k :: items[j].id != id
    ensures HrefById(items, id) == Some(items[k].href)
    decreases k
  {
    if k > 0 {
      HrefByIdFirst(items[1..], id, k - 1);
    }
  }

  /** Without a "cover-image" item, the first `<meta name="cover">` names the
      item (the first with that id) whose href is the cover. */
  lemma CoverFromMeta(doc: OpfDoc, m: nat, k: nat)
    requires doc.manifest.Some? && doc.metas.Some?
    requires forall j | 0 <= j < |doc.manifest.value| :: !Contains(PropertiesOf(doc.manifest.value[j]), "cover-image")
    requires m < |doc.metas.value| && doc.metas.value[m].name == Some("cover")
    requires forall j | 0 <= j < m :: doc.metas.value[j].name != Some("cover")
    requires k < |doc.manifest.value| && doc.manifest.value[k].id == doc.metas.value[m].content
    requires forall j | 0 <= j < k :: doc.manifest.value[j].id != doc.metas.value[m].content
    requires Truthy(doc.manifest.value[k].href)
    ensures CoverHref(doc) == doc.manifest.value[k].href
  {
    CoverImageNone(doc.manifest.value);
    CoverMetaFirst(doc.metas.value, m);
    HrefByIdFirst(doc.manifest.value, doc.metas.value[m].content, k);
  }
}
