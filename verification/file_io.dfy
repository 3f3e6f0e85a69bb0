/**
 * Saving and loading the structured document (src/file_ops/io.rs). A
 * document is stored as text, one line per document line, with every
 * image written as the placeholder `[img_load("<id>")]`; the images
 * themselves go to a side-car metadata file. Base64 decoding and the JSON
 * encoding of the metadata are outside the model and enter as function
 * parameters; the file system is a map from file names to contents, and a
 * save is the list of writes it performs.
 */
module FileIo {
  import opened Wrappers
  import opened Chars
  import opened Strings
  import opened RustLines
  import opened Document
  import opened Metadata

  const Prefix: string := "[img_load(\""
  const Suffix: string := "\")]"

  /** The text an image element is saved as. */
  function Placeholder(id: string): string {
    Prefix + id + Suffix
  }

  function RenderElement(e: LineElement): string {
    match e
    case Text(t) => t
    case Image(id, _, _) => Placeholder(id)
  }

  /** The elements' texts and placeholders, concatenated in order. */
  function RenderElements(els: seq<LineElement>): string {
    if els == [] then [] else RenderElement(els[0]) + RenderElements(els[1..])
  }

  function RenderLine(l: DocumentLine): string {
    RenderElements(l.elements)
  }

  function RenderLines(lines: seq<DocumentLine>): (r: seq<string>)
    ensures |r| == |lines|
    ensures forall i :: 0 <= i < |lines| ==> r[i] == RenderLine(lines[i])
  {
    if lines == [] then [] else [RenderLine(lines[0])] + RenderLines(lines[1..])
  }

  /** `content_to_text`: the rendered lines joined with line feeds. */
  function ContentToText(lines: seq<DocumentLine>): string {
    JoinLines(RenderLines(lines))
  }

  /** Saving two documents one after the other gives their texts joined by a line feed. */
  lemma ContentToTextAppend(a: seq<DocumentLine>, b: seq<DocumentLine>)
    requires a != [] && b != []
    ensures ContentToText(a + b) == ContentToText(a) + "\n" + ContentToText(b)
  {
    var ra, rb, rab := RenderLines(a), RenderLines(b), RenderLines(a + b);
    forall i | 0 <= i < |rab| ensures rab[i] == (ra + rb)[i] {
      if i < |a| {
        assert (a + b)[i] == a[i];
      } else {
        assert (a + b)[i] == b[i - |a|];
      }
    }
    assert rab == ra + rb;
    JoinAppend(ra, rb);
  }

  lemma {:induction false} JoinAppend(xs: seq<string>, ys: seq<string>)
    requires xs != [] && ys != []
    ensures JoinLines(xs + ys) == JoinLines(xs) + "\n" + JoinLines(ys)
    decreases |xs|
  {
    if |xs| == 1 {
      assert (xs + ys)[1..] == ys;
    } else {
      assert (xs + ys)[1..] == xs[1..] + ys;
      JoinAppend(xs[1..], ys);
    }
  }

  /** The line starts like a placeholder and ends like one. */
  predicate IsPlaceholder(t: string) {
    StartsWith(t, Prefix) && EndsWith(t, Suffix)
  }

  /**
   * A placeholder-shaped line too short to hold both the prefix and the
   * suffix: slicing its id out panics.
   */
  predicate Overlapping(t: string) {
    IsPlaceholder(t) && |t| < |Prefix| + |Suffix|
  }

  /** Exactly one line overlaps: `[img_load(")]`, where the prefix's quote is the suffix's. */
  lemma OverlappingIsOnlyOne(t: string)
    ensures Overlapping(t) <==> t == "[img_load(\")]"
  {
    if Overlapping(t) {
      assert t[..11] == Prefix;
      assert t[|t| - 3..] == Suffix;
      assert t[10] == '"' && t[|t| - 3] == '"';
      assert t[9] == '(' && t[|t| - 2] == ')';
      assert |t| == 13;
      assert t == t[..11] + t[11..];
      assert t[11..] == t[|t| - 2..];
    }
  }

  /** The id between the prefix and the suffix. */
  function PlaceholderId(t: string): string
    requires IsPlaceholder(t) && !Overlapping(t)
  {
    t[|Prefix|..|t| - |Suffix|]
  }

  lemma PlaceholderParses(id: string)
    ensures IsPlaceholder(Placeholder(id)) && !Overlapping(Placeholder(id))
    ensures PlaceholderId(Placeholder(id)) == id
  {
    var p := Placeholder(id);
    assert p[..|Prefix|] == Prefix;
    assert p[|p| - |Suffix|..] == Suffix;
    assert p[|Prefix|..|p| - |Suffix|] == id;
  }

  /** The document line one saved line stands for, leaving the image bytes aside. */
  function LineOf(t: string, meta: DocumentMetadata): (r: DocumentLine)
    requires !Overlapping(t)
    ensures |r.elements| == 1
    ensures r.elements[0].Image? <==> IsPlaceholder(t) && PlaceholderId(t) in meta.images
    ensures r.elements[0].Text? ==> r.elements[0].text == t
    ensures r.elements[0].Image? ==>
      var m := meta.images[PlaceholderId(t)];
      r.elements[0] == Image(PlaceholderId(t), m.width, m.height)
  {
    if IsPlaceholder(t) && PlaceholderId(t) in meta.images then
      var m := meta.images[PlaceholderId(t)];
      DocumentLine([Image(PlaceholderId(t), m.width, m.height)])
    else
      DocumentLine([Text(t)])
  }

  /**
   * What stops a load. `IdSlicePanic` stands for the panic of slicing the
   * id out of an overlapping placeholder line: the model reports it as a
   * result where the program aborts.
   */
  datatype LoadError = DecodeFailed(id: string) | NotFound(name: string) | BadMetadata(name: string) | IdSlicePanic(line: string)

  /** The parsed lines or the first error, and the image cache as the parse left it. */
  datatype Parsed = Parsed(result: Result<seq<DocumentLine>, LoadError>, data: ImageData)

  /** No line is the one whose id slice panics. */
  predicate Parsable(ls: seq<string>) {
    forall k :: 0 <= k < |ls| ==> !Overlapping(ls[k])
  }

  /** The line is a placeholder for an image the metadata lists. */
  predicate Referenced(t: string, meta: DocumentMetadata) {
    IsPlaceholder(t) && !Overlapping(t) && PlaceholderId(t) in meta.images
  }

  /** Every image the metadata lists decodes. */
  predicate AllDecode(meta: DocumentMetadata, decode: string -> Option<seq<byte>>) {
    forall id :: id in meta.images ==> decode(meta.images[id].data).Some?
  }

  /** The cache keeps every entry of `data`; each new entry is the decoded bytes of a listed image. */
  predicate CacheGrows(data: ImageData, data': ImageData, meta: DocumentMetadata, decode: string -> Option<seq<byte>>) {
    && (forall id :: id in data ==> id in data' && data'[id] == data[id])
    && (forall id :: id in data' && id !in data ==> id in meta.images && decode(meta.images[id].data) == Some(data'[id]))
  }

  /** A failed parse names its cause: an image line whose data does not decode, or the panicking line. */
  predicate FailureExplained(ls: seq<string>, meta: DocumentMetadata, decode: string -> Option<seq<byte>>, e: LoadError) {
    match e
    case DecodeFailed(id) =>
      && id in meta.images && decode(meta.images[id].data).None?
      && exists k :: 0 <= k < |ls| && Referenced(ls[k], meta) && PlaceholderId(ls[k]) == id
    case IdSlicePanic(t) => t in ls && Overlapping(t)
    case _ => false
  }

  /** After a successful parse every image a line refers to is cached. */
  predicate AllCached(ls: seq<string>, meta: DocumentMetadata, data: ImageData) {
    forall k :: 0 <= k < |ls| && Referenced(ls[k], meta) ==> PlaceholderId(ls[k]) in data
  }

  /**
   * The image cache after one parsed line: an image line whose id is not
   * cached yet has its data decoded and cached, and None stands for a
   * failed decode; any other line leaves the cache alone.
   */
  function CacheImage(line: DocumentLine, meta: DocumentMetadata, data: ImageData, decode: string -> Option<seq<byte>>): (r: Option<ImageData>)
    requires |line.elements| == 1 && (line.elements[0].Image? ==> line.elements[0].id in meta.images)
    ensures r.None? <==>
      line.elements[0].Image? && line.elements[0].id !in data && decode(meta.images[line.elements[0].id].data).None?
    ensures r.Some? ==> CacheGrows(data, r.value, meta, decode)
    ensures r.Some? && line.elements[0].Image? ==> line.elements[0].id in r.value
    ensures r.Some? && !line.elements[0].Image? ==> r.value == data
  {
    if line.elements[0].Image? && line.elements[0].id !in data then
      var id := line.elements[0].id;
      match decode(meta.images[id].data)
      case None => None
      case Some(b) => Some(data[id := b])
    else Some(data)
  }

  /**
   * The loop of `text_to_content` over the lines: each line becomes
   * `LineOf` it; an image not yet cached is decoded and cached, and a
   * failed decode stops the parse. An overlapping placeholder line stops
   * it with `IdSlicePanic`.
   */
  function ParseLines(ls: seq<string>, meta: DocumentMetadata, data: ImageData, decode: string -> Option<seq<byte>>): (r: Parsed)
    ensures r.result.Success? ==> Parsable(ls) && |r.result.value| == |ls|
    ensures r.result.Success? ==> forall k :: 0 <= k < |ls| ==> r.result.value[k] == LineOf(ls[k], meta)
    ensures Parsable(ls) && AllDecode(meta, decode) ==> r.result.Success?
    ensures r.result.Failure? ==> r.result.error.DecodeFailed? || r.result.error.IdSlicePanic?
    ensures CacheGrows(data, r.data, meta, decode)
    decreases |ls|
  {
    if ls == [] then Parsed(Success([]), data)
    else if Overlapping(ls[0]) then Parsed(Failure(IdSlicePanic(ls[0])), data)
    else
      var line := LineOf(ls[0], meta);
      var data' := CacheImage(line, meta, data, decode);
      if data'.None? then Parsed(Failure(DecodeFailed(line.elements[0].id)), data)
      else
        var rest := ParseLines(ls[1..], meta, data'.value, decode);
        ParseStep(ls, meta, data, data'.value, decode, rest);
        Parsed(if rest.result.Success? then Success([line] + rest.result.value) else rest.result, rest.data)
  }

  /** One step of `ParseLines`: the first line in front of the parsed tail. */
  lemma ParseStep(ls: seq<string>, meta: DocumentMetadata, data: ImageData, data': ImageData,
                  decode: string -> Option<seq<byte>>, rest: Parsed)
    requires ls != [] && !Overlapping(ls[0])
    requires CacheGrows(data, data', meta, decode) && CacheGrows(data', rest.data, meta, decode)
    requires rest.result.Success? ==>
      && Parsable(ls[1..]) && |rest.result.value| == |ls| - 1
      && forall k :: 0 <= k < |ls| - 1 ==> rest.result.value[k] == LineOf(ls[1..][k], meta)
    ensures CacheGrows(data, rest.data, meta, decode)
    ensures Parsable(ls) ==> Parsable(ls[1..])
    ensures rest.result.Success? ==>
      && Parsable(ls)
      && var v := [LineOf(ls[0], meta)] + rest.result.value;
      && |v| == |ls|
      && forall k :: 0 <= k < |ls| ==> v[k] == LineOf(ls[k], meta)
  {
    if rest.result.Success? {
      var v := [LineOf(ls[0], meta)] + rest.result.value;
      forall k | 0 < k < |ls| ensures !Overlapping(ls[k]) && v[k] == LineOf(ls[k], meta) {
        assert ls[k] == ls[1..][k - 1];
      }
    }
  }

  /** A parse fails only because of an undecodable image line or the panicking line. */
  lemma {:induction false} ParseFailureCause(ls: seq<string>, meta: DocumentMetadata, data: ImageData, decode: string -> Option<seq<byte>>)
    ensures var r := ParseLines(ls, meta, data, decode);
            r.result.Failure? ==> FailureExplained(ls, meta, decode, r.result.error)
    decreases |ls|
  {
    if ls != [] && !Overlapping(ls[0]) {
      var line := LineOf(ls[0], meta);
      var data' := CacheImage(line, meta, data, decode);
      if data'.None? {
        assert Referenced(ls[0], meta) && PlaceholderId(ls[0]) == line.elements[0].id;
      } else {
        ParseFailureCause(ls[1..], meta, data'.value, decode);
        TailFailureExplained(ls, meta, decode, ParseLines(ls[1..], meta, data'.value, decode).result);
      }
    }
  }

  /** A failure explained within the tail of `ls` is explained within `ls`. */
  lemma TailFailureExplained(ls: seq<string>, meta: DocumentMetadata, decode: string -> Option<seq<byte>>,
                             rest: Result<seq<DocumentLine>, LoadError>)
    requires ls != []
    requires rest.Failure? ==> FailureExplained(ls[1..], meta, decode, rest.error)
    ensures rest.Failure? ==> FailureExplained(ls, meta, decode, rest.error)
  {
    if rest.Failure? {
      match rest.error
      case DecodeFailed(id) =>
        var k :| 0 <= k < |ls[1..]| && Referenced(ls[1..][k], meta) && PlaceholderId(ls[1..][k]) == id;
        assert ls[k + 1] == ls[1..][k];
      case IdSlicePanic(t) =>
        assert t in ls[1..];
        var k :| 0 <= k < |ls[1..]| && ls[1..][k] == t;
        assert ls[k + 1] == t;
      case _ =>
    }
  }

  /** After a successful parse every image a line refers to is in the cache. */
  lemma {:induction false} ParseCachesImages(ls: seq<string>, meta: DocumentMetadata, data: ImageData, decode: string -> Option<seq<byte>>)
    ensures var r := ParseLines(ls, meta, data, decode);
            r.result.Success? ==> AllCached(ls, meta, r.data)
    decreases |ls|
  {
    if ls != [] && !Overlapping(ls[0]) {
      var line := LineOf(ls[0], meta);
      var data' := CacheImage(line, meta, data, decode);
      if data'.Some? {
        ParseCachesImages(ls[1..], meta, data'.value, decode);
        var rest := ParseLines(ls[1..], meta, data'.value, decode);
        if rest.result.Success? {
          TailCached(ls, meta, data'.value, rest.data);
        }
      }
    }
  }

  /** The first line's image, cached before the tail is parsed, stays cached; the tail's images are cached by its parse. */
  lemma TailCached(ls: seq<string>, meta: DocumentMetadata, data': ImageData, data'': ImageData)
    requires ls != [] && !Overlapping(ls[0])
    requires Referenced(ls[0], meta) ==> PlaceholderId(ls[0]) in data'
    requires forall id :: id in data' ==> id in data''
    requires AllCached(ls[1..], meta, data'')
    ensures AllCached(ls, meta, data'')
  {
    forall k | 0 < k < |ls| && Referenced(ls[k], meta) ensures PlaceholderId(ls[k]) in data'' {
      assert ls[k] == ls[1..][k - 1];
    }
  }

  /**
   * `text_to_content`: never an empty document (the empty text gives one
   * fresh line), one single-element line per text line, and the image
   * cache only grows.
   */
  function TextToContent(text: string, meta: DocumentMetadata, data: ImageData, decode: string -> Option<seq<byte>>): (r: Parsed)
    ensures r.result.Success? ==> r.result.value != [] && Parsable(Lines(text))
    ensures Lines(text) == [] ==> r == Parsed(Success([NewLine()]), data)
    ensures Lines(text) != [] && r.result.Success? ==>
      && |r.result.value| == |Lines(text)|
      && forall k :: 0 <= k < |Lines(text)| ==> r.result.value[k] == LineOf(Lines(text)[k], meta)
    ensures Parsable(Lines(text)) && AllDecode(meta, decode) ==> r.result.Success?
    ensures r.result.Failure? ==> FailureExplained(Lines(text), meta, decode, r.result.error)
    ensures r.result.Success? ==> AllCached(Lines(text), meta, r.data)
    ensures CacheGrows(data, r.data, meta, decode)
  {
    var p := ParseLines(Lines(text), meta, data, decode);
    ParseFailureCause(Lines(text), meta, data, decode);
    ParseCachesImages(Lines(text), meta, data, decode);
    if p.result.Success? && p.result.value == [] then Parsed(Success([NewLine()]), p.data) else p
  }

  /**
   * A line saves and loads back to itself: a single text element without
   * line breaks that does not look like a placeholder, or a single image
   * whose id the metadata lists with the same size.
   */
  predicate LineRoundTrips(l: DocumentLine, meta: DocumentMetadata) {
    && |l.elements| == 1
    && match l.elements[0]
       case Text(t) => NoNewline(t) && NoCR(t) && !IsPlaceholder(t)
       case Image(id, w, h) =>
         && NoNewline(id) && NoCR(id)
         && id in meta.images && meta.images[id].width == w && meta.images[id].height == h
  }

  /**
   * A document loads back to itself when each line does and, since
   * `lines()` drops a final empty line, the last line is not an empty
   * text unless it is the only line.
   */
  predicate RoundTrips(doc: seq<DocumentLine>, meta: DocumentMetadata) {
    && doc != []
    && (forall i :: 0 <= i < |doc| ==> LineRoundTrips(doc[i], meta))
    && (|doc| == 1 || RenderLine(doc[|doc| - 1]) != [])
  }

  lemma RenderSingle(l: DocumentLine)
    requires |l.elements| == 1
    ensures RenderLine(l) == RenderElement(l.elements[0])
  {
    assert RenderElements(l.elements) == RenderElement(l.elements[0]) + RenderElements(l.elements[1..]);
    assert l.elements[1..] == [];
    assert RenderElements(l.elements[1..]) == [];
    assert RenderElement(l.elements[0]) + [] == RenderElement(l.elements[0]);
  }

  lemma LineRoundTrip(l: DocumentLine, meta: DocumentMetadata)
    requires LineRoundTrips(l, meta)
    ensures NoNewline(RenderLine(l)) && NoCR(RenderLine(l))
    ensures !Overlapping(RenderLine(l)) && LineOf(RenderLine(l), meta) == l
  {
    RenderSingle(l);
    match l.elements[0]
    case Text(t) =>
      assert l.elements == [Text(t)];
    case Image(id, w, h) =>
      PlaceholderParses(id);
      BreaksAppend(Prefix, id);
      BreaksAppend(Prefix + id, Suffix);
      assert l.elements == [Image(id, w, h)];
  }

  /** Parsing the rendered lines of round-tripping lines gives the lines back. */
  lemma {:induction false} ParseRendered(doc: seq<DocumentLine>, meta: DocumentMetadata, data: ImageData, decode: string -> Option<seq<byte>>)
    requires forall i :: 0 <= i < |doc| ==> LineRoundTrips(doc[i], meta)
    requires AllDecode(meta, decode)
    ensures Parsable(RenderLines(doc))
    ensures ParseLines(RenderLines(doc), meta, data, decode).result == Success(doc)
  {
    forall k | 0 <= k < |doc| ensures !Overlapping(RenderLines(doc)[k]) && LineOf(RenderLines(doc)[k], meta) == doc[k] {
      LineRoundTrip(doc[k], meta);
    }
    var r := ParseLines(RenderLines(doc), meta, data, decode);
    assert r.result.Success?;
    assert r.result.value == doc;
  }

  /** Loading what `content_to_text` wrote gives the document back. */
  lemma TextRoundTrip(doc: seq<DocumentLine>, meta: DocumentMetadata, data: ImageData, decode: string -> Option<seq<byte>>)
    requires RoundTrips(doc, meta) && AllDecode(meta, decode)
    ensures Parsable(Lines(ContentToText(doc)))
    ensures TextToContent(ContentToText(doc), meta, data, decode).result == Success(doc)
  {
    if RenderLine(doc[|doc| - 1]) == [] {
      EmptyLastLine(doc, meta);
    } else {
      LinesOfContent(doc, meta);
      ParseRendered(doc, meta, data, decode);
    }
  }

  /** The saved text of a round-tripping document whose last line is not empty has the rendered lines as its lines. */
  lemma LinesOfContent(doc: seq<DocumentLine>, meta: DocumentMetadata)
    requires RoundTrips(doc, meta) && RenderLine(doc[|doc| - 1]) != []
    ensures Lines(ContentToText(doc)) == RenderLines(doc)
  {
    var rs := RenderLines(doc);
    forall k | 0 <= k < |rs| ensures NoNewline(rs[k]) && NoCR(rs[k]) {
      LineRoundTrip(doc[k], meta);
    }
    LinesOfJoin(rs);
  }

  /** A document whose only line renders empty is the fresh line, and its text has no lines. */
  lemma EmptyLastLine(doc: seq<DocumentLine>, meta: DocumentMetadata)
    requires RoundTrips(doc, meta) && RenderLine(doc[|doc| - 1]) == []
    ensures doc == [NewLine()] && ContentToText(doc) == []
  {
    assert |doc| == 1;
    RenderSingle(doc[0]);
    match doc[0].elements[0]
    case Image(_, _, _) =>
      assert false;
    case Text(t) =>
      assert doc[0].elements == [Text([])];
  }

  /** A file path, split as `Path::extension` splits it: the extension, if any, after the last dot. */
  datatype Path = Path(stem: string, ext: Option<string>)

  function FullName(p: Path): string {
    p.stem + (if p.ext.Some? then "." + p.ext.value else "")
  }

  /** The path's extension, "txt" when there is none. */
  function Extension(p: Path): string {
    p.ext.GetOr("txt")
  }

  /** `Path::with_extension`. */
  function WithExtension(p: Path, e: string): Path {
    Path(p.stem, Some(e))
  }

  /** The side-car file `load_from_path` reads: `<ext>.meta` beside the document. */
  function Sidecar(p: Path): Path {
    WithExtension(p, Extension(p) + ".meta")
  }

  type FileSystem = map<string, string>

  datatype FileWrite = FileWrite(name: string, contents: string)

  /**
   * `save_to_path` as written: the text, then the metadata when it lists
   * an image; for an extension other than md and txt the side-car is
   * named `txt.meta`.
   */
  function SaveAsWritten(path: Path, lines: seq<DocumentLine>, meta: DocumentMetadata, toJson: DocumentMetadata -> string): (r: seq<FileWrite>)
    ensures r != [] && r[0] == FileWrite(FullName(path), ContentToText(lines))
    ensures |r| == if |meta.images| == 0 then 1 else 2
    ensures |r| == 2 && Extension(path) in {"md", "txt"} ==> r[1] == FileWrite(FullName(Sidecar(path)), toJson(meta))
    ensures |r| == 2 && Extension(path) !in {"md", "txt"} ==> r[1] == FileWrite(FullName(WithExtension(path, "txt.meta")), toJson(meta))
  {
    var text := [FileWrite(FullName(path), ContentToText(lines))];
    var ext := Extension(path);
    if ext == "md" || ext == "txt" then
      text + (if |meta.images| > 0 then [FileWrite(FullName(WithExtension(path, ext + ".meta")), toJson(meta))] else [])
    else
      text + (if |meta.images| > 0 then [FileWrite(FullName(WithExtension(path, "txt.meta")), toJson(meta))] else [])
  }

  /** `save_to_path` writing the side-car under the name the loader reads. */
  function Save(path: Path, lines: seq<DocumentLine>, meta: DocumentMetadata, toJson: DocumentMetadata -> string): (r: seq<FileWrite>)
    ensures r != [] && r[0] == FileWrite(FullName(path), ContentToText(lines))
    ensures |r| == if |meta.images| == 0 then 1 else 2
    ensures |r| == 2 ==> r[1] == FileWrite(FullName(Sidecar(path)), toJson(meta))
    ensures Extension(path) in {"md", "txt"} ==> r == SaveAsWritten(path, lines, meta, toJson)
  {
    [FileWrite(FullName(path), ContentToText(lines))]
      + (if |meta.images| > 0 then [FileWrite(FullName(Sidecar(path)), toJson(meta))] else [])
  }

  function Apply(fs: FileSystem, ws: seq<FileWrite>): FileSystem
    decreases |ws|
  {
    if ws == [] then fs else Apply(fs[ws[0].name := ws[0].contents], ws[1..])
  }

  datatype Loaded = Loaded(lines: seq<DocumentLine>, meta: DocumentMetadata, data: ImageData)

  /** The document file, if present, can be parsed without a panic. */
  predicate Loadable(path: Path, fs: FileSystem) {
    FullName(path) in fs ==> Parsable(Lines(fs[FullName(path)]))
  }

  /**
   * The metadata half of `load_from_path`: the side-car `<ext>.meta`
   * when it exists, no images when it does not, and an error when its
   * JSON does not parse.
   */
  function ReadMetadata(path: Path, fs: FileSystem, fromJson: string -> Option<DocumentMetadata>): (r: Result<DocumentMetadata, LoadError>)
    ensures FullName(Sidecar(path)) !in fs ==> r == Success(DocumentMetadata(map[]))
    ensures FullName(Sidecar(path)) in fs && fromJson(fs[FullName(Sidecar(path))]).None? ==>
      r == Failure(BadMetadata(FullName(Sidecar(path))))
    ensures FullName(Sidecar(path)) in fs && fromJson(fs[FullName(Sidecar(path))]).Some? ==>
      r == Success(fromJson(fs[FullName(Sidecar(path))]).value)
  {
    var metaName := FullName(Sidecar(path));
    if metaName in fs then
      match fromJson(fs[metaName])
      case None => Failure(BadMetadata(metaName))
      case Some(m) => Success(m)
    else Success(DocumentMetadata(map[]))
  }

  /**
   * `load_from_path`: read the text, read the side-car, and parse with an
   * empty image cache. A missing document, unreadable metadata, an
   * undecodable image and the id-slice panic each end the load with an
   * error.
   */
  function Load(path: Path, fs: FileSystem, fromJson: string -> Option<DocumentMetadata>, decode: string -> Option<seq<byte>>): (r: Result<Loaded, LoadError>)
    ensures FullName(path) !in fs ==> r == Failure(NotFound(FullName(path)))
    ensures FullName(path) in fs && ReadMetadata(path, fs, fromJson).Failure? ==>
      r == Failure(BadMetadata(FullName(Sidecar(path))))
    ensures FullName(path) in fs && ReadMetadata(path, fs, fromJson).Success? ==>
      var meta := ReadMetadata(path, fs, fromJson).value;
      var p := TextToContent(fs[FullName(path)], meta, map[], decode);
      && (r.Success? <==> p.result.Success?)
      && (r.Success? ==> r.value == Loaded(p.result.value, meta, p.data))
      && (r.Failure? ==> r.error == p.result.error)
    ensures r.Success? ==> Loadable(path, fs) && r.value.lines != []
    ensures r.Success? && FullName(Sidecar(path)) !in fs ==> r.value.meta.images == map[]
    ensures r.Success? && FullName(Sidecar(path)) in fs ==> fromJson(fs[FullName(Sidecar(path))]) == Some(r.value.meta)
    ensures r.Success? ==> AllCached(Lines(fs[FullName(path)]), r.value.meta, r.value.data)
  {
    var name := FullName(path);
    if name !in fs then Failure(NotFound(name))
    else
      var meta := ReadMetadata(path, fs, fromJson);
      if meta.Failure? then Failure(meta.error)
      else
        var p := TextToContent(fs[name], meta.value, map[], decode);
        if p.result.Failure? then Failure(p.result.error)
        else Success(Loaded(p.result.value, meta.value, p.data))
  }

  /** A load fails only for one of the reasons its error names. */
  lemma LoadFailureCause(path: Path, fs: FileSystem, fromJson: string -> Option<DocumentMetadata>, decode: string -> Option<seq<byte>>)
    ensures var r := Load(path, fs, fromJson, decode);
            r.Failure? ==>
              || (r.error == NotFound(FullName(path)) && FullName(path) !in fs)
              || (r.error == BadMetadata(FullName(Sidecar(path))) && FullName(Sidecar(path)) in fs
                  && fromJson(fs[FullName(Sidecar(path))]).None?)
              || (FullName(path) in fs && ReadMetadata(path, fs, fromJson).Success?
                  && FailureExplained(Lines(fs[FullName(path)]), ReadMetadata(path, fs, fromJson).value, decode, r.error))
  {
  }

  /** The side-car's name differs from the document's. */
  lemma SidecarDistinct(path: Path)
    ensures FullName(Sidecar(path)) != FullName(path)
  {
  }

  /**
   * Saving and loading again gives the same document and metadata,
   * provided the document round-trips, the JSON encoding does, and no
   * stale side-car is left over when the save writes none.
   */
  lemma SaveThenLoad(path: Path, doc: seq<DocumentLine>, meta: DocumentMetadata, fs: FileSystem,
                     toJson: DocumentMetadata -> string, fromJson: string -> Option<DocumentMetadata>,
                     decode: string -> Option<seq<byte>>)
    requires RoundTrips(doc, meta) && AllDecode(meta, decode)
    requires fromJson(toJson(meta)) == Some(meta)
    requires |meta.images| > 0 || FullName(Sidecar(path)) !in fs
    ensures Loadable(path, Apply(fs, Save(path, doc, meta, toJson)))
    ensures var r := Load(path, Apply(fs, Save(path, doc, meta, toJson)), fromJson, decode);
            r.Success? && r.value.lines == doc && r.value.meta == meta
  {
    SavedFiles(path, doc, meta, fs, toJson);
    TextRoundTrip(doc, meta, map[], decode);
    if |meta.images| == 0 {
      assert meta.images == map[];
    }
  }

  /** What `Save` leaves on disk: the text, and the side-car exactly when there are images. */
  lemma SavedFiles(path: Path, doc: seq<DocumentLine>, meta: DocumentMetadata, fs: FileSystem, toJson: DocumentMetadata -> string)
    requires |meta.images| > 0 || FullName(Sidecar(path)) !in fs
    ensures var fs' := Apply(fs, Save(path, doc, meta, toJson));
            && FullName(path) in fs' && fs'[FullName(path)] == ContentToText(doc)
            && (|meta.images| > 0 ==> FullName(Sidecar(path)) in fs' && fs'[FullName(Sidecar(path))] == toJson(meta))
            && (|meta.images| == 0 ==> FullName(Sidecar(path)) !in fs')
  {
    var ws := Save(path, doc, meta, toJson);
    var name := FullName(path);
    var metaName := FullName(Sidecar(path));
    var fs1 := fs[name := ContentToText(doc)];
    assert Apply(fs, ws) == Apply(fs1, ws[1..]);
    if |meta.images| > 0 {
      assert ws[1..] == [FileWrite(metaName, toJson(meta))];
      assert ws[1..][1..] == [];
      assert Apply(fs1, ws[1..]) == fs1[metaName := toJson(meta)];
    } else {
      assert ws[1..] == [];
    }
  }

  /**
   * With an extension other than md or txt, the side-car is written as
   * `x.txt.meta` but looked for as `x.rtf.meta`: a saved image comes back
   * as the literal placeholder text.
   */
  lemma SidecarNameMismatch(toJson: DocumentMetadata -> string, fromJson: string -> Option<DocumentMetadata>,
                            decode: string -> Option<seq<byte>>)
    ensures var path := Path("x", Some("rtf"));
            var doc := [DocumentLine([Image("p", 1, 1)])];
            var meta := DocumentMetadata(map["p" := ImageMetadata("p", "AA", 1, 1)]);
            var fs := Apply(map[], SaveAsWritten(path, doc, meta, toJson));
            && Loadable(path, fs)
            && Load(path, fs, fromJson, decode) == Success(Loaded([DocumentLine([Text(Placeholder("p"))])], DocumentMetadata(map[]), map[]))
  {
    var path := Path("x", Some("rtf"));
    var doc := [DocumentLine([Image("p", 1, 1)])];
    var meta := DocumentMetadata(map["p" := ImageMetadata("p", "AA", 1, 1)]);
    RtfWrites(doc, meta, toJson);
    LoadBarePlaceholder(Apply(map[], SaveAsWritten(path, doc, meta, toJson)), fromJson, decode);
  }

  /** What the save of a one-image document to `x.rtf` leaves on disk. */
  lemma RtfWrites(doc: seq<DocumentLine>, meta: DocumentMetadata, toJson: DocumentMetadata -> string)
    requires doc == [DocumentLine([Image("p", 1, 1)])]
    requires meta == DocumentMetadata(map["p" := ImageMetadata("p", "AA", 1, 1)])
    ensures var fs := Apply(map[], SaveAsWritten(Path("x", Some("rtf")), doc, meta, toJson));
            "x.rtf" in fs && fs["x.rtf"] == Placeholder("p") && "x.rtf.meta" !in fs
  {
    var path := Path("x", Some("rtf"));
    var ws := SaveAsWritten(path, doc, meta, toJson);
    var text := ContentToText(doc);
    RenderSingle(doc[0]);
    assert text == Placeholder("p");
    assert FullName(path) == "x.rtf";
    assert FullName(WithExtension(path, "txt.meta")) == "x.txt.meta";
    assert "p" in meta.images;
    assert ws == [FileWrite("x.rtf", text), FileWrite("x.txt.meta", toJson(meta))];
    var fs := Apply(map[], ws);
    assert fs == Apply(map["x.rtf" := text], ws[1..]);
    assert ws[1..][0] == FileWrite("x.txt.meta", toJson(meta)) && ws[1..][1..] == [];
    assert fs == Apply(map["x.rtf" := text]["x.txt.meta" := toJson(meta)], []);
  }

  /** `x.rtf` holding a bare placeholder and no `x.rtf.meta` loads as one text line. */
  lemma LoadBarePlaceholder(fs: FileSystem, fromJson: string -> Option<DocumentMetadata>, decode: string -> Option<seq<byte>>)
    requires "x.rtf" in fs && fs["x.rtf"] == Placeholder("p") && "x.rtf.meta" !in fs
    ensures Loadable(Path("x", Some("rtf")), fs)
    ensures Load(Path("x", Some("rtf")), fs, fromJson, decode) == Success(Loaded([DocumentLine([Text(Placeholder("p"))])], DocumentMetadata(map[]), map[]))
  {
    var path := Path("x", Some("rtf"));
    assert FullName(path) == "x.rtf";
    assert FullName(Sidecar(path)) == "x.rtf.meta";
    BarePlaceholderParses(decode);
  }

  /** Without metadata a placeholder is parsed as the text it is. */
  lemma BarePlaceholderParses(decode: string -> Option<seq<byte>>)
    ensures Parsable(Lines(Placeholder("p")))
    ensures TextToContent(Placeholder("p"), DocumentMetadata(map[]), map[], decode)
            == Parsed(Success([DocumentLine([Text(Placeholder("p"))])]), map[])
  {
    PlaceholderLine("p");
    ParseWithoutMetadata(Placeholder("p"), decode);
  }

  /** A placeholder is one line of its own, and parses. */
  lemma PlaceholderLine(id: string)
    requires NoNewline(id) && NoCR(id)
    ensures Lines(Placeholder(id)) == [Placeholder(id)] && !Overlapping(Placeholder(id))
  {
    var text := Placeholder(id);
    NoBreaksInPlaceholder(id);
    PlaceholderParses(id);
    LinesOfLine(text, []);
    assert text + [] == text;
  }

  /** Without metadata every line is parsed as a text line. */
  lemma ParseWithoutMetadata(t: string, decode: string -> Option<seq<byte>>)
    requires !Overlapping(t)
    ensures ParseLines([t], DocumentMetadata(map[]), map[], decode) == Parsed(Success([DocumentLine([Text(t)])]), map[])
  {
    var meta := DocumentMetadata(map[]);
    var line := LineOf(t, meta);
    assert line == DocumentLine([Text(t)]);
    assert [t][1..] == [];
    assert ParseLines([], meta, map[], decode) == Parsed(Success([]), map[]);
    assert [line] + [] == [line];
  }

  lemma NoBreaksInPlaceholder(id: string)
    requires NoNewline(id) && NoCR(id)
    ensures NoNewline(Placeholder(id)) && NoCR(Placeholder(id))
  {
    LineRoundTrip(DocumentLine([Image(id, 0, 0)]), DocumentMetadata(map[id := ImageMetadata(id, [], 0, 0)]));
    RenderSingle(DocumentLine([Image(id, 0, 0)]));
  }
}
