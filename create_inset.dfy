/** The current inset extension, `inkex_bh/create_inset.py`: the logger, the export through
    Inkscape and optipng, creating an inset, recreating one from its provenance, and the
    dispatch on the selection. */
module CreateInset {
  import opened Wrappers
  import opened Strings
  import opened Svg
  import opened Visibility
  import opened Process
  import opened Png
  import opened Inset
  import Style

  /** `Logger`: the verbosity flag that decides whether command output is shown. */
  class Logger {
    var verbose: bool

    constructor()
      ensures !verbose
    {
      verbose := false;
    }

    /** `set_verbosity(verbose)`: returns the previous setting. */
    method SetVerbosity(v: bool) returns (prev: bool)
      modifies this
      ensures prev == old(verbose) && verbose == v
    {
      prev := verbose;
      verbose := v;
    }

    /** `log(message)`: the lines written, one when verbose and none otherwise. */
    function Emit(message: string): (r: seq<Msg>)
      reads this
      ensures |r| <= 1 && (r != [] <==> verbose) && forall m | m in r :: m == Output(message)
    {
      if verbose then [Output(message)] else []
    }
  }

  // ---- export_png and export_image ----

  /** The optipng step: the PNG file afterwards, the optimiser's output when it ran. */
  function Optimise(tools: Tools, file: Option<seq<byte>>, level: int, verbose: bool): (r: Outcome<Option<seq<byte>>>)
    ensures var (q, optimised) := tools.optimise(file, level);
      && (r.result.Success? ==> r.result.value == if tools.found(OPTIPNG) then optimised else file)
      && (r.result.Success? <==> !tools.found(OPTIPNG) || q.status == 0)
      && (!tools.found(OPTIPNG) ==> r.msgs == [MissingExecutable(OPTIPNG)])
      && (r.result.Failure? ==> r.result == Failure(Exit(1)) && r.msgs == FailureReport(OPTIPNG, q))
  {
    var (q, optimised) := tools.optimise(file, level);
    var run := RunCommand(OPTIPNG, tools.found(OPTIPNG), q, verbose, true);
    match run.result
    case Failure(h) => Outcome(run.msgs, Failure(h))
    case Success(ran) => Outcome(run.msgs, Success(if ran then optimised else file))
  }

  /** `export_png(svg, export_id, **png_options)`: render the document, optimise the file when
      a non-negative level is given, read it back and size it. The result is the PNG data and
      the image's width and height in user units. */
  function ExportPng(tools: Tools, verbose: bool, t: Tree, exportId: string, o: PngOptions): Outcome<(seq<byte>, real, real)>
  {
    var (p, rendered) := tools.render(Request(t, exportId, o));
    var inkscape := RunCommand(INKSCAPE, tools.found(INKSCAPE), p, verbose, false);
    if inkscape.result.Failure? then Outcome(inkscape.msgs, Failure(inkscape.result.error))
    else
      var optipng := if Optimises(o) then Optimise(tools, rendered, o.optipngLevel.value, verbose) else Outcome([], Success(rendered));
      var msgs := inkscape.msgs + optipng.msgs;
      match optipng.result
      case Failure(h) => Outcome(msgs, Failure(h))
      case Success(None) => Outcome(msgs, Failure(Raise(FileNotFoundError)))
      case Success(Some(data)) =>
        match EmbeddedSize(data, o.dpi)
        case Failure(exc) => Outcome(msgs, Failure(Raise(exc)))
        case Success((w, h)) => Outcome(msgs, Success((data, w, h)))
  }

  /** What `export_png` promises: a missing or failing Inkscape stops it with the runner's
      messages; a result is the rendered (and, when asked and available, optimised) file,
      sized by its PNG header at the configured resolution. */
  lemma ExportPngContract(tools: Tools, verbose: bool, t: Tree, exportId: string, o: PngOptions)
    ensures var r := ExportPng(tools, verbose, t, exportId, o); var (p, rendered) := tools.render(Request(t, exportId, o));
      && (!tools.found(INKSCAPE) ==> r == Outcome([], Failure(Raise(FileNotFoundError))))
      && (tools.found(INKSCAPE) && p.status != 0 ==> r == Outcome(FailureReport(INKSCAPE, p), Failure(Exit(1))))
      && (r.result.Success? ==> tools.found(INKSCAPE) && p.status == 0)
      && (r.result.Success? ==> EmbeddedSize(r.result.value.0, o.dpi) == Success((r.result.value.1, r.result.value.2)))
      && (r.result.Success? && !Optimises(o) ==> rendered == Some(r.result.value.0))
      && (r.result.Success? && Optimises(o) && !tools.found(OPTIPNG) ==> rendered == Some(r.result.value.0))
      && (r.result.Success? && Optimises(o) && tools.found(OPTIPNG) ==>
            tools.optimise(rendered, o.optipngLevel.value).1 == Some(r.result.value.0))
  {
  }

  /** A result is sized by its PNG header at the configured resolution. */
  lemma ExportPngSized(tools: Tools, verbose: bool, t: Tree, exportId: string, o: PngOptions)
    requires ExportPng(tools, verbose, t, exportId, o).result.Success?
    ensures var (data, w, h) := ExportPng(tools, verbose, t, exportId, o).result.value;
      EmbeddedSize(data, o.dpi) == Success((w, h))
  {
    ExportPngContract(tools, verbose, t, exportId, o);
  }

  /** An exported image is shown at the size its PNG has at the configured resolution. */
  lemma ExportedImageShowsPng(tools: Tools, verbose: bool, t: Tree, exportId: string, o: PngOptions, e: Element)
    requires ExportPng(tools, verbose, t, exportId, o).result.Success?
    ensures var (data, w, h) := ExportPng(tools, verbose, t, exportId, o).result.value;
      ShowsPng(WithImageData(e, data, w, h), o.dpi)
  {
    ExportPngContract(tools, verbose, t, exportId, o);
  }

  /** The `png_options` of `effect`: a negative `--optipng-level` turns the optimiser off. */
  function PngOptionsOf(dpi: real, scale: real, background: string, opacity: real, level: int): (o: PngOptions)
    ensures o.dpi == dpi && o.scale == scale && o.background == background && o.opacity == opacity
    ensures Optimises(o) <==> level >= 0
    ensures Optimises(o) ==> o.optipngLevel == Some(level)
  {
    PngOptions(dpi, scale, background, opacity, if level >= 0 then Some(level) else None)
  }

  // ---- create_inset ----

  const IMAGE_RENDERING: string := "image-rendering"

  /** The `image-rendering:optimizeQuality` style, `x`, `y` and `preserveAspectRatio` of a new inset. */
  function Placed(e: Element, x: real, y: real): (r: Element)
    ensures r.tag == e.tag && r.parent == e.parent
    ensures r.attrs == e.attrs["x" := Num(x)]["y" := Num(y)]["preserveAspectRatio" := Str("xMidYMid")]
  {
    var e1 := SetAttr(SetAttr(e, "x", Num(x)), "y", Num(y));
    SetAttr(e1.(style := Some(Style.SetProperty(e1.style, IMAGE_RENDERING, "optimizeQuality"))), "preserveAspectRatio", Str("xMidYMid"))
  }

  /** The new inset is drawn with `image-rendering:optimizeQuality`. */
  lemma PlacedRendersQuality(e: Element, x: real, y: real)
    ensures Style.Get(Style.Parsed(Placed(e, x, y).style), IMAGE_RENDERING) == Some("optimizeQuality")
  {
    Style.SetPropertyEffect(e.style, IMAGE_RENDERING, "optimizeQuality");
  }

  /** What a created inset records and shows: its export id, the ids of the layers that
      were visible (stored as the empty string exactly when there were none) and its PNG. */
  predicate CreatedInset(img: Element, exportId: string, ids: set<string>, dpi: real) {
    && img.tag == Image && img.parent == Some(ROOT)
    && Attr(img, EXPORT_ID) == Some(exportId)
    && ReadVisibleLayers(img) == ids
    && Attr(img, VISIBLE_LAYERS).Some? && (Attr(img, VISIBLE_LAYERS).value == "" <==> ids == {})
    && ShowsPng(img, dpi)
  }

  /** The image's box, at `x`, `y` and of its own `width` and `height`, has its centre at `center`. */
  predicate CenteredAt(img: Element, center: (real, real)) {
    && "width" in img.attrs && img.attrs["width"].Num? && "height" in img.attrs && img.attrs["height"].Num?
    && "x" in img.attrs && img.attrs["x"] == Num(center.0 - img.attrs["width"].r / 2.0)
    && "y" in img.attrs && img.attrs["y"] == Num(center.1 - img.attrs["height"].r / 2.0)
  }

  /** The image `create_inset` builds from the provenance text and the export. */
  function NewInset(exportId: string, text: string, data: seq<byte>, w: real, h: real, center: (real, real)): Element {
    var img := Element(Image, None, None, map[EXPORT_ID := Str(exportId), VISIBLE_LAYERS := Str(text)]);
    Placed(WithImageData(img, data, w, h), center.0 - w / 2.0, center.1 - h / 2.0)
  }

  lemma NewInsetCreated(exportId: string, text: string, ids: set<string>, data: seq<byte>, w: real, h: real, center: (real, real), dpi: real)
    requires Enumerates(Words(text), ids) && (text == "" <==> ids == {})
    requires EmbeddedSize(data, dpi) == Success((w, h))
    ensures var img := NewInset(exportId, text, data, w, h, center).(parent := Some(ROOT));
      && CreatedInset(img, exportId, ids, dpi)
      && CenteredAt(img, center)
  {
    var r := NewInset(exportId, text, data, w, h, center).(parent := Some(ROOT));
    NewInsetAttrs(exportId, text, data, w, h, center);
    ProvenanceRead(r, text, ids);
  }

  /** The new image, once appended to the root, is the created inset. */
  lemma NewInsetAppended(t: Tree, exportId: string, text: string, ids: set<string>, data: seq<byte>, w: real, h: real, center: (real, real), dpi: real)
    requires WellFormed(t) && ROOT in t.elems
    requires Enumerates(Words(text), ids) && (text == "" <==> ids == {})
    requires EmbeddedSize(data, dpi) == Success((w, h))
    ensures var t' := Append(t, ROOT, NewInset(exportId, text, data, w, h, center));
      && t.next in t'.elems && CreatedInset(t'.elems[t.next], exportId, ids, dpi) && CenteredAt(t'.elems[t.next], center)
  {
    NewInsetCreated(exportId, text, ids, data, w, h, center, dpi);
  }

  lemma NewInsetAttrs(exportId: string, text: string, data: seq<byte>, w: real, h: real, center: (real, real))
    ensures var r := NewInset(exportId, text, data, w, h, center);
      && r.attrs[EXPORT_ID] == Str(exportId) && r.attrs[VISIBLE_LAYERS] == Str(text)
      && r.attrs[HREF] == PngUrl(data) && r.attrs["width"] == Num(w) && r.attrs["height"] == Num(h)
      && r.attrs["x"] == Num(center.0 - w / 2.0) && r.attrs["y"] == Num(center.1 - h / 2.0)
  {
    AttrNamesDistinct();
  }

  /** `create_inset(svg, export_id, png_options)`: record the visible layers and the export
      id on a new image, render the document as it stands, then centre the image on the view
      centre and append it to the root. `center` is `svg.namedview.center`. */
  method CreateNewInset(doc: Document, log: Logger, tools: Tools, exportId: string, o: PngOptions, center: (real, real))
    returns (r: Outcome<()>)
    requires doc.Valid() && LayersHaveIds(doc.tree)
    modifies doc
    ensures var x := ExportPng(tools, log.verbose, old(doc.tree), exportId, o);
      && r.msgs == x.msgs
      && (x.result.Failure? ==> r.result == Failure(x.result.error) && doc.tree == old(doc.tree))
      && (x.result.Success? ==> r.result == Success(()))
    ensures r.result.Success? ==> old(doc.tree).next in doc.tree.elems
    ensures r.result.Success? ==> var t, img := old(doc.tree), doc.tree.elems[old(doc.tree).next];
      && doc.tree == Append(t, ROOT, img)
      && CreatedInset(img, exportId, VisibleLayerIds(t), o.dpi)
      && CenteredAt(img, center)
  {
    var t := doc.tree;
    var verbose := log.verbose;
    var ids := VisibleIds(doc);
    var text := JoinIds(ids);
    var x := ExportPng(tools, verbose, t, exportId, o);
    if x.result.Failure? {
      return Outcome(x.msgs, Failure(x.result.error));
    }
    ExportPngSized(tools, verbose, t, exportId, o);
    var (data, w, h) := x.result.value;
    var img := NewInset(exportId, text, data, w, h, center);
    NewInsetAppended(t, exportId, text, ids, data, w, h, center, o.dpi);
    var n := doc.AppendChild(ROOT, img);
    r := Outcome(x.msgs, Success(()));
  }

  /** The ids of the visible layers, each a valid XML name. */
  method VisibleIds(doc: Document) returns (ids: set<string>)
    requires doc.Valid() && LayersHaveIds(doc.tree)
    ensures ids == VisibleLayerIds(doc.tree) && forall x | x in ids :: IsName(x)
  {
    var t := doc.tree;
    var layers := GetVisibleLayers(doc);
    ids := set n | n in layers :: LayerId(t, n);
    assert ids == VisibleLayerIds(t) by {
      forall n ensures n in layers <==> n in t.elems && IsLayer(t.elems[n]) && Visible(t, n) {
        VisibleLayersMembers(t, n);
      }
    }
  }

  /** A freshly created inset counts as an inset again exactly when its export id is not
      empty and at least one layer was visible: with no visible layer the stored id list is
      the empty string, which `is_inset` rejects. */
  lemma CreatedIsInset(img: Element, exportId: string, ids: set<string>, dpi: real)
    requires CreatedInset(img, exportId, ids, dpi)
    ensures IsInset(img) <==> exportId != "" && ids != {}
  {
  }

  // ---- recreate_inset ----

  /** The export node of an inset still resolves. */
  predicate Resolves(t: Tree, image: Node)
    requires WellFormed(t) && image in t.elems && Attr(t.elems[image], EXPORT_ID).Some?
  {
    GetElementById(t, Attr(t.elems[image], EXPORT_ID).value).Some?
  }

  /** An inset as `recreate_inset` reads it: an image with an export id. */
  predicate Recreatable(t: Tree, image: Node) {
    && WellFormed(t) && LayersHaveIds(t) && image in t.elems
    && t.elems[image].tag == Image && Attr(t.elems[image], EXPORT_ID).Some?
  }

  /** What `recreate_inset(svg, image, png_options)` returns and leaves behind. When the export
      node is gone: one message, `False`, and the document untouched. Otherwise the document is
      rendered with the image hidden and each layer shown exactly when its id is stored; on
      success the image carries the new rendering and its size. */
  function Recreation(tools: Tools, verbose: bool, t: Tree, image: Node, o: PngOptions): (Outcome<bool>, Tree)
    requires Recreatable(t, image)
  {
    var e := t.elems[image];
    var exportId, ids := Attr(e, EXPORT_ID).value, ReadVisibleLayers(e);
    if !Resolves(t, image) then (Outcome([MissingExportNode(exportId)], Success(false)), t)
    else
      var x := ExportPng(tools, verbose, RecreateView(t, image, ids), exportId, o);
      (Outcome(x.msgs, if x.result.Success? then Success(true) else Failure(x.result.error)), Refill(t, image, x.result))
  }

  /** The document after the export: the image carries the new rendering and its size, or
      the document is as it was when the export stopped. */
  function Refill(t: Tree, image: Node, x: Result<(seq<byte>, real, real), Halt>): Tree
    requires WellFormed(t) && image in t.elems
  {
    match x
    case Failure(_) => t
    case Success((data, w, h)) => Update(t, image, WithImageData(t.elems[image], data, w, h))
  }

  /** Recreating refreshes only the inset itself, and leaves the document untouched when
      the export node is missing. */
  lemma RecreationRefreshes(tools: Tools, verbose: bool, t: Tree, image: Node, o: PngOptions)
    requires Recreatable(t, image)
    ensures var after := Recreation(tools, verbose, t, image, o).1;
      && Refreshed(t, after, [image])
      && (!Resolves(t, image) ==> after == t)
  {
    var e := t.elems[image];
    var exportId, ids := Attr(e, EXPORT_ID).value, ReadVisibleLayers(e);
    if Resolves(t, image) {
      var x := ExportPng(tools, verbose, RecreateView(t, image, ids), exportId, o);
      RefillRefreshes(t, image, x.result);
    }
  }

  /** The result of a recreation that is not stopped says whether the export node resolves,
      and a missing export node is reported by its id. */
  lemma RecreationReports(tools: Tools, verbose: bool, t: Tree, image: Node, o: PngOptions)
    requires Recreatable(t, image)
    ensures var r := Recreation(tools, verbose, t, image, o).0;
      && (r.result.Success? ==> (r.result.value <==> Resolves(t, image)))
      && (!Resolves(t, image) ==> r.msgs == [MissingExportNode(Attr(t.elems[image], EXPORT_ID).value)])
  {
  }

  /** After a successful recreation the image shows the new PNG at its size. */
  lemma RecreationShows(tools: Tools, verbose: bool, t: Tree, image: Node, o: PngOptions)
    requires Recreatable(t, image)
    ensures var (r, after) := Recreation(tools, verbose, t, image, o);
      r.result.Success? && Resolves(t, image) ==> image in after.elems && ShowsPng(after.elems[image], o.dpi)
  {
    var e := t.elems[image];
    var exportId, ids := Attr(e, EXPORT_ID).value, ReadVisibleLayers(e);
    if Resolves(t, image) {
      var x := ExportPng(tools, verbose, RecreateView(t, image, ids), exportId, o);
      if x.result.Success? {
        ExportedImageShowsPng(tools, verbose, RecreateView(t, image, ids), exportId, o, e);
      }
    }
  }

  /** `recreate_inset(svg, image, png_options)`, in place. */
  method RecreateInset(doc: Document, log: Logger, tools: Tools, image: Node, o: PngOptions) returns (r: Outcome<bool>)
    requires doc.Valid() && Recreatable(doc.tree, image)
    modifies doc
    ensures (r, doc.tree) == Recreation(tools, log.verbose, old(doc.tree), image, o)
  {
    var t := doc.tree;
    var e := t.elems[image];
    var exportId := Attr(e, EXPORT_ID).value;
    var ids := ReadVisibleLayers(e);
    var exportNode := GetElementById(t, exportId);
    if exportNode.None? {
      return Outcome([MissingExportNode(exportId)], Success(false));
    }
    var x := RenderHidden(doc, log.verbose, tools, image, ids, exportId, o);
    r := Outcome(x.msgs, if x.result.Success? then Success(true) else Failure(x.result.error));
  }

  /** The `with temporary_visibility()` block of `recreate_inset`: the export runs on the
      recreation view and, when it succeeds, fills in the image; the styles are restored
      whether or not it succeeds. */
  method RenderHidden(doc: Document, verbose: bool, tools: Tools, image: Node, ids: set<string>, exportId: string, o: PngOptions)
    returns (x: Outcome<(seq<byte>, real, real)>)
    requires doc.Valid() && LayersHaveIds(doc.tree) && image in doc.tree.elems && doc.tree.elems[image].tag == Image
    modifies doc
    ensures x == ExportPng(tools, verbose, RecreateView(old(doc.tree), image, ids), exportId, o)
    ensures x.result.Failure? ==> doc.tree == old(doc.tree)
    ensures x.result.Success? ==>
      doc.tree == Update(old(doc.tree), image, WithImageData(old(doc.tree).elems[image], x.result.value.0, x.result.value.1, x.result.value.2))
  {
    var t := doc.tree;
    var scope := HideForRecreate(doc, image, ids);
    x := ExportPng(tools, verbose, doc.tree, exportId, o);
    LeaveRecreation(scope, t, image, ids, x);
  }

  /** The end of the block: fill in the image after a successful export, then restore. */
  method LeaveRecreation(scope: VisibilityScope, t: Tree, image: Node, ids: set<string>, x: Outcome<(seq<byte>, real, real)>)
    requires WellFormed(t) && LayersHaveIds(t) && image in t.elems && t.elems[image].tag == Image
    requires scope.Valid() && scope.entry == StylesOf(t) && scope.doc.tree == RecreateView(t, image, ids)
    modifies scope, scope.doc
    ensures x.result.Failure? ==> scope.doc.tree == t
    ensures x.result.Success? ==>
      scope.doc.tree == Update(t, image, WithImageData(t.elems[image], x.result.value.0, x.result.value.1, x.result.value.2))
  {
    if x.result.Failure? {
      scope.Restore();
      SameStylesSame(scope.doc.tree, t);
    } else {
      var (data, w, h) := x.result.value;
      FillAndRestore(scope, t, image, ids, data, w, h);
    }
  }

  /** After a successful export: store the new rendering in the image, then restore. */
  method FillAndRestore(scope: VisibilityScope, t: Tree, image: Node, ids: set<string>, data: seq<byte>, w: real, h: real)
    requires WellFormed(t) && LayersHaveIds(t) && image in t.elems && t.elems[image].tag == Image
    requires scope.Valid() && scope.entry == StylesOf(t) && scope.doc.tree == RecreateView(t, image, ids)
    modifies scope, scope.doc
    ensures scope.doc.tree == Update(t, image, WithImageData(t.elems[image], data, w, h))
  {
    var inside := scope.doc.tree;
    var filled := WithImageData(inside.elems[image], data, w, h);
    FillKeepsStyles(inside, image, filled);
    scope.Replace(Update(inside, image, filled));
    scope.Restore();
    RecreateFilled(t, image, ids, scope.doc.tree, data, w, h);
  }

  lemma FillKeepsStyles(t: Tree, image: Node, e: Element)
    requires WellFormed(t) && image in t.elems && e.parent == t.elems[image].parent && e.style == t.elems[image].style
    ensures var t' := Update(t, image, e); WellFormed(t') && t'.elems.Keys == t.elems.Keys && StylesOf(t') == StylesOf(t)
  {
    StylesOfUpdate(t, image, e);
  }

  // ---- is_inset and effect ----

  /** `is_inset(elem)`: an image with a non-empty export id and a non-empty layer list. */
  predicate IsInset(e: Element) {
    && e.tag == Image
    && Attr(e, EXPORT_ID).Some? && Attr(e, EXPORT_ID).value != ""
    && Attr(e, VISIBLE_LAYERS).Some? && Attr(e, VISIBLE_LAYERS).value != ""
  }

  /** `[elem for elem in svg.selection.values() if is_inset(elem)]`. */
  function Insets(t: Tree, selection: seq<Node>): (r: seq<Node>)
    requires forall n | n in selection :: n in t.elems
    ensures forall n :: n in r <==> n in selection && IsInset(t.elems[n])
    ensures |r| <= |selection| && (|r| == |selection| <==> forall n | n in selection :: IsInset(t.elems[n]))
  {
    if selection == [] then []
    else (if IsInset(t.elems[selection[0]]) then [selection[0]] else []) + Insets(t, selection[1..])
  }

  /** The command-line options of the extension. */
  datatype Options = Options(scale: real, dpi: real, background: string, opacity: real, optipngLevel: int, verbose: bool)

  /** What refreshing an image keeps: its place in the tree, its style, its id, its layer
      mode and its provenance. */
  predicate KeptAttrs(x: Element, y: Element) {
    && x.tag == y.tag && x.parent == y.parent && x.style == y.style
    && Attr(x, "id") == Attr(y, "id") && Attr(x, "inkscape:groupmode") == Attr(y, "inkscape:groupmode")
    && Attr(x, EXPORT_ID) == Attr(y, EXPORT_ID) && Attr(x, VISIBLE_LAYERS) == Attr(y, VISIBLE_LAYERS)
  }

  /** Only the elements in `images` may have changed, and those only in their image data. */
  predicate Refreshed(a: Tree, b: Tree, images: seq<Node>) {
    && a.next == b.next && a.elems.Keys == b.elems.Keys
    && forall n | n in a.elems :: if n in images then KeptAttrs(a.elems[n], b.elems[n]) else b.elems[n] == a.elems[n]
  }

  /** Refreshing images keeps the tree, its layers, their ids and every export node. */
  lemma RefreshedKeeps(a: Tree, b: Tree, images: seq<Node>)
    requires WellFormed(a) && LayersHaveIds(a) && Refreshed(a, b, images)
    ensures WellFormed(b) && LayersHaveIds(b)
    ensures forall n | n in a.elems :: b.elems[n].tag == a.elems[n].tag && Attr(b.elems[n], EXPORT_ID) == Attr(a.elems[n], EXPORT_ID)
    ensures forall id :: GetElementById(a, id) == GetElementById(b, id)
  {
    forall n | n in a.elems
      ensures Attr(b.elems[n], EXPORT_ID) == Attr(a.elems[n], EXPORT_ID)
      ensures Attr(b.elems[n], "id") == Attr(a.elems[n], "id")
      ensures IsLayer(b.elems[n]) == IsLayer(a.elems[n])
      ensures b.elems[n].parent == a.elems[n].parent && b.elems[n].tag == a.elems[n].tag
    {
    }
    forall id ensures GetElementById(a, id) == GetElementById(b, id) {
      GetElementByIdSame(a, b, id);
    }
  }

  lemma RefreshedTrans(a: Tree, b: Tree, c: Tree, images: seq<Node>, image: Node)
    requires Refreshed(a, b, images) && Refreshed(b, c, [image]) && image in images
    ensures Refreshed(a, c, images)
  {
  }

  /** Whatever the export gave, the image is at most refreshed. */
  lemma RefillRefreshes(t: Tree, image: Node, x: Result<(seq<byte>, real, real), Halt>)
    requires WellFormed(t) && image in t.elems
    ensures Refreshed(t, Refill(t, image, x), [image])
  {
    if x.Success? {
      RefreshedByImageData(t, image, x.value.0, x.value.1, x.value.2);
    }
  }

  /** Storing a new rendering in an image refreshes that image. */
  lemma RefreshedByImageData(t: Tree, image: Node, data: seq<byte>, w: real, h: real)
    requires WellFormed(t) && image in t.elems
    ensures Refreshed(t, Update(t, image, WithImageData(t.elems[image], data, w, h)), [image])
  {
  }

  /** What recreating the insets `done` in turn guarantees: `any` is whether some export
      node among them still resolves, each missing export node is reported in `msgs`, and
      each inset whose export node resolves shows a fresh PNG. */
  predicate RecreatedSome(t: Tree, after: Tree, done: seq<Node>, msgs: seq<Msg>, any: bool, dpi: real)
    requires WellFormed(t) && forall n | n in done :: n in t.elems && Attr(t.elems[n], EXPORT_ID).Some?
  {
    && (any <==> exists n | n in done :: Resolves(t, n))
    && ReportsMissing(t, done, msgs)
    && ShowsResolved(t, after, done, dpi)
  }

  predicate ReportsMissing(t: Tree, done: seq<Node>, msgs: seq<Msg>)
    requires WellFormed(t) && forall n | n in done :: n in t.elems && Attr(t.elems[n], EXPORT_ID).Some?
  {
    forall n | n in done && !Resolves(t, n) :: MissingExportNode(Attr(t.elems[n], EXPORT_ID).value) in msgs
  }

  predicate ShowsResolved(t: Tree, after: Tree, done: seq<Node>, dpi: real)
    requires WellFormed(t) && forall n | n in done :: n in t.elems && Attr(t.elems[n], EXPORT_ID).Some?
  {
    forall n | n in done && Resolves(t, n) :: n in after.elems && ShowsPng(after.elems[n], dpi)
  }

  /** What recreating every inset in `insets` guarantees when no exception or exit stops it. */
  predicate RecreatedAll(t: Tree, after: Tree, insets: seq<Node>, r: Outcome<bool>, dpi: real)
    requires WellFormed(t) && forall n | n in insets :: n in t.elems && Attr(t.elems[n], EXPORT_ID).Some?
  {
    r.result.Success? ==> RecreatedSome(t, after, insets, r.msgs, r.result.value, dpi)
  }

  /** Every inset in `insets` can be recreated in `t`. */
  predicate RecreatableAll(t: Tree, insets: seq<Node>) {
    && WellFormed(t) && LayersHaveIds(t)
    && forall n | n in insets :: n in t.elems && t.elems[n].tag == Image && Attr(t.elems[n], EXPORT_ID).Some?
  }

  /** The recreation loop as a fold over `insets`: each inset is recreated in the document
      the earlier ones left behind, its messages are added to `msgs` and its result or-ed
      into `any`; an exit or exception stops the loop with the messages so far. */
  function RecreateFrom(tools: Tools, verbose: bool, t: Tree, insets: seq<Node>, o: PngOptions, msgs: seq<Msg>, any: bool): (Outcome<bool>, Tree)
    requires RecreatableAll(t, insets)
    decreases |insets|
  {
    if insets == [] then (Outcome(msgs, Success(any)), t)
    else
      var (ri, after) := Recreation(tools, verbose, t, insets[0], o);
      if ri.result.Failure? then (Outcome(msgs + ri.msgs, Failure(ri.result.error)), after)
      else
        RecreationKeepsRecreatable(tools, verbose, t, insets, o);
        RecreateFrom(tools, verbose, after, insets[1..], o, msgs + ri.msgs, any || ri.result.value)
  }

  /** After recreating the first inset the others can still be recreated. */
  lemma RecreationKeepsRecreatable(tools: Tools, verbose: bool, t: Tree, insets: seq<Node>, o: PngOptions)
    requires RecreatableAll(t, insets) && insets != []
    ensures Recreatable(t, insets[0])
    ensures RecreatableAll(Recreation(tools, verbose, t, insets[0], o).1, insets[1..])
  {
    var after := Recreation(tools, verbose, t, insets[0], o).1;
    RecreationRefreshes(tools, verbose, t, insets[0], o);
    RefreshedKeeps(t, after, [insets[0]]);
    forall n | n in insets[1..] ensures n in insets {
    }
  }

  /** What is left of the fold at pass `i` of the loop: recreating the remaining insets from
      the current document, messages and result gives what recreating all of them from the
      start gives. */
  ghost predicate FoldedSoFar(tools: Tools, verbose: bool, t: Tree, cur: Tree, insets: seq<Node>, i: int, o: PngOptions, msgs: seq<Msg>, any: bool) {
    && 0 <= i <= |insets| && RecreatableAll(t, insets) && RecreatableAll(cur, insets[i..])
    && RecreateFrom(tools, verbose, cur, insets[i..], o, msgs, any) == RecreateFrom(tools, verbose, t, insets, o, [], false)
  }

  lemma FoldStart(tools: Tools, verbose: bool, t: Tree, insets: seq<Node>, o: PngOptions)
    requires RecreatableAll(t, insets)
    ensures FoldedSoFar(tools, verbose, t, t, insets, 0, o, [], false)
  {
    assert insets[0..] == insets;
  }

  /** One pass: a recreation that stops ends the fold with its messages and halt; one that
      does not leaves the rest of the fold to the next pass. */
  lemma FoldNext(tools: Tools, verbose: bool, t: Tree, cur: Tree, insets: seq<Node>, i: int, o: PngOptions, msgs: seq<Msg>, any: bool)
    requires FoldedSoFar(tools, verbose, t, cur, insets, i, o, msgs, any) && i < |insets|
    ensures Recreatable(cur, insets[i])
    ensures var (ri, after) := Recreation(tools, verbose, cur, insets[i], o);
      && (ri.result.Failure? ==> RecreateFrom(tools, verbose, t, insets, o, [], false) == (Outcome(msgs + ri.msgs, Failure(ri.result.error)), after))
      && (ri.result.Success? ==> FoldedSoFar(tools, verbose, t, after, insets, i + 1, o, msgs + ri.msgs, any || ri.result.value))
  {
    var rest := insets[i..];
    assert rest[0] == insets[i] && rest[1..] == insets[i + 1..];
    RecreationKeepsRecreatable(tools, verbose, cur, rest, o);
  }

  lemma FoldEnd(tools: Tools, verbose: bool, t: Tree, cur: Tree, insets: seq<Node>, o: PngOptions, msgs: seq<Msg>, any: bool)
    requires FoldedSoFar(tools, verbose, t, cur, insets, |insets|, o, msgs, any)
    ensures RecreateFrom(tools, verbose, t, insets, o, [], false) == (Outcome(msgs, Success(any)), cur)
  {
    assert insets[|insets|..] == [];
  }

  /** The recreation loop of `effect`: `rv |= recreate_inset(...)` for every inset, so every
      inset is recreated whatever the earlier ones returned. */
  method RecreateAll(doc: Document, log: Logger, tools: Tools, insets: seq<Node>, o: PngOptions) returns (r: Outcome<bool>)
    requires doc.Valid() && LayersHaveIds(doc.tree)
    requires forall n | n in insets :: n in doc.tree.elems && doc.tree.elems[n].tag == Image && Attr(doc.tree.elems[n], EXPORT_ID).Some?
    modifies doc
    ensures Refreshed(old(doc.tree), doc.tree, insets)
    ensures RecreatedAll(old(doc.tree), doc.tree, insets, r, o.dpi)
    ensures (r, doc.tree) == RecreateFrom(tools, log.verbose, old(doc.tree), insets, o, [], false)
  {
    var t := doc.tree;
    var msgs: seq<Msg> := [];
    var any := false;
    FoldStart(tools, log.verbose, t, insets, o);
    for i := 0 to |insets|
      invariant doc.Valid() && LayersHaveIds(doc.tree) && Refreshed(t, doc.tree, insets)
      invariant RecreatedSome(t, doc.tree, insets[..i], msgs, any, o.dpi)
      invariant FoldedSoFar(tools, log.verbose, t, doc.tree, insets, i, o, msgs, any)
    {
      RecreationStep(tools, log.verbose, t, doc.tree, insets, i, msgs, any, o);
      FoldNext(tools, log.verbose, t, doc.tree, insets, i, o, msgs, any);
      var ri := RecreateInset(doc, log, tools, insets[i], o);
      if ri.result.Failure? {
        return Outcome(msgs + ri.msgs, Failure(ri.result.error));
      }
      msgs := msgs + ri.msgs;
      any := any || ri.result.value;
    }
    TakeAll(insets);
    FoldEnd(tools, log.verbose, t, doc.tree, insets, o, msgs, any);
    r := Outcome(msgs, Success(any));
  }

  /** One pass of the recreation loop: the inset can be recreated, the document stays
      refreshed, and a recreation that is not stopped extends what the loop guarantees. */
  lemma RecreationStep(tools: Tools, verbose: bool, t: Tree, before: Tree, insets: seq<Node>, i: nat, msgs: seq<Msg>, any: bool, o: PngOptions)
    requires WellFormed(t) && LayersHaveIds(t)
    requires forall n | n in insets :: n in t.elems && t.elems[n].tag == Image && Attr(t.elems[n], EXPORT_ID).Some?
    requires i < |insets| && Refreshed(t, before, insets) && RecreatedSome(t, before, insets[..i], msgs, any, o.dpi)
    ensures Recreatable(before, insets[i])
    ensures var (ri, after) := Recreation(tools, verbose, before, insets[i], o);
      && WellFormed(after) && LayersHaveIds(after) && Refreshed(t, after, insets)
      && (ri.result.Success? ==> RecreatedSome(t, after, insets[..i + 1], msgs + ri.msgs, any || ri.result.value, o.dpi))
  {
    var image := insets[i];
    RefreshedReads(t, before, insets, image);
    RecreationReports(tools, verbose, before, image, o);
    RecreationShows(tools, verbose, before, image, o);
    RecreationRefreshes(tools, verbose, before, image, o);
    var (ri, after) := Recreation(tools, verbose, before, image, o);
    RefreshedStep(t, before, after, insets, image);
    if ri.result.Success? {
      TakeLast(insets, i + 1);
      RecreatedOneMore(t, before, after, insets[..i], image, msgs, any, ri, o.dpi);
    }
  }

  /** One more recreation that is not stopped extends what the loop guarantees. */
  lemma RecreatedOneMore(t: Tree, before: Tree, after: Tree, done: seq<Node>, image: Node, msgs: seq<Msg>, any: bool, ri: Outcome<bool>, dpi: real)
    requires WellFormed(t) && forall n | n in done + [image] :: n in t.elems && Attr(t.elems[n], EXPORT_ID).Some?
    requires RecreatedSome(t, before, done, msgs, any, dpi)
    requires Refreshed(before, after, [image])
    requires ri.result.Success? && (ri.result.value <==> Resolves(t, image))
    requires !Resolves(t, image) ==> ri.msgs == [MissingExportNode(Attr(t.elems[image], EXPORT_ID).value)]
    requires Resolves(t, image) ==> image in after.elems && ShowsPng(after.elems[image], dpi)
    ensures RecreatedSome(t, after, done + [image], msgs + ri.msgs, any || ri.result.value, dpi)
  {
    RefreshedOthers(before, after, image);
    ResolvesOneMore(t, done, image, any, ri.result.value);
    ReportsOneMore(t, done, image, msgs, ri.msgs);
    ShowsOneMore(t, before, after, done, image, dpi);
  }

  /** Refreshing one image leaves every other element as it was. */
  lemma RefreshedOthers(before: Tree, after: Tree, image: Node)
    requires Refreshed(before, after, [image])
    ensures before.elems.Keys == after.elems.Keys && forall n | n in before.elems && n != image :: after.elems[n] == before.elems[n]
  {
    forall n | n in before.elems && n != image ensures after.elems[n] == before.elems[n] {
      assert n !in [image];
    }
  }

  lemma ResolvesOneMore(t: Tree, done: seq<Node>, image: Node, any: bool, found: bool)
    requires WellFormed(t) && forall n | n in done + [image] :: n in t.elems && Attr(t.elems[n], EXPORT_ID).Some?
    requires any <==> exists n | n in done :: Resolves(t, n)
    requires found <==> Resolves(t, image)
    ensures any || found <==> exists n | n in done + [image] :: Resolves(t, n)
  {
    if any {
      var n :| n in done && Resolves(t, n);
      assert n in done + [image];
    } else if !found {
      forall n | n in done + [image] ensures !Resolves(t, n) {
        if n != image {
          assert n in done;
        }
      }
    }
  }

  lemma ReportsOneMore(t: Tree, done: seq<Node>, image: Node, msgs: seq<Msg>, more: seq<Msg>)
    requires WellFormed(t) && forall n | n in done + [image] :: n in t.elems && Attr(t.elems[n], EXPORT_ID).Some?
    requires ReportsMissing(t, done, msgs)
    requires !Resolves(t, image) ==> more == [MissingExportNode(Attr(t.elems[image], EXPORT_ID).value)]
    ensures ReportsMissing(t, done + [image], msgs + more)
  {
    forall n | n in done + [image] && !Resolves(t, n) ensures MissingExportNode(Attr(t.elems[n], EXPORT_ID).value) in msgs + more {
      if n != image {
        assert n in done;
      }
    }
  }

  lemma ShowsOneMore(t: Tree, before: Tree, after: Tree, done: seq<Node>, image: Node, dpi: real)
    requires WellFormed(t) && forall n | n in done + [image] :: n in t.elems && Attr(t.elems[n], EXPORT_ID).Some?
    requires ShowsResolved(t, before, done, dpi)
    requires before.elems.Keys == after.elems.Keys && forall n | n in before.elems && n != image :: after.elems[n] == before.elems[n]
    requires Resolves(t, image) ==> image in after.elems && ShowsPng(after.elems[image], dpi)
    ensures ShowsResolved(t, after, done + [image], dpi)
  {
    forall n | n in done + [image] && Resolves(t, n) ensures n in after.elems && ShowsPng(after.elems[n], dpi) {
      if n != image {
        assert n in done;
      }
    }
  }

  /** One pass of the recreation loop, on a document whose images earlier passes refreshed:
      the inset still reads as it did at the start. */
  lemma RefreshedReads(t: Tree, before: Tree, insets: seq<Node>, image: Node)
    requires WellFormed(t) && LayersHaveIds(t) && Refreshed(t, before, insets) && image in insets
    requires image in t.elems && t.elems[image].tag == Image && Attr(t.elems[image], EXPORT_ID).Some?
    ensures Recreatable(before, image) && Resolves(before, image) == Resolves(t, image)
    ensures Attr(before.elems[image], EXPORT_ID) == Attr(t.elems[image], EXPORT_ID)
  {
    RefreshedKeeps(t, before, insets);
  }

  /** Refreshing one more of the images keeps the document refreshed. */
  lemma RefreshedStep(t: Tree, before: Tree, after: Tree, insets: seq<Node>, image: Node)
    requires WellFormed(t) && LayersHaveIds(t) && image in insets
    requires Refreshed(t, before, insets) && Refreshed(before, after, [image])
    ensures WellFormed(after) && LayersHaveIds(after) && Refreshed(t, after, insets)
  {
    RefreshedTrans(t, before, after, insets, image);
    RefreshedKeeps(t, after, insets);
  }

  /** The id `get_id()` gives the selected element: its own, or the invented one. */
  function ExportIdOf(e: Element, freshId: string): (id: string)
    ensures Attr(e, "id").Some? ==> id == Attr(e, "id").value
    ensures Attr(e, "id").None? ==> id == freshId
  {
    if Attr(e, "id").Some? then Attr(e, "id").value else freshId
  }

  /** `CreateInset.effect()`. With insets in the selection, every one of them is recreated,
      after a note when other elements were selected too. Without insets, an empty or multiple
      selection is refused with `False`; a single element becomes the export node of a new
      inset. `freshId` is the id `get_id()` would invent for it. */
  method Effect(doc: Document, log: Logger, tools: Tools, selection: seq<Node>, opts: Options, center: (real, real), freshId: string)
    returns (r: Outcome<bool>)
    requires doc.Valid() && LayersHaveIds(doc.tree) && IsName(freshId)
    requires forall n | n in selection :: n in doc.tree.elems
    modifies doc, log
    ensures log.verbose == opts.verbose
    ensures var t := old(doc.tree); var insets := Insets(t, selection);
      insets != [] ==>
        var k := if |insets| != |selection| then 1 else 0;
        && Refreshed(t, doc.tree, insets)
        && |r.msgs| >= k && r.msgs[..k] == (if k == 1 then [IgnoringNonInsets] else [])
        && RecreatedAll(t, doc.tree, insets, Outcome(r.msgs[k..], r.result), opts.dpi)
        && (Outcome(r.msgs[k..], r.result), doc.tree) == RecreateFrom(tools, opts.verbose, t, insets, OptionsOf(opts), [], false)
    ensures var t := old(doc.tree);
      Insets(t, selection) == [] && |selection| == 0 ==> r == Outcome([NoObjectsSelected], Success(false)) && doc.tree == t
    ensures var t := old(doc.tree);
      Insets(t, selection) == [] && |selection| > 1 ==> r == Outcome([SelectOneForNewInset], Success(false)) && doc.tree == t
    ensures var t := old(doc.tree);
      Insets(t, selection) == [] && |selection| == 1 && r.result.Success? ==>
        var id := ExportIdOf(t.elems[selection[0]], freshId);
        && r.result.value
        && doc.tree.next == t.next + 1 && t.next in doc.tree.elems && selection[0] in doc.tree.elems
        && Attr(doc.tree.elems[selection[0]], "id") == Some(id)
        && CreatedInset(doc.tree.elems[t.next], id, VisibleLayerIds(t), opts.dpi)
        && doc.tree == Append(Named(t, selection[0], freshId), ROOT, doc.tree.elems[t.next])
    ensures var t := old(doc.tree);
      Insets(t, selection) == [] && |selection| == 1 ==>
        var x := NamedExport(tools, opts.verbose, t, selection[0], freshId, OptionsOf(opts));
        && r.msgs == x.msgs
        && (x.result.Failure? ==> r.result == Failure(x.result.error) && doc.tree == Named(t, selection[0], freshId))
  {
    var _ := log.SetVerbosity(opts.verbose);
    var o := OptionsOf(opts);
    var t := doc.tree;
    var insets := Insets(t, selection);
    if insets != [] {
      var prefix: seq<Msg> := if |selection| != |insets| then [IgnoringNonInsets] else [];
      var x := RecreateAll(doc, log, tools, insets, o);
      assert (prefix + x.msgs)[|prefix|..] == x.msgs;
      return Outcome(prefix + x.msgs, x.result);
    }
    if |selection| == 0 {
      return Outcome([NoObjectsSelected], Success(false));
    }
    if |selection| > 1 {
      return Outcome([SelectOneForNewInset], Success(false));
    }
    r := CreateForSelected(doc, log, tools, selection[0], o, center, freshId);
  }

  /** The options `effect` passes to the export. */
  function OptionsOf(opts: Options): PngOptions {
    PngOptionsOf(opts.dpi, opts.scale, opts.background, opts.opacity, opts.optipngLevel)
  }

  /** The document once `get_id()` has named element `n`. */
  function Named(t: Tree, n: Node, freshId: string): Tree
    requires WellFormed(t) && n in t.elems
  {
    Update(t, n, SetAttr(t.elems[n], "id", Str(ExportIdOf(t.elems[n], freshId))))
  }

  /** The export of the named element, as the creation branch runs it. */
  function NamedExport(tools: Tools, verbose: bool, t: Tree, n: Node, freshId: string, o: PngOptions): Outcome<(seq<byte>, real, real)>
    requires WellFormed(t) && n in t.elems
  {
    ExportPng(tools, verbose, Named(t, n, freshId), ExportIdOf(t.elems[n], freshId), o)
  }

  /** The creation branch of `effect`: name the selected element, then build an inset that
      exports it. */
  method CreateForSelected(doc: Document, log: Logger, tools: Tools, n: Node, o: PngOptions, center: (real, real), freshId: string)
    returns (r: Outcome<bool>)
    requires doc.Valid() && LayersHaveIds(doc.tree) && IsName(freshId) && n in doc.tree.elems
    modifies doc
    ensures var t := old(doc.tree);
      r.result.Success? ==>
        var id := ExportIdOf(t.elems[n], freshId);
        && r.result.value
        && doc.tree.next == t.next + 1 && t.next in doc.tree.elems && n in doc.tree.elems
        && Attr(doc.tree.elems[n], "id") == Some(id)
        && CreatedInset(doc.tree.elems[t.next], id, VisibleLayerIds(t), o.dpi)
        && doc.tree == Append(Named(t, n, freshId), ROOT, doc.tree.elems[t.next])
    ensures var t := old(doc.tree); var x := NamedExport(tools, log.verbose, t, n, freshId, o);
      && r.msgs == x.msgs
      && (x.result.Failure? ==> r.result == Failure(x.result.error) && doc.tree == Named(t, n, freshId))
      && (x.result.Success? ==> r.result == Success(true))
  {
    ghost var t := doc.tree;
    var exportId := GetId(doc, n, freshId);
    ghost var named := doc.tree;
    SetIdKeepsLayers(t, n, exportId);
    var c := CreateNewInset(doc, log, tools, exportId, o, center);
    if c.result.Failure? {
      return Outcome(c.msgs, Failure(c.result.error));
    }
    NamedInsetCreated(t, named, doc.tree, n, exportId, freshId, o.dpi);
    r := Outcome(c.msgs, Success(true));
  }

  /** After naming the selected element and appending an inset, the element keeps its new
      id and the inset records it together with the layers visible at the start. */
  lemma NamedInsetCreated(t: Tree, named: Tree, after: Tree, n: Node, id: string, freshId: string, dpi: real)
    requires WellFormed(t) && LayersHaveIds(t) && n in t.elems
    requires Attr(t.elems[n], "id").Some? ==> id == Attr(t.elems[n], "id").value
    requires Attr(t.elems[n], "id").None? ==> id == freshId
    requires named == Update(t, n, SetAttr(t.elems[n], "id", Str(id)))
    requires LayersHaveIds(named) && VisibleLayerIds(named) == VisibleLayerIds(t)
    requires named.next in after.elems && after == Append(named, ROOT, after.elems[named.next])
    requires CreatedInset(after.elems[named.next], id, VisibleLayerIds(named), dpi)
    ensures id == ExportIdOf(t.elems[n], freshId)
    ensures after.next == t.next + 1 && t.next in after.elems && n in after.elems
    ensures Attr(after.elems[n], "id") == Some(id)
    ensures CreatedInset(after.elems[t.next], id, VisibleLayerIds(t), dpi)
    ensures after == Append(Named(t, n, freshId), ROOT, after.elems[t.next])
  {
  }

  /** Naming an element keeps the layers, their ids and their visibility. */
  lemma SetIdKeepsLayers(t: Tree, n: Node, id: string)
    requires WellFormed(t) && LayersHaveIds(t) && n in t.elems
    requires Attr(t.elems[n], "id").None? || Attr(t.elems[n], "id") == Some(id)
    ensures var t' := Update(t, n, SetAttr(t.elems[n], "id", Str(id)));
      LayersHaveIds(t') && VisibleLayerIds(t') == VisibleLayerIds(t)
  {
    var e' := SetAttr(t.elems[n], "id", Str(id));
    var t' := Update(t, n, e');
    forall m | m in t.elems
      ensures Visible(t', m) == Visible(t, m) && IsLayer(t'.elems[m]) == IsLayer(t.elems[m])
      ensures IsLayer(t.elems[m]) ==> Attr(t'.elems[m], "id") == Attr(t.elems[m], "id")
    {
      SetIdKeepsLayer(t, n, id, m);
    }
    SameLayersSameIds(t, t');
  }

  /** Element by element: giving `n` the id it has, or its first, keeps every layer, its
      id and every element's visibility. */
  lemma SetIdKeepsLayer(t: Tree, n: Node, id: string, m: Node)
    requires WellFormed(t) && LayersHaveIds(t) && n in t.elems && m in t.elems
    requires Attr(t.elems[n], "id").None? || Attr(t.elems[n], "id") == Some(id)
    ensures var t' := Update(t, n, SetAttr(t.elems[n], "id", Str(id)));
      && Visible(t', m) == Visible(t, m) && IsLayer(t'.elems[m]) == IsLayer(t.elems[m])
      && (IsLayer(t.elems[m]) ==> Attr(t'.elems[m], "id") == Attr(t.elems[m], "id"))
  {
    var e' := SetAttr(t.elems[n], "id", Str(id));
    VisibleUpdateAttrs(t, n, e', m);
    SetIdKeepsIsLayer(t.elems[n], Str(id));
  }

  /** Two documents whose elements agree on being a layer, on a layer's id and on
      visibility have the same visible layer ids. */
  lemma SameLayersSameIds(a: Tree, b: Tree)
    requires WellFormed(a) && WellFormed(b) && LayersHaveIds(a) && a.elems.Keys == b.elems.Keys
    requires forall m | m in a.elems :: Visible(b, m) == Visible(a, m) && IsLayer(b.elems[m]) == IsLayer(a.elems[m])
    requires forall m | m in a.elems && IsLayer(a.elems[m]) :: Attr(b.elems[m], "id") == Attr(a.elems[m], "id")
    ensures LayersHaveIds(b) && VisibleLayerIds(b) == VisibleLayerIds(a)
  {
    LayerIdsKept(a, b);
    forall x ensures x in VisibleLayerIds(b) <==> x in VisibleLayerIds(a) {
      if x in VisibleLayerIds(a) {
        VisibleIdKept(a, b, x);
      }
      if x in VisibleLayerIds(b) {
        VisibleIdBack(a, b, x);
      }
    }
  }

  /** Layers keep their ids when the layers and their ids are kept. */
  lemma LayerIdsKept(a: Tree, b: Tree)
    requires LayersHaveIds(a) && a.elems.Keys == b.elems.Keys
    requires forall m | m in a.elems :: IsLayer(b.elems[m]) == IsLayer(a.elems[m])
    requires forall m | m in a.elems && IsLayer(a.elems[m]) :: Attr(b.elems[m], "id") == Attr(a.elems[m], "id")
    ensures LayersHaveIds(b)
  {
  }

  /** An id of a visible layer of `a` is one of `b`. */
  lemma VisibleIdKept(a: Tree, b: Tree, x: string)
    requires WellFormed(a) && WellFormed(b) && LayersHaveIds(a) && LayersHaveIds(b) && a.elems.Keys == b.elems.Keys
    requires forall m | m in a.elems :: Visible(b, m) == Visible(a, m) && IsLayer(b.elems[m]) == IsLayer(a.elems[m])
    requires forall m | m in a.elems && IsLayer(a.elems[m]) :: Attr(b.elems[m], "id") == Attr(a.elems[m], "id")
    requires x in VisibleLayerIds(a)
    ensures x in VisibleLayerIds(b)
  {
    var m :| m in a.elems && IsLayer(a.elems[m]) && Visible(a, m) && LayerId(a, m) == x;
    assert LayerId(b, m) == x;
  }

  /** An id of a visible layer of `b` is one of `a`. */
  lemma VisibleIdBack(a: Tree, b: Tree, x: string)
    requires WellFormed(a) && WellFormed(b) && LayersHaveIds(a) && LayersHaveIds(b) && a.elems.Keys == b.elems.Keys
    requires forall m | m in a.elems :: Visible(b, m) == Visible(a, m) && IsLayer(b.elems[m]) == IsLayer(a.elems[m])
    requires forall m | m in a.elems && IsLayer(a.elems[m]) :: Attr(b.elems[m], "id") == Attr(a.elems[m], "id")
    requires x in VisibleLayerIds(b)
    ensures x in VisibleLayerIds(a)
  {
    var m :| m in b.elems && IsLayer(b.elems[m]) && Visible(b, m) && LayerId(b, m) == x;
    assert LayerId(a, m) == x;
  }

  /** `elem.get_id()`: the element's id, after giving it `freshId` when it has none. */
  method GetId(doc: Document, n: Node, freshId: string) returns (id: string)
    requires doc.Valid() && n in doc.tree.elems && LayersHaveIds(doc.tree) && IsName(freshId)
    modifies doc
    ensures doc.Valid() && LayersHaveIds(doc.tree)
    ensures Attr(old(doc.tree).elems[n], "id").Some? ==> id == Attr(old(doc.tree).elems[n], "id").value && doc.tree == old(doc.tree)
    ensures Attr(old(doc.tree).elems[n], "id").None? ==> id == freshId
    ensures doc.tree == Update(old(doc.tree), n, SetAttr(old(doc.tree).elems[n], "id", Str(id)))
  {
    var e := doc.tree.elems[n];
    match Attr(e, "id")
    case Some(v) =>
      SetAttrSame(e, "id", v);
      UpdateSame(doc.tree, n);
      id := v;
    case None =>
      doc.SetElement(n, SetAttr(e, "id", Str(freshId)));
      id := freshId;
  }
}
