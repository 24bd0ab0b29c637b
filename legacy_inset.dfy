/** The older inset extension, `inkscape_barnhunt/bh-create-inset.py`: the same inset
    lifecycle, run through the AppImage-aware `run`, with one element selected at a time
    and a fatal exit where the current extension reports and carries on. */
module LegacyInset {
  import opened Wrappers
  import opened Strings
  import opened Svg
  import opened Visibility
  import opened Process
  import opened Inset
  import C = CreateInset

  /** The environment of the extension: the host it looks programs up on, and how an
      Inkscape run and an optipng run complete and which PNG file they leave behind. */
  datatype Launcher = Launcher(
    host: Host,
    render: RenderRequest -> (Completed, Option<seq<byte>>),
    optimise: (Option<seq<byte>>, int) -> (Completed, Option<seq<byte>>))

  /** The external programs as the current extension sees them: found when on the path. */
  function ToolsOf(l: Launcher): (tools: Tools)
    ensures forall p :: tools.found(p) <==> l.host.which(p).Some?
  {
    Tools(p => l.host.which(p).Some?, l.render, l.optimise)
  }

  // ---- run ----

  /** `run(cmd, verbose, missing_ok)` as written: the AppImage check runs before the
      command, and its exception escapes. */
  function RunAsWritten(host: Host, program: string, p: Completed, verbose: bool, missingOk: bool): Outcome<Option<seq<string>>> {
    if missingOk && host.which(program).None? then Outcome([MissingExecutable(program)], Success(None))
    else
      match IsAppImageExecutableAsWritten(host, program)
      case Failure(e) => Outcome([], Failure(Raise(e)))
      case Success(appimage) => RunLegacy(host, appimage, [program], p, verbose, missingOk)
  }

  /** `run(cmd, verbose, missing_ok)` with the AppImage check as intended. */
  function Run(host: Host, program: string, p: Completed, verbose: bool, missingOk: bool): Outcome<Option<seq<string>>> {
    RunLegacy(host, IsAppImageExecutable(host, program), [program], p, verbose, missingOk)
  }

  /** As written, every program that is found outside an AppImage stops the extension
      before it runs; inside an AppImage `run` behaves as intended. */
  lemma RunAsWrittenStops(host: Host, program: string, p: Completed, verbose: bool, missingOk: bool)
    ensures host.which(program).Some? && !InAppImage(host.env) ==>
      RunAsWritten(host, program, p, verbose, missingOk) == Outcome([], Failure(Raise(NameError("relpath"))))
    ensures host.which(program).None? || InAppImage(host.env) ==>
      RunAsWritten(host, program, p, verbose, missingOk) == Run(host, program, p, verbose, missingOk)
  {
    AppImageCheckAsWritten(host, program);
  }

  /** Outside an AppImage the intended `run` is the plain command runner of the current
      extension: the same messages and halts, `None` for a skipped program. */
  lemma RunOutsideAppImage(host: Host, program: string, p: Completed, verbose: bool, missingOk: bool)
    requires !InAppImage(host.env)
    ensures var r, q := Run(host, program, p, verbose, missingOk), RunCommand(program, host.which(program).Some?, p, verbose, missingOk);
      && r.msgs == q.msgs
      && (r.result == Success(None) <==> q.result == Success(false))
      && (r.result.Success? && r.result.value.Some? <==> q.result == Success(true))
      && (r.result.Failure? <==> q.result.Failure?)
      && (r.result.Failure? ==> r.result.error == q.result.error)
  {
    RunLegacyAgrees(host, program, p, verbose, missingOk);
  }

  // ---- export_png ----

  /** The optipng step: optional, and the file is left as Inkscape wrote it when optipng
      is missing. */
  function Optimise(l: Launcher, file: Option<seq<byte>>, level: int, verbose: bool): Outcome<Option<seq<byte>>> {
    var (q, optimised) := l.optimise(file, level);
    var run := Run(l.host, OPTIPNG, q, verbose, true);
    match run.result
    case Failure(h) => Outcome(run.msgs, Failure(h))
    case Success(ran) => Outcome(run.msgs, Success(if ran.Some? then optimised else file))
  }

  /** `export_png(export_id, target)` up to setting the target's attributes: render, optimise
      when the level is not negative, read the file back and size it. */
  function Export(l: Launcher, verbose: bool, t: Tree, exportId: string, o: PngOptions): Outcome<(seq<byte>, real, real)> {
    var (p, rendered) := l.render(Request(t, exportId, o));
    var inkscape := Run(l.host, INKSCAPE, p, verbose, false);
    if inkscape.result.Failure? then Outcome(inkscape.msgs, Failure(inkscape.result.error))
    else
      var optipng := if Optimises(o) then Optimise(l, rendered, o.optipngLevel.value, verbose) else Outcome([], Success(rendered));
      var msgs := inkscape.msgs + optipng.msgs;
      match optipng.result
      case Failure(h) => Outcome(msgs, Failure(h))
      case Success(None) => Outcome(msgs, Failure(Raise(FileNotFoundError)))
      case Success(Some(data)) =>
        match EmbeddedSize(data, o.dpi)
        case Failure(exc) => Outcome(msgs, Failure(Raise(exc)))
        case Success((w, h)) => Outcome(msgs, Success((data, w, h)))
  }

  /** What `export_png` promises: a missing Inkscape raises; outside an AppImage a failing
      one exits 1 with its report, and so does a failing optipng; a result is the file
      optipng wrote when it ran, the rendered one otherwise, sized by its PNG header. */
  lemma ExportContract(l: Launcher, verbose: bool, t: Tree, exportId: string, o: PngOptions)
    ensures var r := Export(l, verbose, t, exportId, o);
      var (p, rendered) := l.render(Request(t, exportId, o));
      var (q, optimised) := l.optimise(rendered, o.optipngLevel.GetOr(0));
      var plain := !IsAppImageExecutable(l.host, INKSCAPE) && !IsAppImageExecutable(l.host, OPTIPNG);
      && (l.host.which(INKSCAPE).None? ==> r == Outcome([], Failure(Raise(FileNotFoundError))))
      && (l.host.which(INKSCAPE).Some? && !IsAppImageExecutable(l.host, INKSCAPE) && p.status != 0 ==>
            r == Outcome(FailureReport(INKSCAPE, p), Failure(Exit(1))))
      && (plain && Optimises(o) && l.host.which(INKSCAPE).Some? && p.status == 0 && l.host.which(OPTIPNG).Some? && q.status != 0 ==>
            r.result == Failure(Exit(1)) && FailureReport(OPTIPNG, q) <= r.msgs[|r.msgs| - |FailureReport(OPTIPNG, q)|..])
      && (r.result.Success? ==> l.host.which(INKSCAPE).Some? && p.status == 0)
      && (r.result.Success? ==> EmbeddedSize(r.result.value.0, o.dpi) == Success((r.result.value.1, r.result.value.2)))
      && (r.result.Success? && !Optimises(o) ==> rendered == Some(r.result.value.0))
      && (r.result.Success? && Optimises(o) && l.host.which(OPTIPNG).Some? ==> q.status == 0 && optimised == Some(r.result.value.0))
      && (r.result.Success? && Optimises(o) && l.host.which(OPTIPNG).None? ==> rendered == Some(r.result.value.0))
  {
  }

  /** Outside an AppImage the older export is the current one on the same programs. */
  lemma ExportAgrees(l: Launcher, verbose: bool, t: Tree, exportId: string, o: PngOptions)
    requires !InAppImage(l.host.env)
    ensures Export(l, verbose, t, exportId, o) == C.ExportPng(ToolsOf(l), verbose, t, exportId, o)
  {
    var (p, rendered) := l.render(Request(t, exportId, o));
    RunOutsideAppImage(l.host, INKSCAPE, p, verbose, false);
    if Optimises(o) {
      var (q, optimised) := l.optimise(rendered, o.optipngLevel.value);
      RunOutsideAppImage(l.host, OPTIPNG, q, verbose, true);
    }
  }

  /** An exported image is shown at the size its PNG has at the configured resolution. */
  lemma ExportedImageShowsPng(l: Launcher, verbose: bool, t: Tree, exportId: string, o: PngOptions, e: Element)
    requires Export(l, verbose, t, exportId, o).result.Success?
    ensures var (data, w, h) := Export(l, verbose, t, exportId, o).result.value;
      ShowsPng(WithImageData(e, data, w, h), o.dpi)
  {
    ExportContract(l, verbose, t, exportId, o);
  }

  // ---- _recreate_inset ----

  /** `_recreate_inset(image)`. A missing export node is reported and ends the extension with
      status 1, the document untouched; otherwise the document is rendered with the image
      hidden and the stored layers shown, and the image is filled in on success. */
  function Recreation(l: Launcher, verbose: bool, t: Tree, image: Node, o: PngOptions): (Outcome<()>, Tree)
    requires C.Recreatable(t, image)
  {
    var e := t.elems[image];
    var exportId, ids := Attr(e, EXPORT_ID).value, ReadVisibleLayers(e);
    if !C.Resolves(t, image) then (Outcome([MissingExportNode(exportId)], Failure(Exit(1))), t)
    else
      var x := Export(l, verbose, RecreateView(t, image, ids), exportId, o);
      (Outcome(x.msgs, if x.result.Success? then Success(()) else Failure(x.result.error)), C.Refill(t, image, x.result))
  }

  /** The older recreation differs from the current one only in how a missing export node
      ends: a fatal exit instead of `False`. Outside an AppImage both leave the same
      document and write the same messages. */
  lemma RecreationAgrees(l: Launcher, verbose: bool, t: Tree, image: Node, o: PngOptions)
    requires C.Recreatable(t, image) && !InAppImage(l.host.env)
    ensures var (r, after) := Recreation(l, verbose, t, image, o);
      var (q, after') := C.Recreation(ToolsOf(l), verbose, t, image, o);
      && after == after' && r.msgs == q.msgs
      && (!C.Resolves(t, image) ==> r.result == Failure(Exit(1)) && q.result == Success(false))
      && (C.Resolves(t, image) ==> (r.result.Success? <==> q.result == Success(true)))
      && (C.Resolves(t, image) && r.result.Failure? ==> q.result == Failure(r.result.error))
  {
    var e := t.elems[image];
    var exportId, ids := Attr(e, EXPORT_ID).value, ReadVisibleLayers(e);
    if C.Resolves(t, image) {
      ExportAgrees(l, verbose, RecreateView(t, image, ids), exportId, o);
    }
  }

  /** Recreating changes only the image, and nothing at all when it stops. */
  lemma RecreationRefreshes(l: Launcher, verbose: bool, t: Tree, image: Node, o: PngOptions)
    requires C.Recreatable(t, image)
    ensures var (r, after) := Recreation(l, verbose, t, image, o);
      && C.Refreshed(t, after, [image])
      && (r.result.Failure? ==> after == t)
  {
    var e := t.elems[image];
    var exportId, ids := Attr(e, EXPORT_ID).value, ReadVisibleLayers(e);
    if C.Resolves(t, image) {
      var x := Export(l, verbose, RecreateView(t, image, ids), exportId, o);
      C.RefillRefreshes(t, image, x.result);
    }
  }

  /** A recreation that goes through found its export node and shows the new PNG at its size. */
  lemma RecreationShows(l: Launcher, verbose: bool, t: Tree, image: Node, o: PngOptions)
    requires C.Recreatable(t, image)
    ensures var (r, after) := Recreation(l, verbose, t, image, o);
      r.result.Success? ==> C.Resolves(t, image) && image in after.elems && ShowsPng(after.elems[image], o.dpi)
  {
    var e := t.elems[image];
    var exportId, ids := Attr(e, EXPORT_ID).value, ReadVisibleLayers(e);
    if C.Resolves(t, image) {
      var x := Export(l, verbose, RecreateView(t, image, ids), exportId, o);
      if x.result.Success? {
        ExportedImageShowsPng(l, verbose, RecreateView(t, image, ids), exportId, o, e);
      }
    }
  }

  /** `_recreate_inset(image)`, in place. */
  method RecreateInset(doc: Document, l: Launcher, verbose: bool, image: Node, o: PngOptions) returns (r: Outcome<()>)
    requires doc.Valid() && C.Recreatable(doc.tree, image)
    modifies doc
    ensures (r, doc.tree) == Recreation(l, verbose, old(doc.tree), image, o)
  {
    var t := doc.tree;
    var e := t.elems[image];
    var exportId := Attr(e, EXPORT_ID).value;
    var ids := ReadVisibleLayers(e);
    var exportNode := GetElementById(t, exportId);
    if exportNode.None? {
      return Outcome([MissingExportNode(exportId)], Failure(Exit(1)));
    }
    var scope := HideForRecreate(doc, image, ids);
    var x := Export(l, verbose, doc.tree, exportId, o);
    C.LeaveRecreation(scope, t, image, ids, x);
    r := Outcome(x.msgs, if x.result.Success? then Success(()) else Failure(x.result.error));
  }

  // ---- _create_inset ----

  /** The image `_create_inset` builds, in its order: the PNG first, then the provenance,
      then the placement. */
  function NewInset(exportId: string, text: string, data: seq<byte>, w: real, h: real, center: (real, real)): Element {
    var img := WithImageData(Element(Image, None, None, map[]), data, w, h);
    var img := SetAttr(SetAttr(img, EXPORT_ID, Str(exportId)), VISIBLE_LAYERS, Str(text));
    C.Placed(img, center.0 - w / 2.0, center.1 - h / 2.0)
  }

  /** The order does not matter: the older extension builds the same image as the current one. */
  lemma NewInsetSame(exportId: string, text: string, data: seq<byte>, w: real, h: real, center: (real, real))
    ensures NewInset(exportId, text, data, w, h, center) == C.NewInset(exportId, text, data, w, h, center)
  {
    var e0 := Element(Image, None, None, map[]);
    var a := SetAttr(SetAttr(WithImageData(e0, data, w, h), EXPORT_ID, Str(exportId)), VISIBLE_LAYERS, Str(text));
    var b := WithImageData(Element(Image, None, None, map[EXPORT_ID := Str(exportId), VISIBLE_LAYERS := Str(text)]), data, w, h);
    assert a == b by {
      assert |EXPORT_ID| == 19 && |VISIBLE_LAYERS| == 24 && |HREF| == 10;
      assert a.attrs == b.attrs;
    }
  }

  /** `_create_inset(export_id)`: export the document as it stands, then record the visible
      layers and the export id on a new image centred on the view and append it to the root. */
  method CreateNewInset(doc: Document, l: Launcher, verbose: bool, exportId: string, o: PngOptions, center: (real, real))
    returns (r: Outcome<()>)
    requires doc.Valid() && LayersHaveIds(doc.tree)
    modifies doc
    ensures var x := Export(l, verbose, old(doc.tree), exportId, o);
      && r.msgs == x.msgs
      && (x.result.Failure? ==> r.result == Failure(x.result.error) && doc.tree == old(doc.tree))
      && (x.result.Success? ==> r.result == Success(()))
    ensures r.result.Success? ==> old(doc.tree).next in doc.tree.elems
    ensures r.result.Success? ==> var t, img := old(doc.tree), doc.tree.elems[old(doc.tree).next];
      && doc.tree == Append(t, ROOT, img)
      && C.CreatedInset(img, exportId, VisibleLayerIds(t), o.dpi)
      && C.CenteredAt(img, center)
  {
    var t := doc.tree;
    var x := Export(l, verbose, t, exportId, o);
    if x.result.Failure? {
      return Outcome(x.msgs, Failure(x.result.error));
    }
    ExportContract(l, verbose, t, exportId, o);
    var (data, w, h) := x.result.value;
    var ids := C.VisibleIds(doc);
    var text := JoinIds(ids);
    var img := NewInset(exportId, text, data, w, h, center);
    NewInsetSame(exportId, text, data, w, h, center);
    C.NewInsetCreated(exportId, text, ids, data, w, h, center, o.dpi);
    var n := doc.AppendChild(ROOT, img);
    r := Outcome(x.msgs, Success(()));
  }

  // ---- effect ----

  /** The test of `effect`: an image with a non-empty export id. */
  predicate IsInset(e: Element) {
    e.tag == Image && Attr(e, EXPORT_ID).Some? && Attr(e, EXPORT_ID).value != ""
  }

  /** Every inset of the current extension is one here too, but not conversely: an image
      whose stored layer list is empty is recreated here and not there. */
  lemma InsetTestsDiffer(e: Element)
    ensures C.IsInset(e) ==> IsInset(e)
    ensures IsInset(e) && Attr(e, VISIBLE_LAYERS).GetOr("") == "" ==> !C.IsInset(e)
  {
  }

  /** `CreateInset.effect()`: exactly one element must be selected. An inset is recreated;
      any other element becomes the export node of a new inset. `freshId` is the id
      `get_id()` would invent for it. */
  method Effect(doc: Document, l: Launcher, selection: seq<Node>, opts: C.Options, center: (real, real), freshId: string)
    returns (r: Outcome<()>)
    requires doc.Valid() && LayersHaveIds(doc.tree) && IsName(freshId)
    requires forall n | n in selection :: n in doc.tree.elems
    modifies doc
    ensures |selection| != 1 ==> r == Outcome([SelectExactlyOne], Failure(Exit(1))) && doc.tree == old(doc.tree)
    ensures var t, o := old(doc.tree), C.PngOptionsOf(opts.dpi, opts.scale, opts.background, opts.opacity, opts.optipngLevel);
      |selection| == 1 && IsInset(t.elems[selection[0]]) ==>
        (r, doc.tree) == Recreation(l, opts.verbose, t, selection[0], o)
    ensures var t := old(doc.tree);
      |selection| == 1 && !IsInset(t.elems[selection[0]]) && r.result.Success? ==>
        var id := C.ExportIdOf(t.elems[selection[0]], freshId);
        && doc.tree.next == t.next + 1 && t.next in doc.tree.elems && selection[0] in doc.tree.elems
        && Attr(doc.tree.elems[selection[0]], "id") == Some(id)
        && C.CreatedInset(doc.tree.elems[t.next], id, VisibleLayerIds(t), opts.dpi)
        && doc.tree == Append(C.Named(t, selection[0], freshId), ROOT, doc.tree.elems[t.next])
    ensures var t, o := old(doc.tree), C.PngOptionsOf(opts.dpi, opts.scale, opts.background, opts.opacity, opts.optipngLevel);
      |selection| == 1 && !IsInset(t.elems[selection[0]]) ==>
        var x := NamedExport(l, opts.verbose, t, selection[0], freshId, o);
        && r.msgs == x.msgs
        && (x.result.Failure? ==> r.result == Failure(x.result.error) && doc.tree == C.Named(t, selection[0], freshId))
        && (x.result.Success? ==> r.result == Success(()))
  {
    var o := C.PngOptionsOf(opts.dpi, opts.scale, opts.background, opts.opacity, opts.optipngLevel);
    if |selection| != 1 {
      return Outcome([SelectExactlyOne], Failure(Exit(1)));
    }
    var n := selection[0];
    if IsInset(doc.tree.elems[n]) {
      r := RecreateInset(doc, l, opts.verbose, n, o);
    } else {
      r := CreateForSelected(doc, l, opts.verbose, n, o, center, freshId);
    }
  }

  /** The export of the named element, as the creation branch runs it. */
  function NamedExport(l: Launcher, verbose: bool, t: Tree, n: Node, freshId: string, o: PngOptions): Outcome<(seq<byte>, real, real)>
    requires WellFormed(t) && n in t.elems
  {
    Export(l, verbose, C.Named(t, n, freshId), C.ExportIdOf(t.elems[n], freshId), o)
  }

  /** The creation branch of `effect`: name the selected element, then build an inset that
      exports it. */
  method CreateForSelected(doc: Document, l: Launcher, verbose: bool, n: Node, o: PngOptions, center: (real, real), freshId: string)
    returns (r: Outcome<()>)
    requires doc.Valid() && LayersHaveIds(doc.tree) && IsName(freshId) && n in doc.tree.elems
    modifies doc
    ensures var t := old(doc.tree);
      r.result.Success? ==>
        var id := C.ExportIdOf(t.elems[n], freshId);
        && doc.tree.next == t.next + 1 && t.next in doc.tree.elems && n in doc.tree.elems
        && Attr(doc.tree.elems[n], "id") == Some(id)
        && C.CreatedInset(doc.tree.elems[t.next], id, VisibleLayerIds(t), o.dpi)
        && doc.tree == Append(C.Named(t, n, freshId), ROOT, doc.tree.elems[t.next])
    ensures var t := old(doc.tree); var x := NamedExport(l, verbose, t, n, freshId, o);
      && r.msgs == x.msgs
      && (x.result.Failure? ==> r.result == Failure(x.result.error) && doc.tree == C.Named(t, n, freshId))
      && (x.result.Success? ==> r.result == Success(()))
  {
    ghost var t := doc.tree;
    var exportId := C.GetId(doc, n, freshId);
    ghost var named := doc.tree;
    C.SetIdKeepsLayers(t, n, exportId);
    r := CreateNewInset(doc, l, verbose, exportId, o, center);
    if r.result.Success? {
      C.NamedInsetCreated(t, named, doc.tree, n, exportId, freshId, o.dpi);
    }
  }
}
