# inkex-bh in Dafny

A model of the core of `inkex-bh`, the Inkscape extensions used to draw Barn Hunt
course maps. Each part of the core is modelled with proofs about it:

- **The inset lifecycle** in its three copies:
  - `inkex_bh/create_inset.py`, the current one;
  - `inkscape_barnhunt/bh-create-inset.py`, the older one;
  - `bh-create-inset.py`, the first one.

  An inset is a PNG rendering of one element of the drawing, embedded back into the
  drawing as an `<image>`. It records the id of the element it shows and the ids of the
  layers that were visible, so it can be rendered again later. The model covers:
  - the PNG header decoder;
  - the size arithmetic of an export;
  - layer visibility and the scope that restores it;
  - the provenance the image records;
  - creating and recreating an inset;
  - dispatch on the selection;
  - running Inkscape and optipng, including the AppImage command line of the older copy;
  - the first copy's own `Style` parser and its deep-copy recreation.
- **Updating a drawing's symbols** from the installed symbol library
  (`inkex_bh/update_symbols.py`).
- **Counting the symbols a drawing places** (`barnhunt/bh-count-symbols.py` and
  `bh-count-symbols.py`, which share their logic).
- **The rat hiders** (`barnhunt/bh-hide-rats.py` and `bh-hide-rats.py`):
  - XPath quoting;
  - the rat check;
  - the rat guide layer;
  - the next blind's layer name;
  - cloning the rat layer without ids;
  - box overlap and unions;
  - the bounded random placement loop.
- **The font-size work-around** for inkex's text bounding boxes (`barnhunt/bh_inkex_bugs.py`).

The document is a table of element records (`Svg.Tree`) keyed by document order. A parent
precedes its children, and node 0 is the root. `Svg.Document` is the mutable drawing the
extensions change in place. Where the source copies whole subtrees (symbol libraries, the
rat layer), elements are value trees (`Xml.XNode`).

Exceptions and `sys.exit` are modelled as results:
- `Process.Outcome` holds the messages written to stderr and either a value or a halt;
- a halt is either an exit status or a raised exception.

The external world enters the model as inputs:
- Inkscape and optipng are functions from a request to an exit status, captured output
  and a file;
- `random.random()` is a sequence of draws;
- bounding boxes and the result of the unit conversion are given.

Where the documented behaviour and the code differ, the model follows the code:
- `temporary_visibility` saves a style on every call, not only on the first call for an
  element. Restoring in reverse order still brings back the style from before the scope.
- The embedded size multiplies the pixel count by `96 / dpi`, while the renderer is asked
  for `scale * dpi`.

## Model

| member | source | states |
|---|---|---|
| Png.PngDimensions | inkex_bh/create_inset.py:72-77 | rejects exactly the inputs shorter than 24 bytes, those without the PNG signature, and those without `IHDR` at offset 12, each with its own error; width and height are below 2^32 |
| Png.PngDimensionsOfHeader | inkex_bh/create_inset.py:76-77 | decoding a header built from any width and height below 2^32, followed by anything, gives back that width and height |
| Png.PngDimensionsOnlyHeader | inkex_bh/create_inset.py:72-77 | a decoded size depends only on the first 24 bytes, which are a header of that size |
| Png.Be32RoundTrip | inkex_bh/create_inset.py:76 | reading a big-endian u32 back from its four bytes gives the number |
| Png.Be32Bytes32 | inkex_bh/create_inset.py:76 | writing the value of any four bytes gives back the same bytes |
| Inset.SizeAtMeaning | inkex_bh/create_inset.py:228-230 | for the decoded PNG header, the embedded size fails with `AssertionError` exactly when the header is refused and with `ZeroDivisionError` exactly when the dpi is zero; otherwise it is pixels times `96 / dpi` |
| Inset.EmbeddedSizeExample | inkex_bh/create_inset.py:228-230 | a 400×300 pixel PNG at 192 dpi is embedded at 200×150 |
| Inset.DimensionLaw | inkex_bh/create_inset.py:213-230 | rendered at `scale * dpi` with pixels proportional to the box, the embedded size is the box times `scale` |
| Inset.JoinIds | inkex_bh/create_inset.py:257-259 | the space-joined ids split back into exactly the id set, and the text is empty exactly when the set is |
| Inset.ProvenanceRoundTrip | inkex_bh/create_inset.py:259 | storing the joined ids and reading them with `split()` gives back the same set |
| Inset.ProvenanceRead | inkex_bh/create_inset.py:285 | the stored layer list reads back as the set it enumerates |
| Inset.NonNameNeverRead | inkex_bh/create_inset.py:285 | an id that is empty or holds white space is never among the layers read back |
| Inset.SpacedIdSplits | inkex_bh/create_inset.py:285 | an id made of two names joined by a space reads back as those two ids, not as itself |
| Inset.VisibleLayerIdsExact | inkex_bh/create_inset.py:99-102 | with unique layer ids, a layer's id is recorded exactly when the layer is visible |
| Inset.RecreateOpsFacts | inkex_bh/create_inset.py:292-295 | the visibility calls of a recreation name each element at most once: the image is hidden, and each layer is shown exactly when its id is stored |
| Inset.RecreateViewElement | inkex_bh/create_inset.py:292-295 | the document seen by the renderer differs from the original only in styles, and each element gets the style its visibility call sets |
| Inset.RecreateViewDisplay | inkex_bh/create_inset.py:292-295 | in that document the image has `display:none` and each layer has `display:inline` exactly when its id is stored |
| Inset.RecreateHidesImage | inkex_bh/create_inset.py:293 | the inset is never visible to its own re-rendering |
| Inset.RecreateSeesCreation | inkex_bh/create_inset.py:257-298 | recreating an inset just created shows every element exactly as visible as it was at creation |
| Inset.HideForRecreate | inkex_bh/create_inset.py:292-295 | after the scope's calls the drawing is the recreation view, and the scope remembers the styles from before |
| Inset.RestoredAfterExport | inkex_bh/create_inset.py:292-296 | leaving the scope after the export keeps the new image data and restores every style |
| Inset.RecreateFilled | inkex_bh/create_inset.py:292-296 | a recreation leaves the drawing as before, except the image, which carries the new PNG and size |
| Inset.WithImageData | inkex_bh/create_inset.py:245-247 | the new PNG keeps the image's place, style, id and both provenance attributes |
| Visibility.VisibleIffNoHiddenAncestor | inkex_bh/create_inset.py:91-96 | an element is visible exactly when neither it nor any ancestor has `display:none` |
| Visibility.IsVisible | inkex_bh/create_inset.py:91-96 | the loop up the parent chain returns that visibility |
| Visibility.VisibleLayersMembers | inkex_bh/create_inset.py:99-102 | the visible layers are exactly the layers that are visible |
| Visibility.GetVisibleLayers | inkex_bh/create_inset.py:99-102 | the loop over the layers yields the visible layers in document order |
| Visibility.FilterVisible | inkex_bh/create_inset.py:99-102 | keeps exactly the members that are visible |
| Visibility.VisibilityScope.SetVisibility | inkex_bh/create_inset.py:120-122 | saves the element's raw style on every call, then sets `display` to `inline` or `none` |
| Visibility.VisibilityScope.Restore | inkex_bh/create_inset.py:127-129 | puts the saved styles back in reverse order; every style is then what it was when the scope began, and nothing else changes |
| Visibility.StepRestores | inkex_bh/create_inset.py:118-129 | undoing the saves after one more call gives the same styles as undoing them before it |
| Visibility.ScopeRestores | inkex_bh/create_inset.py:108-129 | any sequence of calls, undone in reverse, gives back the styles from before the calls, even for an element set twice |
| Visibility.VisibilityScope.constructor | inkex_bh/create_inset.py:118 | a new scope has an empty save list and records the styles on entry |
| Svg.GetElementById | inkex_bh/create_inset.py:287 | the first element in document order that carries the id, and `None` exactly when none does |
| Svg.RemoveSubtrees | bh-create-inset.py:82-84 | removing elements also removes everything below them and keeps every other element unchanged |
| Svg.Document.SetStyle | inkex_bh/create_inset.py:129 | only the element's style changes |
| Style.ParseStyle | bh-create-inset.py:55-60 | the loop over the `;`-separated pieces gives the parsed style, which is well formed |
| Style.GetParsePieces | bh-create-inset.py:55-60 | a property's value is taken from the last piece that names it, and pieces without `:` are ignored |
| Style.ParseSerialise | bh-create-inset.py:55-63 | printing then parsing a well-formed style gives it back, with the same properties in the same order |
| Style.Put | bh-create-inset.py:59-60 | setting a property changes its value and no other; a new property goes last |
| Style.SetPropertyEffect | bh-create-inset.py:87-93 | after setting one property and printing, parsing shows the new value and leaves every other property unchanged |
| Process.RunCommand | inkex_bh/create_inset.py:132-167 | a missing program is skipped with a warning when allowed and raises otherwise; a non-zero exit reports the output and exits 1; output on success is shown only when verbose |
| Process.RunChecked | bh-create-inset.py:113-124 | a missing program raises; a non-zero exit reports and exits 1 unless `fail_ok`, in which case it returns |
| Process.RunLegacy | inkscape_barnhunt/bh-create-inset.py:175-197 | the same control flow, with the AppImage command line when the program lies inside the AppImage |
| Process.RunLegacyAgrees | inkscape_barnhunt/bh-create-inset.py:175-197 | outside an AppImage the older `run` behaves as the current `run_command` |
| Process.IsAppImageExecutable | inkscape_barnhunt/bh-create-inset.py:109-128 | true exactly when the program is found, an AppImage is active, and the program's path relative to `APPDIR` does not climb out of it |
| Process.AppImageCheckAsWritten | inkscape_barnhunt/bh-create-inset.py:109-128 | the check as written fails exactly when a program is found outside an AppImage; otherwise it agrees with the corrected check |
| Process.AppImageCheckCounterexample | inkscape_barnhunt/bh-create-inset.py:120-128 | `inkscape` on the search path with no AppImage raises `NameError` as written |
| Process.MangleCmdForAppImage | inkscape_barnhunt/bh-create-inset.py:131-172 | a missing `APPDIR` raises `KeyError`, an unresolvable program fails the assertion, and a missing ld-linux raises `RuntimeError`; otherwise the result is the loader command line |
| Process.MangledCommandLine | inkscape_barnhunt/bh-create-inset.py:155-172 | the command line is ld-linux, `--inhibit-cache`, `--library-path`, the three library directories joined by `:`, the resolved program, then the original arguments in order |
| Process.LibPathSplits | inkscape_barnhunt/bh-create-inset.py:159-169 | the `:`-joined library path splits back into the three directories |
| CreateInset.Logger.SetVerbosity | inkex_bh/create_inset.py:54-57 | returns the previous setting and stores the new one |
| CreateInset.Logger.Emit | inkex_bh/create_inset.py:59-61 | writes the message once when verbose and nothing otherwise |
| CreateInset.Optimise | inkex_bh/create_inset.py:219-223 | a missing optipng is skipped with a warning; a failing one exits 1 with its report; otherwise the file is the optimised one |
| CreateInset.PngOptionsOf | inkex_bh/create_inset.py:325-331 | the optimiser is used exactly when the level is non-negative, and then at that level |
| CreateInset.ExportPngContract | inkex_bh/create_inset.py:178-230 | a missing Inkscape raises, a failing one exits 1 with its report; a result is the rendered file, optimised when asked and available, and sized by its header at the configured dpi |
| CreateInset.ExportedImageShowsPng | inkex_bh/create_inset.py:233-247 | the exported image shows the PNG at the size the PNG has at that dpi |
| CreateInset.NewInsetCreated | inkex_bh/create_inset.py:250-275 | a new inset records the export id and the visible layers, shows its PNG, and is centred on the view centre |
| CreateInset.PlacedRendersQuality | inkex_bh/create_inset.py:268 | a new inset is drawn with `image-rendering:optimizeQuality` |
| CreateInset.CreateNewInset | inkex_bh/create_inset.py:250-275 | on success exactly one image is appended to the root, recording the layers visible before the export; on failure the drawing is unchanged |
| CreateInset.VisibleIds | inkex_bh/create_inset.py:257 | gives the ids of the visible layers, each a valid XML name |
| CreateInset.CreatedIsInset | inkex_bh/create_inset.py:301-307 | a created image counts as an inset exactly when its export id is non-empty and some layer was visible |
| CreateInset.RecreationReports | inkex_bh/create_inset.py:278-298 | the result is true exactly when the export node resolves; a missing node is reported by its id |
| CreateInset.RecreationRefreshes | inkex_bh/create_inset.py:278-298 | only the image's data changes, and nothing changes when the export node is missing |
| CreateInset.RecreationShows | inkex_bh/create_inset.py:292-296 | after a successful recreation the image shows the new PNG at its size |
| CreateInset.RecreateInset | inkex_bh/create_inset.py:278-298 | the in-place recreation returns and leaves what the recreation function states |
| CreateInset.RenderHidden | inkex_bh/create_inset.py:292-296 | the export sees the recreation view; afterwards the styles are restored whether or not the export succeeded |
| CreateInset.Insets | inkex_bh/create_inset.py:333 | the insets are exactly the selected elements that pass `is_inset` |
| CreateInset.RefreshedKeeps | inkex_bh/create_inset.py:337-342 | refreshing images keeps the tree, the layers, their ids and every id lookup |
| CreateInset.RecreateAll | inkex_bh/create_inset.py:337-342 | the final drawing and outcome are the left fold of the single recreation over the insets, stopping at the first halt (`RecreateFrom`); every inset is recreated whatever earlier ones returned, the result is true exactly when some export node resolves, and each missing one is reported |
| CreateInset.GetId | inkex_bh/create_inset.py:358 | gives the element an id only when it has none |
| CreateInset.Effect | inkex_bh/create_inset.py:319-360 | selected insets are all recreated as that fold, after a note when other elements are also selected; otherwise an empty or multiple selection returns false with its message and leaves the drawing, and one element becomes a new inset appended to the root with nothing else changed but its new id, or, when its export fails, keeps its new id and ends with the export's messages and error |
| CreateInset.CreateForSelected | inkex_bh/create_inset.py:358-360 | the selected element keeps its new id, the new inset is appended to the root and records it together with the layers visible at the start, and nothing else changes; a failed export leaves the drawing with only the new id, and the messages are the export's own |
| LegacyInset.RunAsWrittenStops | inkscape_barnhunt/bh-create-inset.py:175-197 | as written, any program found outside an AppImage stops with `NameError`; otherwise `run` behaves as intended |
| LegacyInset.RunOutsideAppImage | inkscape_barnhunt/bh-create-inset.py:175-197 | outside an AppImage the intended `run` is the current command runner |
| LegacyInset.ExportContract | inkscape_barnhunt/bh-create-inset.py:209-247 | a missing Inkscape raises; outside an AppImage a failing Inkscape exits 1 with its report, and so does a failing optipng; a result is the file optipng wrote when it ran, the rendered one otherwise, sized by its header |
| LegacyInset.ExportAgrees | inkscape_barnhunt/bh-create-inset.py:209-247 | outside an AppImage the older export equals the current one on the same programs |
| LegacyInset.ExportedImageShowsPng | inkscape_barnhunt/bh-create-inset.py:243-247 | the exported image shows the PNG at its size |
| LegacyInset.RecreationAgrees | inkscape_barnhunt/bh-create-inset.py:249-262 | the older recreation differs from the current one only in how a missing export node ends: `sys.exit(1)` |
| LegacyInset.RecreationRefreshes | inkscape_barnhunt/bh-create-inset.py:249-262 | only the image changes, and nothing changes when the recreation stops |
| LegacyInset.RecreationShows | inkscape_barnhunt/bh-create-inset.py:258-262 | a recreation that goes through shows the new PNG at its size |
| LegacyInset.RecreateInset | inkscape_barnhunt/bh-create-inset.py:249-262 | the in-place recreation returns and leaves what the recreation function states |
| LegacyInset.NewInsetSame | inkscape_barnhunt/bh-create-inset.py:264-284 | exporting first and recording the provenance afterwards builds the same image as the current copy |
| LegacyInset.CreateNewInset | inkscape_barnhunt/bh-create-inset.py:264-284 | on success one inset is appended, recording the layers visible at the start; on failure the drawing is unchanged |
| LegacyInset.InsetTestsDiffer | inkscape_barnhunt/bh-create-inset.py:293-295 | every current inset is an inset here; an image whose layer list is empty is recreated here and not there |
| LegacyInset.Effect | inkscape_barnhunt/bh-create-inset.py:286-302 | anything but exactly one selected element exits 1; an inset is recreated, and any other element becomes a new inset appended to the root with only its new id changed besides, or, when the export fails, keeps its new id and ends with the export's messages and halt |
| LegacyInset.CreateForSelected | inkscape_barnhunt/bh-create-inset.py:300-302 | the selected element keeps its `eid`, the new inset is appended to the root and records it with the layers visible at the start, and nothing else changes; a failed export leaves only the new id, with the export's messages and halt |
| OldestInset.GetVisibleLayerIds | bh-create-inset.py:66-79 | gives the ids of the layers whose whole layer lineage lacks `display:none` |
| OldestInset.LineageShown | bh-create-inset.py:66-79 | the loop up the chain returns whether every layer on it is shown |
| OldestInset.LineageVisibleIdsExact | bh-create-inset.py:66-79 | with unique ids, a layer's id is recorded exactly when its layer lineage is shown |
| OldestInset.VisibleLayerIdsIncluded | bh-create-inset.py:66-79 | every id the later copies record is recorded here too |
| OldestInset.HiddenGroupCounterexample | bh-create-inset.py:66-79 | a layer hidden only by an ordinary group is recorded here and not by the later copies |
| OldestInset.RemoveElementById | bh-create-inset.py:82-84 | every element carrying the id leaves the tree together with its subtree; a root carrying the id raises `AttributeError` |
| OldestInset.RemovedById | bh-create-inset.py:82-84 | afterwards no element carries the id, and the remaining elements are unchanged |
| OldestInset.AdjustLayerVisibility | bh-create-inset.py:87-93 | the document becomes the adjusted document |
| OldestInset.AdjustedShows | bh-create-inset.py:87-93 | each layer with an id shows `inline` exactly when its id is in the set and `none` otherwise; other elements and all attributes are untouched |
| OldestInset.ExportContract | bh-create-inset.py:126-148 | a missing Inkscape raises and a failing one exits 1; optipng runs only at a non-negative level, a failing optipng is reported and the export goes on, and a missing one raises |
| OldestInset.Sized | bh-create-inset.py:172-178 | the size is the PNG's pixels times `96 / dpi`, and a refused header stops the extension |
| OldestInset.ViewShows | bh-create-inset.py:161-165 | the rendered copy lacks the image, and each remaining layer with an id is shown exactly when its id is stored |
| OldestInset.RecreationRefreshes | bh-create-inset.py:156-165 | the live document changes only in the image's data, and not at all when the export stops |
| OldestInset.RecreationShows | bh-create-inset.py:174-202 | a recreation that goes through shows the new PNG at its size |
| OldestInset.Recreate | bh-create-inset.py:156-202 | the in-place recreation returns and leaves what the recreation function states |
| OldestInset.QualityStyle | bh-create-inset.py:190 | the literal style is the one the later copies reach by setting `image-rendering` |
| OldestInset.NewInsetCreated | bh-create-inset.py:180-202 | a new inset records the export id and the visible layers, shows its PNG, and is centred, without `preserveAspectRatio` |
| OldestInset.Create | bh-create-inset.py:166-202 | on success one inset exporting the selected element is appended; on failure the drawing is unchanged |
| OldestInset.Effect | bh-create-inset.py:150-202 | anything but exactly one selected element exits 1; an inset is recreated on a copy, and any other element becomes a new inset appended to the root, or, when the export fails, the drawing is unchanged and the run ends with the export's messages and halt |
| UpdateSymbols.ParseScale | inkex_bh/update_symbols.py:68-73 | a parsed scale is a `-<A>to<B>` suffix of the stem |
| UpdateSymbols.ParseScaleComplete | inkex_bh/update_symbols.py:68-73 | every such suffix is found |
| UpdateSymbols.SymbolScaleMeaning | inkex_bh/update_symbols.py:68-73 | the scale is `A:B` for a stem ending in `-<A>to<B>`, and `48:1` when there is no such suffix |
| UpdateSymbols.SvgName | inkex_bh/update_symbols.py:120-124 | a file counts as SVG exactly when its suffix is `.svg`, and its stem is the name without it |
| UpdateSymbols.HasUnscopedIds | inkex_bh/update_symbols.py:76-81 | true exactly when some descendant's id does not start with `<symbol id>:` |
| UpdateSymbols.AcceptedFromCandidates | inkex_bh/update_symbols.py:89-105 | every accepted symbol is a scoped `<symbol>` directly in the top-level `<defs>`, under its own id |
| UpdateSymbols.AcceptedFirst | inkex_bh/update_symbols.py:98-105 | the first scoped symbol with an id is the one kept |
| UpdateSymbols.LoadSymbolsFromSvg | inkex_bh/update_symbols.py:84-105 | the loop gives the accepted symbols and a warning for each skipped one |
| UpdateSymbols.WalkSound | inkex_bh/update_symbols.py:53-65 | a found directory lies in the tree and has metadata with the wanted name |
| UpdateSymbols.WalkComplete | inkex_bh/update_symbols.py:53-65 | when nothing is found, no reachable directory has that name; the walk does not descend below metadata |
| UpdateSymbols.WalkFirst | inkex_bh/update_symbols.py:53-65 | no directory before the found one in walk order has the name |
| UpdateSymbols.SearchSound | inkex_bh/update_symbols.py:46-65 | a found library lies under the `symbols` directory of the first data path that has one, and earlier paths have none |
| UpdateSymbols.SearchComplete | inkex_bh/update_symbols.py:46-65 | when nothing is found, no data path's `symbols` tree has the name, and data paths without `symbols` are skipped |
| UpdateSymbols.GetSymbolPath | inkex_bh/update_symbols.py:46-65 | the loop over the data paths gives that search |
| UpdateSymbols.SortOn | inkex_bh/update_symbols.py:126-133 | sorting gives a permutation ordered by the key |
| UpdateSymbols.SortStable | inkex_bh/update_symbols.py:126-133 | the sort is stable: the files with any one key come out in listing order, as with Python's `sorted` |
| UpdateSymbols.StandardScaleFirst | inkex_bh/update_symbols.py:126-133 | the files are permuted, and every `48:1` file comes before every file of another scale |
| UpdateSymbols.MergedKeyed | inkex_bh/update_symbols.py:133-143 | every merged symbol is stored under its own id |
| UpdateSymbols.MergedKeepsEarlier | inkex_bh/update_symbols.py:133-143 | a symbol accepted from an earlier file is never replaced by a later one |
| UpdateSymbols.MergedStops | inkex_bh/update_symbols.py:133-143 | after an error nothing more is merged |
| UpdateSymbols.MergeFiles | inkex_bh/update_symbols.py:133-143 | the loop over the sorted files gives the merge |
| UpdateSymbols.LoadSymbols | inkex_bh/update_symbols.py:108-143 | gives the library; a name with no matching library is a `RuntimeError` |
| UpdateSymbols.LibraryKeyed | inkex_bh/update_symbols.py:108-143 | every library symbol is stored under its own id |
| UpdateSymbols.RefreshCurrent | inkex_bh/update_symbols.py:146-157 | after the update every `<defs>` symbol with a library id is the library's, every other child is untouched, and the drawing keeps its shape |
| UpdateSymbols.UpdateSymbolsIn | inkex_bh/update_symbols.py:146-157 | the in-place update leaves the refreshed drawing, or the drawing unchanged when it has no `<defs>` |
| UpdateSymbols.Effect | inkex_bh/update_symbols.py:164-171 | returns false after reporting the error when the library cannot be loaded or the drawing cannot be updated, and true with the update otherwise |
| CountSymbols.ElemByIdFinds | barnhunt/bh-count-symbols.py:36-41 | an element is found exactly when some element has the id, and it is the first in document order |
| CountSymbols.MatchingExact | barnhunt/bh-count-symbols.py:36-41 | the matches are exactly the elements with the id |
| CountSymbols.SymbolCounter.SymbolCounts | barnhunt/bh-count-symbols.py:29-34 | an href that is not `#` plus an id fails the assertion; a remembered count is returned unchanged; a new count is the id's count and is remembered |
| CountSymbols.SymbolCounter.CountId | barnhunt/bh-count-symbols.py:36-56 | gives the id's count: empty for a missing element, one `count-as` name for a symbol, otherwise the sum over its `<use>` references; the first warning it writes is the one for this id exactly when the id matches other than one element; on success every id its group references is remembered |
| CountSymbols.SymbolCounter.SumCounts | barnhunt/bh-count-symbols.py:52-56 | adds the counts of the references left to right, keeping every count remembered before |
| CountSymbols.CountsAgree | barnhunt/bh-count-symbols.py:43-56 | any two counts of the same id that are reached agree |
| CountSymbols.SumOfSnoc | barnhunt/bh-count-symbols.py:52-56 | one more reference adds its count to the sum |
| CountSymbols.SelfReferenceFails | barnhunt/bh-count-symbols.py:43-56 | a group that places itself is never counted, however deep the recursion may go |
| CountSymbols.InsideSymbolUncounted | barnhunt/bh-count-symbols.py:70-71 | no reference inside a symbol is selected |
| CountSymbols.InsideHiddenUncounted | barnhunt/bh-count-symbols.py:72-73 | unless hidden ones are included, no reference below a hidden element is selected |
| CountSymbols.HiddenOnlyRemoves | barnhunt/bh-count-symbols.py:72-73 | leaving hidden references out only removes references |
| CountSymbols.MostCommon | barnhunt/bh-count-symbols.py:79-80 | each counted name is on exactly one line with its count, counts never rise, and names with equal counts come in the order they were first counted |
| CountSymbols.Effect | barnhunt/bh-count-symbols.py:67-80 | the total over the selected references, in `most_common` order with ties in first-counted order; every warning is for an id that matches other than one element, and on success every id reached (the selected references' ids and, closed under it, the ids each counted group references) that matches other than one element has its warning |
| XPathQuote.EvalXpStr | barnhunt/bh-hide-rats.py:32-39 | the XPath expression built for any string evaluates to that string |
| XPathQuote.PiecesJoin | barnhunt/bh-hide-rats.py:37-38 | the pieces of a string with both quote kinds join back into the string |
| XPathQuote.Pieces | barnhunt/bh-hide-rats.py:37 | each piece is non-empty and lacks one of the two quote kinds |
| XPathQuote.PiecesOfBoth | barnhunt/bh-hide-rats.py:37-39 | a string with both quote kinds is split into at least two pieces |
| XPathQuote.EvalQuoted | barnhunt/bh-hide-rats.py:34-36 | a string without `"` is wrapped in `"`, and one without `'` is wrapped in `'` |
| XPathQuote.EvalConcat | barnhunt/bh-hide-rats.py:37-39 | the `concat(...)` form evaluates to the string |
| RatLayerName.LabelMatchSound | barnhunt/bh-hide-rats.py:258-262 | a matched label is an `[o…]` name, white space, digits and optional white space |
| RatLayerName.LabelMatchComplete | barnhunt/bh-hide-rats.py:258-262 | every label of that shape matches, with those parts |
| RatLayerName.MaxIndexBounds | barnhunt/bh-hide-rats.py:264 | the largest index, 0 when there are none |
| RatLayerName.NextNumber | barnhunt/bh-hide-rats.py:264-265 | the new number exceeds every existing index by at least one |
| RatLayerName.NextNameSingle | barnhunt/bh-hide-rats.py:259-265 | with one common name, the new label is that name and the next number, and it matches the pattern again |
| RatLayerName.NextNameBlind | barnhunt/bh-hide-rats.py:259-265 | with several names, the new label is `Blind` and the next number |
| RatLayerName.NoMatchFails | barnhunt/bh-hide-rats.py:259-262 | with no matching label the code as written raises `ValueError`, and the corrected rule gives `Blind 1` |
| RatLayerName.RatsAloneFails | barnhunt/bh-hide-rats.py:259-262 | for a rat layer labelled `Rats` with no `[o…] N` sibling the code as written raises `ValueError`, where the corrected rule gives `Blind 1` |
| RatLayerName.AsWrittenAgrees | barnhunt/bh-hide-rats.py:253-265 | as written, the rule fails exactly when no label matches, and otherwise agrees with the corrected rule |
| RatClone.CloneNoIds | barnhunt/bh-hide-rats.py:237-246 | a clone carries no `id` anywhere |
| RatClone.CloneFixed | barnhunt/bh-hide-rats.py:237-246 | cloning leaves a tree unchanged exactly when it has no ids |
| RatClone.CloneAt | barnhunt/bh-hide-rats.py:237-246 | the clone has the original's shape, and each of its elements is the clone of the original element |
| RatClone.CloneElement | barnhunt/bh-hide-rats.py:237-246 | gives the clone, and collects exactly the selected places below |
| RatClone.CloneLayer | barnhunt/bh-hide-rats.py:232-250 | the clone of the layer, and the places in it of exactly the selected elements |
| RatClone.BlindParent.CloneRatLayer | barnhunt/bh-hide-rats.py:268-279 | the labelled clone is inserted first, the original is hidden and locked, and the other layers keep their order |
| RatClone.NewBlindFacts | barnhunt/bh-hide-rats.py:268-279 | the new layer takes the next blind name and has no ids; the original gets `display:none` and is locked |
| RatClone.BlindParent.Append | barnhunt/bh-hide-rats.py:106 | the new layer becomes the last child and the others are kept |
| HideRats.FindRatLayerOutcomes | barnhunt/bh-hide-rats.py:342-364 | the four rat-check errors, each exactly when the earlier checks pass and its own fails, and the one layer otherwise |
| HideRats.LayersSingle | barnhunt/bh-hide-rats.py:357-364 | all rats share one layer exactly when the set of their layers has one element |
| HideRats.RatGuide.constructor | barnhunt/bh-hide-rats.py:90-122 | for a guide layer that passes the identity-transform assertion (which `HideRats.Effect` makes), the old notation rectangles are replaced by new ones, and the exclusions are the given ones plus those already drawn |
| HideRats.RatGuide.Reset | barnhunt/bh-hide-rats.py:124-125 | deletes only the exclusion rectangles, and the exclusion list is unchanged |
| HideRats.RatGuide.AddExclusion | barnhunt/bh-hide-rats.py:127-129 | draws one exclusion rectangle and appends its box to the exclusions |
| HideRats.RatGuide.DeleteRects | barnhunt/bh-hide-rats.py:156-161 | removes exactly the items of that mode |
| HideRats.RatGuide.AddRect | barnhunt/bh-hide-rats.py:148-154 | appends one item of that mode |
| HideRats.WithoutMembers | barnhunt/bh-hide-rats.py:156-161 | keeps exactly the items of other modes |
| HideRats.WithoutCommutes | barnhunt/bh-hide-rats.py:124-161 | deleting two modes gives the same result in either order |
| HideRats.GuideValid | barnhunt/bh-hide-rats.py:90-122 | every counted item of the built guide is one of its exclusions |
| HideRats.RandomPosition | barnhunt/bh-hide-rats.py:191-225 | with `max_tries` zero it raises `UnboundLocalError`; otherwise it is the bounded search from the first candidate |
| HideRats.TriedOutcome | barnhunt/bh-hide-rats.py:202-225 | it draws between 1 and `max_tries` candidates and stops at the first that hits no exclusion; it gives up only at the last one, keeping that candidate |
| HideRats.OlderDrawsOneMore | bh-hide-rats.py:75-86 | the older search with `max_tries` is this search with `max_tries + 1` |
| HideRats.RatBoundaryBounds | barnhunt/bh-hide-rats.py:327-339 | the page when nothing is marked, otherwise the smallest box containing every marked box |
| HideRats.PlaceAll | barnhunt/bh-hide-rats.py:405-407 | each rat is placed against the exclusions and every rat placed before it, and its box is added to the exclusions |
| HideRats.PlacementsAvoid | barnhunt/bh-hide-rats.py:405-407 | a rat that did not give up overlaps no exclusion and no earlier rat |
| HideRats.Effect | barnhunt/bh-hide-rats.py:391-407 | a bad selection is reported and a missing parent layer raises `AttributeError`, both leaving the layers; a guide layer is appended to the containing layer when it has none, and a guide layer whose composed transform is not the identity then stops the extension with `AssertionError`; otherwise the rat layer (the child `find_rat_layer` names) is cloned under its parent for a new blind, and the rats are placed in turn inside the rat boundary, one placement per selected rat |
| HideRatsV0.RandomizePosition | bh-hide-rats.py:66-94 | the loop gives the bounded search from the first candidate |
| HideRatsV0.PlacedOutcome | bh-hide-rats.py:75-86 | it draws between 1 and `max_tries + 1` candidates and stops at the first clear one; giving up keeps the last |
| HideRatsV0.CandidateInRange | bh-hide-rats.py:73-74 | a candidate's corner lies in `[xmin, max(xmax - w, xmin)] × [ymin, max(ymax - h, ymin)]` |
| HideRatsV0.CandidateInside | bh-hide-rats.py:73-74 | an element that fits inside the boundary lands inside it |
| HideRatsV0.GetBoundary | bh-hide-rats.py:103-119 | the union of the marked boxes, or the page when there are none; with nothing marked, a root without `width` or `height` raises `KeyError`, and only then |
| HideRatsV0.BoundaryContainsMarked | bh-hide-rats.py:109-119 | the boundary contains every marked box |
| HideRatsV0.Exclusions | bh-hide-rats.py:121-128 | the marked boxes in order, failing with `TypeError` exactly when one has no box |
| HideRatsV0.Effect | bh-hide-rats.py:130-134 | a missing page size, needed when nothing marks the boundary, stops the extension with `KeyError` before any rat is placed; a marked exclusion without a box stops the extension with `TypeError` before any rat is placed; otherwise the selected elements are placed in order against the same fixed exclusions, each search drawing after the previous ones, until the first selected element without a box stops it with `TypeError` and leaves the rats before it moved; it succeeds exactly when the boundary is found and every exclusion and every selected element has a box |
| Bounds.New | bh-hide-rats.py:29-33 | a box comes from four values or one 4-tuple |
| Bounds.NewForms | bh-hide-rats.py:29-33 | both forms give the same box |
| Bounds.NewRefuses | bh-hide-rats.py:29-33 | a single number or a tuple of another length is refused |
| Bounds.MovedTo | bh-hide-rats.py:35-41 | moving keeps the width `xmax - xmin` and the height `ymax - ymin` |
| Bounds.OverlapsSymmetric | bh-hide-rats.py:43-47 | overlap is symmetric |
| Bounds.OverlapsSelf | bh-hide-rats.py:43-47 | a box overlaps itself exactly when it is well formed |
| Bounds.OverlapsIffSharedPoint | bh-hide-rats.py:43-47 | two well-formed boxes overlap exactly when they share a point, edges included |
| Bounds.TouchingOverlaps | bh-hide-rats.py:43-47 | boxes that only touch overlap |
| Bounds.UnionAllBounds | bh-hide-rats.py:109-119 | the union is the smallest box containing every given box, and there is none when no box is given |
| Bounds.HullAllBounds | barnhunt/bh-hide-rats.py:333-339 | the union of a non-empty list is the smallest box containing each of its boxes |
| InkexBugs.SavedHoldsStyle | barnhunt/bh_inkex_bugs.py:29 | the save attribute holds the raw style, or is absent when there is none |
| InkexBugs.NegatedFontSize | barnhunt/bh_inkex_bugs.py:31-33 | the font size becomes the negated size and every other style property is kept |
| InkexBugs.RestoreUndoes | barnhunt/bh_inkex_bugs.py:38-40 | restoring undoes the save, with or without the negation in between |
| InkexBugs.MangledPrefix | barnhunt/bh_inkex_bugs.py:28-34 | `mangled` lists the texts in order up to the first failing conversion, and the loop fails exactly when it stopped early |
| InkexBugs.MangledConverted | barnhunt/bh_inkex_bugs.py:28-34 | each mangled element is saved and negated |
| InkexBugs.MangledStopped | barnhunt/bh_inkex_bugs.py:29-33 | the element whose conversion failed is saved but not negated, and is not listed |
| InkexBugs.ScopeRestores | barnhunt/bh_inkex_bugs.py:20-40 | after a normal run the document is as before; after a failing conversion only that element keeps its save attribute |
| InkexBugs.FontSizeScope.MangleEach | barnhunt/bh_inkex_bugs.py:28-34 | the loop leaves the document and `mangled` as stated above |
| InkexBugs.FontSizeScope.Restore | barnhunt/bh_inkex_bugs.py:38-40 | every mangled element gets its saved style back and loses the save attribute |
| InkexBugs.FontSizeScope.Negate | barnhunt/bh_inkex_bugs.py:20-40 | entering the scope fails exactly when a conversion fails, after which the `finally` loop has run |
| InkexBugs.FontSizeScope.EnterHack | barnhunt/bh_inkex_bugs.py:43-50 | the scope is entered only when the probe reports the bug; otherwise the document is untouched |

## Left out

- Subprocesses, temporary directories and files: the exit status, the output and the PNG file written are inputs, and `sys.exit` is a halt in the result.
- `data_url`, base64 and `fmt_f`: the embedded PNG is `Value.PngUrl(data)` and numbers are `Value.Num(real)`, without their text.
- XPath evaluation, bounding boxes, transforms and unit conversion: query results and boxes are inputs. The rat's transform update back into element coordinates is reduced to its new box (`Bounds.MovedTo`).
- `random.uniform`: the successive values of `random.random()` are an input sequence assumed to lie in `[0, 1)` where a bound is proved.
- `find_exclusions` and `_iter_exclusions`, and the geometry of `hide_rat`: the exclusion boxes they give are inputs.
- `inkex_tspan_bounding_box_is_buggy`: its answer is the input `buggy`.
- `CreateInset.GetId`: does not model the random id `get_id` invents, which is an input; every layer is required to carry an id already, so the ids recorded for visible layers need no invention.
- `OldestInset.Effect`: requires every selected element to carry an id, as `self.selected` is keyed by id.
- `Style.ParseSerialise`: prints the properties in the order they were first set. The first copy's `Style` is a Python 2 `dict`, which prints them in an arbitrary order; that changes the text written but not the value any property reads back as (`Style.GetParsePieces`, `Style.SetPropertyEffect`).
- `Style.SetPropertyEffect`: keeps property names as written, like the first copy's `Style`; the later copies go through inkex's style class, which lower-cases them, and that is not modelled.
- `CountSymbols.SymbolCounter.SymbolCounts`: reference cycles are not followed without bound. The recursion depth is a `fuel` bound that stands for Python's recursion limit, and running out is `RecursionError`.
- `CountSymbols.MostCommon`: follows `Counter.most_common` of Python 3, which the `barnhunt/` copy runs on, where equal counts keep the order the names were first counted in. The top-level `bh-count-symbols.py` runs on Python 2, whose dictionary order is arbitrary, so its order among equal counts is not modelled.
- `CountSymbols.Effect`: the `"{1:4}: {0}"` text of the output lines is left out; the lines are (name, count) pairs.
- `UpdateSymbols.UpdateSymbolsIn`: when `<defs>` holds two symbols with the same library id, lxml moves the one replacement element twice. The model gives both places the replacement.
- `HideRats.Effect`: the boxes of new rats are given in visiting order, and the iteration order of the `new_rats` set is not modelled.
- `HideRats.Effect`: the guide layer's rectangles are held as `RatGuide.items`, not as XML children of the new guide layer, and the `_()` translation of its label is the identity.
- `HideRats.Effect`: when `--newblind` clones a rat layer that itself holds the guide layer, the clone is of the rat layer as it was before the guide changed.
- `HideRats.Effect`: with `--newblind`, built on the corrected `RatLayerName.NextName`; as written, a rat layer labelled `Rats` with no `[o…] N` sibling layer raises `ValueError`, which `except BadRats` does not catch (see Findings).
- `HideRats.Effect`: runs without `text_bbox_hack`; `InkexBugs.FontSizeScope.EnterHack` and `InkexBugs.FontSizeScope.Restore` are proved on their own and not composed with it, since the boxes are inputs here.
- `HideRats.RatGuide.constructor`: builds only a guide that passes the assertion at barnhunt/bh-hide-rats.py:109-110 (the guide layer's composed transform is the identity), since a constructor cannot fail; `HideRats.Effect` checks that assertion, as its input `guideAtIdentity`, before building the guide, and stops with `AssertionError` when it fails.
- `HideRats.RatGuide.constructor`: `RatGuide.items` is one flat list, so the guide layer's `.//*` exclusions and the user's top-level `./*` shapes are not told apart by depth; both are counted as the source counts them.
- `RatClone.BlindParent.CloneRatLayer`: built on the corrected `RatLayerName.NextName`; as written, a rat layer labelled `Rats` with no `[o…] N` sibling layer raises `ValueError` instead of naming the clone `Blind 1`.
- `RatClone.NewBlindFacts`: built on the corrected `RatLayerName.NextName`, for the same reason.
- `LegacyInset.ExportContract`: built on the corrected `Process.IsAppImageExecutable`; as written, every program found outside an AppImage raises `NameError` (see Findings), so no export of the older copy runs there.
- `LegacyInset.ExportAgrees`: relates the corrected older export to the current one, for the same reason.
- `LegacyInset.RecreationAgrees`: relates the corrected older recreation to the current one, for the same reason.
- `LegacyInset.RecreateInset`: built on the corrected run of the programs, for the same reason.
- `LegacyInset.CreateNewInset`: built on the corrected run of the programs, for the same reason.
- `LegacyInset.Effect`: built on the corrected run of the programs, for the same reason.
- `CreateInset.Effect`: requires every layer id to be a name (non-empty, without white space). The stored list is read back with `split()`, which never gives back any other id (`Inset.NonNameNeverRead`) and turns an id holding a space into the pieces around it (`Inset.SpacedIdSplits`); what restoring visibility then does is not modelled.
- `LegacyInset.Effect`: requires layer ids that are names, for the same reason.
- `OldestInset.Effect`: requires the ids of the layers it records to be names, for the same reason.
- `Process.RunCommand`: `mangle_cmd_for_appimage` (in `inkex_bh/workarounds.py`, which is not part of this model) is treated as an opaque rewrite of the command line; whether the program is found and how it completes are inputs, so the rewritten command is not represented.
- `UpdateSymbols.ParseScale`: `\d` and `int()` are modelled on the ASCII digits `0`–`9`; Python also accepts other Unicode decimal digits.
- `RatLayerName.LabelMatchSound`: matches ASCII digits only, for the same reason.
- `Inset.DimensionLaw`: Python floats are modelled as exact reals, so the law holds up to rounding in the source; the same goes for `Inset.SizeAtMeaning`, `Bounds` and the placement arithmetic.
- `_get_data_path`: runs Inkscape; the data directories are inputs.
- Argument parsing and the extension boilerplate (`add_arguments`, `run`, `affect`).
- The "parallel?" idea in `inkex_bh/create_inset.py`: recreation stays sequential.
- `os.path.relpath` raising `ValueError` across Windows drives: paths are POSIX.
- `save` of the count-symbols extension writes nothing and has no state to model.

## Findings

| source | as written | input that shows it | evidently intended | confidence | as-written member | corrected member |
|---|---|---|---|---|---|---|
| inkscape_barnhunt/bh-create-inset.py:120-128 | outside an AppImage the generator uses `relpath` before any assignment, so `is_appimage_executable` raises `NameError` for every program that is found | `inkscape` on the search path with no `APPIMAGE` or `APPDIR` in the environment | return `False`, so the plain command runs | not executed | Process.AppImageCheckCounterexample | Process.IsAppImageExecutable |
| barnhunt/bh-hide-rats.py:259-262 | with no child label matching the pattern, `zip(*())` yields nothing to unpack and `_dwim_rat_layer_name` raises `ValueError` before `default=0` applies | a rat layer labelled `Rats` with no `[o…] N` sibling layer | the name `Blind 1` | not executed | RatLayerName.RatsAloneFails | RatLayerName.NextName |
