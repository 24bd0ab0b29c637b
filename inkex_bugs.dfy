/** The work-around for inkex's text bounding boxes: while the rat hider runs, every
    `text` and `tspan` element has its raw style saved in an `x-save-style` attribute
    and its font size negated; on the way out the saved styles are put back. The
    conversion of a font size to user units is an input (`convert`, `None` where
    inkex raises), and so is the printing of the negated number (`show`). */
module InkexBugs {
  import opened Wrappers
  import opened Svg
  import Style
  import Strings

  const SAVE := "x-save-style"
  const FONT_SIZE := "font-size"

  /** How entering the scope fails: the font-size conversion raised. */
  datatype Exc = ConversionError

  /** `//svg:text | //svg:tspan`. */
  predicate IsText(e: Element) {
    e.tag == Text || e.tag == Tspan
  }

  /** `elem.style.get('font-size')`. */
  function FontSize(e: Element): Option<string> {
    Style.Get(Style.Parsed(e.style), FONT_SIZE)
  }

  /** `elem.set("x-save-style", elem.get("style", None))`: setting `None` removes it. */
  function Saved(e: Element): Element {
    if e.style.Some? then SetAttr(e, SAVE, Str(e.style.value)) else e.(attrs := e.attrs - {SAVE})
  }

  /** `elem.style["font-size"] = -fontsize`. */
  function Negated(e: Element, size: real, show: real -> string): Element {
    e.(style := Some(Style.SetProperty(e.style, FONT_SIZE, show(-size))))
  }

  /** `elem.set("style", elem.attrib.pop("x-save-style", None))`. */
  function Restored(e: Element): Element {
    e.(style := Attr(e, SAVE), attrs := e.attrs - {SAVE})
  }

  /** The saved attribute holds the raw style, or is absent when there is none; nothing
      else about the element changes. */
  lemma SavedHoldsStyle(e: Element)
    ensures Attr(Saved(e), SAVE) == e.style
    ensures Saved(e).style == e.style && Saved(e).tag == e.tag && Saved(e).parent == e.parent
    ensures forall a | a != SAVE :: (a in Saved(e).attrs <==> a in e.attrs)
    ensures forall a | a != SAVE && a in e.attrs :: Saved(e).attrs[a] == e.attrs[a]
  {
  }

  /** The negated element shows the new font size and keeps every other style property. */
  lemma NegatedFontSize(e: Element, size: real, show: real -> string)
    requires Style.WellFormedDecl((FONT_SIZE, show(-size)))
    ensures FontSize(Negated(e, size, show)) == Some(show(-size))
    ensures forall p | p != FONT_SIZE ::
      Style.Get(Style.Parsed(Negated(e, size, show).style), p) == Style.Get(Style.Parsed(e.style), p)
    ensures Negated(e, size, show).attrs == e.attrs
  {
    Style.SetPropertyEffect(e.style, FONT_SIZE, show(-size));
  }

  /** Restoring undoes the save, with or without the negation in between, for an element
      that had no `x-save-style` of its own. */
  lemma RestoreUndoes(e: Element, size: real, show: real -> string)
    requires SAVE !in e.attrs
    ensures Restored(Saved(e)) == e
    ensures Restored(Negated(Saved(e), size, show)) == e
  {
    assert Saved(e).attrs - {SAVE} == e.attrs;
  }

  // ---- the loops, as functions of the element table ----

  type Elems = map<Node, Element>

  predicate Listed(es: Elems, ns: seq<Node>) {
    forall i | 0 <= i < |ns| :: ns[i] in es
  }

  predicate Increasing(ns: seq<Node>) {
    forall i, j | 0 <= i < j < |ns| :: ns[i] < ns[j]
  }

  /** The elements after the loop, the `mangled` list, and whether a conversion raised. */
  datatype Outcome = Outcome(elems: Elems, mangled: seq<Node>, failed: bool)

  /** The `for elem in ...` loop of `negate_fontsizes` over `ns`: save, convert, negate,
      append; a raising conversion ends the loop after the save. */
  function MangleFrom(es: Elems, ns: seq<Node>, convert: Option<string> -> Option<real>, show: real -> string): (r: Outcome)
    requires Listed(es, ns)
    ensures r.elems.Keys == es.Keys && Listed(r.elems, r.mangled)
    ensures |r.mangled| <= |ns| && (r.failed ==> |r.mangled| < |ns|)
    decreases |ns|
  {
    if ns == [] then Outcome(es, [], false)
    else
      var e := es[ns[0]];
      match convert(FontSize(e))
      case None => Outcome(es[ns[0] := Saved(e)], [], true)
      case Some(size) =>
        var rest := MangleFrom(es[ns[0] := Negated(Saved(e), size, show)], ns[1..], convert, show);
        Outcome(rest.elems, [ns[0]] + rest.mangled, rest.failed)
  }

  /** The `finally` loop over `ms`. */
  function RestoreAll(es: Elems, ms: seq<Node>): (r: Elems)
    requires Listed(es, ms)
    ensures r.Keys == es.Keys
    decreases |ms|
  {
    if ms == [] then es else RestoreAll(es[ms[0] := Restored(es[ms[0]])], ms[1..])
  }

  /** `mangled` is the prefix of `ns` whose conversions succeeded; the loop failed exactly
      when it stopped short. */
  lemma {:induction false} MangledPrefix(es: Elems, ns: seq<Node>, convert: Option<string> -> Option<real>, show: real -> string)
    requires Listed(es, ns)
    ensures var o := MangleFrom(es, ns, convert, show);
      && (forall i | 0 <= i < |o.mangled| :: o.mangled[i] == ns[i])
      && (o.failed <==> |o.mangled| < |ns|)
    decreases |ns|
  {
    if ns != [] {
      var e := es[ns[0]];
      match convert(FontSize(e))
      case None =>
      case Some(size) =>
        var es' := es[ns[0] := Negated(Saved(e), size, show)];
        MangleFromSome(es, ns, convert, show, size);
        MangledPrefix(es', ns[1..], convert, show);
        var rest := MangleFrom(es', ns[1..], convert, show).mangled;
        assert forall i | 0 < i <= |rest| :: ([ns[0]] + rest)[i] == rest[i - 1] == ns[1..][i - 1];
    }
  }

  /** An element the loop does not visit is left as it was. */
  lemma {:induction false} MangledUntouched(es: Elems, ns: seq<Node>, convert: Option<string> -> Option<real>, show: real -> string, n: Node)
    requires Listed(es, ns) && n in es && n !in ns
    ensures MangleFrom(es, ns, convert, show).elems[n] == es[n]
    decreases |ns|
  {
    if ns != [] {
      var e := es[ns[0]];
      if convert(FontSize(e)).Some? {
        assert n !in ns[1..];
        MangledUntouched(es[ns[0] := Negated(Saved(e), convert(FontSize(e)).value, show)], ns[1..], convert, show, n);
      }
    }
  }

  /** Each mangled element converted, and is saved and negated. */
  lemma {:induction false} MangledConverted(es: Elems, ns: seq<Node>, convert: Option<string> -> Option<real>, show: real -> string, i: nat)
    requires Listed(es, ns) && Increasing(ns)
    requires i < |MangleFrom(es, ns, convert, show).mangled|
    ensures var e := es[ns[i]];
      && convert(FontSize(e)).Some?
      && MangleFrom(es, ns, convert, show).elems[ns[i]] == Negated(Saved(e), convert(FontSize(e)).value, show)
    decreases |ns|
  {
    var e := es[ns[0]];
    var es' := es[ns[0] := Negated(Saved(e), convert(FontSize(e)).value, show)];
    if i == 0 {
      assert ns[0] !in ns[1..];
      MangledUntouched(es', ns[1..], convert, show, ns[0]);
    } else {
      assert ns[1..][i - 1] == ns[i] && ns[0] < ns[i];
      MangledConverted(es', ns[1..], convert, show, i - 1);
    }
  }

  /** The first turn of the loop when the conversion succeeds. */
  lemma MangleFromSome(es: Elems, ns: seq<Node>, convert: Option<string> -> Option<real>, show: real -> string, size: real)
    requires Listed(es, ns) && ns != [] && convert(FontSize(es[ns[0]])) == Some(size)
    ensures var es' := es[ns[0] := Negated(Saved(es[ns[0]]), size, show)];
      && Listed(es', ns[1..])
      && var r := MangleFrom(es', ns[1..], convert, show);
      MangleFrom(es, ns, convert, show) == Outcome(r.elems, [ns[0]] + r.mangled, r.failed)
  {
  }

  /** The element the loop stopped at is saved only. */
  lemma {:induction false} MangledStopped(es: Elems, ns: seq<Node>, convert: Option<string> -> Option<real>, show: real -> string)
    requires Listed(es, ns) && Increasing(ns)
    requires MangleFrom(es, ns, convert, show).failed
    ensures var o := MangleFrom(es, ns, convert, show); var e := es[ns[|o.mangled|]];
      && convert(FontSize(e)).None?
      && o.elems[ns[|o.mangled|]] == Saved(e)
    decreases |ns|
  {
    var o := MangleFrom(es, ns, convert, show);
    var e := es[ns[0]];
    match convert(FontSize(e))
    case None =>
      assert o == Outcome(es[ns[0] := Saved(e)], [], true);
    case Some(size) =>
      var es' := es[ns[0] := Negated(Saved(e), size, show)];
      MangleFromSome(es, ns, convert, show, size);
      var o' := MangleFrom(es', ns[1..], convert, show);
      MangledStopped(es', ns[1..], convert, show);
      var k := |o'.mangled|;
      assert |o.mangled| == k + 1 && o.elems == o'.elems;
      assert ns[1..][k] == ns[k + 1] && ns[0] < ns[k + 1];
      assert es'[ns[k + 1]] == es[ns[k + 1]];
  }

  /** The elements after the one the loop stopped at are left as they were. */
  lemma {:induction false} MangledAfter(es: Elems, ns: seq<Node>, convert: Option<string> -> Option<real>, show: real -> string, i: nat)
    requires Listed(es, ns) && Increasing(ns)
    requires |MangleFrom(es, ns, convert, show).mangled| < i < |ns|
    ensures MangleFrom(es, ns, convert, show).elems[ns[i]] == es[ns[i]]
    decreases |ns|
  {
    var e := es[ns[0]];
    assert ns[0] < ns[i];
    if convert(FontSize(e)).Some? {
      assert ns[1..][i - 1] == ns[i];
      MangledAfter(es[ns[0] := Negated(Saved(e), convert(FontSize(e)).value, show)], ns[1..], convert, show, i - 1);
    }
  }

  /** The `finally` loop element by element: the listed elements are restored, the rest kept. */
  lemma {:induction false} RestoreAllAt(es: Elems, ms: seq<Node>, n: Node)
    requires Listed(es, ms) && Increasing(ms) && n in es
    ensures RestoreAll(es, ms)[n] == if n in ms then Restored(es[n]) else es[n]
    decreases |ms|
  {
    if ms != [] {
      RestoreAllAt(es[ms[0] := Restored(es[ms[0]])], ms[1..], n);
      if n == ms[0] {
        assert forall i | 0 < i < |ms| :: ms[0] < ms[i];
        assert n !in ms[1..];
      }
    }
  }

  /** A listed element that was neither mangled nor the one that raised lies past the stop. */
  lemma PastStop(ns: seq<Node>, ms: seq<Node>, failed: bool, i: int)
    requires |ms| <= |ns| && (forall j | 0 <= j < |ms| :: ms[j] == ns[j])
    requires failed <==> |ms| < |ns|
    requires 0 <= i < |ns| && ns[i] !in ms && !(failed && ns[i] == ns[|ms|])
    ensures |ms| < i
  {
  }

  /** What the scope leaves behind at one element. */
  lemma ScopeRestoresAt(es: Elems, ns: seq<Node>, convert: Option<string> -> Option<real>, show: real -> string, n: Node)
    requires Listed(es, ns) && Increasing(ns) && n in es
    requires forall i | 0 <= i < |ns| :: SAVE !in es[ns[i]].attrs
    ensures var o := MangleFrom(es, ns, convert, show); var k := |o.mangled|;
      RestoreAll(o.elems, o.mangled)[n] == if o.failed && n == ns[k] then Saved(es[n]) else es[n]
  {
    var o := MangleFrom(es, ns, convert, show);
    var k := |o.mangled|;
    MangledPrefix(es, ns, convert, show);
    assert Increasing(o.mangled) by {
      assert forall i | 0 <= i < k :: o.mangled[i] == ns[i];
    }
    RestoreAllAt(o.elems, o.mangled, n);
    if n in o.mangled {
      var i :| 0 <= i < k && o.mangled[i] == n;
      assert ns[i] == n;
      MangledConverted(es, ns, convert, show, i);
      RestoreUndoes(es[n], convert(FontSize(es[n])).value, show);
    } else if o.failed && n == ns[k] {
      MangledStopped(es, ns, convert, show);
    } else if n in ns {
      var i :| 0 <= i < |ns| && ns[i] == n;
      PastStop(ns, o.mangled, o.failed, i);
      MangledAfter(es, ns, convert, show, i);
    } else {
      MangledUntouched(es, ns, convert, show, n);
    }
  }

  /** The scope leaves the document as it found it: after a normal run the `finally` loop
      gives back every element; after a failed conversion it gives back every element but
      the one that raised, which keeps its `x-save-style`. */
  lemma ScopeRestores(es: Elems, ns: seq<Node>, convert: Option<string> -> Option<real>, show: real -> string)
    requires Listed(es, ns) && Increasing(ns)
    requires forall i | 0 <= i < |ns| :: SAVE !in es[ns[i]].attrs
    ensures var o := MangleFrom(es, ns, convert, show); var back := RestoreAll(o.elems, o.mangled);
      && (!o.failed ==> back == es)
      && (o.failed ==> back == es[ns[|o.mangled|] := Saved(es[ns[|o.mangled|]])])
  {
    var o := MangleFrom(es, ns, convert, show);
    var k := |o.mangled|;
    var back := RestoreAll(o.elems, o.mangled);
    var want := if o.failed then es[ns[k] := Saved(es[ns[k]])] else es;
    forall n | n in es
      ensures back[n] == want[n]
    {
      ScopeRestoresAt(es, ns, convert, show, n);
    }
    assert back == want;
  }

  /** The loop invariant of the mangling loop: what is left to do, from `es`, finishes the
      whole run once `mangled` is put in front. */
  ghost predicate MangledSoFar(whole: Outcome, es: Elems, rest: seq<Node>, mangled: seq<Node>, convert: Option<string> -> Option<real>, show: real -> string)
    requires Listed(es, rest)
  {
    var o := MangleFrom(es, rest, convert, show);
    whole.elems == o.elems && whole.mangled == mangled + o.mangled && whole.failed == o.failed
  }

  /** A conversion that succeeds moves the loop one element on. */
  lemma MangleAdvance(whole: Outcome, es: Elems, ns: seq<Node>, i: nat, mangled: seq<Node>, convert: Option<string> -> Option<real>, show: real -> string, size: real)
    requires Listed(es, ns) && i < |ns| && MangledSoFar(whole, es, ns[i..], mangled, convert, show)
    requires convert(FontSize(es[ns[i]])) == Some(size)
    ensures var es1 := es[ns[i] := Negated(Saved(es[ns[i]]), size, show)];
      Listed(es1, ns) && MangledSoFar(whole, es1, ns[i + 1..], mangled + [ns[i]], convert, show)
  {
    assert ns[i..][0] == ns[i] && ns[i..][1..] == ns[i + 1..];
    var es1 := es[ns[i] := Negated(Saved(es[ns[i]]), size, show)];
    Strings.AppendAssoc(mangled, [ns[i]], MangleFrom(es1, ns[i + 1..], convert, show).mangled);
  }

  /** A conversion that raises ends the whole run, after the save. */
  lemma MangleStops(whole: Outcome, es: Elems, ns: seq<Node>, i: nat, mangled: seq<Node>, convert: Option<string> -> Option<real>, show: real -> string)
    requires Listed(es, ns) && i < |ns| && MangledSoFar(whole, es, ns[i..], mangled, convert, show)
    requires convert(FontSize(es[ns[i]])).None?
    ensures whole == Outcome(es[ns[i] := Saved(es[ns[i]])], mangled, true)
  {
    assert ns[i..][0] == ns[i];
  }

  /** A `negate_fontsizes` scope in a document: the `mangled` list it keeps. */
  class FontSizeScope {
    const doc: Document
    var mangled: seq<Node>

    constructor(d: Document)
      ensures doc == d && mangled == []
    {
      doc := d;
      mangled := [];
    }

    /** One turn of the loop: the save is written first, then the conversion may raise,
        and only a negated element is appended to `mangled`. */
    method MangleOne(n: Node, convert: Option<string> -> Option<real>, show: real -> string) returns (ok: bool)
      requires doc.Valid() && n in doc.tree.elems
      modifies this, doc
      ensures doc.Valid() && doc.tree.next == old(doc.tree.next)
      ensures var e := old(doc.tree.elems)[n]; var size := convert(FontSize(e));
        && ok == size.Some?
        && (ok ==> doc.tree.elems == old(doc.tree.elems)[n := Negated(Saved(e), size.value, show)] && mangled == old(mangled) + [n])
        && (!ok ==> doc.tree.elems == old(doc.tree.elems)[n := Saved(e)] && mangled == old(mangled))
    {
      var e := doc.tree.elems[n];
      doc.SetElement(n, Saved(e));
      var size := convert(FontSize(e));
      if size.None? {
        return false;
      }
      doc.SetElement(n, Negated(Saved(e), size.value, show));
      UpdateTwice(old(doc.tree), n, Saved(e), Negated(Saved(e), size.value, show));
      mangled := mangled + [n];
      return true;
    }

    /** The loop over `ns`, stopping at the first conversion that raises. */
    method MangleEach(ns: seq<Node>, convert: Option<string> -> Option<real>, show: real -> string) returns (failed: bool)
      requires doc.Valid() && Listed(doc.tree.elems, ns) && mangled == []
      modifies this, doc
      ensures doc.Valid() && doc.tree.next == old(doc.tree.next)
      ensures var o := MangleFrom(old(doc.tree.elems), ns, convert, show);
        doc.tree.elems == o.elems && mangled == o.mangled && failed == o.failed
    {
      ghost var whole := MangleFrom(doc.tree.elems, ns, convert, show);
      var i := 0;
      failed := false;
      assert ns[i..] == ns && mangled + whole.mangled == whole.mangled;
      while i < |ns|
        invariant 0 <= i <= |ns| && doc.Valid() && doc.tree.next == old(doc.tree.next)
        invariant Listed(doc.tree.elems, ns)
        invariant MangledSoFar(whole, doc.tree.elems, ns[i..], mangled, convert, show)
        decreases |ns| - i
      {
        ghost var es, before := doc.tree.elems, mangled;
        var ok := MangleOne(ns[i], convert, show);
        if !ok {
          MangleStops(whole, es, ns, i, before, convert, show);
          failed := true;
          return;
        }
        MangleAdvance(whole, es, ns, i, before, convert, show, convert(FontSize(es[ns[i]])).value);
        i := i + 1;
      }
      assert ns[i..] == [] && mangled + [] == mangled;
    }

    /** The `finally` clause: each mangled element gets its saved style back and loses
        `x-save-style`. */
    method Restore()
      requires doc.Valid() && Listed(doc.tree.elems, mangled)
      modifies doc
      ensures doc.Valid() && doc.tree.next == old(doc.tree.next)
      ensures doc.tree.elems == RestoreAll(old(doc.tree.elems), mangled)
    {
      for i := 0 to |mangled|
        invariant doc.Valid() && doc.tree.next == old(doc.tree.next) && Listed(doc.tree.elems, mangled)
        invariant RestoreAll(doc.tree.elems, mangled[i..]) == RestoreAll(old(doc.tree.elems), mangled)
      {
        var n := mangled[i];
        assert mangled[i..][0] == n && mangled[i..][1..] == mangled[i + 1..];
        var e := doc.tree.elems[n];
        var saved := Attr(e, SAVE);
        doc.SetElement(n, e.(style := saved, attrs := e.attrs - {SAVE}));
      }
    }

    /** `negate_fontsizes` up to its `yield`. A raising conversion runs the `finally`
        clause for what was mangled so far and propagates. */
    method Negate(convert: Option<string> -> Option<real>, show: real -> string) returns (r: Result<(), Exc>)
      requires doc.Valid() && mangled == []
      modifies this, doc
      ensures doc.Valid() && doc.tree.next == old(doc.tree.next)
      ensures var o := MangleFrom(old(doc.tree.elems), All(old(doc.tree), IsText), convert, show);
        && mangled == o.mangled && (r.Failure? <==> o.failed)
        && doc.tree.elems == if o.failed then RestoreAll(o.elems, o.mangled) else o.elems
    {
      var texts := All(doc.tree, IsText);
      var failed := MangleEach(texts, convert, show);
      if failed {
        Restore();
        return Failure(ConversionError);
      }
      return Success(());
    }

    /** Entering `text_bbox_hack`: the scope is entered only when the probe reports the
        bounding boxes buggy; otherwise nothing is mangled and the document is untouched. */
    method EnterHack(buggy: bool, convert: Option<string> -> Option<real>, show: real -> string) returns (r: Result<(), Exc>)
      requires doc.Valid() && mangled == []
      modifies this, doc
      ensures doc.Valid() && doc.tree.next == old(doc.tree.next)
      ensures !buggy ==> r.Success? && mangled == [] && doc.tree == old(doc.tree)
      ensures buggy ==> var o := MangleFrom(old(doc.tree.elems), All(old(doc.tree), IsText), convert, show);
        && mangled == o.mangled && (r.Failure? <==> o.failed)
        && doc.tree.elems == if o.failed then RestoreAll(o.elems, o.mangled) else o.elems
    {
      if buggy {
        r := Negate(convert, show);
      } else {
        r := Success(());
      }
    }
  }

  /** With the scope's own `All` query: the text elements are listed in document order,
      so `ScopeRestores` applies to every document whose text elements carry no
      `x-save-style` beforehand. */
  lemma TextsIncreasing(t: Tree)
    requires WellFormed(t)
    ensures Listed(t.elems, All(t, IsText)) && Increasing(All(t, IsText))
  {
  }
}
