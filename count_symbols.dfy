/** Counting the symbols a drawing places: each `<use>` of a symbol counts that symbol
    (or the name its `bh:count-as` attribute gives), and each `<use>` of a group counts
    everything the group places, recursively, with each id's count remembered once
    computed. The two copies of the extension share this logic. */
module CountSymbols {
  import opened Wrappers
  import opened Strings
  import opened Xml

  const HREF: string := "xlink:href"
  const COUNT_AS: string := "bh:count-as"

  /** How a count gives up: the href assertion, or Python's recursion limit. */
  datatype Exc = AssertionError | RecursionError

  /** "WARNING: found n elements for id ..." */
  datatype Note = Matches(n: nat, id: string)

  // ---- the document ----

  /** Every element of the document (the xpath `//` axis): the root and everything below it, in document order. */
  function Elements(root: XNode): seq<XNode> {
    [root] + Descendants(root)
  }

  /** The elements of `xs` whose id is `id`, in order. */
  function Matching(xs: seq<XNode>, id: string): seq<XNode> {
    if xs == [] then []
    else (if Id(xs[0]) == Some(id) then [xs[0]] else []) + Matching(xs[1..], id)
  }

  /** The matches are exactly the elements with the id. */
  lemma {:induction false} MatchingExact(xs: seq<XNode>, id: string)
    ensures forall x :: x in Matching(xs, id) <==> x in xs && Id(x) == Some(id)
  {
    if xs != [] {
      MatchingExact(xs[1..], id);
      assert xs == [xs[0]] + xs[1..];
    }
  }

  /** The first match comes no later than any element with the id. */
  lemma {:induction false} MatchingFirst(xs: seq<XNode>, id: string, k: nat)
    requires k < |xs| && Id(xs[k]) == Some(id)
    ensures Matching(xs, id) != [] && Matching(xs, id)[0] in xs[..k + 1]
  {
    if Id(xs[0]) != Some(id) {
      MatchingFirst(xs[1..], id, k - 1);
      assert xs[1..][..k] == xs[1..k + 1];
    }
  }

  /** `_get_elem_by_id`: the first element with the id, or None. */
  function ElemById(root: XNode, id: string): Option<XNode> {
    var ms := Matching(Elements(root), id);
    if ms == [] then None else Some(ms[0])
  }

  /** An element is found exactly when some element of the document has the id, and what
      is found is the first such element. */
  lemma ElemByIdFinds(root: XNode, id: string)
    ensures ElemById(root, id).Some? <==> exists x :: x in Elements(root) && Id(x) == Some(id)
    ensures ElemById(root, id).Some? ==> ElemById(root, id).value in Elements(root) && Id(ElemById(root, id).value) == Some(id)
    ensures forall k | 0 <= k < |Elements(root)| && Id(Elements(root)[k]) == Some(id) :: ElemById(root, id).Some? && ElemById(root, id).value in Elements(root)[..k + 1]
  {
    MatchingExact(Elements(root), id);
    forall k | 0 <= k < |Elements(root)| && Id(Elements(root)[k]) == Some(id)
      ensures ElemById(root, id).Some? && ElemById(root, id).value in Elements(root)[..k + 1]
    {
      MatchingFirst(Elements(root), id, k);
    }
    var ms := Matching(Elements(root), id);
    if ms != [] {
      assert ms[0] in ms;
    }
  }

  /** A `<use>` whose `xlink:href` starts with `#`. */
  predicate IsRef(x: XNode) {
    x.tag == Use && HREF in x.attrs && StartsWith(x.attrs[HREF], "#")
  }

  /** The hrefs of the references among `xs`, in order. */
  function RefsIn(xs: seq<XNode>): (r: seq<string>)
    ensures forall k | 0 <= k < |r| :: StartsWith(r[k], "#")
  {
    if xs == [] then []
    else (if IsRef(xs[0]) then [xs[0].attrs[HREF]] else []) + RefsIn(xs[1..])
  }

  /** `descendant-or-self::svg:use/@xlink:href[starts-with(.,'#')]`. */
  function UseRefs(e: XNode): seq<string> {
    RefsIn([e] + Descendants(e))
  }

  /** What `symbol_counts` asserts of its argument. */
  predicate ValidHref(h: string) {
    |h| > 1 && h[0] == '#'
  }

  /** The name a symbol is counted under: `bh:count-as`, else `#id`. */
  function CountAs(e: XNode, id: string): string {
    if COUNT_AS in e.attrs then e.attrs[COUNT_AS] else "#" + id
  }

  // ---- the counts, with a bound on the depth of recursion ----

  /** A `Counter` of names, held as the names it counted in the order they were added: the
      count of a name is its multiplicity, and the counter's key order is the order in which
      the names first occur. Adding two counters (`+`) keeps the keys of the left one, then
      the new keys of the right one in their order, which is what concatenation gives. */
  type Tally = seq<string>

  /** `_count_symbols(id)` when at most `fuel` nested counts are possible: the empty count
      for a missing id, one of the symbol's name for a symbol, and the sum of the counts
      of every reference inside anything else. */
  function Count(root: XNode, id: string, fuel: nat): Result<Tally, Exc>
    decreases fuel, 0, 0
  {
    if fuel == 0 then Failure(RecursionError)
    else match ElemById(root, id)
      case None => Success([])
      case Some(e) =>
        if e.tag == Symbol then Success([CountAs(e, id)])
        else SumOf(root, UseRefs(e), fuel - 1)
  }

  /** `sum(map(symbol_counts, hrefs), Counter())`, left to right. */
  function SumOf(root: XNode, hrefs: seq<string>, fuel: nat): Result<Tally, Exc>
    decreases fuel, 1, |hrefs|
  {
    if hrefs == [] then Success([])
    else if !ValidHref(hrefs[0]) then Failure(AssertionError)
    else match Count(root, hrefs[0][1..], fuel)
      case Failure(e) => Failure(e)
      case Success(a) =>
        match SumOf(root, hrefs[1..], fuel)
        case Failure(e) => Failure(e)
        case Success(b) => Success(a + b)
  }

  /** A count that is reached is the same with any deeper bound: the count of an id does not
      depend on how deep it was computed. */
  lemma {:induction false} CountMonotone(root: XNode, id: string, f: nat, g: nat)
    requires f <= g && Count(root, id, f).Success?
    ensures Count(root, id, g) == Count(root, id, f)
    decreases f, 0, 0
  {
    var e := ElemById(root, id);
    if e.Some? && e.value.tag != Symbol {
      SumMonotone(root, UseRefs(e.value), f - 1, g - 1);
    }
  }

  lemma {:induction false} SumMonotone(root: XNode, hs: seq<string>, f: nat, g: nat)
    requires f <= g && SumOf(root, hs, f).Success?
    ensures SumOf(root, hs, g) == SumOf(root, hs, f)
    decreases f, 1, |hs|
  {
    if hs != [] {
      CountMonotone(root, hs[0][1..], f, g);
      SumMonotone(root, hs[1..], f, g);
    }
  }

  /** Two reached counts of the same id agree. */
  lemma CountsAgree(root: XNode, id: string, f: nat, g: nat)
    requires Count(root, id, f).Success? && Count(root, id, g).Success?
    ensures Count(root, id, f) == Count(root, id, g)
  {
    if f <= g {
      CountMonotone(root, id, f, g);
    } else {
      CountMonotone(root, id, g, f);
    }
  }

  /** Two reached sums of the same references agree. */
  lemma SumsAgree(root: XNode, hs: seq<string>, f: nat, g: nat)
    requires SumOf(root, hs, f).Success? && SumOf(root, hs, g).Success?
    ensures SumOf(root, hs, f) == SumOf(root, hs, g)
  {
    if f <= g {
      SumMonotone(root, hs, f, g);
    } else {
      SumMonotone(root, hs, g, f);
    }
  }

  /** A sum that is reached reached every one of its terms. */
  lemma {:induction false} SumOfParts(root: XNode, hs: seq<string>, f: nat, k: nat)
    requires SumOf(root, hs, f).Success? && k < |hs|
    ensures ValidHref(hs[k]) && Count(root, hs[k][1..], f).Success?
  {
    if k > 0 {
      SumOfParts(root, hs[1..], f, k - 1);
    }
  }

  /** One more reference adds its count to the sum. */
  lemma {:induction false} SumOfSnoc(root: XNode, hs: seq<string>, h: string, f: nat)
    requires SumOf(root, hs, f).Success? && ValidHref(h) && Count(root, h[1..], f).Success?
    ensures SumOf(root, hs + [h], f) == Success(SumOf(root, hs, f).value + Count(root, h[1..], f).value)
  {
    if hs != [] {
      assert (hs + [h])[0] == hs[0] && (hs + [h])[1..] == hs[1..] + [h];
      SumOfSnoc(root, hs[1..], h, f);
      var a := Count(root, hs[0][1..], f).value;
      var b := SumOf(root, hs[1..], f).value;
      var c := Count(root, h[1..], f).value;
      assert SumOf(root, hs + [h], f) == Success(a + (b + c));
      assert a + (b + c) == (a + b) + c;
    } else {
      var a := Count(root, h[1..], f).value;
      assert [h][1..] == [] && [h][0] == h;
      assert SumOf(root, [h], f) == Success(a + []);
      assert hs + [h] == [h] && [] + a == a + [];
    }
  }

  /** One more reference counted at depth `d` extends a sum reached at depth `f`, at the
      larger of the two. */
  lemma SumStep(root: XNode, hs: seq<string>, k: nat, total: Tally, f: nat, c: Tally, d: nat)
    requires k < |hs| && ValidHref(hs[k])
    requires SumOf(root, hs[..k], f) == Success(total) && Count(root, hs[k][1..], d) == Success(c)
    ensures SumOf(root, hs[..k + 1], if f < d then d else f) == Success(total + c)
  {
    var g := if f < d then d else f;
    SumMonotone(root, hs[..k], f, g);
    CountMonotone(root, hs[k][1..], d, g);
    assert hs[..k + 1] == hs[..k] + [hs[k]];
    SumOfSnoc(root, hs[..k], hs[k], g);
  }

  /** A group that places itself is never counted, whatever the depth allowed: the source
      recurses until Python gives up. */
  lemma {:induction false} SelfReferenceFails(root: XNode, id: string, f: nat)
    requires ElemById(root, id).Some? && ElemById(root, id).value.tag != Symbol
    requires "#" + id in UseRefs(ElemById(root, id).value)
    ensures Count(root, id, f).Failure?
  {
    if f > 0 {
      var refs := UseRefs(ElemById(root, id).value);
      var k :| 0 <= k < |refs| && refs[k] == "#" + id;
      assert refs[k][1..] == id;
      if SumOf(root, refs, f - 1).Success? {
        SumOfParts(root, refs, f - 1, k);
        SelfReferenceFails(root, id, f - 1);
      }
    }
  }

  // ---- the memo ----

  /** The warnings `_get_elem_by_id` writes: an id matching other than one element. */
  predicate Warnings(root: XNode, notes: seq<Note>) {
    forall k | 0 <= k < |notes| :: notes[k].n == |Matching(Elements(root), notes[k].id)| && notes[k].n != 1
  }

  /** Whether `_get_elem_by_id` warns about `id`: it matches other than one element. */
  predicate Mismatched(root: XNode, id: string) {
    |Matching(Elements(root), id)| != 1
  }

  /** The warning `_get_elem_by_id` writes about `id`. */
  function NoteFor(root: XNode, id: string): Note {
    Matches(|Matching(Elements(root), id)|, id)
  }

  /** Every href of `hs` is well formed and names an id of `ids`. */
  ghost predicate Listed(hs: seq<string>, ids: set<string>) {
    forall h | h in hs :: ValidHref(h) && h[1..] in ids
  }

  /** One more href, named in a larger set. */
  lemma ListedMore(hs: seq<string>, h: string, ids: set<string>, ids': set<string>)
    requires Listed(hs, ids) && ids <= ids' && ValidHref(h) && h[1..] in ids'
    ensures Listed(hs + [h], ids')
  {
  }

  /** Naming hrefs in a set names them in any larger one. */
  lemma ListedGrow(hs: seq<string>, ids: set<string>, ids': set<string>)
    requires Listed(hs, ids) && ids <= ids'
    ensures Listed(hs, ids')
  {
  }

  /** The hrefs the count of `id` goes on to: those inside its element, unless that is a
      symbol or missing. */
  function GroupRefs(root: XNode, id: string): seq<string> {
    var e := ElemById(root, id);
    if e.Some? && e.value.tag != Symbol then UseRefs(e.value) else []
  }

  /** A set of ids that holds, with each id, every id its count goes on to: it holds every
      id a count starting inside it goes through. */
  ghost predicate Closed(root: XNode, ids: set<string>) {
    forall id {:trigger GroupRefs(root, id)} :: id in ids ==> Listed(GroupRefs(root, id), ids)
  }

  /** Every id of `ids` that matches other than one element has had its warning written. */
  ghost predicate Noted(root: XNode, ids: set<string>, emitted: seq<Note>) {
    forall id {:trigger NoteFor(root, id)} :: id in ids && Mismatched(root, id) ==> NoteFor(root, id) in emitted
  }

  lemma NotedMore(root: XNode, ids: set<string>, emitted: seq<Note>, more: seq<Note>)
    requires Noted(root, ids, emitted)
    ensures Noted(root, ids, emitted + more)
  {
    forall id | id in ids && Mismatched(root, id) ensures NoteFor(root, id) in emitted + more {
      var k :| 0 <= k < |emitted| && emitted[k] == NoteFor(root, id);
      assert (emitted + more)[k] == emitted[k];
    }
  }

  lemma NotedAdd(root: XNode, ids: set<string>, emitted: seq<Note>, id: string)
    requires Noted(root, ids, emitted) && (Mismatched(root, id) ==> NoteFor(root, id) in emitted)
    ensures Noted(root, ids + {id}, emitted)
  {
  }

  /** Remembering a group whose references are remembered keeps the set closed. */
  lemma ClosedAdd(root: XNode, ids: set<string>, id: string)
    requires Closed(root, ids) && Listed(GroupRefs(root, id), ids)
    ensures Closed(root, ids + {id})
  {
    forall i | i in ids + {id} ensures Listed(GroupRefs(root, i), ids + {id}) {
      ListedGrow(GroupRefs(root, i), ids, ids + {id});
    }
  }

  /** The memo of a `SymbolCounter`: every remembered count is the id's count; the ids a
      remembered group references are remembered too, and each remembered id that matches
      other than one element has had its warning written. */
  ghost predicate Memo(doc: XNode, counts: map<string, Tally>, depth: map<string, nat>, emitted: seq<Note>) {
    && counts.Keys == depth.Keys
    && (forall id | id in counts :: Count(doc, id, depth[id]) == Success(counts[id]))
    && Closed(doc, counts.Keys)
    && Noted(doc, counts.Keys, emitted)
  }

  /** Remembering the count of an id whose references are remembered and whose warning is
      written keeps the memo sound. */
  lemma MemoAdd(doc: XNode, counts: map<string, Tally>, depth: map<string, nat>, emitted: seq<Note>, id: string, c: Tally, f: nat)
    requires Memo(doc, counts, depth, emitted) && Count(doc, id, f) == Success(c)
    requires Listed(GroupRefs(doc, id), counts.Keys)
    requires Mismatched(doc, id) ==> NoteFor(doc, id) in emitted
    ensures Memo(doc, counts[id := c], depth[id := f], emitted)
  {
    NotedAdd(doc, counts.Keys, emitted, id);
    ClosedAdd(doc, counts.Keys, id);
    assert counts[id := c].Keys == counts.Keys + {id};
  }

  /** Writing more warnings keeps the memo sound. */
  lemma MemoMore(doc: XNode, counts: map<string, Tally>, depth: map<string, nat>, emitted: seq<Note>, more: seq<Note>)
    requires Memo(doc, counts, depth, emitted)
    ensures Memo(doc, counts, depth, emitted + more)
  {
    NotedMore(doc, counts.Keys, emitted, more);
  }

  /** The warnings of `_count_symbols(id)`: the one `_get_elem_by_id` writes for `id`,
      if any, and then those written while counting what it references. */
  lemma NotesJoin(doc: XNode, id: string, notes: seq<Note>, more: seq<Note>, before: seq<Note>, after: seq<Note>)
    requires notes == (if Mismatched(doc, id) then [NoteFor(doc, id)] else [])
    requires Warnings(doc, more) && after == before + notes + more
    ensures Warnings(doc, notes + more) && after == before + (notes + more)
    ensures Mismatched(doc, id) <==> |notes + more| > 0 && (notes + more)[0] == NoteFor(doc, id)
  {
    AppendAssoc(before, notes, more);
    WarningsAppend(doc, notes, more);
    if notes == [] {
      assert notes + more == more;
    } else {
      assert (notes + more)[0] == notes[0];
    }
  }

  /** Remembering a new id keeps every earlier count. */
  lemma ExtendsAdd(a: map<string, Tally>, b: map<string, Tally>, id: string, c: Tally)
    requires Extends(a, b) && id !in a
    ensures Extends(a, b[id := c])
  {
  }

  /** `SymbolCounter`: counts by id, each computed once and then remembered. */
  class SymbolCounter {
    const doc: XNode
    var counts: map<string, Tally>
    /** For each remembered id, a recursion depth at which its count is reached. */
    ghost var depth: map<string, nat>
    /** Every warning written so far. */
    ghost var emitted: seq<Note>

    /** Every remembered count is the id's count; the ids a remembered group references
        are remembered too, and each remembered id that matches other than one element has
        had its warning written. */
    ghost predicate Valid()
      reads this
    {
      Memo(doc, counts, depth, emitted)
    }

    constructor(doc: XNode)
      ensures Valid() && this.doc == doc && counts == map[] && emitted == []
    {
      this.doc := doc;
      counts := map[];
      depth := map[];
      emitted := [];
    }

    /** `symbol_counts(href)` with at most `fuel` nested counts left: a remembered id is
        answered from memory; otherwise the id is counted and remembered. */
    method SymbolCounts(href: string, fuel: nat) returns (r: Result<Tally, Exc>, notes: seq<Note>)
      requires Valid()
      modifies this
      ensures Valid()
      ensures Extends(old(counts), counts)
      ensures !ValidHref(href) ==> r == Failure(AssertionError)
      ensures ValidHref(href) && href[1..] in old(counts) ==> r == Success(old(counts)[href[1..]]) && counts == old(counts) && notes == []
      ensures r.Success? ==> ValidHref(href) && href[1..] in counts && r.value == counts[href[1..]]
      ensures ValidHref(href) && Count(doc, href[1..], fuel).Success? ==> r == Count(doc, href[1..], fuel)
      ensures Warnings(doc, notes) && emitted == old(emitted) + notes
      decreases fuel, 3
    {
      if !ValidHref(href) {
        return Failure(AssertionError), [];
      }
      var id := href[1..];
      if id in counts {
        if Count(doc, id, fuel).Success? {
          CountsAgree(doc, id, depth[id], fuel);
        }
        return Success(counts[id]), [];
      }
      r, notes := CountNew(id, fuel);
    }

    /** `self.counts[xml_id] = self._count_symbols(xml_id)` for an id not yet remembered. */
    method CountNew(id: string, fuel: nat) returns (r: Result<Tally, Exc>, notes: seq<Note>)
      requires Valid() && id !in counts
      modifies this
      ensures Valid()
      ensures Extends(old(counts), counts)
      ensures r.Success? ==> id in counts && r.value == counts[id]
      ensures Count(doc, id, fuel).Success? ==> r == Count(doc, id, fuel)
      ensures Warnings(doc, notes) && emitted == old(emitted) + notes
      decreases fuel, 2
    {
      ghost var f;
      r, notes, f := CountId(id, fuel);
      if r.Success? {
        if id in counts {
          CountsAgree(doc, id, f, depth[id]);
        }
        assert Mismatched(doc, id) ==> NoteFor(doc, id) in emitted by {
          if Mismatched(doc, id) {
            assert emitted[|old(emitted)|] == notes[0];
          }
        }
        MemoAdd(doc, counts, depth, emitted, id, r.value, f);
        ExtendsAdd(old(counts), counts, id, r.value);
        counts, depth := counts[id := r.value], depth[id := f];
      }
    }

    /** `_count_symbols(id)` with at most `fuel` nested counts left: nothing for a missing
        id, the symbol's name for a symbol, and the sum of the counts of the references
        inside anything else. */
    method CountId(id: string, fuel: nat) returns (r: Result<Tally, Exc>, notes: seq<Note>, ghost f: nat)
      requires Valid()
      modifies this
      ensures Valid()
      ensures Extends(old(counts), counts)
      ensures r.Success? ==> Count(doc, id, f) == r && fuel > 0
      ensures Count(doc, id, fuel).Success? ==> r == Count(doc, id, fuel)
      ensures Warnings(doc, notes) && emitted == old(emitted) + notes
      ensures fuel > 0 ==> (Mismatched(doc, id) <==> |notes| > 0 && notes[0] == NoteFor(doc, id))
      ensures r.Success? ==> Listed(GroupRefs(doc, id), counts.Keys)
      decreases fuel, 1
    {
      if fuel == 0 {
        return Failure(RecursionError), [], 0;
      }
      var n := |Matching(Elements(doc), id)|;
      notes := if n != 1 then [Matches(n, id)] else [];
      assert notes == (if Mismatched(doc, id) then [NoteFor(doc, id)] else []);
      MemoMore(doc, counts, depth, emitted, notes);
      emitted := emitted + notes;
      var more;
      r, more, f := CountFound(id, fuel);
      NotesJoin(doc, id, notes, more, old(emitted), emitted);
      notes := notes + more;
    }

    /** The rest of `_count_symbols(id)` once `_get_elem_by_id` has looked `id` up: the
        count, and the warnings written while counting the references inside it. */
    method CountFound(id: string, fuel: nat) returns (r: Result<Tally, Exc>, more: seq<Note>, ghost f: nat)
      requires Valid() && fuel > 0
      modifies this
      ensures Valid()
      ensures Extends(old(counts), counts)
      ensures r.Success? ==> Count(doc, id, f) == r && f > 0
      ensures Count(doc, id, fuel).Success? ==> r == Count(doc, id, fuel)
      ensures Warnings(doc, more) && emitted == old(emitted) + more
      ensures r.Success? ==> Listed(GroupRefs(doc, id), counts.Keys)
      decreases fuel, 0
    {
      var matches := Matching(Elements(doc), id);
      if matches == [] {
        return Success([]), [], 1;
      } else if matches[0].tag == Symbol {
        return Success([CountAs(matches[0], id)]), [], 1;
      }
      ghost var g;
      r, more, g := SumCounts(UseRefs(matches[0]), fuel - 1);
      f := g + 1;
      if r.Success? && Count(doc, id, fuel).Success? {
        CountsAgree(doc, id, f, fuel);
      }
    }

    /** `sum(map(symbol_counts, hrefs), Counter())`: the counts of `hrefs` added up left to
        right, stopping at the first that fails. */
    method SumCounts(hrefs: seq<string>, fuel: nat) returns (r: Result<Tally, Exc>, notes: seq<Note>, ghost f: nat)
      requires Valid()
      modifies this
      ensures Valid()
      ensures Extends(old(counts), counts)
      ensures r.Success? ==> SumOf(doc, hrefs, f) == r
      ensures SumOf(doc, hrefs, fuel).Success? ==> r == SumOf(doc, hrefs, fuel)
      ensures Warnings(doc, notes) && emitted == old(emitted) + notes
      ensures r.Success? ==> Listed(hrefs, counts.Keys)
      decreases fuel, 4
    {
      var total: Tally := [];
      notes, f := [], 0;
      for k := 0 to |hrefs|
        invariant Valid()
        invariant SumSoFar(doc, hrefs, k, total, f, notes, old(counts), old(emitted), counts, emitted)
      {
        if SumOf(doc, hrefs, fuel).Success? {
          SumOfParts(doc, hrefs, fuel, k);
        }
        ghost var mid, midEmitted := counts, emitted;
        var rk, nk := SymbolCounts(hrefs[k], fuel);
        SumGoesOn(doc, hrefs, k, total, f, notes, old(counts), old(emitted), mid, midEmitted, counts, emitted, nk);
        if rk.Failure? {
          return rk, notes + nk, f;
        }
        ghost var d := depth[hrefs[k][1..]];
        SumNext(doc, hrefs, k, total, f, notes, old(counts), old(emitted), counts, emitted, nk, rk.value, d);
        total, f, notes := total + rk.value, if f < d then d else f, notes + nk;
      }
      TakeAll(hrefs);
      if SumOf(doc, hrefs, fuel).Success? {
        SumsAgree(doc, hrefs, f, fuel);
      }
      return Success(total), notes, f;
    }
  }

  /** The memo `b` keeps every count `a` remembers. */
  predicate Extends(a: map<string, Tally>, b: map<string, Tally>) {
    forall id | id in a :: id in b && b[id] == a[id]
  }

  /** What `SumCounts` has done after the first `k` hrefs: `total` is their sum, `notes`
      the warnings written meanwhile, and every one of them is remembered. */
  ghost predicate SumSoFar(doc: XNode, hrefs: seq<string>, k: int, total: Tally, f: nat, notes: seq<Note>,
                           counts0: map<string, Tally>, emitted0: seq<Note>, counts: map<string, Tally>, emitted: seq<Note>)
  {
    && 0 <= k <= |hrefs|
    && Extends(counts0, counts)
    && SumOf(doc, hrefs[..k], f) == Success(total)
    && Warnings(doc, notes) && emitted == emitted0 + notes
    && Listed(hrefs[..k], counts.Keys)
  }

  /** Counting one more href keeps the memo growing and the warnings accounted for. */
  lemma SumGoesOn(doc: XNode, hrefs: seq<string>, k: int, total: Tally, f: nat, notes: seq<Note>,
                  counts0: map<string, Tally>, emitted0: seq<Note>, mid: map<string, Tally>, midEmitted: seq<Note>,
                  counts: map<string, Tally>, emitted: seq<Note>, nk: seq<Note>)
    requires SumSoFar(doc, hrefs, k, total, f, notes, counts0, emitted0, mid, midEmitted)
    requires Extends(mid, counts) && emitted == midEmitted + nk && Warnings(doc, nk)
    ensures Extends(counts0, counts) && Listed(hrefs[..k], counts.Keys)
    ensures Warnings(doc, notes + nk) && emitted == emitted0 + (notes + nk)
  {
    WarningsAppend(doc, notes, nk);
    AppendAssoc(emitted0, notes, nk);
    ListedGrow(hrefs[..k], mid.Keys, counts.Keys);
  }

  /** One more href counted and remembered extends what `SumCounts` has done. */
  lemma SumNext(doc: XNode, hrefs: seq<string>, k: int, total: Tally, f: nat, notes: seq<Note>,
                counts0: map<string, Tally>, emitted0: seq<Note>, counts: map<string, Tally>, emitted: seq<Note>,
                nk: seq<Note>, c: Tally, d: nat)
    requires 0 <= k < |hrefs| && Extends(counts0, counts) && Listed(hrefs[..k], counts.Keys)
    requires SumOf(doc, hrefs[..k], f) == Success(total)
    requires Warnings(doc, notes + nk) && emitted == emitted0 + (notes + nk)
    requires ValidHref(hrefs[k]) && hrefs[k][1..] in counts && Count(doc, hrefs[k][1..], d) == Success(c)
    ensures SumSoFar(doc, hrefs, k + 1, total + c, if f < d then d else f, notes + nk, counts0, emitted0, counts, emitted)
  {
    SumStep(doc, hrefs, k, total, f, c, d);
    assert hrefs[..k + 1] == hrefs[..k] + [hrefs[k]];
    ListedMore(hrefs[..k], hrefs[k], counts.Keys, counts.Keys);
  }

  lemma WarningsAppend(root: XNode, a: seq<Note>, b: seq<Note>)
    requires Warnings(root, a) && Warnings(root, b)
    ensures Warnings(root, a + b)
  {
    forall k | 0 <= k < |a + b|
      ensures (a + b)[k].n == |Matching(Elements(root), (a + b)[k].id)| && (a + b)[k].n != 1
    {
      if k >= |a| {
        assert (a + b)[k] == b[k - |a|];
      }
    }
  }

  // ---- the extension ----

  /** `contains(@style, 'display:none')`. */
  predicate Hides(x: XNode) {
    "style" in x.attrs && Contains(x.attrs["style"], "display:none")
  }

  /** The hrefs `effect` selects below `x`, in document order: references not inside a
      symbol and, unless hidden ones are included, with nothing from the reference up
      hidden. `inSymbol` and `hidden` say so of `x`'s ancestors. */
  function HrefsUnder(x: XNode, inSymbol: bool, hidden: bool, includeHidden: bool): seq<string>
    decreases x, 1
  {
    var sym := inSymbol || x.tag == Symbol;
    var hid := hidden || Hides(x);
    var here := if IsRef(x) && !sym && (includeHidden || !hid) then [x.attrs[HREF]] else [];
    here + HrefsUnderAll(x.children, sym, hid, includeHidden)
  }

  function HrefsUnderAll(xs: seq<XNode>, inSymbol: bool, hidden: bool, includeHidden: bool): seq<string>
    decreases xs, 0
  {
    if xs == [] then [] else HrefsUnder(xs[0], inSymbol, hidden, includeHidden) + HrefsUnderAll(xs[1..], inSymbol, hidden, includeHidden)
  }

  /** The hrefs `CountSymbols.effect` sums. */
  function Hrefs(doc: XNode, includeHidden: bool): seq<string> {
    HrefsUnder(doc, false, false, includeHidden)
  }

  /** Nothing inside a symbol is selected. */
  lemma {:induction false} InsideSymbolUncounted(x: XNode, hidden: bool, includeHidden: bool)
    ensures HrefsUnder(x, true, hidden, includeHidden) == []
    decreases x, 1
  {
    InsideSymbolUncountedAll(x.children, hidden || Hides(x), includeHidden);
  }

  lemma {:induction false} InsideSymbolUncountedAll(xs: seq<XNode>, hidden: bool, includeHidden: bool)
    ensures HrefsUnderAll(xs, true, hidden, includeHidden) == []
    decreases xs, 0
  {
    if xs != [] {
      InsideSymbolUncounted(xs[0], hidden, includeHidden);
      InsideSymbolUncountedAll(xs[1..], hidden, includeHidden);
    }
  }

  /** Unless hidden references are included, nothing below a hidden element is selected. */
  lemma {:induction false} InsideHiddenUncounted(x: XNode, inSymbol: bool)
    ensures HrefsUnder(x, inSymbol, true, false) == []
    decreases x, 1
  {
    InsideHiddenUncountedAll(x.children, inSymbol || x.tag == Symbol);
  }

  lemma {:induction false} InsideHiddenUncountedAll(xs: seq<XNode>, inSymbol: bool)
    ensures HrefsUnderAll(xs, inSymbol, true, false) == []
    decreases xs, 0
  {
    if xs != [] {
      InsideHiddenUncounted(xs[0], inSymbol);
      InsideHiddenUncountedAll(xs[1..], inSymbol);
    }
  }

  /** Leaving hidden references out only ever removes references. */
  lemma {:induction false} HiddenOnlyRemoves(x: XNode, inSymbol: bool, hidden: bool)
    ensures multiset(HrefsUnder(x, inSymbol, hidden, false)) <= multiset(HrefsUnder(x, inSymbol, hidden, true))
    decreases x, 1
  {
    HiddenOnlyRemovesAll(x.children, inSymbol || x.tag == Symbol, hidden || Hides(x));
  }

  lemma {:induction false} HiddenOnlyRemovesAll(xs: seq<XNode>, inSymbol: bool, hidden: bool)
    ensures multiset(HrefsUnderAll(xs, inSymbol, hidden, false)) <= multiset(HrefsUnderAll(xs, inSymbol, hidden, true))
    decreases xs, 0
  {
    if xs != [] {
      HiddenOnlyRemoves(xs[0], inSymbol, hidden);
      HiddenOnlyRemovesAll(xs[1..], inSymbol, hidden);
    }
  }

  /** Counts that never rise from one line to the next. */
  predicate Descending(lines: seq<(string, nat)>) {
    forall k | 0 < k < |lines| :: lines[k - 1].1 >= lines[k].1
  }

  /** No name on two lines. */
  predicate DistinctNames(lines: seq<(string, nat)>) {
    forall i, j | 0 <= i < j < |lines| :: lines[i].0 != lines[j].0
  }

  /** Where `s` first holds `x`, or `|s|` when it does not. */
  function FirstAt(s: Tally, x: string): (r: nat)
    ensures r <= |s| && (r < |s| <==> x in s) && (r < |s| ==> s[r] == x)
    ensures forall k | 0 <= k < r :: s[k] != x
  {
    if s == [] then 0
    else if s[0] == x then 0
    else
      var r := 1 + FirstAt(s[1..], x);
      assert forall k | 1 <= k < |s| :: s[k] == s[1..][k - 1];
      assert x in s <==> x in s[1..];
      r
  }

  /** Among equal counts, the name the counter met first comes first. */
  predicate TiesByFirst(lines: seq<(string, nat)>, total: Tally) {
    forall i, j | 0 <= i < j < |lines| && lines[i].1 == lines[j].1 :: FirstAt(total, lines[i].0) < FirstAt(total, lines[j].0)
  }

  /** `most_common()` order: each name of `total` on exactly one line, with its count,
      largest counts first, and equal counts in the counter's key order (the sort is
      stable). */
  predicate CommonOrder(lines: seq<(string, nat)>, total: Tally) {
    && (forall k | 0 <= k < |lines| :: lines[k].1 == multiset(total)[lines[k].0] && lines[k].1 > 0)
    && (forall x | x in total :: (x, multiset(total)[x]) in lines)
    && DistinctNames(lines)
    && Descending(lines)
    && TiesByFirst(lines, total)
  }

  /** `line` placed after every line with at least its count. */
  function InsertByCount(lines: seq<(string, nat)>, line: (string, nat)): (r: seq<(string, nat)>)
    requires Descending(lines)
    ensures Descending(r)
    ensures |r| == |lines| + 1
    ensures forall y :: y in r <==> y == line || y in lines
    ensures r[0] == line || (lines != [] && r[0] == lines[0])
  {
    if lines == [] || lines[0].1 < line.1 then [line] + lines
    else
      assert lines == [lines[0]] + lines[1..];
      [lines[0]] + InsertByCount(lines[1..], line)
  }

  /** Inserting a new name keeps the names distinct. */
  lemma {:induction false} InsertDistinct(lines: seq<(string, nat)>, line: (string, nat))
    requires Descending(lines) && DistinctNames(lines) && forall y | y in lines :: y.0 != line.0
    ensures DistinctNames(InsertByCount(lines, line))
  {
    if lines == [] || lines[0].1 < line.1 {
      DistinctCons(line, lines);
    } else {
      var tail := lines[1..];
      assert forall k | 0 <= k < |tail| :: tail[k] == lines[k + 1];
      assert forall y | y in tail :: y in lines;
      InsertDistinct(tail, line);
      var rest := InsertByCount(tail, line);
      forall y | y in rest ensures y.0 != lines[0].0 {
        if y != line {
          var m :| 0 <= m < |tail| && tail[m] == y;
        }
      }
      DistinctCons(lines[0], rest);
    }
  }

  lemma DistinctCons(h: (string, nat), t: seq<(string, nat)>)
    requires DistinctNames(t) && forall y | y in t :: y.0 != h.0
    ensures DistinctNames([h] + t)
  {
    forall i, j | 0 <= i < j < |[h] + t| ensures ([h] + t)[i].0 != ([h] + t)[j].0 {
      if i == 0 {
        assert ([h] + t)[j] == t[j - 1] && t[j - 1] in t;
      }
    }
  }

  /** Counts never rise between any two lines, not only neighbouring ones. */
  lemma {:induction false} DescendingFrom(lines: seq<(string, nat)>, i: nat, j: nat)
    requires Descending(lines) && i <= j < |lines|
    ensures lines[i].1 >= lines[j].1
    decreases j - i
  {
    if i < j {
      DescendingFrom(lines, i + 1, j);
    }
  }

  /** The number of leading lines with a count of at least `c`. */
  function CountPos(lines: seq<(string, nat)>, c: nat): (p: nat)
    requires Descending(lines)
    ensures p <= |lines|
    ensures forall q | 0 <= q < p :: lines[q].1 >= c
    ensures forall q | p <= q < |lines| :: lines[q].1 < c
  {
    if lines == [] then 0
    else if lines[0].1 < c then
      assert forall q | 0 <= q < |lines| :: lines[q].1 < c by {
        forall q | 0 <= q < |lines| ensures lines[q].1 < c {
          DescendingFrom(lines, 0, q);
        }
      }
      0
    else
      var tail := lines[1..];
      assert forall q | 0 <= q < |tail| :: tail[q] == lines[q + 1];
      1 + CountPos(tail, c)
  }

  /** `InsertByCount` puts the line just after the lines with at least its count. */
  lemma {:induction false} InsertByCountAt(lines: seq<(string, nat)>, line: (string, nat))
    requires Descending(lines)
    ensures var p := CountPos(lines, line.1);
      InsertByCount(lines, line) == lines[..p] + [line] + lines[p..]
  {
    if lines != [] && lines[0].1 >= line.1 {
      var tail := lines[1..];
      var p := CountPos(tail, line.1);
      InsertByCountAt(tail, line);
      assert lines[..p + 1] == [lines[0]] + tail[..p] && lines[p + 1..] == tail[p..];
    }
  }

  /** Line `k` after `InsertByCount`. */
  lemma InsertedAt(lines: seq<(string, nat)>, line: (string, nat), k: nat)
    requires Descending(lines) && k <= |lines|
    ensures var p := CountPos(lines, line.1);
      InsertByCount(lines, line)[k] == if k < p then lines[k] else if k == p then line else lines[k - 1]
  {
    InsertByCountAt(lines, line);
  }

  /** Inserting a name met after every listed one keeps equal counts in first-met order. */
  lemma InsertTies(lines: seq<(string, nat)>, line: (string, nat), total: Tally)
    requires Descending(lines) && TiesByFirst(lines, total)
    requires forall k | 0 <= k < |lines| :: FirstAt(total, lines[k].0) < FirstAt(total, line.0)
    ensures TiesByFirst(InsertByCount(lines, line), total)
  {
    var p := CountPos(lines, line.1);
    var r := InsertByCount(lines, line);
    forall i, j | 0 <= i < j < |r| && r[i].1 == r[j].1
      ensures FirstAt(total, r[i].0) < FirstAt(total, r[j].0)
    {
      InsertedAt(lines, line, i);
      InsertedAt(lines, line, j);
      if i == p {
        assert false;
      } else if j == p {
        assert r[i] == lines[i];
      } else {
        var i', j' := if i < p then i else i - 1, if j < p then j else j - 1;
        assert r[i] == lines[i'] && r[j] == lines[j'] && i' < j';
      }
    }
  }

  /** The first time the loop meets a name, every name met before was met earlier. */
  lemma FirstMet(total: Tally, i: nat, y: string)
    requires i < |total| && total[i] !in total[..i]
    ensures FirstAt(total, total[i]) == i
    ensures y in total[..i] ==> FirstAt(total, y) < i
  {
    var x := total[i];
    assert forall k | 0 <= k < i :: total[k] == total[..i][k] != x;
    if y in total[..i] {
      var k :| 0 <= k < i && total[..i][k] == y;
      assert total[k] == y;
    }
  }

  /** What `MostCommon` has listed after meeting the first `i` names of `total`. */
  ghost predicate CommonSoFar(lines: seq<(string, nat)>, total: Tally, i: nat)
    requires i <= |total|
  {
    && (forall k | 0 <= k < |lines| ::
          lines[k].1 == multiset(total)[lines[k].0] && lines[k].1 > 0 && lines[k].0 in total[..i])
    && (forall x | x in total[..i] :: (x, multiset(total)[x]) in lines)
    && DistinctNames(lines)
    && Descending(lines)
    && TiesByFirst(lines, total)
  }

  /** Meeting name `i` again changes nothing. */
  lemma CommonSeen(lines: seq<(string, nat)>, total: Tally, i: nat)
    requires i < |total| && CommonSoFar(lines, total, i) && total[i] in total[..i]
    ensures CommonSoFar(lines, total, i + 1)
  {
    assert total[..i + 1] == total[..i] + [total[i]];
  }

  /** After the insertion every line still carries its name's count, for a name met. */
  lemma CommonNewCounts(lines: seq<(string, nat)>, total: Tally, i: nat)
    requires i < |total| && CommonSoFar(lines, total, i)
    ensures var x := total[i];
      var r := InsertByCount(lines, (x, multiset(total)[x]));
      forall k | 0 <= k < |r| :: r[k].1 == multiset(total)[r[k].0] && r[k].1 > 0 && r[k].0 in total[..i + 1]
  {
    var x := total[i];
    var r := InsertByCount(lines, (x, multiset(total)[x]));
    assert total[..i + 1] == total[..i] + [x];
    forall k | 0 <= k < |r|
      ensures r[k].1 == multiset(total)[r[k].0] && r[k].1 > 0 && r[k].0 in total[..i + 1]
    {
      assert r[k] in r;
    }
  }

  /** After the insertion every name met has its line. */
  lemma CommonNewListed(lines: seq<(string, nat)>, total: Tally, i: nat)
    requires i < |total| && CommonSoFar(lines, total, i)
    ensures var x := total[i];
      var r := InsertByCount(lines, (x, multiset(total)[x]));
      forall y | y in total[..i + 1] :: (y, multiset(total)[y]) in r
  {
    var x := total[i];
    assert total[..i + 1] == total[..i] + [x];
  }

  /** Meeting name `i` for the first time inserts it by its count. */
  lemma CommonNew(lines: seq<(string, nat)>, total: Tally, i: nat)
    requires i < |total| && CommonSoFar(lines, total, i) && total[i] !in total[..i]
    ensures CommonSoFar(InsertByCount(lines, (total[i], multiset(total)[total[i]])), total, i + 1)
  {
    var x := total[i];
    var line := (x, multiset(total)[x]);
    forall k | 0 <= k < |lines| ensures FirstAt(total, lines[k].0) < FirstAt(total, x) {
      FirstMet(total, i, lines[k].0);
    }
    InsertDistinct(lines, line);
    InsertTies(lines, line, total);
    CommonNewCounts(lines, total, i);
    CommonNewListed(lines, total, i);
  }

  /** `Counter.most_common()`: the counter's items in key order, that is in the order the
      names were first counted, sorted by count, largest first; Python's sort is stable, so
      equal counts keep that order. */
  method MostCommon(total: Tally) returns (lines: seq<(string, nat)>)
    ensures CommonOrder(lines, total)
  {
    var counts := multiset(total);
    lines := [];
    for i := 0 to |total|
      invariant CommonSoFar(lines, total, i)
    {
      var x := total[i];
      if x !in total[..i] {
        CommonNew(lines, total, i);
        lines := InsertByCount(lines, (x, counts[x]));
      } else {
        CommonSeen(lines, total, i);
      }
    }
    TakeAll(total);
  }

  /** `CountSymbols.effect`: the selected references (hidden ones only when asked for) are
      counted through one shared `SymbolCounter` and listed most common first. `limit`
      stands in for Python's recursion limit. On success `reached` is the set of ids that
      were counted: it holds every selected reference's id and every id a counted group
      references, and each of them that matches other than one element has its warning in
      `warnings`. */
  method Effect(doc: XNode, includeHidden: bool, limit: nat) returns (r: Result<seq<(string, nat)>, Exc>, warnings: seq<Note>, ghost reached: set<string>)
    ensures Warnings(doc, warnings)
    ensures r.Success? ==> Listed(Hrefs(doc, includeHidden), reached) && Closed(doc, reached) && Noted(doc, reached, warnings)
    ensures r.Success? ==> exists f: nat :: SumOf(doc, Hrefs(doc, includeHidden), f).Success? && CommonOrder(r.value, SumOf(doc, Hrefs(doc, includeHidden), f).value)
    ensures SumOf(doc, Hrefs(doc, includeHidden), limit).Success? ==> r.Success? && CommonOrder(r.value, SumOf(doc, Hrefs(doc, includeHidden), limit).value)
  {
    var counter := new SymbolCounter(doc);
    var sum; ghost var f;
    sum, warnings, f := counter.SumCounts(Hrefs(doc, includeHidden), limit);
    assert counter.emitted == warnings;
    reached := counter.counts.Keys;
    if sum.Failure? {
      return Failure(sum.error), warnings, reached;
    }
    var lines := MostCommon(sum.value);
    assert SumOf(doc, Hrefs(doc, includeHidden), f).Success? && CommonOrder(lines, SumOf(doc, Hrefs(doc, includeHidden), f).value);
    return Success(lines), warnings, reached;
  }
}
