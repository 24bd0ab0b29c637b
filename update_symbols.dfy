/** Refreshing a drawing's symbol definitions from the installed `bh-symbols` library:
    finding the library directory, choosing a scale for each library file, collecting
    the well-scoped symbols of each file, merging the files, and replacing the
    drawing's stale symbols. */
module UpdateSymbols {
  import opened Wrappers
  import opened Strings
  import opened Xml

  /** Why the update gives up; `effect` reports it and returns False. */
  datatype Exc =
    | NoSymbolSet(name: string)   // RuntimeError "can not find symbol set with name ..."
    | BadMetadata                 // METADATA.json that is not a JSON object
    | BadSvg(file: string)        // a library file load_svg can not parse
    | NoDefs                      // the drawing has no <defs>: `None.findall`

  /** What `inkex.errormsg` writes. */
  datatype Note =
    | UnscopedSymbol(id: string)
    | DuplicateSymbol(id: string, file: string)
    | DuplicateFile(file: string)
    | Updating(id: string)
    | Reported(e: Exc)

  // ---- the scale a library file is drawn at ----

  predicate AllDigits(s: string) {
    forall i | 0 <= i < |s| :: IsDigit(s[i])
  }

  /** `stem` ends in `-<a>to<b>` with `a`, `b` non-empty runs of digits: where the pattern
      `-(\d+)to(\d+)\Z` matches. */
  predicate ScaleSuffix(stem: string, a: string, b: string) {
    |a| > 0 && |b| > 0 && AllDigits(a) && AllDigits(b) && EndsWith(stem, "-" + a + "to" + b)
  }

  /** How many digits `s` ends with. */
  function TrailingDigits(s: string): (n: nat)
    ensures n <= |s| && AllDigits(s[|s| - n..])
    ensures n < |s| ==> !IsDigit(s[|s| - n - 1])
  {
    if s != [] && IsDigit(s[|s| - 1]) then
      var init := s[..|s| - 1];
      var n := TrailingDigits(init);
      var tail, prev := s[|s| - (n + 1)..], init[|init| - n..];
      assert AllDigits(tail) by {
        forall i | 0 <= i < n + 1
          ensures IsDigit(tail[i])
        {
          if i < n {
            assert tail[i] == prev[i];
          }
        }
      }
      assert n + 1 < |s| ==> s[|s| - (n + 1) - 1] == init[|init| - n - 1];
      n + 1
    else 0
  }

  lemma {:induction false} TrailingDigitsExact(s: string, n: nat)
    requires n <= |s| && AllDigits(s[|s| - n..])
    requires n < |s| ==> !IsDigit(s[|s| - n - 1])
    ensures TrailingDigits(s) == n
    decreases n
  {
    if n > 0 {
      var p, tail := s[..|s| - 1], s[|s| - n..];
      assert tail[n - 1] == s[|s| - 1];
      SuffixOfInit(s, n);
      assert |p| - (n - 1) == |s| - n;
      assert forall k | 0 <= k < n - 1 :: p[|s| - n..][k] == tail[k];
      if n - 1 < |p| {
        assert p[|p| - (n - 1) - 1] == s[|s| - n - 1];
      }
      TrailingDigitsExact(p, n - 1);
    }
  }

  lemma EndsWithAppend(x: string, t: string, u: string)
    requires EndsWith(x, t)
    ensures EndsWith(x + u, t + u)
  {
    assert (x + u)[|x + u| - |t + u|..] == x[|x| - |t|..] + u;
  }

  lemma Halves(s: string, n: nat)
    requires n <= |s|
    ensures s == s[..n] + s[n..]
  {
  }

  /** The two digit runs of the scale suffix, if `stem` has one. */
  function ParseScale(stem: string): (r: Option<(string, string)>)
    ensures r.Some? ==> ScaleSuffix(stem, r.value.0, r.value.1)
  {
    var nb := TrailingDigits(stem);
    var s1 := stem[..|stem| - nb];
    if nb == 0 || !EndsWith(s1, "to") then None
    else
      var s2 := s1[..|s1| - 2];
      var na := TrailingDigits(s2);
      if na == 0 || na == |s2| || s2[|s2| - na - 1] != '-' then None
      else
        var a, b := s2[|s2| - na..], stem[|stem| - nb..];
        assert s2[|s2| - na - 1..] == "-" + a;
        Halves(s1, |s1| - 2);
        EndsWithAppend(s2, "-" + a, "to");
        Halves(stem, |stem| - nb);
        EndsWithAppend(s1, "-" + a + "to", b);
        Some((a, b))
  }

  lemma ParseScaleComplete(stem: string, a: string, b: string)
    requires ScaleSuffix(stem, a, b)
    ensures ParseScale(stem) == Some((a, b))
  {
    var p := stem[..|stem| - |a| - |b| - 3];
    assert stem == p + "-" + a + "to" + b;
    var s1 := p + "-" + a + "to";
    assert stem == s1 + b;
    assert stem[|stem| - |b|..] == b;
    assert stem[|stem| - |b| - 1] == 'o';
    TrailingDigitsExact(stem, |b|);
    assert stem[..|stem| - |b|] == s1;
    var s2 := p + "-" + a;
    assert s1[|s1| - 2..] == "to";
    assert s1[..|s1| - 2] == s2;
    assert s2[|s2| - |a|..] == a;
    assert s2[|s2| - |a| - 1] == '-';
    TrailingDigitsExact(s2, |a|);
  }

  /** `_symbol_scale`: "a:b" from a `-<a>to<b>` stem, otherwise "48:1". */
  function SymbolScale(stem: string): string {
    match ParseScale(stem)
    case Some((a, b)) => a + ":" + b
    case None => "48:1"
  }

  /** The scale is read off the stem exactly when the stem ends in `-<a>to<b>`. */
  lemma SymbolScaleMeaning(stem: string)
    ensures forall a, b | ScaleSuffix(stem, a, b) :: SymbolScale(stem) == a + ":" + b
    ensures (forall a, b :: !ScaleSuffix(stem, a, b)) ==> SymbolScale(stem) == "48:1"
  {
    forall a, b | ScaleSuffix(stem, a, b) ensures ParseScale(stem) == Some((a, b)) {
      ParseScaleComplete(stem, a, b);
    }
  }

  // ---- file names: pathlib's `suffix` and `stem` ----

  /** `name.rfind(".")`, or None. */
  function LastDot(name: string): (r: Option<nat>)
    ensures r.Some? ==> r.value < |name| && name[r.value] == '.' && forall j | r.value < j < |name| :: name[j] != '.'
    ensures r.None? ==> forall j | 0 <= j < |name| :: name[j] != '.'
  {
    if name == [] then None
    else if name[|name| - 1] == '.' then Some(|name| - 1)
    else LastDot(name[..|name| - 1])
  }

  /** `PurePath.suffix`: from the last dot, unless that dot leads or trails the name. */
  function Suffix(name: string): string {
    match LastDot(name)
    case Some(i) => if 0 < i < |name| - 1 then name[i..] else ""
    case None => ""
  }

  /** `PurePath.stem`: the name without its suffix. */
  function Stem(name: string): string {
    match LastDot(name)
    case Some(i) => if 0 < i < |name| - 1 then name[..i] else name
    case None => name
  }

  /** A library file is picked up exactly when its name is `<something>.svg`, and its stem
      is the name without `.svg`. */
  lemma SvgName(name: string)
    ensures Suffix(name) == ".svg" <==> |name| > 4 && EndsWith(name, ".svg")
    ensures Suffix(name) == ".svg" ==> Stem(name) == name[..|name| - 4]
  {
    if |name| > 4 && EndsWith(name, ".svg") {
      assert name[|name| - 4..] == ".svg";
      assert name[|name| - 4] == '.';
      assert forall j | |name| - 4 < j < |name| :: name[j] == name[|name| - 4..][j - (|name| - 4)];
      assert LastDot(name) == Some(|name| - 4);
    }
  }

  // ---- the symbols of one library file ----

  /** An element below `symbol` carries an id outside the symbol's own `<id>:` namespace. */
  predicate Unscoped(x: XNode, prefix: string) {
    Id(x).Some? && !StartsWith(Id(x).value, prefix)
  }

  /** Some element of `xs` is unscoped. */
  ghost predicate SomeUnscoped(xs: seq<XNode>, prefix: string) {
    exists k | 0 <= k < |xs| :: Unscoped(xs[k], prefix)
  }

  /** `any(...)` over `xs`, one element at a time. */
  function AnyUnscoped(xs: seq<XNode>, prefix: string): (r: bool)
    ensures r == SomeUnscoped(xs, prefix)
  {
    if xs == [] then false
    else
      assert forall k | 0 < k < |xs| :: xs[k] == xs[1..][k - 1];
      Unscoped(xs[0], prefix) || AnyUnscoped(xs[1..], prefix)
  }

  /** `_has_unscoped_ids`: some element below the symbol has an id that does not start
      with the symbol's id and a colon. */
  function HasUnscopedIds(symbol: XNode): (r: bool)
    requires Id(symbol).Some?
    ensures r == SomeUnscoped(Descendants(symbol), IdScope(symbol))
  {
    AnyUnscoped(Descendants(symbol), IdScope(symbol))
  }

  /** The prefix every id below a symbol should carry: the symbol's id and a colon. */
  function IdScope(symbol: XNode): string
    requires Id(symbol).Some?
  {
    Id(symbol).value + ":"
  }

  /** `svg:symbol[@id]`. */
  predicate IsIdSymbol(x: XNode) {
    x.tag == Symbol && Id(x).Some?
  }

  /** The symbols with an id directly inside the `<defs>` among `xs`, in document order. */
  function SymbolsInDefs(xs: seq<XNode>): (r: seq<XNode>)
    ensures forall k | 0 <= k < |r| :: IsIdSymbol(r[k])
  {
    if xs == [] then []
    else
      var here := if xs[0].tag == Defs then IdSymbols(xs[0].children) else [];
      here + SymbolsInDefs(xs[1..])
  }

  function IdSymbols(xs: seq<XNode>): (r: seq<XNode>)
    ensures forall k | 0 <= k < |r| :: IsIdSymbol(r[k])
    ensures forall k | 0 <= k < |r| :: r[k] in xs
    ensures forall x | x in xs && IsIdSymbol(x) :: x in r
  {
    if xs == [] then []
    else (if IsIdSymbol(xs[0]) then [xs[0]] else []) + IdSymbols(xs[1..])
  }

  /** `root.findall("./svg:defs/svg:symbol[@id]")`. */
  function Candidates(root: XNode): (r: seq<XNode>)
    ensures forall k | 0 <= k < |r| :: IsIdSymbol(r[k])
  {
    SymbolsInDefs(root.children)
  }

  /** A candidate that is kept unless an earlier one took its id. */
  predicate Scoped(x: XNode)
    requires IsIdSymbol(x)
  {
    !HasUnscopedIds(x)
  }

  /** The symbols `_load_symbols_from_svg` keeps from the candidates `cs`, by id. */
  function Accepted(cs: seq<XNode>): map<string, XNode>
    requires forall k | 0 <= k < |cs| :: IsIdSymbol(cs[k])
  {
    if cs == [] then map[]
    else
      var m := Accepted(cs[..|cs| - 1]);
      var c := cs[|cs| - 1];
      assert IsIdSymbol(c);
      if HasUnscopedIds(c) || Id(c).value in m then m else m[Id(c).value := c]
  }

  /** The warnings `_load_symbols_from_svg` writes for the candidates `cs` of `file`. */
  function AcceptNotes(cs: seq<XNode>, file: string): seq<Note>
    requires forall k | 0 <= k < |cs| :: IsIdSymbol(cs[k])
  {
    if cs == [] then []
    else
      var c := cs[|cs| - 1];
      assert IsIdSymbol(c);
      var earlier := AcceptNotes(cs[..|cs| - 1], file);
      if HasUnscopedIds(c) then earlier + [UnscopedSymbol(Id(c).value)]
      else if Id(c).value in Accepted(cs[..|cs| - 1]) then earlier + [DuplicateSymbol(Id(c).value, file)]
      else earlier
  }

  /** Every kept symbol is a well-scoped candidate filed under its own id. */
  lemma {:induction false} AcceptedFromCandidates(cs: seq<XNode>, id: string)
    requires forall k | 0 <= k < |cs| :: IsIdSymbol(cs[k])
    requires id in Accepted(cs)
    ensures exists k | 0 <= k < |cs| :: cs[k] == Accepted(cs)[id] && Scoped(cs[k]) && Id(cs[k]) == Some(id)
  {
    var p := cs[..|cs| - 1];
    if id in Accepted(p) && Accepted(cs)[id] == Accepted(p)[id] {
      AcceptedFromCandidates(p, id);
      var k :| 0 <= k < |p| && p[k] == Accepted(p)[id] && Scoped(p[k]) && Id(p[k]) == Some(id);
      assert cs[k] == p[k];
    } else {
      assert cs[|cs| - 1] == Accepted(cs)[id];
    }
  }

  /** The first well-scoped candidate with a given id is the one kept. */
  lemma {:induction false} AcceptedFirst(cs: seq<XNode>, k: nat)
    requires forall j | 0 <= j < |cs| :: IsIdSymbol(cs[j])
    requires k < |cs| && Scoped(cs[k])
    requires forall j | 0 <= j < k :: !(Scoped(cs[j]) && Id(cs[j]) == Id(cs[k]))
    ensures Id(cs[k]).value in Accepted(cs) && Accepted(cs)[Id(cs[k]).value] == cs[k]
  {
    var p := cs[..|cs| - 1];
    var id := Id(cs[k]).value;
    if k == |cs| - 1 {
      if id in Accepted(p) {
        AcceptedFromCandidates(p, id);
      }
    } else {
      assert forall j | 0 <= j <= k :: cs[j] == p[j];
      AcceptedFirst(p, k);
    }
  }

  /** One more candidate: kept when well scoped and new, else reported. */
  lemma AcceptStep(cs: seq<XNode>, i: nat, file: string)
    requires forall k | 0 <= k < |cs| :: IsIdSymbol(cs[k])
    requires i < |cs|
    ensures var m, c := Accepted(cs[..i]), cs[i];
      && Accepted(cs[..i + 1]) == (if HasUnscopedIds(c) || Id(c).value in m then m else m[Id(c).value := c])
      && AcceptNotes(cs[..i + 1], file) == AcceptNotes(cs[..i], file) +
           (if HasUnscopedIds(c) then [UnscopedSymbol(Id(c).value)]
            else if Id(c).value in m then [DuplicateSymbol(Id(c).value, file)]
            else [])
  {
    var p := cs[..i + 1];
    assert p[..|p| - 1] == cs[..i];
  }

  /** `_load_symbols_from_svg`, given the parsed file. */
  method LoadSymbolsFromSvg(root: XNode, file: string) returns (symbols: map<string, XNode>, notes: seq<Note>)
    ensures symbols == Accepted(Candidates(root))
    ensures notes == AcceptNotes(Candidates(root), file)
  {
    var cs := Candidates(root);
    symbols, notes := map[], [];
    for i := 0 to |cs|
      invariant symbols == Accepted(cs[..i])
      invariant notes == AcceptNotes(cs[..i], file)
    {
      AcceptStep(cs, i, file);
      var id := Id(cs[i]).value;
      if HasUnscopedIds(cs[i]) {
        notes := notes + [UnscopedSymbol(id)];
      } else if id in symbols {
        notes := notes + [DuplicateSymbol(id, file)];
      } else {
        symbols := symbols[id := cs[i]];
      }
    }
    TakeAll(cs);
  }

  // ---- finding the library directory ----

  /** What a file holds: a METADATA.json object (with its "name" if that is a string),
      a parsable SVG document, or anything else. */
  datatype Content = Json(name: Option<string>) | Markup(root: XNode) | Garbage

  /** A directory: its files and its subdirectories, in listing order. */
  datatype Dir = Dir(files: seq<(string, Content)>, subdirs: seq<(string, Dir)>)

  const METADATA: string := "METADATA.json"

  function FileNamed(files: seq<(string, Content)>, n: string): (r: Option<Content>)
    ensures r.Some? ==> exists k | 0 <= k < |files| :: files[k] == (n, r.value)
    ensures r.None? ==> forall k | 0 <= k < |files| :: files[k].0 != n
  {
    if files == [] then None
    else if files[0].0 == n then Some(files[0].1)
    else
      var r := FileNamed(files[1..], n);
      assert forall k | 0 < k < |files| :: files[k] == files[1..][k - 1];
      r
  }

  /** A symbol library: a directory holding METADATA.json. */
  predicate IsLibrary(d: Dir) {
    FileNamed(d.files, METADATA).Some?
  }

  /** A library whose metadata gives it the name `name`. */
  predicate Names(d: Dir, name: string) {
    FileNamed(d.files, METADATA) == Some(Json(Some(name)))
  }

  /** Where a directory was found below the directory searched: the positions of the
      subdirectories followed, and the directory itself. */
  datatype Found = Found(path: seq<nat>, dir: Dir)

  /** The top-down `os.walk` from `d`, pruned below each library, up to the first
      library named `name`; a METADATA.json that is not a JSON object stops it. */
  function Walk(d: Dir, name: string): Result<Option<Found>, Exc>
    decreases d, 1, 0
  {
    match FileNamed(d.files, METADATA)
    case Some(meta) =>
      if !meta.Json? then Failure(BadMetadata)
      else if meta.name == Some(name) then Success(Some(Found([], d)))
      else Success(None)
    case None => WalkFrom(d, 0, name)
  }

  /** The walk through `d`'s subdirectories from position `i` on. */
  function WalkFrom(d: Dir, i: nat, name: string): Result<Option<Found>, Exc>
    decreases d, 0, |d.subdirs| - i
  {
    if i >= |d.subdirs| then Success(None)
    else match Walk(d.subdirs[i].1, name)
      case Failure(e) => Failure(e)
      case Success(Some(f)) => Success(Some(Found([i] + f.path, f.dir)))
      case Success(None) => WalkFrom(d, i + 1, name)
  }

  /** The directory at `path` below `d`. */
  function At(d: Dir, path: seq<nat>): Option<Dir>
    decreases |path|
  {
    if path == [] then Some(d)
    else if path[0] < |d.subdirs| then At(d.subdirs[path[0]].1, path[1..])
    else None
  }

  /** The walk reaches `path`: it exists, and no directory strictly above it is a library. */
  predicate Reached(d: Dir, path: seq<nat>)
    decreases |path|
  {
    path == [] || (!IsLibrary(d) && path[0] < |d.subdirs| && Reached(d.subdirs[path[0]].1, path[1..]))
  }

  /** `p` comes before `q` in a top-down walk and is not above it. */
  predicate Before(p: seq<nat>, q: seq<nat>)
    decreases |p|
  {
    p != [] && q != [] && (p[0] < q[0] || (p[0] == q[0] && Before(p[1..], q[1..])))
  }

  lemma {:induction false} WalkFromFound(d: Dir, i: nat, name: string, f: Found)
    requires WalkFrom(d, i, name) == Success(Some(f))
    ensures f.path != [] && i <= f.path[0] < |d.subdirs|
    ensures Walk(d.subdirs[f.path[0]].1, name) == Success(Some(Found(f.path[1..], f.dir)))
    ensures forall k | i <= k < f.path[0] :: Walk(d.subdirs[k].1, name) == Success(None)
    decreases |d.subdirs| - i
  {
    if Walk(d.subdirs[i].1, name).Success? && Walk(d.subdirs[i].1, name).value.None? {
      WalkFromFound(d, i + 1, name, f);
    }
  }

  lemma {:induction false} WalkFromNone(d: Dir, i: nat, name: string, k: nat)
    requires WalkFrom(d, i, name) == Success(None)
    requires i <= k < |d.subdirs|
    ensures Walk(d.subdirs[k].1, name) == Success(None)
    decreases |d.subdirs| - i
  {
    if k > i {
      WalkFromNone(d, i + 1, name, k);
    }
  }

  /** What the walk finds is a reached library with the wanted name. */
  lemma {:induction false} WalkSound(d: Dir, name: string, f: Found)
    requires Walk(d, name) == Success(Some(f))
    ensures Reached(d, f.path) && At(d, f.path) == Some(f.dir) && Names(f.dir, name)
    decreases d
  {
    if !IsLibrary(d) {
      WalkFromFound(d, 0, name, f);
      WalkSound(d.subdirs[f.path[0]].1, name, Found(f.path[1..], f.dir));
    }
  }

  /** When the walk finds nothing, no library it reaches has the wanted name. */
  lemma {:induction false} WalkComplete(d: Dir, name: string, p: seq<nat>)
    requires Walk(d, name) == Success(None)
    requires Reached(d, p) && At(d, p).Some?
    ensures !Names(At(d, p).value, name)
    decreases d
  {
    if p != [] {
      WalkFromNone(d, 0, name, p[0]);
      WalkComplete(d.subdirs[p[0]].1, name, p[1..]);
    }
  }

  /** No library the walk reaches before the one it finds has the wanted name. */
  lemma {:induction false} WalkFirst(d: Dir, name: string, f: Found, p: seq<nat>)
    requires Walk(d, name) == Success(Some(f))
    requires Reached(d, p) && At(d, p).Some? && Before(p, f.path)
    ensures !Names(At(d, p).value, name)
    decreases d
  {
    WalkFromFound(d, 0, name, f);
    var c := d.subdirs[p[0]].1;
    if p[0] < f.path[0] {
      WalkComplete(c, name, p[1..]);
    } else {
      WalkFirst(c, name, Found(f.path[1..], f.dir), p[1..]);
    }
  }

  /** A data directory's `symbols` subdirectory. */
  function SymbolsDir(subdirs: seq<(string, Dir)>): (r: Option<nat>)
    ensures r.Some? ==> r.value < |subdirs| && subdirs[r.value].0 == "symbols"
    ensures r.None? ==> forall k | 0 <= k < |subdirs| :: subdirs[k].0 != "symbols"
  {
    if subdirs == [] then None
    else if subdirs[0].0 == "symbols" then Some(0)
    else match SymbolsDir(subdirs[1..])
      case Some(k) => Some(k + 1)
      case None =>
        assert forall k | 0 < k < |subdirs| :: subdirs[k] == subdirs[1..][k - 1];
        None
  }

  /** A library found below the `symbols` directory of data directory `root`. */
  datatype Located = Located(root: nat, found: Found)

  /** Walking the `symbols` directory of one data directory; a data directory without
      one yields nothing. */
  function WalkData(p: Dir, name: string): Result<Option<Found>, Exc> {
    match SymbolsDir(p.subdirs)
    case None => Success(None)
    case Some(k) => Walk(p.subdirs[k].1, name)
  }

  /** `_get_symbol_path` from data directory `i` on. */
  function Search(ps: seq<Dir>, i: nat, name: string): Result<Option<Located>, Exc>
    decreases |ps| - i
  {
    if i >= |ps| then Success(None)
    else match WalkData(ps[i], name)
      case Failure(e) => Failure(e)
      case Success(Some(f)) => Success(Some(Located(i, f)))
      case Success(None) => Search(ps, i + 1, name)
  }

  /** A library that `_get_symbol_path` returns is reached from its data directory's
      `symbols` directory and has the wanted name, and no data directory before it
      holds one. */
  lemma {:induction false} SearchSound(ps: seq<Dir>, i: nat, name: string, l: Located)
    requires Search(ps, i, name) == Success(Some(l))
    ensures i <= l.root < |ps| && WalkData(ps[l.root], name) == Success(Some(l.found))
    ensures forall j | i <= j < l.root :: WalkData(ps[j], name) == Success(None)
    ensures
      var k := SymbolsDir(ps[l.root].subdirs).value;
      var s := ps[l.root].subdirs[k].1;
      Reached(s, l.found.path) && At(s, l.found.path) == Some(l.found.dir) && Names(l.found.dir, name)
    decreases |ps| - i
  {
    if WalkData(ps[i], name) == Success(Some(l.found)) && l.root == i {
      WalkSound(ps[i].subdirs[SymbolsDir(ps[i].subdirs).value].1, name, l.found);
    } else {
      SearchSound(ps, i + 1, name, l);
    }
  }

  /** When `_get_symbol_path` returns None, no library reached from any data directory's
      `symbols` directory has the wanted name. */
  lemma {:induction false} SearchComplete(ps: seq<Dir>, i: nat, name: string, j: nat, p: seq<nat>)
    requires Search(ps, i, name) == Success(None)
    requires i <= j < |ps| && SymbolsDir(ps[j].subdirs).Some?
    requires
      var s := ps[j].subdirs[SymbolsDir(ps[j].subdirs).value].1;
      Reached(s, p) && At(s, p).Some?
    ensures !Names(At(ps[j].subdirs[SymbolsDir(ps[j].subdirs).value].1, p).value, name)
    decreases |ps| - i
  {
    if j == i {
      WalkComplete(ps[j].subdirs[SymbolsDir(ps[j].subdirs).value].1, name, p);
    } else {
      SearchComplete(ps, i + 1, name, j, p);
    }
  }

  /** `_get_symbol_path`: the data directories in order, each walked until a library
      named `name` turns up. */
  method GetSymbolPath(ps: seq<Dir>, name: string) returns (r: Result<Option<Located>, Exc>)
    ensures r == Search(ps, 0, name)
  {
    var i := 0;
    while i < |ps|
      invariant i <= |ps|
      invariant Search(ps, 0, name) == Search(ps, i, name)
    {
      var w := WalkData(ps[i], name);
      if w.Failure? {
        return Failure(w.error);
      } else if w.value.Some? {
        return Success(Some(Located(i, w.value.value)));
      }
      i := i + 1;
    }
    return Success(None);
  }

  // ---- ordering the library files ----

  /** Python's `a < b` on strings: code point by code point, a proper prefix first. */
  predicate StrLt(a: string, b: string)
    decreases |a|
  {
    b != [] && (a == [] || a[0] < b[0] || (a[0] == b[0] && StrLt(a[1..], b[1..])))
  }

  lemma {:induction false} StrLtAsymmetric(a: string, b: string)
    requires StrLt(a, b)
    ensures !StrLt(b, a)
    decreases |a|
  {
    if a != [] && a[0] == b[0] && StrLt(a[1..], b[1..]) {
      StrLtAsymmetric(a[1..], b[1..]);
    }
  }

  lemma KeyLtAsymmetric(x: (int, string), y: (int, string))
    requires KeyLt(x, y)
    ensures !KeyLt(y, x)
  {
    if x.0 == y.0 {
      StrLtAsymmetric(x.1, y.1);
    }
  }

  /** `nonstandard_scales_last`: files at the 48:1 scale first, then by scale. */
  function ScaleKey(name: string): (int, string) {
    var scale := SymbolScale(Stem(name));
    (if scale == "48:1" then 0 else 1, scale)
  }

  /** Python's `<` on the key tuples. */
  predicate KeyLt(x: (int, string), y: (int, string)) {
    x.0 < y.0 || (x.0 == y.0 && StrLt(x.1, y.1))
  }

  /** No element's key is smaller than its predecessor's. */
  predicate Ordered<T>(xs: seq<T>, key: T -> (int, string)) {
    forall i | 0 < i < |xs| :: !KeyLt(key(xs[i]), key(xs[i - 1]))
  }

  /** `x` placed before the first element whose key is larger. */
  function Insert<T>(x: T, s: seq<T>, key: T -> (int, string)): (r: seq<T>)
    requires Ordered(s, key)
    ensures Ordered(r, key) && multiset(r) == multiset(s) + multiset{x} && |r| == |s| + 1
    ensures r[0] == x || (s != [] && r[0] == s[0])
  {
    if s == [] then [x]
    else if KeyLt(key(x), key(s[0])) then
      KeyLtAsymmetric(key(x), key(s[0]));
      [x] + s
    else
      assert s == [s[0]] + s[1..];
      [s[0]] + Insert(x, s[1..], key)
  }

  /** `sorted(xs, key=key)`, as an insertion sort; `SortStable` shows that it keeps the
      order of equal keys as Python's sort does. */
  function SortOn<T>(xs: seq<T>, key: T -> (int, string)): (r: seq<T>)
    ensures Ordered(r, key) && multiset(r) == multiset(xs) && |r| == |xs|
  {
    if xs == [] then []
    else
      assert xs == xs[..|xs| - 1] + [xs[|xs| - 1]];
      Insert(xs[|xs| - 1], SortOn(xs[..|xs| - 1], key), key)
  }

  lemma {:induction false} StrLtTransitive(a: string, b: string, c: string)
    requires StrLt(a, b) && StrLt(b, c)
    ensures StrLt(a, c)
    decreases |a|
  {
    if a != [] && a[0] == b[0] && b[0] == c[0] {
      StrLtTransitive(a[1..], b[1..], c[1..]);
    }
  }

  lemma {:induction false} StrLtTotal(a: string, b: string)
    requires a != b
    ensures StrLt(a, b) || StrLt(b, a)
    decreases |a|
  {
    if a != [] && b != [] && a[0] == b[0] {
      assert a == [a[0]] + a[1..] && b == [b[0]] + b[1..];
      StrLtTotal(a[1..], b[1..]);
    }
  }

  /** "Not smaller" on the keys is transitive. */
  lemma NotLtTransitive(x: (int, string), y: (int, string), z: (int, string))
    requires !KeyLt(z, y) && !KeyLt(y, x)
    ensures !KeyLt(z, x)
  {
    if KeyLt(z, x) && z != y {
      if z.0 == y.0 {
        StrLtTotal(z.1, y.1);
        if y.0 == x.0 {
          StrLtTransitive(y.1, z.1, x.1);
        }
      }
    }
  }

  /** No key of an ordered sequence is smaller than its first. */
  lemma {:induction false} NoneBelowFirst<T>(s: seq<T>, key: T -> (int, string), j: nat)
    requires Ordered(s, key) && j < |s|
    ensures !KeyLt(key(s[j]), key(s[0]))
  {
    if j > 0 {
      NoneBelowFirst(s, key, j - 1);
      NotLtTransitive(key(s[0]), key(s[j - 1]), key(s[j]));
    } else {
      assert !KeyLt(key(s[0]), key(s[0])) by {
        if key(s[0]).0 == key(s[0]).0 && StrLt(key(s[0]).1, key(s[0]).1) {
          StrLtAsymmetric(key(s[0]).1, key(s[0]).1);
        }
      }
    }
  }

  /** The elements whose key is `k`, in order. */
  function WithKey<T>(xs: seq<T>, key: T -> (int, string), k: (int, string)): seq<T> {
    if xs == [] then [] else (if key(xs[0]) == k then [xs[0]] else []) + WithKey(xs[1..], key, k)
  }

  lemma {:induction false} WithKeyAppend<T>(a: seq<T>, b: seq<T>, key: T -> (int, string), k: (int, string))
    ensures WithKey(a + b, key, k) == WithKey(a, key, k) + WithKey(b, key, k)
    decreases |a|
  {
    if a == [] {
      assert a + b == b;
    } else {
      var h := if key(a[0]) == k then [a[0]] else [];
      assert (a + b)[0] == a[0] && (a + b)[1..] == a[1..] + b;
      WithKeyAppend(a[1..], b, key, k);
      AppendAssoc(h, WithKey(a[1..], key, k), WithKey(b, key, k));
    }
  }

  /** Inserting `x` puts it after every element with the same key. */
  lemma {:induction false} InsertWithKey<T>(x: T, s: seq<T>, key: T -> (int, string), k: (int, string))
    requires Ordered(s, key)
    ensures WithKey(Insert(x, s, key), key, k) == WithKey(s, key, k) + WithKey([x], key, k)
    decreases |s|
  {
    if s == [] {
      assert Insert(x, s, key) == [x];
    } else if KeyLt(key(x), key(s[0])) {
      InsertFrontWithKey(x, s, key, k);
    } else {
      InsertWithKey(x, s[1..], key, k);
      InsertLaterWithKey(x, s, key, k);
    }
  }

  lemma InsertFrontWithKey<T>(x: T, s: seq<T>, key: T -> (int, string), k: (int, string))
    requires Ordered(s, key) && s != [] && KeyLt(key(x), key(s[0]))
    ensures WithKey(Insert(x, s, key), key, k) == WithKey(s, key, k) + WithKey([x], key, k)
  {
    assert Insert(x, s, key) == [x] + s;
    WithKeyAppend([x], s, key, k);
    if key(x) == k {
      NoneWithKey(s, key, k);
    } else {
      assert WithKey([x], key, k) == [];
    }
  }

  lemma InsertLaterWithKey<T>(x: T, s: seq<T>, key: T -> (int, string), k: (int, string))
    requires Ordered(s, key) && s != [] && !KeyLt(key(x), key(s[0]))
    requires WithKey(Insert(x, s[1..], key), key, k) == WithKey(s[1..], key, k) + WithKey([x], key, k)
    ensures WithKey(Insert(x, s, key), key, k) == WithKey(s, key, k) + WithKey([x], key, k)
  {
    var rest := Insert(x, s[1..], key);
    var h, t, last := WithKey([s[0]], key, k), WithKey(s[1..], key, k), WithKey([x], key, k);
    calc {
      WithKey(Insert(x, s, key), key, k);
      { assert Insert(x, s, key) == [s[0]] + rest; }
      WithKey([s[0]] + rest, key, k);
      { WithKeyAppend([s[0]], rest, key, k); }
      h + (t + last);
      { AppendAssoc(h, t, last); }
      (h + t) + last;
      { WithKeyAppend([s[0]], s[1..], key, k); assert [s[0]] + s[1..] == s; }
      WithKey(s, key, k) + last;
    }
  }

  /** An ordered sequence whose first key is above `k` has no element keyed `k`. */
  lemma NoneWithKey<T>(s: seq<T>, key: T -> (int, string), k: (int, string))
    requires Ordered(s, key) && s != [] && KeyLt(k, key(s[0]))
    ensures WithKey(s, key, k) == []
  {
    var i := 0;
    while i < |s|
      invariant 0 <= i <= |s| && WithKey(s[..i], key, k) == []
    {
      NoneBelowFirst(s, key, i);
      assert key(s[i]) != k;
      WithKeyAppend(s[..i], [s[i]], key, k);
      assert s[..i + 1] == s[..i] + [s[i]];
      i := i + 1;
    }
    assert s[..|s|] == s;
  }

  /** The sort is stable: the elements with any one key come out in the order they went
      in. */
  lemma {:induction false} SortStable<T>(xs: seq<T>, key: T -> (int, string), k: (int, string))
    ensures WithKey(SortOn(xs, key), key, k) == WithKey(xs, key, k)
    decreases |xs|
  {
    if xs != [] {
      var init, x := xs[..|xs| - 1], xs[|xs| - 1];
      SortStable(init, key, k);
      InsertWithKey(x, SortOn(init, key), key, k);
      assert xs == init + [x];
      WithKeyAppend(init, [x], key, k);
    }
  }

  function FileKey(f: (string, Content)): (int, string) {
    ScaleKey(f.0)
  }

  /** `sorted(svg_paths, key=nonstandard_scales_last)`. */
  function SortByScale(fs: seq<(string, Content)>): seq<(string, Content)> {
    SortOn(fs, FileKey)
  }

  lemma {:induction false} KeysRise<T>(xs: seq<T>, key: T -> (int, string), i: nat, j: nat)
    requires Ordered(xs, key) && i <= j < |xs|
    ensures key(xs[i]).0 <= key(xs[j]).0
    decreases j - i
  {
    if i < j {
      assert !KeyLt(key(xs[j]), key(xs[j - 1]));
      KeysRise(xs, key, i, j - 1);
    }
  }

  /** The sort keeps the library's SVG files, and every file drawn at the 48:1 scale comes
      before every file drawn at another. */
  lemma StandardScaleFirst(fs: seq<(string, Content)>, i: nat, j: nat)
    requires i <= j < |fs|
    requires SymbolScale(Stem(SortByScale(fs)[j].0)) == "48:1"
    ensures multiset(SortByScale(fs)) == multiset(fs)
    ensures SymbolScale(Stem(SortByScale(fs)[i].0)) == "48:1"
  {
    KeysRise(SortByScale(fs), FileKey, i, j);
  }

  /** The SVG files of a library, in listing order. */
  function SvgFiles(files: seq<(string, Content)>): (r: seq<(string, Content)>)
    ensures forall f :: f in r <==> f in files && Suffix(f.0) == ".svg"
  {
    if files == [] then []
    else (if Suffix(files[0].0) == ".svg" then [files[0]] else []) + SvgFiles(files[1..])
  }

  // ---- merging the files of a library ----

  /** The state of `load_symbols`' loop: the symbols kept so far, the warnings written,
      and the exception that ended it, if one did. */
  datatype Loaded = Loaded(symbols: map<string, XNode>, notes: seq<Note>, error: Option<Exc>)

  /** One more file: a file that reuses a kept id is skipped whole. */
  function MergeFile(st: Loaded, f: (string, Content)): Loaded {
    if st.error.Some? then st
    else match f.1
      case Markup(root) =>
        var m := Accepted(Candidates(root));
        var notes := st.notes + AcceptNotes(Candidates(root), f.0);
        if exists id :: id in m && id in st.symbols then Loaded(st.symbols, notes + [DuplicateFile(f.0)], None)
        else Loaded(st.symbols + m, notes, None)
      case _ => Loaded(st.symbols, st.notes, Some(BadSvg(f.0)))
  }

  function Merged(fs: seq<(string, Content)>): Loaded {
    if fs == [] then Loaded(map[], [], None) else MergeFile(Merged(fs[..|fs| - 1]), fs[|fs| - 1])
  }

  /** `symbols` holds each symbol under its own id, and every one of them is well scoped. */
  predicate Keyed(symbols: map<string, XNode>) {
    forall id | id in symbols :: IsIdSymbol(symbols[id]) && Id(symbols[id]) == Some(id) && Scoped(symbols[id])
  }

  lemma AcceptedKeyed(cs: seq<XNode>)
    requires forall k | 0 <= k < |cs| :: IsIdSymbol(cs[k])
    ensures Keyed(Accepted(cs))
  {
    forall id | id in Accepted(cs)
      ensures IsIdSymbol(Accepted(cs)[id]) && Id(Accepted(cs)[id]) == Some(id) && Scoped(Accepted(cs)[id])
    {
      AcceptedFromCandidates(cs, id);
    }
  }

  /** Every symbol the library yields is filed under its own id and well scoped. */
  lemma {:induction false} MergedKeyed(fs: seq<(string, Content)>)
    ensures Keyed(Merged(fs).symbols)
  {
    if fs != [] {
      MergedKeyed(fs[..|fs| - 1]);
      var f := fs[|fs| - 1];
      if f.1.Markup? {
        AcceptedKeyed(Candidates(f.1.root));
      }
    }
  }

  /** A later file never replaces a symbol an earlier file supplied. */
  lemma {:induction false} MergedKeepsEarlier(fs: seq<(string, Content)>, i: nat)
    requires i <= |fs|
    ensures forall id | id in Merged(fs[..i]).symbols :: id in Merged(fs).symbols && Merged(fs).symbols[id] == Merged(fs[..i]).symbols[id]
    decreases |fs| - i
  {
    if i < |fs| {
      var p := fs[..|fs| - 1];
      assert p[..i] == fs[..i];
      MergedKeepsEarlier(p, i);
    } else {
      assert fs[..i] == fs;
    }
  }

  /** Once a file fails to load, nothing after it is merged. */
  lemma {:induction false} MergedStops(fs: seq<(string, Content)>, i: nat)
    requires i <= |fs| && Merged(fs[..i]).error.Some?
    ensures Merged(fs) == Merged(fs[..i])
    decreases |fs| - i
  {
    if i < |fs| {
      var p := fs[..|fs| - 1];
      assert p[..i] == fs[..i];
      MergedStops(p, i);
    } else {
      assert fs[..i] == fs;
    }
  }

  /** What `load_symbols` arrives at. */
  function Library(ps: seq<Dir>, name: string): Loaded {
    match Search(ps, 0, name)
    case Failure(e) => Loaded(map[], [], Some(e))
    case Success(None) => Loaded(map[], [], Some(NoSymbolSet(name)))
    case Success(Some(l)) => Merged(SortByScale(SvgFiles(l.found.dir.files)))
  }

  /** One file of `load_symbols`' loop. */
  method LoadFile(st: Loaded, f: (string, Content)) returns (next: Loaded)
    requires st.error.None?
    ensures next == MergeFile(st, f)
  {
    if !f.1.Markup? {
      return Loaded(st.symbols, st.notes, Some(BadSvg(f.0)));
    }
    var symbols, notes := LoadSymbolsFromSvg(f.1.root, f.0);
    if exists id :: id in symbols && id in st.symbols {
      next := Loaded(st.symbols, st.notes + notes + [DuplicateFile(f.0)], None);
    } else {
      next := Loaded(st.symbols + symbols, st.notes + notes, None);
    }
  }

  /** `load_symbols`' loop over the sorted files, up to the first that fails to load. */
  method MergeFiles(files: seq<(string, Content)>) returns (lib: Loaded)
    ensures lib == Merged(files)
  {
    lib := Loaded(map[], [], None);
    for i := 0 to |files|
      invariant lib.error.None? && lib == Merged(files[..i])
    {
      assert files[..i + 1][..i] == files[..i];
      lib := LoadFile(lib, files[i]);
      if lib.error.Some? {
        MergedStops(files, i + 1);
        return;
      }
    }
    TakeAll(files);
  }

  /** `load_symbols`: find the library, then merge its SVG files, 48:1 first. */
  method LoadSymbols(ps: seq<Dir>, name: string) returns (lib: Loaded)
    ensures lib == Library(ps, name)
  {
    var found := GetSymbolPath(ps, name);
    if found.Failure? {
      return Loaded(map[], [], Some(found.error));
    } else if found.value.None? {
      return Loaded(map[], [], Some(NoSymbolSet(name)));
    }
    lib := MergeFiles(SortByScale(SvgFiles(found.value.value.found.dir.files)));
  }

  /** Every symbol `load_symbols` yields is filed under its own id and well scoped. */
  lemma LibraryKeyed(ps: seq<Dir>, name: string)
    ensures Keyed(Library(ps, name).symbols)
  {
    if Search(ps, 0, name).Success? && Search(ps, 0, name).value.Some? {
      MergedKeyed(SortByScale(SvgFiles(Search(ps, 0, name).value.value.found.dir.files)));
    }
  }

  // ---- refreshing the drawing ----

  /** The position of the drawing's first `<defs>`: `svg.findone("svg:defs")`. */
  function FirstDefs(xs: seq<XNode>): (r: Option<nat>)
    ensures r.Some? ==> r.value < |xs| && xs[r.value].tag == Defs && forall k | 0 <= k < r.value :: xs[k].tag != Defs
    ensures r.None? ==> forall k | 0 <= k < |xs| :: xs[k].tag != Defs
  {
    if xs == [] then None
    else if xs[0].tag == Defs then Some(0)
    else match FirstDefs(xs[1..])
      case Some(k) => Some(k + 1)
      case None =>
        assert forall k | 0 < k < |xs| :: xs[k] == xs[1..][k - 1];
        None
  }

  /** A symbol with an id the library has is swapped for the library's version. */
  function Replaced(x: XNode, symbols: map<string, XNode>): XNode {
    if IsIdSymbol(x) && Id(x).value in symbols then symbols[Id(x).value] else x
  }

  function ReplaceAll(xs: seq<XNode>, symbols: map<string, XNode>): (r: seq<XNode>)
    ensures |r| == |xs|
    ensures forall k | 0 <= k < |xs| :: r[k] == Replaced(xs[k], symbols)
  {
    if xs == [] then [] else [Replaced(xs[0], symbols)] + ReplaceAll(xs[1..], symbols)
  }

  /** The "Updating #id" lines, one per symbol swapped, in document order. */
  function UpdateNotes(xs: seq<XNode>, symbols: map<string, XNode>): seq<Note> {
    if xs == [] then []
    else
      var here := if IsIdSymbol(xs[0]) && Id(xs[0]).value in symbols then [Updating(Id(xs[0]).value)] else [];
      here + UpdateNotes(xs[1..], symbols)
  }

  /** `update_symbols` as a value: the root with its first `<defs>` refreshed, and the lines
      written; a drawing without `<defs>` fails. */
  function Refresh(root: XNode, symbols: map<string, XNode>): Result<(XNode, seq<Note>), Exc> {
    match FirstDefs(root.children)
    case None => Failure(NoDefs)
    case Some(i) =>
      var defs := root.children[i];
      Success((root.(children := root.children[i := defs.(children := ReplaceAll(defs.children, symbols))]),
               UpdateNotes(defs.children, symbols)))
  }

  /** Every symbol in `xs` that the library has is the library's version. */
  predicate Current(xs: seq<XNode>, symbols: map<string, XNode>) {
    forall k | 0 <= k < |xs| && IsIdSymbol(xs[k]) && Id(xs[k]).value in symbols :: xs[k] == symbols[Id(xs[k]).value]
  }

  /** After the refresh no stale copy of a library symbol is left in the first `<defs>`,
      the rest of the drawing is as it was, and refreshing again changes nothing. */
  lemma RefreshCurrent(root: XNode, symbols: map<string, XNode>)
    requires Keyed(symbols) && Refresh(root, symbols).Success?
    ensures
      var after := Refresh(root, symbols).value.0;
      var i := FirstDefs(root.children).value;
      && FirstDefs(after.children) == Some(i)
      && Current(after.children[i].children, symbols)
      && |after.children| == |root.children|
      && (forall k | 0 <= k < |root.children| && k != i :: after.children[k] == root.children[k])
      && Refresh(after, symbols).value.0 == after
  {
    var i := FirstDefs(root.children).value;
    var after := Refresh(root, symbols).value.0;
    assert FirstDefs(after.children) == Some(i) by {
      FirstDefsAt(after.children, i);
    }
    ReplaceAllTwice(root.children[i].children, symbols);
  }

  /** Replacing twice is replacing once. */
  lemma ReplaceAllTwice(xs: seq<XNode>, symbols: map<string, XNode>)
    requires Keyed(symbols)
    ensures var once := ReplaceAll(xs, symbols); ReplaceAll(once, symbols) == once && Current(once, symbols)
  {
    var once := ReplaceAll(xs, symbols);
    forall k | 0 <= k < |once| ensures Replaced(once[k], symbols) == once[k] {
      ReplacedTwice(xs[k], symbols);
    }
  }

  lemma ReplacedTwice(x: XNode, symbols: map<string, XNode>)
    requires Keyed(symbols)
    ensures Replaced(Replaced(x, symbols), symbols) == Replaced(x, symbols)
  {
  }

  lemma FirstDefsAt(xs: seq<XNode>, i: nat)
    requires i < |xs| && xs[i].tag == Defs && forall k | 0 <= k < i :: xs[k].tag != Defs
    ensures FirstDefs(xs) == Some(i)
  {
  }

  /** The drawing an extension works on, updated in place. */
  class Drawing {
    var root: XNode

    constructor(root: XNode)
      ensures this.root == root
    {
      this.root := root;
    }
  }

  /** `update_symbols`: each symbol with an id in the first `<defs>` whose id the library
      has is replaced by the library's symbol. */
  method UpdateSymbolsIn(doc: Drawing, symbols: map<string, XNode>) returns (r: Result<seq<Note>, Exc>)
    modifies doc
    ensures Refresh(old(doc.root), symbols).Failure? ==> r == Failure(NoDefs) && doc.root == old(doc.root)
    ensures Refresh(old(doc.root), symbols).Success? ==>
      r == Success(Refresh(old(doc.root), symbols).value.1) && doc.root == Refresh(old(doc.root), symbols).value.0
  {
    var root := doc.root;
    var at := FirstDefs(root.children);
    if at.None? {
      return Failure(NoDefs);
    }
    var i := at.value;
    var defs := root.children[i];
    var kids := defs.children;
    var out, notes := [], [];
    for j := 0 to |kids|
      invariant out == ReplaceAll(kids[..j], symbols)
      invariant notes == UpdateNotes(kids[..j], symbols)
    {
      NotesOneMore(kids, j, symbols);
      var x := kids[j];
      if IsIdSymbol(x) && Id(x).value in symbols {
        notes := notes + [Updating(Id(x).value)];
        out := out + [symbols[Id(x).value]];
      } else {
        out := out + [x];
      }
    }
    TakeAll(kids);
    doc.root := root.(children := root.children[i := defs.(children := out)]);
    return Success(notes);
  }

  lemma {:induction false} NotesOneMore(xs: seq<XNode>, j: nat, symbols: map<string, XNode>)
    requires j < |xs|
    ensures ReplaceAll(xs[..j + 1], symbols) == ReplaceAll(xs[..j], symbols) + [Replaced(xs[j], symbols)]
    ensures UpdateNotes(xs[..j + 1], symbols) == UpdateNotes(xs[..j], symbols)
      + (if IsIdSymbol(xs[j]) && Id(xs[j]).value in symbols then [Updating(Id(xs[j]).value)] else [])
    decreases j
  {
    if j > 0 {
      NotesOneMore(xs[1..], j - 1, symbols);
      assert xs[1..][..j] == xs[..j + 1][1..];
      assert xs[1..][..j - 1] == xs[..j][1..];
    }
  }

  /** `UpdateSymbols.effect`: load the `bh-symbols` library from the system and user data
      directories `ps` and refresh the drawing; any exception is reported and the
      drawing is left alone. */
  method Effect(doc: Drawing, ps: seq<Dir>) returns (ok: bool, notes: seq<Note>)
    modifies doc
    ensures var lib := Library(ps, "bh-symbols");
      ok <==> lib.error.None? && Refresh(old(doc.root), lib.symbols).Success?
    ensures var lib := Library(ps, "bh-symbols");
      ok ==> (doc.root == Refresh(old(doc.root), lib.symbols).value.0
        && notes == lib.notes + Refresh(old(doc.root), lib.symbols).value.1)
    ensures var lib := Library(ps, "bh-symbols");
      !ok ==> (doc.root == old(doc.root)
        && notes == lib.notes + [Reported(if lib.error.Some? then lib.error.value else NoDefs)])
  {
    var lib := LoadSymbols(ps, "bh-symbols");
    if lib.error.Some? {
      return false, lib.notes + [Reported(lib.error.value)];
    }
    var r := UpdateSymbolsIn(doc, lib.symbols);
    if r.Failure? {
      return false, lib.notes + [Reported(r.error)];
    }
    return true, lib.notes + r.value;
  }
}
