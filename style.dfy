/** The CSS `style` attribute as an insertion-ordered dictionary, after the `Style`
    class of bh-create-inset.py: parsing splits on `;`, partitions each piece at its
    first `:`, strips both halves and lets a later property override an earlier one;
    printing joins `prop:value` pairs with `;`. */
module Style {
  import opened Wrappers
  import opened Strings

  type Decl = (string, string)

  /** A Python dict from property to value: keys in insertion order. */
  type Style = seq<Decl>

  function Get(st: Style, prop: string): Option<string> {
    if st == [] then None
    else if st[0].0 == prop then Some(st[0].1)
    else Get(st[1..], prop)
  }

  predicate UniqueKeys(st: Style) {
    forall i, j :: 0 <= i < j < |st| ==> st[i].0 != st[j].0
  }

  /** `st[prop] = value`: an existing key keeps its position, a new key goes last. */
  function Put(st: Style, prop: string, value: string): (r: Style)
    ensures Get(r, prop) == Some(value)
    ensures forall p :: p != prop ==> Get(r, p) == Get(st, p)
    ensures Get(st, prop).None? ==> r == st + [(prop, value)]
  {
    if st == [] then [(prop, value)]
    else if st[0].0 == prop then [(prop, value)] + st[1..]
    else [st[0]] + Put(st[1..], prop, value)
  }

  lemma {:induction false} GetNoneIffAbsent(st: Style, prop: string)
    ensures Get(st, prop).None? <==> forall i :: 0 <= i < |st| ==> st[i].0 != prop
  {
    if st != [] {
      GetNoneIffAbsent(st[1..], prop);
      assert forall i :: 1 <= i < |st| ==> st[i] == st[1..][i - 1];
    }
  }

  lemma {:induction false} PutUnique(st: Style, prop: string, value: string)
    requires UniqueKeys(st)
    ensures UniqueKeys(Put(st, prop, value))
  {
    if st != [] && st[0].0 != prop {
      PutUnique(st[1..], prop, value);
      var rest := Put(st[1..], prop, value);
      GetNoneIffAbsent(st[1..], st[0].0);
      GetNoneIffAbsent(rest, st[0].0);
      assert Put(st, prop, value) == [st[0]] + rest;
    }
  }

  lemma {:induction false} PutWellFormed(st: Style, prop: string, value: string)
    requires WellFormed(st) && WellFormedDecl((prop, value))
    ensures WellFormed(Put(st, prop, value))
  {
    PutUnique(st, prop, value);
    if st != [] && st[0].0 != prop {
      PutWellFormed(st[1..], prop, value);
    }
  }

  /** A style value that survives printing and re-parsing unchanged. */
  predicate WellFormedDecl(d: Decl) {
    Stripped(d.0) && Stripped(d.1) && ';' !in d.0 && ':' !in d.0 && ';' !in d.1
  }

  predicate WellFormed(st: Style) {
    UniqueKeys(st) && forall i :: 0 <= i < |st| ==> WellFormedDecl(st[i])
  }

  // ---- parsing ----

  function IndexOf(s: string, c: char): (r: Option<nat>)
    ensures r.Some? ==> r.value < |s| && s[r.value] == c && c !in s[..r.value]
    ensures r.None? ==> c !in s
  {
    if s == [] then None
    else if s[0] == c then Some(0)
    else match IndexOf(s[1..], c)
      case None => None
      case Some(i) => assert s[..i + 1] == [s[0]] + s[1..][..i]; Some(i + 1)
  }

  /** One `;`-separated piece: `prop, sep, value = piece.partition(':')`, kept only if `sep`. */
  function Declaration(piece: string): Option<Decl> {
    match IndexOf(piece, ':')
    case None => None
    case Some(i) => Some((Strip(piece[..i]), Strip(piece[i + 1..])))
  }

  /** One step of the parsing loop: a piece without `:` is ignored. */
  function Feed(st: Style, piece: string): Style {
    match Declaration(piece)
    case None => st
    case Some(d) => Put(st, d.0, d.1)
  }

  /** The dictionary after feeding `pieces` in order. */
  function ParsePieces(pieces: seq<string>): Style {
    if pieces == [] then [] else Feed(ParsePieces(pieces[..|pieces| - 1]), pieces[|pieces| - 1])
  }

  /** `Style(raw)`; `None` is a missing `style` attribute. */
  function Parsed(raw: Option<string>): Style {
    match raw
    case None => []
    case Some(s) => ParsePieces(Split(s, ';'))
  }

  /** `Style.__init__`: the loop that fills the dictionary. */
  method ParseStyle(raw: Option<string>) returns (st: Style)
    ensures st == Parsed(raw)
    ensures WellFormed(st)
  {
    st := [];
    if raw.Some? {
      var pieces := Split(raw.value, ';');
      for i := 0 to |pieces|
        invariant st == ParsePieces(pieces[..i])
      {
        assert pieces[..i + 1][..i] == pieces[..i];
        assert ParsePieces(pieces[..i + 1]) == Feed(st, pieces[i]);
        var d := Declaration(pieces[i]);
        if d.Some? {
          st := Put(st, d.value.0, d.value.1);
        }
      }
      TakeAll(pieces);
    }
    ParsedWellFormed(raw);
  }

  // ---- printing ----

  function DeclText(d: Decl): string {
    d.0 + ":" + d.1
  }

  function DeclTexts(st: Style): (r: seq<string>)
    ensures |r| == |st| && forall i :: 0 <= i < |st| ==> r[i] == DeclText(st[i])
  {
    if st == [] then [] else [DeclText(st[0])] + DeclTexts(st[1..])
  }

  /** `Style.__str__`. */
  function Serialise(st: Style): string {
    Join(DeclTexts(st), ";")
  }

  // ---- laws ----

  lemma DeclarationOfDeclText(d: Decl)
    requires WellFormedDecl(d)
    ensures Declaration(DeclText(d)) == Some(d)
  {
    var s := DeclText(d);
    var i := |d.0|;
    assert s[i] == ':' && s[..i] == d.0;
    IndexOfAt(s, ':', i);
    assert s[i + 1..] == d.1;
    StripIsStripped(d.0);
    StripIsStripped(d.1);
  }

  /** The first occurrence is the one found. */
  lemma IndexOfAt(s: string, c: char, i: nat)
    requires i < |s| && s[i] == c && c !in s[..i]
    ensures IndexOf(s, c) == Some(i)
  {
    var r := IndexOf(s, c);
    assert s[i] in s;
    var j := r.value;
    assert forall k | 0 <= k < i :: s[..i][k] == s[k];
    assert forall k | 0 <= k < j :: s[..j][k] == s[k];
  }

  lemma StrippedDecl(p: string, v: string)
    requires ';' !in p && ':' !in p && ';' !in v
    ensures WellFormedDecl((Strip(p), Strip(v)))
  {
    StripIsStripped(p);
    StripIsStripped(v);
    StripChars(p, ';');
    StripChars(p, ':');
    StripChars(v, ';');
  }

  lemma DeclarationWellFormed(piece: string)
    requires ';' !in piece
    ensures Declaration(piece).Some? ==> WellFormedDecl(Declaration(piece).value)
  {
    var r := IndexOf(piece, ':');
    if r.Some? {
      var i := r.value;
      SliceFree(piece, ';', 0, i);
      SliceFree(piece, ';', i + 1, |piece|);
      StrippedDecl(piece[..i], piece[i + 1..]);
    }
  }

  lemma {:induction false} ParsePiecesWellFormed(pieces: seq<string>)
    requires forall i :: 0 <= i < |pieces| ==> ';' !in pieces[i]
    ensures WellFormed(ParsePieces(pieces))
  {
    if pieces != [] {
      var init := pieces[..|pieces| - 1];
      ParsePiecesWellFormed(init);
      DeclarationWellFormed(pieces[|pieces| - 1]);
      var d := Declaration(pieces[|pieces| - 1]);
      if d.Some? {
        PutWellFormed(ParsePieces(init), d.value.0, d.value.1);
      }
    }
  }

  /** Every parsed style is well formed: unique, stripped, `;`-free properties and values. */
  lemma ParsedWellFormed(raw: Option<string>)
    ensures WellFormed(Parsed(raw))
  {
    if raw.Some? {
      ParsePiecesWellFormed(Split(raw.value, ';'));
    }
  }

  lemma {:induction false} ParseDeclTexts(st: Style, n: nat)
    requires WellFormed(st) && n <= |st|
    ensures ParsePieces(DeclTexts(st)[..n]) == st[..n]
  {
    if n > 0 {
      var texts := DeclTexts(st);
      ParseDeclTexts(st, n - 1);
      ParsePiecesLast(texts[..n]);
      TakeTake(texts, n - 1, n);
      NotAmongEarlierKeys(st, n - 1);
      FeedDecl(st[..n - 1], st[n - 1]);
      TakeLast(st, n);
    }
  }

  lemma ParsePiecesLast(pieces: seq<string>)
    requires pieces != []
    ensures ParsePieces(pieces) == Feed(ParsePieces(pieces[..|pieces| - 1]), pieces[|pieces| - 1])
  {
  }

  /** Feeding the text of a declaration whose property is new appends it. */
  lemma FeedDecl(st: Style, d: Decl)
    requires WellFormedDecl(d) && Get(st, d.0).None?
    ensures Feed(st, DeclText(d)) == st + [d]
  {
    DeclarationOfDeclText(d);
  }

  lemma {:induction false} NotAmongEarlierKeys(st: Style, n: nat)
    requires UniqueKeys(st) && n < |st|
    ensures Get(st[..n], st[n].0).None?
  {
    GetNoneIffAbsent(st[..n], st[n].0);
  }

  /** Printing then parsing a well-formed style gives it back (same properties, same order). */
  lemma ParseSerialise(st: Style)
    requires WellFormed(st)
    ensures Parsed(Some(Serialise(st))) == st
  {
    if st == [] {
      ParseEmpty();
    } else {
      var texts := DeclTexts(st);
      DeclTextsFree(st);
      SplitJoin(texts, ';');
      ParseDeclTexts(st, |st|);
      assert texts[..|st|] == texts && st[..|st|] == st;
    }
  }

  /** An empty `style` attribute parses to the empty dictionary. */
  lemma ParseEmpty()
    ensures Parsed(Some("")) == []
  {
    assert Split("", ';') == [""];
    assert IndexOf("", ':').None?;
    assert ParsePieces([""]) == Feed([], "");
  }

  /** No printed declaration of a well-formed style holds a `;`. */
  lemma DeclTextsFree(st: Style)
    requires WellFormed(st)
    ensures forall i :: 0 <= i < |st| ==> ';' !in DeclTexts(st)[i]
  {
    forall i | 0 <= i < |st| ensures ';' !in DeclTexts(st)[i] {
      assert WellFormedDecl(st[i]);
      assert DeclTexts(st)[i] == st[i].0 + ":" + st[i].1;
    }
  }

  /** Reference reading of a parsed style: the value of the last piece that names `prop`. */
  function LastValue(pieces: seq<string>, prop: string): Option<string> {
    if pieces == [] then None
    else match Declaration(pieces[|pieces| - 1])
      case Some(d) => if d.0 == prop then Some(d.1) else LastValue(pieces[..|pieces| - 1], prop)
      case None => LastValue(pieces[..|pieces| - 1], prop)
  }

  /** A later duplicate property overrides an earlier one. */
  lemma {:induction false} GetParsePieces(pieces: seq<string>, prop: string)
    ensures Get(ParsePieces(pieces), prop) == LastValue(pieces, prop)
  {
    if pieces != [] {
      var init := pieces[..|pieces| - 1];
      GetParsePieces(init, prop);
    }
  }

  /** `style[prop] = value` on a stored attribute, as the first copy's `Style` class does
      it: names are kept as written (inkex would lower-case them), and the properties are
      printed in the order they were first set. */
  function SetProperty(raw: Option<string>, prop: string, value: string): string {
    Serialise(Put(Parsed(raw), prop, value))
  }

  /** After setting one property, re-parsing shows the new value and every other property unchanged. */
  lemma SetPropertyEffect(raw: Option<string>, prop: string, value: string)
    requires WellFormedDecl((prop, value))
    ensures Get(Parsed(Some(SetProperty(raw, prop, value))), prop) == Some(value)
    ensures forall p :: p != prop ==> Get(Parsed(Some(SetProperty(raw, prop, value))), p) == Get(Parsed(raw), p)
  {
    var st := Parsed(raw);
    ParsedWellFormed(raw);
    var r := Put(st, prop, value);
    PutWellFormed(st, prop, value);
    ParseSerialise(r);
  }
}
