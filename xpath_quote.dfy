/** Quoting a string for an XPath expression, as the rat hider does when it looks up guide
    rectangles by mode: a string without `"` goes in double quotes, one without `'` in
    single quotes, and one with both becomes `concat(...)` of pieces that each lack one of
    the two. An XPath 1.0 string-literal evaluator stands beside it as the reference. */
module XPathQuote {
  import opened Wrappers
  import opened Strings

  const DQ: char := '"'
  const SQ: char := '\''

  /** The longest prefix of `s` without `c`. */
  function RunWithout(s: string, c: char): (r: string)
    ensures |r| <= |s| && r == s[..|r|]
    ensures c !in r
    ensures |r| < |s| ==> s[|r|] == c
  {
    if s == [] || s[0] == c then [] else [s[0]] + RunWithout(s[1..], c)
  }

  /** The first match of `[^"]+|[^\']+` at the start of a non-empty `s`: the longest run
      without `"` or, at a `"`, the longest run without `'`. */
  function FirstPiece(s: string): (p: string)
    requires s != []
    ensures 0 < |p| <= |s| && p == s[..|p|]
    ensures DQ !in p || SQ !in p
  {
    if s[0] != DQ then RunWithout(s, DQ) else RunWithout(s, SQ)
  }

  /** `re.findall('[^"]+|[^\']+', s)`: the input cut into its successive first pieces. */
  function Pieces(s: string): (r: seq<string>)
    ensures forall i | 0 <= i < |r| :: r[i] != [] && (DQ !in r[i] || SQ !in r[i])
    decreases |s|
  {
    if s == [] then []
    else
      var p := FirstPiece(s);
      [p] + Pieces(s[|p|..])
  }

  /** 1 for a string holding both quote kinds, else 0. */
  function Kind(s: string): nat {
    if DQ !in s || SQ !in s then 0 else 1
  }

  /** `_xp_str(s)`. */
  function XpStr(s: string): string
    decreases Kind(s), 0, 0
  {
    if DQ !in s then [DQ] + s + [DQ]
    else if SQ !in s then [SQ] + s + [SQ]
    else "concat(" + Join(XpStrEach(Pieces(s)), ",") + ")"
  }

  /** `map(_xp_str, strs)`. */
  function XpStrEach(ps: seq<string>): (r: seq<string>)
    requires forall i | 0 <= i < |ps| :: DQ !in ps[i] || SQ !in ps[i]
    ensures |r| == |ps|
    decreases 0, 1, |ps|
  {
    if ps == [] then [] else [XpStr(ps[0])] + XpStrEach(ps[1..])
  }

  // ---- XPath 1.0 string literals (section 3.7) and `concat` (section 4.2) ----

  /** The string literal at the start of `t` and what follows it. */
  function Literal(t: string): (r: Option<(string, string)>)
    ensures r.Some? ==> |r.value.0| + |r.value.1| + 2 == |t|
  {
    if t == [] || (t[0] != DQ && t[0] != SQ) then None
    else
      var body := RunWithout(t[1..], t[0]);
      if |body| == |t| - 1 then None
      else Some((body, t[|body| + 2..]))
  }

  /** `lit, lit, ..., lit)`: the values of the literals. */
  function Args(t: string): Option<seq<string>>
    decreases |t|
  {
    match Literal(t)
    case None => None
    case Some((v, rest)) =>
      if rest == ")" then Some([v])
      else if rest != [] && rest[0] == ',' then
        match Args(rest[1..])
        case None => None
        case Some(vs) => Some([v] + vs)
      else None
  }

  /** The value of a string literal, or of `concat` applied to two or more literals. */
  function Eval(e: string): Option<string> {
    if StartsWith(e, "concat(") then
      match Args(e[7..])
      case Some(vs) => if |vs| >= 2 then Some(Join(vs, "")) else None
      case None => None
    else
      match Literal(e)
      case Some((v, rest)) => if rest == [] then Some(v) else None
      case None => None
  }

  // ---- the round trip ----

  lemma {:induction false} RunWithoutPrefix(v: string, c: char, tail: string)
    requires c !in v
    ensures RunWithout(v + [c] + tail, c) == v
  {
    if v != [] {
      assert (v + [c] + tail)[1..] == v[1..] + [c] + tail;
      RunWithoutPrefix(v[1..], c, tail);
    }
  }

  /** A quoted value reads back as the value, leaving what follows the closing quote. */
  lemma LiteralQuoted(q: char, v: string, rest: string)
    requires (q == DQ || q == SQ) && q !in v
    ensures Literal([q] + v + [q] + rest) == Some((v, rest))
  {
    var t := [q] + v + [q] + rest;
    assert t[1..] == v + [q] + rest;
    RunWithoutPrefix(v, q, rest);
    assert t[|v| + 2..] == rest;
  }

  /** A piece is quoted with a quote it does not contain. */
  lemma XpStrPiece(p: string, rest: string)
    requires DQ !in p || SQ !in p
    ensures Literal(XpStr(p) + rest) == Some((p, rest))
  {
    if DQ !in p {
      LiteralQuoted(DQ, p, rest);
    } else {
      LiteralQuoted(SQ, p, rest);
    }
  }

  /** The quoted pieces, joined by commas and closed, read back as the pieces. */
  lemma {:induction false} ArgsJoin(ps: seq<string>)
    requires ps != []
    requires forall i | 0 <= i < |ps| :: DQ !in ps[i] || SQ !in ps[i]
    ensures Args(Join(XpStrEach(ps), ",") + ")") == Some(ps)
  {
    var qs := XpStrEach(ps);
    if |ps| == 1 {
      assert qs == [XpStr(ps[0])];
      assert Join(qs, ",") == XpStr(ps[0]);
      XpStrPiece(ps[0], ")");
      assert ps == [ps[0]];
    } else {
      var tail := Join(XpStrEach(ps[1..]), ",") + ")";
      assert Join(qs, ",") + ")" == XpStr(ps[0]) + ("," + tail);
      XpStrPiece(ps[0], "," + tail);
      assert ("," + tail)[1..] == tail;
      ArgsJoin(ps[1..]);
      assert ps == [ps[0]] + ps[1..];
    }
  }

  /** The pieces put back together are the input: the assertion `''.join(strs) == s`. */
  lemma JoinCons(p: string, ps: seq<string>)
    ensures Join([p] + ps, "") == p + Join(ps, "")
  {
    if ps != [] {
      assert ([p] + ps)[1..] == ps;
    }
  }

  /** The pieces put back together are the input: the assertion `''.join(strs) == s`. */
  lemma {:induction false} PiecesJoin(s: string)
    ensures Join(Pieces(s), "") == s
    decreases |s|
  {
    if s != [] {
      var p := FirstPiece(s);
      var rest := s[|p|..];
      PiecesJoin(rest);
      JoinCons(p, Pieces(rest));
      assert s == s[..|p|] + rest;
    }
  }

  /** A string with both quote kinds splits into at least two pieces, as `concat` needs. */
  lemma PiecesOfBoth(s: string)
    requires Kind(s) == 1
    ensures |Pieces(s)| >= 2
  {
    PiecesJoin(s);
  }

  /** A quoted string without its own quote evaluates to itself. */
  lemma EvalQuoted(q: char, s: string)
    requires (q == DQ || q == SQ) && q !in s
    ensures Eval([q] + s + [q]) == Some(s)
  {
    var e := [q] + s + [q];
    assert e[0] == q && !StartsWith(e, "concat(");
    LiteralQuoted(q, s, []);
    assert e + [] == e;
  }

  /** The `concat(...)` form evaluates to the joined pieces. */
  lemma EvalConcat(s: string)
    requires Kind(s) == 1
    ensures Eval(XpStr(s)) == Some(s)
  {
    var ps := Pieces(s);
    PiecesOfBoth(s);
    var body := Join(XpStrEach(ps), ",") + ")";
    var e := XpStr(s);
    assert e == "concat(" + body;
    assert StartsWith(e, "concat(") && e[7..] == body;
    ArgsJoin(ps);
    PiecesJoin(s);
  }

  /** Quoting then evaluating gives the string back, for every string. */
  lemma EvalXpStr(s: string)
    ensures Eval(XpStr(s)) == Some(s)
  {
    if DQ !in s {
      EvalQuoted(DQ, s);
    } else if SQ !in s {
      EvalQuoted(SQ, s);
    } else {
      EvalConcat(s);
    }
  }
}
