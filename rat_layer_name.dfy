/** The name given to a new blind's rat layer: the child layers of the blind's parent are
    labelled like `[o] Blind 3`, and the new layer takes the common `[o…]` name with the
    next number. Labels are matched against `^(\[o.*?\].*?)\s+(\d+)\s*$`; the digits are
    ASCII digits. */
module RatLayerName {
  import opened Wrappers
  import opened Strings

  /** What `_dwim_rat_layer_name` raises. */
  datatype Exc = ValueError

  /** The class of characters a run is made of: digits, or whitespace. */
  predicate InRun(c: char, digits: bool) {
    if digits then IsDigit(c) else IsSpace(c)
  }

  /** The start of the longest run of `digits`-class characters that ends at `e`. */
  function RunStart(s: string, e: nat, digits: bool): (r: nat)
    requires e <= |s|
    ensures r <= e
    ensures forall i {:trigger InRun(s[i], digits)} | r <= i < e :: InRun(s[i], digits)
    ensures r == 0 || !InRun(s[r - 1], digits)
  {
    if e > 0 && InRun(s[e - 1], digits) then RunStart(s, e - 1, digits) else e
  }

  /** A run found by its two ends. */
  lemma {:induction false} RunStartAt(s: string, k: nat, e: nat, digits: bool)
    requires k <= e <= |s|
    requires forall i | k <= i < e :: InRun(s[i], digits)
    requires k == 0 || !InRun(s[k - 1], digits)
    ensures RunStart(s, e, digits) == k
    decreases e
  {
    if e > k {
      RunStartAt(s, k, e - 1, digits);
    }
  }

  /** What `\[o.*?\]` and `.*?` can match as the first group: `[o`, then a `]` later on,
      and no line break, which `.` does not match. */
  predicate NamePattern(g: string) {
    |g| >= 2 && g[0] == '[' && g[1] == 'o' && ']' in g[2..] && '\n' !in g
  }

  predicate AllSpace(w: string) {
    forall i | 0 <= i < |w| :: IsSpace(w[i])
  }

  predicate AllDigits(d: string) {
    forall i | 0 <= i < |d| :: IsDigit(d[i])
  }

  /** `pat.match(label).groups()`: the name and the number's digits, or `None` when the
      label does not match. From the end: trailing whitespace, the number, the whitespace
      before it (the lazy first group leaves all of it out), and the name. */
  function LabelMatch(text: string): Option<(string, string)> {
    var e := RunStart(text, |text|, false);
    var d := RunStart(text, e, true);
    var w := RunStart(text, d, false);
    if d == e || w == d || !NamePattern(text[..w]) then None
    else Some((text[..w], text[d..e]))
  }

  /** No character is both whitespace and a digit. */
  lemma SpaceNotDigit(c: char)
    ensures IsSpace(c) ==> !IsDigit(c)
  {
  }

  /** The parts of a match: the name, which does not end in whitespace, and the digits. */
  predicate Parts(m: (string, string)) {
    NamePattern(m.0) && !IsSpace(m.0[|m.0| - 1]) && m.1 != [] && AllDigits(m.1)
  }

  /** A match splits the label into the name, whitespace, the digits and whitespace. */
  lemma LabelMatchSound(text: string)
    requires LabelMatch(text).Some?
    ensures Parts(LabelMatch(text).value)
    ensures var (g, d) := LabelMatch(text).value;
      exists w1: string, w2: string
        :: w1 != [] && AllSpace(w1) && AllSpace(w2) && text == g + w1 + d + w2
  {
    var e := RunStart(text, |text|, false);
    var d := RunStart(text, e, true);
    var w := RunStart(text, d, false);
    RunSlice(text, w, d, false);
    RunSlice(text, d, e, true);
    RunSlice(text, e, |text|, false);
    Split4(text, w, d, e);
    var g, w1, dd, w2 := text[..w], text[w..d], text[d..e], text[e..];
    assert g[|g| - 1] == text[w - 1];
    assert w1 != [] && AllSpace(w1) && AllSpace(w2) && text == g + w1 + dd + w2;
  }

  /** A run, cut out, is all digits or all whitespace. */
  lemma RunSlice(s: string, a: nat, b: nat, digits: bool)
    requires a <= b <= |s| && forall i | a <= i < b :: InRun(s[i], digits)
    ensures digits ==> AllDigits(s[a..b])
    ensures !digits ==> AllSpace(s[a..b])
  {
    forall i | 0 <= i < b - a ensures InRun(s[a..b][i], digits) {
      assert s[a..b][i] == s[a + i];
    }
  }

  /** A string is its four consecutive slices. */
  lemma Split4(s: string, w: nat, d: nat, e: nat)
    requires w <= d <= e <= |s|
    ensures s == s[..w] + s[w..d] + s[d..e] + s[e..]
  {
  }

  /** The four parts of a label sit at their offsets, each after the last character of
      the part before it. */
  lemma Slices4(g: string, w1: string, d: string, w2: string)
    requires g != [] && w1 != [] && d != []
    ensures var text, a, b, c := g + w1 + d + w2, |g|, |g| + |w1|, |g| + |w1| + |d|;
      && c + |w2| == |text|
      && text[..a] == g && text[a..b] == w1 && text[b..c] == d && text[c..] == w2
      && text[a - 1] == g[|g| - 1] && text[b - 1] == w1[|w1| - 1] && text[c - 1] == d[|d| - 1]
  {
    var text, a, b, c := g + w1 + d + w2, |g|, |g| + |w1|, |g| + |w1| + |d|;
    assert text == ((g + w1) + d) + w2;
    assert text[c - 1] == ((g + w1) + d)[c - 1] == d[|d| - 1];
    assert text[b - 1] == (g + w1)[b - 1] == w1[|w1| - 1];
  }

  /** A part that is all digits or all whitespace is a run where it sits. */
  lemma RunOfPart(s: string, a: nat, part: string, digits: bool)
    requires a + |part| <= |s| && s[a..a + |part|] == part
    requires digits ==> AllDigits(part)
    requires !digits ==> AllSpace(part)
    ensures forall i | a <= i < a + |part| :: InRun(s[i], digits)
  {
    forall i | a <= i < a + |part| ensures InRun(s[i], digits) {
      assert s[i] == part[i - a];
    }
  }

  /** Every label of that shape matches, and gives back its name and digits. */
  lemma LabelMatchComplete(g: string, w1: string, d: string, w2: string)
    requires NamePattern(g) && !IsSpace(g[|g| - 1])
    requires w1 != [] && AllSpace(w1) && AllSpace(w2)
    requires d != [] && AllDigits(d)
    ensures LabelMatch(g + w1 + d + w2) == Some((g, d))
  {
    Slices4(g, w1, d, w2);
    MatchParts(g + w1 + d + w2, |g|, |g| + |w1|, |g| + |w1| + |d|);
  }

  /** A label cut at `a < b < c` into a name, whitespace, digits and whitespace matches
      with those parts. */
  lemma MatchParts(text: string, a: nat, b: nat, c: nat)
    requires 0 < a < b < c <= |text|
    requires NamePattern(text[..a]) && !IsSpace(text[a - 1])
    requires AllSpace(text[a..b]) && AllDigits(text[b..c]) && AllSpace(text[c..])
    ensures LabelMatch(text) == Some((text[..a], text[b..c]))
  {
    TrailingRun(text, c, text[c..], text[c - 1]);
    DigitRun(text, b, text[b..c], text[b - 1]);
    NameRun(text, a, text[a..b], text[a - 1]);
  }

  /** The trailing whitespace `w2`, after a digit, is the last run. */
  lemma TrailingRun(text: string, c: nat, w2: string, last: char)
    requires 0 < c && c + |w2| == |text| && text[c..] == w2 && AllSpace(w2)
    requires text[c - 1] == last && IsDigit(last)
    ensures RunStart(text, |text|, false) == c
  {
    RunOfPart(text, c, w2, false);
    RunStartAt(text, c, |text|, false);
  }

  /** The digits `d`, after whitespace, are the run before `c`. */
  lemma DigitRun(text: string, b: nat, d: string, last: char)
    requires 0 < b && b + |d| <= |text| && text[b..b + |d|] == d && AllDigits(d)
    requires text[b - 1] == last && IsSpace(last)
    ensures RunStart(text, b + |d|, true) == b
  {
    RunOfPart(text, b, d, true);
    SpaceNotDigit(last);
    RunStartAt(text, b, b + |d|, true);
  }

  /** The whitespace `w1`, after a name that does not end in whitespace, is the run
      before `b`. */
  lemma NameRun(text: string, a: nat, w1: string, last: char)
    requires 0 < a && a + |w1| <= |text| && text[a..a + |w1|] == w1 && AllSpace(w1)
    requires text[a - 1] == last && !IsSpace(last)
    ensures RunStart(text, a + |w1|, false) == a
  {
    RunOfPart(text, a, w1, false);
    RunStartAt(text, a, a + |w1|, false);
  }

  // ---- the number ----

  /** `int(d)` for a string of ASCII digits. */
  function DigitsValue(d: string): nat {
    if d == [] then 0 else DigitsValue(d[..|d| - 1]) * 10 + (if IsDigit(d[|d| - 1]) then d[|d| - 1] as int - '0' as int else 0)
  }

  function DigitChar(k: nat): (c: char)
    requires k < 10
    ensures IsDigit(c) && c as int - '0' as int == k
  {
    ('0' as int + k) as char
  }

  /** `f"{n}"` for a natural number. */
  function NatText(n: nat): string {
    if n < 10 then [DigitChar(n)] else NatText(n / 10) + [DigitChar(n % 10)]
  }

  /** The decimal text of a number is a non-empty run of digits. */
  lemma {:induction false} NatTextDigits(n: nat)
    ensures NatText(n) != [] && AllDigits(NatText(n))
  {
    if n >= 10 {
      NatTextDigits(n / 10);
    }
  }

  /** The decimal text of a number reads back as the number. */
  lemma {:induction false} NatTextValue(n: nat)
    ensures DigitsValue(NatText(n)) == n
  {
    if n >= 10 {
      NatTextValue(n / 10);
      var t := NatText(n);
      assert t[..|t| - 1] == NatText(n / 10);
    }
  }

  // ---- the next name ----

  /** The results of `f` that are present, in order: a generator `(m for m in map(f, xs)
      if m is not None)`. */
  function FilterMap<A, B>(f: A -> Option<B>, xs: seq<A>): seq<B> {
    if xs == [] then []
    else
      var rest := FilterMap(f, xs[1..]);
      if f(xs[0]).Some? then [f(xs[0]).value] + rest else rest
  }

  /** Nothing is left exactly when `f` finds nothing. */
  lemma {:induction false} FilterMapEmpty<A, B>(f: A -> Option<B>, xs: seq<A>)
    ensures (forall j | 0 <= j < |xs| :: f(xs[j]).None?) <==> FilterMap(f, xs) == []
  {
    if xs != [] {
      FilterMapEmpty(f, xs[1..]);
      if FilterMap(f, xs[1..]) == [] {
        forall j | 1 <= j < |xs|
          ensures f(xs[j]).None?
        {
          assert xs[j] == xs[1..][j - 1];
        }
      } else {
        var j :| 0 <= j < |xs[1..]| && f(xs[1..][j]).Some?;
        assert f(xs[j + 1]).Some?;
      }
    }
  }

  /** Each filtered result is a present result of `f`. */
  lemma {:induction false} FilterMapFrom<A, B>(f: A -> Option<B>, xs: seq<A>)
    ensures forall i | 0 <= i < |FilterMap(f, xs)| :: exists j | 0 <= j < |xs| :: f(xs[j]) == Some(FilterMap(f, xs)[i])
  {
    if xs != [] {
      FilterMapFrom(f, xs[1..]);
      var rest := FilterMap(f, xs[1..]);
      var r := FilterMap(f, xs);
      var head := if f(xs[0]).Some? then [f(xs[0]).value] else [];
      assert r == head + rest;
      forall i | 0 <= i < |r|
        ensures exists j | 0 <= j < |xs| :: f(xs[j]) == Some(r[i])
      {
        if i < |head| {
          assert f(xs[0]) == Some(r[i]);
        } else {
          assert r[i] == rest[i - |head|];
          var j :| 0 <= j < |xs[1..]| && f(xs[1..][j]) == Some(rest[i - |head|]);
          assert f(xs[j + 1]) == Some(r[i]);
        }
      }
    } else {
      assert FilterMap(f, xs) == [];
    }
  }

  /** Every present result of `f` is kept. */
  lemma {:induction false} FilterMapKeeps<A, B>(f: A -> Option<B>, xs: seq<A>)
    ensures forall j | 0 <= j < |xs| && f(xs[j]).Some? :: f(xs[j]).value in FilterMap(f, xs)
  {
    if xs != [] {
      FilterMapKeeps(f, xs[1..]);
      var r := FilterMap(f, xs);
      forall j | 0 <= j < |xs| && f(xs[j]).Some?
        ensures f(xs[j]).value in r
      {
        if j > 0 {
          assert xs[j] == xs[1..][j - 1];
        }
      }
    }
  }

  /** The matches among the labels, in document order. */
  function Matches(labels: seq<string>): seq<(string, string)> {
    FilterMap(LabelMatch, labels)
  }

  /** Every match has the parts the pattern promises. */
  lemma MatchesParts(labels: seq<string>)
    ensures forall i | 0 <= i < |Matches(labels)| :: Parts(Matches(labels)[i])
  {
    var ms := Matches(labels);
    FilterMapFrom(LabelMatch, labels);
    forall i | 0 <= i < |ms|
      ensures Parts(ms[i])
    {
      var j :| 0 <= j < |labels| && LabelMatch(labels[j]) == Some(ms[i]);
      LabelMatchSound(labels[j]);
    }
  }

  function Names(ms: seq<(string, string)>): set<string> {
    set i | 0 <= i < |ms| :: ms[i].0
  }

  /** `max(map(int, indexes), default=0)`. */
  function MaxIndex(ms: seq<(string, string)>): nat {
    if ms == [] then 0
    else
      var m := MaxIndex(ms[..|ms| - 1]);
      var v := DigitsValue(ms[|ms| - 1].1);
      if m < v then v else m
  }

  /** The maximum is at least every number, is one of them, and is 0 with none. */
  lemma {:induction false} MaxIndexBounds(ms: seq<(string, string)>)
    ensures forall i | 0 <= i < |ms| :: DigitsValue(ms[i].1) <= MaxIndex(ms)
    ensures ms == [] ==> MaxIndex(ms) == 0
    ensures ms != [] ==> exists i | 0 <= i < |ms| :: DigitsValue(ms[i].1) == MaxIndex(ms)
  {
    if ms != [] {
      var init := ms[..|ms| - 1];
      MaxIndexBounds(init);
      assert forall i | 0 <= i < |init| :: init[i] == ms[i];
      if init != [] && DigitsValue(ms[|ms| - 1].1) <= MaxIndex(init) {
        var i :| 0 <= i < |init| && DigitsValue(init[i].1) == MaxIndex(init);
        assert DigitsValue(ms[i].1) == MaxIndex(ms);
      } else {
        assert DigitsValue(ms[|ms| - 1].1) == MaxIndex(ms);
      }
    }
  }

  /** Every match has the same name as the first. */
  predicate OneName(ms: seq<(string, string)>) {
    forall i | 0 <= i < |ms| :: ms[i].0 == ms[0].0
  }

  /** The common name is the one element of `names`. */
  lemma OneNameIsSingleton(ms: seq<(string, string)>)
    requires ms != []
    ensures OneName(ms) <==> Names(ms) == {ms[0].0}
  {
    if OneName(ms) {
      assert Names(ms) == {ms[0].0};
    }
    if Names(ms) == {ms[0].0} {
      forall i | 0 <= i < |ms|
        ensures ms[i].0 == ms[0].0
      {
        assert ms[i].0 in Names(ms);
      }
    }
  }

  /** The name part: the single distinct `[o…]` name, or `Blind`. */
  function BaseName(ms: seq<(string, string)>): string {
    if ms != [] && OneName(ms) then ms[0].0 else "Blind"
  }

  /** `f"{name} {index}"` from the matches. */
  function NameFrom(ms: seq<(string, string)>): string {
    BaseName(ms) + " " + NatText(MaxIndex(ms) + 1)
  }

  /** `_dwim_rat_layer_name` as written: with no matching label, `zip(*())` is empty and
      unpacking it into `names, indexes` raises `ValueError`. */
  function NextNameAsWritten(labels: seq<string>): Result<string, Exc> {
    var ms := Matches(labels);
    if ms == [] then Failure(ValueError)
    else Success(NameFrom(ms))
  }

  /** The name the code evidently means to give: with no matching label, `default=0`
      applies and the name is `Blind 1`. */
  function NextName(labels: seq<string>): (r: string)
    ensures Matches(labels) == [] ==> r == "Blind 1"
  {
    NameFrom(Matches(labels))
  }

  /** The as-written rule fails on every parent without a matching child label, where the
      intended rule gives `Blind 1`. */
  lemma NoMatchFails(labels: seq<string>)
    requires forall j | 0 <= j < |labels| :: LabelMatch(labels[j]).None?
    ensures NextNameAsWritten(labels) == Failure(ValueError)
    ensures NextName(labels) == "Blind 1"
  {
    FilterMapEmpty(LabelMatch, labels);
  }

  /** A rat layer labelled `Rats` with no `[o…] N` sibling layer: as written the name
      cannot be found, where the intended rule names the clone `Blind 1`. */
  lemma RatsAloneFails()
    ensures NextNameAsWritten(["Rats"]) == Failure(ValueError)
    ensures NextName(["Rats"]) == "Blind 1"
  {
    assert LabelMatch("Rats").None?;
    NoMatchFails(["Rats"]);
  }

  /** Wherever the as-written rule succeeds it agrees with the intended one. */
  lemma AsWrittenAgrees(labels: seq<string>)
    ensures NextNameAsWritten(labels).Success? ==> NextNameAsWritten(labels).value == NextName(labels)
    ensures NextNameAsWritten(labels).Failure? <==> forall j | 0 <= j < |labels| :: LabelMatch(labels[j]).None?
  {
    FilterMapEmpty(LabelMatch, labels);
  }

  /** A number above every existing one stays above them once written out and read back. */
  lemma NumberAbove(ms: seq<(string, string)>, k: nat)
    requires forall i | 0 <= i < |ms| :: DigitsValue(ms[i].1) <= k
    ensures forall i | 0 <= i < |ms| :: DigitsValue(ms[i].1) < DigitsValue(NatText(k + 1))
  {
    NatTextValue(k + 1);
  }

  /** The new number reads back as one more than the largest existing number, so it is
      above every one of them. */
  lemma NextNumber(ms: seq<(string, string)>)
    ensures DigitsValue(NatText(MaxIndex(ms) + 1)) == MaxIndex(ms) + 1
    ensures forall i | 0 <= i < |ms| :: DigitsValue(ms[i].1) < DigitsValue(NatText(MaxIndex(ms) + 1))
  {
    NatTextValue(MaxIndex(ms) + 1);
    MaxIndexBounds(ms);
    NumberAbove(ms, MaxIndex(ms));
  }

  /** A name and a number joined by one space match the pattern with exactly those parts. */
  lemma NameNumberMatches(g: string, n: string)
    requires NamePattern(g) && !IsSpace(g[|g| - 1])
    requires n != [] && AllDigits(n)
    ensures LabelMatch(g + " " + n) == Some((g, n))
  {
    var sp, none := " ", "";
    assert sp != [] && AllSpace(sp) by {
      assert IsSpace(sp[0]);
    }
    assert AllSpace(none);
    LabelMatchComplete(g, sp, n, none);
    assert g + sp + n + none == g + " " + n;
  }

  /** With one distinct name among the matches (`len(names) == 1`, see
      `OneNameIsSingleton`), the new label is that name and the next number, and it
      matches the pattern again with exactly those parts. */
  lemma NextNameSingle(ms: seq<(string, string)>)
    requires ms != [] && Parts(ms[0]) && OneName(ms)
    ensures NameFrom(ms) == ms[0].0 + " " + NatText(MaxIndex(ms) + 1)
    ensures LabelMatch(NameFrom(ms)) == Some((ms[0].0, NatText(MaxIndex(ms) + 1)))
  {
    NameFromSingle(ms);
    NatTextDigits(MaxIndex(ms) + 1);
    NameNumberMatches(ms[0].0, NatText(MaxIndex(ms) + 1));
  }

  lemma NameFromSingle(ms: seq<(string, string)>)
    requires ms != [] && OneName(ms)
    ensures NameFrom(ms) == ms[0].0 + " " + NatText(MaxIndex(ms) + 1)
  {
  }

  /** With no match or several distinct names, the new label is `Blind` and the number. */
  lemma NextNameBlind(ms: seq<(string, string)>)
    requires |Names(ms)| != 1
    ensures NameFrom(ms) == "Blind " + NatText(MaxIndex(ms) + 1)
  {
    if ms != [] {
      OneNameIsSingleton(ms);
    }
  }
}
