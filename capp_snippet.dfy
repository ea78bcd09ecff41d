/** The editor snippets the completions generator of
    Plugin-generate_capp_completions.py writes: a method's parameters become
    `keyword${n:(type)name}` pieces (`make_snippet`), a function's arguments
    become `${n:arg}` fields inside `name(...)`.  The partner of both is a
    reader for the part of the TextMate snippet syntax they use: literal text
    and `${n:default}` fields. */
module CappSnippet {
  import opened Wrappers
  import opened Text
  import opened CappSignature

  // ---------------------------------------------------------------------------
  // Snippet text and its reader
  // ---------------------------------------------------------------------------

  /** A snippet read back: literal text, or a numbered field with its default. */
  datatype Segment = Literal(text: string) | Field(number: nat, default: string)

  /** FUNCTION_ARG_TEMPLATE and the tail of SNIPPET_PARAMETER_TEMPLATE:
      `${n:default}`. */
  function FieldText(n: nat, default: string): string {
    "${" + (NatToString(n) + (":" + (default + "}")))
  }

  function SegmentText(g: Segment): string {
    match g
    case Literal(t) => t
    case Field(n, d) => FieldText(n, d)
  }

  function Render(segs: seq<Segment>): string {
    if segs == [] then "" else SegmentText(segs[0]) + Render(segs[1..])
  }

  /** The first position at or after `i` holding `c`, or the end. */
  function Find(s: string, i: nat, c: char): (j: nat)
    requires i <= |s|
    ensures i <= j <= |s|
    ensures j < |s| ==> s[j] == c
    decreases |s| - i
  {
    if i == |s| || s[i] == c then i else Find(s, i + 1, c)
  }

  /** Reads a snippet: literal text up to the next `$`, and fields
      `${digits:default}` whose default ends at the first `}`.  Any other
      use of `$`, and any backslash, is snippet syntax not read here: the
      reader gives nothing rather than take it as text. */
  function Parse(s: string): (r: Option<seq<Segment>>)
    decreases |s|
  {
    if s == [] then Some([])
    else if s[0] != '$' then
      var k := Find(s, 0, '$');
      if !Verbatim(s[..k]) then None
      else
        match Parse(s[k..])
        case None => None
        case Some(rest) => Some([Literal(s[..k])] + rest)
    else if |s| >= 2 && s[1] == '{' then
      var k := DigitsEnd(s, 2);
      if 2 < k < |s| && s[k] == ':' then
        var c := Find(s, k + 1, '}');
        if c < |s| && Verbatim(s[k + 1..c]) then
          match Parse(s[c + 1..])
          case None => None
          case Some(rest) => Some([Field(ParseNat(s[2..k]), s[k + 1..c])] + rest)
        else None
      else None
    else None
  }

  predicate Lacks(s: string, c: char) {
    forall k :: 0 <= k < |s| ==> s[k] != c
  }

  /** Text the editor inserts as it stands: no `$` and no backslash. */
  predicate Verbatim(s: string) {
    Lacks(s, '$') && Lacks(s, '\\')
  }

  /** Text a field can hold as its default: verbatim, and no `}`. */
  predicate Defaultable(d: string) {
    Lacks(d, '}') && Verbatim(d)
  }

  predicate WellFormedSegment(g: Segment) {
    match g
    case Literal(t) => t != [] && Verbatim(t)
    case Field(_, d) => Defaultable(d)
  }

  /** The segments one text has: literals are not empty, verbatim and
      never follow each other; defaults are verbatim and hold no `}`. */
  predicate Canonical(segs: seq<Segment>) {
    segs == [] ||
    (WellFormedSegment(segs[0]) &&
     (segs[0].Literal? && |segs| > 1 ==> segs[1].Field?) &&
     Canonical(segs[1..]))
  }

  lemma {:induction false} FindIs(s: string, i: nat, j: nat, c: char)
    requires i <= j <= |s| && (j == |s| || s[j] == c)
    requires forall k :: i <= k < j ==> s[k] != c
    ensures Find(s, i, c) == j
    decreases j - i
  {
    if i < j {
      FindIs(s, i + 1, j, c);
    }
  }

  lemma RenderStart(segs: seq<Segment>)
    requires segs != [] && segs[0].Field?
    ensures Render(segs) != [] && Render(segs)[0] == '$'
  {
  }

  /** Reading the text of a literal followed by the rest. */
  lemma ParseLiteral(t: string, r: string)
    requires t != [] && Verbatim(t) && (r == [] || r[0] == '$')
    ensures Parse(t + r) == match Parse(r) case None => None case Some(rest) => Some([Literal(t)] + rest)
  {
    var s := t + r;
    assert s[0] == t[0];
    FindIs(s, 0, |t|, '$');
    assert s[..|t|] == t && s[|t|..] == r;
  }

  lemma Regroup(a: string, b: string, c: string, d: string)
    ensures (a + b) + (c + d) == a + ((b + c) + d)
  {
  }

  lemma AppendAssoc3(a: string, b: string, c: string, d: string)
    ensures (a + (b + c)) + d == a + (b + (c + d))
  {
  }

  /** The pieces of `x + y` seen from their positions. */
  lemma AppendParts(x: string, y: string)
    ensures (x + y)[..|x|] == x && (x + y)[|x|..] == y
  {
  }

  /** The parts of `x`, a `c` and `y` run together. */
  lemma SepParts(x: string, c: char, y: string)
    ensures var t := x + ([c] + y); t[..|x|] == x && t[|x|] == c && t[|x| + 1..] == y
  {
    var t := x + ([c] + y);
    assert t[|x|..] == [c] + y;
  }

  /** The slices of a suffix, as slices of the whole. */
  lemma ShiftParts(s: string, i: nat, m: nat)
    requires i + m < |s|
    ensures s[i..][..m] == s[i..i + m] && s[i..][m] == s[i + m] && s[i..][m + 1..] == s[i + m + 1..]
  {
  }

  lemma FieldTextAppend(n: nat, d: string, r: string)
    ensures FieldText(n, d) + r == "${" + (NatToString(n) + ([':'] + (d + (['}'] + r))))
  {
  }

  /** Where the pieces of a field with digits `ds`, followed by `r`, lie. */
  lemma FieldPieces(ds: string, d: string, r: string)
    ensures var s := "${" + (ds + ([':'] + (d + (['}'] + r)))); var m := |ds|;
      s[0] == '$' && s[1] == '{' && s[2..2 + m] == ds && s[2 + m] == ':' &&
      s[3 + m..3 + m + |d|] == d && s[3 + m + |d|] == '}' && s[4 + m + |d|..] == r
  {
    var t := d + (['}'] + r);
    FieldHead(ds, t);
    SuffixParts("${" + (ds + ([':'] + t)), 3 + |ds|, d, '}', r);
  }

  /** The opening, the digits and the colon of a field, and what follows. */
  lemma FieldHead(ds: string, t: string)
    ensures var s := "${" + (ds + ([':'] + t)); var m := |ds|;
      s[0] == '$' && s[1] == '{' && s[2..2 + m] == ds && s[2 + m] == ':' && s[3 + m..] == t
  {
    var m := |ds|;
    var s := "${" + (ds + ([':'] + t));
    assert s[..2 + m] == "${" + ds && s[2 + m..] == [':'] + t by {
      assert s == ("${" + ds) + ([':'] + t);
      AppendParts("${" + ds, [':'] + t);
    }
    assert s[2..2 + m] == s[..2 + m][2..];
    assert s[3 + m..] == s[2 + m..][1..];
  }

  /** A suffix made of `x`, a `c` and `y`, seen from the whole. */
  lemma SuffixParts(s: string, i: nat, x: string, c: char, y: string)
    requires i <= |s| && s[i..] == x + ([c] + y)
    ensures i + |x| < |s| && s[i..i + |x|] == x && s[i + |x|] == c && s[i + |x| + 1..] == y
  {
    SepParts(x, c, y);
    ShiftParts(s, i, |x|);
  }

  /** Reading the text of a field followed by the rest. */
  lemma ParseField(n: nat, d: string, r: string)
    requires Defaultable(d)
    ensures Parse(FieldText(n, d) + r) == match Parse(r) case None => None case Some(rest) => Some([Field(n, d)] + rest)
  {
    var ds := NatToString(n);
    var m := |ds|;
    var s := "${" + (ds + ([':'] + (d + (['}'] + r))));
    var c := 3 + m + |d|;
    assert FieldText(n, d) + r == s by {
      FieldTextAppend(n, d, r);
    }
    assert s[0] == '$' && s[1] == '{' && s[2..2 + m] == ds && s[2 + m] == ':' &&
      s[3 + m..c] == d && s[c] == '}' && s[c + 1..] == r by {
      FieldPieces(ds, d, r);
    }
    assert DigitsEnd(s, 2) == 2 + m by {
      assert forall k :: 2 <= k < 2 + m ==> s[k] == ds[k - 2];
      DigitsEndIs(s, 2, 2 + m);
    }
    assert Find(s, 3 + m, '}') == c by {
      assert forall k :: 3 + m <= k < c ==> s[k] == d[k - 3 - m];
      FindIs(s, 3 + m, c, '}');
    }
    assert ParseNat(s[2..2 + m]) == n by {
      NatToStringRoundTrip(n);
    }
    ParseFieldOf(s, m, c, n, d, r);
  }

  /** A field laid out in `s`: `${`, `m` digits, `:`, the default up to `c`,
      `}` and the rest. */
  lemma ParseFieldOf(s: string, m: nat, c: nat, n: nat, d: string, r: string)
    requires 0 < m && 3 + m <= c < |s| && s[0] == '$' && s[1] == '{' && s[2 + m] == ':'
    requires DigitsEnd(s, 2) == 2 + m && Find(s, 3 + m, '}') == c
    requires ParseNat(s[2..2 + m]) == n && s[3 + m..c] == d && s[c + 1..] == r && Verbatim(d)
    ensures Parse(s) == match Parse(r) case None => None case Some(rest) => Some([Field(n, d)] + rest)
  {
  }

  lemma ParseRenderLiteral(segs: seq<Segment>)
    requires segs != [] && segs[0].Literal? && Canonical(segs)
    requires Parse(Render(segs[1..])) == Some(segs[1..])
    ensures Parse(Render(segs)) == Some(segs)
  {
    var rest := segs[1..];
    if rest != [] {
      RenderStart(rest);
    }
    ParseLiteral(segs[0].text, Render(rest));
    assert Render(segs) == segs[0].text + Render(rest);
    assert [Literal(segs[0].text)] + rest == segs;
  }

  lemma ParseRenderField(segs: seq<Segment>)
    requires segs != [] && segs[0].Field? && Canonical(segs)
    requires Parse(Render(segs[1..])) == Some(segs[1..])
    ensures Parse(Render(segs)) == Some(segs)
  {
    var g := segs[0];
    ParseField(g.number, g.default, Render(segs[1..]));
    assert Render(segs) == FieldText(g.number, g.default) + Render(segs[1..]);
    assert [Field(g.number, g.default)] + segs[1..] == segs;
  }

  /** The reader gives back the segments of any canonical snippet. */
  lemma {:induction false} ParseRender(segs: seq<Segment>)
    requires Canonical(segs)
    ensures Parse(Render(segs)) == Some(segs)
  {
    if segs != [] {
      ParseRender(segs[1..]);
      if segs[0].Literal? {
        ParseRenderLiteral(segs);
      } else {
        ParseRenderField(segs);
      }
    }
  }

  /** The fields of a snippet in order: number and default. */
  function Fields(segs: seq<Segment>): seq<(nat, string)> {
    if segs == [] then []
    else match segs[0]
      case Literal(_) => Fields(segs[1..])
      case Field(n, d) => [(n, d)] + Fields(segs[1..])
  }

  /** The literal texts of a snippet in order. */
  function Literals(segs: seq<Segment>): seq<string> {
    if segs == [] then []
    else match segs[0]
      case Literal(t) => [t] + Literals(segs[1..])
      case Field(_, _) => Literals(segs[1..])
  }

  // ---------------------------------------------------------------------------
  // make_snippet
  // ---------------------------------------------------------------------------

  /** SNIPPET_PARAMETER_TEMPLATE: `keyword${n:(type)name}`. */
  function Piece(p: Param, n: nat): string {
    p.keyword + FieldText(n, p.typeAndName)
  }

  /** The pieces of `ps`, numbered from `n`. */
  function Pieces(ps: seq<Param>, n: nat): seq<string> {
    if ps == [] then [] else [Piece(ps[0], n)] + Pieces(ps[1..], n + 1)
  }

  /** What `make_snippet` returns. */
  function Snippet(ps: seq<Param>): string {
    Join(" ", Pieces(ps, 1))
  }

  lemma {:induction false} PiecesSnoc(ps: seq<Param>, p: Param, n: nat)
    ensures Pieces(ps + [p], n) == Pieces(ps, n) + [Piece(p, n + |ps|)]
  {
    if ps != [] {
      assert (ps + [p])[1..] == ps[1..] + [p];
      PiecesSnoc(ps[1..], p, n + 1);
    } else {
      assert ps + [p] == [p];
    }
  }

  /** `make_snippet` (lines 118-124): one piece per parameter, numbered
      from 1, joined with single blanks. */
  method MakeSnippet(parameters: seq<Param>) returns (snippet: string)
    ensures snippet == Snippet(parameters)
  {
    var contents: seq<string> := [];
    var index := 0;
    while index < |parameters|
      invariant 0 <= index <= |parameters|
      invariant contents == Pieces(parameters[..index], 1)
    {
      PiecesSnoc(parameters[..index], parameters[index], 1);
      assert parameters[..index + 1] == parameters[..index] + [parameters[index]];
      contents := contents + [Piece(parameters[index], index + 1)];
      index := index + 1;
    }
    assert parameters[..index] == parameters;
    snippet := Join(" ", contents);
  }

  /** The segments a snippet of `ps` is meant to have: each keyword as
      literal text (after a blank, past the first), then its field. */
  function SnippetSegments(ps: seq<Param>, n: nat, lead: string): seq<Segment> {
    if ps == [] then []
    else [Literal(lead + ps[0].keyword), Field(n, ps[0].typeAndName)] + SnippetSegments(ps[1..], n + 1, " ")
  }

  /** Parameters whose snippet reads back: keywords not empty and free of
      `$`, types and names free of `}`.  The pairs SIGNATURE_RE finds are
      such parameters. */
  predicate SnippetSafe(ps: seq<Param>) {
    forall k :: 0 <= k < |ps| ==>
      ps[k].keyword != [] && Verbatim(ps[k].keyword) && Defaultable(ps[k].typeAndName)
  }

  lemma RenderPair(a: Segment, b: Segment, rest: seq<Segment>)
    ensures Render([a, b] + rest) == SegmentText(a) + (SegmentText(b) + Render(rest))
  {
    assert ([a, b] + rest)[1..] == [b] + rest;
    assert ([b] + rest)[1..] == rest;
  }

  lemma SnippetOfOneIsRendered(ps: seq<Param>, n: nat, lead: string)
    requires |ps| == 1
    ensures lead + Join(" ", Pieces(ps, n)) == Render(SnippetSegments(ps, n, lead))
  {
    var p := ps[0];
    var f := FieldText(n, p.typeAndName);
    SegmentsOfOne(ps, n, lead);
    RenderOfTwo(Literal(lead + p.keyword), Field(n, p.typeAndName));
    PiecesOfOne(ps, n);
    assert (lead + p.keyword) + f == lead + (p.keyword + f);
  }

  lemma SegmentsOfOne(ps: seq<Param>, n: nat, lead: string)
    requires |ps| == 1
    ensures SnippetSegments(ps, n, lead) == [Literal(lead + ps[0].keyword), Field(n, ps[0].typeAndName)]
  {
    assert ps[1..] == [];
    assert SnippetSegments(ps[1..], n + 1, " ") == [];
  }

  lemma RenderOfTwo(a: Segment, b: Segment)
    ensures Render([a, b]) == SegmentText(a) + SegmentText(b)
  {
    RenderPair(a, b, []);
    assert [a, b] + [] == [a, b];
    assert SegmentText(b) + "" == SegmentText(b);
  }

  lemma PiecesOfOne(ps: seq<Param>, n: nat)
    requires |ps| == 1
    ensures Join(" ", Pieces(ps, n)) == ps[0].keyword + FieldText(n, ps[0].typeAndName)
  {
    assert ps[1..] == [];
    assert Pieces(ps, n) == [Piece(ps[0], n)];
  }

  lemma SnippetStepIsRendered(ps: seq<Param>, n: nat, lead: string)
    requires |ps| > 1
    requires " " + Join(" ", Pieces(ps[1..], n + 1)) == Render(SnippetSegments(ps[1..], n + 1, " "))
    ensures lead + Join(" ", Pieces(ps, n)) == Render(SnippetSegments(ps, n, lead))
  {
    var p := ps[0];
    var f := FieldText(n, p.typeAndName);
    var tail := SnippetSegments(ps[1..], n + 1, " ");
    var j := Join(" ", Pieces(ps[1..], n + 1));
    assert Render(SnippetSegments(ps, n, lead)) == (lead + p.keyword) + (f + (" " + j)) by {
      RenderPair(Literal(lead + p.keyword), Field(n, p.typeAndName), tail);
    }
    assert Join(" ", Pieces(ps, n)) == (p.keyword + f) + (" " + j) by {
      assert Pieces(ps, n)[1..] == Pieces(ps[1..], n + 1);
    }
    Regroup(lead, p.keyword, f, " " + j);
  }

  lemma {:induction false} SnippetIsRendered(ps: seq<Param>, n: nat, lead: string)
    requires ps != []
    ensures lead + Join(" ", Pieces(ps, n)) == Render(SnippetSegments(ps, n, lead))
  {
    if |ps| == 1 {
      SnippetOfOneIsRendered(ps, n, lead);
    } else {
      SnippetIsRendered(ps[1..], n + 1, " ");
      SnippetStepIsRendered(ps, n, lead);
    }
  }

  lemma {:induction false} SnippetCanonical(ps: seq<Param>, n: nat, lead: string)
    requires SnippetSafe(ps) && Verbatim(lead)
    ensures Canonical(SnippetSegments(ps, n, lead))
  {
    if ps != [] {
      assert SnippetSafe(ps[1..]) by {
        forall k | 0 <= k < |ps[1..]|
          ensures ps[1..][k] == ps[k + 1]
        {
        }
      }
      SnippetCanonical(ps[1..], n + 1, " ");
      var segs := SnippetSegments(ps, n, lead);
      assert segs[1..] == [Field(n, ps[0].typeAndName)] + SnippetSegments(ps[1..], n + 1, " ");
    }
  }

  lemma {:induction false} SnippetFields(ps: seq<Param>, n: nat, lead: string)
    ensures var fs := Fields(SnippetSegments(ps, n, lead));
      |fs| == |ps| && forall k :: 0 <= k < |ps| ==> fs[k] == (n + k, ps[k].typeAndName)
    ensures var ls := Literals(SnippetSegments(ps, n, lead));
      |ls| == |ps| && forall k :: 0 <= k < |ps| ==> ls[k] == (if k == 0 then lead else " ") + ps[k].keyword
  {
    if ps != [] {
      SnippetFields(ps[1..], n + 1, " ");
      var segs := SnippetSegments(ps, n, lead);
      assert segs[1..] == [Field(n, ps[0].typeAndName)] + SnippetSegments(ps[1..], n + 1, " ");
      assert segs[1..][1..] == SnippetSegments(ps[1..], n + 1, " ");
    }
  }

  /** The snippet of `ps` reads back as the keywords, blank-separated, each
      followed by a field: the k-th field is numbered k and holds the
      k-th `(type)name`. */
  lemma MakeSnippetReadsBack(ps: seq<Param>)
    requires ps != [] && SnippetSafe(ps)
    ensures Parse(Snippet(ps)).Some?
    ensures var segs := Parse(Snippet(ps)).value; var fs := Fields(segs); var ls := Literals(segs);
      |fs| == |ps| && |ls| == |ps| &&
      forall k :: 0 <= k < |ps| ==>
        fs[k] == (k + 1, ps[k].typeAndName) && ls[k] == (if k == 0 then "" else " ") + ps[k].keyword
  {
    SnippetIsRendered(ps, 1, "");
    assert "" + Snippet(ps) == Snippet(ps);
    SnippetCanonical(ps, 1, "");
    ParseRender(SnippetSegments(ps, 1, ""));
    SnippetFields(ps, 1, "");
  }

  lemma ProtocolChars(s: string, j: nat)
    requires j <= |s|
    ensures forall k :: j <= k < ProtocolEnd(s, j) ==> s[k] != '}' && s[k] != '$' && s[k] != '\\'
  {
    var k := if j < |s| && s[j] == ' ' then j + 1 else j;
    if k < |s| && s[k] == '<' {
      var r := RunEnd(s, k + 1);
      RunEndWord(s, k + 1);
    }
  }

  lemma TypeAndNameChars(s: string, j: nat)
    requires j <= |s| && TypeAndNameEnd(s, j).Some?
    ensures forall k :: j <= k < TypeAndNameEnd(s, j).value ==> s[k] != '}' && s[k] != '$' && s[k] != '\\'
  {
    var r := RunEnd(s, j + 1);
    var c := ProtocolEnd(s, r);
    ProtocolChars(s, r);
    RunEndWord(s, j + 1);
    RunEndWord(s, c + 1);
  }

  lemma PairAtIsSafe(s: string, i: nat)
    requires i <= |s| && PairAt(s, i).Some?
    ensures var p := PairAt(s, i).value.0; p.keyword != [] && Verbatim(p.keyword) && Defaultable(p.typeAndName)
  {
    var r := RunEnd(s, i);
    assert i < r < |s| && s[r] == ':' && TypeAndNameEnd(s, r + 1).Some?;
    var e := TypeAndNameEnd(s, r + 1).value;
    assert PairAt(s, i).value.0 == Param(s[i..r + 1], s[r + 1..e]);
    LabelVerbatim(s, i, r);
    TypeAndNameDefaultable(s, r + 1, e);
  }

  lemma LabelVerbatim(s: string, i: nat, r: nat)
    requires i < r < |s| && r == RunEnd(s, i) && s[r] == ':'
    ensures Verbatim(s[i..r + 1])
  {
    RunEndWord(s, i);
    SliceLacks(s, i, r + 1, '$');
    SliceLacks(s, i, r + 1, '\\');
  }

  lemma TypeAndNameDefaultable(s: string, j: nat, e: nat)
    requires j <= |s| && TypeAndNameEnd(s, j) == Some(e)
    ensures Defaultable(s[j..e])
  {
    TypeAndNameChars(s, j);
    SliceLacks(s, j, e, '}');
    SliceLacks(s, j, e, '$');
    SliceLacks(s, j, e, '\\');
  }

  lemma SliceLacks(s: string, a: nat, b: nat, c: char)
    requires a <= b <= |s| && forall k :: a <= k < b ==> s[k] != c
    ensures Lacks(s[a..b], c)
  {
    assert forall m :: 0 <= m < b - a ==> s[a..b][m] == s[a + m];
  }

  /** Every parameter list add_method_signature records gives a snippet
      that reads back. */
  lemma {:induction false} PairsAreSnippetSafe(s: string, i: nat)
    requires i <= |s|
    ensures SnippetSafe(SignaturePairs(s, i))
    decreases |s| - i
  {
    if i < |s| {
      match PairAt(s, i)
      case None =>
        PairsAreSnippetSafe(s, i + 1);
      case Some((p, e)) =>
        PairAtIsSafe(s, i);
        PairsAreSnippetSafe(s, e);
        var ps := SignaturePairs(s, i);
        assert ps == [p] + SignaturePairs(s, e);
        assert forall k :: 1 <= k < |ps| ==> ps[k] == SignaturePairs(s, e)[k - 1];
    }
  }

  /** No parameters, no pieces: an empty snippet. */
  lemma SnippetOfNone()
    ensures Snippet([]) == ""
  {
  }

  /** `setValue:` with `(id)aValue` gives `setValue:${1:(id)aValue}`. */
  lemma SnippetExample(p: Param)
    requires p == Param("setValue:", "(id)aValue")
    ensures Snippet([p]) == "setValue:${1:(id)aValue}"
  {
    assert [p][1..] == [];
    assert Pieces([p], 1) == [Piece(p, 1)];
    assert NatToString(1) == "1";
    assert Piece(p, 1) == "setValue:" + ("${" + ("1" + (":" + ("(id)aValue" + "}"))));
  }

  // ---------------------------------------------------------------------------
  // Function completions (lines 105-111)
  // ---------------------------------------------------------------------------

  /** The first position at or after `i` that is not `\s`. */
  function SpacesEnd(s: string, i: nat): (j: nat)
    requires i <= |s|
    ensures i <= j <= |s|
    ensures j < |s| ==> !IsSpace(s[j])
    ensures forall k :: i <= k < j ==> IsSpace(s[k])
    decreases |s| - i
  {
    if i < |s| && IsSpace(s[i]) then SpacesEnd(s, i + 1) else i
  }

  /** `re.split(r",\s*", s[i..])`: the text between separators, a
      separator being a comma and all the whitespace after it. */
  function SplitFrom(s: string, i: nat): (parts: seq<string>)
    requires i <= |s|
    ensures parts != []
    decreases |s| - i
  {
    var j := Find(s, i, ',');
    if j == |s| then [s[i..]]
    else [s[i..j]] + SplitFrom(s, SpacesEnd(s, j + 1))
  }

  /** The parts hold no comma: every comma is part of a separator. */
  lemma {:induction false} SplitFromNoCommas(s: string, i: nat)
    requires i <= |s|
    ensures forall m :: 0 <= m < |SplitFrom(s, i)| ==> Lacks(SplitFrom(s, i)[m], ',')
    decreases |s| - i
  {
    var j := Find(s, i, ',');
    assert Lacks(s[i..j], ',') by {
      FindSkips(s, i, ',');
      SliceLacks(s, i, j, ',');
    }
    var parts := SplitFrom(s, i);
    if j < |s| {
      var k := SpacesEnd(s, j + 1);
      SplitFromNoCommas(s, k);
      var rest := SplitFrom(s, k);
      assert parts == [s[i..j]] + rest;
      forall m | 0 <= m < |parts|
        ensures Lacks(parts[m], ',')
      {
        if m > 0 {
          assert parts[m] == rest[m - 1];
        }
      }
    } else {
      assert s[i..j] == s[i..];
      assert parts == [s[i..]];
    }
  }

  lemma {:induction false} FindSkips(s: string, i: nat, c: char)
    requires i <= |s|
    ensures forall k :: i <= k < Find(s, i, c) ==> s[k] != c
    decreases |s| - i
  {
    if i < |s| && s[i] != c {
      FindSkips(s, i + 1, c);
    }
  }

  function SplitArgs(args: string): seq<string> {
    SplitFrom(args, 0)
  }

  lemma CountStep(s: string, i: nat, c: char)
    requires i < |s|
    ensures Count(s[i..], c) == (if s[i] == c then 1 else 0) + Count(s[i + 1..], c)
  {
    assert s[i..][1..] == s[i + 1..];
  }

  lemma {:induction false} CountNone(s: string, i: nat, k: nat, c: char)
    requires i <= k <= |s| && forall m :: i <= m < k ==> s[m] != c
    ensures Count(s[i..], c) == Count(s[k..], c)
    decreases k - i
  {
    if i < k {
      CountStep(s, i, c);
      CountNone(s, i + 1, k, c);
    }
  }

  /** One more part than there are commas. */
  lemma {:induction false} SplitFromCount(s: string, i: nat)
    requires i <= |s|
    ensures |SplitFrom(s, i)| == Count(s[i..], ',') + 1
    decreases |s| - i
  {
    var j := Find(s, i, ',');
    FindSkips(s, i, ',');
    CountNone(s, i, j, ',');
    if j < |s| {
      var k := SpacesEnd(s, j + 1);
      SplitFromCount(s, k);
      CountStep(s, j, ',');
      CountNone(s, j + 1, k, ',');
    }
  }

  lemma SplitArgsCount(args: string)
    ensures |SplitArgs(args)| == Count(args, ',') + 1
  {
    SplitFromCount(args, 0);
    assert args[0..] == args;
  }

  /** Arguments that a ", " separated list gives back: no commas, and no
      leading whitespace that the separator would swallow. */
  predicate Splittable(xs: seq<string>) {
    forall m :: 0 <= m < |xs| ==> Lacks(xs[m], ',') && (xs[m] == [] || !IsSpace(xs[m][0]))
  }

  lemma JoinStart(xs: seq<string>)
    requires xs != [] && Splittable(xs)
    ensures Join(", ", xs) == [] || !IsSpace(Join(", ", xs)[0])
  {
    if |xs| > 1 {
      var j := Join(", ", xs);
      if xs[0] == [] {
        assert j[0] == ',';
      } else {
        assert j[0] == xs[0][0];
      }
    }
  }

  /** Splitting a list joined with ", " gives the list back. */
  lemma {:induction false} SplitFromJoin(s: string, i: nat, xs: seq<string>)
    requires i <= |s| && xs != [] && Splittable(xs) && s[i..] == Join(", ", xs)
    ensures SplitFrom(s, i) == xs
    decreases |xs|
  {
    if |xs| == 1 {
      SplitFromLast(s, i, xs);
    } else {
      var k := i + |xs[0]| + 2;
      assert k <= |s| && s[k..] == Join(", ", xs[1..]) by {
        JoinedPieces(s, i, xs);
      }
      SplittableTail(xs);
      SplitFromJoin(s, k, xs[1..]);
      assert k == |s| || !IsSpace(s[k]) by {
        SpacesAfterJoin(s, k, xs[1..]);
      }
      SplitFromFirst(s, i, xs);
    }
  }

  lemma SplittableTail(xs: seq<string>)
    requires xs != [] && Splittable(xs)
    ensures Splittable(xs[1..])
  {
    forall m | 0 <= m < |xs[1..]|
      ensures xs[1..][m] == xs[m + 1]
    {
    }
  }

  lemma SplitFromLast(s: string, i: nat, xs: seq<string>)
    requires i <= |s| && |xs| == 1 && Splittable(xs) && s[i..] == Join(", ", xs)
    ensures SplitFrom(s, i) == xs
  {
    var x := xs[0];
    assert s[i..] == x;
    assert Find(s, i, ',') == |s| by {
      assert forall k :: i <= k < |s| ==> s[k] == x[k - i];
      FindIs(s, i, |s|, ',');
    }
  }

  /** The first part of a joined list, once the rest splits back. */
  lemma SplitFromFirst(s: string, i: nat, xs: seq<string>)
    requires i <= |s| && |xs| > 1 && Lacks(xs[0], ',') && s[i..] == Join(", ", xs)
    requires var k := i + |xs[0]| + 2; k <= |s| && (k == |s| || !IsSpace(s[k])) && SplitFrom(s, k) == xs[1..]
    ensures SplitFrom(s, i) == xs
  {
    var x := xs[0];
    var j := i + |x|;
    var k := j + 2;
    var rest := Join(", ", xs[1..]);
    assert s[i..j] == x && s[j] == ',' && s[j + 1] == ' ' && s[k..] == rest by {
      JoinedPieces(s, i, xs);
    }
    assert Find(s, i, ',') == j by {
      assert forall m :: i <= m < j ==> s[m] == x[m - i];
      FindIs(s, i, j, ',');
    }
    assert SpacesEnd(s, j + 1) == k by {
      assert SpacesEnd(s, k) == k;
    }
    SplitFromStep(s, i, j, k, x, xs[1..]);
    assert [x] + xs[1..] == xs;
  }

  /** A joined list does not start with whitespace. */
  lemma SpacesAfterJoin(s: string, k: nat, xs: seq<string>)
    requires k <= |s| && xs != [] && Splittable(xs) && s[k..] == Join(", ", xs)
    ensures k == |s| || !IsSpace(s[k])
  {
    JoinStart(xs);
    if k < |s| {
      assert s[k] == s[k..][0];
    }
  }

  /** Where the first part, the separator and the rest of a joined list are. */
  lemma JoinedPieces(s: string, i: nat, xs: seq<string>)
    requires i <= |s| && |xs| > 1 && s[i..] == Join(", ", xs)
    ensures var j := i + |xs[0]|;
      (j + 2 <= |s| && s[i..j] == xs[0] && s[j] == ',' && s[j + 1] == ' ' && s[j + 2..] == Join(", ", xs[1..]))
  {
    var x := xs[0];
    var rest := Join(", ", xs[1..]);
    var t := s[i..];
    assert t == x + ([','] + ([' '] + rest));
    assert forall k :: 0 <= k < |t| ==> s[i + k] == t[k];
  }

  /** One part, then the parts after its separator. */
  lemma SplitFromStep(s: string, i: nat, j: nat, k: nat, x: string, tail: seq<string>)
    requires i <= j < |s| && j + 1 <= k <= |s| && Find(s, i, ',') == j && SpacesEnd(s, j + 1) == k
    requires s[i..j] == x && SplitFrom(s, k) == tail
    ensures SplitFrom(s, i) == [x] + tail
  {
  }

  lemma SplitJoin(xs: seq<string>)
    requires xs != [] && Splittable(xs)
    ensures SplitArgs(Join(", ", xs)) == xs
  {
    var s := Join(", ", xs);
    assert s[0..] == s;
    SplitFromJoin(s, 0, xs);
  }

  /** Every argument of a text that a field can hold can be held by a field. */
  lemma SplitArgsDefaultable(args: string)
    requires Defaultable(args)
    ensures forall m :: 0 <= m < |SplitArgs(args)| ==> Defaultable(SplitArgs(args)[m])
  {
    SplitFromLacks(args, 0, '}');
    SplitFromLacks(args, 0, '$');
    SplitFromLacks(args, 0, '\\');
  }

  /** The parts of a text without `c` lack it too. */
  lemma {:induction false} SplitFromLacks(s: string, i: nat, c: char)
    requires i <= |s| && forall k :: i <= k < |s| ==> s[k] != c
    ensures forall m :: 0 <= m < |SplitFrom(s, i)| ==> Lacks(SplitFrom(s, i)[m], c)
    decreases |s| - i
  {
    var j := Find(s, i, ',');
    if j < |s| {
      SplitFromLacks(s, SpacesEnd(s, j + 1), c);
    }
  }

  /** FUNCTION_ARG_TEMPLATE applied to `xs`, numbered from `n`. */
  function ArgFields(xs: seq<string>, n: nat): seq<string> {
    if xs == [] then [] else [FieldText(n, xs[0])] + ArgFields(xs[1..], n + 1)
  }

  /** FUNCTION_COMPLETION_TEMPLATE: the completion recorded for a function
      `name` whose parameter text is `args` (lines 106-111). */
  function FunctionTemplate(name: string, args: string): string {
    name + ("(" + (Join(", ", ArgFields(SplitArgs(args), 1)) + ")"))
  }

  lemma {:induction false} ArgFieldsSnoc(xs: seq<string>, x: string, n: nat)
    ensures ArgFields(xs + [x], n) == ArgFields(xs, n) + [FieldText(n + |xs|, x)]
  {
    if xs != [] {
      assert (xs + [x])[1..] == xs[1..] + [x];
      ArgFieldsSnoc(xs[1..], x, n + 1);
    } else {
      assert xs + [x] == [x];
    }
  }

  /** Lines 105-111 for one function: each argument becomes a field
      numbered from 1, and the fields are joined with ", " inside
      `name(...)`. */
  method FunctionCompletion(functionName: string, args: string) returns (completion: string)
    ensures completion == FunctionTemplate(functionName, args)
  {
    var parts := SplitArgs(args);
    var argList: seq<string> := [];
    var index := 0;
    while index < |parts|
      invariant 0 <= index <= |parts|
      invariant argList == ArgFields(parts[..index], 1)
    {
      ArgFieldsSnoc(parts[..index], parts[index], 1);
      assert parts[..index + 1] == parts[..index] + [parts[index]];
      argList := argList + [FieldText(index + 1, parts[index])];
      index := index + 1;
    }
    assert parts[..index] == parts;
    completion := functionName + ("(" + (Join(", ", argList) + ")"));
  }

  /** The segments a function completion is meant to have: the fields
      numbered from `n`, separated by ", " and closed by ")". */
  function ArgSegments(xs: seq<string>, n: nat): seq<Segment>
    requires xs != []
    decreases |xs|
  {
    [Field(n, xs[0])] + (if |xs| == 1 then [Literal(")")] else [Literal(", ")] + ArgSegments(xs[1..], n + 1))
  }

  function FunctionSegments(name: string, xs: seq<string>): seq<Segment>
    requires xs != []
  {
    [Literal(name + "(")] + ArgSegments(xs, 1)
  }

  lemma ArgOfOneIsRendered(xs: seq<string>, n: nat)
    requires |xs| == 1
    ensures Join(", ", ArgFields(xs, n)) + ")" == Render(ArgSegments(xs, n))
  {
    var f := FieldText(n, xs[0]);
    assert ArgFields(xs, n) == [f] by {
      assert xs[1..] == [];
    }
    assert Render(ArgSegments(xs, n)) == f + ")" by {
      RenderPair(Field(n, xs[0]), Literal(")"), []);
      assert ArgSegments(xs, n) == [Field(n, xs[0]), Literal(")")] + [];
      assert ")" + "" == ")";
    }
  }

  lemma ArgStepIsRendered(xs: seq<string>, n: nat)
    requires |xs| > 1
    requires Join(", ", ArgFields(xs[1..], n + 1)) + ")" == Render(ArgSegments(xs[1..], n + 1))
    ensures Join(", ", ArgFields(xs, n)) + ")" == Render(ArgSegments(xs, n))
  {
    var f := FieldText(n, xs[0]);
    var j := Join(", ", ArgFields(xs[1..], n + 1));
    assert Render(ArgSegments(xs, n)) == f + (", " + (j + ")")) by {
      RenderPair(Field(n, xs[0]), Literal(", "), ArgSegments(xs[1..], n + 1));
      assert ArgSegments(xs, n) == [Field(n, xs[0]), Literal(", ")] + ArgSegments(xs[1..], n + 1);
    }
    assert Join(", ", ArgFields(xs, n)) == f + (", " + j) by {
      assert ArgFields(xs, n)[1..] == ArgFields(xs[1..], n + 1);
    }
    AppendAssoc3(f, ", ", j, ")");
  }

  lemma {:induction false} ArgsAreRendered(xs: seq<string>, n: nat)
    requires xs != []
    ensures Join(", ", ArgFields(xs, n)) + ")" == Render(ArgSegments(xs, n))
    decreases |xs|
  {
    if |xs| == 1 {
      ArgOfOneIsRendered(xs, n);
    } else {
      ArgsAreRendered(xs[1..], n + 1);
      ArgStepIsRendered(xs, n);
    }
  }

  lemma {:induction false} ArgSegmentsCanonical(xs: seq<string>, n: nat)
    requires xs != [] && forall m :: 0 <= m < |xs| ==> Defaultable(xs[m])
    ensures Canonical(ArgSegments(xs, n)) && ArgSegments(xs, n)[0].Field?
    decreases |xs|
  {
    var segs := ArgSegments(xs, n);
    if |xs| == 1 {
      assert segs == [Field(n, xs[0]), Literal(")")];
      assert segs[1..] == [Literal(")")];
      assert segs[1..][1..] == [];
    } else {
      assert forall m :: 0 <= m < |xs[1..]| ==> Defaultable(xs[1..][m]) by {
        forall m | 0 <= m < |xs[1..]|
          ensures xs[1..][m] == xs[m + 1]
        {
        }
      }
      ArgSegmentsCanonical(xs[1..], n + 1);
      assert segs[1..] == [Literal(", ")] + ArgSegments(xs[1..], n + 1);
      assert segs[1..][1..] == ArgSegments(xs[1..], n + 1);
    }
  }

  lemma {:induction false} ArgSegmentsFields(xs: seq<string>, n: nat)
    requires xs != []
    ensures var fs := Fields(ArgSegments(xs, n));
      |fs| == |xs| && forall k :: 0 <= k < |xs| ==> fs[k] == (n + k, xs[k])
    ensures var ls := Literals(ArgSegments(xs, n));
      |ls| == |xs| && forall k :: 0 <= k < |xs| ==> ls[k] == (if k == |xs| - 1 then ")" else ", ")
    decreases |xs|
  {
    if |xs| == 1 {
      ArgSegmentsOfOne(xs, n);
    } else {
      ArgSegmentsFields(xs[1..], n + 1);
      ArgSegmentsStep(xs, n);
    }
  }

  lemma ArgSegmentsOfOne(xs: seq<string>, n: nat)
    requires |xs| == 1
    ensures Fields(ArgSegments(xs, n)) == [(n, xs[0])] && Literals(ArgSegments(xs, n)) == [")"]
  {
    var segs := ArgSegments(xs, n);
    assert segs == [Field(n, xs[0]), Literal(")")];
    assert segs[1..] == [Literal(")")];
    var t := segs[1..];
    assert t[1..] == [];
    assert Fields(t) == Fields(t[1..]) == [];
    assert Literals(t) == [")"] + Literals(t[1..]);
    assert [")"] + [] == [")"];
  }

  lemma ArgSegmentsStep(xs: seq<string>, n: nat)
    requires |xs| > 1
    ensures Fields(ArgSegments(xs, n)) == [(n, xs[0])] + Fields(ArgSegments(xs[1..], n + 1))
    ensures Literals(ArgSegments(xs, n)) == [", "] + Literals(ArgSegments(xs[1..], n + 1))
  {
    var segs := ArgSegments(xs, n);
    assert segs[1..] == [Literal(", ")] + ArgSegments(xs[1..], n + 1);
    assert segs[1..][1..] == ArgSegments(xs[1..], n + 1);
  }

  /** A function completion reads back as `name(`, then one field per
      argument numbered from 1 and holding that argument, with ", " between
      them and `)` at the end. */
  lemma FunctionCompletionReadsBack(name: string, args: string)
    requires Verbatim(name) && Defaultable(args)
    ensures Parse(FunctionTemplate(name, args)) == Some(FunctionSegments(name, SplitArgs(args)))
    ensures var xs := SplitArgs(args); var fs := Fields(FunctionSegments(name, xs));
      |fs| == |xs| && forall k :: 0 <= k < |xs| ==> fs[k] == (k + 1, xs[k])
  {
    var xs := SplitArgs(args);
    SplitArgsDefaultable(args);
    ArgsAreRendered(xs, 1);
    ArgSegmentsCanonical(xs, 1);
    ArgSegmentsFields(xs, 1);
    var segs := FunctionSegments(name, xs);
    assert segs[1..] == ArgSegments(xs, 1);
    assert Render(segs) == (name + "(") + Render(ArgSegments(xs, 1));
    assert FunctionTemplate(name, args) == Render(segs);
    assert Verbatim(name + "(");
    ParseRender(segs);
  }

  /** An empty parameter text still gives one, empty, field. */
  lemma FunctionOfNoArgs(name: string)
    ensures FunctionTemplate(name, "") == name + "(${1:})"
  {
    assert SplitArgs("") == [""];
    assert ArgFields([""], 1) == [FieldText(1, "")];
    assert NatToString(1) == "1";
  }

  lemma SplitExample(args: string)
    requires args == "color1, color2"
    ensures SplitArgs(args) == ["color1", "color2"]
  {
    var xs := ["color1", "color2"];
    assert Join(", ", xs) == args by {
      assert xs[1..] == ["color2"];
    }
    assert Splittable(xs);
    SplitJoin(xs);
  }

  lemma FieldsOfTwo(a: string, b: string, n: nat)
    ensures Join(", ", ArgFields([a, b], n)) == FieldText(n, a) + (", " + FieldText(n + 1, b))
  {
    assert [a, b][1..] == [b];
    assert [b][1..] == [];
    var fs := [FieldText(n, a), FieldText(n + 1, b)];
    assert ArgFields([b], n + 1) == [FieldText(n + 1, b)] + ArgFields([], n + 2);
    assert ArgFields([a, b], n) == [FieldText(n, a)] + ArgFields([b], n + 1);
    assert ArgFields([a, b], n) == fs;
    assert fs[1..] == [FieldText(n + 1, b)];
  }

  lemma FieldsExample(xs: seq<string>)
    requires xs == ["color1", "color2"]
    ensures Join(", ", ArgFields(xs, 1)) == "${1:color1}, ${2:color2}"
  {
    FieldsOfTwo(xs[0], xs[1], 1);
    FirstFieldExample();
    SecondFieldExample();
    JoinedFieldsExample();
  }

  lemma FirstFieldExample()
    ensures FieldText(1, "color1") == "${1:color1}"
  {
    assert NatToString(1) == "1";
  }

  lemma SecondFieldExample()
    ensures FieldText(2, "color2") == "${2:color2}"
  {
    assert NatToString(2) == "2";
  }

  lemma JoinedFieldsExample()
    ensures "${1:color1}" + (", " + "${2:color2}") == "${1:color1}, ${2:color2}"
  {
  }

  /** `CPThemeBlendColors(color1, color2)` gives
      `CPThemeBlendColors(${1:color1}, ${2:color2})`. */
  lemma FunctionExample(name: string, args: string)
    requires name == "CPThemeBlendColors" && args == "color1, color2"
    ensures FunctionTemplate(name, args) == "CPThemeBlendColors(${1:color1}, ${2:color2})"
  {
    SplitExample(args);
    FieldsExample(SplitArgs(args));
  }
}
