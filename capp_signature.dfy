/** Method signatures as the completions generator of
    Plugin-generate_capp_completions.py reads them.  A signature is the text of
    an Objective-J method declaration after its return type, such as
    `setValue:(id)aValue forKey:(CPString)aKey`.  Two small patterns pick it
    apart: STRIPPED_SIGNATURE_RE finds the keyword labels `setValue:` and
    `forKey:`, and SIGNATURE_RE finds the (keyword, `(type)name`) pairs.  Both
    are modelled as scanners over positions of the signature with `findall`
    semantics: a match is tried at the current position, after a match the
    scan resumes at its end, after a failure one character later. */
module CappSignature {
  import opened Wrappers
  import opened Text

  /** One pair found by SIGNATURE_RE: `setValue:` and `(id)aValue`. */
  datatype Param = Param(keyword: string, typeAndName: string)

  /** The end of the run of word characters that starts at `i`. */
  function RunEnd(s: string, i: nat): (j: nat)
    requires i <= |s|
    ensures i <= j <= |s|
    ensures j < |s| ==> !IsWordChar(s[j])
    decreases |s| - i
  {
    if i < |s| && IsWordChar(s[i]) then RunEnd(s, i + 1) else i
  }

  /** Everything the run passes over is a word character. */
  lemma {:induction false} RunEndWord(s: string, i: nat)
    requires i <= |s|
    ensures forall k :: i <= k < RunEnd(s, i) ==> IsWordChar(s[k])
    decreases |s| - i
  {
    if i < |s| && IsWordChar(s[i]) {
      RunEndWord(s, i + 1);
    }
  }

  /** `s` holds `x` at offset `i`. */
  predicate At(s: string, i: nat, x: string) {
    i + |x| <= |s| && forall k :: 0 <= k < |x| ==> s[i + k] == x[k]
  }

  lemma AtAppend(s: string, i: nat, x: string, y: string)
    requires At(s, i, x + y)
    ensures At(s, i, x) && At(s, i + |x|, y)
  {
    forall k | 0 <= k < |x|
      ensures s[i + k] == x[k]
    {
      assert (x + y)[k] == x[k];
    }
    forall k | 0 <= k < |y|
      ensures s[i + |x| + k] == y[k]
    {
      assert (x + y)[|x| + k] == y[k];
    }
  }

  lemma AtChar(s: string, i: nat, c: char)
    requires At(s, i, [c])
    ensures i < |s| && s[i] == c
  {
    assert s[i + 0] == [c][0];
  }

  /** `x`, a separator `c` and `y` held at `i`. */
  lemma AtSep(s: string, i: nat, x: string, c: char, y: string)
    requires At(s, i, x + ([c] + y))
    ensures At(s, i, x) && i + |x| < |s| && s[i + |x|] == c && At(s, i + |x| + 1, y)
  {
    AtAppend(s, i, x, [c] + y);
    AtAppend(s, i + |x|, [c], y);
    AtChar(s, i + |x|, c);
  }

  lemma AtSlice(s: string, i: nat, x: string)
    requires At(s, i, x)
    ensures s[i..i + |x|] == x
  {
  }

  lemma AtWhole(x: string, y: string)
    ensures At(x + y, 0, x)
  {
  }

  /** The run over a word that is not continued ends where the word does. */
  lemma {:induction false} RunEndOver(s: string, i: nat, w: string)
    requires At(s, i, w) && AllWordChars(w)
    requires i + |w| == |s| || !IsWordChar(s[i + |w|])
    ensures RunEnd(s, i) == i + |w|
    decreases |w|
  {
    if w != [] {
      assert s[i] == w[0];
      assert w == [w[0]] + w[1..];
      AtAppend(s, i, [w[0]], w[1..]);
      RunEndOver(s, i + 1, w[1..]);
    }
  }

  // ---------------------------------------------------------------------------
  // STRIPPED_SIGNATURE_RE: [\w\d]+?:
  // ---------------------------------------------------------------------------

  /** A keyword label: one or more word characters and a colon. */
  predicate IsKeyword(k: string) {
    |k| >= 2 && k[|k| - 1] == ':' && forall m :: 0 <= m < |k| - 1 ==> IsWordChar(k[m])
  }

  /** `STRIPPED_SIGNATURE_RE.findall` from position `i`.  The lazy `+?` cannot
      stop inside a word run, because a colon is not a word character, so a
      match is a whole word run and the colon after it. */
  function Keywords(s: string, i: nat): seq<string>
    requires i <= |s|
    decreases |s| - i
  {
    if i == |s| then []
    else
      var r := RunEnd(s, i);
      if i < r < |s| && s[r] == ':' then [s[i..r + 1]] + Keywords(s, r + 1)
      else Keywords(s, i + 1)
  }

  /** A word run that a colon follows is a keyword label. */
  lemma LabelIsKeyword(s: string, i: nat, r: nat)
    requires i < r < |s| && s[r] == ':' && forall k :: i <= k < r ==> IsWordChar(s[k])
    ensures IsKeyword(s[i..r + 1])
  {
    var k := s[i..r + 1];
    assert forall m :: 0 <= m < |k| - 1 ==> k[m] == s[i + m];
  }

  /** Every match of STRIPPED_SIGNATURE_RE is a keyword label. */
  lemma {:induction false} KeywordsAreLabels(s: string, i: nat)
    requires i <= |s|
    ensures forall m :: 0 <= m < |Keywords(s, i)| ==> IsKeyword(Keywords(s, i)[m])
    decreases |s| - i
  {
    if i < |s| {
      var r := RunEnd(s, i);
      if i < r < |s| && s[r] == ':' {
        RunEndWord(s, i);
        LabelIsKeyword(s, i, r);
        KeywordsAreLabels(s, r + 1);
        var ks := Keywords(s, i);
        assert ks == [s[i..r + 1]] + Keywords(s, r + 1);
        assert forall m :: 1 <= m < |ks| ==> ks[m] == Keywords(s, r + 1)[m - 1];
      } else {
        KeywordsAreLabels(s, i + 1);
      }
    }
  }

  /** No colon from `i` to `j`. */
  predicate NoColonIn(s: string, i: nat, j: nat) {
    forall k :: i <= k < j && k < |s| ==> s[k] != ':'
  }

  predicate NoColon(s: string) {
    NoColonIn(s, 0, |s|)
  }

  lemma {:induction false} KeywordsNoColon(s: string, i: nat)
    requires i <= |s| && NoColonIn(s, i, |s|)
    ensures Keywords(s, i) == []
    decreases |s| - i
  {
    if i < |s| {
      KeywordsNoColon(s, i + 1);
    }
  }

  /** A stretch without a colon, ended by a blank at `j`, yields no keyword. */
  lemma {:induction false} KeywordsSkip(s: string, i: nat, j: nat)
    requires i <= j < |s| && s[j] == ' ' && NoColonIn(s, i, j)
    ensures Keywords(s, i) == Keywords(s, j + 1)
    decreases j - i
  {
    var r := RunEnd(s, i);
    RunEndWord(s, i);
    assert r <= j;
    if i < j {
      KeywordsSkip(s, i + 1, j);
    }
  }

  /** A keyword at `i` is found as it stands. */
  lemma KeywordAt(s: string, i: nat, w: string)
    requires w != [] && AllWordChars(w) && At(s, i, w)
    requires i + |w| < |s| && s[i + |w|] == ':'
    ensures Keywords(s, i) == [w + ":"] + Keywords(s, i + |w| + 1)
  {
    RunEndOver(s, i, w);
    AtSlice(s, i, w);
    assert s[i..i + |w| + 1] == s[i..i + |w|] + [s[i + |w|]];
  }

  // ---------------------------------------------------------------------------
  // SIGNATURE_RE: ([\w\d]+?:)(\([\w\d]+(?: ?<[\w\d]+>)?\)[\w\d]+)
  // ---------------------------------------------------------------------------

  /** After the type word, which ends at `j`: the end of an optional protocol
      ` ?<[\w\d]+>` when one is complete, otherwise `j` itself.  The two ways
      on from `j` (a protocol, or the closing parenthesis right away) start
      with different characters, so trying the protocol first and falling
      back is all the backtracking there is. */
  function ProtocolEnd(s: string, j: nat): (c: nat)
    requires j <= |s|
    ensures j <= c <= |s|
  {
    var k := if j < |s| && s[j] == ' ' then j + 1 else j;
    if k < |s| && s[k] == '<' then
      var r := RunEnd(s, k + 1);
      if r > k + 1 && r < |s| && s[r] == '>' then r + 1 else j
    else j
  }

  /** The end of the `(type)name` group that starts at `j`, if it is there. */
  function TypeAndNameEnd(s: string, j: nat): (e: Option<nat>)
    requires j <= |s|
    ensures e.Some? ==> j < e.value <= |s|
  {
    if j < |s| && s[j] == '(' then
      var r := RunEnd(s, j + 1);
      if r > j + 1 then
        var c := ProtocolEnd(s, r);
        if c < |s| && s[c] == ')' then
          var e := RunEnd(s, c + 1);
          if e > c + 1 then Some(e) else None
        else None
      else None
    else None
  }

  /** A SIGNATURE_RE match at `i`: the pair and where the match ends. */
  function PairAt(s: string, i: nat): (r: Option<(Param, nat)>)
    requires i <= |s|
    ensures r.Some? ==> i < r.value.1 <= |s|
  {
    var r := RunEnd(s, i);
    if i < r < |s| && s[r] == ':' then
      match TypeAndNameEnd(s, r + 1)
      case None => None
      case Some(e) => Some((Param(s[i..r + 1], s[r + 1..e]), e))
    else None
  }

  /** `SIGNATURE_RE.findall` from position `i`. */
  function SignaturePairs(s: string, i: nat): seq<Param>
    requires i <= |s|
    decreases |s| - i
  {
    if i == |s| then []
    else
      match PairAt(s, i)
      case Some((p, e)) => [p] + SignaturePairs(s, e)
      case None => SignaturePairs(s, i + 1)
  }

  /** The first group of every SIGNATURE_RE match is a keyword label. */
  lemma {:induction false} PairsAreKeywords(s: string, i: nat)
    requires i <= |s|
    ensures forall m :: 0 <= m < |SignaturePairs(s, i)| ==> IsKeyword(SignaturePairs(s, i)[m].keyword)
    decreases |s| - i
  {
    if i < |s| {
      match PairAt(s, i)
      case Some((p, e)) =>
        var r := RunEnd(s, i);
        RunEndWord(s, i);
        LabelIsKeyword(s, i, r);
        PairsAreKeywords(s, e);
        var ps := SignaturePairs(s, i);
        assert ps == [p] + SignaturePairs(s, e);
        assert forall m :: 1 <= m < |ps| ==> ps[m] == SignaturePairs(s, e)[m - 1];
      case None =>
        PairsAreKeywords(s, i + 1);
    }
  }

  lemma {:induction false} PairsNoColon(s: string, i: nat)
    requires i <= |s| && NoColonIn(s, i, |s|)
    ensures SignaturePairs(s, i) == []
    decreases |s| - i
  {
    if i < |s| {
      PairsNoColon(s, i + 1);
    }
  }

  /** Without an opening parenthesis there is no `(type)name` group. */
  lemma {:induction false} PairsNoParen(s: string, i: nat)
    requires i <= |s| && forall k :: i <= k < |s| ==> s[k] != '('
    ensures SignaturePairs(s, i) == []
    decreases |s| - i
  {
    if i < |s| {
      assert PairAt(s, i).None?;
      PairsNoParen(s, i + 1);
    }
  }

  // ---------------------------------------------------------------------------
  // add_method_signature: the stripped key and the parameter list
  // ---------------------------------------------------------------------------

  /** Lines 58-63: with a colon in the signature, the key is the keyword
      labels run together and the parameters are the pairs; without one, the
      signature is its own key and there are no parameters. */
  function Normalize(signature: string): (r: (string, Option<seq<Param>>))
    ensures r.1.None? <==> NoColon(signature)
    ensures r.1.None? ==> r.0 == signature
    ensures r.1.Some? ==> r.0 == Concat(Keywords(signature, 0)) && r.1.value == SignaturePairs(signature, 0)
  {
    if NoColon(signature) then (signature, None)
    else (Concat(Keywords(signature, 0)), Some(SignaturePairs(signature, 0)))
  }

  // ---------------------------------------------------------------------------
  // Declared arguments: the signatures the patterns are written for
  // ---------------------------------------------------------------------------

  /** One keyword argument of a declaration, `label:(type <protocol>)name`;
      `protocol` is the protocol name and whether a blank precedes its `<`. */
  datatype Arg = Arg(word: string, ty: string, protocol: Option<(bool, string)>, name: string)

  predicate WellFormedArg(a: Arg) {
    a.word != [] && AllWordChars(a.word) &&
    a.ty != [] && AllWordChars(a.ty) &&
    a.name != [] && AllWordChars(a.name) &&
    (a.protocol.Some? ==> a.protocol.value.1 != [] && AllWordChars(a.protocol.value.1))
  }

  function Blank(blank: bool): string {
    if blank then " " else ""
  }

  function ProtocolText(a: Arg): string {
    match a.protocol
    case None => ""
    case Some((blank, p)) => Blank(blank) + ("<" + (p + ">"))
  }

  function TypeAndName(a: Arg): string {
    "(" + (a.ty + (ProtocolText(a) + (")" + a.name)))
  }

  function ArgText(a: Arg): string {
    a.word + (":" + TypeAndName(a))
  }

  function ArgParam(a: Arg): Param {
    Param(a.word + ":", TypeAndName(a))
  }

  /** The declaration text: the arguments separated by single blanks. */
  function Declaration(args: seq<Arg>): string {
    if args == [] then "" else if |args| == 1 then ArgText(args[0])
    else ArgText(args[0]) + (" " + Declaration(args[1..]))
  }

  function Params(args: seq<Arg>): seq<Param> {
    if args == [] then [] else [ArgParam(args[0])] + Params(args[1..])
  }

  function Labels(args: seq<Arg>): seq<string> {
    if args == [] then [] else [args[0].word + ":"] + Labels(args[1..])
  }

  predicate WellFormedArgs(args: seq<Arg>) {
    forall i :: 0 <= i < |args| ==> WellFormedArg(args[i])
  }

  /** Where the pieces of a `(type)name` group held at `j` lie. */
  lemma TypeAndNamePieces(s: string, j: nat, a: Arg)
    requires At(s, j, TypeAndName(a))
    ensures s[j] == '(' && At(s, j + 1, a.ty) && At(s, j + 1 + |a.ty|, ProtocolText(a))
    ensures var c := j + 1 + |a.ty| + |ProtocolText(a)|;
      s[c] == ')' && At(s, c + 1, a.name) && |TypeAndName(a)| == c + 1 + |a.name| - j
  {
    var p := ProtocolText(a);
    AtAppend(s, j, "(", a.ty + (p + (")" + a.name)));
    AtChar(s, j, '(');
    AtAppend(s, j + 1, a.ty, p + (")" + a.name));
    AtAppend(s, j + 1 + |a.ty|, p, ")" + a.name);
    AtAppend(s, j + 1 + |a.ty| + |p|, ")", a.name);
    AtChar(s, j + 1 + |a.ty| + |p|, ')');
  }

  /** The optional protocol of a declared argument is read whole. */
  lemma ProtocolEndOfArg(s: string, j: nat, a: Arg)
    requires WellFormedArg(a)
    requires At(s, j, ProtocolText(a)) && j + |ProtocolText(a)| < |s| && s[j + |ProtocolText(a)|] == ')'
    ensures ProtocolEnd(s, j) == j + |ProtocolText(a)|
  {
    match a.protocol
    case None =>
    case Some((blank, pn)) =>
      var b := Blank(blank);
      AtAppend(s, j, b, "<" + (pn + ">"));
      if blank {
        AtChar(s, j, ' ');
      }
      AtAppend(s, j + |b|, "<", pn + ">");
      AtChar(s, j + |b|, '<');
      AtAppend(s, j + |b| + 1, pn, ">");
      AtChar(s, j + |b| + 1 + |pn|, '>');
      RunEndOver(s, j + |b| + 1, pn);
  }

  lemma TypeAndNameEndOfArg(s: string, j: nat, a: Arg)
    requires WellFormedArg(a)
    requires At(s, j, TypeAndName(a))
    requires var e := j + |TypeAndName(a)|; e == |s| || !IsWordChar(s[e])
    ensures TypeAndNameEnd(s, j) == Some(j + |TypeAndName(a)|)
  {
    TypeAndNamePieces(s, j, a);
    var p := ProtocolText(a);
    var r := j + 1 + |a.ty|;
    assert !IsWordChar(s[r]) by {
      if a.protocol.Some? {
        var blank, pn := a.protocol.value.0, a.protocol.value.1;
        assert p[0] == ' ' || p[0] == '<';
      }
    }
    RunEndOver(s, j + 1, a.ty);
    ProtocolEndOfArg(s, r, a);
    RunEndOver(s, r + |p| + 1, a.name);
  }



  lemma NoColonOfTypeAndName(a: Arg)
    requires WellFormedArg(a)
    ensures NoColon(TypeAndName(a))
  {
    var p := ProtocolText(a);
    assert NoColon(p);
  }

  /** Where the pieces of an argument held at `i` lie. */
  lemma ArgPieces(s: string, i: nat, a: Arg)
    requires At(s, i, ArgText(a))
    ensures At(s, i, a.word) && i + |a.word| < |s| && s[i + |a.word|] == ':'
    ensures At(s, i + |a.word| + 1, TypeAndName(a))
    ensures |ArgText(a)| == |a.word| + 1 + |TypeAndName(a)|
  {
    AtAppend(s, i, a.word, ":" + TypeAndName(a));
    AtAppend(s, i + |a.word|, ":", TypeAndName(a));
    AtChar(s, i + |a.word|, ':');
  }

  lemma NoColonAt(s: string, j: nat, x: string)
    requires At(s, j, x) && NoColon(x)
    ensures NoColonIn(s, j, j + |x|)
  {
    forall k | j <= k < j + |x|
      ensures s[k] != ':'
    {
      assert s[j + (k - j)] == x[k - j];
    }
  }

  /** A SIGNATURE_RE match at `i` whose keyword `kw` ends at `r` and whose
      group `g` ends at `e`. */
  lemma PairAtOf(s: string, i: nat, r: nat, e: nat, kw: string, g: string)
    requires i < r < |s| && RunEnd(s, i) == r && s[r] == ':'
    requires TypeAndNameEnd(s, r + 1) == Some(e)
    requires s[i..r + 1] == kw && s[r + 1..e] == g
    ensures PairAt(s, i) == Some((Param(kw, g), e))
  {
  }

  /** A word held at `i` and the colon after it, as one slice. */
  lemma LabelSlice(s: string, i: nat, w: string)
    requires At(s, i, w) && i + |w| < |s| && s[i + |w|] == ':'
    ensures s[i..i + |w| + 1] == w + ":"
  {
    AtSlice(s, i, w);
    assert s[i..i + |w| + 1] == s[i..i + |w|] + [s[i + |w|]];
  }

  /** The pair of an argument held at `i`. */
  lemma PairAtArg(s: string, i: nat, a: Arg)
    requires WellFormedArg(a) && At(s, i, ArgText(a))
    requires var e := i + |ArgText(a)|; e == |s| || !IsWordChar(s[e])
    ensures PairAt(s, i) == Some((ArgParam(a), i + |ArgText(a)|))
  {
    ArgMatchPieces(s, i, a);
    PairAtWord(s, i, a.word, TypeAndName(a), i + |ArgText(a)|);
    ArgParamIs(a);
  }

  lemma ArgParamIs(a: Arg)
    ensures ArgParam(a) == Param(a.word + ":", TypeAndName(a))
  {
  }

  /** Where the label, the colon and the group of an argument held at `i` are. */
  lemma ArgMatchPieces(s: string, i: nat, a: Arg)
    requires WellFormedArg(a) && At(s, i, ArgText(a))
    requires var e := i + |ArgText(a)|; e == |s| || !IsWordChar(s[e])
    ensures var r := i + |a.word|; var e := i + |ArgText(a)|;
      At(s, i, a.word) && r < |s| && s[r] == ':' && At(s, r + 1, TypeAndName(a)) &&
      e == r + 1 + |TypeAndName(a)| && TypeAndNameEnd(s, r + 1) == Some(e)
  {
    ArgPieces(s, i, a);
    TypeAndNameEndOfArg(s, i + |a.word| + 1, a);
  }

  /** A word, a colon and a `(type)name` group at `i` make one match. */
  lemma PairAtWord(s: string, i: nat, w: string, g: string, e: nat)
    requires w != [] && AllWordChars(w) && At(s, i, w)
    requires i + |w| < |s| && s[i + |w|] == ':' && At(s, i + |w| + 1, g)
    requires e == i + |w| + 1 + |g| && TypeAndNameEnd(s, i + |w| + 1) == Some(e)
    ensures PairAt(s, i) == Some((Param(w + ":", g), e))
  {
    var r := i + |w|;
    assert RunEnd(s, i) == r by {
      RunEndOver(s, i, w);
    }
    assert s[i..r + 1] == w + ":" by {
      LabelSlice(s, i, w);
    }
    assert s[r + 1..e] == g by {
      AtSlice(s, r + 1, g);
    }
    PairAtOf(s, i, r, e, w + ":", g);
  }

  lemma PairsStep(s: string, i: nat, p: Param, e: nat)
    requires i < |s| && PairAt(s, i) == Some((p, e))
    ensures SignaturePairs(s, i) == [p] + SignaturePairs(s, e)
  {
  }

  lemma PairsSkipBlank(s: string, k: nat)
    requires k < |s| && s[k] == ' '
    ensures SignaturePairs(s, k) == SignaturePairs(s, k + 1)
  {
    assert RunEnd(s, k) == k;
    assert PairAt(s, k).None?;
  }

  /** What a declaration needs from the text after it: nothing that
      continues the last name, and no colon. */
  predicate EndsClean(s: string, e: nat) {
    e <= |s| && (e == |s| || !IsWordChar(s[e])) && NoColonIn(s, e, |s|)
  }

  /** The first argument of a declaration held at `i`, and the rest after a blank. */
  lemma DeclarationPieces(s: string, i: nat, args: seq<Arg>)
    requires args != [] && At(s, i, Declaration(args))
    ensures At(s, i, ArgText(args[0]))
    ensures |args| > 1 ==> var n := i + |ArgText(args[0])|;
      n < |s| && s[n] == ' ' && At(s, n + 1, Declaration(args[1..])) &&
      i + |Declaration(args)| == n + 1 + |Declaration(args[1..])|
    ensures |args| == 1 ==> |Declaration(args)| == |ArgText(args[0])|
  {
    if |args| > 1 {
      AtSep(s, i, ArgText(args[0]), ' ', Declaration(args[1..]));
    }
  }

  lemma WellFormedRest(args: seq<Arg>)
    requires args != [] && WellFormedArgs(args)
    ensures WellFormedArg(args[0]) && WellFormedArgs(args[1..])
  {
    forall m | 0 <= m < |args[1..]|
      ensures WellFormedArg(args[1..][m])
    {
      assert args[1..][m] == args[m + 1];
    }
  }

  /** SIGNATURE_RE reads a declaration back as its argument pairs. */
  lemma {:induction false} DeclarationPairs(s: string, i: nat, args: seq<Arg>)
    requires args != [] && WellFormedArgs(args) && At(s, i, Declaration(args))
    requires EndsClean(s, i + |Declaration(args)|)
    ensures SignaturePairs(s, i) == Params(args)
    decreases |args|
  {
    WellFormedRest(args);
    if |args| == 1 {
      PairsOfOne(s, i, args);
    } else {
      DeclarationPieces(s, i, args);
      DeclarationPairs(s, i + |ArgText(args[0])| + 1, args[1..]);
      PairsAfterFirst(s, i, args);
    }
  }

  /** The pair of a lone argument, with nothing but colon-free text after it. */
  lemma PairsOfOne(s: string, i: nat, args: seq<Arg>)
    requires |args| == 1 && WellFormedArg(args[0]) && At(s, i, Declaration(args))
    requires EndsClean(s, i + |Declaration(args)|)
    ensures SignaturePairs(s, i) == Params(args)
  {
    var a := args[0];
    var n := i + |ArgText(a)|;
    assert At(s, i, ArgText(a)) && n == i + |Declaration(args)| by {
      DeclarationPieces(s, i, args);
    }
    PairAtArg(s, i, a);
    PairsStep(s, i, ArgParam(a), n);
    PairsNoColon(s, n);
    assert Params(args) == [ArgParam(a)] + Params(args[1..]);
  }

  /** The pair of the first argument, then the pairs after the blank. */
  lemma PairsAfterFirst(s: string, i: nat, args: seq<Arg>)
    requires |args| > 1 && WellFormedArg(args[0]) && At(s, i, Declaration(args))
    requires var n := i + |ArgText(args[0])|;
      n < |s| && SignaturePairs(s, n + 1) == Params(args[1..])
    ensures SignaturePairs(s, i) == Params(args)
  {
    var a := args[0];
    var n := i + |ArgText(a)|;
    assert At(s, i, ArgText(a)) && s[n] == ' ' by {
      DeclarationPieces(s, i, args);
    }
    PairAtArg(s, i, a);
    PairsStep(s, i, ArgParam(a), n);
    PairsSkipBlank(s, n);
  }

  /** STRIPPED_SIGNATURE_RE reads a declaration back as its labels. */
  lemma {:induction false} DeclarationKeywords(s: string, i: nat, args: seq<Arg>)
    requires args != [] && WellFormedArgs(args) && At(s, i, Declaration(args))
    requires EndsClean(s, i + |Declaration(args)|)
    ensures Keywords(s, i) == Labels(args)
    decreases |args|
  {
    WellFormedRest(args);
    if |args| == 1 {
      KeywordsOfOne(s, i, args);
    } else {
      DeclarationPieces(s, i, args);
      DeclarationKeywords(s, i + |ArgText(args[0])| + 1, args[1..]);
      KeywordsAfterFirst(s, i, args);
    }
  }

  /** The label of the first argument, and the text up to the blank after it. */
  lemma KeywordOfFirst(s: string, i: nat, a: Arg)
    requires WellFormedArg(a) && At(s, i, ArgText(a))
    ensures var j := i + |a.word| + 1; var n := i + |ArgText(a)|;
      j <= n <= |s| && Keywords(s, i) == [a.word + ":"] + Keywords(s, j) && NoColonIn(s, j, n)
  {
    var j := i + |a.word| + 1;
    ArgPieces(s, i, a);
    NoColonOfTypeAndName(a);
    NoColonAt(s, j, TypeAndName(a));
    KeywordAt(s, i, a.word);
  }

  lemma KeywordsOfOne(s: string, i: nat, args: seq<Arg>)
    requires |args| == 1 && WellFormedArg(args[0]) && At(s, i, Declaration(args))
    requires EndsClean(s, i + |Declaration(args)|)
    ensures Keywords(s, i) == Labels(args)
  {
    var a := args[0];
    var j := i + |a.word| + 1;
    assert At(s, i, ArgText(a)) && |Declaration(args)| == |ArgText(a)| by {
      DeclarationPieces(s, i, args);
    }
    KeywordOfFirst(s, i, a);
    KeywordsNoColon(s, j);
    assert Labels(args) == [a.word + ":"] + Labels(args[1..]);
  }

  lemma KeywordsAfterFirst(s: string, i: nat, args: seq<Arg>)
    requires |args| > 1 && WellFormedArg(args[0]) && At(s, i, Declaration(args))
    requires var n := i + |ArgText(args[0])|;
      n < |s| && Keywords(s, n + 1) == Labels(args[1..])
    ensures Keywords(s, i) == Labels(args)
  {
    var a := args[0];
    var j := i + |a.word| + 1;
    var n := i + |ArgText(a)|;
    assert At(s, i, ArgText(a)) && s[n] == ' ' by {
      DeclarationPieces(s, i, args);
    }
    KeywordOfFirst(s, i, a);
    KeywordsSkip(s, j, n);
  }

  lemma LabelsAreNotEmpty(args: seq<Arg>)
    requires args != [] && WellFormedArgs(args)
    ensures !NoColon(Declaration(args))
  {
    var a := args[0];
    if |args| == 1 {
      AtWhole(ArgText(a), "");
      assert ArgText(a) + "" == Declaration(args);
    } else {
      AtWhole(ArgText(a), " " + Declaration(args[1..]));
    }
    ArgPieces(Declaration(args), 0, a);
  }

  /** `add_method_signature` on a declaration: the key is the labels run
      together and the parameters are the argument pairs. */
  lemma NormalizeDeclaration(args: seq<Arg>, tail: string)
    requires args != [] && WellFormedArgs(args)
    requires tail == [] || !IsWordChar(tail[0])
    requires NoColon(tail)
    ensures Normalize(Declaration(args) + tail) == (Concat(Labels(args)), Some(Params(args)))
  {
    var d := Declaration(args);
    var s := d + tail;
    assert At(s, 0, d) && EndsClean(s, |d|) by {
      AtWhole(d, tail);
      EndsCleanAppend(d, tail);
    }
    assert SignaturePairs(s, 0) == Params(args) by {
      DeclarationPairs(s, 0, args);
    }
    assert Keywords(s, 0) == Labels(args) by {
      DeclarationKeywords(s, 0, args);
    }
    assert !NoColon(s) by {
      LabelsAreNotEmpty(args);
      var k :| 0 <= k < |d| && d[k] == ':';
      assert s[k] == ':';
    }
  }

  /** A colon-free tail that does not continue a word ends the text cleanly. */
  lemma EndsCleanAppend(d: string, tail: string)
    requires tail == [] || !IsWordChar(tail[0])
    requires NoColon(tail)
    ensures EndsClean(d + tail, |d|)
  {
    var s := d + tail;
    forall k | |d| <= k < |s|
      ensures s[k] != ':'
    {
      assert s[k] == tail[k - |d|];
    }
    if tail != [] {
      assert s[|d|] == tail[0];
    }
  }

  lemma OneArg(a: Arg)
    ensures Labels([a]) == [a.word + ":"] && Params([a]) == [ArgParam(a)]
    ensures Concat(Labels([a])) == a.word + ":" && Declaration([a]) == ArgText(a)
  {
    assert [a][1..] == [];
  }

  /** `setValue:(id)aValue` has the key `setValue:` and the pair
      (`setValue:`, `(id)aValue`). */
  lemma NormalizeExample(sig: string)
    requires sig == "setValue:(id)aValue"
    ensures Normalize(sig) == ("setValue:", Some([Param("setValue:", "(id)aValue")]))
  {
    var a := Arg("setValue", "id", None, "aValue");
    ExampleArg(a);
    OneArg(a);
    assert sig == Declaration([a]) + "";
    NormalizeDeclaration([a], "");
  }

  /** The argument `setValue:(id)aValue`. */
  lemma ExampleArg(a: Arg)
    requires a == Arg("setValue", "id", None, "aValue")
    ensures WellFormedArgs([a]) && NoColon("")
    ensures a.word + ":" == "setValue:" && ArgParam(a) == Param("setValue:", "(id)aValue")
    ensures ArgText(a) + "" == "setValue:(id)aValue"
  {
    assert WellFormedArg(a);
    assert TypeAndName(a) == "(id)aValue";
  }
}
