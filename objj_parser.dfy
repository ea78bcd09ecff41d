/** The bracket-balancing parser of Support/lib/objj_parser.rb (class ObjcParser).

    The parser works on the token list the lexer produced for the text left of
    the caret, treating it as a stack whose top is the token nearest the caret.
    Every walk pops from the end.  The recursive functions below are the
    specification of each walk: they take the list and return the result
    together with the list that is left.  The methods of `Parser` are the
    imperative walks and are proved equal to them. */
module ObjjParser {
  import opened Wrappers

  /** Token kinds the lexer assigns.  Whitespace and terminator tokens are
      dropped before the list reaches the parser, so they are not kinds here;
      `AtSelector` is never produced by the lexer but is named by `get_position`. */
  datatype Kind =
    | Return | Nil | Control | AtString | AtSelector | Selector | Identifier
    | Bind | PostOp | At | Star | Close | Open | Operator | Unknown

  /** A token: its kind, its text and its offset in the line. */
  datatype Token = Token(tt: Kind, text: string, beg: nat)

  function Last(l: seq<Token>): Token
    requires l != []
  {
    l[|l| - 1]
  }

  function Pop(l: seq<Token>): (r: seq<Token>)
    requires l != []
    ensures |r| == |l| - 1
  {
    l[..|l| - 1]
  }

  predicate IsPrefix(p: seq<Token>, l: seq<Token>) {
    |p| <= |l| && p == l[..|p|]
  }

  lemma PrefixTransitive(a: seq<Token>, b: seq<Token>, c: seq<Token>)
    requires IsPrefix(a, b) && IsPrefix(b, c)
    ensures IsPrefix(a, c)
  {
    assert c[..|b|][..|a|] == c[..|a|];
  }

  /** Kinds at which `find_object_start` stops walking back. */
  const ObjectStops: set<Kind> := {Operator, Selector, Open, Return, Control}

  /** Kinds before a `*` that make `eat_star` take the star as the start. */
  const StarStops: set<Kind> := {Operator, Selector, Open, Return, Control, Star}

  /** Kinds before a final identifier that show a message is already being sent. */
  const Endings: set<Kind> := {Close, PostOp, AtString, AtSelector, Identifier}

  // ---------------------------------------------------------------------------
  // match_bracket
  // ---------------------------------------------------------------------------

  /** The opening bracket that pairs with a closing one; nothing for other text. */
  function Partner(close: string): Option<string> {
    if close == "]" then Some("[")
    else if close == ")" then Some("(")
    else if close == "}" then Some("{")
    else None
  }

  /** How popping `t` changes the depth of `match_bracket(closer, …)`. */
  function Step(closer: string, t: Token): int {
    if t.text == closer then 1 else if Some(t.text) == Partner(closer) then -1 else 0
  }

  /** The total depth change over a stretch of popped tokens. */
  function Net(closer: string, s: seq<Token>): int {
    if s == [] then 0 else Net(closer, Pop(s)) + Step(closer, Last(s))
  }

  /** The depth after popping everything above index `j`, starting from `up`. */
  function Depth(closer: string, up: int, l: seq<Token>, j: nat): int
    requires j <= |l|
  {
    up + Net(closer, l[j..])
  }

  /** The walk of `match_bracket(closer, l)` from depth `up`: the `beg` of the
      token that brings the depth to zero and what is left below it, or nothing
      and the empty list when `l` runs out first. */
  function BracketMatch(closer: string, l: seq<Token>, up: int): (r: (Option<nat>, seq<Token>))
    ensures IsPrefix(r.1, l)
    ensures r.0.None? ==> r.1 == []
    ensures r.0.Some? ==> |r.1| < |l| && r.0.value == l[|r.1|].beg
    decreases |l|
  {
    if l == [] then (None, [])
    else
      var obj := Last(l);
      var up' := up + Step(closer, obj);
      if up' == 0 then (Some(obj.beg), Pop(l))
      else
        var r := BracketMatch(closer, Pop(l), up');
        PrefixTransitive(r.1, Pop(l), l);
        r
  }

  lemma NetPop(closer: string, l: seq<Token>, j: nat)
    requires j < |l|
    ensures Net(closer, l[j..]) == Net(closer, Pop(l)[j..]) + Step(closer, Last(l))
  {
    assert Pop(l[j..]) == Pop(l)[j..];
  }

  /** Popping the last token moves its step into the starting depth. */
  lemma DepthPop(closer: string, up: int, l: seq<Token>)
    requires l != []
    ensures Depth(closer, up, l, |l|) == up
    ensures forall j :: 0 <= j < |l| ==> Depth(closer, up, l, j) == Depth(closer, up + Step(closer, Last(l)), Pop(l), j)
  {
    forall j | 0 <= j < |l|
      ensures Depth(closer, up, l, j) == Depth(closer, up + Step(closer, Last(l)), Pop(l), j)
    {
      NetPop(closer, l, j);
    }
    assert l[|l|..] == [];
  }

  /** `match_bracket` stops at the first token, counting down from the caret,
      at which the depth reaches zero; when it returns nothing, the depth never
      reached zero and the whole list was popped. */
  lemma {:induction false} BracketMatchFirstZero(closer: string, l: seq<Token>, up: int)
    requires up != 0
    ensures var r := BracketMatch(closer, l, up);
      && (r.0.Some? ==>
            Depth(closer, up, l, |r.1|) == 0 &&
            forall j :: |r.1| < j <= |l| ==> Depth(closer, up, l, j) != 0)
      && (r.0.None? ==> forall j :: 0 <= j <= |l| ==> Depth(closer, up, l, j) != 0)
    decreases |l|
  {
    if l != [] {
      var up' := up + Step(closer, Last(l));
      DepthPop(closer, up, l);
      if up' != 0 {
        BracketMatchFirstZero(closer, Pop(l), up');
      } else {
        assert Depth(closer, up, l, |l| - 1) == 0;
      }
    }
  }

  // ---------------------------------------------------------------------------
  // selector_loop
  // ---------------------------------------------------------------------------

  /** The walk of `selector_loop(l)`: the nearest `:selector` token, skipping
      whole bracket groups, and the list left below it.  It gives up (nothing)
      on an `:open` token, on a `:close` without a partner or when `l` runs out. */
  function SelectorScan(l: seq<Token>): (r: (Option<Token>, seq<Token>))
    ensures IsPrefix(r.1, l)
    ensures l != [] ==> |r.1| < |l|
    ensures r.0.Some? ==> |r.1| < |l| && r.0.value.tt == Selector && l[|r.1|] == r.0.value
    decreases |l|
  {
    if l == [] then (None, [])
    else
      var obj := Last(l);
      match obj.tt
      case Selector => (Some(obj), Pop(l))
      case Open => (None, Pop(l))
      case Close =>
        var m := BracketMatch(obj.text, Pop(l), 1);
        PrefixTransitive(m.1, Pop(l), l);
        if m.0.None? then (None, m.1)
        else
          var r := SelectorScan(m.1);
          PrefixTransitive(r.1, m.1, l);
          r
      case _ =>
        var r := SelectorScan(Pop(l));
        PrefixTransitive(r.1, Pop(l), l);
        r
  }

  predicate NoCloseTokens(l: seq<Token>) {
    forall i :: 0 <= i < |l| ==> l[i].tt != Close
  }

  predicate IsSelectorOrOpen(t: Token) {
    t.tt == Selector || t.tt == Open
  }

  /** The index of the token nearest the caret that is a selector or an open
      token, or -1 when there is none. */
  function TopmostStop(l: seq<Token>): (k: int)
    ensures -1 <= k < |l|
    ensures k >= 0 ==> IsSelectorOrOpen(l[k])
    ensures forall i :: k < i < |l| ==> !IsSelectorOrOpen(l[i])
  {
    if l == [] then -1
    else if IsSelectorOrOpen(Last(l)) then |l| - 1
    else TopmostStop(Pop(l))
  }

  /** Without bracket groups to skip, `selector_loop` stops at the nearest
      selector or open token: it returns the selector, or nothing for the open
      token, and leaves what is below it; with neither, it empties the list. */
  lemma {:induction false} SelectorScanWithoutGroups(l: seq<Token>)
    requires NoCloseTokens(l)
    ensures var k := TopmostStop(l);
      SelectorScan(l) ==
        if k < 0 then (None, [])
        else (if l[k].tt == Selector then Some(l[k]) else None, l[..k])
    decreases |l|
  {
    if l != [] && !IsSelectorOrOpen(Last(l)) {
      assert NoCloseTokens(Pop(l)) by {
        forall i | 0 <= i < |Pop(l)| ensures Pop(l)[i].tt != Close {
          assert Pop(l)[i] == l[i];
        }
      }
      SelectorScanWithoutGroups(Pop(l));
      var k := TopmostStop(Pop(l));
      if k >= 0 {
        assert Pop(l)[k] == l[k];
        assert Pop(l)[..k] == l[..k];
      }
    }
  }

  /** A complete bracket group directly above `l` is skipped as a whole:
      `selector_loop` then continues exactly as it would on `l`. */
  lemma SelectorScanSkipsGroup(l: seq<Token>, group: seq<Token>, close: Token)
    requires close.tt == Close
    requires BracketMatch(close.text, l + group, 1).0.Some?
    requires BracketMatch(close.text, l + group, 1).1 == l
    ensures SelectorScan(l + group + [close]) == SelectorScan(l)
  {
    var whole := l + group + [close];
    assert Last(whole) == close;
    assert Pop(whole) == l + group;
  }

  // ---------------------------------------------------------------------------
  // methodList
  // ---------------------------------------------------------------------------

  /** The inner loop of `methodList`: repeated `selector_loop`s on the copy
      `internal`; true as soon as one of them finds no selector, false when the
      selectors run out exactly at the bottom of the list. */
  function ChainBreaks(internal: seq<Token>): bool
    decreases |internal|
  {
    if internal == [] then false
    else
      var r := SelectorScan(internal);
      if r.0.None? then true else ChainBreaks(r.1)
  }

  /** `methodList`: whether a message send is under way, and `@list` after it.
      On failure the list is restored; on success it is what the first
      `selector_loop` left. */
  function MethodListOutcome(l: seq<Token>): (r: (bool, seq<Token>))
    ensures !r.0 ==> r.1 == l
    ensures IsPrefix(r.1, l)
    ensures r.0 ==> SelectorScan(l).0.Some? && r.1 == SelectorScan(l).1
  {
    var a := SelectorScan(l);
    if a.0.Some? && a.0.value.tt == Selector && ChainBreaks(a.1) then (true, a.1)
    else (false, l)
  }

  function HasOpen(l: seq<Token>): bool {
    exists i :: 0 <= i < |l| && l[i].tt == Open
  }

  /** On a list without bracket groups, the selector chain of `methodList`
      breaks exactly when the list holds an open token or does not start with
      a selector (the message then has a receiver). */
  lemma {:induction false} ChainBreaksWithoutGroups(l: seq<Token>)
    requires NoCloseTokens(l)
    ensures ChainBreaks(l) <==> HasOpen(l) || (l != [] && l[0].tt != Selector)
    decreases |l|
  {
    if l != [] {
      SelectorScanWithoutGroups(l);
      var k := TopmostStop(l);
      if k >= 0 && l[k].tt == Selector {
        var below := l[..k];
        assert forall i :: 0 <= i < k ==> below[i] == l[i];
        ChainBreaksWithoutGroups(below);
        assert HasOpen(l) <==> HasOpen(below) by {
          if HasOpen(l) {
            var i :| 0 <= i < |l| && l[i].tt == Open;
            assert below[i].tt == Open;
          }
        }
      } else if k >= 0 {
        assert l[k].tt == Open;
      }
    }
  }

  // ---------------------------------------------------------------------------
  // find_object_start and eat_star
  // ---------------------------------------------------------------------------

  /** `eat_star(prev, curr)` on list `l`: a `*` starts the receiver, `(curr,
      true)`, exactly when nothing is left or what is left ends in an opening
      kind or another star; otherwise the previous start stands, `(prev, false)`. */
  function EatStar(l: seq<Token>, prev: Option<nat>, curr: nat): (r: (Option<nat>, bool))
    ensures r == (Some(curr), true) <==> (l == [] || Last(l).tt in StarStops)
    ensures r.1 <==> (l == [] || Last(l).tt in StarStops)
    ensures !r.1 ==> r.0 == prev
  {
    if l == [] || Last(l).tt in StarStops then (Some(curr), true) else (prev, false)
  }

  /** The walk of `find_object_start` with `b` the start found so far: the
      offset at which the receiver expression begins and the list left. */
  function ObjectStart(l: seq<Token>, b: Option<nat>): (r: (Option<nat>, seq<Token>))
    ensures IsPrefix(r.1, l)
    decreases |l|
  {
    if l == [] || Last(l).tt in ObjectStops then (b, l)
    else
      var obj := Last(l);
      var r :=
        if obj.tt == Close then
          var m := BracketMatch(obj.text, Pop(l), 1);
          PrefixTransitive(m.1, Pop(l), l);
          ObjectStart(m.1, if m.0.Some? then m.0 else b)
        else if obj.tt == Star then
          var e := EatStar(Pop(l), b, obj.beg);
          if e.1 then ObjectStart(Pop(l), e.0) else (e.0, Pop(l))
        else if obj.tt == Nil then ObjectStart(Pop(l), None)
        else ObjectStart(Pop(l), Some(obj.beg));
      PrefixTransitive(r.1, Pop(l), l);
      r
  }

  /** The list an `ObjectStart` step continues from, and the start it carries. */
  function ObjectStep(l: seq<Token>, b: Option<nat>): (r: (Option<nat>, seq<Token>))
    requires l != [] && Last(l).tt !in ObjectStops && Last(l).tt != Star
    ensures IsPrefix(r.1, Pop(l)) && IsPrefix(r.1, l)
    ensures r.0 == b || r.0.None? || r.0 == Some(Last(l).beg) ||
            (|r.1| < |l| && r.0 == Some(l[|r.1|].beg))
  {
    PrefixTransitive(BracketMatch(Last(l).text, Pop(l), 1).1, Pop(l), l);
    var obj := Last(l);
    if obj.tt == Close then
      var m := BracketMatch(obj.text, Pop(l), 1);
      (if m.0.Some? then m.0 else b, m.1)
    else if obj.tt == Nil then (None, Pop(l))
    else (Some(obj.beg), Pop(l))
  }

  lemma ObjectStartUnfold(l: seq<Token>, b: Option<nat>)
    requires l != [] && Last(l).tt !in ObjectStops && Last(l).tt != Star
    ensures ObjectStart(l, b) == ObjectStart(ObjectStep(l, b).1, ObjectStep(l, b).0)
  {
  }

  /** `find_object_start` walks back only until the list is empty or ends in
      an operator, selector, open, return or control token; the one other way
      out is a `*` that does not start the receiver, which is then the token
      just above what is left. */
  lemma {:induction false} ObjectStartStopsAtBoundary(l: seq<Token>, b: Option<nat>)
    ensures var r := ObjectStart(l, b);
      r.1 == [] || Last(r.1).tt in ObjectStops ||
      (|r.1| < |l| && l[|r.1|].tt == Star && Last(r.1).tt !in StarStops)
    decreases |l|
  {
    if l != [] && Last(l).tt !in ObjectStops {
      if Last(l).tt == Star {
        var e := EatStar(Pop(l), b, Last(l).beg);
        if e.1 {
          ObjectStartStopsAtBoundary(Pop(l), e.0);
          var r := ObjectStart(Pop(l), e.0);
          if |r.1| < |Pop(l)| {
            assert Pop(l)[|r.1|] == l[|r.1|];
          }
        }
      } else {
        var st := ObjectStep(l, b);
        ObjectStartUnfold(l, b);
        ObjectStartStopsAtBoundary(st.1, st.0);
        var r := ObjectStart(st.1, st.0);
        if |r.1| < |st.1| {
          assert st.1[|r.1|] == l[|r.1|];
        }
      }
    }
  }

  /** The start `find_object_start` reports is the one it was given, none, or
      the `beg` of a token it popped. */
  lemma {:induction false} ObjectStartOrigin(l: seq<Token>, b: Option<nat>)
    ensures var r := ObjectStart(l, b);
      r.0 == b || r.0.None? || exists j :: |r.1| <= j < |l| && r.0 == Some(l[j].beg)
    decreases |l|
  {
    if l != [] && Last(l).tt !in ObjectStops {
      var r := ObjectStart(l, b);
      if Last(l).tt == Star {
        var e := EatStar(Pop(l), b, Last(l).beg);
        if e.1 {
          ObjectStartOrigin(Pop(l), e.0);
          if r.0 == e.0 {
            assert r.0 == Some(l[|l| - 1].beg);
          } else if r.0 != b && r.0.Some? {
            var j :| |r.1| <= j < |Pop(l)| && r.0 == Some(Pop(l)[j].beg);
            assert Pop(l)[j] == l[j];
          }
        }
      } else {
        var st := ObjectStep(l, b);
        ObjectStartUnfold(l, b);
        ObjectStartOrigin(st.1, st.0);
        assert IsPrefix(r.1, st.1);
        if r.0 == st.0 {
          if r.0 == Some(Last(l).beg) {
            assert r.0 == Some(l[|l| - 1].beg);
          }
        } else if r.0 != b && r.0.Some? {
          var j :| |r.1| <= j < |st.1| && r.0 == Some(st.1[j].beg);
          assert st.1[j] == l[j];
        }
      }
    }
  }

  /** A `nil` token reached last leaves no start, whatever was found before. */
  lemma ObjectStartAfterNil(l: seq<Token>, b: Option<nat>)
    requires l != [] && Last(l).tt == Nil
    requires Pop(l) == [] || Last(Pop(l)).tt in ObjectStops
    ensures ObjectStart(l, b) == (None, Pop(l))
  {
  }

  /** A closing token reached last makes the start the offset of the token
      that opens its group. */
  lemma ObjectStartAfterGroup(l: seq<Token>, b: Option<nat>)
    requires l != [] && Last(l).tt == Close
    requires BracketMatch(Last(l).text, Pop(l), 1).0.Some?
    requires var rest := BracketMatch(Last(l).text, Pop(l), 1).1;
      rest == [] || Last(rest).tt in ObjectStops
    ensures var rest := BracketMatch(Last(l).text, Pop(l), 1).1;
      ObjectStart(l, b) == (Some(l[|rest|].beg), rest)
  {
  }

  // ---------------------------------------------------------------------------
  // get_position
  // ---------------------------------------------------------------------------

  /** `get_position`: where to put the opening bracket, whether a message send
      is already present, and `@list` afterwards. */
  function Position(l: seq<Token>): (r: (Option<nat>, Option<bool>, seq<Token>))
    ensures r.1.None? <==> l == []
    ensures IsPrefix(r.2, l)
  {
    if l == [] then (None, None, [])
    else
      var a := Last(l);
      if a.tt == Identifier && Pop(l) != [] && Last(Pop(l)).tt in Endings then
        var s := ObjectStart(Pop(l), None);
        PrefixTransitive(s.1, Pop(l), l);
        (s.0, Some(true), s.1)
      else
        var m := MethodListOutcome(l);
        var s := ObjectStart(m.1, None);
        PrefixTransitive(s.1, m.1, l);
        (s.0, Some(m.0), s.1)
  }

  /** An identifier right after a closing token, `++`/`--`, a string, a
      selector literal or another identifier means a message is being sent. */
  lemma PositionAfterEnding(l: seq<Token>)
    requires |l| >= 2 && Last(l).tt == Identifier && Last(Pop(l)).tt in Endings
    ensures Position(l).1 == Some(true)
  {
  }

  /** When no message is under way the list is searched from where it was:
      the position is that of `find_object_start` on the whole list. */
  lemma PositionWithoutMessage(l: seq<Token>)
    requires Position(l).1 == Some(false)
    ensures (Position(l).0, Position(l).2) == ObjectStart(l, None)
  {
  }

  /** The insertion point, when there is one, is the offset of a token that
      `get_position` popped. */
  lemma PositionIsTokenOffset(l: seq<Token>)
    ensures var r := Position(l);
      r.0.None? || exists j :: |r.2| <= j < |l| && r.0 == Some(l[j].beg)
  {
    if l != [] {
      var r := Position(l);
      var a := Last(l);
      if a.tt == Identifier && Pop(l) != [] && Last(Pop(l)).tt in Endings {
        ObjectStartOrigin(Pop(l), None);
        if r.0.Some? {
          var j :| |r.2| <= j < |Pop(l)| && r.0 == Some(Pop(l)[j].beg);
          assert Pop(l)[j] == l[j];
        }
      } else {
        var m := MethodListOutcome(l);
        ObjectStartOrigin(m.1, None);
        if r.0.Some? {
          var j :| |r.2| <= j < |m.1| && r.0 == Some(m.1[j].beg);
          assert m.1[j] == l[j];
        }
      }
    }
  }

  // ---------------------------------------------------------------------------
  // The parser object
  // ---------------------------------------------------------------------------

  /** `ObjcParser`: the token list it pops, `@list`. */
  class Parser {
    var list: seq<Token>

    constructor (args: seq<Token>)
      ensures list == args
    {
      list := args;
    }

    /** `match_bracket(closer, l)`: pops `l` until the depth, which starts at 1,
        rises on `closer` and falls on its partner, reaches zero. */
    static method MatchBracket(closer: string, l: seq<Token>) returns (beg: Option<nat>, rest: seq<Token>)
      ensures (beg, rest) == BracketMatch(closer, l, 1)
    {
      var up := 1;
      rest := l;
      while rest != []
        invariant BracketMatch(closer, rest, up) == BracketMatch(closer, l, 1)
        decreases |rest|
      {
        var obj := Last(rest);
        rest := Pop(rest);
        if obj.text == closer {
          up := up + 1;
        } else if Some(obj.text) == Partner(closer) {
          up := up - 1;
        }
        if up == 0 {
          return Some(obj.beg), rest;
        }
      }
      beg := None;
    }

    /** `selector_loop(l)`: pops `l` until a selector, skipping groups. */
    static method SelectorLoop(l: seq<Token>) returns (sel: Option<Token>, rest: seq<Token>)
      ensures (sel, rest) == SelectorScan(l)
    {
      rest := l;
      while rest != []
        invariant SelectorScan(rest) == SelectorScan(l)
        decreases |rest|
      {
        var obj := Last(rest);
        rest := Pop(rest);
        match obj.tt
        case Selector =>
          return Some(obj), rest;
        case Close =>
          var m;
          m, rest := MatchBracket(obj.text, rest);
          if m.None? {
            return None, rest;
          }
        case Open =>
          return None, rest;
        case _ =>
      }
      sel := None;
    }

    /** `methodList`: a speculative search for the selectors of a message
        being sent; the list is restored when it fails. */
    method MethodList() returns (found: bool)
      modifies this
      ensures (found, list) == MethodListOutcome(old(list))
      ensures !found ==> list == old(list)
      ensures IsPrefix(list, old(list))
    {
      var saved := list;
      var a, rest := SelectorLoop(list);
      list := rest;
      if a.Some? && a.value.tt == Selector {
        var internal := list;
        // The selector assembled so far; the source builds it and never uses it.
        var selector := a.value.text;
        while internal != []
          invariant list == rest
          invariant ChainBreaks(internal) == ChainBreaks(rest)
          decreases |internal|
        {
          var tmp;
          tmp, internal := SelectorLoop(internal);
          if tmp.None? {
            return true;
          }
          selector := tmp.value.text + selector;
        }
      }
      list := saved;
      found := false;
    }

    /** `find_object_start`: walks back to the start of the receiver. */
    method FindObjectStart() returns (b: Option<nat>)
      modifies this
      ensures (b, list) == ObjectStart(old(list), None)
    {
      b := None;
      while !(list == [] || Last(list).tt in ObjectStops)
        invariant ObjectStart(list, b) == ObjectStart(old(list), None)
        decreases |list|
      {
        var obj := Last(list);
        list := Pop(list);
        if obj.tt == Close {
          var tmp, rest := MatchBracket(obj.text, list);
          list := rest;
          if tmp.Some? {
            b := tmp;
          }
        } else if obj.tt == Star {
          var e := EatStar(list, b, obj.beg);
          b := e.0;
          if !e.1 {
            return;
          }
        } else if obj.tt == Nil {
          b := None;
        } else {
          b := Some(obj.beg);
        }
      }
    }

    /** `get_position`: the insertion point and whether a message is present;
        `(nil, nil)` on an empty list. */
    method GetPosition() returns (insertPoint: Option<nat>, hasMessage: Option<bool>)
      modifies this
      ensures (insertPoint, hasMessage, list) == Position(old(list))
    {
      if list == [] {
        return None, None;
      }
      hasMessage := Some(true);
      var a := Last(list);
      ghost var l0 := list;
      list := Pop(list);
      if a.tt == Identifier && list != [] && Last(list).tt in Endings {
        insertPoint := FindObjectStart();
      } else {
        list := list + [a];
        assert list == l0;
        var found := MethodList();
        if !found {
          hasMessage := Some(false);
        }
        insertPoint := FindObjectStart();
      }
    }
  }
}
