/** The main block of Support/lib/objj_parser.rb: given the current line and
    the caret, it counts brackets, asks the parser where the receiver starts
    and prints a snippet that replaces the line.  The snippet is text in the
    editor's snippet language: `\` escapes the next character and `$0` marks
    where the caret goes.  Reading the environment, printing and exiting are
    not modelled; the snippet is the result. */
module ObjjBalance {
  import opened Wrappers
  import opened Text
  import opened ObjjParser

  // ---------------------------------------------------------------------------
  // escape_snippet
  // ---------------------------------------------------------------------------

  /** The characters the snippet language treats specially. */
  predicate IsSpecial(c: char) {
    c == '$' || c == '`' || c == '\\'
  }

  function CountSpecial(s: string): nat {
    if s == [] then 0 else (if IsSpecial(s[0]) then 1 else 0) + CountSpecial(s[1..])
  }

  /** `escape_snippet` on a string: one backslash before every `$`, backquote
      and backslash. */
  function Escape(s: string): (r: string)
    ensures |r| == |s| + CountSpecial(s)
  {
    if s == [] then [] else (if IsSpecial(s[0]) then ['\\', s[0]] else [s[0]]) + Escape(s[1..])
  }

  /** `escape_snippet(str)` takes `str.to_s`, so `nil` gives the empty string. */
  function EscapeSnippet(s: Option<string>): (r: string)
    ensures r == Escape(s.GetOr(""))
    ensures s.None? ==> r == ""
  {
    match s
    case None => ""
    case Some(str) => Escape(str)
  }

  /** Snippet text in which every special character is escaped and a
      backslash escapes nothing else. */
  predicate WellEscaped(r: string)
    decreases |r|
  {
    r == [] ||
    (r[0] == '\\' && |r| >= 2 && IsSpecial(r[1]) && WellEscaped(r[2..])) ||
    (!IsSpecial(r[0]) && WellEscaped(r[1..]))
  }

  /** The text a snippet inserts, for the part of TextMate's snippet language
      the balancer prints: a backslash before `$`, a backquote or a backslash
      stands for that character; a tab stop, `$` with the longest run of
      digits after it or `${digits}`, stands for nothing; every other
      character stands for itself. */
  function Plain(s: string): string
    decreases |s|
  {
    if s == [] then []
    else if s[0] == '\\' && |s| >= 2 && IsSpecial(s[1]) then [s[1]] + Plain(s[2..])
    else if s[0] == '$' && |s| >= 2 && IsDigit(s[1]) then Plain(s[DigitsEnd(s, 2)..])
    else if s[0] == '$' && |s| >= 4 && s[1] == '{' && IsDigit(s[2]) &&
            DigitsEnd(s, 3) < |s| && s[DigitsEnd(s, 3)] == '}' then Plain(s[DigitsEnd(s, 3) + 1..])
    else [s[0]] + Plain(s[1..])
  }

  lemma PlainEscapedPair(c: char, t: string)
    requires IsSpecial(c)
    ensures Plain(['\\', c] + t) == [c] + Plain(t)
  {
    assert (['\\', c] + t)[2..] == t;
  }

  lemma PlainOrdinary(c: char, t: string)
    requires !IsSpecial(c)
    ensures Plain([c] + t) == [c] + Plain(t)
  {
    assert ([c] + t)[1..] == t;
  }

  /** Expanding an escaped string gives back the string, whatever follows. */
  lemma {:induction false} PlainAfterEscape(s: string, t: string)
    ensures Plain(Escape(s) + t) == s + Plain(t)
  {
    if s == [] {
      assert Escape(s) + t == t;
    } else {
      PlainAfterEscape(s[1..], t);
      PlainAfterFirst(s, t);
    }
  }

  /** The first character of an escaped string expands back to itself. */
  lemma PlainAfterFirst(s: string, t: string)
    requires s != [] && Plain(Escape(s[1..]) + t) == s[1..] + Plain(t)
    ensures Plain(Escape(s) + t) == s + Plain(t)
  {
    assert Plain(Escape(s) + t) == [s[0]] + Plain(Escape(s[1..]) + t) by {
      PlainOfEscapeFirst(s, t);
    }
    ConsAppend(s, Plain(t));
  }

  lemma PlainOfEscapeFirst(s: string, t: string)
    requires s != []
    ensures Plain(Escape(s) + t) == [s[0]] + Plain(Escape(s[1..]) + t)
  {
    var c := s[0];
    var rest := Escape(s[1..]) + t;
    if IsSpecial(c) {
      assert Escape(s) + t == ['\\', c] + rest;
      PlainEscapedPair(c, rest);
    } else {
      assert Escape(s) + t == [c] + rest;
      PlainOrdinary(c, rest);
    }
  }

  lemma ConsAppend(s: string, u: string)
    requires s != []
    ensures [s[0]] + (s[1..] + u) == s + u
  {
    assert s == [s[0]] + s[1..];
  }

  /** Text without special characters is its own escape. */
  lemma {:induction false} EscapeOrdinary(s: string)
    requires forall i :: 0 <= i < |s| ==> !IsSpecial(s[i])
    ensures Escape(s) == s
  {
    if s != [] {
      EscapeOrdinary(s[1..]);
    }
  }

  /** Dropping each inserted backslash recovers the input. */
  lemma EscapeRoundTrip(s: string)
    ensures Plain(Escape(s)) == s
  {
    PlainAfterEscape(s, "");
    assert Escape(s) + "" == Escape(s);
  }

  /** The output of `escape_snippet` leaves no special character unescaped. */
  lemma {:induction false} EscapeIsWellEscaped(s: string)
    ensures WellEscaped(Escape(s))
  {
    if s != [] {
      EscapeIsWellEscaped(s[1..]);
      var rest := Escape(s[1..]);
      if IsSpecial(s[0]) {
        assert (['\\', s[0]] + rest)[2..] == rest;
      } else {
        assert ([s[0]] + rest)[1..] == rest;
      }
    }
  }

  /** Conversely, every well-escaped text is the escape of what it expands
      to: `Escape` and `Plain` are inverse on well-escaped text. */
  lemma {:induction false} EscapeOfPlain(r: string)
    requires WellEscaped(r)
    ensures Escape(Plain(r)) == r
    decreases |r|
  {
    if r != [] {
      if r[0] == '\\' {
        var p := Plain(r[2..]);
        EscapeOfPlain(r[2..]);
        assert Plain(r) == [r[1]] + p;
        assert ([r[1]] + p)[1..] == p;
        assert r == ['\\', r[1]] + r[2..];
      } else {
        var p := Plain(r[1..]);
        EscapeOfPlain(r[1..]);
        assert Plain(r) == [r[0]] + p;
        assert ([r[0]] + p)[1..] == p;
        assert r == [r[0]] + r[1..];
      }
    }
  }

  // ---------------------------------------------------------------------------
  // The bracket counter: `line.scan(/"(?:\\.|[^"\\])*"|\[|\]/)`
  // ---------------------------------------------------------------------------

  /** Where the string literal opened by the quote `s[0]` ends, looking from
      `j`: after the closing quote, or nothing if it is not closed.  A backslash
      takes the next character along, except a newline (`.` does not match it). */
  function LiteralEnd(s: string, j: nat): (r: Option<nat>)
    ensures r.Some? ==> j < r.value <= |s|
    decreases |s| - j
  {
    if j >= |s| then None
    else if s[j] == '"' then Some(j + 1)
    else if s[j] == '\\' then
      (if j + 1 < |s| && s[j + 1] != '\n' then LiteralEnd(s, j + 2) else None)
    else LiteralEnd(s, j + 1)
  }

  /** The items `scan` returns, left to right: complete string literals and
      single brackets.  A quote that opens no complete literal is passed over
      on its own, so brackets after it are found. */
  function Scan(s: string): (items: seq<string>)
    decreases |s|
  {
    if s == [] then []
    else if s[0] == '"' && LiteralEnd(s, 1).Some? then
      var n := LiteralEnd(s, 1).value;
      [s[..n]] + Scan(s[n..])
    else if s[0] == '[' || s[0] == ']' then [[s[0]]] + Scan(s[1..])
    else Scan(s[1..])
  }

  function ItemValue(item: string): int {
    if item == "[" then 1 else if item == "]" then -1 else 0
  }

  /** The depth the counting loop reaches over `items`. */
  function ItemsNet(items: seq<string>): int {
    if items == [] then 0 else ItemsNet(items[..|items| - 1]) + ItemValue(items[|items| - 1])
  }

  /** The depth counter `up` of the main block. */
  method BracketDepth(line: string) returns (up: int)
    ensures up == ItemsNet(Scan(line))
  {
    var items := Scan(line);
    up := 0;
    for i := 0 to |items|
      invariant up == ItemsNet(items[..i])
    {
      assert items[..i + 1][..i] == items[..i];
      if items[i] == "[" {
        up := up + 1;
      } else if items[i] == "]" {
        up := up - 1;
      }
    }
    assert items[..|items|] == items;
  }

  lemma {:induction false} ItemsNetAppend(a: seq<string>, b: seq<string>)
    ensures ItemsNet(a + b) == ItemsNet(a) + ItemsNet(b)
    decreases |b|
  {
    if b == [] {
      assert a + b == a;
    } else {
      assert (a + b)[..|a + b| - 1] == a + b[..|b| - 1];
      ItemsNetAppend(a, b[..|b| - 1]);
    }
  }

  /** Outside string literals every bracket counts: over a stretch without a
      quote the counter adds the number of `[` less the number of `]`. */
  lemma {:induction false} ScanWithoutQuotes(a: string, t: string)
    requires forall i :: 0 <= i < |a| ==> a[i] != '"'
    ensures ItemsNet(Scan(a + t)) == Count(a, '[') - Count(a, ']') + ItemsNet(Scan(t))
  {
    if a == [] {
      assert a + t == t;
    } else {
      var s := a + t;
      assert s[0] == a[0] && s[1..] == a[1..] + t;
      ScanWithoutQuotes(a[1..], t);
      if a[0] == '[' || a[0] == ']' {
        ItemsNetAppend([[a[0]]], Scan(a[1..] + t));
        assert ItemsNet([[a[0]]]) == ItemValue([a[0]]) by {
          assert [[a[0]]][..0] == [];
        }
      }
    }
  }

  /** On a line without quotes, `up` is the number of `[` minus that of `]`. */
  lemma DepthWithoutQuotes(line: string)
    requires forall i :: 0 <= i < |line| ==> line[i] != '"'
    ensures ItemsNet(Scan(line)) == Count(line, '[') - Count(line, ']')
  {
    ScanWithoutQuotes(line, "");
    assert line + "" == line;
  }

  /** The inside of a string literal: characters other than a quote or a
      backslash, and backslash pairs whose second character is not a newline. */
  predicate LiteralBody(b: string)
    decreases |b|
  {
    b == [] ||
    (b[0] == '\\' && |b| >= 2 && b[1] != '\n' && LiteralBody(b[2..])) ||
    (b[0] != '"' && b[0] != '\\' && LiteralBody(b[1..]))
  }

  predicate IsLiteral(lit: string) {
    |lit| >= 2 && lit[0] == '"' && lit[|lit| - 1] == '"' && LiteralBody(lit[1..|lit| - 1])
  }

  lemma {:induction false} LiteralEndAfterBody(p: string, b: string, t: string)
    requires LiteralBody(b)
    ensures LiteralEnd(p + b + ['"'] + t, |p|) == Some(|p| + |b| + 1)
    decreases |b|
  {
    var s := p + b + ['"'] + t;
    if b == [] {
      assert s[|p|] == '"';
    } else if b[0] == '\\' && |b| >= 2 && b[1] != '\n' && LiteralBody(b[2..]) {
      assert s[|p|] == '\\' && s[|p| + 1] == b[1];
      var p' := p + b[..2];
      assert p' + b[2..] + ['"'] + t == s;
      LiteralEndAfterBody(p', b[2..], t);
    } else {
      assert s[|p|] == b[0];
      var p' := p + b[..1];
      assert p' + b[1..] + ['"'] + t == s;
      LiteralEndAfterBody(p', b[1..], t);
    }
  }

  /** A complete string literal is one item, so the brackets inside it do not
      change the depth. */
  lemma ScanSkipsLiteral(lit: string, t: string)
    requires IsLiteral(lit)
    ensures Scan(lit + t) == [lit] + Scan(t)
    ensures ItemsNet(Scan(lit + t)) == ItemsNet(Scan(t))
  {
    var body := lit[1..|lit| - 1];
    assert lit == ['"'] + body + ['"'];
    LiteralEndAfterBody(['"'], body, t);
    assert ['"'] + body + ['"'] + t == lit + t;
    var s := lit + t;
    assert s[..|lit|] == lit && s[|lit|..] == t;
    ItemsNetAppend([lit], Scan(t));
    assert ItemsNet([lit]) == 0 by {
      assert [lit][..0] == [];
      assert lit != "[" && lit != "]";
    }
  }

  /** With no quote from `j` on, the literal is not closed, whatever
      backslashes there are. */
  lemma {:induction false} LiteralEndNoQuote(s: string, j: nat)
    requires forall i :: j <= i < |s| ==> s[i] != '"'
    ensures LiteralEnd(s, j).None?
    decreases |s| - j
  {
    if j < |s| && s[j] == '\\' {
      if j + 1 < |s| && s[j + 1] != '\n' {
        LiteralEndNoQuote(s, j + 2);
      }
    } else if j < |s| {
      LiteralEndNoQuote(s, j + 1);
    }
  }

  /** A quote that is never closed hides nothing: the brackets after it count. */
  lemma UnclosedQuoteCounts(a: string)
    requires forall i :: 0 <= i < |a| ==> a[i] != '"'
    ensures ItemsNet(Scan(['"'] + a)) == Count(a, '[') - Count(a, ']')
  {
    var s := ['"'] + a;
    LiteralEndNoQuote(s, 1);
    assert s[1..] == a;
    DepthWithoutQuotes(a);
  }


  // ---------------------------------------------------------------------------
  // Assembling the snippet (lines 252-322)
  // ---------------------------------------------------------------------------

  /** The closing `]` with the caret after it, as the source prints it. */
  const CloseStop: string := "]$0"

  /** The same with the tab stop in braces, which ends it whatever follows. */
  const BracedCloseStop: string := "]${0}"

  /** `escape_snippet(line[0..caret]) + "]$0" + escape_snippet(line[caret + 1..-1])`,
      with `close` for `]$0`: a `]` at the caret, the caret after it. */
  function CloseAtCaret(line: string, caret: int, close: string): string
    requires -1 <= caret < |line|
  {
    Escape(line[..caret + 1]) + close + Escape(line[caret + 1..])
  }

  /** The same with the `]` right after the caret left out: that `]` is
      overwritten rather than doubled. */
  function OverwriteClose(line: string, caret: nat, close: string): string
    requires caret + 1 < |line|
  {
    Escape(line[..caret + 1]) + close + Escape(line[caret + 2..])
  }

  /** `[` inserted at offset `b`, `line[b..caret]` kept, then the closing
      text: `close` when a message is present, otherwise the tab stop before
      the `]`, with a space first unless the caret character is whitespace.
      For `b == 0` nothing is printed before the `[` (Ruby's `line[0..-1]`
      would be the whole line, hence the source's guard). */
  function WrapReceiver(line: string, b: nat, caret: nat, hasMessage: bool, close: string): string
    requires b < caret < |line|
  {
    (if b == 0 then "" else Escape(line[..b])) +
    ("[" + (Escape(line[b..caret + 1]) +
      (Closing(hasMessage, IsSpace(line[caret]), close) + Escape(line[caret + 1..]))))
  }

  /** The closing text of a wrapped receiver. */
  function Closing(hasMessage: bool, space: bool, close: string): string {
    if hasMessage then close else if space then "$0]" else " $0]"
  }

  /** Lines 304-322, after the parser ran: `b` and `hasMessage` from
      `get_position`, `rest` the parser's list afterwards. */
  function Assemble(line: string, caret: nat, b: Option<nat>, hasMessage: Option<bool>, rest: seq<Token>, close: string): string
    requires caret < |line|
  {
    if caret + 1 < |line| && line[caret + 1] == ']' &&
       (b.None? || rest == [] || Last(rest).text == "[") then
      OverwriteClose(line, caret, close)
    else if b.None? then CloseAtCaret(line, caret, close)
    else if hasMessage != Some(true) && b.value < caret then WrapReceiver(line, b.value, caret, false, close)
    else if b.value < caret then WrapReceiver(line, b.value, caret, true, close)
    else CloseAtCaret(line, caret, close)
  }

  /** The main block, printing `close` wherever the source prints `]$0`, for
      `line` with the caret on character `caret` (`TM_LINE_INDEX - 1`, so -1
      at the start of the line) and `tokens` the lexer's tokens for
      `line[0..caret]`. */
  function BalanceWith(line: string, caret: int, tokens: seq<Token>, close: string): string
    requires -1 <= caret < |line|
  {
    if caret == -1 then close + Escape(line)
    else if ItemsNet(Scan(line)) != 0 then CloseAtCaret(line, caret, close)
    else if tokens == [] then CloseAtCaret(line, caret, close)
    else
      var p := Position(tokens);
      Assemble(line, caret, p.0, p.1, p.2, close)
  }

  /** The snippet the main block prints. */
  function Balance(line: string, caret: int, tokens: seq<Token>): string
    requires -1 <= caret < |line|
  {
    BalanceWith(line, caret, tokens, CloseStop)
  }

  /** The snippet with `]${0}` for `]$0`: `Balance` corrected so that a digit
      after the caret is kept. */
  function BracedBalance(line: string, caret: int, tokens: seq<Token>): string
    requires -1 <= caret < |line|
  {
    BalanceWith(line, caret, tokens, BracedCloseStop)
  }

  /** The main block as the program runs it. */
  method BalanceLine(line: string, caret: int, tokens: seq<Token>) returns (snippet: string)
    requires -1 <= caret < |line|
    ensures snippet == Balance(line, caret, tokens)
  {
    var up := BracketDepth(line);
    if caret == -1 {
      return CloseStop + Escape(line);
    }
    if up != 0 {
      return CloseAtCaret(line, caret, CloseStop);
    }
    if tokens == [] {
      return CloseAtCaret(line, caret, CloseStop);
    }
    var par := new Parser(tokens);
    var b, hasMessage := par.GetPosition();
    snippet := Assemble(line, caret, b, hasMessage, par.list, CloseStop);
  }

  // ---------------------------------------------------------------------------
  // What the snippet does to the line
  // ---------------------------------------------------------------------------

  /** A `]` inserted after the caret. */
  function InsertClose(line: string, caret: int): string
    requires -1 <= caret < |line|
  {
    line[..caret + 1] + "]" + line[caret + 1..]
  }

  /** `[` at offset `b`, `]` after the caret, and a space before the `]` when `pad`. */
  function WrapInBrackets(line: string, b: nat, caret: nat, pad: bool): string
    requires b <= caret < |line|
  {
    line[..b] + "[" + line[b..caret + 1] + (if pad then " " else "") + "]" + line[caret + 1..]
  }

  /** The three edits the balancer makes: a `]` after the caret; the line
      kept, its `]` after the caret overwritten; or the receiver the parser
      found at `b` wrapped, with a space before the `]` exactly when there is
      no message and the caret character is not whitespace. */
  predicate OneEdit(line: string, caret: int, tokens: seq<Token>, result: string)
    requires -1 <= caret < |line|
  {
    var p := Position(tokens);
    result == InsertClose(line, caret) ||
    (0 <= caret && caret + 1 < |line| && line[caret + 1] == ']' && result == line) ||
    (0 <= caret && p.0.Some? && p.0.value < caret &&
     result == WrapInBrackets(line, p.0.value, caret, p.1 != Some(true) && !IsSpace(line[caret])))
  }

  /** `close` ends its tab stop before `next`: `]${0}` always, `]$0` unless
      `next` starts with a digit, since the editor reads `$` and every digit
      after it as one tab stop. */
  predicate EndsBefore(close: string, next: string) {
    close == BracedCloseStop || (close == CloseStop && (next == [] || !IsDigit(next[0])))
  }

  /** `close` ends its tab stop wherever the main block prints it: before the
      text after the caret, and before the text after an overwritten `]`. */
  predicate EndsInLine(close: string, line: string, caret: int)
    requires -1 <= caret < |line|
  {
    EndsBefore(close, line[caret + 1..]) && (caret + 2 <= |line| ==> EndsBefore(close, line[caret + 2..]))
  }

  lemma EscapeEndsBefore(close: string, c: string)
    requires EndsBefore(close, c)
    ensures EndsBefore(close, Escape(c))
  {
    if c != [] {
      assert Escape(c)[0] == (if IsSpecial(c[0]) then '\\' else c[0]);
    }
  }

  lemma PlainChar(c: char, t: string)
    requires c != '\\' && c != '$'
    ensures Plain([c] + t) == [c] + Plain(t)
  {
    assert ([c] + t)[1..] == t;
  }

  lemma PlainTabStop(t: string)
    requires t == [] || !IsDigit(t[0])
    ensures Plain("$0" + t) == Plain(t)
  {
    var s := "$0" + t;
    DigitsEndIs(s, 2, 2);
    assert s[2..] == t;
  }

  lemma PlainBracedTabStop(t: string)
    ensures Plain("${0}" + t) == Plain(t)
  {
    var s := "${0}" + t;
    DigitsEndIs(s, 3, 3);
    assert s[4..] == t;
  }

  lemma PlainClose(close: string, t: string)
    requires EndsBefore(close, t)
    ensures Plain(close + t) == "]" + Plain(t)
  {
    if close == CloseStop {
      assert close + t == [']'] + ("$0" + t);
      PlainChar(']', "$0" + t);
      PlainTabStop(t);
    } else {
      assert close + t == [']'] + ("${0}" + t);
      PlainChar(']', "${0}" + t);
      PlainBracedTabStop(t);
    }
  }

  lemma PlainTabStopClose(t: string)
    ensures Plain("$0]" + t) == "]" + Plain(t)
  {
    assert "$0]" + t == "$0" + ("]" + t);
    PlainTabStop("]" + t);
    PlainChar(']', t);
  }

  lemma PlainSpaceTabStopClose(t: string)
    ensures Plain(" $0]" + t) == " ]" + Plain(t)
  {
    assert " $0]" + t == [' '] + ("$0]" + t);
    PlainChar(' ', "$0]" + t);
    PlainTabStopClose(t);
  }

  lemma PlainCloseAtCaret(line: string, caret: int, close: string)
    requires -1 <= caret < |line| && EndsBefore(close, line[caret + 1..])
    ensures Plain(CloseAtCaret(line, caret, close)) == InsertClose(line, caret)
  {
    var a, c := line[..caret + 1], line[caret + 1..];
    assert CloseAtCaret(line, caret, close) == Escape(a) + (close + Escape(c));
    PlainAfterEscape(a, close + Escape(c));
    EscapeEndsBefore(close, c);
    PlainClose(close, Escape(c));
    EscapeRoundTrip(c);
  }

  /** Overwriting the `]` after the caret leaves the line as it was. */
  lemma PlainOverwriteClose(line: string, caret: nat, close: string)
    requires caret + 1 < |line| && line[caret + 1] == ']'
    requires EndsBefore(close, line[caret + 2..])
    ensures Plain(OverwriteClose(line, caret, close)) == line
  {
    var a, c := line[..caret + 1], line[caret + 2..];
    var u := Escape(c);
    assert OverwriteClose(line, caret, close) == Escape(a) + (close + u);
    assert Plain(Escape(a) + (close + u)) == a + Plain(close + u) by {
      PlainAfterEscape(a, close + u);
    }
    assert Plain(close + u) == "]" + c by {
      EscapeEndsBefore(close, c);
      PlainClose(close, u);
      EscapeRoundTrip(c);
    }
    assert a + ("]" + c) == line by {
      SplitAround(line, caret + 1);
    }
  }

  lemma SplitAround(s: string, k: nat)
    requires k < |s|
    ensures s[..k] + ([s[k]] + s[k + 1..]) == s
  {
    assert s[k..] == [s[k]] + s[k + 1..];
    assert s == s[..k] + s[k..];
  }

  lemma PlainClosingTail(hasMessage: bool, space: bool, post: string, close: string)
    requires hasMessage ==> EndsBefore(close, post)
    ensures Plain(Closing(hasMessage, space, close) + Escape(post)) ==
      (if !hasMessage && !space then " ]" else "]") + post
  {
    EscapeRoundTrip(post);
    if hasMessage {
      EscapeEndsBefore(close, post);
      PlainClose(close, Escape(post));
    } else if space {
      PlainTabStopClose(Escape(post));
    } else {
      PlainSpaceTabStopClose(Escape(post));
    }
  }

  lemma WrapInBracketsShape(line: string, b: nat, caret: nat, pad: bool)
    requires b <= caret < |line|
    ensures WrapInBrackets(line, b, caret, pad) ==
      line[..b] + (['['] + (line[b..caret + 1] + ((if pad then " ]" else "]") + line[caret + 1..])))
  {
  }

  lemma WrapReceiverShape(line: string, b: nat, caret: nat, hasMessage: bool, close: string)
    requires b < caret < |line|
    ensures WrapReceiver(line, b, caret, hasMessage, close) ==
      Escape(line[..b]) + (['['] + (Escape(line[b..caret + 1]) +
        (Closing(hasMessage, IsSpace(line[caret]), close) + Escape(line[caret + 1..]))))
  {
    if b == 0 {
      assert line[..b] == [];
    }
  }

  lemma PlainWrapReceiver(line: string, b: nat, caret: nat, hasMessage: bool, close: string)
    requires b < caret < |line|
    requires hasMessage ==> EndsBefore(close, line[caret + 1..])
    ensures Plain(WrapReceiver(line, b, caret, hasMessage, close)) ==
      WrapInBrackets(line, b, caret, !hasMessage && !IsSpace(line[caret]))
  {
    var pre, mid, post := line[..b], line[b..caret + 1], line[caret + 1..];
    var space := IsSpace(line[caret]);
    var closing := Closing(hasMessage, space, close);
    var shut: string := if !hasMessage && !space then " ]" else "]";
    var tail := Escape(mid) + (closing + Escape(post));
    PlainClosingTail(hasMessage, space, post, close);
    PlainAfterEscape(mid, closing + Escape(post));
    assert Plain(tail) == mid + (shut + post);
    PlainChar('[', tail);
    assert Plain(['['] + tail) == ['['] + (mid + (shut + post));
    PlainAfterEscape(pre, ['['] + tail);
    WrapReceiverShape(line, b, caret, hasMessage, close);
    WrapInBracketsShape(line, b, caret, !hasMessage && !space);
  }

  /** Whatever the parser reports, expanding the snippet gives the line with
      one of the three edits, as long as `close` ends its tab stop where it
      is printed. */
  lemma BalanceWithIsOneEdit(line: string, caret: int, tokens: seq<Token>, close: string)
    requires -1 <= caret < |line| && EndsInLine(close, line, caret)
    ensures OneEdit(line, caret, tokens, Plain(BalanceWith(line, caret, tokens, close)))
  {
    var out := BalanceWith(line, caret, tokens, close);
    if caret == -1 {
      assert out == CloseAtCaret(line, caret, close) by {
        assert line[..0] == [] && line[0..] == line;
      }
      PlainCloseAtCaret(line, caret, close);
    } else if ItemsNet(Scan(line)) != 0 || tokens == [] {
      PlainCloseAtCaret(line, caret, close);
    } else {
      var p := Position(tokens);
      var b, hasMessage, rest := p.0, p.1, p.2;
      if caret + 1 < |line| && line[caret + 1] == ']' && (b.None? || rest == [] || Last(rest).text == "[") {
        PlainOverwriteClose(line, caret, close);
      } else if b.None? || b.value >= caret {
        PlainCloseAtCaret(line, caret, close);
      } else {
        var hm := hasMessage == Some(true);
        PlainWrapReceiver(line, b.value, caret, hm, close);
        var pad := !hm && !IsSpace(line[caret]);
        assert Plain(out) == WrapInBrackets(line, b.value, caret, pad);
      }
    }
  }

  /** The snippet as the source prints it makes one of the three edits when
      neither character after the caret is a digit. */
  lemma BalanceIsOneEdit(line: string, caret: int, tokens: seq<Token>)
    requires -1 <= caret < |line| && EndsInLine(CloseStop, line, caret)
    ensures OneEdit(line, caret, tokens, Plain(Balance(line, caret, tokens)))
  {
    BalanceWithIsOneEdit(line, caret, tokens, CloseStop);
  }

  /** `]$0` before a digit: on `[a b1` with the caret on the `b` the brackets
      do not balance, so the snippet is `[a b]$01`; the editor reads `$01` as
      tab stop 1 and the `1` is lost, which is none of the three edits. */
  lemma DigitAfterCaretLost(line: string, tokens: seq<Token>)
    requires line == "[a b1"
    ensures Balance(line, 3, tokens) == "[a b]$01"
    ensures Plain(Balance(line, 3, tokens)) == "[a b]"
    ensures !OneEdit(line, 3, tokens, Plain(Balance(line, 3, tokens)))
  {
    DigitExampleSnippet(line, tokens);
    DigitExamplePlain("[a b]$01");
    assert line[4] != "[a b]"[4];
    ShorterIsNoEdit(line, 3, tokens, "[a b]");
  }

  lemma DigitExampleSnippet(line: string, tokens: seq<Token>)
    requires line == "[a b1"
    ensures Balance(line, 3, tokens) == "[a b]$01"
  {
    DepthWithoutQuotes(line);
    assert line[1..] == "a b1";
    CountAbsent(line[1..], '[');
    CountAbsent(line, ']');
    assert Balance(line, 3, tokens) == CloseAtCaret(line, 3, CloseStop) by {
      BalanceCloses(line, 3, tokens, CloseStop);
    }
    assert line[..4] == "[a b" && line[4..] == "1";
    EscapeOrdinary(line[..4]);
    EscapeOrdinary(line[4..]);
  }

  lemma DigitExamplePlain(out: string)
    requires out == "[a b]$01"
    ensures Plain(out) == "[a b]"
  {
    var tail := "$01";
    assert out == "[a b]" + tail;
    EscapeOrdinary("[a b]");
    PlainAfterEscape("[a b]", tail);
    DigitsEndIs(tail, 2, 3);
    assert tail[3..] == [];
    assert "[a b]" + [] == "[a b]";
  }

  /** A result no longer than the line and other than the line is none of
      the edits: the others lengthen it. */
  lemma ShorterIsNoEdit(line: string, caret: int, tokens: seq<Token>, result: string)
    requires -1 <= caret < |line| && |result| <= |line| && result != line
    ensures !OneEdit(line, caret, tokens, result)
  {
  }

  /** With `]${0}` the snippet makes one of the three edits on every line. */
  lemma BracedBalanceIsOneEdit(line: string, caret: int, tokens: seq<Token>)
    requires -1 <= caret < |line|
    ensures OneEdit(line, caret, tokens, Plain(BracedBalance(line, caret, tokens)))
  {
    BalanceWithIsOneEdit(line, caret, tokens, BracedCloseStop);
  }

  /** With the brackets of the line unbalanced, or the caret at the start of
      the line, the balancer only inserts a `]`, when `close` ends its tab
      stop before the text after the caret. */
  lemma BalanceWhenUnbalanced(line: string, caret: int, tokens: seq<Token>, close: string)
    requires -1 <= caret < |line| && EndsBefore(close, line[caret + 1..])
    requires caret == -1 || ItemsNet(Scan(line)) != 0
    ensures Plain(BalanceWith(line, caret, tokens, close)) == InsertClose(line, caret)
  {
    assert BalanceWith(line, caret, tokens, close) == CloseAtCaret(line, caret, close) by {
      BalanceCloses(line, caret, tokens, close);
    }
    PlainCloseAtCaret(line, caret, close);
  }

  /** Both ways of inserting a `]` give the same snippet. */
  lemma BalanceCloses(line: string, caret: int, tokens: seq<Token>, close: string)
    requires -1 <= caret < |line|
    requires caret == -1 || ItemsNet(Scan(line)) != 0
    ensures BalanceWith(line, caret, tokens, close) == CloseAtCaret(line, caret, close)
  {
    if caret == -1 {
      assert line[..0] == [] && line[0..] == line;
    }
  }
}
