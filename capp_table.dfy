/** The `.completions` files the completions generator of
    Plugin-generate_capp_completions.py writes: a Python list of
    `(trigger, contents)` pairs, one per line (INSTANCE_COMPLETIONS_TEMPLATE
    and SNIPPET_TEMPLATE), and for a class the same list after a
    `superclass = "..."` line (CLASS_COMPLETIONS_TEMPLATE).  The partner of
    the writers is a reader for that text. */
module CappTable {
  import opened Wrappers
  import opened Text
  import opened CappSnippet

  /** One completion: what the user types and what it expands to. */
  datatype Completion = Completion(trigger: string, contents: string)

  const Open: string := "    (\""
  const Mid: string := "\", \""
  const Close: string := "\")"
  const Separator: string := ",\n"
  const Head: string := "completions = [\n"
  const Foot: string := "\n]\n"
  const SuperHead: string := "superclass = \""
  const SuperFoot: string := "\"\n"

  /** SNIPPET_TEMPLATE: `    ("trigger", "contents")`.  Python's `format`
      inserts both strings as they are, without escaping. */
  function EntryText(c: Completion): string {
    Open + (c.trigger + (Mid + (c.contents + Close)))
  }

  function EntryTexts(cs: seq<Completion>): (ts: seq<string>)
    ensures |ts| == |cs|
  {
    if cs == [] then [] else [EntryText(cs[0])] + EntryTexts(cs[1..])
  }

  lemma {:induction false} EntryTextsSnoc(cs: seq<Completion>, c: Completion)
    ensures EntryTexts(cs + [c]) == EntryTexts(cs) + [EntryText(c)]
  {
    if cs != [] {
      assert (cs + [c])[1..] == cs[1..] + [c];
      EntryTextsSnoc(cs[1..], c);
    } else {
      assert cs + [c] == [c];
    }
  }

  /** INSTANCE_COMPLETIONS_TEMPLATE filled with the entries joined by `,\n`:
      the text of instance_methods, classes, functions and constants. */
  function Table(cs: seq<Completion>): string {
    Head + (Join(Separator, EntryTexts(cs)) + Foot)
  }

  /** CLASS_COMPLETIONS_TEMPLATE: the superclass line, then the list. */
  function ClassTable(superclass: string, cs: seq<Completion>): string {
    SuperHead + (superclass + (SuperFoot + Table(cs)))
  }

  // ---------------------------------------------------------------------------
  // The reader
  // ---------------------------------------------------------------------------

  /** `s` without its prefix `p`, if it starts with `p`. */
  function Skip(s: string, p: string): (r: Option<string>)
    ensures r.Some? ==> |r.value| == |s| - |p|
  {
    if |p| <= |s| && s[..|p|] == p then Some(s[|p|..]) else None
  }

  /** `s` without its suffix `p`, if it ends with `p`. */
  function SkipEnd(s: string, p: string): (r: Option<string>)
    ensures r.Some? ==> |r.value| == |s| - |p|
  {
    if |p| <= |s| && s[|s| - |p|..] == p then Some(s[..|s| - |p|]) else None
  }

  /** `s` cut before its first `c` (or not at all). */
  function UpTo(s: string, c: char): (r: (string, string))
    ensures r.0 + r.1 == s
  {
    var k := Find(s, 0, c);
    (s[..k], s[k..])
  }

  /** Reads one entry off the front of `s`: the trigger and the contents end
      at the next double quote. */
  function ReadEntry(s: string): (r: Option<(Completion, string)>)
    ensures r.Some? ==> |r.value.1| < |s|
  {
    match Skip(s, Open)
    case None => None
    case Some(s1) =>
      var (trigger, s2) := UpTo(s1, '"');
      match Skip(s2, Mid)
      case None => None
      case Some(s3) =>
        var (contents, s4) := UpTo(s3, '"');
        match Skip(s4, Close)
        case None => None
        case Some(s5) => Some((Completion(trigger, contents), s5))
  }

  /** Reads entries separated by `,\n` up to the end of `s`. */
  function ReadEntries(s: string): Option<seq<Completion>>
    decreases |s|
  {
    match ReadEntry(s)
    case None => None
    case Some((c, r)) =>
      if r == [] then Some([c])
      else match Skip(r, Separator)
        case None => None
        case Some(r2) =>
          match ReadEntries(r2)
          case None => None
          case Some(cs) => Some([c] + cs)
  }

  /** Reads the text of a completions list. */
  function ReadTable(s: string): Option<seq<Completion>> {
    match Skip(s, Head)
    case None => None
    case Some(s1) =>
      match SkipEnd(s1, Foot)
      case None => None
      case Some(m) => if m == [] then Some([]) else ReadEntries(m)
  }

  /** Reads the text of a class's completions: its superclass and its list. */
  function ReadClassTable(s: string): Option<(string, seq<Completion>)> {
    match Skip(s, SuperHead)
    case None => None
    case Some(s1) =>
      var (superclass, s2) := UpTo(s1, '"');
      match Skip(s2, SuperFoot)
      case None => None
      case Some(s3) =>
        match ReadTable(s3)
        case None => None
        case Some(cs) => Some((superclass, cs))
  }

  /** An entry the reader can delimit: no double quote in either string. */
  predicate Quotable(c: Completion) {
    Lacks(c.trigger, '"') && Lacks(c.contents, '"')
  }

  predicate AllQuotable(cs: seq<Completion>) {
    forall k :: 0 <= k < |cs| ==> Quotable(cs[k])
  }

  // ---------------------------------------------------------------------------
  // Reading back what was written
  // ---------------------------------------------------------------------------

  lemma SkipAppend(p: string, r: string)
    ensures Skip(p + r, p) == Some(r)
  {
    assert (p + r)[..|p|] == p && (p + r)[|p|..] == r;
  }

  lemma SkipEndAppend(x: string, p: string)
    ensures SkipEnd(x + p, p) == Some(x)
  {
    assert (x + p)[|x|..] == p && (x + p)[..|x|] == x;
  }

  lemma UpToAppend(x: string, r: string, c: char)
    requires Lacks(x, c) && r != [] && r[0] == c
    ensures UpTo(x + r, c) == (x, r)
  {
    FindIs(x + r, 0, |x|, c);
    assert (x + r)[..|x|] == x && (x + r)[|x|..] == r;
  }

  lemma QuoteStarts()
    ensures Mid != [] && Mid[0] == '"' && Close != [] && Close[0] == '"' && SuperFoot != [] && SuperFoot[0] == '"'
  {
  }

  /** The entry text followed by `r`, grouped the way the reader takes it. */
  lemma EntryTextAppend(c: Completion, r: string)
    ensures EntryText(c) + r == Open + (c.trigger + (Mid + (c.contents + (Close + r))))
  {
  }

  lemma ReadEntryText(c: Completion, r: string)
    requires Quotable(c)
    ensures ReadEntry(EntryText(c) + r) == Some((c, r))
  {
    QuoteStarts();
    EntryTextAppend(c, r);
    var s1 := c.trigger + (Mid + (c.contents + (Close + r)));
    SkipAppend(Open, s1);
    UpToAppend(c.trigger, Mid + (c.contents + (Close + r)), '"');
    SkipAppend(Mid, c.contents + (Close + r));
    UpToAppend(c.contents, Close + r, '"');
    SkipAppend(Close, r);
  }

  lemma ReadLastEntry(cs: seq<Completion>)
    requires |cs| == 1 && Quotable(cs[0])
    ensures ReadEntries(Join(Separator, EntryTexts(cs))) == Some(cs)
  {
    var t := EntryText(cs[0]);
    assert Join(Separator, EntryTexts(cs)) == t + [];
    ReadEntryText(cs[0], []);
    assert [cs[0]] == cs;
  }

  lemma JoinedEntriesStep(cs: seq<Completion>)
    requires |cs| > 1
    ensures Join(Separator, EntryTexts(cs)) == EntryText(cs[0]) + (Separator + Join(Separator, EntryTexts(cs[1..])))
  {
    assert EntryTexts(cs)[1..] == EntryTexts(cs[1..]);
  }

  lemma ReadNextEntry(cs: seq<Completion>)
    requires |cs| > 1 && Quotable(cs[0])
    requires ReadEntries(Join(Separator, EntryTexts(cs[1..]))) == Some(cs[1..])
    ensures ReadEntries(Join(Separator, EntryTexts(cs))) == Some(cs)
  {
    JoinedEntriesStep(cs);
    ReadFrontEntry(cs[0], Join(Separator, EntryTexts(cs[1..])), cs[1..]);
    assert [cs[0]] + cs[1..] == cs;
  }

  /** An entry and a separator in front of entries the reader takes. */
  lemma ReadFrontEntry(c: Completion, rest: string, tail: seq<Completion>)
    requires Quotable(c) && ReadEntries(rest) == Some(tail)
    ensures ReadEntries(EntryText(c) + (Separator + rest)) == Some([c] + tail)
  {
    ReadEntryText(c, Separator + rest);
    SkipAppend(Separator, rest);
  }

  lemma {:induction false} ReadJoinedEntries(cs: seq<Completion>)
    requires cs != [] && AllQuotable(cs)
    ensures ReadEntries(Join(Separator, EntryTexts(cs))) == Some(cs)
  {
    if |cs| == 1 {
      ReadLastEntry(cs);
    } else {
      ReadJoinedEntries(cs[1..]);
      ReadNextEntry(cs);
    }
  }

  lemma JoinNotEmpty(cs: seq<Completion>)
    requires cs != []
    ensures Join(Separator, EntryTexts(cs)) != []
  {
    assert |EntryText(cs[0])| > 0;
    assert EntryTexts(cs)[0] == EntryText(cs[0]);
  }

  /** Reading a written list gives back its entries, in order. */
  lemma ReadTableOfTable(cs: seq<Completion>)
    requires AllQuotable(cs)
    ensures ReadTable(Table(cs)) == Some(cs)
  {
    var m := Join(Separator, EntryTexts(cs));
    SkipAppend(Head, m + Foot);
    SkipEndAppend(m, Foot);
    if cs != [] {
      JoinNotEmpty(cs);
      ReadJoinedEntries(cs);
    }
  }

  /** Reading a written class file gives back its superclass and entries. */
  lemma ReadClassTableOfClassTable(superclass: string, cs: seq<Completion>)
    requires Lacks(superclass, '"') && AllQuotable(cs)
    ensures ReadClassTable(ClassTable(superclass, cs)) == Some((superclass, cs))
  {
    QuoteStarts();
    SkipAppend(SuperHead, superclass + (SuperFoot + Table(cs)));
    UpToAppend(superclass, SuperFoot + Table(cs), '"');
    SkipAppend(SuperFoot, Table(cs));
    ReadTableOfTable(cs);
  }

  /** With no entries the list is empty: `completions = [`, a blank line, `]`. */
  lemma EmptyTable()
    ensures Table([]) == "completions = [\n\n]\n"
  {
  }
}
