/** Which files the completions generator of Plugin-generate_capp_completions.py
    reads (`parse_source_directory`): it walks a directory tree top-down,
    never descends into a sub-directory called `Resources`, and keeps the
    files whose name SOURCE_RE matches.  The file system is a value here: a
    tree of directories whose files carry their content. */
module CappSources {
  import opened Text
  import opened CappSignature

  // ---------------------------------------------------------------------------
  // SOURCE_RE: ^(CP|CG|CA)\w+\.j$
  // ---------------------------------------------------------------------------

  predicate IsPrefix(p: string) {
    p == "CP" || p == "CG" || p == "CA"
  }

  /** `SOURCE_RE.match(name)`, read the way the pattern is scanned: a prefix,
      the run of word characters after it, `.j`, and the end of the name or
      a final newline before it (Python's `$`). */
  predicate IsSourceName(name: string) {
    |name| >= 2 && IsPrefix(name[..2]) &&
    var e := RunEnd(name, 2);
    e > 2 && e + 2 <= |name| && name[e] == '.' && name[e + 1] == 'j' &&
    (e + 2 == |name| || (e + 3 == |name| && name[e + 2] == '\n'))
  }

  /** The same names described by their parts: a prefix, a non-empty stem of
      word characters, `.j`, and at most one newline at the very end. */
  predicate SourceForm(name: string) {
    var t := if name != [] && name[|name| - 1] == '\n' then 1 else 0;
    |name| >= 5 + t && IsPrefix(name[..2]) && AllWordChars(name[2..|name| - 2 - t]) &&
    name[|name| - 2 - t] == '.' && name[|name| - 1 - t] == 'j'
  }

  lemma SourceNameIsForm(name: string)
    requires IsSourceName(name)
    ensures SourceForm(name)
  {
    var e := RunEnd(name, 2);
    RunEndWord(name, 2);
    var t := if name[|name| - 1] == '\n' then 1 else 0;
    assert e == |name| - 2 - t;
    assert forall k :: 0 <= k < e - 2 ==> name[2..e][k] == name[k + 2];
  }

  lemma SourceFormIsName(name: string)
    requires SourceForm(name)
    ensures IsSourceName(name)
  {
    var t := if name[|name| - 1] == '\n' then 1 else 0;
    var e := |name| - 2 - t;
    var stem := name[2..e];
    assert forall k :: 2 <= k < e ==> name[k] == stem[k - 2];
    assert At(name, 2, stem);
    RunEndOver(name, 2, stem);
  }

  /** SOURCE_RE matches exactly the names made of a prefix, a stem, `.j`
      and an optional final newline. */
  lemma SourceNameIff(name: string)
    ensures IsSourceName(name) <==> SourceForm(name)
  {
    if IsSourceName(name) {
      SourceNameIsForm(name);
    }
    if SourceForm(name) {
      SourceFormIsName(name);
    }
  }

  /** A name put together from the parts is matched. */
  lemma SourceNameOfParts(prefix: string, stem: string, newline: bool)
    requires IsPrefix(prefix) && stem != [] && AllWordChars(stem)
    ensures IsSourceName(prefix + stem + ".j" + (if newline then "\n" else ""))
  {
    var nl: string := if newline then "\n" else "";
    var name := prefix + stem + ".j" + nl;
    assert |name| == 2 + |stem| + 2 + |nl|;
    assert forall k :: 0 <= k < |stem| ==> name[2 + k] == stem[k];
    assert name[..2] == prefix;
    assert name[2..2 + |stem|] == stem;
    SourceFormIsName(name);
  }

  // ---------------------------------------------------------------------------
  // The walk
  // ---------------------------------------------------------------------------

  datatype File<C> = File(name: string, content: C)

  datatype Dir<C> = Dir(name: string, files: seq<File<C>>, subdirs: seq<Dir<C>>)

  /** A file handed to `parse_source`: its path below the top directory,
      one name per directory and then the file's own name. */
  datatype Found<C> = Found(path: seq<string>, content: C)

  /** The files of one directory whose names match, in listing order. */
  function Matching<C>(fs: seq<File<C>>): seq<Found<C>> {
    if fs == [] then []
    else (if IsSourceName(fs[0].name) then [Found([fs[0].name], fs[0].content)] else []) + Matching(fs[1..])
  }

  /** The files found in a sub-directory, as paths from its parent. */
  function Under<C>(name: string, xs: seq<Found<C>>): (r: seq<Found<C>>)
    ensures |r| == |xs|
    ensures forall k :: 0 <= k < |xs| ==> r[k] == Found([name] + xs[k].path, xs[k].content)
  {
    if xs == [] then [] else [Found([name] + xs[0].path, xs[0].content)] + Under(name, xs[1..])
  }

  /** `os.walk` top-down: a directory's own matching files, then its
      sub-directories in listing order, without the one called `Resources`. */
  function Walk<C>(d: Dir<C>): seq<Found<C>>
    decreases d, 1
  {
    Matching(d.files) + WalkAll(d.subdirs, false)
  }

  /** The sub-directories `ds` of one directory; `removed` says whether
      `dirs.remove("Resources")` has already taken its (first) occurrence. */
  function WalkAll<C>(ds: seq<Dir<C>>, removed: bool): seq<Found<C>>
    decreases ds, 0
  {
    if ds == [] then []
    else if !removed && ds[0].name == "Resources" then WalkAll(ds[1..], true)
    else Under(ds[0].name, Walk(ds[0])) + WalkAll(ds[1..], removed)
  }

  /** A file system's directories list each name once. */
  predicate DistinctNames<C>(ds: seq<Dir<C>>) {
    forall i, j :: 0 <= i < j < |ds| ==> ds[i].name != ds[j].name
  }

  predicate WellNamed<C>(d: Dir<C>)
    decreases d
  {
    DistinctNames(d.subdirs) && forall i :: 0 <= i < |d.subdirs| ==> WellNamed(d.subdirs[i])
  }

  /** `path` leads from `d` to a file with content `c` that the generator is
      meant to read: no directory on the way is called `Resources`, and the
      file's name matches SOURCE_RE. */
  predicate SourceAt<C(==)>(d: Dir<C>, path: seq<string>, c: C)
    decreases d
  {
    (|path| == 1 && IsSourceName(path[0]) &&
     exists k :: 0 <= k < |d.files| && d.files[k] == File(path[0], c)) ||
    (|path| > 1 && path[0] != "Resources" &&
     exists i :: 0 <= i < |d.subdirs| && d.subdirs[i].name == path[0] && SourceAt(d.subdirs[i], path[1..], c))
  }

  lemma {:induction false} MatchingHas<C>(fs: seq<File<C>>, k: nat)
    requires k < |fs| && IsSourceName(fs[k].name)
    ensures Found([fs[k].name], fs[k].content) in Matching(fs)
  {
    if k > 0 {
      MatchingHas(fs[1..], k - 1);
    }
  }

  lemma {:induction false} MatchingSound<C>(fs: seq<File<C>>, x: Found<C>)
    requires x in Matching(fs)
    ensures |x.path| == 1 && IsSourceName(x.path[0])
    ensures exists k :: 0 <= k < |fs| && fs[k] == File(x.path[0], x.content)
  {
    var head := if IsSourceName(fs[0].name) then [Found([fs[0].name], fs[0].content)] else [];
    if x in head {
      assert fs[0] == File(x.path[0], x.content);
    } else {
      MatchingSound(fs[1..], x);
      var k :| 0 <= k < |fs[1..]| && fs[1..][k] == File(x.path[0], x.content);
      assert fs[k + 1] == File(x.path[0], x.content);
    }
  }

  lemma UnderHas<C>(name: string, xs: seq<Found<C>>, y: Found<C>)
    requires y in xs
    ensures Found([name] + y.path, y.content) in Under(name, xs)
  {
    var k :| 0 <= k < |xs| && xs[k] == y;
    assert Under(name, xs)[k] == Found([name] + y.path, y.content);
  }

  lemma UnderSound<C>(name: string, xs: seq<Found<C>>, x: Found<C>)
    requires x in Under(name, xs)
    ensures |x.path| > 0 && x.path[0] == name && Found(x.path[1..], x.content) in xs
  {
    var k :| 0 <= k < |xs| && Under(name, xs)[k] == x;
    assert ([name] + xs[k].path)[1..] == xs[k].path;
    assert Found(x.path[1..], x.content) == xs[k];
  }

  lemma {:induction false} WalkAllHas<C>(ds: seq<Dir<C>>, removed: bool, i: nat, y: Found<C>)
    requires i < |ds| && ds[i].name != "Resources" && y in Walk(ds[i])
    ensures Found([ds[i].name] + y.path, y.content) in WalkAll(ds, removed)
    decreases i
  {
    if i == 0 {
      UnderHas(ds[0].name, Walk(ds[0]), y);
    } else if !removed && ds[0].name == "Resources" {
      WalkAllHas(ds[1..], true, i - 1, y);
    } else {
      WalkAllHas(ds[1..], removed, i - 1, y);
    }
  }

  lemma {:induction false} WalkAllSound<C>(ds: seq<Dir<C>>, removed: bool, x: Found<C>)
    requires DistinctNames(ds) && x in WalkAll(ds, removed)
    requires removed ==> forall i :: 0 <= i < |ds| ==> ds[i].name != "Resources"
    ensures |x.path| > 0
    ensures exists i :: (0 <= i < |ds| && ds[i].name == x.path[0] && ds[i].name != "Resources" &&
                         Found(x.path[1..], x.content) in Walk(ds[i]))
  {
    var rest := ds[1..];
    assert DistinctNames(rest) by {
      forall a, b | 0 <= a < b < |rest|
        ensures rest[a].name != rest[b].name
      {
        assert rest[a] == ds[a + 1] && rest[b] == ds[b + 1];
      }
    }
    if !removed && ds[0].name == "Resources" {
      forall a | 0 <= a < |rest|
        ensures rest[a].name != "Resources"
      {
        assert rest[a] == ds[a + 1];
      }
      WalkAllSound(rest, true, x);
      var j :| 0 <= j < |rest| && rest[j].name == x.path[0] && rest[j].name != "Resources" &&
        Found(x.path[1..], x.content) in Walk(rest[j]);
      assert ds[j + 1] == rest[j];
    } else if x in Under(ds[0].name, Walk(ds[0])) {
      UnderSound(ds[0].name, Walk(ds[0]), x);
    } else {
      assert removed ==> forall a :: 0 <= a < |rest| ==> rest[a].name != "Resources" by {
        assert forall a :: 0 <= a < |rest| ==> rest[a] == ds[a + 1];
      }
      WalkAllSound(rest, removed, x);
      var j :| 0 <= j < |rest| && rest[j].name == x.path[0] && rest[j].name != "Resources" &&
        Found(x.path[1..], x.content) in Walk(rest[j]);
      assert ds[j + 1] == rest[j];
    }
  }

  /** Every file the generator is meant to read is found. */
  lemma {:induction false} WalkComplete<C>(d: Dir<C>, path: seq<string>, c: C)
    requires SourceAt(d, path, c)
    ensures Found(path, c) in Walk(d)
    decreases d
  {
    if |path| == 1 {
      WalkHasFile(d, path, c);
    } else {
      var i :| 0 <= i < |d.subdirs| && d.subdirs[i].name == path[0] && SourceAt(d.subdirs[i], path[1..], c);
      WalkComplete(d.subdirs[i], path[1..], c);
      WalkHasSub(d, i, path, c);
    }
  }

  /** A source file of the directory itself is found. */
  lemma WalkHasFile<C>(d: Dir<C>, path: seq<string>, c: C)
    requires |path| == 1 && SourceAt(d, path, c)
    ensures Found(path, c) in Walk(d)
  {
    var k :| 0 <= k < |d.files| && d.files[k] == File(path[0], c);
    MatchingHas(d.files, k);
    assert [path[0]] == path;
  }

  /** What is found in a sub-directory other than `Resources` is found. */
  lemma WalkHasSub<C>(d: Dir<C>, i: nat, path: seq<string>, c: C)
    requires |path| > 1 && path[0] != "Resources" && i < |d.subdirs| && d.subdirs[i].name == path[0]
    requires Found(path[1..], c) in Walk(d.subdirs[i])
    ensures Found(path, c) in Walk(d)
  {
    WalkAllHas(d.subdirs, false, i, Found(path[1..], c));
    assert [path[0]] + path[1..] == path;
  }


  /** Every file found is one the generator is meant to read: under a
      directory tree whose names are distinct, no `Resources` directory is
      entered and only names SOURCE_RE matches are kept. */
  lemma {:induction false} WalkSound<C>(d: Dir<C>, x: Found<C>)
    requires WellNamed(d) && x in Walk(d)
    ensures SourceAt(d, x.path, x.content)
    decreases d
  {
    if x in Matching(d.files) {
      MatchingSound(d.files, x);
    } else {
      WalkAllSound(d.subdirs, false, x);
      var i :| 0 <= i < |d.subdirs| && d.subdirs[i].name == x.path[0] && d.subdirs[i].name != "Resources" &&
        Found(x.path[1..], x.content) in Walk(d.subdirs[i]);
      WalkSound(d.subdirs[i], Found(x.path[1..], x.content));
    }
  }
}
