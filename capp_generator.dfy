/** `GenerateCappuccinoCompletionsCommand` of Plugin-generate_capp_completions.py:
    an object whose parsing methods fill six tables and whose writers turn
    the tables into the text of the `.completions` files.  Each parsing
    method is proved to change the tables as the functions of capp_state.dfy
    say; each writer is proved to produce the table of capp_table.dfy for
    the sorted keys.  The file system, the editor and the settings are not
    modelled: a directory tree is an argument, and a writer returns the text
    it would write. */
module CappGenerator {
  import opened Wrappers
  import opened Text
  import opened CappSignature
  import opened CappSnippet
  import opened CappSort
  import opened CappTable
  import opened CappSources
  import opened CappState

  /** The elements of a set, each once, in an order left open: the order
      in which Python iterates over a set or over a dict's keys. */
  method ListOf<T(==)>(s: set<T>) returns (xs: seq<T>)
    ensures Elements(xs) == s && Distinct(xs)
  {
    xs := [];
    var rest := s;
    while rest != {}
      invariant Elements(xs) + rest == s
      invariant Elements(xs) !! rest
      invariant Distinct(xs)
      decreases |rest|
    {
      var x :| x in rest;
      ElementsSnoc(xs, x);
      DistinctSnoc(xs, x);
      xs := xs + [x];
      rest := rest - {x};
    }
  }

  // ---------------------------------------------------------------------------
  // The entries of each file
  // ---------------------------------------------------------------------------

  function InstanceEntries(keys: seq<string>, m: map<string, Option<seq<Param>>>): (cs: seq<Completion>)
    requires forall k :: 0 <= k < |keys| ==> keys[k] in m
  {
    seq(|keys|, i requires 0 <= i < |keys| => InstanceEntry(keys[i], m[keys[i]]))
  }

  /** classes and constants: the name is both trigger and contents. */
  function NameEntries(names: seq<string>): seq<Completion> {
    seq(|names|, i requires 0 <= i < |names| => Completion(names[i], names[i]))
  }

  /** functions (line 166): `name()` expands to the recorded template. */
  function FunctionEntries(names: seq<string>, m: map<string, string>): seq<Completion>
    requires forall k :: 0 <= k < |names| ==> names[k] in m
  {
    seq(|names|, i requires 0 <= i < |names| => Completion(names[i] + "()", m[names[i]]))
  }

  function ClassEntries(infos: seq<MethodInfo>): seq<Completion> {
    seq(|infos|, i requires 0 <= i < |infos| => ClassEntry(infos[i]))
  }

  lemma InstanceEntriesStep(keys: seq<string>, m: map<string, Option<seq<Param>>>, i: nat)
    requires i < |keys| && forall k :: 0 <= k < |keys| ==> keys[k] in m
    ensures InstanceEntries(keys[..i + 1], m) == InstanceEntries(keys[..i], m) + [InstanceEntry(keys[i], m[keys[i]])]
  {
  }

  lemma NameEntriesStep(names: seq<string>, i: nat)
    requires i < |names|
    ensures NameEntries(names[..i + 1]) == NameEntries(names[..i]) + [Completion(names[i], names[i])]
  {
  }

  lemma FunctionEntriesStep(names: seq<string>, m: map<string, string>, i: nat)
    requires i < |names| && forall k :: 0 <= k < |names| ==> names[k] in m
    ensures FunctionEntries(names[..i + 1], m) == FunctionEntries(names[..i], m) + [Completion(names[i] + "()", m[names[i]])]
  {
  }

  lemma ParseSourcesStep(t: Tables, srcs: seq<SourceMatches>, i: nat)
    requires i < |srcs|
    ensures ParseSources(t, srcs[..i + 1]) == ParseSourceSpec(ParseSources(t, srcs[..i]), srcs[i])
  {
    assert srcs[..i + 1][..i] == srcs[..i];
  }

  lemma ClassEntriesStep(infos: seq<MethodInfo>, i: nat)
    requires i < |infos|
    ensures ClassEntries(infos[..i + 1]) == ClassEntries(infos[..i]) + [ClassEntry(infos[i])]
  {
  }

  /** The file of class `c` (lines 175-186): its superclass, or "", and its
      recorded methods sorted by lower-cased key, in recording order among
      equal keys. */
  function ClassFile(t: Tables, c: string): string {
    ClassTable(Get(t.inheritance, c, ""), ClassEntries(SortBy(Get(t.classMethods, c, []), InfoKey)))
  }

  class CompletionsGenerator {
    var classNames: set<string>
    var inheritanceMap: map<string, string>
    var classMethods: map<string, seq<MethodInfo>>
    var instanceMethods: map<string, Option<seq<Param>>>
    var functions: map<string, string>
    var constants: seq<string>

    function State(): Tables
      reads this
    {
      Tables(classNames, inheritanceMap, classMethods, instanceMethods, functions, constants)
    }

    /** `__init__` (lines 37-45), without the library path. */
    constructor()
      ensures State() == Empty
    {
      classNames := {};
      inheritanceMap := map[];
      classMethods := map[];
      instanceMethods := map[];
      functions := map[];
      constants := [];
    }

    /** `add_method_signature` (lines 56-73). */
    method AddMethodSignature(className: string, signature: string, isClassMethod: bool)
      modifies this
      ensures State() == AddSignature(old(State()), className, signature, isClassMethod)
    {
      var (strippedSignature, splitSignature) := Normalize(signature);
      if isClassMethod {
        var info := MethodInfo(strippedSignature, splitSignature);
        if className !in classMethods {
          assert [] + [info] == [info];
          classMethods := classMethods[className := [info]];
        } else {
          classMethods := classMethods[className := classMethods[className] + [info]];
        }
      } else {
        instanceMethods := instanceMethods[strippedSignature := splitSignature];
      }
    }

    /** `parse_implementation` (lines 75-85) over the METHOD_RE matches of
        one body. */
    method ParseImplementation(className: string, body: seq<MethodMatch>)
      modifies this
      ensures State() == ParseImpl(old(State()), className, body)
    {
      var i := 0;
      while i < |body|
        invariant 0 <= i <= |body|
        invariant State() == ParseImpl(old(State()), className, body[..i])
      {
        var m := body[i];
        assert body[..i + 1][..i] == body[..i];
        var signature := m.selector + m.rest;
        if !IsPrivate(signature) {
          AddMethodSignature(className, signature, m.kind == '+');
        }
        i := i + 1;
      }
      assert body[..i] == body;
    }

    /** The implementation loop of `parse_source` (lines 92-101). */
    method ParseImplementations(implementations: seq<Implementation>)
      modifies this
      ensures State() == AddImplementations(old(State()), implementations)
    {
      var i := 0;
      while i < |implementations|
        invariant 0 <= i <= |implementations|
        invariant State() == AddImplementations(old(State()), implementations[..i])
      {
        var impl := implementations[i];
        assert implementations[..i + 1][..i] == implementations[..i];
        if !IsPrivate(impl.className) {
          classNames := classNames + {impl.className};
          if impl.category == "" && impl.superclass != "" {
            inheritanceMap := inheritanceMap[impl.className := impl.superclass];
          }
          ParseImplementation(impl.className, impl.methods);
        }
        i := i + 1;
      }
      assert implementations[..i] == implementations;
    }

    /** The function loop of `parse_source` (lines 103-111). */
    method ParseFunctions(functionMatches: seq<FunctionMatch>)
      modifies this
      ensures State() == AddFunctions(old(State()), functionMatches)
    {
      var i := 0;
      while i < |functionMatches|
        invariant 0 <= i <= |functionMatches|
        invariant State() == AddFunctions(old(State()), functionMatches[..i])
      {
        var f := functionMatches[i];
        assert functionMatches[..i + 1][..i] == functionMatches[..i];
        var completion := FunctionCompletion(f.name, f.args);
        functions := functions[f.name := completion];
        i := i + 1;
      }
      assert functionMatches[..i] == functionMatches;
    }

    /** `parse_source` (lines 87-116), given what the patterns match in the
        file. */
    method ParseSource(source: SourceMatches)
      modifies this
      ensures State() == ParseSourceSpec(old(State()), source)
    {
      ParseImplementations(source.implementations);
      ParseFunctions(source.functions);
      var i := 0;
      ghost var before := State();
      while i < |source.constants|
        invariant 0 <= i <= |source.constants|
        invariant State() == before.(constants := before.constants + source.constants[..i])
      {
        assert source.constants[..i + 1] == source.constants[..i] + [source.constants[i]];
        constants := constants + [source.constants[i]];
        i := i + 1;
      }
      assert source.constants[..i] == source.constants;
    }

    /** `parse_source_directory` (lines 47-54): every file the walk keeps,
        in the order found. */
    method ParseSourceDirectory(top: Dir<SourceMatches>)
      modifies this
      ensures State() == ParseSources(old(State()), Contents(Walk(top)))
    {
      var sources := Contents(Walk(top));
      var i := 0;
      while i < |sources|
        invariant 0 <= i <= |sources|
        invariant State() == ParseSources(old(State()), sources[..i])
      {
        ParseSourcesStep(old(State()), sources, i);
        ParseSource(sources[i]);
        i := i + 1;
      }
      assert sources[..i] == sources;
    }

    // -------------------------------------------------------------------------
    // The writers
    // -------------------------------------------------------------------------

    /** `write_instance_methods` (lines 126-140): one entry per key, the keys
        sorted by their lower-cased form; keys equal when lower-cased come in
        the dict's order. */
    method WriteInstanceMethods() returns (text: string, methods: seq<string>)
      ensures Elements(methods) == instanceMethods.Keys && Distinct(methods)
      ensures SortedBy(methods, Lower)
      ensures forall k :: 0 <= k < |methods| ==> methods[k] in instanceMethods
      ensures text == Table(InstanceEntries(methods, instanceMethods))
    {
      var keys := ListOf(instanceMethods.Keys);
      methods := SortBy(keys, Lower);
      SortByListing(keys, Lower);
      ElementsHas(methods);
      text := InstanceTable(methods);
    }

    /** The loop of `write_instance_methods` over the sorted keys. */
    method InstanceTable(methods: seq<string>) returns (text: string)
      requires forall k :: 0 <= k < |methods| ==> methods[k] in instanceMethods
      ensures text == Table(InstanceEntries(methods, instanceMethods))
    {
      var completions: seq<string> := [];
      var i := 0;
      while i < |methods|
        invariant 0 <= i <= |methods|
        invariant completions == EntryTexts(InstanceEntries(methods[..i], instanceMethods))
      {
        var key := methods[i];
        var parameters := instanceMethods[key];
        var contents;
        if parameters.None? {
          contents := key;
        } else {
          contents := MakeSnippet(parameters.value);
        }
        assert Completion(key, contents) == InstanceEntry(key, parameters);
        InstanceEntriesStep(methods, instanceMethods, i);
        EntryTextsSnoc(InstanceEntries(methods[..i], instanceMethods), Completion(key, contents));
        completions := completions + [EntryText(Completion(key, contents))];
        i := i + 1;
      }
      assert methods[..i] == methods;
      text := Head + (Join(Separator, completions) + Foot);
    }

    /** `write_classes` (lines 142-150): each class name once, in plain
        string order. */
    method WriteClasses() returns (text: string, names: seq<string>)
      ensures Elements(names) == classNames && Distinct(names) && SortedBy(names, Id)
      ensures text == Table(NameEntries(names))
    {
      var listed := ListOf(classNames);
      names := SortBy(listed, Id);
      SortByListing(listed, Id);
      text := NameTable(names);
    }

    /** `write_constants` (lines 152-160): every constant recorded, repeats
        kept, in plain string order. */
    method WriteConstants() returns (text: string)
      ensures text == Table(NameEntries(SortBy(constants, Id)))
    {
      text := NameTable(SortBy(constants, Id));
    }

    /** The loop both `write_classes` and `write_constants` run. */
    method NameTable(names: seq<string>) returns (text: string)
      ensures text == Table(NameEntries(names))
    {
      var completions: seq<string> := [];
      var i := 0;
      while i < |names|
        invariant 0 <= i <= |names|
        invariant completions == EntryTexts(NameEntries(names[..i]))
      {
        NameEntriesStep(names, i);
        EntryTextsSnoc(NameEntries(names[..i]), Completion(names[i], names[i]));
        completions := completions + [EntryText(Completion(names[i], names[i]))];
        i := i + 1;
      }
      assert names[..i] == names;
      text := Head + (Join(Separator, completions) + Foot);
    }

    /** `write_functions` (lines 162-170): each function once, in plain
        string order of the names. */
    method WriteFunctions() returns (text: string, names: seq<string>)
      ensures Elements(names) == functions.Keys && Distinct(names) && SortedBy(names, Id)
      ensures forall k :: 0 <= k < |names| ==> names[k] in functions
      ensures text == Table(FunctionEntries(names, functions))
    {
      var keys := ListOf(functions.Keys);
      names := SortBy(keys, Id);
      SortByListing(keys, Id);
      ElementsHas(names);
      text := FunctionTable(names);
    }

    /** The loop of `write_functions` over the sorted names. */
    method FunctionTable(names: seq<string>) returns (text: string)
      requires forall k :: 0 <= k < |names| ==> names[k] in functions
      ensures text == Table(FunctionEntries(names, functions))
    {
      var completions: seq<string> := [];
      var i := 0;
      while i < |names|
        invariant 0 <= i <= |names|
        invariant completions == EntryTexts(FunctionEntries(names[..i], functions))
      {
        var entry := Completion(names[i] + "()", functions[names[i]]);
        FunctionEntriesStep(names, functions, i);
        EntryTextsSnoc(FunctionEntries(names[..i], functions), entry);
        completions := completions + [EntryText(entry)];
        i := i + 1;
      }
      assert names[..i] == names;
      text := Head + (Join(Separator, completions) + Foot);
    }

    /** The file of one class (lines 176-185). */
    method ClassMethodsFile(className: string) returns (text: string)
      ensures text == ClassFile(State(), className)
    {
      var methods := SortBy(Get(classMethods, className, []), InfoKey);
      var completions := ClassEntriesText(methods);
      text := SuperHead + (Get(inheritanceMap, className, "") + (SuperFoot + (Head + (Join(Separator, completions) + Foot))));
    }

    /** The loop of `write_class_methods` over one class's sorted methods. */
    method ClassEntriesText(methods: seq<MethodInfo>) returns (completions: seq<string>)
      ensures completions == EntryTexts(ClassEntries(methods))
    {
      completions := [];
      var i := 0;
      while i < |methods|
        invariant 0 <= i <= |methods|
        invariant completions == EntryTexts(ClassEntries(methods[..i]))
      {
        var info := methods[i];
        var contents;
        if info.params.Some? && info.params.value != [] {
          contents := MakeSnippet(info.params.value);
        } else {
          contents := info.stripped;
        }
        assert Completion(info.stripped, contents) == ClassEntry(info);
        ClassEntriesStep(methods, i);
        EntryTextsSnoc(ClassEntries(methods[..i]), Completion(info.stripped, contents));
        completions := completions + [EntryText(Completion(info.stripped, contents))];
        i := i + 1;
      }
      assert methods[..i] == methods;
    }

    /** `write_class_methods` (lines 172-186): one file per recorded class,
        with or without methods, keyed here by the class name. */
    method WriteClassMethods() returns (files: map<string, string>)
      ensures files.Keys == classNames
      ensures forall c :: c in files ==> files[c] == ClassFile(State(), c)
    {
      var names := ListOf(classNames);
      files := map[];
      var i := 0;
      while i < |names|
        invariant 0 <= i <= |names|
        invariant files.Keys == Elements(names[..i])
        invariant forall c :: c in files ==> files[c] == ClassFile(State(), c)
      {
        var text := ClassMethodsFile(names[i]);
        ElementsSnoc(names[..i], names[i]);
        assert names[..i + 1] == names[..i] + [names[i]];
        files := files[names[i] := text];
        i := i + 1;
      }
      assert names[..i] == names;
    }

    /** `generate` (lines 196-217) past its directory checks: read AppKit,
        then Foundation, then write every file. */
    method Generate(appKit: Dir<SourceMatches>, foundation: Dir<SourceMatches>)
      returns (instanceText: string, classFiles: map<string, string>, classesText: string, functionsText: string, constantsText: string)
      modifies this
      ensures State() == ParseSources(ParseSources(old(State()), Contents(Walk(appKit))), Contents(Walk(foundation)))
      ensures classFiles.Keys == classNames && forall c :: c in classFiles ==> classFiles[c] == ClassFile(State(), c)
      ensures constantsText == Table(NameEntries(SortBy(constants, Id)))
    {
      ParseSourceDirectory(appKit);
      ParseSourceDirectory(foundation);
      var methods, classes, names;
      instanceText, methods := WriteInstanceMethods();
      classFiles := WriteClassMethods();
      classesText, classes := WriteClasses();
      functionsText, names := WriteFunctions();
      constantsText := WriteConstants();
    }
  }
}
