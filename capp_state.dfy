/** What the completions generator of Plugin-generate_capp_completions.py
    records while it reads the Cappuccino sources, as a value: the six
    tables its object keeps, and how each parsing step changes them.  The
    multi-line patterns IMPLEMENTATION_RE, METHOD_RE, FUNCTION_RE and
    CONSTANT_RE are not modelled; what they capture in a file is the input
    (`SourceMatches`).  The class in capp_generator.dfy is proved to follow
    these functions. */
module CappState {
  import opened Wrappers
  import opened Text
  import opened CappSignature
  import opened CappSnippet
  import opened CappSources
  import opened CappTable

  /** A recorded class method: its stripped key and its parameters. */
  datatype MethodInfo = MethodInfo(stripped: string, params: Option<seq<Param>>)

  /** The groups of one METHOD_RE match: `-` or `+`, the first word of
      the selector and the rest of the line. */
  datatype MethodMatch = MethodMatch(kind: char, selector: string, rest: string)

  /** The groups of one IMPLEMENTATION_RE match: class name, category (with
      its parentheses, or empty), superclass (or empty) and the methods
      METHOD_RE finds in the body. */
  datatype Implementation = Implementation(className: string, category: string, superclass: string, methods: seq<MethodMatch>)

  /** The groups of one FUNCTION_RE match: name and parameter text. */
  datatype FunctionMatch = FunctionMatch(name: string, args: string)

  /** Everything the patterns find in one source file, in file order. */
  datatype SourceMatches = SourceMatches(implementations: seq<Implementation>, functions: seq<FunctionMatch>, constants: seq<string>)

  /** The generator's fields `classNames`, `inheritanceMap`, `classMethods`,
      `instanceMethods`, `functions` and `constants`. */
  datatype Tables = Tables(
    classNames: set<string>,
    inheritance: map<string, string>,
    classMethods: map<string, seq<MethodInfo>>,
    instanceMethods: map<string, Option<seq<Param>>>,
    functions: map<string, string>,
    constants: seq<string>)

  /** The tables as `__init__` leaves them. */
  const Empty: Tables := Tables({}, map[], map[], map[], map[], [])

  /** `dict.get(k, default)`. */
  function Get<V>(m: map<string, V>, k: string, default: V): V {
    if k in m then m[k] else default
  }

  /** A name the generator skips: it starts with `_`. */
  predicate IsPrivate(name: string) {
    |name| > 0 && name[0] == '_'
  }

  /** Line 79: the signature is the selector's first word and the rest of
      the line. */
  function Signature(m: MethodMatch): string {
    m.selector + m.rest
  }

  function Info(signature: string): MethodInfo {
    var (stripped, split) := Normalize(signature);
    MethodInfo(stripped, split)
  }

  // ---------------------------------------------------------------------------
  // The parsing steps
  // ---------------------------------------------------------------------------

  /** `add_method_signature` (lines 56-73). */
  function AddSignature(t: Tables, className: string, signature: string, isClassMethod: bool): Tables {
    AddInfo(t, className, Info(signature), isClassMethod)
  }

  /** Lines 64-73: the normalized signature goes to the class's list of
      class methods or into the instance-method table. */
  function AddInfo(t: Tables, className: string, info: MethodInfo, isClassMethod: bool): Tables {
    if isClassMethod then
      t.(classMethods := t.classMethods[className := Get(t.classMethods, className, []) + [info]])
    else
      t.(instanceMethods := t.instanceMethods[info.stripped := info.params])
  }

  /** One iteration of `parse_implementation` (lines 79-85). */
  function MethodStep(t: Tables, className: string, m: MethodMatch): Tables {
    if IsPrivate(Signature(m)) then t else AddSignature(t, className, Signature(m), m.kind == '+')
  }

  /** `parse_implementation` over the matches `ms`, in order. */
  function ParseImpl(t: Tables, className: string, ms: seq<MethodMatch>): Tables
    decreases |ms|
  {
    if ms == [] then t else MethodStep(ParseImpl(t, className, ms[..|ms| - 1]), className, ms[|ms| - 1])
  }

  /** One iteration of the implementation loop of `parse_source`
      (lines 94-101). */
  function Record(t: Tables, impl: Implementation): Tables {
    if IsPrivate(impl.className) then t
    else
      var t1 := t.(classNames := t.classNames + {impl.className});
      var t2 := if impl.category == "" && impl.superclass != "" then t1.(inheritance := t1.inheritance[impl.className := impl.superclass]) else t1;
      ParseImpl(t2, impl.className, impl.methods)
  }

  function AddImplementations(t: Tables, impls: seq<Implementation>): Tables
    decreases |impls|
  {
    if impls == [] then t else Record(AddImplementations(t, impls[..|impls| - 1]), impls[|impls| - 1])
  }

  /** One iteration of the function loop of `parse_source` (lines 105-111). */
  function AddFunction(t: Tables, f: FunctionMatch): Tables {
    t.(functions := t.functions[f.name := FunctionTemplate(f.name, f.args)])
  }

  function AddFunctions(t: Tables, fs: seq<FunctionMatch>): Tables
    decreases |fs|
  {
    if fs == [] then t else AddFunction(AddFunctions(t, fs[..|fs| - 1]), fs[|fs| - 1])
  }

  /** `parse_source` (lines 87-116) after the patterns have run. */
  function ParseSourceSpec(t: Tables, src: SourceMatches): Tables {
    var t2 := AddFunctions(AddImplementations(t, src.implementations), src.functions);
    t2.(constants := t2.constants + src.constants)
  }

  /** `parse_source` on each file, in order. */
  function ParseSources(t: Tables, srcs: seq<SourceMatches>): Tables
    decreases |srcs|
  {
    if srcs == [] then t else ParseSourceSpec(ParseSources(t, srcs[..|srcs| - 1]), srcs[|srcs| - 1])
  }

  /** The contents of the files a walk found, in the order found. */
  function Contents(found: seq<Found<SourceMatches>>): (srcs: seq<SourceMatches>)
    ensures |srcs| == |found|
  {
    if found == [] then [] else [found[0].content] + Contents(found[1..])
  }

  // ---------------------------------------------------------------------------
  // Reference views of the tables
  // ---------------------------------------------------------------------------

  /** The parameters of the last instance method of `ms` whose stripped
      key is `k`, if there is one. */
  function LastInstance(ms: seq<MethodMatch>, k: string): Option<Option<seq<Param>>>
    decreases |ms|
  {
    if ms == [] then None
    else
      var m := ms[|ms| - 1];
      if !IsPrivate(Signature(m)) && m.kind != '+' && Info(Signature(m)).stripped == k then Some(Info(Signature(m)).params)
      else LastInstance(ms[..|ms| - 1], k)
  }

  /** The class methods of `ms` that are recorded, in order, repeats kept. */
  function ClassInfos(ms: seq<MethodMatch>): seq<MethodInfo>
    decreases |ms|
  {
    if ms == [] then []
    else
      var m := ms[|ms| - 1];
      ClassInfos(ms[..|ms| - 1]) + (if !IsPrivate(Signature(m)) && m.kind == '+' then [Info(Signature(m))] else [])
  }

  /** The class names of `impls` that are recorded. */
  function PublicNames(impls: seq<Implementation>): set<string>
    decreases |impls|
  {
    if impls == [] then {}
    else
      var impl := impls[|impls| - 1];
      PublicNames(impls[..|impls| - 1]) + (if IsPrivate(impl.className) then {} else {impl.className})
  }

  /** The parameter text of the last definition of `name` in `fs`. */
  function LastDefinition(fs: seq<FunctionMatch>, name: string): Option<string>
    decreases |fs|
  {
    if fs == [] then None
    else if fs[|fs| - 1].name == name then Some(fs[|fs| - 1].args)
    else LastDefinition(fs[..|fs| - 1], name)
  }

  /** The constants of all files, in file order. */
  function AllConstants(srcs: seq<SourceMatches>): seq<string>
    decreases |srcs|
  {
    if srcs == [] then [] else AllConstants(srcs[..|srcs| - 1]) + srcs[|srcs| - 1].constants
  }

  // ---------------------------------------------------------------------------
  // What the parsing steps keep and record
  // ---------------------------------------------------------------------------

  /** The instance-method table holds, for each key, the parameters of the
      last instance method with that key; a key no method has keeps its
      old entry, or stays absent. */
  lemma {:induction false} InstanceLastWriterWins(t: Tables, className: string, ms: seq<MethodMatch>, k: string)
    ensures var r := ParseImpl(t, className, ms).instanceMethods;
      match LastInstance(ms, k)
      case Some(p) => k in r && r[k] == p
      case None => (k in r <==> k in t.instanceMethods) && (k in r ==> r[k] == t.instanceMethods[k])
    decreases |ms|
  {
    if ms != [] {
      InstanceLastWriterWins(t, className, ms[..|ms| - 1], k);
    }
  }

  /** The instance-method table does not depend on the class the methods
      belong to: keys of different classes overwrite each other. */
  lemma {:induction false} InstanceIgnoresClass(t: Tables, c1: string, c2: string, ms: seq<MethodMatch>)
    ensures ParseImpl(t, c1, ms).instanceMethods == ParseImpl(t, c2, ms).instanceMethods
    decreases |ms|
  {
    if ms != [] {
      InstanceIgnoresClass(t, c1, c2, ms[..|ms| - 1]);
    }
  }

  lemma ClassAppendStep(cm: map<string, seq<MethodInfo>>, c: string, before: seq<MethodInfo>, info: MethodInfo)
    ensures var r := if before == [] then cm else cm[c := Get(cm, c, []) + before];
      r[c := Get(r, c, []) + [info]] == cm[c := Get(cm, c, []) + (before + [info])]
  {
    if before == [] {
      assert before + [info] == [info];
    } else {
      assert (Get(cm, c, []) + before) + [info] == Get(cm, c, []) + (before + [info]);
    }
  }

  /** A class's recorded methods are appended to its list in order, and
      repeats are kept; the lists of other classes do not change. */
  lemma {:induction false} ClassMethodsAppended(t: Tables, className: string, ms: seq<MethodMatch>)
    ensures ParseImpl(t, className, ms).classMethods ==
      if ClassInfos(ms) == [] then t.classMethods
      else t.classMethods[className := Get(t.classMethods, className, []) + ClassInfos(ms)]
    decreases |ms|
  {
    if ms != [] {
      var init, m := ms[..|ms| - 1], ms[|ms| - 1];
      ClassMethodsAppended(t, className, init);
      if !IsPrivate(Signature(m)) && m.kind == '+' {
        assert ClassInfos(ms) == ClassInfos(init) + [Info(Signature(m))];
        ClassAppendStep(t.classMethods, className, ClassInfos(init), Info(Signature(m)));
      } else {
        assert ClassInfos(ms) == ClassInfos(init) + [];
        assert ClassInfos(init) + [] == ClassInfos(init);
      }
    }
  }

  /** A class method declared twice is listed twice. */
  lemma DuplicateClassMethodKept(t: Tables, className: string, m: MethodMatch)
    requires !IsPrivate(Signature(m)) && m.kind == '+'
    ensures Get(ParseImpl(t, className, [m, m]).classMethods, className, []) ==
      Get(t.classMethods, className, []) + [Info(Signature(m)), Info(Signature(m))]
  {
    ClassMethodsAppended(t, className, [m, m]);
    var info := Info(Signature(m));
    assert [m, m][..1] == [m];
    assert [m][..0] == [];
    assert ClassInfos([m]) == [] + [info];
    assert [] + [info] == [info];
    assert ClassInfos([m, m]) == [info] + [info];
  }

  /** A selector starting with `_` is not recorded at all. */
  lemma PrivateMethodSkipped(t: Tables, className: string, ms: seq<MethodMatch>, m: MethodMatch)
    requires IsPrivate(Signature(m))
    ensures ParseImpl(t, className, ms + [m]) == ParseImpl(t, className, ms)
  {
    assert (ms + [m])[..|ms|] == ms;
  }

  /** Reading methods changes only the two method tables. */
  lemma {:induction false} ParseImplKeeps(t: Tables, className: string, ms: seq<MethodMatch>)
    ensures var r := ParseImpl(t, className, ms);
      r.classNames == t.classNames && r.inheritance == t.inheritance &&
      r.functions == t.functions && r.constants == t.constants
    decreases |ms|
  {
    if ms != [] {
      ParseImplKeeps(t, className, ms[..|ms| - 1]);
    }
  }

  /** An implementation of a class whose name starts with `_` is ignored,
      methods and all. */
  lemma PrivateClassSkipped(t: Tables, impl: Implementation)
    requires IsPrivate(impl.className)
    ensures Record(t, impl) == t
  {
  }

  /** For a recorded class: its name is added; an inheritance entry is
      written exactly when there is no category and the superclass is
      not empty; and its methods are read whether or not it is a
      category. */
  lemma RecordPublicClass(t: Tables, impl: Implementation)
    requires !IsPrivate(impl.className)
    ensures var r := Record(t, impl);
      r.classNames == t.classNames + {impl.className} &&
      r.inheritance == (if impl.category == "" && impl.superclass != "" then t.inheritance[impl.className := impl.superclass] else t.inheritance) &&
      r.classMethods == ParseImpl(t, impl.className, impl.methods).classMethods &&
      r.instanceMethods == ParseImpl(t, impl.className, impl.methods).instanceMethods
  {
    var t1 := t.(classNames := t.classNames + {impl.className});
    var t2 := if impl.category == "" && impl.superclass != "" then t1.(inheritance := t1.inheritance[impl.className := impl.superclass]) else t1;
    ParseImplKeeps(t2, impl.className, impl.methods);
    MethodTablesIgnoreRest(t, t2, impl.className, impl.methods);
  }

  /** The method tables after reading methods depend only on the method
      tables before. */
  lemma {:induction false} MethodTablesIgnoreRest(t: Tables, u: Tables, className: string, ms: seq<MethodMatch>)
    requires t.classMethods == u.classMethods && t.instanceMethods == u.instanceMethods
    ensures ParseImpl(t, className, ms).classMethods == ParseImpl(u, className, ms).classMethods
    ensures ParseImpl(t, className, ms).instanceMethods == ParseImpl(u, className, ms).instanceMethods
    decreases |ms|
  {
    if ms != [] {
      MethodTablesIgnoreRest(t, u, className, ms[..|ms| - 1]);
      MethodStepIgnoresRest(ParseImpl(t, className, ms[..|ms| - 1]), ParseImpl(u, className, ms[..|ms| - 1]), className, ms[|ms| - 1]);
    }
  }

  lemma MethodStepIgnoresRest(t: Tables, u: Tables, className: string, m: MethodMatch)
    requires t.classMethods == u.classMethods && t.instanceMethods == u.instanceMethods
    ensures MethodStep(t, className, m).classMethods == MethodStep(u, className, m).classMethods
    ensures MethodStep(t, className, m).instanceMethods == MethodStep(u, className, m).instanceMethods
  {
    if !IsPrivate(Signature(m)) {
      AddInfoIgnoresRest(t, u, className, Info(Signature(m)), m.kind == '+');
    }
  }

  lemma AddInfoIgnoresRest(t: Tables, u: Tables, className: string, info: MethodInfo, isClassMethod: bool)
    requires t.classMethods == u.classMethods && t.instanceMethods == u.instanceMethods
    ensures AddInfo(t, className, info, isClassMethod).classMethods == AddInfo(u, className, info, isClassMethod).classMethods
    ensures AddInfo(t, className, info, isClassMethod).instanceMethods == AddInfo(u, className, info, isClassMethod).instanceMethods
  {
  }

  lemma {:induction false} ImplementationsKeep(t: Tables, impls: seq<Implementation>)
    ensures var r := AddImplementations(t, impls); r.functions == t.functions && r.constants == t.constants
    decreases |impls|
  {
    if impls != [] {
      var last := impls[|impls| - 1];
      var before := AddImplementations(t, impls[..|impls| - 1]);
      ImplementationsKeep(t, impls[..|impls| - 1]);
      if !IsPrivate(last.className) {
        var t1 := before.(classNames := before.classNames + {last.className});
        var t2 := if last.category == "" && last.superclass != "" then t1.(inheritance := t1.inheritance[last.className := last.superclass]) else t1;
        ParseImplKeeps(t2, last.className, last.methods);
      }
    }
  }

  /** The class names recorded are those of the implementations whose
      name does not start with `_` (a set: each once). */
  lemma {:induction false} ClassNamesCollected(t: Tables, impls: seq<Implementation>)
    ensures AddImplementations(t, impls).classNames == t.classNames + PublicNames(impls)
    decreases |impls|
  {
    if impls != [] {
      var last := impls[|impls| - 1];
      ClassNamesCollected(t, impls[..|impls| - 1]);
      if !IsPrivate(last.className) {
        RecordPublicClass(AddImplementations(t, impls[..|impls| - 1]), last);
      }
    }
  }

  /** A function's completion is the template of its last definition. */
  lemma {:induction false} FunctionLastWins(t: Tables, fs: seq<FunctionMatch>, name: string)
    ensures var r := AddFunctions(t, fs).functions;
      match LastDefinition(fs, name)
      case Some(args) => name in r && r[name] == FunctionTemplate(name, args)
      case None => (name in r <==> name in t.functions) && (name in r ==> r[name] == t.functions[name])
    decreases |fs|
  {
    if fs != [] {
      FunctionLastWins(t, fs[..|fs| - 1], name);
    }
  }

  lemma {:induction false} FunctionsKeep(t: Tables, fs: seq<FunctionMatch>)
    ensures AddFunctions(t, fs).constants == t.constants && AddFunctions(t, fs).classNames == t.classNames
    decreases |fs|
  {
    if fs != [] {
      FunctionsKeep(t, fs[..|fs| - 1]);
    }
  }

  /** Constants are appended in file order over all files, repeats kept. */
  lemma {:induction false} ConstantsAccumulate(t: Tables, srcs: seq<SourceMatches>)
    ensures ParseSources(t, srcs).constants == t.constants + AllConstants(srcs)
    decreases |srcs|
  {
    if srcs != [] {
      var before := ParseSources(t, srcs[..|srcs| - 1]);
      var src := srcs[|srcs| - 1];
      ConstantsAccumulate(t, srcs[..|srcs| - 1]);
      ImplementationsKeep(before, src.implementations);
      FunctionsKeep(AddImplementations(before, src.implementations), src.functions);
    }
  }

  // ---------------------------------------------------------------------------
  // The entries the writers produce
  // ---------------------------------------------------------------------------

  /** An entry of instance_methods (lines 131-136): without parameters the
      key is also the contents, otherwise the snippet of the parameters. */
  function InstanceEntry(key: string, params: Option<seq<Param>>): Completion {
    Completion(key, if params.None? then key else Snippet(params.value))
  }

  /** An entry of a class's file (line 181): the key is also the contents
      when the parameters are None or empty. */
  function ClassEntry(info: MethodInfo): Completion {
    Completion(info.stripped, if info.params.Some? && info.params.value != [] then Snippet(info.params.value) else info.stripped)
  }

  /** The sort key of a class method (line 177). */
  function InfoKey(info: MethodInfo): string {
    Lower(info.stripped)
  }

  /** With no parameters at all both tables fall back to the key; with an
      empty parameter list only the class table does, the instance table
      has empty contents. */
  lemma FallbackDiffers(key: string)
    ensures InstanceEntry(key, None) == Completion(key, key)
    ensures ClassEntry(MethodInfo(key, None)) == Completion(key, key)
    ensures InstanceEntry(key, Some([])) == Completion(key, "")
    ensures ClassEntry(MethodInfo(key, Some([]))) == Completion(key, key)
  {
    SnippetOfNone();
  }

  /** A signature with a colon but no `(type)name` group, such as
      `foo:bar`, gets an empty parameter list: its instance entry has empty
      contents, its class entry falls back to the key. */
  lemma ColonWithoutTypes(signature: string)
    requires !NoColon(signature) && forall k :: 0 <= k < |signature| ==> signature[k] != '('
    ensures Info(signature).params == Some([])
    ensures InstanceEntry(Info(signature).stripped, Info(signature).params).contents == ""
    ensures ClassEntry(Info(signature)).contents == Info(signature).stripped
  {
    PairsNoParen(signature, 0);
    FallbackDiffers(Info(signature).stripped);
  }
}
