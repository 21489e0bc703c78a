/**
 The build-script runtime (`libauxid/include/auxid/builder/builder.hpp`,
 `libauxid/src/cpp/builder/builder.cpp`). A build script derives from
 `AuxidBuilder_Base`; `RUN_BUILDER` constructs it, calls `init` with the
 command line, the script's `run`, then `finalize`, which prints either the
 package metadata as JSON or a Ninja manifest, depending on the mode flag
 `init` found.

 Targets are values here; the builder's pointer lists become lists of
 `Target` values, and printing is the text returned.
 */
module Builder {
  import opened Common
  import opened AuResult
  import opened AuOption
  import opened Target
  import opened Ninja
  import RuntimeInit

  datatype RunMode = Invalid | DumpMetadata | GenerateNinja

  /** The package fields the `set_package_*` calls write. */
  datatype PackageField = PkgName | PkgVersion | PkgAuthor | PkgLicense | PkgWebsite | PkgDescription

  datatype PackageInfo = PackageInfo(
    name: string, version: string, author: string, license: string, website: string, description: string)

  /** One entry of `m_required_packages`. */
  datatype Requirement = Requirement(name: string, version: string)

  datatype Builder = Builder(
    mode: RunMode,
    package: PackageInfo,
    required: seq<Requirement>,
    executables: seq<Target>,
    staticLibs: seq<Target>)

  const DUMP_METADATA_FLAG := "--auxid-dump-metadata"
  const GENERATE_NINJA_FLAG := "--auxid-generate-ninja"
  const STANDALONE_NOTICE := "Auxid builder executed standalone. Run via 'auxid build' to compile.\n"

  /** A default-constructed builder. */
  function Fresh(): (b: Builder)
    ensures b.mode == Invalid
    ensures b.required == [] && b.executables == [] && b.staticLibs == []
    ensures WellKinded(b)
  {
    Builder(Invalid, PackageInfo("", "", "", "", "", ""), [], [], [])
  }

  predicate IsModeFlag(arg: string) {
    arg == DUMP_METADATA_FLAG || arg == GENERATE_NINJA_FLAG
  }

  function ModeOf(arg: string): RunMode {
    if arg == DUMP_METADATA_FLAG then DumpMetadata
    else if arg == GENERATE_NINJA_FLAG then GenerateNinja
    else Invalid
  }

  /** The scan of `init`: the mode of the first mode flag among `args[i..]`, or `Invalid` when there is none. */
  function FirstMode(args: seq<string>, i: nat): (m: RunMode)
    ensures m == Invalid <==> forall j :: i <= j < |args| ==> !IsModeFlag(args[j])
    ensures m != Invalid ==>
              exists j :: i <= j < |args| && IsModeFlag(args[j]) && m == ModeOf(args[j])
                          && forall k :: i <= k < j ==> !IsModeFlag(args[k])
    decreases |args| - i
  {
    if i >= |args| then Invalid
    else if args[i] == DUMP_METADATA_FLAG then DumpMetadata
    else if args[i] == GENERATE_NINJA_FLAG then GenerateNinja
    else FirstMode(args, i + 1)
  }

  /**
   `init(argc, argv)`: `args` is `argv[0..argc)`, the program name first.
   It always succeeds.
   */
  function Init(b: Builder, args: seq<string>): (r: (Builder, VoidResult<string>))
    requires |args| < 0x8000_0000
    ensures r.1.Ok?
    ensures r.0.(mode := b.mode) == b
    ensures WellKinded(b) ==> WellKinded(r.0)
    ensures r.0.mode == Invalid <==> forall j :: 1 <= j < |args| ==> !IsModeFlag(args[j])
    ensures r.0.mode != Invalid ==>
              exists j :: 1 <= j < |args| && r.0.mode == ModeOf(args[j])
                          && forall k :: 1 <= k < j ==> !IsModeFlag(args[k])
  {
    (b.(mode := FirstMode(args, 1)), Ok(()))
  }

  /** The program name is never taken for a mode flag: only the arguments after it matter. */
  lemma ProgramNameIgnored(b: Builder, program: string, rest: seq<string>)
    requires |rest| < 0x7FFF_FFFF
    ensures Init(b, [program] + rest).0.mode == Init(b, ["builder"] + rest).0.mode
    ensures Init(b, [DUMP_METADATA_FLAG]).0.mode == Invalid
  {
    var a, c := [program] + rest, ["builder"] + rest;
    forall j | 1 <= j < |a| ensures a[j] == c[j] {
      assert a[j] == rest[j - 1] == c[j];
    }
    FirstModeShift(a, c, 1);
  }

  /** The scan from `i` on depends only on the arguments from `i` on. */
  lemma {:induction false} FirstModeShift(a: seq<string>, c: seq<string>, i: nat)
    requires |a| == |c|
    requires forall j :: i <= j < |a| ==> a[j] == c[j]
    ensures FirstMode(a, i) == FirstMode(c, i)
    decreases |a| - i
  {
    if i < |a| {
      FirstModeShift(a, c, i + 1);
    }
  }

  function PackageGet(p: PackageInfo, f: PackageField): string {
    match f
    case PkgName => p.name
    case PkgVersion => p.version
    case PkgAuthor => p.author
    case PkgLicense => p.license
    case PkgWebsite => p.website
    case PkgDescription => p.description
  }

  /** `set_package_name`, `_version`, `_author`, `_license`, `_website` and `_description`. */
  function SetPackage(b: Builder, f: PackageField, value: string): (r: Builder)
    ensures PackageGet(r.package, f) == value
    ensures forall g :: g != f ==> PackageGet(r.package, g) == PackageGet(b.package, g)
    ensures r.(package := b.package) == b
  {
    var p := b.package;
    var p' := match f
      case PkgName => p.(name := value)
      case PkgVersion => p.(version := value)
      case PkgAuthor => p.(author := value)
      case PkgLicense => p.(license := value)
      case PkgWebsite => p.(website := value)
      case PkgDescription => p.(description := value);
    b.(package := p')
  }

  /** The keys of the required-package map, in iteration order. */
  function Names(reqs: seq<Requirement>): (ns: seq<string>)
    ensures |ns| == |reqs|
    ensures forall i :: 0 <= i < |reqs| ==> ns[i] == reqs[i].name
    decreases |reqs|
  {
    if |reqs| == 0 then [] else [reqs[0].name] + Names(reqs[1..])
  }

  /** No name is required twice: the map's key uniqueness. */
  predicate DistinctNames(reqs: seq<Requirement>) {
    forall i, j :: 0 <= i < j < |reqs| ==> reqs[i].name != reqs[j].name
  }

  /** Looking a name up in the map. */
  function VersionOf(reqs: seq<Requirement>, name: string): (v: Option<string>)
    ensures v.Some? <==> name in Names(reqs)
    ensures v.Some? ==> Requirement(name, v.value) in reqs
    decreases |reqs|
  {
    if |reqs| == 0 then None
    else if reqs[0].name == name then Some(reqs[0].version)
    else VersionOf(reqs[1..], name)
  }

  /** `map[name] = version`: overwrite the version in place, or add the name at the end. */
  function Upsert(reqs: seq<Requirement>, name: string, version: string): (u: seq<Requirement>)
    ensures name in Names(reqs) ==>
              |u| == |reqs| && forall i :: 0 <= i < |u| ==> u[i].name == reqs[i].name
    ensures name !in Names(reqs) ==> u == reqs + [Requirement(name, version)]
    decreases |reqs|
  {
    if |reqs| == 0 then [Requirement(name, version)]
    else if reqs[0].name == name then [Requirement(name, version)] + reqs[1..]
    else
      assert name in Names(reqs) <==> name in Names(reqs[1..]);
      [reqs[0]] + Upsert(reqs[1..], name, version)
  }

  /** After the assignment, `name` maps to `version` and `other` keeps its version. */
  lemma {:induction false} UpsertLookup(reqs: seq<Requirement>, name: string, version: string, other: string)
    ensures VersionOf(Upsert(reqs, name, version), name) == Some(version)
    ensures other != name ==> VersionOf(Upsert(reqs, name, version), other) == VersionOf(reqs, other)
    decreases |reqs|
  {
    if |reqs| > 0 && reqs[0].name != name {
      var u := Upsert(reqs, name, version);
      assert u[0] == reqs[0] && u[1..] == Upsert(reqs[1..], name, version);
      UpsertLookup(reqs[1..], name, version, other);
    }
  }

  /** The key order is kept when the name was present, and gains the name at the end when it was not; keys stay unique. */
  lemma UpsertNames(reqs: seq<Requirement>, name: string, version: string)
    ensures name in Names(reqs) ==> Names(Upsert(reqs, name, version)) == Names(reqs)
    ensures name !in Names(reqs) ==> Names(Upsert(reqs, name, version)) == Names(reqs) + [name]
    ensures DistinctNames(reqs) ==> DistinctNames(Upsert(reqs, name, version))
  {
    var u := Upsert(reqs, name, version);
    if name !in Names(reqs) {
      assert Names(u) == Names(reqs) + [name];
      assert forall i :: 0 <= i < |reqs| ==> reqs[i].name == Names(reqs)[i];
    }
  }

  /** The lookup property of the assignment, for every other name at once. */
  lemma UpsertLookupAll(reqs: seq<Requirement>, name: string, version: string)
    ensures VersionOf(Upsert(reqs, name, version), name) == Some(version)
    ensures forall other :: other != name ==> VersionOf(Upsert(reqs, name, version), other) == VersionOf(reqs, other)
  {
    UpsertLookup(reqs, name, version, name);
    forall other | other != name
      ensures VersionOf(Upsert(reqs, name, version), other) == VersionOf(reqs, other)
    {
      UpsertLookup(reqs, name, version, other);
    }
  }

  /** `require_package(name, version)`. */
  function RequirePackage(b: Builder, name: string, version: string): (r: Builder)
    ensures VersionOf(r.required, name) == Some(version)
    ensures forall other :: other != name ==> VersionOf(r.required, other) == VersionOf(b.required, other)
    ensures DistinctNames(b.required) ==> DistinctNames(r.required)
    ensures r.(required := b.required) == b
  {
    UpsertLookupAll(b.required, name, version);
    UpsertNames(b.required, name, version);
    b.(required := Upsert(b.required, name, version))
  }

  lemma {:induction false} UpsertTwice(reqs: seq<Requirement>, name: string, v1: string, v2: string)
    ensures Upsert(Upsert(reqs, name, v1), name, v2) == Upsert(reqs, name, v2)
    decreases |reqs|
  {
    if |reqs| > 0 && reqs[0].name != name {
      var u := Upsert(reqs, name, v1);
      assert u[0] == reqs[0] && u[1..] == Upsert(reqs[1..], name, v1);
      UpsertTwice(reqs[1..], name, v1, v2);
    }
  }

  /** Requiring a package twice leaves one entry, where the first one was put, holding the second version. */
  lemma RequireTwiceLastWins(b: Builder, name: string, v1: string, v2: string)
    ensures RequirePackage(RequirePackage(b, name, v1), name, v2) == RequirePackage(b, name, v2)
    ensures Names(RequirePackage(RequirePackage(b, name, v1), name, v2).required)
            == Names(RequirePackage(b, name, v1).required)
  {
    UpsertTwice(b.required, name, v1, v2);
    UpsertNames(b.required, name, v1);
    UpsertNames(b.required, name, v2);
  }

  /** `add_executable(name)`: the name is not used. */
  function AddExecutable(b: Builder, name: string): (r: Builder)
    ensures r.executables == b.executables + [New(Executable)]
    ensures r.(executables := b.executables) == b
    ensures WellKinded(b) ==> WellKinded(r)
  {
    b.(executables := b.executables + [New(Executable)])
  }

  /** `add_static_lib(name)`: the name is not used. */
  function AddStaticLib(b: Builder, name: string): (r: Builder)
    ensures r.staticLibs == b.staticLibs + [New(StaticLib)]
    ensures r.(staticLibs := b.staticLibs) == b
    ensures WellKinded(b) ==> WellKinded(r)
  {
    b.(staticLibs := b.staticLibs + [New(StaticLib)])
  }

  /** The lists hold targets of the classes their element types name. */
  predicate WellKinded(b: Builder) {
    (forall i :: 0 <= i < |b.executables| ==> b.executables[i].kind == Executable)
    && (forall i :: 0 <= i < |b.staticLibs| ==> b.staticLibs[i].kind == StaticLib)
  }

  // ---- generate_ninja_for_target ----

  function IncludeFlag(dir: string): string {
    "-I" + dir + " "
  }

  function LibraryFlag(dir: string): string {
    "-L" + dir + " "
  }

  /** The compile flags of a target: `-I<dir> ` per include directory, then `<flag> ` per compile flag. */
  function CFlags(info: BuildInfo): (r: string)
    ensures r == "" <==> info.includeDirs == [] && info.compileFlags == []
    ensures |r| >= |info.includeDirs| + |info.compileFlags|
  {
    JoinEmptyIff(info.includeDirs, IncludeFlag);
    JoinEmptyIff(info.compileFlags, Spaced);
    Join(info.includeDirs, IncludeFlag) + Join(info.compileFlags, Spaced)
  }

  /** The link flags of a target: `-L<dir> ` per library directory, then `<flag> ` per link flag. */
  function LdFlags(info: BuildInfo): (r: string)
    ensures r == "" <==> info.libraryDirs == [] && info.linkFlags == []
    ensures |r| >= |info.libraryDirs| + |info.linkFlags|
  {
    JoinEmptyIff(info.libraryDirs, LibraryFlag);
    JoinEmptyIff(info.linkFlags, Spaced);
    Join(info.libraryDirs, LibraryFlag) + Join(info.linkFlags, Spaced)
  }

  /** Joining items whose texts are never empty is empty exactly when there are no items. */
  lemma {:induction false} JoinEmptyIff<T>(items: seq<T>, f: T -> string)
    requires forall x :: |f(x)| > 0
    ensures Join(items, f) == "" <==> |items| == 0
    ensures |Join(items, f)| >= |items|
    decreases |items|
  {
    if |items| > 0 {
      JoinEmptyIff(items[..|items| - 1], f);
    }
  }

  /** The two loops that build `target_cflags`. */
  method CFlagsText(info: BuildInfo) returns (r: string)
    ensures r == CFlags(info)
  {
    r := "";
    var i := 0;
    while i < |info.includeDirs|
      invariant 0 <= i <= |info.includeDirs|
      invariant r == "" + Join(info.includeDirs[..i], IncludeFlag)
    {
      JoinStep("", r, info.includeDirs, i, IncludeFlag);
      r := r + ("-I" + info.includeDirs[i] + " ");
      i := i + 1;
    }
    assert info.includeDirs[..i] == info.includeDirs;
    var head := r;
    i := 0;
    while i < |info.compileFlags|
      invariant 0 <= i <= |info.compileFlags|
      invariant r == head + Join(info.compileFlags[..i], Spaced)
    {
      JoinStep(head, r, info.compileFlags, i, Spaced);
      r := r + (info.compileFlags[i] + " ");
      i := i + 1;
    }
    assert info.compileFlags[..i] == info.compileFlags;
  }

  /** The two loops that build `target_ldflags`. */
  method LdFlagsText(info: BuildInfo) returns (r: string)
    ensures r == LdFlags(info)
    ensures r == "" <==> info.libraryDirs == [] && info.linkFlags == []
  {
    r := "";
    var i := 0;
    while i < |info.libraryDirs|
      invariant 0 <= i <= |info.libraryDirs|
      invariant r == "" + Join(info.libraryDirs[..i], LibraryFlag)
    {
      JoinStep("", r, info.libraryDirs, i, LibraryFlag);
      r := r + ("-L" + info.libraryDirs[i] + " ");
      i := i + 1;
    }
    assert info.libraryDirs[..i] == info.libraryDirs;
    var head := r;
    i := 0;
    while i < |info.linkFlags|
      invariant 0 <= i <= |info.linkFlags|
      invariant r == head + Join(info.linkFlags[..i], Spaced)
    {
      JoinStep(head, r, info.linkFlags, i, Spaced);
      r := r + (info.linkFlags[i] + " ");
      i := i + 1;
    }
    assert info.linkFlags[..i] == info.linkFlags;
  }

  function ObjectPath(info: BuildInfo, source: string): string {
    ".auxid/obj/" + info.name + "/" + source + ".o"
  }

  /** The object file of each source, in source order. */
  function ObjectPaths(info: BuildInfo): (objs: seq<string>)
    ensures |objs| == |info.sources|
    ensures forall i :: 0 <= i < |objs| ==>
              StartsWith(objs[i], ".auxid/obj/" + info.name + "/") && EndsWith(objs[i], info.sources[i] + ".o")
  {
    var objs := seq(|info.sources|, i requires 0 <= i < |info.sources| => ObjectPath(info, info.sources[i]));
    assert forall i :: 0 <= i < |objs| ==>
             objs[i] == (".auxid/obj/" + info.name + "/") + (info.sources[i] + ".o");
    forall i | 0 <= i < |objs|
      ensures StartsWith(objs[i], ".auxid/obj/" + info.name + "/") && EndsWith(objs[i], info.sources[i] + ".o")
    {
      StartsWithConcat(".auxid/obj/" + info.name + "/", info.sources[i] + ".o");
      EndsWithConcat(".auxid/obj/" + info.name + "/", info.sources[i] + ".o");
    }
    objs
  }

  /** The compile edge of one source. */
  function CompileEdge(info: BuildInfo, source: string, cflags: string): (e: Edge)
    ensures e.ruleName == "cxx" && e.inputs == [source] && e.implicitInputs == []
    ensures |e.outputs| == 1 && StartsWith(e.outputs[0], ".auxid/obj/" + info.name + "/")
            && EndsWith(e.outputs[0], source + ".o")
    ensures e.variables == [Variable("cflags", cflags)]
  {
    StartsWithConcat(".auxid/obj/" + info.name + "/", source + ".o");
    EndsWithConcat(".auxid/obj/" + info.name + "/", source + ".o");
    assert ObjectPath(info, source) == (".auxid/obj/" + info.name + "/") + (source + ".o");
    Edge("cxx", [ObjectPath(info, source)], [source], [], [Variable("cflags", cflags)])
  }

  /** One compile edge per source, in source order, all sharing the target's compile flags. */
  function CompileEdges(info: BuildInfo): (es: seq<Edge>)
    ensures |es| == |info.sources|
    ensures forall i :: 0 <= i < |es| ==>
              es[i].ruleName == "cxx" && es[i].inputs == [info.sources[i]]
              && es[i].variables == [Variable("cflags", CFlags(info))]
  {
    seq(|info.sources|, i requires 0 <= i < |info.sources| => CompileEdge(info, info.sources[i], CFlags(info)))
  }

  /** The link edge, for executables and static libraries only. */
  function LinkEdges(info: BuildInfo): (es: seq<Edge>)
    ensures |es| == (if info.kind == Executable || info.kind == StaticLib then 1 else 0)
    ensures forall e :: e in es ==> e.inputs == ObjectPaths(info) && e.implicitInputs == []
    ensures info.kind == Executable ==>
              es[0].ruleName == "link_exe" && (es[0].variables == [] <==> info.libraryDirs == [] && info.linkFlags == [])
    ensures info.kind == StaticLib ==> es[0].ruleName == "link_static_lib" && es[0].variables == []
  {
    if info.kind == Executable then
      var ld := LdFlags(info);
      [Edge("link_exe", [".auxid/bin/" + info.name], ObjectPaths(info), [],
            if ld == "" then [] else [Variable("ldflags", ld)])]
    else if info.kind == StaticLib then
      [Edge("link_static_lib", [".auxid/lib/" + info.name + ".a"], ObjectPaths(info), [], [])]
    else []
  }

  /** The rules the `GenerateNinja` branch declares. */
  predicate BuilderRule(name: string) {
    name == "cxx" || name == "link_exe" || name == "link_static_lib"
  }

  /** Every edge one target contributes, in the order they are added. */
  function TargetEdges(info: BuildInfo): (es: seq<Edge>)
    ensures forall i :: 0 <= i < |es| ==> BuilderRule(es[i].ruleName)
    ensures |es| == |info.sources| + (if info.kind == Executable || info.kind == StaticLib then 1 else 0)
    ensures forall i :: 0 <= i < |info.sources| ==>
              es[i].ruleName == "cxx" && es[i].inputs == [info.sources[i]]
              && es[i].outputs == [ObjectPaths(info)[i]] && es[i].variables == [Variable("cflags", CFlags(info))]
    ensures info.kind == Executable ==>
              es[|info.sources|].ruleName == "link_exe" && es[|info.sources|].inputs == ObjectPaths(info)
              && (es[|info.sources|].variables == [] <==> info.libraryDirs == [] && info.linkFlags == [])
    ensures info.kind == StaticLib ==>
              es[|info.sources|].ruleName == "link_static_lib" && es[|info.sources|].inputs == ObjectPaths(info)
              && es[|info.sources|].variables == []
    ensures forall e :: e in es ==> e.implicitInputs == []
  {
    CompileEdges(info) + LinkEdges(info)
  }

  /** `generate_ninja_for_target(ninja, info)`. */
  method GenerateNinjaForTarget(g: Generator, info: BuildInfo) returns (r: Generator)
    ensures r.edges == g.edges + TargetEdges(info)
    ensures r.globals == g.globals && r.rules == g.rules
  {
    var cflags := CFlagsText(info);
    var ldflags := LdFlagsText(info);
    var objects: seq<string> := [];
    r := g;
    var i := 0;
    while i < |info.sources|
      invariant 0 <= i <= |info.sources|
      invariant objects == ObjectPaths(info)[..i]
      invariant r.edges == g.edges + CompileEdges(info)[..i]
      invariant r.globals == g.globals && r.rules == g.rules
    {
      var source := info.sources[i];
      var obj := ".auxid/obj/" + info.name + "/" + source + ".o";
      objects := objects + [obj];
      r := AddEdge(r, Edge("cxx", [obj], [source], [], [Variable("cflags", cflags)]));
      assert CompileEdges(info)[..i + 1] == CompileEdges(info)[..i] + [CompileEdges(info)[i]];
      assert ObjectPaths(info)[..i + 1] == ObjectPaths(info)[..i] + [ObjectPaths(info)[i]];
      i := i + 1;
    }
    assert CompileEdges(info)[..i] == CompileEdges(info);
    assert ObjectPaths(info)[..i] == ObjectPaths(info);
    if info.kind == Executable {
      var vars := if ldflags != "" then [Variable("ldflags", ldflags)] else [];
      r := AddEdge(r, Edge("link_exe", [".auxid/bin/" + info.name], objects, [], vars));
    } else if info.kind == StaticLib {
      r := AddEdge(r, Edge("link_static_lib", [".auxid/lib/" + info.name + ".a"], objects, [], []));
    }
  }

  // ---- finalize ----

  /** The edges of a list of targets, each through its build info, in list order. */
  function AllEdges(targets: seq<Target>): (es: seq<Edge>)
    ensures forall i :: 0 <= i < |es| ==> BuilderRule(es[i].ruleName)
    decreases |targets|
  {
    if |targets| == 0 then []
    else AllEdges(targets[..|targets| - 1]) + TargetEdges(GenerateBuildInfo(targets[|targets| - 1]))
  }

  /** One `generate_ninja_for_target` per target, in order. */
  method AddTargets(g: Generator, targets: seq<Target>) returns (r: Generator)
    ensures r.edges == g.edges + AllEdges(targets)
    ensures r.globals == g.globals && r.rules == g.rules
  {
    r := g;
    var i := 0;
    while i < |targets|
      invariant 0 <= i <= |targets|
      invariant r.edges == g.edges + AllEdges(targets[..i])
      invariant r.globals == g.globals && r.rules == g.rules
    {
      r := GenerateNinjaForTarget(r, GenerateBuildInfo(targets[i]));
      assert targets[..i + 1][..i] == targets[..i];
      i := i + 1;
    }
    assert targets[..i] == targets;
  }

  const CXX_RULE := Rule("cxx", "$cxx_compiler $cflags -MD -MF $out.d -c $in -o $out", "CXX $out", "$out.d", "gcc")
  const LINK_EXE_RULE := Rule("link_exe", "$cxx_compiler $ldflags $in -o $out", "LINK $out", "", "")
  const LINK_STATIC_LIB_RULE := Rule("link_static_lib", "$cxx_archiver rcs $out $in", "Archive $out", "", "")
  const BUILDER_GLOBALS := [Variable("cxx_compiler", "clang++"), Variable("cxx_archiver", "llvm-ar")]
  const BUILDER_RULES := [CXX_RULE, LINK_EXE_RULE, LINK_STATIC_LIB_RULE]

  /** No two rules share a name. */
  predicate DistinctRuleNames(g: Generator) {
    forall i, j :: 0 <= i < j < |g.rules| ==> g.rules[i].name != g.rules[j].name
  }

  /** Every edge names a rule the generator declares. */
  predicate EdgesUseDeclaredRules(g: Generator) {
    forall i :: 0 <= i < |g.edges| ==> exists j :: 0 <= j < |g.rules| && g.rules[j].name == g.edges[i].ruleName
  }

  /**
   The Ninja generator the `GenerateNinja` branch of `finalize` fills: the
   rules have distinct names, and every edge names one of them.
   */
  function NinjaFor(b: Builder): (g: Generator)
    ensures |g.globals| == 2 && |g.rules| == 3
    ensures DistinctRuleNames(g) && EdgesUseDeclaredRules(g)
  {
    var edges := AllEdges(b.executables) + AllEdges(b.staticLibs);
    assert forall i :: 0 <= i < |edges| ==> BuilderRule(edges[i].ruleName) by {
      forall i | 0 <= i < |edges|
        ensures BuilderRule(edges[i].ruleName)
      {
        if i >= |AllEdges(b.executables)| {
          assert edges[i] == AllEdges(b.staticLibs)[i - |AllEdges(b.executables)|];
        }
      }
    }
    var rules := BUILDER_RULES;
    assert forall i :: 0 <= i < |edges| ==> exists j :: 0 <= j < |rules| && rules[j].name == edges[i].ruleName by {
      forall i | 0 <= i < |edges|
        ensures exists j :: 0 <= j < |rules| && rules[j].name == edges[i].ruleName
      {
        var n := edges[i].ruleName;
        var j := if n == "cxx" then 0 else if n == "link_exe" then 1 else 2;
        assert rules[j].name == n;
      }
    }
    Generator(BUILDER_GLOBALS, rules, edges)
  }

  /** The `GenerateNinja` branch of `finalize`, up to the manifest. */
  method BuildGenerator(b: Builder) returns (g: Generator)
    requires WellKinded(b)
    ensures g == NinjaFor(b)
    ensures |g.edges| >= |b.executables| + |b.staticLibs|
  {
    g := Ninja.Fresh();
    g := AddGlobalVariable(g, "cxx_compiler", "clang++");
    g := AddGlobalVariable(g, "cxx_archiver", "llvm-ar");
    g := AddRule(g, CXX_RULE);
    g := AddRule(g, LINK_EXE_RULE);
    g := AddRule(g, LINK_STATIC_LIB_RULE);
    assert g == Generator(BUILDER_GLOBALS, BUILDER_RULES, []);
    g := AddTargets(g, b.executables);
    g := AddTargets(g, b.staticLibs);
    assert g.edges == AllEdges(b.executables) + AllEdges(b.staticLibs);
    AllEdgesCount(b.executables, Executable);
    AllEdgesCount(b.staticLibs, StaticLib);
  }

  /** Targets of a linked kind each add their compile edges and one link edge, so at least one edge each. */
  lemma {:induction false} AllEdgesCount(targets: seq<Target>, kind: Kind)
    requires kind == Executable || kind == StaticLib
    requires forall i :: 0 <= i < |targets| ==> targets[i].kind == kind
    ensures |AllEdges(targets)| >= |targets|
    decreases |targets|
  {
    if |targets| > 0 {
      AllEdgesCount(targets[..|targets| - 1], kind);
    }
  }

  /** The JSON object of one dependency. */
  function Entry(req: Requirement): string {
    "    { \"name\": \"" + req.name + "\", \"version\": \"" + req.version + "\" }"
  }

  function Entries(reqs: seq<Requirement>): (es: seq<string>)
    ensures |es| == |reqs|
    ensures forall i :: 0 <= i < |reqs| ==> es[i] == Entry(reqs[i])
  {
    seq(|reqs|, i requires 0 <= i < |reqs| => Entry(reqs[i]))
  }

  /** Iteration `i` of the dependency loop: the entry, a comma unless it is the last, a line break. */
  function DependencyLine(reqs: seq<Requirement>, i: nat): string
    requires i < |reqs|
  {
    Entry(reqs[i]) + (if i == |reqs| - 1 then "" else ",") + "\n"
  }

  /** The first `k` iterations of the dependency loop. */
  function DependencyLines(reqs: seq<Requirement>, k: nat): string
    requires k <= |reqs|
  {
    if k == 0 then "" else DependencyLines(reqs, k - 1) + DependencyLine(reqs, k - 1)
  }

  /** `items` with `sep` between each two neighbours and nowhere else. */
  function Separated(items: seq<string>, sep: string): string
    decreases |items|
  {
    if |items| == 0 then ""
    else if |items| == 1 then items[0]
    else Separated(items[..|items| - 1], sep) + sep + items[|items| - 1]
  }

  /** Before the last iteration, the lines so far are the entries so far, separated, with a trailing separator. */
  lemma {:induction false} DependencyLinesPrefix(reqs: seq<Requirement>, k: nat)
    requires 0 < k < |reqs|
    ensures DependencyLines(reqs, k) == Separated(Entries(reqs)[..k], ",\n") + ",\n"
    decreases k
  {
    var es := Entries(reqs);
    if k == 1 {
      assert es[..1] == [Entry(reqs[0])];
    } else {
      DependencyLinesPrefix(reqs, k - 1);
      assert es[..k][..k - 1] == es[..k - 1];
    }
  }

  /**
   The loop prints the entries separated by a comma and a line break, and a
   last line break after the final entry; nothing when there are none.
   */
  lemma DependencyLinesSeparated(reqs: seq<Requirement>)
    ensures DependencyLines(reqs, |reqs|)
            == Separated(Entries(reqs), ",\n") + (if |reqs| == 0 then "" else "\n")
  {
    if |reqs| == 1 {
      OneDependencyLine(reqs);
    } else if |reqs| > 1 {
      SeveralDependencyLines(reqs);
    }
  }

  lemma OneDependencyLine(reqs: seq<Requirement>)
    requires |reqs| == 1
    ensures DependencyLines(reqs, 1) == Separated(Entries(reqs), ",\n") + "\n"
  {
    assert DependencyLines(reqs, 1) == "" + (Entry(reqs[0]) + "" + "\n");
    assert Entries(reqs)[0] == Entry(reqs[0]);
  }

  lemma SeveralDependencyLines(reqs: seq<Requirement>)
    requires |reqs| > 1
    ensures DependencyLines(reqs, |reqs|) == Separated(Entries(reqs), ",\n") + "\n"
  {
    var n := |reqs|;
    var es := Entries(reqs);
    DependencyLinesPrefix(reqs, n - 1);
    assert es[..n - 1] == es[..|es| - 1];
    var front := Separated(es[..n - 1], ",\n");
    assert Separated(es, ",\n") == front + ",\n" + es[n - 1];
    assert DependencyLines(reqs, n) == (front + ",\n") + (Entry(reqs[n - 1]) + "" + "\n");
    LastLine(front, ",\n", Entry(reqs[n - 1]), "\n");
  }

  lemma LastLine(front: string, sep: string, entry: string, nl: string)
    ensures (front + sep) + (entry + "" + nl) == (front + sep + entry) + nl
  {
  }

  /** The metadata dump of the `DumpMetadata` branch. */
  function Metadata(b: Builder): (r: string)
    ensures StartsWith(r, "{\n" + "  \"name\": \"" + b.package.name + "\",\n")
    ensures EndsWith(r, "  ]\n" + "}\n")
  {
    var open := "{\n" + "  \"name\": \"" + b.package.name + "\",\n";
    var lines := "  \"dependencies\": [\n" + DependencyLines(b.required, |b.required|);
    var close := "  ]\n" + "}\n";
    var r := open + "  \"dependencies\": [\n" + DependencyLines(b.required, |b.required|) + "  ]\n" + "}\n";
    assert r == open + (lines + close);
    assert r == (open + lines) + close;
    StartsWithConcat(open, lines + close);
    EndsWithConcat(open + lines, close);
    r
  }

  /** The metadata is a JSON object with the package name and the comma-separated list of dependency objects. */
  lemma MetadataListsDependencies(b: Builder)
    ensures Metadata(b)
            == "{\n" + "  \"name\": \"" + b.package.name + "\",\n" + "  \"dependencies\": [\n"
               + Separated(Entries(b.required), ",\n") + (if b.required == [] then "" else "\n")
               + "  ]\n" + "}\n"
  {
    DependencyLinesSeparated(b.required);
  }

  /** The `printf` calls of the `DumpMetadata` branch, collected. */
  method PrintMetadata(b: Builder) returns (out: string)
    ensures out == Metadata(b)
  {
    out := "{\n" + "  \"name\": \"" + b.package.name + "\",\n" + "  \"dependencies\": [\n";
    ghost var head := out;
    var reqs := b.required;
    var i := 0;
    while i < |reqs|
      invariant 0 <= i <= |reqs|
      invariant out == head + DependencyLines(reqs, i)
    {
      out := out + (Entry(reqs[i]) + (if i == |reqs| - 1 then "" else ",") + "\n");
      i := i + 1;
    }
    out := out + "  ]\n" + "}\n";
  }

  datatype FinalizeOutcome = FinalizeOutcome(builder: Builder, result: VoidResult<string>, output: string)

  /** `finalize()`. */
  function Finalize(b: Builder): (o: FinalizeOutcome)
    requires WellKinded(b)
    ensures o.result.Ok?
    ensures b.mode == DumpMetadata ==> o.builder == b && o.output == Metadata(b)
    ensures b.mode == GenerateNinja ==>
              o.builder == b && o.output == "!\n" + Manifest(NinjaFor(b)) + "!\n"
    ensures b.mode == Invalid ==>
              o.builder.executables == [] && o.builder.staticLibs == []
              && o.builder.(executables := b.executables, staticLibs := b.staticLibs) == b
              && o.output == STANDALONE_NOTICE
  {
    match b.mode
    case DumpMetadata => FinalizeOutcome(b, Ok(()), Metadata(b))
    case GenerateNinja => FinalizeOutcome(b, Ok(()), "!\n" + Manifest(NinjaFor(b)) + "!\n")
    case Invalid => FinalizeOutcome(b.(executables := [], staticLibs := []), Ok(()), STANDALONE_NOTICE)
  }

  // ---- RUN_BUILDER ----

  /** What `main` did: its exit status, whether `run` was reached, what it printed, and the runtime it left. */
  datatype MainOutcome = MainOutcome(
    exitCode: int,
    ranScript: bool,
    printed: seq<string>,
    runtime: RuntimeInit.State,
    effects: seq<RuntimeInit.Effect>)

  /** The message comes back out of its error line: strip the tag and the line break. */
  function ErrorLine(message: string): (r: string)
    ensures |r| == |message| + 10
    ensures StartsWith(r, "[ERROR]: ") && r[|r| - 1] == '\n'
    ensures r[9..|r| - 1] == message
  {
    "[ERROR]: " + message + "\n"
  }

  /**
   The `main` that `RUN_BUILDER` defines, on thread `t`, given what the
   builder's `init` and `finalize` return. The main-thread guard initialises
   the runtime first and terminates it on every way out.
   */
  function RunBuilderMain(rt: RuntimeInit.State, t: RuntimeInit.ThreadId,
                          initResult: VoidResult<string>, finalizeResult: VoidResult<string>): (o: MainOutcome)
    ensures o.exitCode == 0 <==> initResult.Ok? && finalizeResult.Ok?
    ensures o.exitCode == 0 || o.exitCode == -1
    ensures o.ranScript <==> initResult.Ok?
    ensures initResult.Err? ==> o.printed == [ErrorLine(initResult.error)]
    ensures initResult.Ok? && finalizeResult.Err? ==> o.printed == [ErrorLine(finalizeResult.error)]
    ensures o.exitCode == 0 ==> o.printed == []
    ensures RuntimeInit.Count(o.runtime, t) == RuntimeInit.Count(rt, t)
    ensures RuntimeInit.Count(rt, t) == 0 ==>
              o.effects == [RuntimeInit.RpmallocInitialize, RuntimeInit.RpmallocFinalize]
  {
    var guard := RuntimeInit.InitializeMain(rt, t);
    var exit := RuntimeInit.TerminateMain(guard.state, t);
    var effects := guard.effects + exit.effects;
    if initResult.Err? then MainOutcome(-1, false, [ErrorLine(initResult.error)], exit.state, effects)
    else if finalizeResult.Err? then MainOutcome(-1, true, [ErrorLine(finalizeResult.error)], exit.state, effects)
    else MainOutcome(0, true, [], exit.state, effects)
  }

  /**
   A build script that keeps the base `init` and `finalize` always runs and
   exits with 0, printing no error, whatever the arguments and whatever the
   script adds.
   */
  lemma BaseBuilderExitsZero(rt: RuntimeInit.State, t: RuntimeInit.ThreadId, args: seq<string>,
                             script: Builder -> Builder)
    requires |args| < 0x8000_0000
    requires forall b :: WellKinded(b) ==> WellKinded(script(b))
    ensures var afterInit := Init(Fresh(), args);
            var o := RunBuilderMain(rt, t, afterInit.1, Finalize(script(afterInit.0)).result);
            o.exitCode == 0 && o.ranScript && o.printed == []
  {
  }
}
