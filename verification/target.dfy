/**
 Build targets (`libauxid/include/auxid/builder/target.hpp`): one class per
 kind, each holding a name and six string lists that the build script fills
 through the `add_*` calls, and `generate_build_info`, which copies them out.

 The five classes differ only in their `TARGET_KIND`, so one datatype with a
 `kind` field stands for all of them; no operation changes it. The class has
 no setter for `m_name`, so a target's name stays the empty string it was
 constructed with.
 */
module Target {

  datatype Kind = Interface | Executable | StaticLib | SharedLib | ObjectSet

  /** The six lists, named so that one `add_*` call can be stated once for all. */
  datatype ListField = Sources | IncludeDirs | LibraryDirs | CompileFlags | LinkFlags | LinkedPackages

  datatype Target = Target(
    kind: Kind,
    name: string,
    sources: seq<string>,
    includeDirs: seq<string>,
    libraryDirs: seq<string>,
    compileFlags: seq<string>,
    linkFlags: seq<string>,
    linkedPackages: seq<string>)

  /** `AuxidTargetBuildInfo`. */
  datatype BuildInfo = BuildInfo(
    name: string,
    kind: Kind,
    sources: seq<string>,
    includeDirs: seq<string>,
    libraryDirs: seq<string>,
    compileFlags: seq<string>,
    linkFlags: seq<string>,
    linkedPackages: seq<string>)

  function Get(t: Target, f: ListField): seq<string> {
    match f
    case Sources => t.sources
    case IncludeDirs => t.includeDirs
    case LibraryDirs => t.libraryDirs
    case CompileFlags => t.compileFlags
    case LinkFlags => t.linkFlags
    case LinkedPackages => t.linkedPackages
  }

  function InfoGet(b: BuildInfo, f: ListField): seq<string> {
    match f
    case Sources => b.sources
    case IncludeDirs => b.includeDirs
    case LibraryDirs => b.libraryDirs
    case CompileFlags => b.compileFlags
    case LinkFlags => b.linkFlags
    case LinkedPackages => b.linkedPackages
  }

  /** A default-constructed target of the given class. */
  function New(kind: Kind): (t: Target)
    ensures t.kind == kind && t.name == ""
    ensures forall f :: Get(t, f) == []
  {
    Target(kind, "", [], [], [], [], [], [])
  }

  /** The target with one list replaced. */
  function WithField(t: Target, f: ListField, values: seq<string>): (r: Target)
    ensures Get(r, f) == values
    ensures forall g :: g != f ==> Get(r, g) == Get(t, g)
    ensures r.kind == t.kind && r.name == t.name
  {
    match f
    case Sources => t.(sources := values)
    case IncludeDirs => t.(includeDirs := values)
    case LibraryDirs => t.(libraryDirs := values)
    case CompileFlags => t.(compileFlags := values)
    case LinkFlags => t.(linkFlags := values)
    case LinkedPackages => t.(linkedPackages := values)
  }

  /** The target after `values` were pushed onto list `f`. */
  function Appended(t: Target, f: ListField, values: seq<string>): Target {
    WithField(t, f, Get(t, f) + values)
  }

  /**
   `add_sources`, `add_include_dirs`, `add_library_dirs`, `add_compile_flags`
   and `add_link_flags`: push each value in turn. The `reserve` beforehand
   only sizes the buffer.
   */
  method AddValues(t: Target, f: ListField, values: seq<string>) returns (r: Target)
    ensures Get(r, f) == Get(t, f) + values
    ensures forall g :: g != f ==> Get(r, g) == Get(t, g)
    ensures r.kind == t.kind && r.name == t.name
    ensures r == Appended(t, f, values)
  {
    r := t;
    var i := 0;
    while i < |values|
      invariant 0 <= i <= |values|
      invariant r == Appended(t, f, values[..i])
    {
      assert Get(t, f) + values[..i + 1] == Get(t, f) + values[..i] + [values[i]];
      r := WithField(r, f, Get(r, f) + [values[i]]);
      i := i + 1;
    }
    assert values[..i] == values;
  }

  /** `link_package(name)`. */
  function LinkPackage(t: Target, pkg: string): (r: Target)
    ensures r.linkedPackages == t.linkedPackages + [pkg]
    ensures forall g :: g != LinkedPackages ==> Get(r, g) == Get(t, g)
    ensures r.kind == t.kind && r.name == t.name
  {
    t.(linkedPackages := t.linkedPackages + [pkg])
  }

  /** `generate_build_info()`. */
  function GenerateBuildInfo(t: Target): (b: BuildInfo)
    ensures b.name == t.name && b.kind == t.kind
    ensures forall f :: InfoGet(b, f) == Get(t, f)
  {
    BuildInfo(t.name, t.kind, t.sources, t.includeDirs, t.libraryDirs, t.compileFlags, t.linkFlags, t.linkedPackages)
  }

  /** One call a build script makes on a target: an `add_*` with its values, or `link_package`. */
  datatype Edit = Add(field: ListField, values: seq<string>) | Link(pkg: string)

  function ApplyEdit(t: Target, e: Edit): Target {
    match e
    case Add(f, values) => Appended(t, f, values)
    case Link(pkg) => LinkPackage(t, pkg)
  }

  lemma ApplyEditGet(t: Target, e: Edit, f: ListField)
    ensures Get(ApplyEdit(t, e), f) == Get(t, f) + Contribution(e, f)
    ensures ApplyEdit(t, e).kind == t.kind && ApplyEdit(t, e).name == t.name
  {
  }

  function ApplyEdits(t: Target, edits: seq<Edit>): Target
    decreases |edits|
  {
    if |edits| == 0 then t else ApplyEdits(ApplyEdit(t, edits[0]), edits[1..])
  }

  /** What edit `e` adds to list `f`. */
  function Contribution(e: Edit, f: ListField): seq<string> {
    match e
    case Add(g, values) => if g == f then values else []
    case Link(pkg) => if f == LinkedPackages then [pkg] else []
  }

  /** Everything the edits add to list `f`, in order. */
  function Collected(edits: seq<Edit>, f: ListField): seq<string>
    decreases |edits|
  {
    if |edits| == 0 then [] else Contribution(edits[0], f) + Collected(edits[1..], f)
  }

  lemma {:induction false} ApplyEditsCollects(t: Target, edits: seq<Edit>, f: ListField)
    ensures Get(ApplyEdits(t, edits), f) == Get(t, f) + Collected(edits, f)
    ensures ApplyEdits(t, edits).kind == t.kind && ApplyEdits(t, edits).name == t.name
    decreases |edits|
  {
    if |edits| > 0 {
      var t1 := ApplyEdit(t, edits[0]);
      ApplyEditGet(t, edits[0], f);
      ApplyEditsCollects(t1, edits[1..], f);
      calc {
        Get(ApplyEdits(t, edits), f);
        Get(ApplyEdits(t1, edits[1..]), f);
        Get(t1, f) + Collected(edits[1..], f);
        (Get(t, f) + Contribution(edits[0], f)) + Collected(edits[1..], f);
        Get(t, f) + (Contribution(edits[0], f) + Collected(edits[1..], f));
      }
    }
  }

  /**
   Whatever a build script adds to a new target, its build info has the
   class's kind, the empty name, and in each list exactly what was added to
   that list, in order.
   */
  lemma BuildInfoAfterAdds(kind: Kind, edits: seq<Edit>)
    ensures var b := GenerateBuildInfo(ApplyEdits(New(kind), edits));
            b.kind == kind && b.name == "" && forall f :: InfoGet(b, f) == Collected(edits, f)
  {
    forall f
      ensures Get(ApplyEdits(New(kind), edits), f) == Collected(edits, f)
    {
      ApplyEditsCollects(New(kind), edits, f);
    }
    ApplyEditsCollects(New(kind), edits, Sources);
  }
}
