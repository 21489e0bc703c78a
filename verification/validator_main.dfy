/**
 The validator's command-line driver (`Validator/Src/cpp/Main.cpp`): the
 usage check, the search for an explicit Clang resource directory, the
 trimming of `clang -print-resource-dir` output, and the argument adjuster
 that rewrites every compile command before Clang sees it.

 Running `clang` through `popen`, the option parser and the tool run itself
 are foreign: the output of the `clang` process is a parameter.
 */
module ValidatorMain {
  import opened Common
  import CfgAst

  // ---------------------------------------------------------------------------
  // Resource-directory detection
  // ---------------------------------------------------------------------------

  /** An argument that already points the compiler at Clang's own include directory. */
  predicate MentionsResourceDir(arg: string) {
    Occurs(arg, "-I") && Occurs(arg, "clang") && Occurs(arg, "include")
  }

  /** Some argument (the program name included) mentions the resource directory. */
  predicate AnyMentionsResourceDir(argv: seq<string>) {
    exists i :: 0 <= i < |argv| && MentionsResourceDir(argv[i])
  }

  /** The scan over `argv[0..argc)` that stops at the first argument naming the resource directory. */
  method HasResourceArg(argv: seq<string>) returns (found: bool, at: nat)
    ensures found <==> AnyMentionsResourceDir(argv)
    ensures found ==> at < |argv| && MentionsResourceDir(argv[at])
    ensures found ==> forall j :: 0 <= j < at ==> !MentionsResourceDir(argv[j])
  {
    found, at := false, 0;
    var i := 0;
    while i < |argv|
      invariant 0 <= i <= |argv|
      invariant forall j :: 0 <= j < i ==> !MentionsResourceDir(argv[j])
    {
      if MentionsResourceDir(argv[i]) {
        found, at := true, i;
        return;
      }
      i := i + 1;
    }
  }

  // ---------------------------------------------------------------------------
  // Trimming the resource directory
  // ---------------------------------------------------------------------------

  predicate IsLineEnd(c: char) {
    c == '\n' || c == '\r'
  }

  /**
   The `pop_back` loop after reading the `clang` output: every trailing
   newline and carriage return goes, nothing else does.
   */
  method TrimTrailingNewlines(s: string) returns (r: string)
    ensures StartsWith(s, r)
    ensures |r| == 0 || !IsLineEnd(r[|r| - 1])
    ensures forall i :: |r| <= i < |s| ==> IsLineEnd(s[i])
  {
    var n := |s|;
    while n > 0 && IsLineEnd(s[n - 1])
      invariant 0 <= n <= |s|
      invariant forall i :: n <= i < |s| ==> IsLineEnd(s[i])
    {
      n := n - 1;
    }
    r := s[..n];
  }

  /** Two strings that both satisfy the trimming contract for `s` are equal: the contract pins the result down. */
  lemma {:induction false} TrimIsUnique(s: string, a: string, b: string)
    requires StartsWith(s, a) && (|a| == 0 || !IsLineEnd(a[|a| - 1])) && forall i :: |a| <= i < |s| ==> IsLineEnd(s[i])
    requires StartsWith(s, b) && (|b| == 0 || !IsLineEnd(b[|b| - 1])) && forall i :: |b| <= i < |s| ==> IsLineEnd(s[i])
    ensures a == b
  {
  }

  /** `get_clang_resource_dir`: `None` for the `clang` output means `popen` failed. */
  function ResourceDir(clangOutput: CfgAst.Option<string>): (r: Result)
    ensures r.Err? <==> clangOutput.None?
    ensures r.Err? ==> r.message == NO_CLANG
    ensures r.Ok? ==> r.value == TrimmedText(clangOutput.value) + "/include"
  {
    match clangOutput
    case None => Err(NO_CLANG)
    case Some(text) => Ok(TrimmedText(text) + "/include")
  }

  /** The trimmed text, as a function (the method above computes the same string). */
  function TrimmedText(s: string): (r: string)
    ensures StartsWith(s, r)
    ensures |r| == 0 || !IsLineEnd(r[|r| - 1])
    ensures forall i :: |r| <= i < |s| ==> IsLineEnd(s[i])
    decreases |s|
  {
    if |s| > 0 && IsLineEnd(s[|s| - 1]) then
      var t := TrimmedText(s[..|s| - 1]);
      assert s[..|s| - 1][..|t|] == s[..|t|];
      t
    else s
  }

  /** The loop and the recursive definition agree on every input. */
  method TrimAgrees(s: string) returns (r: string)
    ensures r == TrimmedText(s)
  {
    r := TrimTrailingNewlines(s);
    TrimIsUnique(s, r, TrimmedText(s));
  }

  datatype Result = Ok(value: string) | Err(message: string)

  const NO_CLANG: string := "Error: 'clang' executable " + "not found in PATH."

  // ---------------------------------------------------------------------------
  // main
  // ---------------------------------------------------------------------------

  /** How `main` ends before handing over to the option parser, or the argument vector it hands over. */
  datatype Outcome =
    | Usage(text: string)
    | ResourceError(message: string)
    | Run(argv: seq<string>)

  const EXTRA_ARG: string := "--extra-arg=-I"

  /**
   `main` up to the creation of the option parser. `clangOutput` is what
   `clang -print-resource-dir` printed, or `None` when it could not be started;
   it is only consulted when no argument names the resource directory.
   */
  function MainOutcome(argv: seq<string>, clangOutput: CfgAst.Option<string>): (r: Outcome)
    ensures r.Usage? <==> |argv| < 2
    ensures |argv| == 1 ==> r == Usage("Usage: " + argv[0] + " <file.cpp> [options]\n")
    ensures r.ResourceError? <==> |argv| >= 2 && !AnyMentionsResourceDir(argv) && clangOutput.None?
    ensures r.Run? ==> StartsWith(r.argv, argv)
    ensures r.Run? && AnyMentionsResourceDir(argv) ==> r.argv == argv
    ensures r.Run? && !AnyMentionsResourceDir(argv) ==>
      clangOutput.Some? && r.argv == argv + [EXTRA_ARG + TrimmedText(clangOutput.value) + "/include"]
  {
    if |argv| < 2 then
      Usage("Usage: " + (if |argv| == 0 then "" else argv[0]) + " <file.cpp> [options]\n")
    else if AnyMentionsResourceDir(argv) then
      StartsWithConcat(argv, []);
      assert argv + [] == argv;
      Run(argv)
    else
      match ResourceDir(clangOutput)
      case Err(message) => ResourceError(message)
      case Ok(dir) =>
        assert EXTRA_ARG + dir == EXTRA_ARG + TrimmedText(clangOutput.value) + "/include";
        StartsWithConcat(argv, [EXTRA_ARG + dir]);
        Run(argv + [EXTRA_ARG + dir])
  }

  /** The exit status `main` returns on the paths it decides itself. */
  function ExitStatus(o: Outcome): (r: CfgAst.Option<int>)
    ensures r.None? <==> o.Run?
    ensures r.Some? ==> r.value == 1
  {
    if o.Run? then CfgAst.None else CfgAst.Some(1)
  }

  /** The resource argument is added exactly once: running the driver on its own output adds nothing more. */
  lemma {:induction false} ExtraArgAddedOnce(argv: seq<string>, clangOutput: CfgAst.Option<string>)
    requires MainOutcome(argv, clangOutput).Run?
    requires clangOutput.Some? ==> Occurs(clangOutput.value, "clang")
    ensures MainOutcome(MainOutcome(argv, clangOutput).argv, clangOutput) == MainOutcome(argv, clangOutput)
  {
    var out := MainOutcome(argv, clangOutput).argv;
    if !AnyMentionsResourceDir(argv) {
      var text := clangOutput.value;
      var arg := EXTRA_ARG + TrimmedText(text) + "/include";
      assert out[|argv|] == arg;
      ArgNamesResourceDir(text);
      assert MentionsResourceDir(out[|argv|]);
      assert AnyMentionsResourceDir(out);
    }
  }

  /** The argument built from a resource directory that mentions `clang` names the resource directory. */
  lemma {:induction false} ArgNamesResourceDir(text: string)
    requires Occurs(text, "clang")
    ensures MentionsResourceDir(EXTRA_ARG + TrimmedText(text) + "/include")
  {
    var t := TrimmedText(text);
    assert OccursAt(EXTRA_ARG, "-I", 12);
    OccursRight(EXTRA_ARG, t, "-I");
    OccursRight(EXTRA_ARG + t, "/include", "-I");
    assert OccursAt("/include", "include", 1);
    OccursLeft(EXTRA_ARG + t, "/include", "include");
    ClangSurvivesTrim(text);
    OccursLeft(EXTRA_ARG, t, "clang");
    OccursRight(EXTRA_ARG + t, "/include", "clang");
  }

  /** `clang` survives the trim, because the trim only drops line ends. */
  lemma {:induction false} ClangSurvivesTrim(text: string)
    requires Occurs(text, "clang")
    ensures Occurs(TrimmedText(text), "clang")
  {
    var t := TrimmedText(text);
    var i :| 0 <= i <= |text| - 5 && OccursAt(text, "clang", i);
    assert text[i..i + 5][4] == text[i + 4] == 'g';
    assert i + 5 <= |t|;
    assert t[i..i + 5] == text[i..i + 5];
    assert OccursAt(t, "clang", i);
  }

  lemma {:induction false} OccursLeft(a: string, s: string, x: string)
    requires Occurs(s, x)
    ensures Occurs(a + s, x)
  {
    var i :| 0 <= i <= |s| - |x| && OccursAt(s, x, i);
    assert (a + s)[|a| + i..|a| + i + |x|] == s[i..i + |x|];
    assert OccursAt(a + s, x, |a| + i);
  }

  lemma {:induction false} OccursRight(s: string, b: string, x: string)
    requires Occurs(s, x)
    ensures Occurs(s + b, x)
  {
    var i :| 0 <= i <= |s| - |x| && OccursAt(s, x, i);
    assert (s + b)[i..i + |x|] == s[i..i + |x|];
    assert OccursAt(s + b, x, i);
  }

  // ---------------------------------------------------------------------------
  // The argument adjuster
  // ---------------------------------------------------------------------------

  const NO_IGNORED_GCH: string := "-Wno-ignored-gch"
  const NO_UNUSED_ARG: string := "-Wno-unused-command-line-argument"

  /** The two precompiled-header flags that are dropped together with their operand. */
  predicate IsPchFlag(a: string) {
    a == "-include-pch" || a == "-pch-is-pch"
  }

  /** A response-file argument. */
  predicate IsResponseFile(a: string) {
    StartsWith(a, "@")
  }

  /** What the adjuster keeps of the arguments after the compiler name, as a recursive definition. */
  function Filtered(rest: seq<string>): (r: seq<string>)
    ensures |r| <= |rest|
    decreases |rest|
  {
    if |rest| == 0 then []
    else if IsPchFlag(rest[0]) then (if |rest| >= 2 then Filtered(rest[2..]) else [])
    else if IsResponseFile(rest[0]) then Filtered(rest[1..])
    else [rest[0]] + Filtered(rest[1..])
  }

  /** The adjuster's output: the compiler name (if any), the two warning switches, the filtered rest. */
  function Adjusted(args: seq<string>): (r: seq<string>)
    ensures |r| <= |args| + 2
  {
    (if |args| > 0 then [args[0]] else []) + [NO_IGNORED_GCH, NO_UNUSED_ARG]
      + (if |args| > 0 then Filtered(args[1..]) else [])
  }

  /** `args[i..]`, empty once `i` has stepped past the end (the loop's `i++` can do that). */
  function From(args: seq<string>, i: nat): seq<string> {
    if i <= |args| then args[i..] else []
  }

  /** The adjuster lambda as the source writes it: one index, a skip over a flag's operand, two `continue`s. */
  method AdjustArgs(args: seq<string>) returns (out: seq<string>)
    ensures out == Adjusted(args)
  {
    out := [];
    if |args| > 0 {
      out := out + [args[0]];
    }
    out := out + [NO_IGNORED_GCH];
    out := out + [NO_UNUSED_ARG];
    var i := 1;
    while i < |args|
      invariant 1 <= i <= |args| + 1
      invariant out + Filtered(From(args, i)) == Adjusted(args)
      decreases |args| + 1 - i
    {
      if IsPchFlag(args[i]) {
        assert From(args, i + 2) == (if |args[i..]| >= 2 then args[i..][2..] else []);
        i := i + 1;
        i := i + 1;
        continue;
      }
      assert args[i..][1..] == args[i + 1..];
      if IsResponseFile(args[i]) {
        i := i + 1;
        continue;
      }
      out := out + [args[i]];
      i := i + 1;
    }
  }

  /** The output opens with the compiler name when there is one, then the two warning switches. */
  lemma {:induction false} AdjustedHeader(args: seq<string>)
    ensures |args| > 0 ==> Adjusted(args)[0] == args[0] && Adjusted(args)[1..3] == [NO_IGNORED_GCH, NO_UNUSED_ARG]
    ensures |args| == 0 ==> Adjusted(args) == [NO_IGNORED_GCH, NO_UNUSED_ARG]
  {
  }

  /** Every kept argument is one of the inputs, is not a precompiled-header flag and is not a response file. */
  lemma {:induction false} FilteredKeepsOnlyPlainArgs(rest: seq<string>)
    ensures forall x :: x in Filtered(rest) ==> x in rest && !IsPchFlag(x) && !IsResponseFile(x)
    decreases |rest|
  {
    if |rest| == 0 {
    } else if IsPchFlag(rest[0]) {
      if |rest| >= 2 {
        FilteredKeepsOnlyPlainArgs(rest[2..]);
        assert forall x :: x in rest[2..] ==> x in rest;
      }
    } else {
      FilteredKeepsOnlyPlainArgs(rest[1..]);
      assert forall x :: x in rest[1..] ==> x in rest;
    }
  }

  /** Reference filter: drop response files only, keep the rest in order. */
  function WithoutResponseFiles(rest: seq<string>): seq<string>
    decreases |rest|
  {
    if |rest| == 0 then []
    else if IsResponseFile(rest[0]) then WithoutResponseFiles(rest[1..])
    else [rest[0]] + WithoutResponseFiles(rest[1..])
  }

  /** Without precompiled-header flags, the adjuster drops exactly the response files and keeps the order. */
  lemma {:induction false} FilteredWithoutPch(rest: seq<string>)
    requires forall j :: 0 <= j < |rest| ==> !IsPchFlag(rest[j])
    ensures Filtered(rest) == WithoutResponseFiles(rest)
    decreases |rest|
  {
    if |rest| > 0 {
      FilteredWithoutPch(rest[1..]);
    }
  }

  /**
   A precompiled-header flag takes exactly one following argument with it,
   whatever that argument is; what comes before and after is filtered as if
   the pair were not there.
   */
  lemma {:induction false} PchPairDropped(pre: seq<string>, flag: string, operand: string, post: seq<string>)
    requires forall j :: 0 <= j < |pre| ==> !IsPchFlag(pre[j])
    requires IsPchFlag(flag)
    ensures Filtered(pre + [flag, operand] + post) == Filtered(pre) + Filtered(post)
    decreases |pre|
  {
    var all := pre + [flag, operand] + post;
    if |pre| == 0 {
      assert all == [flag, operand] + post;
      assert all[2..] == post;
    } else {
      assert all[1..] == pre[1..] + [flag, operand] + post;
      PchPairDropped(pre[1..], flag, operand, post);
    }
  }

  /** A trailing precompiled-header flag with no operand is dropped alone. */
  lemma {:induction false} TrailingPchFlagDropped(pre: seq<string>, flag: string)
    requires forall j :: 0 <= j < |pre| ==> !IsPchFlag(pre[j])
    requires IsPchFlag(flag)
    ensures Filtered(pre + [flag]) == Filtered(pre)
    decreases |pre|
  {
    if |pre| == 0 {
      assert pre + [flag] == [flag];
    } else {
      assert (pre + [flag])[1..] == pre[1..] + [flag];
      TrailingPchFlagDropped(pre[1..], flag);
    }
  }
}
