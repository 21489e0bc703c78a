/**
 The `auxid` command line after option parsing (`toolchain/auxid/cpp/cli.cpp`):
 `CLI::parse` takes the words argparse leaves (it stops at the first
 non-option), dispatches on the first one, stores the rest as the command's
 arguments and checks their number; `CLI::get_arg` reads one back.

 What argparse itself does with options (`--help`) is not modelled: the
 model starts from the words it leaves.
 */
module Cli {
  import opened Common
  import opened AuResult

  datatype Command =
    | WorkspaceNew
    | WorkspaceBuild
    | WorkspaceClean
    | WorkspaceRepair
    | PackageInstall
    | PackageInstallAll
    | PackageRemove
    | PackageUpdate

  /** The parser object: just `m_args`. */
  datatype Cli = Cli(args: seq<string>)

  const NO_COMMAND := "no command provided. Run 'auxid --help' for usage."
  const NEW_ARITY := "'new' requires exactly 1 argument <name>"
  const BUILD_ARITY := "'build' takes no arguments"
  const CLEAN_ARITY := "'clean' takes no arguments"
  const REPAIR_ARITY := "'repair' takes no arguments"
  const INSTALL_ARITY := "'install' takes 0 or 1 argument <pkg_name>"
  const REMOVE_ARITY := "'remove' requires exactly 1 argument <pkg_name>"
  const UPDATE_ARITY := "'update' requires exactly 1 argument <pkg_name>"

  /** `"unknown command: '%s'"` formatted with the word. */
  function UnknownCommand(cmd: string): string {
    "unknown command: '" + cmd + "'"
  }

  /** The command words `parse` recognises. */
  predicate IsKnown(cmd: string) {
    cmd in {"new", "build", "clean", "repair", "install", "remove", "update"}
  }

  /** How many arguments each known command accepts. */
  predicate AcceptsArity(cmd: string, n: nat) {
    match cmd
    case "new" => n == 1
    case "remove" => n == 1
    case "update" => n == 1
    case "install" => n <= 1
    case _ => n == 0
  }

  /** The dispatch on the command word once `m_args` holds the rest. */
  function Dispatch(cmd: string, n: nat): (r: Result<Command, string>)
    ensures r.Ok? <==> IsKnown(cmd) && AcceptsArity(cmd, n)
    ensures r.Ok? ==> Word(r.value) == cmd
    ensures cmd == "install" && r.Ok? ==> (r.value == PackageInstallAll <==> n == 0)
    ensures !IsKnown(cmd) ==> r == Err(UnknownCommand(cmd))
  {
    if cmd == "new" then (if n != 1 then Err(NEW_ARITY) else Ok(WorkspaceNew))
    else if cmd == "build" then (if n > 0 then Err(BUILD_ARITY) else Ok(WorkspaceBuild))
    else if cmd == "clean" then (if n > 0 then Err(CLEAN_ARITY) else Ok(WorkspaceClean))
    else if cmd == "repair" then (if n > 0 then Err(REPAIR_ARITY) else Ok(WorkspaceRepair))
    else if cmd == "install" then
      (if n == 0 then Ok(PackageInstallAll) else if n == 1 then Ok(PackageInstall) else Err(INSTALL_ARITY))
    else if cmd == "remove" then (if n != 1 then Err(REMOVE_ARITY) else Ok(PackageRemove))
    else if cmd == "update" then (if n != 1 then Err(UPDATE_ARITY) else Ok(PackageUpdate))
    else Err(UnknownCommand(cmd))
  }

  /** The word each command is selected by. */
  function Word(c: Command): string {
    match c
    case WorkspaceNew => "new"
    case WorkspaceBuild => "build"
    case WorkspaceClean => "clean"
    case WorkspaceRepair => "repair"
    case PackageInstall => "install"
    case PackageInstallAll => "install"
    case PackageRemove => "remove"
    case PackageUpdate => "update"
  }

  /**
   `CLI::parse`, from the words argparse leaves. With none left it fails
   before touching `m_args`; otherwise `m_args` becomes the words after the
   command, and the command is checked against their number.
   */
  function Parse(cli: Cli, words: seq<string>): (r: (Cli, Result<Command, string>))
    ensures |words| == 0 ==> r == (cli, Err(NO_COMMAND))
    ensures |words| > 0 ==> r.0.args == words[1..]
    ensures |words| > 0 ==> (r.1.Ok? <==> IsKnown(words[0]) && AcceptsArity(words[0], |words| - 1))
    ensures r.1.Ok? ==> Word(r.1.value) == words[0]
    ensures |words| > 0 && !IsKnown(words[0]) ==> r.1 == Err(UnknownCommand(words[0]))
  {
    if |words| == 0 then (cli, Err(NO_COMMAND))
    else
      var cmd := words[0];
      var stored := Cli(words[1..]);
      (stored, Dispatch(cmd, |stored.args|))
  }

  /** `%d`: an optional minus sign, then the decimal digits of the magnitude. */
  function SignedDecimal(i: int): (s: string)
    ensures |s| >= 1
    ensures s[0] == '-' <==> i < 0
  {
    if i < 0 then "-" + Decimal(-i) else Decimal(i)
  }

  predicate IsI32(i: int) {
    -0x8000_0000 <= i < 0x8000_0000
  }

  /** `CLI::get_arg(index)`. */
  function GetArg(cli: Cli, index: int): (r: Result<string, string>)
    requires IsI32(index)
    ensures r.Ok? <==> 0 <= index < |cli.args|
    ensures r.Ok? ==> r.value == cli.args[index]
    ensures r.Err? ==> r.error == "argument index " + SignedDecimal(index) + " is out of bounds"
  {
    if index < 0 || index >= |cli.args| then Err("argument index " + SignedDecimal(index) + " is out of bounds")
    else Ok(cli.args[index])
  }

  /** After a parse, `get_arg` gives back exactly the words after the command, in order, and nothing beyond. */
  lemma ParsedArgumentsRoundTrip(cli: Cli, words: seq<string>, i: int)
    requires |words| > 0 && IsI32(i)
    ensures var parsed := Parse(cli, words).0;
            (0 <= i < |words| - 1 ==> GetArg(parsed, i) == Ok(words[i + 1]))
            && (i < 0 || i >= |words| - 1 ==> GetArg(parsed, i).Err?)
  {
  }

  /** `new`, `remove` and `update` with one argument parse, and that argument reads back at index 0. */
  lemma SingleArgumentCommands(cli: Cli, cmd: string, arg: string)
    requires cmd == "new" || cmd == "remove" || cmd == "update"
    ensures var r := Parse(cli, [cmd, arg]);
            r.1.Ok? && Word(r.1.value) == cmd && GetArg(r.0, 0) == Ok(arg)
  {
    assert [cmd, arg][1..] == [arg];
  }

  /** `install` chooses by argument count alone: none installs all, one installs one, more fails. */
  lemma InstallArity(cli: Cli, rest: seq<string>)
    ensures |rest| == 0 ==> Parse(cli, ["install"] + rest).1 == Ok(PackageInstallAll)
    ensures |rest| == 1 ==> Parse(cli, ["install"] + rest).1 == Ok(PackageInstall)
    ensures |rest| >= 2 ==> Parse(cli, ["install"] + rest).1 == Err(INSTALL_ARITY)
  {
    assert (["install"] + rest)[0] == "install";
    assert (["install"] + rest)[1..] == rest;
  }
}
