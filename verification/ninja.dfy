/**
 The Ninja manifest generator (`libauxid/src/hpp/builder/ninja_generator.hpp`,
 `libauxid/src/cpp/builder/ninja_generator.cpp`): three append-only lists
 (global variables, rules, build edges) and `generate_manifest`, which prints
 them in that order after the version header.

 The text of each part is given once, as a function over the lists (`Join`
 of a per-item text); the loops of `generate_manifest` are methods proved to
 build exactly that text.
 */
module Ninja {

  datatype Variable = Variable(key: string, value: string)

  /** `NinjaRule`: the three optional fields are printed only when non-empty. */
  datatype Rule = Rule(name: string, command: string, description: string, depfile: string, deps: string)

  /** `NinjaBuildEdge`. `implicitInputs` is carried but never printed. */
  datatype Edge = Edge(
    ruleName: string,
    outputs: seq<string>,
    inputs: seq<string>,
    implicitInputs: seq<string>,
    variables: seq<Variable>)

  datatype Generator = Generator(globals: seq<Variable>, rules: seq<Rule>, edges: seq<Edge>)

  const HEADER := "ninja_required_version = 1.5\n\n"

  /** The texts of `items`, one after the other, in order. */
  function Join<T>(items: seq<T>, f: T -> string): string
    decreases |items|
  {
    if |items| == 0 then "" else Join(items[..|items| - 1], f) + f(items[|items| - 1])
  }

  /** Appending one item to a loop's list appends exactly its text. */
  lemma {:induction false} JoinAppend<T>(items: seq<T>, x: T, f: T -> string)
    ensures Join(items + [x], f) == Join(items, f) + f(x)
  {
    assert (items + [x])[..|items|] == items;
  }

  /** One more turn of a loop that appends to `out`: the text so far grows by the next item's text. */
  lemma {:induction false} JoinStep<T>(out: string, done: string, items: seq<T>, i: nat, f: T -> string)
    requires i < |items|
    requires done == out + Join(items[..i], f)
    ensures done + f(items[i]) == out + Join(items[..i + 1], f)
  {
    assert items[..i + 1] == items[..i] + [items[i]];
    JoinAppend(items[..i], items[i], f);
  }

  /** One `key = value` line of the globals section. */
  function GlobalLine(v: Variable): string {
    v.key + " = " + v.value + "\n"
  }

  /** One indented `key = value` line under a build edge. */
  function EdgeVariableLine(v: Variable): string {
    "  " + v.key + " = " + v.value + "\n"
  }

  /** A path followed by the single space that separates it from the next. */
  function Spaced(s: string): string {
    s + " "
  }

  /** The line `prefix value`, or nothing when the value is empty. */
  function OptionalLine(prefix: string, value: string): string {
    if value == "" then "" else prefix + value + "\n"
  }

  /**
   The text of one rule: its `rule` line and `command` line come first, and
   every line, the last included, ends in a line break.
   */
  function RuleText(r: Rule): (t: string)
    ensures |t| > 0 && t[|t| - 1] == '\n'
    ensures "rule " + r.name + "\n" + "  command = " + r.command + "\n" <= t
  {
    "rule " + r.name + "\n" + "  command = " + r.command + "\n"
    + OptionalLine("  description = ", r.description)
    + OptionalLine("  depfile = ", r.depfile)
    + OptionalLine("  deps = ", r.deps)
  }

  /** The text of one build edge: it starts with `build ` and ends with a line break. */
  function EdgeText(e: Edge): (t: string)
    ensures |t| > 6 && t[..6] == "build " && t[|t| - 1] == '\n'
  {
    "build " + Join(e.outputs, Spaced) + ": " + e.ruleName + " " + Join(e.inputs, Spaced) + "\n"
    + Join(e.variables, EdgeVariableLine)
  }

  /** The whole manifest: header, globals, a blank line, rules, a blank line, edges. */
  function Manifest(g: Generator): (t: string)
    ensures |t| > |HEADER| && t[..|HEADER|] == HEADER && t[|t| - 1] == '\n'
    ensures g.rules == [] && g.edges == [] ==> t == HEADER + Join(g.globals, GlobalLine) + "\n\n"
  {
    HEADER + Join(g.globals, GlobalLine) + "\n" + Join(g.rules, RuleText) + "\n" + Join(g.edges, EdgeText)
  }

  /** A generator with nothing added. */
  function Fresh(): (g: Generator)
    ensures g.globals == [] && g.rules == [] && g.edges == []
    ensures Manifest(g) == "ninja_required_version = 1.5\n\n\n\n"
  {
    Generator([], [], [])
  }

  /** `add_global_variable(key, value)`. */
  function AddGlobalVariable(g: Generator, key: string, value: string): (r: Generator)
    ensures r.globals == g.globals + [Variable(key, value)]
    ensures r.rules == g.rules && r.edges == g.edges
  {
    g.(globals := g.globals + [Variable(key, value)])
  }

  /** `add_rule(rule)`. */
  function AddRule(g: Generator, rule: Rule): (r: Generator)
    ensures r.rules == g.rules + [rule]
    ensures r.globals == g.globals && r.edges == g.edges
  {
    g.(rules := g.rules + [rule])
  }

  /** `add_edge(edge)`. */
  function AddEdge(g: Generator, edge: Edge): (r: Generator)
    ensures r.edges == g.edges + [edge]
    ensures r.globals == g.globals && r.rules == g.rules
  {
    g.(edges := g.edges + [edge])
  }

  /** The loop over the global variables, appending to `out`. */
  method GlobalsText(out: string, globals: seq<Variable>) returns (r: string)
    ensures r == out + Join(globals, GlobalLine)
  {
    r := out;
    var i := 0;
    while i < |globals|
      invariant 0 <= i <= |globals|
      invariant r == out + Join(globals[..i], GlobalLine)
    {
      var v := globals[i];
      JoinStep(out, r, globals, i, GlobalLine);
      r := r + (v.key + " = " + v.value + "\n");
      i := i + 1;
    }
    assert globals[..i] == globals;
  }

  /** The three `if (!field.empty())` blocks of the rule loop. */
  method AppendOptional(out: string, prefix: string, value: string) returns (r: string)
    ensures r == out + OptionalLine(prefix, value)
    ensures value == "" <==> r == out
  {
    r := out;
    if value != "" {
      r := r + prefix + value + "\n";
    }
  }

  /** The body of the rule loop: one rule appended to `out`. */
  method AppendRule(out: string, rule: Rule) returns (r: string)
    ensures r == out + RuleText(rule)
  {
    var text := "rule " + rule.name + "\n" + "  command = " + rule.command + "\n";
    text := AppendOptional(text, "  description = ", rule.description);
    text := AppendOptional(text, "  depfile = ", rule.depfile);
    text := AppendOptional(text, "  deps = ", rule.deps);
    r := out + text;
  }

  /** The loop over the rules. */
  method RulesText(out: string, rules: seq<Rule>) returns (r: string)
    ensures r == out + Join(rules, RuleText)
  {
    r := out;
    var i := 0;
    while i < |rules|
      invariant 0 <= i <= |rules|
      invariant r == out + Join(rules[..i], RuleText)
    {
      JoinStep(out, r, rules, i, RuleText);
      r := AppendRule(r, rules[i]);
      i := i + 1;
    }
    assert rules[..i] == rules;
  }

  /** The output and input loops of an edge: each path and a space. */
  method SpacedText(out: string, paths: seq<string>) returns (r: string)
    ensures r == out + Join(paths, Spaced)
  {
    r := out;
    var i := 0;
    while i < |paths|
      invariant 0 <= i <= |paths|
      invariant r == out + Join(paths[..i], Spaced)
    {
      JoinStep(out, r, paths, i, Spaced);
      r := r + (paths[i] + " ");
      i := i + 1;
    }
    assert paths[..i] == paths;
  }

  /** The variable loop of an edge. */
  method EdgeVariablesText(out: string, vars: seq<Variable>) returns (r: string)
    ensures r == out + Join(vars, EdgeVariableLine)
  {
    r := out;
    var i := 0;
    while i < |vars|
      invariant 0 <= i <= |vars|
      invariant r == out + Join(vars[..i], EdgeVariableLine)
    {
      var v := vars[i];
      JoinStep(out, r, vars, i, EdgeVariableLine);
      r := r + ("  " + v.key + " = " + v.value + "\n");
      i := i + 1;
    }
    assert vars[..i] == vars;
  }

  /** The body of the edge loop: one edge appended to `out`. */
  method AppendEdge(out: string, edge: Edge) returns (r: string)
    ensures r == out + EdgeText(edge)
  {
    r := out + "build ";
    r := SpacedText(r, edge.outputs);
    r := r + (": " + edge.ruleName + " ");
    r := SpacedText(r, edge.inputs);
    r := r + "\n";
    r := EdgeVariablesText(r, edge.variables);
  }

  /** The loop over the edges. */
  method EdgesText(out: string, edges: seq<Edge>) returns (r: string)
    ensures r == out + Join(edges, EdgeText)
  {
    r := out;
    var i := 0;
    while i < |edges|
      invariant 0 <= i <= |edges|
      invariant r == out + Join(edges[..i], EdgeText)
    {
      JoinStep(out, r, edges, i, EdgeText);
      r := AppendEdge(r, edges[i]);
      i := i + 1;
    }
    assert edges[..i] == edges;
  }

  /** `generate_manifest()`. */
  method GenerateManifest(g: Generator) returns (out: string)
    ensures out == Manifest(g)
    ensures |out| >= |HEADER| && out[..|HEADER|] == HEADER
  {
    out := HEADER;
    out := GlobalsText(out, g.globals);
    out := out + "\n";
    out := RulesText(out, g.rules);
    out := out + "\n";
    out := EdgesText(out, g.edges);
  }

  /** Adding an edge appends exactly that edge's text to the end of the manifest. */
  lemma AddEdgeAppendsText(g: Generator, e: Edge)
    ensures Manifest(AddEdge(g, e)) == Manifest(g) + EdgeText(e)
  {
    JoinAppend(g.edges, e, EdgeText);
  }

  /** Adding a rule puts its text after the other rules' and before the blank line and the edges. */
  lemma AddRuleInsertsText(g: Generator, rule: Rule)
    ensures Manifest(AddRule(g, rule))
            == HEADER + Join(g.globals, GlobalLine) + "\n" + Join(g.rules, RuleText) + RuleText(rule)
               + "\n" + Join(g.edges, EdgeText)
  {
    JoinAppend(g.rules, rule, RuleText);
  }

  /** Adding a global puts its line after the other globals and before the blank line. */
  lemma AddGlobalInsertsLine(g: Generator, key: string, value: string)
    ensures Manifest(AddGlobalVariable(g, key, value))
            == HEADER + Join(g.globals, GlobalLine) + GlobalLine(Variable(key, value))
               + "\n" + Join(g.rules, RuleText) + "\n" + Join(g.edges, EdgeText)
    ensures GlobalLine(Variable(key, value)) == key + " = " + value + "\n"
  {
    var v := Variable(key, value);
    var line, gs, rs, es := GlobalLine(v), Join(g.globals, GlobalLine), Join(g.rules, RuleText), Join(g.edges, EdgeText);
    JoinAppend(g.globals, v, GlobalLine);
    Assoc(HEADER, gs, line);
    calc {
      Manifest(AddGlobalVariable(g, key, value));
      HEADER + Join(g.globals + [v], GlobalLine) + "\n" + rs + "\n" + es;
      HEADER + (gs + line) + "\n" + rs + "\n" + es;
      HEADER + gs + line + "\n" + rs + "\n" + es;
    }
  }

  lemma Assoc(a: string, b: string, c: string)
    ensures a + (b + c) == a + b + c
  {
  }

  /** Two edges that differ only in their implicit inputs print the same, and so do the manifests holding them. */
  lemma ImplicitInputsIgnored(g: Generator, e: Edge, implicit: seq<string>)
    ensures EdgeText(e.(implicitInputs := implicit)) == EdgeText(e)
    ensures Manifest(AddEdge(g, e.(implicitInputs := implicit))) == Manifest(AddEdge(g, e))
  {
    AddEdgeAppendsText(g, e);
    AddEdgeAppendsText(g, e.(implicitInputs := implicit));
  }

  /** A rule with only a name and a command prints exactly its two lines. */
  lemma MinimalRuleText(name: string, command: string)
    ensures RuleText(Rule(name, command, "", "", "")) == "rule " + name + "\n  command = " + command + "\n"
    ensures Manifest(AddRule(Fresh(), Rule(name, command, "", "", "")))
            == HEADER + "\n" + "rule " + name + "\n  command = " + command + "\n" + "\n"
  {
    AddRuleInsertsText(Fresh(), Rule(name, command, "", "", ""));
  }
}
