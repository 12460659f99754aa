/** What `evaluateLine` and `invokeCommandByName` do to the console's
    record of the session, as functions of the registry and a `Trace`:
    the history the line editor keeps, the callbacks invoked (with their
    contexts) and the text written to the output stream. */
module Dispatch {
  import opened Text
  import opened Ansi
  import opened Registry
  import opened Wrappers

  /** One call of a command's callback, with the context it was given. */
  datatype Invocation = Invocation(callback: CallbackId, context: Context)

  datatype Trace = Trace(history: seq<string>, invoked: seq<Invocation>, output: string)

  /** The red, normal-style line written when no command has the name. */
  function NotFoundMessage(name: string): (r: string)
    ensures |r| > 0 && r[|r| - 1] == '\n'
    ensures Uncolorize(r[..|r| - 1]) == Some(Styled("Command not found: " + name, Red, Normal))
  {
    var body := Colorize("Command not found: " + name, Red, Normal);
    UncolorizeColorize("Command not found: " + name, Red, Normal);
    assert (body + "\n")[..|body|] == body;
    body + "\n"
  }

  /** `invokeCommandByName`: an exact lookup, then one call of the found
      command's callback. Reports whether the name was found; touches
      neither the history nor the output. */
  function InvokeByName(m: Commands, t: Trace, name: string, ctx: Context := Context([]))
    : (r: (bool, Trace))
    ensures r.0 <==> name in m
    ensures r.1.history == t.history && r.1.output == t.output
    ensures r.1.invoked == if name in m then t.invoked + [Invocation(m[name].invoke, ctx)] else t.invoked
  {
    match FindCommandByName(m, name)
    case Some(c) => (true, t.(invoked := t.invoked + [Invocation(c.invoke, ctx)]))
    case None => (false, t)
  }

  /** `evaluateLine`: trim; drop a blank line; otherwise record it in the
      history, split it on single spaces, look the first token up exactly
      and either invoke that command with the remaining tokens or write the
      not-found message. */
  function Evaluate(m: Commands, t: Trace, line: string): (r: Trace)
    ensures Trimmed(line) == [] ==> r == t
    ensures Trimmed(line) != [] ==> r.history == t.history + [Trimmed(line)]
    ensures t.invoked <= r.invoked && |r.invoked| <= |t.invoked| + 1
    ensures t.output <= r.output
    ensures r.invoked == t.invoked || r.output == t.output
  {
    var a := Trimmed(line);
    if a == [] then t
    else
      var tokens := Split(a);
      var recorded := t.(history := t.history + [a]);
      match FindCommandByName(m, tokens[0])
      case Some(c) => recorded.(invoked := recorded.invoked + [Invocation(c.invoke, Context(tokens[1..]))])
      case None => recorded.(output := recorded.output + NotFoundMessage(tokens[0]))
  }

  /** A line of whitespace only leaves no trace: no history entry, no
      invocation, no output. */
  lemma EvaluateBlank(m: Commands, t: Trace, line: string)
    requires AllSpace(line)
    ensures Evaluate(m, t, line) == t
  {
    TrimmedEmptyIffBlank(line);
  }

  /** Any other line adds exactly one history entry, the trimmed line, and
      does so whether or not a command is found. */
  lemma EvaluateRecordsHistory(m: Commands, t: Trace, line: string)
    requires !AllSpace(line)
    ensures Evaluate(m, t, line).history == t.history + [Trimmed(line)]
    ensures Trimmed(line) != []
  {
    TrimmedEmptyIffBlank(line);
  }

  /** For a line that is not blank, the first token decides: a stored name
      gets exactly one call of its callback with the other tokens as
      arguments and nothing is written; an unknown name gets exactly one
      not-found line and no call. */
  lemma EvaluateDispatches(m: Commands, t: Trace, line: string)
    requires !AllSpace(line)
    ensures var tokens := Split(Trimmed(line));
      var r := Evaluate(m, t, line);
      if tokens[0] in m then
        r.invoked == t.invoked + [Invocation(m[tokens[0]].invoke, Context(tokens[1..]))] && r.output == t.output
      else
        r.invoked == t.invoked && r.output == t.output + NotFoundMessage(tokens[0])
  {
    TrimmedEmptyIffBlank(line);
  }

  /** Dispatching a line is recording it and then `InvokeByName` on its
      first token with the rest as context; the not-found line is written
      exactly when that reports false. */
  lemma EvaluateIsInvokeOfFirstToken(m: Commands, t: Trace, line: string)
    requires !AllSpace(line)
    ensures var a := Trimmed(line);
      var tokens := Split(a);
      var (found, u) := InvokeByName(m, t.(history := t.history + [a]), tokens[0], Context(tokens[1..]));
      Evaluate(m, t, line) == if found then u else u.(output := u.output + NotFoundMessage(tokens[0]))
  {
    TrimmedEmptyIffBlank(line);
  }

  /** `evaluateLine` only ever calls a command whose name is non-empty and
      has no space in it: the first token of a trimmed line starts with a
      character that is not whitespace and stops at the first space. A
      command with a space in its name can only be reached through
      `invokeCommandByName`. */
  lemma EvaluateInvokesOnlySpaceFreeNames(m: Commands, t: Trace, line: string)
    requires Evaluate(m, t, line).invoked != t.invoked
    ensures var name := Split(Trimmed(line))[0];
      name in m && name != [] && ' ' !in name
  {
    var a := Trimmed(line);
    assert a != [];
    assert a[0] != ' ';
    assert Split(a)[0] == [a[0]] + Split(a[1..])[0];
  }

  /** The quirk of `split(' ')`: two spaces between words produce an empty
      argument. */
  lemma EvaluateKeepsEmptyArguments(m: Commands, t: Trace)
    requires "cmd" in m
    ensures Evaluate(m, t, "cmd  a").invoked == t.invoked + [Invocation(m["cmd"].invoke, Context(["", "a"]))]
  {
    var line := "cmd  a";
    assert Trimmed(line) == line by {
      assert Stripped(line);
      TrimmedUnique([], line, []);
      assert [] + line + [] == line;
    }
    SplitKeepsEmptyParts();
    var tokens := Split(line);
    assert tokens[0] == "cmd" && tokens[1..] == ["", "a"];
    assert !IsSpace(line[0]);
    EvaluateDispatches(m, t, line);
  }

  /** The not-found scenario: an unknown first token gives one history
      entry, the trimmed line, and one not-found line naming the token. */
  lemma EvaluateUnknownScenario(m: Commands, t: Trace)
    requires "nosuchcmd" !in m
    ensures var r := Evaluate(m, t, "nosuchcmd x y");
      r.history == t.history + ["nosuchcmd x y"] && r.invoked == t.invoked
      && r.output == t.output + NotFoundMessage("nosuchcmd")
  {
    var line := "nosuchcmd x y";
    assert Trimmed(line) == line by {
      assert Stripped(line);
      TrimmedUnique([], line, []);
      assert [] + line + [] == line;
    }
    assert line == "nosuchcmd" + " " + "x y";
    SplitAfterWord("nosuchcmd", "x y");
    assert Split(line)[0] == "nosuchcmd";
  }
}
