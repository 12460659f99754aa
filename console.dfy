/** The console object: the registry, the session state (prompts, history
    file path, echo flag), the start/stop flag and the record of what it
    has done (history, callbacks invoked, text written). Each method states
    its new state, in terms of the functions of Registry, Dispatch and
    LineEditor where the operation is one of theirs. */
module Console {
  import opened Wrappers
  import opened Text
  import opened Ansi
  import opened Registry
  import opened Dispatch
  import opened LineEditor

  /** Stands for the identifier of the host timer that drives `timerEvent`. */
  type TimerId = nat

  /** The callbacks of the default commands. */
  const ExitCallback: CallbackId := 0
  const HelpCallback: CallbackId := 1
  const HistoryCallback: CallbackId := 2
  const ClearCallback: CallbackId := 3
  const VersionCallback: CallbackId := 4

  /** The commands `addDefaultCommands` registers, in the order it adds
      them. */
  const DefaultCommands: seq<Command> := [
    Command("exit", "Exit the application.", ExitCallback),
    Command("help", "Print help information.", HelpCallback),
    Command("history", "Print command history.", HistoryCallback),
    Command("clear", "Clear the screen.", ClearCallback),
    Command("version", "Print the application version.", VersionCallback)
  ]

  /** On an empty registry the defaults make five commands. */
  lemma DefaultCommandsCount()
    ensures |Apply(map[], Adds(DefaultCommands))| == 5
  {
    assert DistinctNames(DefaultCommands) by {
      var names := ["exit", "help", "history", "clear", "version"];
      assert forall i :: 0 <= i < 5 ==> DefaultCommands[i].name == names[i];
      assert names[0][0] == 'e' && names[1][0] == 'h' && names[2][0] == 'h' && names[3][0] == 'c' && names[4][0] == 'v';
      assert names[1][1] == 'e' && names[2][1] == 'i' && names[4][0] != names[0][0];
    }
    AddAllCount(map[], DefaultCommands);
  }

  /** On any registry each of the five default names is stored afterwards
      (a name already present keeps its earlier record). */
  lemma DefaultCommandsPresent(m: Commands)
    ensures forall i :: 0 <= i < 5 ==> DefaultCommands[i].name in Apply(m, Adds(DefaultCommands))
  {
    var chs := Adds(DefaultCommands);
    ApplyKeys(m, chs);
    forall i | 0 <= i < 5 ensures DefaultCommands[i].name in Apply(m, chs) {
      LastAddWins(m.Keys, chs, i);
    }
  }

  /** A name added by some change and touched by no later one is present. */
  lemma {:induction false} LastAddWins(initial: set<string>, chs: seq<Change>, i: nat)
    requires i < |chs| && chs[i].Add?
    requires forall j :: i < j < |chs| ==> Touches(chs[j]) != Touches(chs[i])
    ensures Present(initial, chs, Touches(chs[i]))
    decreases |chs|
  {
    if i < |chs| - 1 {
      LastAddWins(initial, chs[..|chs| - 1], i);
    }
  }

  /** Every text in `texts` is the text of some completion in `cs`. */
  ghost predicate Covers(cs: seq<Completion>, texts: set<string>) {
    forall x :: x in texts ==> exists i :: 0 <= i < |cs| && cs[i].text == x
  }

  lemma CoversSnoc(cs: seq<Completion>, texts: set<string>, c: Completion)
    requires Covers(cs, texts)
    ensures Covers(cs + [c], texts + {c.text})
  {
    var cs' := cs + [c];
    forall x | x in texts + {c.text} ensures exists i :: 0 <= i < |cs'| && cs'[i].text == x {
      if x == c.text {
        assert cs'[|cs|].text == x;
      } else {
        var i :| 0 <= i < |cs| && cs[i].text == x;
        assert cs'[i].text == x;
      }
    }
  }

  class QConsole {
    var commands: Commands
    var history: seq<string>
    var invoked: seq<Invocation>
    var output: string
    var prompt: string
    var defaultPrompt: string
    var historyFilePath: string
    var echo: bool
    var running: bool
    var timerId: TimerId
    var quitRequested: bool

    /** Every record is stored under its own name. */
    ghost predicate Valid()
      reads this
    {
      WellKeyed(commands)
    }

    /** The record of the session as a value. */
    function Log(): Trace
      reads this
    {
      Trace(history, invoked, output)
    }

    /** A new console: no commands, empty prompts, no history, echo on,
        stopped. */
    constructor ()
      ensures Valid()
      ensures commands == map[] && history == [] && invoked == [] && output == []
      ensures prompt == [] && defaultPrompt == [] && historyFilePath == []
      ensures echo && !running && !quitRequested
    {
      commands := map[];
      history := [];
      invoked := [];
      output := [];
      prompt := [];
      defaultPrompt := [];
      historyFilePath := [];
      echo := true;
      running := false;
      timerId := 0;
      quitRequested := false;
    }

    /** Starts reading input by registering a timer; a no-op when already
        running. */
    method Start(timer: TimerId)
      modifies this`running, this`timerId
      ensures running
      ensures timerId == if old(running) then old(timerId) else timer
    {
      if !running {
        timerId := timer;
        running := true;
      }
    }

    /** Stops reading input; a no-op when already stopped. */
    method Stop()
      modifies this`running
      ensures !running
    {
      if running {
        running := false;
      }
    }

    method AddCommand(c: Command)
      requires Valid()
      modifies this`commands
      ensures Valid()
      ensures commands == Insert(old(commands), c)
    {
      commands := Insert(commands, c);
    }

    method RemoveCommandByName(name: string)
      requires Valid()
      modifies this`commands
      ensures Valid()
      ensures commands == Erase(old(commands), name)
    {
      commands := Erase(commands, name);
    }

    /** The number of stored commands. */
    method CommandCount() returns (n: nat)
      ensures n == |commands.Keys|
    {
      n := |commands|;
    }

    method AddDefaultCommands()
      requires Valid()
      modifies this`commands
      ensures Valid()
      ensures commands == Apply(old(commands), Adds(DefaultCommands))
    {
      ghost var m := commands;
      AddCommand(DefaultCommands[0]);
      AddCommand(DefaultCommands[1]);
      AddCommand(DefaultCommands[2]);
      AddCommand(DefaultCommands[3]);
      AddCommand(DefaultCommands[4]);
      ghost var chs := Adds(DefaultCommands);
      assert chs[..1][..0] == [];
      assert chs[..2][..1] == chs[..1];
      assert chs[..3][..2] == chs[..2];
      assert chs[..4][..3] == chs[..3];
      assert chs[..5][..4] == chs[..4];
      assert chs[..5] == chs;
      assert Apply(m, chs[..1]) == Insert(m, DefaultCommands[0]);
      assert Apply(m, chs[..2]) == Insert(Apply(m, chs[..1]), DefaultCommands[1]);
      assert Apply(m, chs[..3]) == Insert(Apply(m, chs[..2]), DefaultCommands[2]);
      assert Apply(m, chs[..4]) == Insert(Apply(m, chs[..3]), DefaultCommands[3]);
      assert Apply(m, chs) == Insert(Apply(m, chs[..4]), DefaultCommands[4]);
    }

    method InvokeCommandByName(name: string, ctx: Context := Context([])) returns (found: bool)
      requires Valid()
      modifies this`invoked
      ensures (found, Log()) == InvokeByName(commands, old(Log()), name, ctx)
      ensures found ==> name in commands && commands[name].name == name
    {
      var c := FindCommandByName(commands, name);
      if c.Some? {
        invoked := invoked + [Invocation(c.value.invoke, ctx)];
        return true;
      }
      return false;
    }

    method EvaluateLine(line: string)
      modifies this`history, this`invoked, this`output
      ensures Log() == Evaluate(commands, old(Log()), line)
    {
      ghost var t := Log();
      var a := Trimmed(line);
      if a == [] {
        return;
      }
      var tokens := Split(a);
      var name := tokens[0];
      history := history + [a];
      ghost var recorded := t.(history := t.history + [a]);
      assert Log() == recorded;
      var c := FindCommandByName(commands, name);
      if c.Some? {
        invoked := invoked + [Invocation(c.value.invoke, Context(tokens[1..]))];
        assert Log() == recorded.(invoked := recorded.invoked + [Invocation(c.value.invoke, Context(tokens[1..]))]);
        return;
      }
      output := output + NotFoundMessage(tokens[0]);
      assert Log() == recorded.(output := recorded.output + NotFoundMessage(tokens[0]));
    }

    /** One scheduler step with the line the editor returned, or None at
        end of input: end of input asks the host to quit, and then reaches
        `EvaluateLine` as an empty line, which has no effect. */
    method TimerEvent(input: Option<string>)
      modifies this`quitRequested, this`history, this`invoked, this`output
      ensures quitRequested == (old(quitRequested) || input.None?)
      ensures Log() == Evaluate(commands, old(Log()), input.GetOr(""))
      ensures input.None? ==> Log() == old(Log())
    {
      if input.None? {
        quitRequested := true;
      }
      EvaluateLine(input.GetOr(""));
      assert input.None? ==> Log() == old(Log()) by {
        assert AllSpace("");
        EvaluateBlank(commands, old(Log()), "");
      }
    }

    method SetPrompt(p: string)
      modifies this`prompt
      ensures prompt == p
    {
      prompt := p;
    }

    method SetDefaultPrompt(p: string)
      modifies this`prompt, this`defaultPrompt
      ensures defaultPrompt == p && prompt == p
    {
      defaultPrompt := p;
      prompt := defaultPrompt;
    }

    method ResetPrompt()
      modifies this`prompt
      ensures prompt == defaultPrompt
    {
      prompt := defaultPrompt;
    }

    method SetHistoryFilePath(path: string)
      modifies this`historyFilePath
      ensures historyFilePath == path
    {
      historyFilePath := path;
    }

    method SetStdinEcho(enable: bool)
      modifies this`echo
      ensures echo == enable
    {
      echo := enable;
    }

    /** Writes the prompt and reads from standard input, given here as
        `stdin`, with `QTextStream >> QByteArray`: that reads one word, not
        a line. */
    method ReadLine(p: string, stdin: string) returns (line: string)
      modifies this`output
      ensures output == old(output) + p && line == ReadWord(stdin)
    {
      output := output + p;
      line := ReadWord(stdin);
    }

    /** `ReadLine` with echo turned off for the read and turned back on
        afterwards, whatever it was before; ends the prompt's line. */
    method ReadPass(p: string, stdin: string) returns (pass: string)
      modifies this`echo, this`output
      ensures echo
      ensures output == old(output) + p + "\n" && pass == ReadWord(stdin)
    {
      SetStdinEcho(false);
      pass := ReadLine(p, stdin);
      output := output + "\n";
      SetStdinEcho(true);
    }

    /** The destructor's effect on the session state: echo is restored if it
        was off. */
    method Destroy()
      modifies this`echo
      ensures echo
    {
      if !echo {
        SetStdinEcho(true);
      }
    }

    /** The completion callback: every stored key that starts with the
        input, once each, coloured brown. */
    method Complete(input: string) returns (cs: seq<Completion>)
      ensures forall i :: 0 <= i < |cs| ==> cs[i].color == Brown
      ensures forall i :: 0 <= i < |cs| ==> cs[i].text in commands && input <= cs[i].text
      ensures forall k :: k in commands && input <= k ==> exists i :: 0 <= i < |cs| && cs[i].text == k
      ensures forall i, j :: 0 <= i < j < |cs| ==> cs[i].text != cs[j].text
    {
      var range := PrefixRange(commands, input);
      var rest := range;
      cs := [];
      while rest != {}
        invariant rest <= range
        invariant forall i :: 0 <= i < |cs| ==> cs[i].color == Brown
        invariant forall i :: 0 <= i < |cs| ==> cs[i].text in range && cs[i].text !in rest
        invariant Covers(cs, range - rest)
        invariant forall i, j :: 0 <= i < j < |cs| ==> cs[i].text != cs[j].text
        decreases rest
      {
        var k :| k in rest;
        CoversSnoc(cs, range - rest, Completion(k, Brown));
        assert range - (rest - {k}) == (range - rest) + {k};
        cs := cs + [Completion(k, Brown)];
        rest := rest - {k};
      }
      assert range - rest == range;
    }

    /** The highlighter callback: colours the span `HighlightLength` gives
        bright green and leaves the other colours alone. The editor's colour
        buffer must be long enough for that span. */
    method Highlight(input: string, colors: array<EditorColor>)
      requires HighlightLength(commands, input) <= colors.Length
      modifies colors
      ensures forall i :: 0 <= i < colors.Length ==>
        colors[i] == if i < HighlightLength(commands, input) then BrightGreen else old(colors[i])
    {
      var prefixHighlightLength := 0;
      var endOfWord := IndexOf(input, ' ');
      match endOfWord {
        case None =>
          if FindCommandByName(commands, input).Some? {
            prefixHighlightLength := |input|;
          }
        case Some(e) =>
          if FindCommandByName(commands, input[..e]).Some? {
            prefixHighlightLength := e;
          }
      }
      for i := 0 to prefixHighlightLength
        invariant forall j :: 0 <= j < colors.Length ==>
          colors[j] == if j < i then BrightGreen else old(colors[j])
      {
        colors[i] := BrightGreen;
      }
    }
  }

  /** The prompt scenario of the unit tests: the default prompt sets both
      prompts, the current prompt then changes alone, and a reset brings
      back the default. The results are the values the test inspects. */
  method PromptScenario() returns (defaultSet: string, promptSet: string, promptChanged: string, defaultKept: string, promptReset: string)
    ensures defaultSet == "ExamplePrompt" && promptSet == defaultSet
    ensures promptChanged == "NewPrompt" && defaultKept == "ExamplePrompt"
    ensures promptReset == defaultKept
  {
    var console := new QConsole();
    console.SetDefaultPrompt("ExamplePrompt");
    defaultSet, promptSet := console.defaultPrompt, console.prompt;
    console.SetPrompt("NewPrompt");
    promptChanged, defaultKept := console.prompt, console.defaultPrompt;
    console.ResetPrompt();
    promptReset := console.prompt;
  }

  /** The callbacks of the non-ASCII scenario: the first sets the test's
      flag, the second clears it. */
  const SetCheckCallback: CallbackId := 10
  const ClearCheckCallback: CallbackId := 11

  /** The two command names of the non-ASCII scenario (the first written,
      as in the test, as three adjacent literals) and their description. */
  const LatinName: string :=
    "Ā ā Ă ă Ą ą Ć ć Ĉ ĉ Ċ ċ Č č Ď ď Đ đ Ē ē Ĕ ĕ Ė ė Ę ę Ě ě Ĝ ĝ Ğ ğ Ġ ġ Ģ ģ Ĥ ĥ Ħ ħ Ĩ ĩ Ī ī Ĭ ĭ Į "
    + "į İ ı Ĳ ĳ Ĵ ĵ Ķ ķ ĸ Ĺ ĺ Ļ ļ Ľ ľ Ŀ ŀ Ł ł Ń ń Ņ ņ Ň ň ŉ Ŋ ŋ Ō ō Ŏ ŏ Ő ő Œ œ Ŕ ŕ Ŗ ŗ Ř ř Ś ś Ŝ ŝ "
    + "Ş ş Š š Ţ ţ Ť ť Ŧ ŧ Ũ ũ Ū ū Ŭ ŭ Ů ů Ű ű Ų ų Ŵ ŵ Ŷ ŷ Ÿ Ź ź Ż ż Ž ž ſ"
  const HangulName: string := "나는 유리를 먹을 수 있어요. 그래도 아프지 않아요"
  const ArabicDescription: string := "أنا قادر على أكل الزجاج و هذا لا يؤلمني"

  lemma NamesDiffer()
    ensures LatinName != HangulName
  {
    assert |LatinName| > |HangulName|;
  }

  /** The non-ASCII names scenario of the unit tests: each command is found
      under its exact name and runs its own callback, so the flag is set
      after the first call and cleared after the second. */
  method UnicodeScenario() returns (firstFound: bool, secondFound: bool, calls: seq<Invocation>)
    ensures firstFound && secondFound
    ensures calls == [Invocation(SetCheckCallback, Context([])), Invocation(ClearCheckCallback, Context([]))]
  {
    NamesDiffer();
    firstFound, secondFound, calls := TwoCommandsScenario(LatinName, HangulName, ArabicDescription);
  }

  /** Adds a command, runs it by name, adds a second one under another name
      and runs that. */
  method TwoCommandsScenario(first: string, second: string, description: string)
    returns (firstFound: bool, secondFound: bool, calls: seq<Invocation>)
    requires first != second
    ensures firstFound && secondFound
    ensures calls == [Invocation(SetCheckCallback, Context([])), Invocation(ClearCheckCallback, Context([]))]
  {
    var console := new QConsole();
    console.AddCommand(Command(first, description, SetCheckCallback));
    firstFound := console.InvokeCommandByName(first);
    console.AddCommand(Command(second, description, ClearCheckCallback));
    secondFound := console.InvokeCommandByName(second);
    calls := console.invoked;
  }

  /** Starting and stopping are idempotent: a second start keeps the first
      timer, and a second stop leaves the console stopped. */
  method RunningScenario() returns (startedTwice: bool, timer: TimerId, stoppedTwice: bool)
    ensures startedTwice && timer == 7 && !stoppedTwice
  {
    var console := new QConsole();
    console.Stop();
    console.Start(7);
    console.Start(8);
    startedTwice, timer := console.running, console.timerId;
    console.Stop();
    console.Stop();
    stoppedTwice := console.running;
  }
}
