/** The three callbacks the console installs in the line editor (replxx),
    as functions of the registry and the text typed so far: the inline
    hint, the completion candidates (a method of the console, since it
    builds its list in a loop) and the highlighter's span. */
module LineEditor {
  import opened Wrappers
  import opened Text
  import opened Registry
  import opened Dispatch

  /** The editor colours the callbacks use. */
  datatype EditorColor = Default | Brown | BrightGreen

  /** The hint callback's answer: the hints, and the colour it leaves in
      its in-out colour argument. */
  datatype Hints = Hints(keys: seq<string>, color: EditorColor)

  /** One completion candidate. */
  datatype Completion = Completion(text: string, color: EditorColor)

  /** The hint callback. The editor passes the whole input and, as
      `contextLen`, the length of the word being typed; when that is
      positive and some stored key starts with the input, the answer is the
      first key of the trie's prefix range, coloured brown. Which key is
      first depends on the trie's iteration order, which is not modelled:
      the hint is some key of the range. */
  ghost function Hint(m: Commands, input: string, contextLen: int, color: EditorColor): (r: Hints)
    ensures |r.keys| <= 1
    ensures r.keys != [] <==> contextLen > 0 && exists k :: k in m && input <= k
    ensures r.keys != [] ==> r.keys[0] in m && input <= r.keys[0] && r.color == Brown
    ensures r.keys == [] ==> r.color == color
  {
    var range := PrefixRange(m, input);
    if contextLen > 0 && range != {} then
      var k :| k in range;
      Hints([k], Brown)
    else
      Hints([], color)
  }

  /** The hint is one of the completion candidates: both come from the same
      prefix range. */
  lemma HintIsInPrefixRange(m: Commands, input: string, contextLen: int, color: EditorColor)
    requires Hint(m, input, contextLen, color).keys != []
    ensures Hint(m, input, contextLen, color).keys[0] in PrefixRange(m, input)
  {
  }

  /** The highlighter's span: the whole input when it has no space and is a
      command name, the text before the first space when that is one, and
      nothing otherwise. */
  function HighlightLength(m: Commands, input: string): (n: nat)
    ensures n <= |input|
    ensures n > 0 ==> input[..n] in m && (n == |input| || input[n] == ' ')
  {
    match IndexOf(input, ' ')
    case None => if FindCommandByName(m, input).Some? then |input| else 0
    case Some(i) => if FindCommandByName(m, input[..i]).Some? then i else 0
  }

  /** The span is the first space-delimited token of the raw input when
      that token is a stored name, and empty otherwise. */
  lemma HighlightMatchesFirstToken(m: Commands, input: string)
    ensures var name := Split(input)[0];
      HighlightLength(m, input) == if name in m then |name| else 0
  {
    FirstPartIsUpToSpace(input);
  }

  /** Only a stored name is ever highlighted, never a stored prefix of the
      first word nor a key that extends it. */
  lemma HighlightIsExact(m: Commands, input: string)
    requires HighlightLength(m, input) > 0
    ensures Split(input)[0] in m
    ensures HighlightLength(m, input) == |Split(input)[0]|
  {
    HighlightMatchesFirstToken(m, input);
  }

  /** On a line with no whitespace at its ends, which `evaluateLine` leaves
      as it is, the span is non-empty exactly when submitting the line would
      invoke a command. */
  lemma HighlightAgreesWithEvaluate(m: Commands, t: Trace, line: string)
    requires Stripped(line)
    ensures HighlightLength(m, line) > 0 <==> Evaluate(m, t, line).invoked != t.invoked
  {
    if line == [] {
      assert AllSpace(line);
      EvaluateBlank(m, t, line);
    } else {
      assert Trimmed(line) == line by {
        TrimmedUnique([], line, []);
        assert [] + line + [] == line;
      }
      assert !AllSpace(line) by { assert !IsSpace(line[0]); }
      EvaluateDispatches(m, t, line);
      HighlightMatchesFirstToken(m, line);
      FirstTokenNonEmpty(line);
    }
  }

  lemma FirstTokenNonEmpty(s: string)
    requires s != [] && s[0] != ' '
    ensures Split(s)[0] != []
  {
    assert Split(s)[0] == [s[0]] + Split(s[1..])[0];
  }

  /** A stored word with only whitespace around it invokes that word's
      command with no arguments. */
  lemma EvaluatePaddedWord(m: Commands, t: Trace, a: string, w: string, b: string)
    requires AllSpace(a) && AllSpace(b) && Stripped(w) && w != [] && ' ' !in w && w in m
    ensures Evaluate(m, t, a + w + b).invoked == t.invoked + [Invocation(m[w].invoke, Context([]))]
  {
    TrimmedUnique(a, w, b);
    SplitWithoutSpace(w);
    TrimmedEmptyIffBlank(a + w + b);
    EvaluateDispatches(m, t, a + w + b);
  }

  /** The highlighter looks at the raw input, while `evaluateLine` trims it
      first: with "help" stored, " help" runs help but gets no highlight. */
  lemma HighlightMissesIndentedCommand(c: Command, t: Trace)
    requires c.name == "help"
    ensures var m := map["help" := c];
      HighlightLength(m, " help") == 0
      && Evaluate(m, t, " help").invoked == t.invoked + [Invocation(c.invoke, Context([]))]
  {
    var m := map["help" := c];
    assert " help" == [' '] + "help" + [];
    EvaluatePaddedWord(m, t, [' '], "help", []);
    assert IndexOf(" help", ' ') == Some(0);
    assert " help"[..0] == [];
  }

  /** The span the highlighter evidently means: the stored first word of
      the line as `evaluateLine` sees it, located inside the raw input as a
      start position and a length. */
  function IntendedHighlight(m: Commands, input: string): (r: (nat, nat))
    ensures r.0 + r.1 <= |input|
  {
    (LeadingSpace(input), HighlightLength(m, Trimmed(input)))
  }

  /** A non-empty intended span covers exactly a stored name. */
  lemma IntendedHighlightIsStored(m: Commands, input: string)
    ensures var r := IntendedHighlight(m, input);
      r.1 > 0 ==> input[r.0..r.0 + r.1] in m
  {
    TrimmedIsInfix(input);
    StoredInfix(m, input, Trimmed(input), LeadingSpace(input), IntendedHighlight(m, input));
  }

  lemma StoredInfix(m: Commands, s: string, a: string, i: nat, r: (nat, nat))
    requires i + |a| <= |s| && (forall k :: 0 <= k < |a| ==> a[k] == s[i + k])
    requires r == (i, HighlightLength(m, a))
    ensures r.1 > 0 ==> s[r.0..r.0 + r.1] in m
  {
    var n := r.1;
    assert s[i..i + n] == a[..n];
  }

  /** With that span, highlighting and dispatch agree on every input. */
  lemma IntendedHighlightAgrees(m: Commands, t: Trace, input: string)
    ensures IntendedHighlight(m, input).1 > 0 <==> Evaluate(m, t, input).invoked != t.invoked
  {
    var a := Trimmed(input);
    TrimmedIdempotent(input);
    assert Evaluate(m, t, a) == Evaluate(m, t, input);
    HighlightAgreesWithEvaluate(m, t, a);
  }

  /** The UTF-8 length of a character. */
  function Utf8Width(c: char): (w: nat)
    ensures 1 <= w <= 4
    ensures w == 1 <==> c as int < 0x80
  {
    if c as int < 0x80 then 1 else if c as int < 0x800 then 2 else if c as int < 0x1_0000 then 3 else 4
  }

  /** The UTF-8 length of a string, which is what `std::string` counts. */
  function Utf8Length(s: string): (n: nat)
    ensures n >= |s|
    ensures n == |s| <==> forall k :: 0 <= k < |s| ==> s[k] as int < 0x80
  {
    if s == [] then 0 else Utf8Width(s[0]) + Utf8Length(s[1..])
  }

  /** The span as the highlighter computes it: `find` and `length()` on the
      UTF-8 bytes of the input. As UTF-8 is prefix-free, the byte span is the
      UTF-8 length of the character span. */
  function HighlightBytes(m: Commands, input: string): (n: nat)
    ensures n >= HighlightLength(m, input)
  {
    Utf8Length(input[..HighlightLength(m, input)])
  }

  /** With a stored name outside ASCII the byte span is longer than the
      input in characters, the unit in which the editor sizes its colour
      buffer; so `colors.at` is asked for a position past the end. */
  lemma HighlightBytesOverrunColors(c: Command)
    requires c.name == "\U{E9}"
    ensures HighlightBytes(map["\U{E9}" := c], "\U{E9}") == 2
    ensures |"\U{E9}"| == 1 && HighlightLength(map["\U{E9}" := c], "\U{E9}") == 1
  {
    var m := map["\U{E9}" := c];
    assert IndexOf("\U{E9}", ' ') == None;
    assert "\U{E9}"[..1] == "\U{E9}";
  }
}
