/** The string operations the console applies to a submitted line:
    Qt's `QString::trimmed()`, `QString::split(' ')` (which keeps empty
    parts) and `std::string::find(" ")`. A character is a Unicode scalar
    value, so a string here is a sequence of code points, not of the UTF-8
    bytes the original stores; the whitespace set of `trimmed()` is taken to
    be ASCII. */
module Text {
  import opened Wrappers

  /** The characters `trimmed()` strips: space, tab, line feed, vertical
      tab, form feed and carriage return. */
  predicate IsSpace(c: char) {
    c == ' ' || c == '\t' || c == '\n' || c == '\U{0B}' || c == '\U{0C}' || c == '\r'
  }

  predicate AllSpace(s: string) {
    forall i :: 0 <= i < |s| ==> IsSpace(s[i])
  }

  /** True when `t` has no whitespace at either end (the empty string
      qualifies). */
  predicate Stripped(t: string) {
    t == [] || (!IsSpace(t[0]) && !IsSpace(t[|t| - 1]))
  }

  /** The number of whitespace characters `s` starts with. */
  function LeadingSpace(s: string): (n: nat)
    ensures n <= |s|
    ensures forall k :: 0 <= k < n ==> IsSpace(s[k])
    ensures n < |s| ==> !IsSpace(s[n])
  {
    if s == [] || !IsSpace(s[0]) then 0 else 1 + LeadingSpace(s[1..])
  }

  /** The number of whitespace characters `s` ends with. */
  function TrailingSpace(s: string): (n: nat)
    ensures n <= |s|
    ensures forall k :: |s| - n <= k < |s| ==> IsSpace(s[k])
    ensures n < |s| ==> !IsSpace(s[|s| - n - 1])
  {
    if s == [] || !IsSpace(s[|s| - 1]) then 0 else 1 + TrailingSpace(s[..|s| - 1])
  }

  /** `QString::trimmed()`: `s` without the whitespace at both ends. */
  function Trimmed(s: string): (r: string)
    ensures Stripped(r) && |r| <= |s|
  {
    var i := LeadingSpace(s);
    if i == |s| then [] else s[i..|s| - TrailingSpace(s)]
  }

  /** The trimmed line is the infix of `s` that starts after its leading
      whitespace, and only whitespace lies before and after it. */
  lemma TrimmedIsInfix(s: string)
    ensures var i, r := LeadingSpace(s), Trimmed(s);
      i + |r| <= |s| && (forall k :: 0 <= k < |r| ==> r[k] == s[i + k])
      && (forall k :: 0 <= k < i ==> IsSpace(s[k]))
      && (forall k :: i + |r| <= k < |s| ==> IsSpace(s[k]))
  {
    var i, j := LeadingSpace(s), TrailingSpace(s);
    if i < |s| {
      assert !IsSpace(s[i]);
      assert i < |s| - j;
      InfixOf(s, i, |s| - j);
    }
  }

  lemma InfixOf(s: string, i: nat, e: nat)
    requires i <= e <= |s|
    ensures forall k :: 0 <= k < e - i ==> s[i..e][k] == s[i + k]
  {
  }

  /** `Trimmed` is characterised by its result: whenever `s` is some
      whitespace, then a string with no whitespace at its ends, then some
      whitespace, trimming gives exactly the middle part. */
  lemma TrimmedUnique(a: string, t: string, b: string)
    requires AllSpace(a) && AllSpace(b) && Stripped(t)
    ensures Trimmed(a + t + b) == t
  {
    var s := a + t + b;
    if t == [] {
      assert forall k :: 0 <= k < |s| ==> IsSpace(s[k]) by {
        forall k | 0 <= k < |s| ensures IsSpace(s[k]) {
          if k < |a| { assert s[k] == a[k]; } else { assert s[k] == b[k - |a|]; }
        }
      }
      assert LeadingSpace(s) == |s|;
    } else {
      assert s == a + (t + b);
      LeadingSpaceOfPadded(a, t + b);
      assert s == (a + t) + b;
      TrailingSpaceOfPadded(a + t, b);
      assert s[|a|..|s| - |b|] == t;
    }
  }

  lemma LeadingSpaceOfPadded(a: string, u: string)
    requires AllSpace(a) && u != [] && !IsSpace(u[0])
    ensures LeadingSpace(a + u) == |a|
  {
    var s := a + u;
    assert s[|a|] == u[0];
    assert forall k :: 0 <= k < |a| ==> s[k] == a[k];
  }

  lemma TrailingSpaceOfPadded(u: string, b: string)
    requires AllSpace(b) && u != [] && !IsSpace(u[|u| - 1])
    ensures TrailingSpace(u + b) == |b|
  {
    var s := u + b;
    assert s[|u| - 1] == u[|u| - 1];
    assert forall k :: |u| <= k < |s| ==> s[k] == b[k - |u|];
  }

  /** A line trims to nothing exactly when it consists of whitespace. */
  lemma TrimmedEmptyIffBlank(s: string)
    ensures Trimmed(s) == [] <==> AllSpace(s)
  {
    if AllSpace(s) {
      assert LeadingSpace(s) == |s|;
    } else {
      TrimmedIsInfix(s);
    }
  }

  /** Trimming twice is trimming once. */
  lemma TrimmedIdempotent(s: string)
    ensures Trimmed(Trimmed(s)) == Trimmed(s)
  {
    var t := Trimmed(s);
    TrimmedUnique([], t, []);
    assert [] + t + [] == t;
  }

  /** The number of non-whitespace characters `s` starts with. */
  function WordLength(s: string): (n: nat)
    ensures n <= |s|
    ensures forall k :: 0 <= k < n ==> !IsSpace(s[k])
    ensures n < |s| ==> IsSpace(s[n])
  {
    if s == [] || IsSpace(s[0]) then 0 else 1 + WordLength(s[1..])
  }

  /** `QTextStream >> QByteArray`: skips the leading whitespace, then reads
      up to the next whitespace or the end of the input. */
  function ReadWord(s: string): (w: string)
    ensures |w| <= |s|
    ensures forall k :: 0 <= k < |w| ==> !IsSpace(w[k])
  {
    var i := LeadingSpace(s);
    s[i..][..WordLength(s[i..])]
  }

  /** `ReadWord` is characterised by its result: after some whitespace, a
      word with no whitespace in it that is followed by whitespace or by
      the end of the input is what is read. */
  lemma ReadWordUnique(a: string, w: string, b: string)
    requires AllSpace(a) && w != [] && (forall k :: 0 <= k < |w| ==> !IsSpace(w[k]))
    requires b == [] || IsSpace(b[0])
    ensures ReadWord(a + w + b) == w
  {
    var s := a + w + b;
    assert s == a + (w + b);
    LeadingSpaceOfPadded(a, w + b);
    assert s[|a|..] == w + b;
    WordLengthOfPadded(w, b);
    assert (w + b)[..|w|] == w;
  }

  lemma WordLengthOfPadded(w: string, b: string)
    requires forall k :: 0 <= k < |w| ==> !IsSpace(w[k])
    requires b == [] || IsSpace(b[0])
    ensures WordLength(w + b) == |w|
  {
    var u := w + b;
    assert forall k :: 0 <= k < |w| ==> u[k] == w[k];
    if b != [] {
      assert u[|w|] == b[0];
    }
  }

  /** Input of whitespace alone reads as the empty word. */
  lemma ReadWordOfBlank(s: string)
    requires AllSpace(s)
    ensures ReadWord(s) == []
  {
    assert LeadingSpace(s) == |s|;
  }

  /** A line with a space in it is not read whole: only its first word is. */
  lemma ReadWordStopsAtSpace()
    ensures ReadWord("secret words") == "secret"
  {
    assert "secret words" == [] + "secret" + " words";
    ReadWordUnique([], "secret", " words");
  }

  /** `QString::split(' ')` with empty parts kept: the maximal runs of
      non-space characters between single spaces, in order. A string
      with k spaces yields k + 1 parts; two adjacent spaces yield an empty
      part, and the empty string yields one empty part. */
  function Split(s: string): (r: seq<string>)
    ensures |r| >= 1
    ensures forall i :: 0 <= i < |r| ==> ' ' !in r[i]
  {
    if s == [] then [""]
    else
      var rest := Split(s[1..]);
      if s[0] == ' ' then [""] + rest
      else [[s[0]] + rest[0]] + rest[1..]
  }

  /** The inverse of `Split`: the parts with one space between each pair. */
  function Join(parts: seq<string>): (r: string)
    requires |parts| >= 1
  {
    if |parts| == 1 then parts[0] else parts[0] + " " + Join(parts[1..])
  }

  /** Splitting loses nothing: joining the parts gives back the string. */
  lemma {:induction false} JoinSplit(s: string)
    ensures Join(Split(s)) == s
  {
    if s != [] {
      var rest := Split(s[1..]);
      JoinSplit(s[1..]);
      if s[0] == ' ' {
        assert Split(s)[1..] == rest;
        assert s == [' '] + s[1..];
      } else {
        var r := Split(s);
        assert r[0] == [s[0]] + rest[0];
        if |rest| == 1 {
          assert s == [s[0]] + s[1..];
        } else {
          var tail := Join(rest[1..]);
          assert s[1..] == rest[0] + " " + tail;
          assert r[1..] == rest[1..];
          assert Join(r) == r[0] + " " + tail;
          assert s == [s[0]] + (rest[0] + " " + tail);
        }
      }
    }
  }

  /** Splitting a join of space-free parts gives back the parts, so `Split`
      and `Join` are inverse bijections. */
  lemma {:induction false} SplitJoin(parts: seq<string>)
    requires |parts| >= 1
    requires forall i :: 0 <= i < |parts| ==> ' ' !in parts[i]
    ensures Split(Join(parts)) == parts
  {
    if |parts| == 1 {
      SplitWithoutSpace(parts[0]);
    } else {
      SplitJoin(parts[1..]);
      SplitAfterWord(parts[0], Join(parts[1..]));
      assert [parts[0]] + parts[1..] == parts;
    }
  }

  lemma {:induction false} SplitWithoutSpace(w: string)
    requires ' ' !in w
    ensures Split(w) == [w]
  {
    if w != [] {
      assert ' ' !in w[1..] by {
        forall i | 0 <= i < |w[1..]| ensures w[1..][i] != ' ' { assert w[1..][i] == w[i + 1]; }
      }
      SplitWithoutSpace(w[1..]);
      assert [w[0]] + w[1..] == w;
    }
  }

  lemma {:induction false} SplitAfterWord(w: string, s: string)
    requires ' ' !in w
    ensures Split(w + " " + s) == [w] + Split(s)
  {
    if w == [] {
      assert w + " " + s == [' '] + s;
      assert ([' '] + s)[1..] == s;
    } else {
      var t := w + " " + s;
      assert t[0] == w[0];
      assert t[1..] == w[1..] + " " + s;
      assert ' ' !in w[1..] by {
        forall i | 0 <= i < |w[1..]| ensures w[1..][i] != ' ' { assert w[1..][i] == w[i + 1]; }
      }
      SplitAfterWord(w[1..], s);
      assert [w[0]] + w[1..] == w;
    }
  }

  /** `std::string::find`: the first index of `c` in `s`, if any. */
  function IndexOf(s: string, c: char): (r: Option<nat>)
    ensures r.None? <==> c !in s
    ensures r.Some? ==> r.value < |s| && s[r.value] == c && c !in s[..r.value]
  {
    if s == [] then None
    else if s[0] == c then Some(0)
    else match IndexOf(s[1..], c)
      case None => None
      case Some(i) =>
        assert s[..i + 1] == [s[0]] + s[1..][..i];
        Some(i + 1)
  }

  /** The first part of `Split(s)` is `s` up to its first space, or all of
      `s` when it has none. So on a line without whitespace at its ends,
      dispatch and the highlighter (which uses `IndexOf`) end a command name
      at the same place; on other lines they do not look at the same text. */
  lemma {:induction false} FirstPartIsUpToSpace(s: string)
    ensures Split(s)[0] == match IndexOf(s, ' ') case None => s case Some(i) => s[..i]
  {
    if s != [] {
      FirstPartIsUpToSpace(s[1..]);
      if s[0] != ' ' {
        match IndexOf(s[1..], ' ')
        case None =>
          assert [s[0]] + s[1..] == s;
        case Some(i) =>
          assert s[..i + 1] == [s[0]] + s[1..][..i];
      }
    }
  }

  /** Adjacent spaces are not collapsed: they produce an empty part. */
  lemma SplitKeepsEmptyParts()
    ensures Split("cmd  a") == ["cmd", "", "a"]
    ensures Split(" ") == ["", ""]
  {
    assert "cmd  a" == "cmd" + " " + " a";
    SplitAfterWord("cmd", " a");
    assert " a" == "" + " " + "a";
    SplitAfterWord("", "a");
    SplitWithoutSpace("a");
    assert " " == "" + " " + "";
    SplitAfterWord("", "");
  }
}
