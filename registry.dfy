/** The command records of the console header and the registry that holds
    them: a prefix trie (`tsl::htrie_map`) modelled as a map from name to
    record. The exact lookup is built, as in the original, from the trie's
    longest-prefix query followed by a length check. */
module Registry {
  import opened Wrappers

  /** Stands for the stored callback: an opaque identity, so that calls to
      it can be recorded. */
  type CallbackId = nat

  /** The execution environment handed to a command: its argument tokens. */
  datatype Context = Context(arguments: seq<string>)

  /** An invokable command: name, description and callback. */
  datatype Command = Command(name: string, description: string, invoke: CallbackId)

  type Commands = map<string, Command>

  /** Each record is stored under its own name. */
  ghost predicate WellKeyed(m: Commands) {
    forall k :: k in m ==> m[k].name == k
  }

  /** `htrie_map::insert`: adds the record under its name unless the name is
      already stored, in which case the registry keeps its earlier record. */
  function Insert(m: Commands, c: Command): (r: Commands)
    ensures WellKeyed(m) ==> WellKeyed(r)
  {
    if c.name in m then m else m[c.name := c]
  }

  /** `htrie_map::erase`: removes the record stored under `name`, if any. */
  function Erase(m: Commands, name: string): (r: Commands)
    ensures WellKeyed(m) ==> WellKeyed(r)
  {
    m - {name}
  }

  /** Inserting adds the name to the stored names and leaves every other
      name's record alone; an existing record is kept. */
  lemma InsertEffect(m: Commands, c: Command)
    ensures Insert(m, c).Keys == m.Keys + {c.name}
    ensures Insert(m, c)[c.name] == if c.name in m then m[c.name] else c
    ensures forall k :: k in m && k != c.name ==> Insert(m, c)[k] == m[k]
    ensures |Insert(m, c)| == if c.name in m then |m| else |m| + 1
  {
  }

  /** Erasing removes exactly the name, and the count drops by one if it
      was stored; erasing an absent name changes nothing. */
  lemma EraseEffect(m: Commands, name: string)
    ensures Erase(m, name).Keys == m.Keys - {name}
    ensures forall k :: k in m && k != name ==> Erase(m, name)[k] == m[k]
    ensures |Erase(m, name)| == if name in m then |m| - 1 else |m|
    ensures name !in m ==> Erase(m, name) == m
  {
    var r := Erase(m, name);
    assert r.Keys == m.Keys - {name};
    if name in m {
      assert m.Keys == r.Keys + {name};
      assert |m.Keys| == |r.Keys| + 1;
    } else {
      assert r == m;
    }
  }

  /** Adding a new name and then removing it restores the registry (and so
      its count and every lookup). */
  lemma InsertThenErase(m: Commands, c: Command)
    requires c.name !in m
    ensures Erase(Insert(m, c), c.name) == m
  {
  }

  /** Re-adding a stored name changes nothing. */
  lemma InsertExisting(m: Commands, c: Command)
    requires c.name in m
    ensures Insert(m, c) == m
  {
  }

  /** The longest stored key among the first `n` prefixes of `name`. */
  function LongestPrefixUpTo(m: Commands, name: string, n: nat): (r: Option<string>)
    requires n <= |name|
    ensures r.Some? ==> r.value in m && r.value <= name && |r.value| <= n
    ensures r.Some? ==> forall k :: k in m && k <= name && |k| <= n ==> |k| <= |r.value|
    ensures r.None? ==> forall k :: k in m && k <= name ==> |k| > n
    decreases n
  {
    if name[..n] in m then Some(name[..n])
    else
      assert forall k :: k in m && k <= name ==> |k| != n by {
        forall k | k in m && k <= name ensures |k| != n { PrefixIsSlice(k, name); }
      }
      if n == 0 then None
      else LongestPrefixUpTo(m, name, n - 1)
  }

  /** A prefix of `s` is the slice of `s` of its own length. */
  lemma PrefixIsSlice(p: string, s: string)
    requires p <= s
    ensures p == s[..|p|]
  {
  }

  /** `htrie_map::longest_prefix`: the longest stored key that is a prefix
      of `name` (there is at most one of each length), or None. */
  function LongestPrefix(m: Commands, name: string): (r: Option<string>)
    ensures r.Some? ==> r.value in m && r.value <= name
    ensures r.Some? ==> forall k :: k in m && k <= name ==> |k| <= |r.value|
    ensures r.None? ==> forall k :: k in m ==> !(k <= name)
  {
    LongestPrefixUpTo(m, name, |name|)
  }

  /** `QConsole::findCommandByName`: the longest stored prefix of `name`,
      accepted only when it is as long as `name`. The result is exactly the
      record stored under `name`: a stored strict prefix of `name` never
      matches, and neither does a longer key. */
  function FindCommandByName(m: Commands, name: string): (r: Option<Command>)
    ensures r == if name in m then Some(m[name]) else None
  {
    match LongestPrefix(m, name)
    case Some(k) =>
      PrefixIsSlice(k, name);
      assert name[..|name|] == name;
      assert name in m ==> name <= name;
      if |k| == |name| then Some(m[k]) else None
    case None =>
      assert name <= name;
      None
  }

  /** A stored key that is a strict prefix of the query, or that the query
      is a strict prefix of, does not make the lookup succeed. */
  lemma NoPartialMatch(m: Commands, name: string, other: string)
    requires other in m && other != name && (other <= name || name <= other)
    requires name !in m
    ensures FindCommandByName(m, name) == None
    ensures FindCommandByName(m, other) == Some(m[other])
  {
  }

  /** `htrie_map::equal_prefix_range`, as a set: the stored keys that start
      with `text`. */
  function PrefixRange(m: Commands, text: string): (r: set<string>)
    ensures forall k :: k in r <==> k in m && text <= k
  {
    set k | k in m && text <= k
  }

  /** Adding a command extends the range of every text that its name starts
      with by that name, and leaves the range of every other text alone. */
  lemma PrefixRangeInsert(m: Commands, c: Command, text: string)
    ensures PrefixRange(Insert(m, c), text)
      == PrefixRange(m, text) + (if text <= c.name then {c.name} else {})
  {
  }

  /** Removing a name removes it from every range, and nothing else. */
  lemma PrefixRangeErase(m: Commands, name: string, text: string)
    ensures PrefixRange(Erase(m, name), text) == PrefixRange(m, text) - {name}
  {
  }

  /** Typing more narrows the range; the empty text ranges over every
      stored key; a stored name is in its own range. */
  lemma PrefixRangeNarrows(m: Commands, text: string, longer: string)
    requires text <= longer
    ensures PrefixRange(m, longer) <= PrefixRange(m, text)
    ensures PrefixRange(m, []) == m.Keys
    ensures longer in m ==> longer in PrefixRange(m, longer)
  {
  }

  /** The scenario: with "a", "ab" and "abc" stored, the keys starting with
      "ab" are "ab" and "abc", and the exact lookup of "ab" finds the record
      of "ab" only. */
  lemma PrefixScenario(a: Command, ab: Command, abc: Command)
    requires a.name == "a" && ab.name == "ab" && abc.name == "abc"
    ensures var m := Insert(Insert(Insert(map[], a), ab), abc);
      PrefixRange(m, "ab") == {"ab", "abc"} && FindCommandByName(m, "ab") == Some(ab)
  {
    var m := Insert(Insert(Insert(map[], a), ab), abc);
    assert m.Keys == {"a", "ab", "abc"};
    assert !("ab" <= "a");
    assert "ab" <= "ab" && "ab" <= "abc";
  }

  /** A change to the registry, as `addCommand` and `removeCommandByName`
      make it. */
  datatype Change = Add(command: Command) | Remove(name: string)

  function ApplyChange(m: Commands, ch: Change): Commands {
    match ch
    case Add(c) => Insert(m, c)
    case Remove(n) => Erase(m, n)
  }

  /** The registry after the changes `chs`, made in order. */
  function Apply(m: Commands, chs: seq<Change>): Commands
    decreases |chs|
  {
    if chs == [] then m else ApplyChange(Apply(m, chs[..|chs| - 1]), chs[|chs| - 1])
  }

  function Touches(ch: Change): string {
    match ch
    case Add(c) => c.name
    case Remove(n) => n
  }

  /** Reference definition of being stored: the last change that touches
      `name` decides (an Add stores it, a Remove drops it); with none,
      whether it was stored to begin with. */
  ghost predicate Present(initial: set<string>, chs: seq<Change>, name: string)
    decreases |chs|
  {
    if chs == [] then name in initial
    else if Touches(chs[|chs| - 1]) == name then chs[|chs| - 1].Add?
    else Present(initial, chs[..|chs| - 1], name)
  }

  /** The names any of `chs` touches. */
  function Touched(chs: seq<Change>): (r: set<string>)
    ensures forall i :: 0 <= i < |chs| ==> Touches(chs[i]) in r
  {
    set i | 0 <= i < |chs| :: Touches(chs[i])
  }

  /** After any sequence of additions and removals, the stored names are
      exactly those the reference definition calls present. */
  lemma {:induction false} ApplyKeys(m: Commands, chs: seq<Change>)
    ensures forall n :: n in Apply(m, chs) <==> Present(m.Keys, chs, n)
    decreases |chs|
  {
    if chs != [] {
      var prefix := chs[..|chs| - 1];
      ApplyKeys(m, prefix);
      var last := chs[|chs| - 1];
      match last
      case Add(c) => InsertEffect(Apply(m, prefix), c);
      case Remove(n) => EraseEffect(Apply(m, prefix), n);
    }
  }

  /** The names the reference definition calls present after `chs`. */
  ghost function PresentNames(initial: set<string>, chs: seq<Change>): (r: set<string>)
    ensures forall n :: n in r <==> Present(initial, chs, n)
  {
    NotTouchedKeepsPresence(initial, chs);
    set n | n in initial + Touched(chs) && Present(initial, chs, n)
  }

  /** `commandCount` after any sequence of additions and removals is the
      number of distinct names present: re-adding does not count twice and
      removing an absent name does not count at all. */
  lemma CountAfterChanges(m: Commands, chs: seq<Change>)
    ensures Apply(m, chs).Keys == PresentNames(m.Keys, chs)
    ensures |Apply(m, chs)| == |PresentNames(m.Keys, chs)|
  {
    ApplyKeys(m, chs);
    var keys := Apply(m, chs).Keys;
    var present := PresentNames(m.Keys, chs);
    assert keys == present;
  }

  lemma {:induction false} NotTouchedKeepsPresence(initial: set<string>, chs: seq<Change>)
    ensures forall n :: n !in Touched(chs) ==> (Present(initial, chs, n) <==> n in initial)
    decreases |chs|
  {
    if chs != [] {
      var prefix := chs[..|chs| - 1];
      NotTouchedKeepsPresence(initial, prefix);
      assert Touched(prefix) <= Touched(chs) by {
        forall n | n in Touched(prefix) ensures n in Touched(chs) {
          var i :| 0 <= i < |prefix| && Touches(prefix[i]) == n;
          assert chs[i] == prefix[i];
        }
      }
    }
  }

  /** The additions of `cs`, in order. */
  function Adds(cs: seq<Command>): (r: seq<Change>)
    ensures |r| == |cs|
    ensures forall i :: 0 <= i < |cs| ==> r[i] == Add(cs[i])
  {
    seq(|cs|, i requires 0 <= i < |cs| => Add(cs[i]))
  }

  /** The removals of `names`, in order. */
  function Removes(names: seq<string>): (r: seq<Change>)
    ensures |r| == |names|
    ensures forall i :: 0 <= i < |names| ==> r[i] == Remove(names[i])
  {
    seq(|names|, i requires 0 <= i < |names| => Remove(names[i]))
  }

  predicate DistinctNames(cs: seq<Command>) {
    forall i, j :: 0 <= i < j < |cs| ==> cs[i].name != cs[j].name
  }

  function Names(cs: seq<Command>): (r: seq<string>)
    ensures |r| == |cs|
    ensures forall i :: 0 <= i < |cs| ==> r[i] == cs[i].name
  {
    seq(|cs|, i requires 0 <= i < |cs| => cs[i].name)
  }

  /** The set of names in `cs`. */
  function NameSet(cs: seq<Command>): (r: set<string>)
    ensures forall i :: 0 <= i < |cs| ==> cs[i].name in r
  {
    set i | 0 <= i < |cs| :: cs[i].name
  }

  lemma NameSetSnoc(cs: seq<Command>)
    requires cs != []
    ensures NameSet(cs) == NameSet(cs[..|cs| - 1]) + {cs[|cs| - 1].name}
  {
    var init := cs[..|cs| - 1];
    forall n | n in NameSet(cs) ensures n in NameSet(init) + {cs[|cs| - 1].name} {
      var i :| 0 <= i < |cs| && cs[i].name == n;
      if i < |init| { assert init[i] == cs[i]; }
    }
    forall n | n in NameSet(init) ensures n in NameSet(cs) {
      var i :| 0 <= i < |init| && init[i].name == n;
      assert cs[i] == init[i];
    }
  }

  /** Adding commands with distinct new names raises the count by their
      number; the stored names are the old ones and theirs. */
  lemma {:induction false} AddAllCount(m: Commands, cs: seq<Command>)
    requires DistinctNames(cs)
    requires forall i :: 0 <= i < |cs| ==> cs[i].name !in m
    ensures Apply(m, Adds(cs)).Keys == m.Keys + NameSet(cs)
    ensures |Apply(m, Adds(cs))| == |m| + |cs|
    decreases |cs|
  {
    if cs != [] {
      var init := cs[..|cs| - 1];
      var c := cs[|cs| - 1];
      DistinctFreshInit(m, cs, init);
      AddAllCount(m, init);
      var before := Apply(m, Adds(init));
      assert c.name !in before;
      AddsSnoc(m, cs);
      AddFreshStep(m, cs, before, Insert(before, c));
    } else {
      assert Adds(cs) == [];
      assert Apply(m, Adds(cs)) == m;
      assert NameSet(cs) == {};
    }
  }

  /** Dropping the last of distinct fresh commands leaves distinct fresh
      commands, none of which has the last one's name. */
  lemma DistinctFreshInit(m: Commands, cs: seq<Command>, init: seq<Command>)
    requires cs != [] && DistinctNames(cs) && init == cs[..|cs| - 1]
    requires forall i :: 0 <= i < |cs| ==> cs[i].name !in m
    ensures DistinctNames(init)
    ensures forall i :: 0 <= i < |init| ==> init[i].name !in m
    ensures cs[|cs| - 1].name !in m.Keys + NameSet(init)
  {
    assert forall i :: 0 <= i < |init| ==> init[i] == cs[i];
    assert cs[|cs| - 1].name !in NameSet(init);
  }

  lemma AddFreshStep(m: Commands, cs: seq<Command>, before: Commands, after: Commands)
    requires cs != []
    requires before.Keys == m.Keys + NameSet(cs[..|cs| - 1]) && |before| == |m| + |cs| - 1
    requires cs[|cs| - 1].name !in before && after == Insert(before, cs[|cs| - 1])
    ensures after.Keys == m.Keys + NameSet(cs) && |after| == |m| + |cs|
  {
    var c := cs[|cs| - 1];
    InsertEffect(before, c);
    NameSetSnoc(cs);
    UnionStep(m.Keys, NameSet(cs[..|cs| - 1]), before.Keys, after.Keys, NameSet(cs), c.name);
  }

  lemma UnionStep(a: set<string>, b: set<string>, x: set<string>, y: set<string>, z: set<string>, n: string)
    requires x == a + b && y == x + {n} && z == b + {n}
    ensures y == a + z
  {
  }

  lemma AddsSnoc(m: Commands, cs: seq<Command>)
    requires cs != []
    ensures Apply(m, Adds(cs)) == Insert(Apply(m, Adds(cs[..|cs| - 1])), cs[|cs| - 1])
  {
    assert Adds(cs)[..|cs| - 1] == Adds(cs[..|cs| - 1]);
  }

  /** Removing every name removes everything: the registry becomes empty. */
  lemma {:induction false} RemoveAllEmpties(m: Commands, names: seq<string>)
    requires m.Keys <= set i | 0 <= i < |names| :: names[i]
    ensures Apply(m, Removes(names)) == map[]
    decreases |names|
  {
    if names != [] {
      var init := names[..|names| - 1];
      var n := names[|names| - 1];
      assert Removes(names)[..|names| - 1] == Removes(init);
      RemoveAllEmpties(Erase(m, n), init) by {
        forall k | k in Erase(m, n) ensures k in set i | 0 <= i < |init| :: init[i] {
          var i :| 0 <= i < |names| && names[i] == k;
          assert i < |init| && init[i] == k;
        }
      }
      ApplyErasesCommute(m, init, n);
    }
  }

  lemma {:induction false} ApplyErasesCommute(m: Commands, names: seq<string>, n: string)
    ensures Erase(Apply(m, Removes(names)), n) == Apply(Erase(m, n), Removes(names))
    decreases |names|
  {
    if names != [] {
      var init := names[..|names| - 1];
      assert Removes(names)[..|names| - 1] == Removes(init);
      ApplyErasesCommute(m, init, n);
    }
  }

  /** The population scenario: adding N commands with distinct names to an
      empty registry gives a count of N, and removing all their names
      afterwards gives 0. */
  lemma PopulateThenClear(cs: seq<Command>)
    requires DistinctNames(cs)
    ensures |Apply(map[], Adds(cs))| == |cs|
    ensures |Apply(Apply(map[], Adds(cs)), Removes(Names(cs)))| == 0
  {
    AddAllCount(map[], cs);
    var m := Apply(map[], Adds(cs));
    assert m.Keys == NameSet(cs);
    NameSetCoversNames(cs);
    RemoveAllEmpties(m, Names(cs));
  }

  lemma NameSetCoversNames(cs: seq<Command>)
    ensures NameSet(cs) <= set i | 0 <= i < |cs| :: Names(cs)[i]
  {
    forall n | n in NameSet(cs) ensures n in set i | 0 <= i < |cs| :: Names(cs)[i] {
      var i :| 0 <= i < |cs| && cs[i].name == n;
      assert Names(cs)[i] == n;
    }
  }
}
