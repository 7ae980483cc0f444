/** What a folder should send, path by path, and the proof that the walk sends exactly that. */
module PackSpec {
  import opened Text
  import opened IgnoreRules
  import opened PackWalk

  // ---------- paths as names ----------

  /** The path of a list of names below `dir`. */
  ghost function PathFrom(dir: string, names: seq<string>): string
    decreases |names|
  {
    if names == [] then dir else PathFrom(Path(dir, names[0]), names[1..])
  }

  ghost function NodeAt(entries: seq<Entry>, names: seq<string>): Option<Node>
    requires names != []
    decreases |names|
  {
    var found := Find(entries, names[0]);
    if |names| == 1 then found
    else if found.Some? && found.value.Dir? then NodeAt(found.value.entries, names[1..])
    else None
  }

  /** The rules that may speak about a path: `above`, then the ignore files of its ancestors from the top down. */
  ghost function RulesAbove(above: seq<Rule>, dir: string, entries: seq<Entry>, names: seq<string>): seq<Rule>
    requires names != []
    decreases |names|
  {
    var found := Find(entries, names[0]);
    if |names| > 1 && found.Some? && found.value.Dir? then
      var path := Path(dir, names[0]);
      RulesAbove(above + DirRules(path, found.value.entries), path, found.value.entries, names[1..])
    else above
  }

  ghost predicate LeftOut(above: seq<Rule>, dir: string, entries: seq<Entry>, names: seq<string>)
    requires names != []
  {
    var node := NodeAt(entries, names);
    node.Some? ==> Ignored(RulesAbove(above, dir, entries, names), PathFrom(dir, names), node.value.Dir?)
  }

  /** Something that is not left out, and neither is any directory above it. */
  ghost predicate ReachedFrom(above: seq<Rule>, dir: string, entries: seq<Entry>, names: seq<string>) {
    && names != [] && NodeAt(entries, names).Some?
    && forall n :: 1 <= n <= |names| ==> !LeftOut(above, dir, entries, names[..n])
  }

  /** Such a regular file. */
  ghost predicate SentFrom(above: seq<Rule>, dir: string, entries: seq<Entry>, names: seq<string>) {
    && ReachedFrom(above, dir, entries, names)
    && NodeAt(entries, names).value.File? && NodeAt(entries, names).value.regular
  }

  ghost function RootRules(entries: seq<Entry>): seq<Rule> {
    RulesOf("", LEFT_OUT_UNLESS_KEPT) + DirRules("", entries)
  }

  /** What should be sent from a folder. */
  ghost predicate Sent(entries: seq<Entry>, names: seq<string>) {
    SentFrom(RootRules(entries), "", entries, names)
  }

  /** What ends a walk: an unreadable directory or a vanished file that is not left out. */
  ghost predicate Stuck(entries: seq<Entry>, names: seq<string>) {
    ReachedFrom(RootRules(entries), "", entries, names) && Trouble(NodeAt(entries, names).value)
  }

  // ---------- one step down ----------

  lemma OneName(above: seq<Rule>, dir: string, entries: seq<Entry>, name: string)
    ensures PathFrom(dir, [name]) == Path(dir, name)
    ensures NodeAt(entries, [name]) == Find(entries, name)
    ensures RulesAbove(above, dir, entries, [name]) == above
  {
    assert [name][1..] == [];
    assert PathFrom(Path(dir, name), []) == Path(dir, name);
  }

  lemma ReachStep(above: seq<Rule>, dir: string, entries: seq<Entry>, names: seq<string>)
    requires |names| > 1
    ensures var found := Find(entries, names[0]);
            var path := Path(dir, names[0]);
            ReachedFrom(above, dir, entries, names) <==>
              && found.Some? && found.value.Dir? && !Ignored(above, path, true)
              && ReachedFrom(above + DirRules(path, found.value.entries), path, found.value.entries, names[1..])
  {
    hide Ignored, DirRules, Find, Path;
    var found := Find(entries, names[0]);
    var path, rest := Path(dir, names[0]), names[1..];
    if found.Some? && found.value.Dir? {
      var es := found.value.entries;
      var inner := above + DirRules(path, es);
      assert names[..1] == [names[0]];
      OneName(above, dir, entries, names[0]);
      assert LeftOut(above, dir, entries, names[..1]) <==> Ignored(above, path, true);
      forall n | 2 <= n <= |names|
        ensures LeftOut(above, dir, entries, names[..n]) <==> LeftOut(inner, path, es, rest[..n - 1])
      {
        assert names[..n][1..] == rest[..n - 1] && names[..n][0] == names[0];
      }
      if ReachedFrom(above, dir, entries, names) {
        forall n | 1 <= n <= |rest| ensures !LeftOut(inner, path, es, rest[..n]) {
          assert !LeftOut(above, dir, entries, names[..n + 1]);
        }
      }
      if ReachedFrom(inner, path, es, rest) && !Ignored(above, path, true) {
        forall n | 1 <= n <= |names| ensures !LeftOut(above, dir, entries, names[..n]) {
          assert n > 1 ==> !LeftOut(inner, path, es, rest[..n - 1]);
        }
      }
    }
  }

  lemma ReachOne(above: seq<Rule>, dir: string, entries: seq<Entry>, name: string)
    ensures var found := Find(entries, name);
            ReachedFrom(above, dir, entries, [name]) <==>
              found.Some? && !Ignored(above, Path(dir, name), found.value.Dir?)
    ensures NodeAt(entries, [name]) == Find(entries, name)
  {
    hide Ignored, DirRules, Find, Path;
    OneName(above, dir, entries, name);
    assert [name][..1] == [name];
    assert LeftOut(above, dir, entries, [name][..1]) <==> LeftOut(above, dir, entries, [name]);
  }

  lemma SentStep(above: seq<Rule>, dir: string, entries: seq<Entry>, names: seq<string>)
    requires |names| > 1
    ensures var found := Find(entries, names[0]);
            var path := Path(dir, names[0]);
            SentFrom(above, dir, entries, names) <==>
              && found.Some? && found.value.Dir? && !Ignored(above, path, true)
              && SentFrom(above + DirRules(path, found.value.entries), path, found.value.entries, names[1..])
  {
    hide Ignored, DirRules, Find, Path, ReachedFrom;
    ReachStep(above, dir, entries, names);
    ReachedNames(above, dir, entries, names);
  }

  lemma ReachedNames(above: seq<Rule>, dir: string, entries: seq<Entry>, names: seq<string>)
    ensures ReachedFrom(above, dir, entries, names) ==> names != [] && NodeAt(entries, names).Some?
  {
  }

  lemma SentFile(above: seq<Rule>, dir: string, entries: seq<Entry>, name: string)
    ensures var found := Find(entries, name);
            SentFrom(above, dir, entries, [name]) <==>
              found.Some? && found.value.File? && found.value.regular && !Ignored(above, Path(dir, name), false)
  {
    hide Ignored, DirRules, Find, Path, ReachedFrom;
    ReachOne(above, dir, entries, name);
  }

  // ---------- what ends the walk ----------

  lemma {:induction false} BlockedByEntry(above: seq<Rule>, dir: string, entries: seq<Entry>)
    ensures BlockedEntries(above, dir, entries) <==>
            exists e :: e in entries && BlockedNode(above, Path(dir, e.name), e.node)
  {
    hide BlockedNode, Path;
    if entries != [] {
      BlockedByEntry(above, dir, entries[1..]);
      assert entries == [entries[0]] + entries[1..];
      if BlockedNode(above, Path(dir, entries[0].name), entries[0].node) {
        assert entries[0] in entries;
      }
      if e :| e in entries && BlockedNode(above, Path(dir, e.name), e.node) {
        assert e == entries[0] || e in entries[1..];
      }
    }
  }

  lemma {:induction false} BlockedIsReached(above: seq<Rule>, dir: string, entries: seq<Entry>)
      returns (names: seq<string>)
    requires GoodEntries(entries) && BlockedEntries(above, dir, entries)
    ensures ReachedFrom(above, dir, entries, names) && Trouble(NodeAt(entries, names).value)
    decreases entries
  {
    hide Ignored, DirRules, Path, ReachedFrom, BlockedEntries, Find, Trouble;
    BlockedByEntry(above, dir, entries);
    var e :| e in entries && BlockedNode(above, Path(dir, e.name), e.node);
    FindOwn(entries, e);
    var path := Path(dir, e.name);
    if Trouble(e.node) {
      names := [e.name];
      ReachOne(above, dir, entries, e.name);
    } else {
      GoodInside(entries, e);
      var es := e.node.entries;
      var rest := BlockedIsReached(above + DirRules(path, es), path, es);
      ReachedNames(above + DirRules(path, es), path, es, rest);
      names := [e.name] + rest;
      assert names[0] == e.name && names[1..] == rest;
      ReachStep(above, dir, entries, names);
      assert NodeAt(entries, names) == NodeAt(es, rest);
    }
  }

  lemma {:induction false} ReachedIsBlocked(above: seq<Rule>, dir: string, entries: seq<Entry>, names: seq<string>)
    requires names != [] && NodeAt(entries, names).Some?
    requires ReachedFrom(above, dir, entries, names) && Trouble(NodeAt(entries, names).value)
    ensures BlockedEntries(above, dir, entries)
    decreases |names|
  {
    hide Ignored, DirRules, Path, ReachedFrom, BlockedEntries, Find, Trouble;
    BlockedByEntry(above, dir, entries);
    FindGives(entries, names[0]);
    var node, path := Find(entries, names[0]).value, Path(dir, names[0]);
    if |names| == 1 {
      assert names == [names[0]];
      ReachOne(above, dir, entries, names[0]);
    } else {
      ReachStep(above, dir, entries, names);
      ReachedIsBlocked(above + DirRules(path, node.entries), path, node.entries, names[1..]);
    }
    assert BlockedNode(above, path, node);
    assert Entry(names[0], node) in entries;
  }

  /** The pack fails for a folder that cannot be read, or when something that is not left out, and lies under nothing
      that is, cannot be: whatever is left out may be unreadable. */
  lemma WalkFailsExactly(entries: seq<Entry>, readable: bool)
    requires GoodEntries(entries)
    ensures WalkRoot(entries, readable).failed <==> !readable || exists names :: Stuck(entries, names)
  {
    hide RulesOf, DirRules, BlockedEntries, WalkEntries, GoodEntries, Relevant, ReachedFrom, NodeAt, Trouble;
    var rules := RootRules(entries);
    assert AgreeOn(rules, rules, "", entries);
    WalkEntriesAgrees(Walk(rules, [], [], !readable), rules, "", entries);
    if BlockedEntries(rules, "", entries) {
      var names := BlockedIsReached(rules, "", entries);
      assert Stuck(entries, names);
    }
    if names :| Stuck(entries, names) {
      ReachedNames(rules, "", entries, names);
      ReachedIsBlocked(rules, "", entries, names);
    }
  }

  // ---------- the walk sends exactly what should be sent ----------

  ghost predicate KeptIs(k: Kept, dir: string, entries: seq<Entry>, names: seq<string>)
    requires names != []
  {
    var node := NodeAt(entries, names);
    && k.path == PathFrom(dir, names)
    && node.Some? && node.value.File? && node.value.executable == k.executable && node.value.content == k.content
  }

  lemma FindOwn(entries: seq<Entry>, e: Entry)
    requires GoodEntries(entries) && e in entries
    ensures Find(entries, e.name) == Some(e.node)
  {
    var found := Find(entries, e.name);
    var i :| 0 <= i < |entries| && entries[i] == e;
    if found.Some? {
      var j :| 0 <= j < |entries| && entries[j] == Entry(e.name, found.value);
      assert i == j;
    }
  }

  lemma {:induction false} KeptFromEntry(above: seq<Rule>, dir: string, entries: seq<Entry>, k: Kept)
    ensures k in KeptEntries(above, dir, entries) <==>
            exists e :: e in entries && k in KeptNode(above, Path(dir, e.name), e.node)
  {
    hide KeptNode, Path;
    if entries != [] {
      KeptFromEntry(above, dir, entries[1..], k);
      assert entries == [entries[0]] + entries[1..];
      if k in KeptNode(above, Path(dir, entries[0].name), entries[0].node) {
        assert entries[0] in entries;
      }
      if e :| e in entries && k in KeptNode(above, Path(dir, e.name), e.node) {
        assert e == entries[0] || e in entries[1..];
      }
    }
  }

  lemma {:induction false} KeptIsSent(above: seq<Rule>, dir: string, entries: seq<Entry>, k: Kept)
      returns (names: seq<string>)
    requires GoodEntries(entries) && k in KeptEntries(above, dir, entries)
    ensures SentFrom(above, dir, entries, names) && KeptIs(k, dir, entries, names)
    decreases entries
  {
    hide Ignored, DirRules, Path, SentFrom, KeptEntries, Find;
    KeptFromEntry(above, dir, entries, k);
    var e :| e in entries && k in KeptNode(above, Path(dir, e.name), e.node);
    FindOwn(entries, e);
    var path := Path(dir, e.name);
    match e.node
    case File(_, _, _, _) =>
      names := [e.name];
      OneName(above, dir, entries, e.name);
      SentFile(above, dir, entries, e.name);
    case Dir(es, _) =>
      GoodInside(entries, e);
      var rest := KeptIsSent(above + DirRules(path, es), path, es, k);
      SentNonEmpty(above + DirRules(path, es), path, es, rest);
      names := [e.name] + rest;
      assert names[0] == e.name && names[1..] == rest;
      assert PathFrom(dir, names) == PathFrom(path, rest) && NodeAt(entries, names) == NodeAt(es, rest);
      SentStep(above, dir, entries, names);
  }

  lemma GoodInside(entries: seq<Entry>, e: Entry)
    requires GoodEntries(entries) && e in entries && e.node.Dir?
    ensures GoodEntries(e.node.entries)
  {
  }

  lemma SentNonEmpty(above: seq<Rule>, dir: string, entries: seq<Entry>, names: seq<string>)
    requires SentFrom(above, dir, entries, names)
    ensures names != [] && NodeAt(entries, names).Some?
  {
  }

  lemma {:induction false} SentIsKept(above: seq<Rule>, dir: string, entries: seq<Entry>, names: seq<string>, k: Kept)
    requires SentFrom(above, dir, entries, names) && names != [] && KeptIs(k, dir, entries, names)
    ensures k in KeptEntries(above, dir, entries)
    decreases |names|
  {
    hide Ignored, DirRules, Path, SentFrom, KeptEntries, Find;
    var found := Find(entries, names[0]);
    var path := Path(dir, names[0]);
    KeptFromEntry(above, dir, entries, k);
    if |names| == 1 {
      assert names == [names[0]];
      OneName(above, dir, entries, names[0]);
      SentFile(above, dir, entries, names[0]);
      FindGives(entries, names[0]);
      assert k in KeptNode(above, path, found.value);
    } else {
      SentStep(above, dir, entries, names);
      FindGives(entries, names[0]);
      SentIsKept(above + DirRules(path, found.value.entries), path, found.value.entries, names[1..], k);
      assert k in KeptNode(above, path, found.value);
    }
    assert Entry(names[0], found.value) in entries;
  }

  lemma FindGives(entries: seq<Entry>, name: string)
    requires Find(entries, name).Some?
    ensures Entry(name, Find(entries, name).value) in entries
  {
  }

  /** A kept file is the file of these names, under their joined path. */
  ghost predicate FileAt(k: Kept, entries: seq<Entry>, names: seq<string>) {
    && names != [] && k.path == Join(names, "/")
    && var node := NodeAt(entries, names);
       node.Some? && node.value.File? && node.value.executable == k.executable && node.value.content == k.content
  }

  lemma {:induction false} NamesAreGood(entries: seq<Entry>, names: seq<string>)
    requires GoodEntries(entries) && names != [] && NodeAt(entries, names).Some?
    ensures forall n :: n in names ==> GoodName(n)
    decreases |names|
  {
    FindGives(entries, names[0]);
    var e := Entry(names[0], Find(entries, names[0]).value);
    assert e in entries && GoodName(e.name);
    if |names| > 1 {
      GoodInside(entries, e);
      NamesAreGood(e.node.entries, names[1..]);
      assert names == [names[0]] + names[1..];
    }
  }

  lemma KeptIsFile(k: Kept, entries: seq<Entry>, names: seq<string>)
    requires GoodEntries(entries) && names != [] && NodeAt(entries, names).Some?
    ensures KeptIs(k, "", entries, names) <==> FileAt(k, entries, names)
  {
    hide GoodEntries, NodeAt, PathFrom, Join;
    NamesAreGood(entries, names);
    PathFromJoin("", names);
  }

  /** The files the walk keeps are exactly those that should be sent: rules picked up in other directories on the
      way never change a decision. */
  lemma WalkSendsExactly(entries: seq<Entry>, readable: bool, k: Kept)
    requires GoodEntries(entries) && !WalkRoot(entries, readable).failed
    ensures k in WalkRoot(entries, readable).files <==>
            exists names :: Sent(entries, names) && FileAt(k, entries, names)
  {
    hide RulesOf, DirRules, KeptEntries, SentFrom, KeptIs, NodeAt, GoodEntries, Join;
    var rules := RootRules(entries);
    WalkIsKept(entries, readable);
    if k in WalkRoot(entries, readable).files {
      var names := KeptIsSent(rules, "", entries, k);
      SentNonEmpty(rules, "", entries, names);
      KeptIsFile(k, entries, names);
    }
    if names :| Sent(entries, names) && FileAt(k, entries, names) {
      KeptIsFile(k, entries, names);
      SentIsKept(rules, "", entries, names, k);
    }
  }

  lemma WalkIsKept(entries: seq<Entry>, readable: bool)
    requires GoodEntries(entries) && !WalkRoot(entries, readable).failed
    ensures WalkRoot(entries, readable).files == KeptEntries(RootRules(entries), "", entries)
  {
    hide RulesOf, DirRules, KeptEntries, WalkEntries, GoodEntries, Relevant;
    var rules := RootRules(entries);
    assert AgreeOn(rules, rules, "", entries);
    WalkEntriesAgrees(Walk(rules, [], [], !readable), rules, "", entries);
    assert [] + KeptEntries(rules, "", entries) == KeptEntries(rules, "", entries);
  }

  // ---------- what is passed over with a note ----------

  lemma {:induction false} PassedByEntry(above: seq<Rule>, dir: string, entries: seq<Entry>, path: string)
    ensures path in PassedEntries(above, dir, entries) <==>
            exists e :: e in entries && path in PassedNode(above, Path(dir, e.name), e.node)
  {
    hide PassedNode, Path;
    if entries != [] {
      PassedByEntry(above, dir, entries[1..], path);
      assert entries == [entries[0]] + entries[1..];
      if path in PassedNode(above, Path(dir, entries[0].name), entries[0].node) {
        assert entries[0] in entries;
      }
      if e :| e in entries && path in PassedNode(above, Path(dir, e.name), e.node) {
        assert e == entries[0] || e in entries[1..];
      }
    }
  }

  predicate Irregular(node: Node) { node.File? && !node.regular }

  lemma {:induction false} PassedIsReached(above: seq<Rule>, dir: string, entries: seq<Entry>, path: string)
      returns (names: seq<string>)
    requires GoodEntries(entries) && path in PassedEntries(above, dir, entries)
    ensures ReachedFrom(above, dir, entries, names) && Irregular(NodeAt(entries, names).value)
    ensures PathFrom(dir, names) == path
    decreases entries
  {
    hide Ignored, DirRules, Path, ReachedFrom, PassedEntries, Find;
    PassedByEntry(above, dir, entries, path);
    var e :| e in entries && path in PassedNode(above, Path(dir, e.name), e.node);
    FindOwn(entries, e);
    var at := Path(dir, e.name);
    if e.node.File? {
      names := [e.name];
      ReachOne(above, dir, entries, e.name);
      OneName(above, dir, entries, e.name);
    } else {
      GoodInside(entries, e);
      var es := e.node.entries;
      var rest := PassedIsReached(above + DirRules(at, es), at, es, path);
      ReachedNames(above + DirRules(at, es), at, es, rest);
      names := [e.name] + rest;
      assert names[0] == e.name && names[1..] == rest;
      ReachStep(above, dir, entries, names);
      assert NodeAt(entries, names) == NodeAt(es, rest) && PathFrom(dir, names) == PathFrom(at, rest);
    }
  }

  lemma {:induction false} ReachedIsPassed(above: seq<Rule>, dir: string, entries: seq<Entry>, names: seq<string>)
    requires names != [] && NodeAt(entries, names).Some?
    requires ReachedFrom(above, dir, entries, names) && Irregular(NodeAt(entries, names).value)
    ensures PathFrom(dir, names) in PassedEntries(above, dir, entries)
    decreases |names|
  {
    hide Ignored, DirRules, Path, ReachedFrom, PassedEntries, Find;
    PassedByEntry(above, dir, entries, PathFrom(dir, names));
    FindGives(entries, names[0]);
    var node, at := Find(entries, names[0]).value, Path(dir, names[0]);
    if |names| == 1 {
      assert names == [names[0]];
      ReachOne(above, dir, entries, names[0]);
      OneName(above, dir, entries, names[0]);
    } else {
      ReachStep(above, dir, entries, names);
      ReachedIsPassed(above + DirRules(at, node.entries), at, node.entries, names[1..]);
    }
    assert PathFrom(dir, names) in PassedNode(above, at, node);
    assert Entry(names[0], node) in entries;
  }

  ghost predicate PassedOver(entries: seq<Entry>, names: seq<string>, path: string) {
    && ReachedFrom(RootRules(entries), "", entries, names) && Irregular(NodeAt(entries, names).value)
    && path == Join(names, "/")
  }

  /** What is skipped with a note is exactly what is reached and is neither a directory nor a regular file. */
  lemma WalkSkipsExactly(entries: seq<Entry>, readable: bool, path: string)
    requires GoodEntries(entries) && !WalkRoot(entries, readable).failed
    ensures path in WalkRoot(entries, readable).skipped <==> exists names :: PassedOver(entries, names, path)
  {
    hide RulesOf, DirRules, PassedEntries, WalkEntries, GoodEntries, Relevant, ReachedFrom, NodeAt, Join, PathFrom;
    var rules := RootRules(entries);
    assert AgreeOn(rules, rules, "", entries);
    WalkEntriesAgrees(Walk(rules, [], [], !readable), rules, "", entries);
    assert [] + PassedEntries(rules, "", entries) == PassedEntries(rules, "", entries);
    if path in PassedEntries(rules, "", entries) {
      var names := PassedIsReached(rules, "", entries, path);
      ReachedPath(entries, names);
      assert PassedOver(entries, names, path);
    }
    if names :| PassedOver(entries, names, path) {
      ReachedNames(rules, "", entries, names);
      ReachedPath(entries, names);
      ReachedIsPassed(rules, "", entries, names);
    }
  }

  lemma ReachedPath(entries: seq<Entry>, names: seq<string>)
    requires GoodEntries(entries) && ReachedFrom(RootRules(entries), "", entries, names)
    ensures PathFrom("", names) == Join(names, "/")
  {
    hide Join, PathFrom;
    ReachedNames(RootRules(entries), "", entries, names);
    NamesAreGood(entries, names);
    PathFromJoin("", names);
    assert "" + Join(names, "/") == Join(names, "/");
  }

  // ---------- what no `!` line brings back ----------

  lemma {:induction false} PathFromJoin(dir: string, names: seq<string>)
    requires names != [] && forall n :: n in names ==> GoodName(n)
    ensures PathFrom(dir, names) == Prefix(dir) + Join(names, "/")
    decreases |names|
  {
    if |names| > 1 {
      var path := Path(dir, names[0]);
      assert GoodName(names[0]);
      PathFromJoin(path, names[1..]);
      assert Prefix(dir) + (names[0] + "/" + Join(names[1..], "/")) == path + "/" + Join(names[1..], "/");
    } else {
      assert names[1..] == [];
    }
  }

  lemma {:induction false} PathFromLast(dir: string, names: seq<string>)
    requires names != []
    ensures PathFrom(dir, names) == Path(PathFrom(dir, names[..|names| - 1]), names[|names| - 1])
    decreases |names|
  {
    if |names| > 1 {
      PathFromLast(Path(dir, names[0]), names[1..]);
      assert names[1..][..|names| - 2] == names[..|names| - 1][1..];
    } else {
      OneName([], dir, [], names[0]);
      assert names == [names[0]];
    }
  }

  lemma BaseOfPath(dir: string, name: string)
    requires GoodName(name)
    ensures Base(Path(dir, name)) == name
  {
    var rel := Path(dir, name);
    var base := Base(rel);
    assert rel[|rel| - |name|..] == name;
    if |base| < |rel| && |name| < |rel| {
      assert rel[|rel| - |name| - 1] == '/';
      LastSlash(rel, |rel| - |base| - 1, |rel| - |name| - 1);
    } else if |name| == |rel| {
      assert rel == name;
    }
  }

  lemma SentNames(entries: seq<Entry>, names: seq<string>, n: nat)
    requires Sent(entries, names) && 1 <= n <= |names| && GoodName(names[n - 1])
    ensures names[n - 1] !in ALWAYS_LEFT_OUT
    ensures n == |names| ==> !IsSecretsFile(names[n - 1])
  {
    hide RootRules, Decision, Base;
    var top := names[..n];
    assert names[..|names|] == names;
    PathFromLast("", top);
    BaseOfPath(PathFrom("", top[..n - 1]), names[n - 1]);
  }

  /** A directory above a file that is sent is not left out. */
  lemma {:induction false} SentDirs(above: seq<Rule>, dir: string, entries: seq<Entry>, names: seq<string>, n: nat)
    requires GoodEntries(entries) && SentFrom(above, dir, entries, names) && 1 <= n < |names|
    ensures NodeAt(entries, names[..n]).Some? && NodeAt(entries, names[..n]).value.Dir?
    ensures !Ignored(RulesAbove(above, dir, entries, names[..n]), Prefix(dir) + Join(names[..n], "/"), true)
  {
    hide Ignored, RulesAbove, GoodEntries, Join;
    DirsAbove(entries, names, n);
    NamesAreGood(entries, names[..n]);
    PathFromJoin(dir, names[..n]);
    assert !LeftOut(above, dir, entries, names[..n]);
  }

  lemma {:induction false} DirsAbove(entries: seq<Entry>, names: seq<string>, n: nat)
    requires 1 <= n < |names| && NodeAt(entries, names).Some?
    ensures NodeAt(entries, names[..n]).Some? && NodeAt(entries, names[..n]).value.Dir?
    decreases n
  {
    if n > 1 {
      DirsAbove(Find(entries, names[0]).value.entries, names[1..], n - 1);
      assert names[..n][1..] == names[1..][..n - 1];
    }
  }

  /** Of every file the walk keeps, no name of its path is one that is always left out, its own name is not that of a
      file of secrets, and no directory above it is left out by the rules down to that directory: no `!` line brings any
      of them back. */
  lemma NothingBroughtBack(entries: seq<Entry>, readable: bool, k: Kept)
    requires GoodEntries(entries) && !WalkRoot(entries, readable).failed && k in WalkRoot(entries, readable).files
    ensures var names := Split(k.path, '/');
            && (forall i :: 0 <= i < |names| ==>
                  names[i] !in {".git", ".hg", ".svn", "node_modules", ".DS_Store", "Thumbs.db", "skifity.toml"})
            && !IsSecretsFile(names[|names| - 1])
            && (forall n :: 1 <= n < |names| ==>
                  !Ignored(RulesAbove(RootRules(entries), "", entries, names[..n]), Join(names[..n], "/"), true))
  {
    hide RootRules, Join, Split, Ignored, RulesAbove, GoodEntries, SentFrom, NodeAt, WalkRoot, IsSecretsFile;
    WalkSendsExactly(entries, readable, k);
    var names :| Sent(entries, names) && FileAt(k, entries, names);
    NamesAreGood(entries, names);
    SplitJoin(names, '/');
    assert Split(k.path, '/') == names;
    forall i | 0 <= i < |names|
      ensures names[i] !in {".git", ".hg", ".svn", "node_modules", ".DS_Store", "Thumbs.db", "skifity.toml"}
    {
      SentNames(entries, names, i + 1);
    }
    SentNames(entries, names, |names|);
    forall n | 1 <= n < |names|
      ensures !Ignored(RulesAbove(RootRules(entries), "", entries, names[..n]), Join(names[..n], "/"), true)
    {
      SentDirs(RootRules(entries), "", entries, names, n);
      assert "" + Join(names[..n], "/") == Join(names[..n], "/");
    }
  }

  // ---------- no path is kept twice ----------

  ghost predicate DistinctPaths(files: seq<Kept>) {
    forall i, j :: 0 <= i < j < |files| ==> files[i].path != files[j].path
  }

  lemma {:induction false} KeptBelow(above: seq<Rule>, path: string, node: Node)
    requires path != "" && (node.Dir? ==> GoodEntries(node.entries))
    ensures forall k :: k in KeptNode(above, path, node) ==> AtOrBelow(path, k.path)
    ensures DistinctPaths(KeptNode(above, path, node))
    decreases node, 1
  {
    hide Ignored, DirRules;
    if !Ignored(above, path, node.Dir?) && node.Dir? {
      var inner := above + DirRules(path, node.entries);
      KeptApart(inner, path, node.entries);
      forall k | k in KeptEntries(inner, path, node.entries) ensures AtOrBelow(path, k.path) {
        var e :| e in node.entries && AtOrBelow(Path(path, e.name), k.path);
        PathBelow(path, e.name);
        BelowTransitive(path, Path(path, e.name), k.path);
      }
    }
  }

  lemma {:induction false} KeptApart(above: seq<Rule>, dir: string, entries: seq<Entry>)
    requires GoodEntries(entries)
    ensures forall k :: k in KeptEntries(above, dir, entries) ==>
              exists e :: e in entries && AtOrBelow(Path(dir, e.name), k.path)
    ensures DistinctPaths(KeptEntries(above, dir, entries))
    decreases entries, 0
  {
    hide KeptNode, AtOrBelow, Path, GoodEntries;
    if entries != [] {
      var e, rest := entries[0], entries[1..];
      GoodTail(entries);
      PathBelow(dir, e.name);
      KeptBelow(above, Path(dir, e.name), e.node);
      KeptApart(above, dir, rest);
      var head, tail := KeptNode(above, Path(dir, e.name), e.node), KeptEntries(above, dir, rest);
      assert entries == [e] + rest;
      forall h, k | h in head && k in tail ensures h.path != k.path {
        var f :| f in rest && AtOrBelow(Path(dir, f.name), k.path);
        NameDiffers(entries, f);
        if h.path == k.path {
          OnePathOneName(dir, e.name, f.name, h.path);
        }
      }
      DistinctAppend(head, tail);
    }
  }

  lemma DistinctAppend(a: seq<Kept>, b: seq<Kept>)
    requires DistinctPaths(a) && DistinctPaths(b) && forall x, y :: x in a && y in b ==> x.path != y.path
    ensures DistinctPaths(a + b)
  {
    var c := a + b;
    forall i, j | 0 <= i < j < |c| ensures c[i].path != c[j].path {
      assert i < |a| ==> c[i] in a;
      assert j >= |a| ==> c[j] in b;
    }
  }

  lemma NameDiffers(entries: seq<Entry>, f: Entry)
    requires GoodEntries(entries) && entries != [] && f in entries[1..]
    ensures f.name != entries[0].name && GoodName(f.name)
  {
    var i :| 0 <= i < |entries[1..]| && entries[1..][i] == f;
    assert entries[i + 1] == f;
  }

  lemma WalkPathsDistinct(entries: seq<Entry>, readable: bool)
    requires GoodEntries(entries) && !WalkRoot(entries, readable).failed
    ensures DistinctPaths(WalkRoot(entries, readable).files)
  {
    hide WalkRoot, KeptEntries;
    WalkIsKept(entries, readable);
    KeptApart(RootRules(entries), "", entries);
  }
}
