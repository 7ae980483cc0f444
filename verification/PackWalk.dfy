/** The walk that decides what a folder sends (internal/cli/pack.go, the WalkDir callback). One list of rules grows as
    directories are visited; the files kept are those a per-path definition keeps. */
module PackWalk {
  import opened Text
  import opened Lines
  import opened Regexp
  import opened IgnoreRules

  /** A file or directory. `content` is the bytes that opening it yields; a link or device is not regular. A file may
      vanish before it is looked at, and a directory may not be readable. */
  datatype Node =
    | File(regular: bool, executable: bool, content: string, vanished: bool)
    | Dir(entries: seq<Entry>, readable: bool)
  datatype Entry = Entry(name: string, node: Node)

  /** A kept file. */
  datatype Kept = Kept(path: string, executable: bool, content: string)

  predicate GoodName(name: string) { name != "" && '/' !in name }

  /** Names are proper, and no directory holds one twice. */
  predicate GoodEntries(entries: seq<Entry>)
    decreases entries
  {
    && (forall i, j :: 0 <= i < j < |entries| ==> entries[i].name != entries[j].name)
    && (forall e | e in entries :: GoodName(e.name) && (e.node.Dir? ==> GoodEntries(e.node.entries)))
  }

  // ---------- ignore files ----------

  const IGNORE_FILES: seq<string> := [".gitignore", ".skifityignore"]
  const SCAN_LIMIT := 64 * 1024

  function Find(entries: seq<Entry>, name: string): (r: Option<Node>)
    ensures r.Some? ==> Entry(name, r.value) in entries
    ensures r.None? ==> forall e :: e in entries ==> e.name != name
  {
    if entries == [] then None
    else if entries[0].name == name then Some(entries[0].node)
    else Find(entries[1..], name)
  }

  /** A file's content is its bytes. */
  function Length(line: string): nat { |line| }

  /** The lines of one ignore file. A directory of that name opens and yields nothing. */
  function FileLines(entries: seq<Entry>, name: string): seq<string> {
    match Find(entries, name)
    case Some(File(_, _, content, _)) => ScanLines(content, SCAN_LIMIT, Length).lines
    case _ => []
  }

  /** The rules a directory's ignore files add, in the order they are read. */
  function DirRules(dir: string, entries: seq<Entry>): seq<Rule> {
    RulesOf(dir, FileLines(entries, IGNORE_FILES[0])) + RulesOf(dir, FileLines(entries, IGNORE_FILES[1]))
  }

  /** In a directory with both ignore files, .skifityignore has the say where one of its lines applies, then .gitignore
      where one of its does, and then what is above. */
  lemma TwoIgnoreFiles(above: seq<Rule>, dir: string, entries: seq<Entry>, rel: string, isDir: bool)
    ensures var git, own := FileLines(entries, ".gitignore"), FileLines(entries, ".skifityignore");
            Decision(above + DirRules(dir, entries), rel, isDir) <==>
              if SomeLine(dir, own, rel, isDir) then LastLeavesOut(dir, own, rel, isDir)
              else if SomeLine(dir, git, rel, isDir) then LastLeavesOut(dir, git, rel, isDir)
              else Decision(above, rel, isDir)
  {
    hide RulesOf, FileLines, Decision, SomeLine, LastLeavesOut, SomeApply;
    var git, own := FileLines(entries, ".gitignore"), FileLines(entries, ".skifityignore");
    assert IGNORE_FILES[0] == ".gitignore" && IGNORE_FILES[1] == ".skifityignore";
    var a, b := RulesOf(dir, git), RulesOf(dir, own);
    assert above + DirRules(dir, entries) == above + a + b;
    LaterRulesFirst(above + a, b, rel, isDir);
    LaterRulesFirst(above, a, rel, isDir);
    LastLineDecides(dir, git, rel, isDir);
    LastLineDecides(dir, own, rel, isDir);
  }

  /** A line of an ignore file that reads back as it was written. */
  predicate ShortLine(line: string) {
    '\n' !in line && |line| < SCAN_LIMIT && (line != "" ==> line[|line| - 1] != '\r')
  }

  /** An ignore file is read line by line. */
  lemma IgnoreFileLines(entries: seq<Entry>, name: string, lines: seq<string>)
    requires lines != [] && forall l :: l in lines ==> ShortLine(l)
    requires Find(entries, name).Some? && Find(entries, name).value.File?
    requires Find(entries, name).value.content == Join(lines, "\n") + "\n"
    ensures FileLines(entries, name) == lines
  {
    hide Find, Join, ScanLines;
    ScanWhole(lines);
  }

  lemma {:induction false} ScanWhole(lines: seq<string>)
    requires lines != [] && forall l :: l in lines ==> ShortLine(l)
    ensures ScanLines(Join(lines, "\n") + "\n", SCAN_LIMIT, Length) == Scan(lines, true)
  {
    hide ScanLines, ShortLine;
    var first, rest := lines[0], lines[1..];
    var tail := if rest == [] then "" else Join(rest, "\n") + "\n";
    assert first in lines;
    assert Join(lines, "\n") + "\n" == first + ['\n'] + tail;
    ScanFirst(first, tail);
    if rest == [] {
      ScanNothing();
      assert lines == [first];
    } else {
      assert forall l :: l in rest ==> l in lines;
      ScanWhole(rest);
    }
    assert lines == [first] + rest;
  }

  lemma ScanNothing()
    ensures ScanLines("", SCAN_LIMIT, Length) == Scan([], true)
  {
  }

  lemma ScanFirst(first: string, tail: string)
    requires ShortLine(first)
    ensures var rest := ScanLines(tail, SCAN_LIMIT, Length);
            ScanLines(first + ['\n'] + tail, SCAN_LIMIT, Length) == Scan([first] + rest.lines, rest.complete)
  {
    hide IndexOf;
    var text := first + ['\n'] + tail;
    IndexOfAppend(first, '\n', tail);
    assert text[..|first|] == first && text[|first| + 1..] == tail;
    assert DropReturn(first) == first;
  }

  // ---------- the walk ----------

  /** The walk so far. Once it has failed it visits nothing more, and the pack ends with an error. */
  datatype Walk = Walk(rules: seq<Rule>, files: seq<Kept>, skipped: seq<string>, failed: bool)

  function Path(dir: string, name: string): string { Prefix(dir) + name }

  function WalkEntries(w: Walk, dir: string, entries: seq<Entry>): Walk
    decreases entries, 0
  {
    if entries == [] || w.failed then w
    else WalkEntries(WalkNode(w, Path(dir, entries[0].name), entries[0].node), dir, entries[1..])
  }

  function WalkNode(w: Walk, path: string, node: Node): Walk
    decreases node, 1
  {
    if Ignored(w.rules, path, node.Dir?) then w
    else
      match node
      case Dir(entries, readable) =>
        WalkEntries(w.(rules := w.rules + DirRules(path, entries), failed := w.failed || !readable), path, entries)
      case File(regular, executable, content, vanished) =>
        if !regular then w.(skipped := w.skipped + [path])
        else if vanished then w.(failed := true)
        else w.(files := w.files + [Kept(path, executable, content)])
  }

  /** The whole walk: the root's ignore files are read, and the root itself is never left out. */
  function WalkRoot(entries: seq<Entry>, readable: bool): Walk {
    var rules := RulesOf("", LEFT_OUT_UNLESS_KEPT) + DirRules("", entries);
    WalkEntries(Walk(rules, [], [], !readable), "", entries)
  }

  class Packer {
    const ignorer: Ignorer
    var files: seq<Kept>
    var skipped: seq<string>
    var failed: bool

    ghost function State(): Walk
      reads this, ignorer
    {
      Walk(ignorer.rules, files, skipped, failed)
    }

    constructor ()
      ensures fresh(ignorer)
      ensures State() == Walk(RulesOf("", LEFT_OUT_UNLESS_KEPT), [], [], false)
    {
      ignorer := new Ignorer();
      files := [];
      skipped := [];
      failed := false;
    }

    method LoadDir(dir: string, entries: seq<Entry>)
      modifies ignorer
      ensures ignorer.rules == old(ignorer.rules) + DirRules(dir, entries)
    {
      hide RulesOf, FileLines;
      ignorer.AddAll(dir, FileLines(entries, IGNORE_FILES[0]));
      ignorer.AddAll(dir, FileLines(entries, IGNORE_FILES[1]));
    }

    method VisitEntries(dir: string, entries: seq<Entry>)
      modifies this, ignorer
      ensures State() == WalkEntries(old(State()), dir, entries)
      decreases entries, 0
    {
      if entries != [] && !failed {
        Visit(Path(dir, entries[0].name), entries[0].node);
        VisitEntries(dir, entries[1..]);
      }
    }

    method Visit(path: string, node: Node)
      modifies this, ignorer
      ensures State() == WalkNode(old(State()), path, node)
      decreases node, 1
    {
      hide Ignored, DirRules;
      var out := ignorer.Check(path, node.Dir?);
      if out {
        return;
      }
      match node
      case Dir(entries, readable) =>
        LoadDir(path, entries);
        failed := failed || !readable;
        VisitEntries(path, entries);
      case File(regular, executable, content, vanished) =>
        if !regular {
          skipped := skipped + [path];
        } else if vanished {
          failed := true;
        } else {
          files := files + [Kept(path, executable, content)];
        }
    }

    method Run(entries: seq<Entry>, readable: bool)
      requires State() == Walk(RulesOf("", LEFT_OUT_UNLESS_KEPT), [], [], false)
      modifies this, ignorer
      ensures State() == WalkRoot(entries, readable)
    {
      hide RulesOf, DirRules, WalkEntries;
      LoadDir("", entries);
      failed := !readable;
      VisitEntries("", entries);
    }
  }

  // ---------- rules that cannot matter ----------

  predicate Reaches(rule: Rule, path: string) { Prefix(rule.base) <= path }

  /** The rules whose directory contains a path. */
  ghost function Relevant(rules: seq<Rule>, path: string): seq<Rule> {
    if rules == [] then []
    else
      var last := rules[|rules| - 1];
      Relevant(rules[..|rules| - 1], path) + if Reaches(last, path) then [last] else []
  }

  lemma {:induction false} DecisionByRelevant(rules: seq<Rule>, path: string, isDir: bool)
    ensures Decision(rules, path, isDir) == Decision(Relevant(rules, path), path, isDir)
  {
    hide Accepts;
    if rules != [] {
      var front, last := rules[..|rules| - 1], rules[|rules| - 1];
      DecisionByRelevant(front, path, isDir);
      if Reaches(last, path) {
        var r := Relevant(front, path) + [last];
        assert r[..|r| - 1] == Relevant(front, path);
      } else {
        assert Relevant(front, path) + [] == Relevant(front, path);
      }
    }
  }

  lemma {:induction false} RelevantAppend(a: seq<Rule>, b: seq<Rule>, path: string)
    ensures Relevant(a + b, path) == Relevant(a, path) + Relevant(b, path)
  {
    if b == [] {
      assert a + b == a;
    } else {
      var front := b[..|b| - 1];
      assert (a + b)[..|a + b| - 1] == a + front;
      RelevantAppend(a, front, path);
    }
  }

  lemma {:induction false} NoneRelevant(rules: seq<Rule>, path: string)
    requires forall r :: r in rules ==> !Reaches(r, path)
    ensures Relevant(rules, path) == []
  {
    if rules != [] {
      NoneRelevant(rules[..|rules| - 1], path);
      assert rules[|rules| - 1] in rules;
    }
  }

  lemma {:induction false} RulesOfBase(base: string, lines: seq<string>)
    ensures forall r :: r in RulesOf(base, lines) ==> r.base == base
  {
    if lines != [] {
      RulesOfBase(base, lines[..|lines| - 1]);
    }
  }

  lemma DirRulesBase(dir: string, entries: seq<Entry>)
    ensures forall r :: r in DirRules(dir, entries) ==> r.base == dir
  {
    hide RulesOf, FileLines;
    RulesOfBase(dir, FileLines(entries, IGNORE_FILES[0]));
    RulesOfBase(dir, FileLines(entries, IGNORE_FILES[1]));
  }

  /** A path at or below another. */
  predicate AtOrBelow(top: string, path: string) { path == top || top + "/" <= path }

  lemma BelowTransitive(a: string, b: string, c: string)
    requires AtOrBelow(a, b) && AtOrBelow(b, c)
    ensures AtOrBelow(a, c)
  {
  }

  /** A path's first name is what comes before its first slash. */
  lemma FirstName(t: string, a: string)
    requires '/' !in a && a <= t && (|t| == |a| || t[|a|] == '/')
    ensures a == t[..IndexOf(t, '/')]
  {
    hide IndexOf;
    if |t| > |a| {
      assert t == a + ['/'] + t[|a| + 1..];
      IndexOfAppend(a, '/', t[|a| + 1..]);
    } else {
      assert t == a;
    }
  }

  lemma OnePathOneName(dir: string, a: string, b: string, path: string)
    requires GoodName(a) && GoodName(b) && AtOrBelow(Path(dir, a), path) && AtOrBelow(Path(dir, b), path)
    ensures a == b
  {
    var t := path[|Prefix(dir)|..];
    assert a <= t && (|t| == |a| || t[|a|] == '/');
    assert b <= t && (|t| == |b| || t[|b|] == '/');
    FirstName(t, a);
    FirstName(t, b);
  }

  /** Two names in one directory lead to disjoint paths: a rule below one reaches no path below the other. */
  lemma SameName(dir: string, a: string, b: string, base: string, path: string)
    requires GoodName(a) && GoodName(b)
    requires AtOrBelow(Path(dir, a), base) && AtOrBelow(Path(dir, b), path) && Prefix(base) <= path
    ensures a == b
  {
    assert Path(dir, a) + "/" <= path;
    OnePathOneName(dir, a, b, path);
  }

  // ---------- the walk keeps what ancestors' rules keep ----------

  /** What is kept when only the rules of the directories above are consulted. */
  ghost function KeptEntries(chain: seq<Rule>, dir: string, entries: seq<Entry>): seq<Kept>
    decreases entries, 0
  {
    if entries == [] then []
    else KeptNode(chain, Path(dir, entries[0].name), entries[0].node) + KeptEntries(chain, dir, entries[1..])
  }

  ghost function KeptNode(chain: seq<Rule>, path: string, node: Node): seq<Kept>
    decreases node, 1
  {
    if Ignored(chain, path, node.Dir?) then []
    else
      match node
      case Dir(entries, _) => KeptEntries(chain + DirRules(path, entries), path, entries)
      case File(regular, executable, content, _) => if regular then [Kept(path, executable, content)] else []
  }

  /** What is passed over with a note, being no regular file, when only the rules above are consulted. */
  ghost function PassedEntries(chain: seq<Rule>, dir: string, entries: seq<Entry>): seq<string>
    decreases entries, 0
  {
    if entries == [] then []
    else PassedNode(chain, Path(dir, entries[0].name), entries[0].node) + PassedEntries(chain, dir, entries[1..])
  }

  ghost function PassedNode(chain: seq<Rule>, path: string, node: Node): seq<string>
    decreases node, 1
  {
    if Ignored(chain, path, node.Dir?) then []
    else if node.Dir? then PassedEntries(chain + DirRules(path, node.entries), path, node.entries)
    else if node.regular then []
    else [path]
  }

  /** A node that ends the walk where it is reached. */
  predicate Trouble(node: Node) { if node.Dir? then !node.readable else node.regular && node.vanished }

  /** Whether the walk meets trouble when only the rules of the directories above are consulted. */
  ghost predicate BlockedEntries(chain: seq<Rule>, dir: string, entries: seq<Entry>)
    decreases entries, 0
  {
    && entries != []
    && (BlockedNode(chain, Path(dir, entries[0].name), entries[0].node) || BlockedEntries(chain, dir, entries[1..]))
  }

  ghost predicate BlockedNode(chain: seq<Rule>, path: string, node: Node)
    decreases node, 1
  {
    && !Ignored(chain, path, node.Dir?)
    && (Trouble(node) || (node.Dir? && BlockedEntries(chain + DirRules(path, node.entries), path, node.entries)))
  }

  /** Two rule lists that decide alike for every path at or below `path`. */
  ghost predicate AgreeBelow(rules: seq<Rule>, chain: seq<Rule>, path: string) {
    forall p :: AtOrBelow(path, p) ==> Relevant(rules, p) == Relevant(chain, p)
  }

  ghost predicate AgreeOn(rules: seq<Rule>, chain: seq<Rule>, dir: string, entries: seq<Entry>) {
    forall e :: e in entries ==> AgreeBelow(rules, chain, Path(dir, e.name))
  }

  /** `after` is `before` and then rules of directories at or below `path`. */
  ghost predicate Grew(before: seq<Rule>, after: seq<Rule>, path: string) {
    before <= after && forall r :: r in after[|before|..] ==> AtOrBelow(path, r.base)
  }

  lemma AgreeMeans(rules: seq<Rule>, chain: seq<Rule>, path: string, isDir: bool)
    requires AgreeBelow(rules, chain, path)
    ensures Ignored(rules, path, isDir) == Ignored(chain, path, isDir)
  {
    hide LeftOutByName;
    assert AtOrBelow(path, path);
    DecisionByRelevant(rules, path, isDir);
    DecisionByRelevant(chain, path, isDir);
  }

  /** Entering a directory adds the same rules to both lists. */
  lemma AgreeInside(rules: seq<Rule>, chain: seq<Rule>, path: string, added: seq<Rule>, entries: seq<Entry>)
    requires path != "" && AgreeBelow(rules, chain, path)
    ensures AgreeOn(rules + added, chain + added, path, entries)
  {
    forall e, p | e in entries && AtOrBelow(Path(path, e.name), p)
      ensures Relevant(rules + added, p) == Relevant(chain + added, p)
    {
      BelowTransitive(path, Path(path, e.name), p);
      RelevantAppend(rules, added, p);
      RelevantAppend(chain, added, p);
    }
  }

  /** Rules from one entry's subtree do not reach a sibling's. */
  lemma AgreeAfterSibling(before: seq<Rule>, after: seq<Rule>, chain: seq<Rule>, dir: string, a: string, b: string)
    requires GoodName(a) && GoodName(b) && a != b
    requires Grew(before, after, Path(dir, a)) && AgreeBelow(before, chain, Path(dir, b))
    ensures AgreeBelow(after, chain, Path(dir, b))
  {
    var added := after[|before|..];
    forall p | AtOrBelow(Path(dir, b), p) ensures Relevant(after, p) == Relevant(chain, p) {
      forall r | r in added ensures !Reaches(r, p) {
        if Reaches(r, p) {
          SameName(dir, a, b, r.base, p);
        }
      }
      NoneRelevant(added, p);
      assert after == before + added;
      RelevantAppend(before, added, p);
    }
  }

  lemma AgreeOnRest(before: seq<Rule>, after: seq<Rule>, chain: seq<Rule>, dir: string, entries: seq<Entry>)
    requires entries != [] && GoodEntries(entries) && AgreeOn(before, chain, dir, entries)
    requires Grew(before, after, Path(dir, entries[0].name))
    ensures AgreeOn(after, chain, dir, entries[1..])
  {
    hide AgreeBelow, Grew;
    var rest := entries[1..];
    forall f | f in rest ensures AgreeBelow(after, chain, Path(dir, f.name)) {
      var i :| 0 <= i < |rest| && rest[i] == f;
      assert entries[i + 1] == f && entries[0] in entries;
      AgreeAfterSibling(before, after, chain, dir, entries[0].name, f.name);
    }
  }

  lemma GrewTransitive(a: seq<Rule>, b: seq<Rule>, c: seq<Rule>, path: string)
    requires Grew(a, b, path) && Grew(b, c, path)
    ensures Grew(a, c, path)
  {
    assert c[|a|..] == b[|a|..] + c[|b|..];
  }

  lemma GrewByNothing(rules: seq<Rule>, path: string)
    ensures Grew(rules, rules, path)
  {
  }

  lemma GrewBelow(a: seq<Rule>, b: seq<Rule>, top: string, path: string)
    requires Grew(a, b, path) && AtOrBelow(top, path)
    ensures Grew(a, b, top)
  {
    forall r | r in b[|a|..] ensures AtOrBelow(top, r.base) {
      BelowTransitive(top, path, r.base);
    }
  }

  lemma {:induction false} WalkNodeAgrees(w: Walk, chain: seq<Rule>, path: string, node: Node)
    requires path != "" && !w.failed && (node.Dir? ==> GoodEntries(node.entries))
    requires AgreeBelow(w.rules, chain, path)
    ensures WalkNode(w, path, node).failed <==> BlockedNode(chain, path, node)
    ensures !WalkNode(w, path, node).failed ==> WalkNode(w, path, node).files == w.files + KeptNode(chain, path, node)
    ensures !WalkNode(w, path, node).failed ==>
              WalkNode(w, path, node).skipped == w.skipped + PassedNode(chain, path, node)
    ensures Grew(w.rules, WalkNode(w, path, node).rules, path)
    decreases node, 1
  {
    hide Ignored, DirRules, AgreeBelow;
    AgreeMeans(w.rules, chain, path, node.Dir?);
    if !Ignored(chain, path, node.Dir?) && node.Dir? {
      var added := DirRules(path, node.entries);
      var inside := w.(rules := w.rules + added, failed := !node.readable);
      DirRulesBase(path, node.entries);
      assert Grew(w.rules, inside.rules, path);
      AgreeInside(w.rules, chain, path, added, node.entries);
      WalkEntriesAgrees(inside, chain + added, path, node.entries);
      GrewTransitive(w.rules, inside.rules, WalkNode(w, path, node).rules, path);
    }
  }

  lemma {:induction false} WalkEntriesAgrees(w: Walk, chain: seq<Rule>, dir: string, entries: seq<Entry>)
    requires GoodEntries(entries) && AgreeOn(w.rules, chain, dir, entries)
    ensures WalkEntries(w, dir, entries).failed <==> w.failed || BlockedEntries(chain, dir, entries)
    ensures !WalkEntries(w, dir, entries).failed ==>
              WalkEntries(w, dir, entries).files == w.files + KeptEntries(chain, dir, entries)
    ensures !WalkEntries(w, dir, entries).failed ==>
              WalkEntries(w, dir, entries).skipped == w.skipped + PassedEntries(chain, dir, entries)
    ensures dir != "" ==> Grew(w.rules, WalkEntries(w, dir, entries).rules, dir)
    decreases entries, 0
  {
    hide Ignored, DirRules, AgreeBelow, AgreeOn, Grew, WalkNode, KeptNode, PassedNode, BlockedNode;
    hide GoodEntries, Path, AtOrBelow;
    if entries != [] && !w.failed {
      var e, rest := entries[0], entries[1..];
      var path := Path(dir, e.name);
      GoodTail(entries);
      PathBelow(dir, e.name);
      AgreeOnFirst(w.rules, chain, dir, entries);
      WalkNodeAgrees(w, chain, path, e.node);
      var next := WalkNode(w, path, e.node);
      AgreeOnRest(w.rules, next.rules, chain, dir, entries);
      WalkEntriesAgrees(next, chain, dir, rest);
      var all := WalkEntries(next, dir, rest);
      assert WalkEntries(w, dir, entries) == all;
      if dir != "" {
        GrewBelow(w.rules, next.rules, dir, path);
        GrewTransitive(w.rules, next.rules, all.rules, dir);
      }
    } else {
      GrewByNothing(w.rules, dir);
    }
  }

  lemma AgreeOnFirst(rules: seq<Rule>, chain: seq<Rule>, dir: string, entries: seq<Entry>)
    requires entries != [] && AgreeOn(rules, chain, dir, entries)
    ensures AgreeBelow(rules, chain, Path(dir, entries[0].name))
  {
    hide AgreeBelow;
    assert entries[0] in entries;
  }

  lemma PathBelow(dir: string, name: string)
    requires GoodName(name)
    ensures Path(dir, name) != "" && (dir != "" ==> AtOrBelow(dir, Path(dir, name)))
  {
  }

  lemma GoodTail(entries: seq<Entry>)
    requires entries != [] && GoodEntries(entries)
    ensures GoodEntries(entries[1..])
    ensures GoodName(entries[0].name) && (entries[0].node.Dir? ==> GoodEntries(entries[0].node.entries))
  {
    var rest := entries[1..];
    assert entries[0] in entries;
    forall i, j | 0 <= i < j < |rest| ensures rest[i].name != rest[j].name {
      assert rest[i] == entries[i + 1] && rest[j] == entries[j + 1];
    }
  }
}
