/** From the files a walk kept to the archive (internal/cli/pack.go, the sort, the per-entry loop and the totals). */
module PackArchive {
  import opened Text
  import opened PackWalk
  import opened PackSpec

  // ---------- order ----------

  ghost predicate SortedByPath(files: seq<Kept>) {
    forall i, j :: 0 <= i < j < |files| ==> Less(files[i].path, files[j].path)
  }

  function Insert(f: Kept, files: seq<Kept>): seq<Kept> {
    if files == [] || Less(f.path, files[0].path) then [f] + files else [files[0]] + Insert(f, files[1..])
  }

  /** sort.Slice by path. */
  function Sort(files: seq<Kept>): seq<Kept> {
    if files == [] then [] else Insert(files[0], Sort(files[1..]))
  }

  ghost function Members(files: seq<Kept>): set<Kept> { set f | f in files }

  lemma SortedCons(f: Kept, files: seq<Kept>)
    requires SortedByPath(files) && forall g :: g in files ==> Less(f.path, g.path)
    ensures SortedByPath([f] + files)
  {
    hide Less;
    var all := [f] + files;
    forall i, j | 0 <= i < j < |all| ensures Less(all[i].path, all[j].path) {
      assert all[j] == files[j - 1] && all[j] in files;
    }
  }

  lemma SortedTail(files: seq<Kept>)
    requires files != [] && SortedByPath(files)
    ensures SortedByPath(files[1..]) && forall g :: g in files[1..] ==> Less(files[0].path, g.path)
  {
    hide Less;
    var rest := files[1..];
    forall i, j | 0 <= i < j < |rest| ensures Less(rest[i].path, rest[j].path) {
      assert rest[i] == files[i + 1] && rest[j] == files[j + 1];
    }
  }

  lemma {:induction false} InsertSorts(f: Kept, files: seq<Kept>)
    requires SortedByPath(files) && forall g :: g in files ==> f.path != g.path
    ensures SortedByPath(Insert(f, files))
    ensures multiset(Insert(f, files)) == multiset(files) + multiset{f}
  {
    hide Less;
    if files != [] {
      assert files == [files[0]] + files[1..];
      SortedTail(files);
      LessTotal(f.path, files[0].path);
      if Less(f.path, files[0].path) {
        forall g | g in files ensures Less(f.path, g.path) {
          if g in files[1..] { LessTransitive(f.path, files[0].path, g.path); }
        }
        SortedCons(f, files);
      } else {
        InsertSorts(f, files[1..]);
        var rest := Insert(f, files[1..]);
        forall g | g in rest ensures Less(files[0].path, g.path) {
          assert g in multiset(rest);
          assert g == f || g in files[1..];
        }
        SortedCons(files[0], rest);
      }
    }
  }

  lemma DistinctTail(files: seq<Kept>)
    requires files != [] && DistinctPaths(files)
    ensures DistinctPaths(files[1..]) && forall g :: g in files[1..] ==> files[0].path != g.path
  {
    var rest := files[1..];
    assert forall i :: 0 <= i < |rest| ==> rest[i] == files[i + 1];
  }

  /** Sorting files with distinct paths gives a strictly ordered rearrangement of them. */
  lemma {:induction false} SortSorts(files: seq<Kept>)
    requires DistinctPaths(files)
    ensures SortedByPath(Sort(files)) && multiset(Sort(files)) == multiset(files)
  {
    assert SortedByPath([]);
    hide Insert, SortedByPath, DistinctPaths;
    if files != [] {
      var f, rest := files[0], files[1..];
      assert files == [f] + rest;
      DistinctTail(files);
      SortSorts(rest);
      forall g | g in Sort(rest) ensures f.path != g.path {
        assert g in multiset(rest);
      }
      InsertSorts(f, Sort(rest));
    }
  }

  lemma {:induction false} SortedUnique(a: seq<Kept>, b: seq<Kept>)
    requires SortedByPath(a) && SortedByPath(b) && Members(a) == Members(b)
    ensures a == b
  {
    hide Less, SortedByPath;
    assert a != [] ==> a[0] in Members(a);
    assert b != [] ==> b[0] in Members(b);
    if a != [] {
      SortedTail(a);
      SortedTail(b);
      assert a == [a[0]] + a[1..] && b == [b[0]] + b[1..];
      LessTotal(a[0].path, a[0].path);
      LessTotal(a[0].path, b[0].path);
      assert a[0] in b && b[0] in a;
      assert Members(a[1..]) == Members(a) - {a[0]};
      assert Members(b[1..]) == Members(b) - {b[0]};
      SortedUnique(a[1..], b[1..]);
    }
  }

  // ---------- the archive ----------

  /** An archive entry; every entry carries the same fixed time. */
  datatype Item = Item(path: string, mode: int, size: nat, content: string)

  datatype Archive = Archive(items: seq<Item>, unpacked: nat)

  function Mode(executable: bool): int { if executable then 0x1ed else 0x1a4 }  // 0o755 and 0o644

  /** What is read back for a file: exactly the size the walk saw, or nothing when it is gone or shorter. */
  function ReadBack(f: Kept, disk: map<string, string>): Option<Item> {
    if f.path !in disk || |disk[f.path]| < |f.content| then None
    else Some(Item(f.path, Mode(f.executable), |f.content|, disk[f.path][..|f.content|]))
  }

  function ItemsOf(files: seq<Kept>, disk: map<string, string>): (r: Option<seq<Item>>)
    ensures r.Some? <==> forall f :: f in files ==> ReadBack(f, disk).Some?
    ensures r.Some? ==> |r.value| == |files|
    ensures r.Some? ==> forall i :: 0 <= i < |files| ==> Some(r.value[i]) == ReadBack(files[i], disk)
  {
    if files == [] then Some([])
    else
      assert files == files[..|files| - 1] + [files[|files| - 1]];
      var front, last := ItemsOf(files[..|files| - 1], disk), ReadBack(files[|files| - 1], disk);
      if front.None? || last.None? then None else Some(front.value + [last.value])
  }

  ghost function Sizes(files: seq<Kept>): nat {
    if files == [] then 0 else Sizes(files[..|files| - 1]) + |files[|files| - 1].content|
  }

  ghost function ItemSizes(items: seq<Item>): nat {
    if items == [] then 0 else ItemSizes(items[..|items| - 1]) + items[|items| - 1].size
  }

  /** The first `n` writes to the archive file all take. */
  ghost predicate Takes(broken: set<nat>, n: nat) { forall i: nat :: i < n ==> i !in broken }

  /** The first `i` files have become these entries, and this is their size. */
  ghost predicate Packed(files: seq<Kept>, i: nat, disk: map<string, string>, items: seq<Item>, unpacked: nat)
    requires i <= |files|
  {
    ItemsOf(files[..i], disk) == Some(items) && unpacked == Sizes(files[..i]) == ItemSizes(items)
  }

  /** `broken` are the writes to the archive file that fail: 0 stands for making it, the entries are counted from 1, and
      what comes after the last of them is finishing it. */
  method WriteArchive(kept: seq<Kept>, disk: map<string, string>, broken: set<nat>) returns (r: Option<Archive>)
    ensures r.Some? <==> ItemsOf(Sort(kept), disk).Some? && Takes(broken, |Sort(kept)| + 2)
    ensures r.Some? ==> r.value.items == ItemsOf(Sort(kept), disk).value
    ensures r.Some? ==> r.value.unpacked == ItemSizes(r.value.items) == Total(TopLevel(kept))
  {
    hide Sort, ReadBack, ItemsOf, Sizes, ItemSizes, Packed, Total, TopLevel;
    var files := Sort(kept);
    var items: seq<Item> := [];
    var unpacked: nat := 0;
    if 0 in broken {
      return None;
    }
    NonePacked(files, disk);
    for i := 0 to |files|
      invariant Packed(files, i, disk, items, unpacked) && Takes(broken, i + 1)
    {
      var item := ReadBack(files[i], disk);
      if item.None? {
        Unreadable(files, i, disk);
        return None;
      }
      if i + 1 in broken {
        return None;
      }
      OneMorePacked(files, i, disk, items, unpacked);
      items := items + [item.value];
      unpacked := unpacked + |files[i].content|;
    }
    AllPacked(files, disk, items, unpacked);
    assert Sizes(files) == Total(TopLevel(kept)) by { UnpackedIsConserved(kept); }
    if |files| + 1 in broken {
      return None;
    }
    return Some(Archive(items, unpacked));
  }

  lemma NonePacked(files: seq<Kept>, disk: map<string, string>)
    ensures Packed(files, 0, disk, [], 0)
  {
    assert files[..0] == [];
  }

  lemma OneMorePacked(files: seq<Kept>, i: nat, disk: map<string, string>, items: seq<Item>, unpacked: nat)
    requires i < |files| && Packed(files, i, disk, items, unpacked) && ReadBack(files[i], disk).Some?
    ensures Packed(files, i + 1, disk, items + [ReadBack(files[i], disk).value], unpacked + |files[i].content|)
  {
    var more := items + [ReadBack(files[i], disk).value];
    assert files[..i + 1][..i] == files[..i] && more[..|more| - 1] == items;
    ReadBackSize(files[i], disk);
    hide ReadBack;
  }

  lemma AllPacked(files: seq<Kept>, disk: map<string, string>, items: seq<Item>, unpacked: nat)
    requires Packed(files, |files|, disk, items, unpacked)
    ensures ItemsOf(files, disk) == Some(items) && unpacked == Sizes(files) == ItemSizes(items)
  {
    assert files[..|files|] == files;
  }

  lemma Unreadable(files: seq<Kept>, i: nat, disk: map<string, string>)
    requires i < |files| && ReadBack(files[i], disk).None?
    ensures ItemsOf(files, disk).None?
  {
    hide ReadBack;
    assert files[i] in files;
  }

  lemma ReadBackSize(f: Kept, disk: map<string, string>)
    requires ReadBack(f, disk).Some?
    ensures ReadBack(f, disk).value.size == |f.content|
  {
  }

  ghost predicate SortedItems(items: seq<Item>) {
    forall i, j :: 0 <= i < j < |items| ==> Less(items[i].path, items[j].path)
  }

  /** The entries depend only on which files were kept and on what is read back for them: two walks that keep the same
      set of files, in any order, write the same entries, in strictly increasing order of path. */
  lemma ArchiveIsDetermined(a: seq<Kept>, b: seq<Kept>, disk: map<string, string>)
    requires DistinctPaths(a) && DistinctPaths(b) && Members(a) == Members(b)
    ensures ItemsOf(Sort(a), disk) == ItemsOf(Sort(b), disk)
    ensures ItemsOf(Sort(a), disk).Some? ==> SortedItems(ItemsOf(Sort(a), disk).value)
  {
    hide Sort, ItemsOf;
    SortSorts(a);
    SortSorts(b);
    SameMembers(a);
    SameMembers(b);
    SortedUnique(Sort(a), Sort(b));
    if ItemsOf(Sort(a), disk).Some? {
      ItemsAreSorted(Sort(a), disk);
    }
  }

  lemma ItemsAreSorted(files: seq<Kept>, disk: map<string, string>)
    requires SortedByPath(files) && ItemsOf(files, disk).Some?
    ensures SortedItems(ItemsOf(files, disk).value)
  {
    hide Less;
    var items := ItemsOf(files, disk).value;
    forall i, j | 0 <= i < j < |items| ensures Less(items[i].path, items[j].path) {
      assert Less(files[i].path, files[j].path);
      assert Some(items[i]) == ReadBack(files[i], disk) && Some(items[j]) == ReadBack(files[j], disk);
    }
  }

  /** The disk still holds what the walk saw. */
  predicate Unchanged(kept: seq<Kept>, disk: map<string, string>) {
    forall f :: f in kept ==> f.path in disk && disk[f.path] == f.content
  }

  function ItemFor(f: Kept): Item { Item(f.path, Mode(f.executable), |f.content|, f.content) }

  /** From an unchanged disk every kept file becomes an entry with its own content, and nothing else does. */
  lemma UnchangedArchive(kept: seq<Kept>, disk: map<string, string>)
    requires DistinctPaths(kept) && Unchanged(kept, disk)
    ensures ItemsOf(Sort(kept), disk).Some?
    ensures forall item :: item in ItemsOf(Sort(kept), disk).value <==> exists f :: f in kept && item == ItemFor(f)
  {
    hide Sort, ItemsOf, Mode;
    var files := Sort(kept);
    SameMembers(kept);
    assert forall f :: f in files <==> f in Members(files);
    assert forall f :: f in kept <==> f in Members(kept);
    forall f | f in files ensures ReadBack(f, disk) == Some(ItemFor(f)) {
      assert f.content[..|f.content|] == f.content;
    }
    var items := ItemsOf(files, disk).value;
    forall i | 0 <= i < |files| ensures items[i] == ItemFor(files[i]) {
      assert Some(items[i]) == ReadBack(files[i], disk) && files[i] in files;
    }
    forall item ensures item in items <==> exists f :: f in kept && item == ItemFor(f) {
      if item in items {
        var i :| 0 <= i < |items| && items[i] == item;
        assert files[i] in files;
      }
      if f :| f in kept && item == ItemFor(f) {
        assert f in files;
        var i :| 0 <= i < |files| && files[i] == f;
      }
    }
  }

  lemma SameMembers(files: seq<Kept>)
    requires DistinctPaths(files)
    ensures Members(Sort(files)) == Members(files)
  {
    hide Sort;
    SortSorts(files);
    forall f ensures f in Sort(files) <==> f in files {
      assert f in multiset(Sort(files)) <==> f in multiset(files);
    }
  }

  /** The execute bits of a mode, for the owner, the group and others. */
  predicate MayRun(mode: int) { mode / 64 % 2 == 1 && mode / 8 % 2 == 1 && mode % 2 == 1 }

  predicate MayNotRun(mode: int) { mode / 64 % 2 == 0 && mode / 8 % 2 == 0 && mode % 2 == 0 }

  /** An entry may be run exactly when its file may, everybody may read it, and only its owner may write it. */
  lemma ModesMean(f: Kept, disk: map<string, string>)
    requires ReadBack(f, disk).Some?
    ensures var mode := ReadBack(f, disk).value.mode;
            && (f.executable ==> MayRun(mode)) && (!f.executable ==> MayNotRun(mode))
            && mode / 256 % 2 == 1 && mode / 32 % 2 == 1 && mode / 4 % 2 == 1
            && mode / 128 % 2 == 1 && mode / 16 % 2 == 0 && mode / 2 % 2 == 0
  {
  }

  /** Every entry holds as many bytes as it says, from the start of what its file holds by now. */
  lemma EntriesAreWhole(files: seq<Kept>, disk: map<string, string>, i: nat)
    requires ItemsOf(files, disk).Some? && i < |files|
    ensures var item := ItemsOf(files, disk).value[i];
            && item.path == files[i].path && item.size == |files[i].content| == |item.content|
            && files[i].path in disk && item.content <= disk[files[i].path]
  {
    hide Mode;
    var item := ItemsOf(files, disk).value[i];
    assert Some(item) == ReadBack(files[i], disk);
  }

  // ---------- totals ----------

  /** The first name of a path. */
  function TopName(path: string): string { path[..IndexOf(path, '/')] }

  function Add(totals: map<string, nat>, name: string, size: nat): map<string, nat> {
    totals[name := (if name in totals then totals[name] else 0) + size]
  }

  /** What the walk adds up per top-level name. */
  function TopLevel(files: seq<Kept>): map<string, nat> {
    if files == [] then map[]
    else
      var last := files[|files| - 1];
      Add(TopLevel(files[..|files| - 1]), TopName(last.path), |last.content|)
  }

  ghost function Total(totals: map<string, nat>): nat
    decreases |totals|
  {
    if totals == map[] then 0
    else
      var k :| k in totals;
      totals[k] + Total(totals - {k})
  }

  lemma {:induction false} TotalWithout(totals: map<string, nat>, k: string)
    requires k in totals
    ensures Total(totals) == totals[k] + Total(totals - {k})
    decreases |totals|
  {
    var j :| j in totals && Total(totals) == totals[j] + Total(totals - {j});
    if j != k {
      TotalWithout(totals - {j}, k);
      TotalWithout(totals - {k}, j);
      assert totals - {j} - {k} == totals - {k} - {j};
    }
  }

  lemma TotalAdd(totals: map<string, nat>, name: string, size: nat)
    ensures Total(Add(totals, name, size)) == Total(totals) + size
  {
    var after := Add(totals, name, size);
    TotalWithout(after, name);
    if name in totals {
      TotalWithout(totals, name);
      assert after - {name} == totals - {name};
    } else {
      assert after - {name} == totals;
    }
  }

  /** The per-top-level totals add up to the size of everything kept, which sorting does not change. */
  lemma {:induction false} TotalsAddUp(files: seq<Kept>)
    ensures Total(TopLevel(files)) == Sizes(files)
  {
    if files != [] {
      var front, last := files[..|files| - 1], files[|files| - 1];
      TotalsAddUp(front);
      TotalAdd(TopLevel(front), TopName(last.path), |last.content|);
    }
  }

  lemma {:induction false} SizesAppend(a: seq<Kept>, b: seq<Kept>)
    ensures Sizes(a + b) == Sizes(a) + Sizes(b)
  {
    if b == [] {
      assert a + b == a;
    } else {
      assert (a + b)[..|a + b| - 1] == a + b[..|b| - 1];
      SizesAppend(a, b[..|b| - 1]);
    }
  }

  lemma {:induction false} InsertSize(f: Kept, files: seq<Kept>)
    ensures Sizes(Insert(f, files)) == |f.content| + Sizes(files)
  {
    hide Less;
    assert Sizes([f]) == |f.content| by { assert [f][..0] == []; }
    if files == [] || Less(f.path, files[0].path) {
      SizesAppend([f], files);
    } else {
      InsertSize(f, files[1..]);
      SizesAppend([files[0]], Insert(f, files[1..]));
      SizesAppend([files[0]], files[1..]);
      assert files == [files[0]] + files[1..];
    }
  }

  lemma {:induction false} SortKeepsSize(files: seq<Kept>)
    ensures Sizes(Sort(files)) == Sizes(files)
  {
    if files != [] {
      SortKeepsSize(files[1..]);
      InsertSize(files[0], Sort(files[1..]));
      SizesAppend([files[0]], files[1..]);
      assert files == [files[0]] + files[1..] && [files[0]][..0] == [];
    }
  }

  /** What is kept, sorted or not, is as large as the per-top-level totals say. */
  lemma UnpackedIsConserved(kept: seq<Kept>)
    ensures Sizes(Sort(kept)) == Sizes(kept) == Total(TopLevel(kept))
  {
    hide Sort, Total, TopLevel;
    SortKeepsSize(kept);
    TotalsAddUp(kept);
  }

  /** The files whose path starts with a name. */
  ghost function Under(files: seq<Kept>, name: string): seq<Kept> {
    if files == [] then []
    else
      var last := files[|files| - 1];
      Under(files[..|files| - 1], name) + if Split(last.path, '/')[0] == name then [last] else []
  }

  lemma TopNameIs(path: string)
    ensures TopName(path) == Split(path, '/')[0]
  {
    hide IndexOf;
    assert path[..|path|] == path;
  }

  /** The total of a top-level name is the size of the files whose path starts with it, and there is a total for exactly
      the names some kept path starts with. */
  lemma {:induction false} TopLevelMeans(files: seq<Kept>, name: string)
    ensures name in TopLevel(files) <==> Under(files, name) != []
    ensures name in TopLevel(files) ==> TopLevel(files)[name] == Sizes(Under(files, name))
  {
    hide TopName, Split;
    if files != [] {
      var front, last := files[..|files| - 1], files[|files| - 1];
      TopLevelMeans(front, name);
      TopNameIs(last.path);
      if Split(last.path, '/')[0] == name {
        var u := Under(front, name);
        assert (u + [last])[..|u|] == u;
      } else {
        assert Under(files, name) == Under(front, name);
      }
    }
  }
}
