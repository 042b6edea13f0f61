/**
 The file tree of the source browser: entries are grouped by their first path component and the
 groups become folders, recursively.
 */
module FileTree {
  import opened Basics
  import opened Sorting

  datatype Record = Record(path: string, relativePath: string, fileName: string)

  datatype Entry = Entry(components: seq<string>, file: Record)

  datatype Node = Node(id: string, name: string, relativePath: string, file: Option<Record>, children: seq<Node>)

  type Groups = map<string, seq<Entry>>

  // ---------------------------------------------------------------- paths

  /** `split(separator: "/")`: empty components are left out. */
  function Split(path: string): seq<string> {
    SplitFrom(path, "")
  }

  function Close(part: string): seq<string> {
    if part == "" then [] else [part]
  }

  function SplitFrom(path: string, part: string): seq<string> {
    if path == "" then Close(part)
    else if path[0] == '/' then Close(part) + SplitFrom(path[1..], "")
    else SplitFrom(path[1..], part + [path[0]])
  }

  /** `joined(separator: "/")`. */
  function Join(parts: seq<string>): string {
    if parts == [] then ""
    else if |parts| == 1 then parts[0]
    else parts[0] + "/" + Join(parts[1..])
  }

  predicate IsName(part: string) {
    part != "" && '/' !in part
  }

  lemma {:induction false} SplitTakesName(name: string, rest: string, part: string)
    requires '/' !in name
    ensures SplitFrom(name + rest, part) == SplitFrom(rest, part + name)
  {
    if name == "" {
      assert name + rest == rest && part + name == part;
    } else {
      assert (name + rest)[1..] == name[1..] + rest;
      SplitTakesName(name[1..], rest, part + [name[0]]);
      assert part + [name[0]] + name[1..] == part + name;
    }
  }

  /** A relative path names its folders: splitting undoes joining. */
  lemma {:induction false} SplitUndoesJoin(parts: seq<string>)
    requires forall k :: 0 <= k < |parts| ==> IsName(parts[k])
    ensures Split(Join(parts)) == parts
  {
    if parts == [] {
    } else if |parts| == 1 {
      SplitTakesName(parts[0], "", "");
      assert parts[0] + "" == parts[0] == "" + parts[0];
    } else {
      var rest := "/" + Join(parts[1..]);
      assert Join(parts) == parts[0] + rest;
      SplitTakesName(parts[0], rest, "");
      assert "" + parts[0] == parts[0];
      assert rest[1..] == Join(parts[1..]);
      SplitUndoesJoin(parts[1..]);
    }
  }

  lemma {:induction false} SplitGivesNames(path: string, part: string)
    requires '/' !in part
    ensures forall k :: 0 <= k < |SplitFrom(path, part)| ==> IsName(SplitFrom(path, part)[k])
    decreases |path|
  {
    if path != "" {
      SplitGivesNames(path[1..], if path[0] == '/' then "" else part + [path[0]]);
    }
  }

  lemma {:induction false} SplitFromAtSlash(a: string, b: string, part: string)
    ensures SplitFrom(a + "/" + b, part) == SplitFrom(a, part) + SplitFrom(b, "")
    decreases |a|
  {
    if a == "" {
      assert a + "/" + b == "/" + b && ("/" + b)[1..] == b;
    } else {
      assert (a + "/" + b)[1..] == a[1..] + "/" + b;
      if a[0] == '/' {
        SplitFromAtSlash(a[1..], b, "");
        assert Close(part) + (SplitFrom(a[1..], "") + SplitFrom(b, "")) == (Close(part) + SplitFrom(a[1..], "")) + SplitFrom(b, "");
      } else {
        SplitFromAtSlash(a[1..], b, part + [a[0]]);
      }
    }
  }

  /** A path is cut at its slashes and nowhere else, and an empty part is none. */
  lemma SplitAtSlash(a: string, b: string)
    ensures Split(a + "/" + b) == Split(a) + Split(b)
    ensures Split("") == []
    ensures a != "" && '/' !in a ==> Split(a) == [a]
  {
    SplitFromAtSlash(a, b, "");
    if '/' !in a {
      SplitTakesName(a, "", "");
      assert a + "" == a && "" + a == a;
    }
  }

  // ---------------------------------------------------------------- what a tree holds

  /** A file and the folders it sits under. */
  datatype Placed = Placed(folders: seq<string>, file: Record)

  function Flatten(nodes: seq<Node>, under: seq<string>): multiset<Placed> {
    if nodes == [] then multiset{} else FlattenNode(nodes[0], under) + Flatten(nodes[1..], under)
  }

  function FlattenNode(n: Node, under: seq<string>): multiset<Placed> {
    if n.file.Some? then multiset{Placed(under, n.file.value)} else Flatten(n.children, under + [n.name])
  }

  /** Where each entry belongs: under all its components but the last. */
  function Belongs(entries: seq<Entry>, under: seq<string>): multiset<Placed> {
    if entries == [] then multiset{}
    else Belongs(entries[..|entries| - 1], under) + Place(entries[|entries| - 1], under)
  }

  function Place(e: Entry, under: seq<string>): multiset<Placed> {
    if e.components == [] then multiset{}
    else multiset{Placed(under + e.components[..|e.components| - 1], e.file)}
  }

  predicate IsFolder(n: Node) {
    n.file.None?
  }

  /** Folders come first, carry the path they stand for, are not empty, and no two share a name;
      files have no children. */
  predicate WellFormed(nodes: seq<Node>, prefix: seq<string>) {
    && (forall k :: 0 <= k < |nodes| ==> NodeWellFormed(nodes[k], prefix))
    && (forall j, k :: 0 <= j < k < |nodes| && IsFolder(nodes[k]) ==> IsFolder(nodes[j]))
    && (forall j, k :: 0 <= j < k < |nodes| && IsFolder(nodes[j]) && IsFolder(nodes[k]) ==> nodes[j].name != nodes[k].name)
  }

  predicate NodeWellFormed(n: Node, prefix: seq<string>) {
    match n.file
    case Some(file) =>
      n.id == "file:" + file.path && n.name == file.fileName && n.relativePath == file.relativePath && n.children == []
    case None =>
      && n.relativePath == Join(prefix + [n.name])
      && n.id == "folder:" + n.relativePath
      && n.children != []
      && WellFormed(n.children, prefix + [n.name])
  }

  lemma {:induction false} FlattenAppends(a: seq<Node>, b: seq<Node>, under: seq<string>)
    ensures Flatten(a + b, under) == Flatten(a, under) + Flatten(b, under)
    decreases |a|
  {
    if a == [] {
      assert a + b == b;
    } else {
      assert (a + b)[1..] == a[1..] + b;
      FlattenAppends(a[1..], b, under);
    }
  }

  // ---------------------------------------------------------------- grouping

  predicate InFolder(e: Entry) {
    |e.components| > 1
  }

  /** The entries that go into the folder `name`, each without its first component. */
  function GroupOf(entries: seq<Entry>, name: string): seq<Entry> {
    if entries == [] then []
    else
      var e := entries[|entries| - 1];
      GroupOf(entries[..|entries| - 1], name)
      + (if InFolder(e) && e.components[0] == name then [Entry(e.components[1..], e.file)] else [])
  }

  function FilesOf(entries: seq<Entry>): seq<Entry> {
    if entries == [] then []
    else
      var e := entries[|entries| - 1];
      FilesOf(entries[..|entries| - 1]) + (if |e.components| == 1 then [e] else [])
  }

  function NamesOf(entries: seq<Entry>): set<string> {
    if entries == [] then {}
    else
      var e := entries[|entries| - 1];
      NamesOf(entries[..|entries| - 1]) + (if InFolder(e) then {e.components[0]} else {})
  }

  /** What belongs into the folders named in `names`. */
  function BelongsIn(entries: seq<Entry>, names: set<string>, under: seq<string>): multiset<Placed> {
    if entries == [] then multiset{}
    else
      var e := entries[|entries| - 1];
      BelongsIn(entries[..|entries| - 1], names, under)
      + (if InFolder(e) && e.components[0] in names then Place(e, under) else multiset{})
  }

  lemma {:induction false} BelongsInNone(entries: seq<Entry>, under: seq<string>)
    ensures BelongsIn(entries, {}, under) == multiset{}
  {
    if entries != [] {
      BelongsInNone(entries[..|entries| - 1], under);
    }
  }

  lemma PlaceDropsFirst(e: Entry, under: seq<string>)
    requires InFolder(e)
    ensures Place(Entry(e.components[1..], e.file), under + [e.components[0]]) == Place(e, under)
  {
    var c := e.components;
    assert under + c[..|c| - 1] == under + [c[0]] + c[1..][..|c| - 2];
  }

  lemma BelongsSnoc(entries: seq<Entry>, e: Entry, under: seq<string>)
    ensures Belongs(entries + [e], under) == Belongs(entries, under) + Place(e, under)
  {
    assert (entries + [e])[..|entries|] == entries;
  }

  lemma GroupSnoc(entries: seq<Entry>, name: string, under: seq<string>)
    requires entries != []
    ensures var e := entries[|entries| - 1];
      Belongs(GroupOf(entries, name), under + [name])
        == Belongs(GroupOf(entries[..|entries| - 1], name), under + [name])
           + (if InFolder(e) && e.components[0] == name then Place(e, under) else multiset{})
  {
    var e := entries[|entries| - 1];
    var group := GroupOf(entries[..|entries| - 1], name);
    if InFolder(e) && e.components[0] == name {
      PlaceDropsFirst(e, under);
      BelongsSnoc(group, Entry(e.components[1..], e.file), under + [name]);
    } else {
      assert group + [] == group;
    }
  }

  /** One more folder takes exactly its group. */
  lemma {:induction false} BelongsInOneMore(entries: seq<Entry>, names: set<string>, name: string, under: seq<string>)
    requires name !in names
    ensures BelongsIn(entries, names + {name}, under)
         == BelongsIn(entries, names, under) + Belongs(GroupOf(entries, name), under + [name])
  {
    if entries != [] {
      BelongsInOneMore(entries[..|entries| - 1], names, name, under);
      GroupSnoc(entries, name, under);
      LastIn(entries, names, name, under);
    }
  }

  lemma LastIn(entries: seq<Entry>, names: set<string>, name: string, under: seq<string>)
    requires entries != [] && name !in names
    ensures var e, rest := entries[|entries| - 1], entries[..|entries| - 1];
      && BelongsIn(entries, names + {name}, under)
         == BelongsIn(rest, names + {name}, under)
            + (if InFolder(e) && (e.components[0] in names || e.components[0] == name) then Place(e, under) else multiset{})
      && BelongsIn(entries, names, under)
         == BelongsIn(rest, names, under) + (if InFolder(e) && e.components[0] in names then Place(e, under) else multiset{})
  {
  }

  /** Folders and files together hold every entry that has a component. */
  lemma {:induction false} BelongsSplits(entries: seq<Entry>, names: set<string>, under: seq<string>)
    requires NamesOf(entries) <= names
    ensures Belongs(entries, under) == BelongsIn(entries, names, under) + Belongs(FilesOf(entries), under)
  {
    if entries != [] {
      var e := entries[|entries| - 1];
      var rest := entries[..|entries| - 1];
      BelongsSplits(rest, names, under);
      if |e.components| == 1 {
        BelongsSnoc(FilesOf(rest), e, under);
      } else {
        assert FilesOf(rest) + [] == FilesOf(rest);
      }
    }
  }

  // ---------------------------------------------------------------- depth

  function Depth(entries: seq<Entry>): nat {
    if entries == [] then 0
    else
      var d := Depth(entries[..|entries| - 1]);
      var n := |entries[|entries| - 1].components|;
      if d < n then n else d
  }

  lemma {:induction false} GroupIsShallower(entries: seq<Entry>, name: string)
    ensures GroupOf(entries, name) != [] ==> Depth(GroupOf(entries, name)) < Depth(entries)
    ensures GroupOf(entries, name) == [] <==> name !in NamesOf(entries)
    ensures forall k :: 0 <= k < |GroupOf(entries, name)| ==> GroupOf(entries, name)[k].components != []
  {
    if entries != [] {
      var rest := entries[..|entries| - 1];
      var group := GroupOf(entries, name);
      GroupIsShallower(rest, name);
      assert group == GroupOf(rest, name) || group[..|group| - 1] == GroupOf(rest, name);
    }
  }

  // ---------------------------------------------------------------- order does not matter to contents

  lemma Regroup(a: seq<Entry>, b: seq<Entry>)
    requires b != []
    ensures a + b == (a + b[..|b| - 1]) + [b[|b| - 1]]
  {
  }

  lemma {:induction false} BelongsAppends(a: seq<Entry>, b: seq<Entry>, under: seq<string>)
    ensures Belongs(a + b, under) == Belongs(a, under) + Belongs(b, under)
    decreases |b|
  {
    if b == [] {
      assert a + b == a;
    } else {
      var front, e := b[..|b| - 1], b[|b| - 1];
      BelongsAppends(a, front, under);
      Regroup(a, b);
      Regroup([], b);
      BelongsSnoc(a + front, e, under);
    }
  }

  lemma BelongsAround(front: seq<Entry>, e: Entry, back: seq<Entry>, under: seq<string>)
    ensures Belongs(front + [e] + back, under) == Belongs(front + back, under) + Place(e, under)
  {
    BelongsSnoc(front, e, under);
    BelongsAppends(front + [e], back, under);
    BelongsAppends(front, back, under);
  }

  lemma Around(s: seq<Entry>, k: nat)
    requires k < |s|
    ensures s == s[..k] + [s[k]] + s[k + 1..]
  {
  }

  lemma BelongsWithout(s: seq<Entry>, k: nat, under: seq<string>)
    requires k < |s|
    ensures Belongs(s, under) == Belongs(s[..k] + s[k + 1..], under) + Place(s[k], under)
  {
    Around(s, k);
    BelongsAround(s[..k], s[k], s[k + 1..], under);
  }

  lemma RemoveOne(s: seq<Entry>, k: nat)
    requires k < |s|
    ensures multiset(s[..k] + s[k + 1..]) == multiset(s) - multiset{s[k]}
  {
    Around(s, k);
  }

  /** The last of one is somewhere in the other, and the others are the same. */
  lemma FindLast(a: seq<Entry>, b: seq<Entry>) returns (k: nat)
    requires a != [] && multiset(a) == multiset(b)
    ensures k < |b| && b[k] == a[|a| - 1]
    ensures multiset(a[..|a| - 1]) == multiset(b[..k] + b[k + 1..])
  {
    var last := |a| - 1;
    assert a == a[..last] + [a[last]];
    assert a[last] in multiset(b);
    k :| 0 <= k < |b| && b[k] == a[last];
    RemoveOne(b, k);
  }

  lemma {:induction false} BelongsOfSame(a: seq<Entry>, b: seq<Entry>, under: seq<string>)
    requires multiset(a) == multiset(b)
    ensures Belongs(a, under) == Belongs(b, under)
    decreases |a|
  {
    if a == [] {
      assert |b| == |multiset(b)|;
    } else {
      var k := FindLast(a, b);
      BelongsOfSame(a[..|a| - 1], b[..k] + b[k + 1..], under);
      BelongsWithout(b, k, under);
    }
  }

  // ---------------------------------------------------------------- building

  /** `keys.sorted(by:)`: a dictionary lists its keys in no particular order. */
  method SortedKeys(keys: set<string>, ascending: (string, string) -> bool) returns (names: seq<string>)
    ensures Distinct(names) && forall x :: x in names <==> x in keys
    ensures WeakOrder(ascending) ==> Ordered(ascending, names)
  {
    var listed: seq<string> := [];
    var rest := keys;
    while |rest| != 0
      invariant rest <= keys
      invariant Distinct(listed) && forall x :: x in listed <==> x in keys && x !in rest
      decreases |rest|
    {
      var key :| key in rest;
      listed := listed + [key];
      rest := rest - {key};
    }
    names := Sort(ascending, listed);
    SortKeeps(ascending, listed);
    if WeakOrder(ascending) {
      SortOrders(ascending, listed);
    }
    SameDistinct(listed, names);
    assert forall x :: x in names <==> x in multiset(names);
    assert forall x :: x in listed <==> x in multiset(listed);
  }

  /** Where siblings stand: folders by name, files by file name. */
  predicate SiblingsInOrder(nodes: seq<Node>, ascending: (string, string) -> bool) {
    && (forall j, k :: 0 <= j < k < |nodes| && (IsFolder(nodes[j]) <==> IsFolder(nodes[k])) ==>
          !ascending(nodes[k].name, nodes[j].name))
    && (forall k :: 0 <= k < |nodes| ==> SiblingsInOrder(nodes[k].children, ascending))
  }

  function FileNode(e: Entry): Node {
    Node("file:" + e.file.path, e.file.fileName, e.file.relativePath, Some(e.file), [])
  }

  function FileNodes(entries: seq<Entry>): seq<Node> {
    seq(|entries|, k requires 0 <= k < |entries| => FileNode(entries[k]))
  }

  lemma FileNodeHolds(e: Entry, under: seq<string>)
    requires |e.components| == 1
    ensures Flatten([FileNode(e)], under) == Place(e, under)
  {
    assert under + e.components[..0] == under;
    assert [FileNode(e)][1..] == [];
  }

  lemma {:induction false} FileNodesHold(entries: seq<Entry>, under: seq<string>)
    requires forall k :: 0 <= k < |entries| ==> |entries[k].components| == 1
    ensures Flatten(FileNodes(entries), under) == Belongs(entries, under)
    decreases |entries|
  {
    if entries != [] {
      var last := |entries| - 1;
      FileNodesHold(entries[..last], under);
      assert FileNodes(entries) == FileNodes(entries[..last]) + [FileNode(entries[last])];
      FlattenAppends(FileNodes(entries[..last]), [FileNode(entries[last])], under);
      FileNodeHolds(entries[last], under);
    }
  }

  lemma {:induction false} FilesHaveOneComponent(entries: seq<Entry>)
    ensures forall e :: e in FilesOf(entries) ==> |e.components| == 1
  {
    if entries != [] {
      FilesHaveOneComponent(entries[..|entries| - 1]);
    }
  }

  function ByFileName(ascending: (string, string) -> bool): (Entry, Entry) -> bool {
    (a: Entry, b: Entry) => ascending(a.file.fileName, b.file.fileName)
  }

  /** The sorted file nodes of one folder. */
  lemma SortedFilesHold(entries: seq<Entry>, under: seq<string>, ascending: (string, string) -> bool)
    ensures Flatten(FileNodes(Sort(ByFileName(ascending), FilesOf(entries))), under) == Belongs(FilesOf(entries), under)
  {
    var files := FilesOf(entries);
    var sorted := Sort(ByFileName(ascending), files);
    SortKeeps(ByFileName(ascending), files);
    FilesHaveOneComponent(entries);
    forall k | 0 <= k < |sorted|
      ensures |sorted[k].components| == 1
    {
      assert sorted[k] in multiset(sorted);
      assert sorted[k] in files;
    }
    FileNodesHold(sorted, under);
    BelongsOfSame(sorted, files, under);
  }

  /** The loop of `buildNodes` over its entries. */
  method Group(entries: seq<Entry>) returns (folders: Groups, files: seq<Entry>)
    ensures folders.Keys == NamesOf(entries)
    ensures forall name :: name in folders ==> folders[name] == GroupOf(entries, name)
    ensures files == FilesOf(entries)
  {
    folders, files := map[], [];
    for k := 0 to |entries|
      invariant folders.Keys == NamesOf(entries[..k])
      invariant forall name :: name in folders ==> folders[name] == GroupOf(entries[..k], name)
      invariant files == FilesOf(entries[..k])
    {
      var entry := entries[k];
      assert entries[..k + 1][..k] == entries[..k];
      if entry.components == [] {
        continue;
      }
      if |entry.components| == 1 {
        files := files + [entry];
      } else {
        var first := entry.components[0];
        GroupIsShallower(entries[..k], first);
        var group := if first in folders then folders[first] else [];
        folders := folders[first := group + [Entry(entry.components[1..], entry.file)]];
      }
    }
    assert entries[..|entries|] == entries;
  }

  function SetOf(names: seq<string>): set<string> {
    set k | 0 <= k < |names| :: names[k]
  }

  lemma OneMoreName(names: seq<string>, i: nat)
    requires Distinct(names) && i < |names|
    ensures SetOf(names[..i + 1]) == SetOf(names[..i]) + {names[i]}
    ensures names[i] !in SetOf(names[..i])
  {
    assert names[..i + 1] == names[..i] + [names[i]];
    forall x
      ensures x in SetOf(names[..i + 1]) <==> x in SetOf(names[..i]) || x == names[i]
    {
      if x in SetOf(names[..i]) {
        var k :| 0 <= k < i && names[..i][k] == x;
        assert names[..i + 1][k] == x;
      }
      assert names[..i + 1][i] == names[i];
    }
  }

  lemma GroupHoldsSomething(group: seq<Entry>, under: seq<string>)
    requires group != [] && forall k :: 0 <= k < |group| ==> group[k].components != []
    ensures Belongs(group, under) != multiset{}
  {
    var e := group[|group| - 1];
    assert Placed(under + e.components[..|e.components| - 1], e.file) in Place(e, under);
  }

  function FolderNode(prefix: seq<string>, name: string, children: seq<Node>): Node {
    var relativePath := Join(prefix + [name]);
    Node("folder:" + relativePath, name, relativePath, None, children)
  }

  lemma FolderAdds(nodes: seq<Node>, n: Node, entries: seq<Entry>, names: seq<string>, i: nat, prefix: seq<string>)
    requires Distinct(names) && i < |names| && n.file.None? && n.name == names[i]
    requires Flatten(nodes, prefix) == BelongsIn(entries, SetOf(names[..i]), prefix)
    requires Flatten(n.children, prefix + [n.name]) == Belongs(GroupOf(entries, n.name), prefix + [n.name])
    ensures Flatten(nodes + [n], prefix) == BelongsIn(entries, SetOf(names[..i + 1]), prefix)
  {
    OneMoreName(names, i);
    BelongsInOneMore(entries, SetOf(names[..i]), names[i], prefix);
    FlattenAppends(nodes, [n], prefix);
    assert [n][1..] == [];
    assert Flatten([n], prefix) == FlattenNode(n, prefix) + Flatten([], prefix);
  }

  /** Finished folders of one level. */
  predicate FoldersSoFar(nodes: seq<Node>, names: seq<string>, prefix: seq<string>) {
    && |nodes| <= |names|
    && (forall k :: 0 <= k < |nodes| ==> nodes[k].name == names[k] && IsFolder(nodes[k]))
    && (forall k :: 0 <= k < |nodes| ==> NodeWellFormed(nodes[k], prefix))
  }

  lemma FolderIsWellFormed(prefix: seq<string>, name: string, group: seq<Entry>, children: seq<Node>)
    requires group != [] && forall k :: 0 <= k < |group| ==> group[k].components != []
    requires WellFormed(children, prefix + [name])
    requires Flatten(children, prefix + [name]) == Belongs(group, prefix + [name])
    ensures NodeWellFormed(FolderNode(prefix, name, children), prefix)
  {
    GroupHoldsSomething(group, prefix + [name]);
  }

  lemma LevelIsWellFormed(nodes: seq<Node>, names: seq<string>, prefix: seq<string>, files: seq<Entry>)
    requires FoldersSoFar(nodes, names, prefix) && Distinct(names)
    ensures WellFormed(nodes + FileNodes(files), prefix)
  {
    var all := nodes + FileNodes(files);
    forall k | 0 <= k < |all|
      ensures NodeWellFormed(all[k], prefix) && (IsFolder(all[k]) <==> k < |nodes|)
    {
      assert k >= |nodes| ==> all[k] == FileNode(files[k - |nodes|]);
    }
  }

  lemma LevelHolds(nodes: seq<Node>, names: seq<string>, entries: seq<Entry>, prefix: seq<string>,
                   ascending: (string, string) -> bool)
    requires forall x :: x in names <==> x in NamesOf(entries)
    requires Flatten(nodes, prefix) == BelongsIn(entries, SetOf(names), prefix)
    ensures Flatten(nodes + FileNodes(Sort(ByFileName(ascending), FilesOf(entries))), prefix) == Belongs(entries, prefix)
  {
    assert forall x :: x in SetOf(names) <==> x in names;
    assert SetOf(names) == NamesOf(entries);
    BelongsSplits(entries, NamesOf(entries), prefix);
    SortedFilesHold(entries, prefix, ascending);
    FlattenAppends(nodes, FileNodes(Sort(ByFileName(ascending), FilesOf(entries))), prefix);
  }

  /** The children of every finished folder are in order. */
  predicate ChildrenInOrder(nodes: seq<Node>, ascending: (string, string) -> bool) {
    forall k :: 0 <= k < |nodes| ==> SiblingsInOrder(nodes[k].children, ascending)
  }

  lemma LevelIsInOrder(nodes: seq<Node>, names: seq<string>, prefix: seq<string>, files: seq<Entry>,
                       ascending: (string, string) -> bool)
    requires FoldersSoFar(nodes, names, prefix) && ChildrenInOrder(nodes, ascending)
    requires Ordered(ascending, names) && Ordered(ByFileName(ascending), files)
    ensures SiblingsInOrder(nodes + FileNodes(files), ascending)
  {
    var all := nodes + FileNodes(files);
    assert forall m :: 0 <= m < |nodes| ==> IsFolder(all[m]);
    forall j, k | 0 <= j < k < |all| && (IsFolder(all[j]) <==> IsFolder(all[k]))
      ensures !ascending(all[k].name, all[j].name)
    {
      if k < |nodes| {
        assert !ascending(names[k], names[j]);
      } else {
        assert all[k] == FileNode(files[k - |nodes|]);
        assert all[j] == FileNode(files[j - |nodes|]);
        assert !ByFileName(ascending)(files[k - |nodes|], files[j - |nodes|]);
      }
    }
    assert forall k :: |nodes| <= k < |all| ==> all[k].children == [];
  }

  lemma ByFileNameIsWeak(ascending: (string, string) -> bool)
    requires WeakOrder(ascending)
    ensures WeakOrder(ByFileName(ascending))
  {
    forall a: Entry, b: Entry | ByFileName(ascending)(a, b)
      ensures !ByFileName(ascending)(b, a)
    {
      assert ascending(a.file.fileName, b.file.fileName);
    }
    forall a: Entry, b: Entry, c: Entry | !ByFileName(ascending)(b, a) && !ByFileName(ascending)(c, b)
      ensures !ByFileName(ascending)(c, a)
    {
      var x, y, z := a.file.fileName, b.file.fileName, c.file.fileName;
      assert !ascending(y, x) && !ascending(z, y);
    }
  }

  /** One level done: what `LevelHolds`, `LevelIsWellFormed` and `LevelIsInOrder` say together. */
  lemma LevelDone(nodes: seq<Node>, names: seq<string>, entries: seq<Entry>, prefix: seq<string>,
                  ascending: (string, string) -> bool)
    requires FoldersSoFar(nodes, names, prefix) && Distinct(names)
    requires forall x :: x in names <==> x in NamesOf(entries)
    requires Flatten(nodes, prefix) == BelongsIn(entries, SetOf(names), prefix)
    requires WeakOrder(ascending) ==> ChildrenInOrder(nodes, ascending) && Ordered(ascending, names)
    ensures var all := nodes + FileNodes(Sort(ByFileName(ascending), FilesOf(entries)));
      && Flatten(all, prefix) == Belongs(entries, prefix)
      && WellFormed(all, prefix)
      && (WeakOrder(ascending) ==> SiblingsInOrder(all, ascending))
  {
    var sorted := Sort(ByFileName(ascending), FilesOf(entries));
    LevelHolds(nodes, names, entries, prefix, ascending);
    LevelIsWellFormed(nodes, names, prefix, sorted);
    if WeakOrder(ascending) {
      ByFileNameIsWeak(ascending);
      SortOrders(ByFileName(ascending), FilesOf(entries));
      LevelIsInOrder(nodes, names, prefix, sorted, ascending);
    }
  }

  lemma FoldersGrow(nodes: seq<Node>, n: Node, names: seq<string>, prefix: seq<string>)
    requires |nodes| < |names| && FoldersSoFar(nodes, names, prefix)
    requires NodeWellFormed(n, prefix) && IsFolder(n) && n.name == names[|nodes|]
    ensures FoldersSoFar(nodes + [n], names, prefix)
  {
  }

  /** What the loop over the sorted folder names keeps. */
  ghost predicate LevelSoFar(nodes: seq<Node>, names: seq<string>, entries: seq<Entry>, prefix: seq<string>,
                             ascending: (string, string) -> bool) {
    && FoldersSoFar(nodes, names, prefix)
    && Flatten(nodes, prefix) == BelongsIn(entries, SetOf(names[..|nodes|]), prefix)
    && (WeakOrder(ascending) ==> ChildrenInOrder(nodes, ascending))
  }

  /** What a recursive call must answer for one folder. */
  ghost predicate ChildrenDone(children: seq<Node>, group: seq<Entry>, prefix: seq<string>,
                               ascending: (string, string) -> bool) {
    && Flatten(children, prefix) == Belongs(group, prefix)
    && WellFormed(children, prefix)
    && (WeakOrder(ascending) ==> SiblingsInOrder(children, ascending))
  }

  lemma NextFolder(nodes: seq<Node>, names: seq<string>, entries: seq<Entry>, prefix: seq<string>, n: Node,
                   ascending: (string, string) -> bool)
    requires |nodes| < |names| && Distinct(names) && n.name == names[|nodes|]
    requires IsFolder(n) && NodeWellFormed(n, prefix)
    requires LevelSoFar(nodes, names, entries, prefix, ascending)
    requires ChildrenDone(n.children, GroupOf(entries, n.name), prefix + [n.name], ascending)
    ensures LevelSoFar(nodes + [n], names, entries, prefix, ascending)
  {
    FoldersGrow(nodes, n, names, prefix);
    FolderAdds(nodes, n, entries, names, |nodes|, prefix);
  }

  lemma NoFoldersYet(names: seq<string>, entries: seq<Entry>, prefix: seq<string>, ascending: (string, string) -> bool)
    ensures LevelSoFar([], names, entries, prefix, ascending)
  {
    BelongsInNone(entries, prefix);
    assert SetOf(names[..0]) == {};
  }

  /** `buildNodes`: the tree holds exactly the entries that have a component, each under the
      folders its components name. */
  method BuildNodes(entries: seq<Entry>, prefix: seq<string>, ascending: (string, string) -> bool)
    returns (nodes: seq<Node>)
    ensures Flatten(nodes, prefix) == Belongs(entries, prefix)
    ensures WellFormed(nodes, prefix)
    ensures WeakOrder(ascending) ==> SiblingsInOrder(nodes, ascending)
    decreases Depth(entries)
  {
    var folders, files := Group(entries);
    var names := SortedKeys(folders.Keys, ascending);
    nodes := [];
    NoFoldersYet(names, entries, prefix, ascending);
    while |nodes| < |names|
      invariant |nodes| <= |names| && LevelSoFar(nodes, names, entries, prefix, ascending)
    {
      var name := names[|nodes|];
      assert name in folders;
      GroupIsShallower(entries, name);
      var children := BuildNodes(folders[name], prefix + [name], ascending);
      var node := FolderNode(prefix, name, children);
      FolderIsWellFormed(prefix, name, folders[name], children);
      NextFolder(nodes, names, entries, prefix, node, ascending);
      nodes := nodes + [node];
    }
    assert names[..|names|] == names;
    LevelDone(nodes, names, entries, prefix, ascending);
    nodes := nodes + FileNodes(Sort(ByFileName(ascending), files));
  }

  // ---------------------------------------------------------------- build(from:)

  function EntriesOf(files: seq<Record>): seq<Entry> {
    seq(|files|, k requires 0 <= k < |files| => Entry(Split(files[k].relativePath), files[k]))
  }

  method Build(files: seq<Record>, ascending: (string, string) -> bool) returns (nodes: seq<Node>)
    ensures Flatten(nodes, []) == Belongs(EntriesOf(files), [])
    ensures forall folders, file ::
      Flatten(nodes, [])[Placed(folders, file)] == if SitsUnder(folders, file) then multiset(files)[file] else 0
    ensures WellFormed(nodes, [])
    ensures WeakOrder(ascending) ==> SiblingsInOrder(nodes, ascending)
  {
    nodes := BuildNodes(EntriesOf(files), [], ascending);
    forall folders, file
      ensures Belongs(EntriesOf(files), [])[Placed(folders, file)] == if SitsUnder(folders, file) then multiset(files)[file] else 0
    {
      PlacedExactly(files, folders, file);
    }
  }

  predicate SitsUnder(folders: seq<string>, file: Record) {
    var parts := Split(file.relativePath);
    parts != [] && folders == parts[..|parts| - 1]
  }

  lemma PlaceOf(file: Record, folders: seq<string>)
    ensures Place(Entry(Split(file.relativePath), file), [])[Placed(folders, file)] == if SitsUnder(folders, file) then 1 else 0
  {
    var parts := Split(file.relativePath);
    assert parts != [] ==> [] + parts[..|parts| - 1] == parts[..|parts| - 1];
  }

  lemma PlaceOfOther(other: Record, folders: seq<string>, file: Record)
    requires other != file
    ensures Place(Entry(Split(other.relativePath), other), [])[Placed(folders, file)] == 0
  {
  }

  lemma EntriesSnoc(files: seq<Record>)
    requires files != []
    ensures var last := |files| - 1;
      && EntriesOf(files) == EntriesOf(files[..last]) + [Entry(Split(files[last].relativePath), files[last])]
      && multiset(files) == multiset(files[..last]) + multiset{files[last]}
  {
    assert files == files[..|files| - 1] + [files[|files| - 1]];
  }

  /** What the tree holds, file by file: under exactly the folders its relative path names, as
      often as it was given, and nowhere when the path names nothing. */
  lemma {:induction false} PlacedExactly(files: seq<Record>, folders: seq<string>, file: Record)
    ensures Belongs(EntriesOf(files), [])[Placed(folders, file)]
         == if SitsUnder(folders, file) then multiset(files)[file] else 0
    decreases |files|
  {
    if files != [] {
      var last := |files| - 1;
      PlacedExactly(files[..last], folders, file);
      EntriesSnoc(files);
      BelongsSnoc(EntriesOf(files[..last]), Entry(Split(files[last].relativePath), files[last]), []);
      if files[last] == file {
        PlaceOf(file, folders);
      } else {
        PlaceOfOther(files[last], folders, file);
      }
    }
  }
}
