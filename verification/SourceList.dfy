/**
 The source file list: what the bounded scan hands on, sorted and cut.
 */
module SourceList {
  import opened Basics
  import opened Ordering
  import opened Sorting
  import opened SourceScan

  // ---------------------------------------------------------------- the record order

  function LowerChar(c: char): char {
    if 'A' <= c <= 'Z' then (c as int + 32) as char else c
  }

  function Lower(s: string): string {
    if s == "" then "" else [LowerChar(s[0])] + Lower(s[1..])
  }

  /** `compare_paths`. */
  predicate PathBefore(a: string, b: string) {
    TextLess(Lower(a), Lower(b)) || (Lower(a) == Lower(b) && TextLess(a, b))
  }

  /** `compare_source_records`; `score` is the path priority, any integer. */
  predicate Before(score: Record -> int, a: Record, b: Record) {
    score(a) < score(b) || (score(a) == score(b) && PathBefore(a.relativePath, b.relativePath))
  }

  lemma PathTrichotomy(a: string, b: string)
    ensures PathBefore(a, b) || PathBefore(b, a) || a == b
    ensures !(PathBefore(a, b) && PathBefore(b, a))
  {
    TextTotal(Lower(a), Lower(b));
    TextTotal(a, b);
    if TextLess(Lower(a), Lower(b)) && TextLess(Lower(b), Lower(a)) {
      TextTransitive(Lower(a), Lower(b), Lower(a));
    }
    if TextLess(a, b) && TextLess(b, a) {
      TextTransitive(a, b, a);
    }
    TextIrreflexive(Lower(a));
    TextIrreflexive(a);
  }

  lemma PathTransitive(a: string, b: string, c: string)
    requires PathBefore(a, b) && PathBefore(b, c)
    ensures PathBefore(a, c)
  {
    if TextLess(Lower(a), Lower(b)) && TextLess(Lower(b), Lower(c)) {
      TextTransitive(Lower(a), Lower(b), Lower(c));
    }
    if TextLess(a, b) && TextLess(b, c) {
      TextTransitive(a, b, c);
    }
  }

  /** Not after is transitive: the comparator is a consistent weak order. */
  lemma NotAfterChains(score: Record -> int, a: Record, b: Record, c: Record)
    requires !Before(score, b, a) && !Before(score, c, b)
    ensures !Before(score, c, a)
  {
    var x, y, z := a.relativePath, b.relativePath, c.relativePath;
    PathTrichotomy(x, y);
    PathTrichotomy(y, z);
    PathTrichotomy(x, z);
    if PathBefore(x, y) && PathBefore(y, z) {
      PathTransitive(x, y, z);
    }
  }

  lemma BeforeIsNotAfter(score: Record -> int, a: Record, b: Record)
    requires Before(score, a, b)
    ensures !Before(score, b, a)
  {
    PathTrichotomy(a.relativePath, b.relativePath);
  }

  /** The comparator with its score, as `sort_by` takes it. */
  function ByRecord(score: Record -> int): (Record, Record) -> bool {
    (a, b) => Before(score, a, b)
  }

  lemma RecordOrderIsWeak(score: Record -> int)
    ensures WeakOrder(ByRecord(score))
  {
    forall a: Record, b: Record | Before(score, a, b)
      ensures !Before(score, b, a)
    {
      BeforeIsNotAfter(score, a, b);
    }
    forall a: Record, b: Record, c: Record | !Before(score, b, a) && !Before(score, c, b)
      ensures !Before(score, c, a)
    {
      NotAfterChains(score, a, b, c);
    }
  }

  lemma SortedRecords(score: Record -> int, s: seq<Record>)
    ensures multiset(Sort(ByRecord(score), s)) == multiset(s) && |Sort(ByRecord(score), s)| == |s|
    ensures Ordered(ByRecord(score), Sort(ByRecord(score), s))
  {
    RecordOrderIsWeak(score);
    SortKeeps(ByRecord(score), s);
    SortOrders(ByRecord(score), s);
  }

  predicate DistinctPaths(s: seq<Record>) {
    forall a, b :: a in s && b in s && a.relativePath == b.relativePath ==> a == b
  }

  /** With distinct relative paths there is one sorted listing. */
  lemma {:induction false} ListedOneWay(score: Record -> int, a: seq<Record>, b: seq<Record>)
    requires Ordered(ByRecord(score), a) && Ordered(ByRecord(score), b)
    requires multiset(a) == multiset(b) && DistinctPaths(a)
    ensures a == b
    decreases |a|
  {
    assert |a| == |multiset(a)| == |multiset(b)| == |b|;
    if a != [] {
      SameFirst(score, a, b);
      Tail(ByRecord(score), a);
      Tail(ByRecord(score), b);
      assert forall x :: x in a[1..] ==> x in a;
      ListedOneWay(score, a[1..], b[1..]);
    }
  }

  lemma SameFirst(score: Record -> int, a: seq<Record>, b: seq<Record>)
    requires Ordered(ByRecord(score), a) && Ordered(ByRecord(score), b)
    requires multiset(a) == multiset(b) && DistinctPaths(a) && a != [] && b != []
    ensures a[0] == b[0]
  {
    assert a[0] in multiset(b) && b[0] in multiset(a);
    var i :| 0 <= i < |b| && b[i] == a[0];
    var j :| 0 <= j < |a| && a[j] == b[0];
    PathTrichotomy(a[0].relativePath, b[0].relativePath);
    assert i == 0 || !Before(score, a[0], b[0]);
    assert j == 0 || !Before(score, b[0], a[0]);
  }

  // ---------------------------------------------------------------- the order, character by character

  /** ASCII capitals fold to their small letters. */
  function Folded(c: char): char {
    if c in {'A', 'B', 'C', 'D', 'E', 'F', 'G', 'H', 'I', 'J', 'K', 'L', 'M',
             'N', 'O', 'P', 'Q', 'R', 'S', 'T', 'U', 'V', 'W', 'X', 'Y', 'Z'}
    then (c as int + 32) as char
    else c
  }

  /** Case aside the paths agree before `k`, and there the first ends or has the smaller character. */
  predicate SmallerFoldedAt(a: string, b: string, k: nat) {
    && k <= |a| && k < |b| && (forall n :: 0 <= n < k ==> Folded(a[n]) == Folded(b[n]))
    && (k == |a| || Folded(a[k]) < Folded(b[k]))
  }

  /** Only their case tells the paths apart, first at `k`. */
  predicate CaseTellsAt(a: string, b: string, k: nat) {
    && |a| == |b| && (forall n :: 0 <= n < |a| ==> Folded(a[n]) == Folded(b[n]))
    && k < |a| && a[..k] == b[..k] && a[k] < b[k]
  }

  ghost predicate PathFirst(a: string, b: string) {
    exists k: nat :: SmallerFoldedAt(a, b, k) || CaseTellsAt(a, b, k)
  }

  lemma FoldedIs(c: char)
    ensures Folded(c) == LowerChar(c)
  {
  }

  lemma {:induction false} LowerIsFolded(s: string)
    ensures |Lower(s)| == |s| && forall k :: 0 <= k < |s| ==> Lower(s)[k] == Folded(s[k])
  {
    if s != "" {
      LowerIsFolded(s[1..]);
      FoldedIs(s[0]);
    }
  }

  lemma SameLower(a: string, b: string, k: nat)
    requires k <= |a| && k <= |b|
    ensures |Lower(a)| == |a| && |Lower(b)| == |b|
    ensures Lower(a)[..k] == Lower(b)[..k] <==> forall n :: 0 <= n < k ==> Folded(a[n]) == Folded(b[n])
  {
    LowerIsFolded(a);
    LowerIsFolded(b);
    SameStart(Lower(a), Lower(b), k);
  }

  lemma SameStart(x: string, y: string, k: nat)
    requires k <= |x| && k <= |y|
    ensures x[..k] == y[..k] <==> forall n :: 0 <= n < k ==> x[n] == y[n]
  {
    assert forall n :: 0 <= n < k ==> x[..k][n] == x[n] && y[..k][n] == y[n];
  }

  lemma SmallerFolded(a: string, b: string, k: nat)
    ensures SmallerAt(Lower(a), Lower(b), k) <==> SmallerFoldedAt(a, b, k)
  {
    LowerIsFolded(a);
    LowerIsFolded(b);
    if k <= |a| && k <= |b| {
      SameLower(a, b, k);
    }
  }

  lemma CaseTells(a: string, b: string, k: nat)
    ensures Lower(a) == Lower(b) && SmallerAt(a, b, k) <==> CaseTellsAt(a, b, k)
  {
    LowerIsFolded(a);
    LowerIsFolded(b);
    if |a| == |b| {
      SameLower(a, b, |a|);
      assert Lower(a)[..|a|] == Lower(a) && Lower(b)[..|a|] == Lower(b);
    }
    assert SmallerAt(a, b, k) && k == |a| ==> |a| < |b|;
  }

  /** The comparator says exactly that. */
  lemma PathBeforeExactly(a: string, b: string)
    ensures PathBefore(a, b) <==> PathFirst(a, b)
  {
    TextLessExactly(Lower(a), Lower(b));
    TextLessExactly(a, b);
    forall k: nat
      ensures SmallerAt(Lower(a), Lower(b), k) <==> SmallerFoldedAt(a, b, k)
      ensures Lower(a) == Lower(b) && SmallerAt(a, b, k) <==> CaseTellsAt(a, b, k)
    {
      SmallerFolded(a, b, k);
      CaseTells(a, b, k);
    }
  }

  /** Lower scores first; of files with one score, the one whose path is first. */
  ghost predicate InListOrder(score: Record -> int, files: seq<Record>) {
    forall i, j :: 0 <= i < j < |files| ==>
      var a, b := files[i], files[j];
      score(a) < score(b)
        || (score(a) == score(b) && (a.relativePath == b.relativePath || PathFirst(a.relativePath, b.relativePath)))
  }

  /** Two files of one score stand in the order of their paths. */
  lemma ListedByPath(score: Record -> int, files: seq<Record>, i: nat, j: nat)
    requires InListOrder(score, files) && i < |files| && j < |files| && score(files[i]) == score(files[j])
    requires PathFirst(files[i].relativePath, files[j].relativePath)
    ensures i < j
  {
    var a, b := files[i].relativePath, files[j].relativePath;
    PathBeforeExactly(a, b);
    PathBeforeExactly(b, a);
    PathTrichotomy(a, b);
    PathTrichotomy(a, a);
  }

  lemma OrderedIsListOrder(score: Record -> int, files: seq<Record>)
    requires Ordered(ByRecord(score), files)
    ensures InListOrder(score, files)
  {
    forall i, j | 0 <= i < j < |files|
      ensures !Before(score, files[j], files[i])
      ensures files[i].relativePath == files[j].relativePath || PathFirst(files[i].relativePath, files[j].relativePath)
           || PathBefore(files[j].relativePath, files[i].relativePath)
    {
      assert !ByRecord(score)(files[j], files[i]);
      PathTrichotomy(files[i].relativePath, files[j].relativePath);
      PathBeforeExactly(files[i].relativePath, files[j].relativePath);
    }
  }

  // ---------------------------------------------------------------- list_source_files

  datatype Diagnostics = Diagnostics(effectiveLimit: nat, returnedCount: nat, visitedEntryCount: nat,
                                     matchedFileCount: nat, collectionLimit: nat, collectionLimitReached: bool,
                                     truncated: bool, skippedDirectoryCount: nat, unsupportedFileCount: nat,
                                     unreadableEntryCount: nat, skippedDirectories: seq<Skipped>)

  datatype SourceFileList = SourceFileList(files: seq<Record>, limit: nat, truncated: bool, diagnostics: Diagnostics)

  datatype Root = Missing | NotADirectory | Folder(listing: Listing)

  datatype ScanError = NoMetadata | RootIsNotADirectory | DirectoryNotRead

  function EffectiveLimit(limit: nat): nat {
    if limit == 0 then DEFAULT_SOURCE_LIST_LIMIT else Least(limit, MAX_SOURCE_LIST_LIMIT)
  }

  /** `source_collection_limit`. */
  function CollectionLimit(limit: nat): nat {
    Least(if limit < DEFAULT_SOURCE_LIST_LIMIT then DEFAULT_SOURCE_LIST_LIMIT else limit, MAX_SOURCE_LIST_LIMIT) + 1
  }

  function Start(): Progress {
    Progress([], 0, 0, 0, 0, 0, [])
  }

  function Report(p: Progress, limit: nat, score: Record -> int): SourceFileList {
    var files := Sort(ByRecord(score), p.records);
    SortedRecords(score, p.records);
    var returned := files[..Least(limit, |files|)];
    var truncated := |p.records| > limit;
    SourceFileList(returned, limit, truncated,
                   Diagnostics(limit, |returned|, p.visited, p.matched, CollectionLimit(limit),
                               |p.records| >= CollectionLimit(limit), truncated, p.skipped, p.unsupported,
                               p.unreadable, p.samples))
  }

  /** What `list_source_files` answers, as a function of the tree. */
  function SourceFiles(root: Root, limit: nat, score: Record -> int, wanted: Record -> bool)
    : Outcome<SourceFileList, ScanError>
  {
    match root
    case Missing => Refused(NoMetadata)
    case NotADirectory => Refused(RootIsNotADirectory)
    case Folder(listing) =>
      var l := EffectiveLimit(limit);
      var (p, ok) := Run(Start(), VisitsIn(listing, wanted), CollectionLimit(l));
      if ok then Done(Report(p, l, score)) else Refused(DirectoryNotRead)
  }

  method ListSourceFiles(root: Root, limit: nat, score: Record -> int, wanted: Record -> bool)
    returns (r: Outcome<SourceFileList, ScanError>)
    ensures r == SourceFiles(root, limit, score, wanted)
    ensures root == Missing <==> r == Refused(NoMetadata)
    ensures root == NotADirectory <==> r == Refused(RootIsNotADirectory)
    ensures r.Done? ==> InListOrder(score, r.value.files)
  {
    match root {
      case Missing => return Refused(NoMetadata);
      case NotADirectory => return Refused(RootIsNotADirectory);
      case Folder(listing) =>
        var effective := EffectiveLimit(limit);
        var scan := new Scan();
        var ok := scan.Collect(listing, CollectionLimit(effective), wanted);
        if !ok {
          return Refused(DirectoryNotRead);
        }
        var collected := |scan.records|;
        var files := Sort(ByRecord(score), scan.records);
        SortedRecords(score, scan.records);
        var truncated := collected > effective;
        CutOfOrdered(score, files, Least(effective, |files|));
        files := files[..Least(effective, |files|)];
        OrderedIsListOrder(score, files);
        r := Done(SourceFileList(files, effective, truncated,
                                 Diagnostics(effective, |files|, scan.visited, scan.matched,
                                             CollectionLimit(effective), collected >= CollectionLimit(effective),
                                             truncated, scan.skipped, scan.unsupported, scan.unreadable,
                                             scan.samples)));
    }
  }

  // ---------------------------------------------------------------- the whole tree

  /** Every directory that would be entered can be read. */
  predicate Reads(listing: Listing) {
    listing.Entries? && forall k :: 0 <= k < |listing.nodes| ==> NodeReads(listing.nodes[k])
  }

  predicate NodeReads(n: Node) {
    n.Directory? && n.skip.None? ==> Reads(n.listing)
  }

  /** The supported, wanted files of the whole tree, outside skipped directories. */
  function Matches(listing: Listing, wanted: Record -> bool): seq<Record> {
    if listing.NotRead? then [] else MatchesOfAll(listing.nodes, wanted)
  }

  function MatchesOfAll(nodes: seq<Node>, wanted: Record -> bool): seq<Record> {
    if nodes == [] then [] else NodeMatches(nodes[0], wanted) + MatchesOfAll(nodes[1..], wanted)
  }

  function NodeMatches(n: Node, wanted: Record -> bool): seq<Record> {
    match n
    case Directory(_, _, skip, listing) => if skip.Some? then [] else Matches(listing, wanted)
    case File(record) => if IsSource(record) && wanted(record) then [record] else []
    case _ => []
  }

  function FoundIn(visits: seq<Visit>): seq<Record> {
    if visits == [] then []
    else (if visits[0].Found? then [visits[0].record] else []) + FoundIn(visits[1..])
  }

  lemma {:induction false} FoundAppends(a: seq<Visit>, b: seq<Visit>)
    ensures FoundIn(a + b) == FoundIn(a) + FoundIn(b)
  {
    if a == [] {
      assert a + b == b;
    } else {
      var head := if a[0].Found? then [a[0].record] else [];
      var x, y := FoundIn(a[1..]), FoundIn(b);
      assert (a + b)[1..] == a[1..] + b;
      FoundAppends(a[1..], b);
      assert FoundIn(a + b) == head + (x + y) == (head + x) + y;
    }
  }

  lemma {:induction false} VisitsFindMatches(listing: Listing, wanted: Record -> bool)
    ensures FoundIn(VisitsIn(listing, wanted)) == Matches(listing, wanted)
    ensures Reads(listing) ==> Broken !in VisitsIn(listing, wanted)
    decreases listing
  {
    if listing.Entries? {
      AllFindMatches(listing.nodes, wanted);
    }
  }

  lemma {:induction false} AllFindMatches(nodes: seq<Node>, wanted: Record -> bool)
    ensures FoundIn(VisitsOfAll(nodes, wanted)) == MatchesOfAll(nodes, wanted)
    ensures (forall k :: 0 <= k < |nodes| ==> NodeReads(nodes[k])) ==> Broken !in VisitsOfAll(nodes, wanted)
    decreases nodes
  {
    if nodes != [] {
      NodeFindsMatches(nodes[0], wanted);
      AllFindMatches(nodes[1..], wanted);
      FoundAppends(VisitsOf(nodes[0], wanted), VisitsOfAll(nodes[1..], wanted));
    }
  }

  lemma {:induction false} NodeFindsMatches(n: Node, wanted: Record -> bool)
    ensures FoundIn(VisitsOf(n, wanted)) == NodeMatches(n, wanted)
    ensures NodeReads(n) ==> Broken !in VisitsOf(n, wanted)
    decreases n
  {
    if n.Directory? && n.skip.None? {
      VisitsFindMatches(n.listing, wanted);
      FoundAppends([Entered], VisitsIn(n.listing, wanted));
    }
  }

  /** The bounded walk collects the first matches of the tree, up to its limit. */
  lemma {:induction false} RunCollects(p: Progress, visits: seq<Visit>, limit: nat)
    requires Broken !in visits && |p.records| <= limit
    ensures Run(p, visits, limit).1
    ensures Run(p, visits, limit).0.records
         == p.records + FoundIn(visits)[..Least(limit - |p.records|, |FoundIn(visits)|)]
    decreases |visits|
  {
    if |p.records| < limit && visits != [] {
      RunCollects(Take(p, visits[0]), visits[1..], limit);
      var rest := FoundIn(visits[1..]);
      if visits[0].Found? {
        var r := visits[0].record;
        var n := Least(limit - |p.records| - 1, |rest|);
        assert FoundIn(visits)[..n + 1] == [r] + rest[..n];
      }
    }
  }

  /** The answer for a tree that reads without error. */
  lemma ScanOfReadable(listing: Listing, limit: nat, score: Record -> int, wanted: Record -> bool)
    requires Reads(listing)
    ensures var all := Matches(listing, wanted);
      var l := EffectiveLimit(limit);
      var collected := all[..Least(CollectionLimit(l), |all|)];
      var r := SourceFiles(Folder(listing), limit, score, wanted);
      && r.Done? && r.value.limit == l
      && r.value.files == Sort(ByRecord(score), collected)[..Least(l, |Sort(ByRecord(score), collected)|)]
      && r.value.truncated == (|collected| > l)
      && r.value.diagnostics.collectionLimitReached == (|collected| >= CollectionLimit(l))
  {
    VisitsFindMatches(listing, wanted);
    var l := EffectiveLimit(limit);
    RunCollects(Start(), VisitsIn(listing, wanted), CollectionLimit(l));
    var all := Matches(listing, wanted);
    var collected := all[..Least(CollectionLimit(l), |all|)];
    assert [] + collected == collected;
  }

  /** `truncated` says exactly whether more files match than the limit allows, although the walk
      may have stopped early. */
  lemma TruncatedExactly(listing: Listing, limit: nat, score: Record -> int, wanted: Record -> bool)
    requires Reads(listing)
    ensures var r := SourceFiles(Folder(listing), limit, score, wanted);
      && r.Done?
      && (r.value.truncated <==> |Matches(listing, wanted)| > r.value.limit)
      && r.value.limit == (if limit == 0 then 10_000 else if limit < 25_000 then limit else 25_000)
      && (r.value.diagnostics.collectionLimitReached <==>
            |Matches(listing, wanted)| > if r.value.limit < 10_000 then 10_000 else r.value.limit)
      && |r.value.files| == Least(r.value.limit, |Matches(listing, wanted)|)
  {
    ScanOfReadable(listing, limit, score, wanted);
    var l := EffectiveLimit(limit);
    var all := Matches(listing, wanted);
    var collected := all[..Least(CollectionLimit(l), |all|)];
    SortedRecords(score, collected);
  }

  /** The first `n` of the sorted listing. */
  function Smallest(score: Record -> int, s: seq<Record>, n: nat): seq<Record> {
    SortedRecords(score, s);
    var sorted := Sort(ByRecord(score), s);
    sorted[..Least(n, |sorted|)]
  }

  /** Each of the smallest files of the tree is met before the walk stops. */
  predicate SmallestAreMet(listing: Listing, limit: nat, score: Record -> int, wanted: Record -> bool) {
    var all := Matches(listing, wanted);
    var l := EffectiveLimit(limit);
    multiset(Smallest(score, all, l)) <= multiset(all[..Least(CollectionLimit(l), |all|)])
  }

  /** The files are the smallest of the whole tree exactly when the walk meets each of these before
      it has collected enough. */
  lemma SmallestExactly(listing: Listing, limit: nat, score: Record -> int, wanted: Record -> bool)
    requires Reads(listing)
    ensures var r := SourceFiles(Folder(listing), limit, score, wanted);
      && r.Done? && r.value.limit == EffectiveLimit(limit)
      && (r.value.files == Smallest(score, Matches(listing, wanted), r.value.limit)
          <==> SmallestAreMet(listing, limit, score, wanted))
  {
    ScanOfReadable(listing, limit, score, wanted);
    RecordOrderIsWeak(score);
    var all, l := Matches(listing, wanted), EffectiveLimit(limit);
    FirstOfPartExactly(ByRecord(score), all, Least(CollectionLimit(l), |all|), Least(l, |all|));
  }

  /** Which it always does when fewer files match than it collects. */
  lemma AllAreMet(listing: Listing, limit: nat, score: Record -> int, wanted: Record -> bool)
    requires |Matches(listing, wanted)| < CollectionLimit(EffectiveLimit(limit))
    ensures SmallestAreMet(listing, limit, score, wanted)
  {
    var all, l := Matches(listing, wanted), EffectiveLimit(limit);
    SortedRecords(score, all);
    var sorted := Sort(ByRecord(score), all);
    CutOfOrdered(score, sorted, Least(l, |sorted|));
    assert all[..|all|] == all;
  }

  /** Nothing after a cut of an ordered listing belongs before it. */
  lemma CutOfOrdered(score: Record -> int, sorted: seq<Record>, n: nat)
    requires Ordered(ByRecord(score), sorted) && n <= |sorted|
    ensures sorted[..n] + sorted[n..] == sorted
    ensures Ordered(ByRecord(score), sorted[..n])
    ensures forall f, o :: f in sorted[..n] && o in sorted[n..] ==> !Before(score, o, f)
  {
    forall f, o | f in sorted[..n] && o in sorted[n..]
      ensures !Before(score, o, f)
    {
      var i :| 0 <= i < n && sorted[..n][i] == f;
      var j :| 0 <= j < |sorted| - n && sorted[n..][j] == o;
      assert !ByRecord(score)(sorted[n + j], sorted[i]);
    }
  }

  /** Then nothing that is left out comes before a file of the answer. */
  lemma SmallestOfTheTree(listing: Listing, limit: nat, score: Record -> int, wanted: Record -> bool)
    returns (others: seq<Record>)
    requires Reads(listing) && SmallestAreMet(listing, limit, score, wanted)
    ensures var r := SourceFiles(Folder(listing), limit, score, wanted);
      && r.Done?
      && multiset(r.value.files + others) == multiset(Matches(listing, wanted))
      && Ordered(ByRecord(score), r.value.files)
      && (forall f, o :: f in r.value.files && o in others ==> !Before(score, o, f))
      && (others == [] || |r.value.files| == r.value.limit)
  {
    SmallestExactly(listing, limit, score, wanted);
    SortedRecords(score, Matches(listing, wanted));
    var sorted := Sort(ByRecord(score), Matches(listing, wanted));
    var n := Least(EffectiveLimit(limit), |sorted|);
    others := sorted[n..];
    CutOfOrdered(score, sorted, n);
  }

  lemma SameSorted(score: Record -> int, a: seq<Record>, b: seq<Record>)
    requires multiset(a) == multiset(b) && DistinctPaths(a)
    ensures Sort(ByRecord(score), a) == Sort(ByRecord(score), b)
  {
    SortedRecords(score, a);
    SortedRecords(score, b);
    var sorted := Sort(ByRecord(score), a);
    forall x | x in sorted
      ensures x in a
    {
      assert x in multiset(sorted);
    }
    ListedOneWay(score, sorted, Sort(ByRecord(score), b));
  }

  /** Two trees with the same files: when one walk meets the smallest, the other lists the same files
      exactly when it meets them too. The order in which the files are met shows in nothing else. */
  lemma WalkOrderShowsExactly(one: Listing, other: Listing, limit: nat, score: Record -> int, wanted: Record -> bool)
    requires Reads(one) && Reads(other)
    requires multiset(Matches(one, wanted)) == multiset(Matches(other, wanted)) && DistinctPaths(Matches(one, wanted))
    requires SmallestAreMet(one, limit, score, wanted)
    ensures var a := SourceFiles(Folder(one), limit, score, wanted);
      var b := SourceFiles(Folder(other), limit, score, wanted);
      && a.Done? && b.Done?
      && (a.value.files == b.value.files <==> SmallestAreMet(other, limit, score, wanted))
  {
    SmallestExactly(one, limit, score, wanted);
    SmallestExactly(other, limit, score, wanted);
    SameSorted(score, Matches(one, wanted), Matches(other, wanted));
  }

  /** Below the collection limit the order does not show at all. */
  lemma WalkOrderDoesNotShow(one: Listing, other: Listing, limit: nat, score: Record -> int, wanted: Record -> bool)
    requires Reads(one) && Reads(other)
    requires multiset(Matches(one, wanted)) == multiset(Matches(other, wanted)) && DistinctPaths(Matches(one, wanted))
    requires |Matches(one, wanted)| < CollectionLimit(EffectiveLimit(limit))
    ensures SourceFiles(Folder(one), limit, score, wanted).Done? && SourceFiles(Folder(other), limit, score, wanted).Done?
    ensures SourceFiles(Folder(one), limit, score, wanted).value.files
         == SourceFiles(Folder(other), limit, score, wanted).value.files
  {
    var a, b := Matches(one, wanted), Matches(other, wanted);
    assert |a| == |multiset(a)| == |multiset(b)| == |b|;
    AllAreMet(one, limit, score, wanted);
    AllAreMet(other, limit, score, wanted);
    WalkOrderShowsExactly(one, other, limit, score, wanted);
  }

  // ---------------------------------------------------------------- a walk that stops too early

  function Lua(folder: string, name: string): Record {
    Record("/" + folder + name, folder + name, name, "lua", 0)
  }

  function Any(): Record -> bool {
    r => true
  }

  /** The path priorities of the files below: a Lua file among fixtures, or at the top. */
  function Priority(): Record -> int {
    r => if r == Lua("", "a.lua") then 88 else 102
  }

  function Cs(n: nat): string {
    if n == 0 then "" else "c" + Cs(n - 1)
  }

  function Fixtures(n: nat): seq<Node> {
    if n == 0 then [] else [File(Lua("src/fixtures/", Cs(n) + ".lua"))] + Fixtures(n - 1)
  }

  /** In walk order: the folder `src` has priority 74. */
  function ManyFixtures(n: nat): Listing {
    Entries([Directory("/src", "src", None, Source(n)), File(Lua("", "a.lua"))])
  }

  function Source(n: nat): Listing {
    Entries([Directory("/src/fixtures", "fixtures", None, Entries(Fixtures(n)))])
  }

  lemma NodeThenRest(n: Node, rest: seq<Node>)
    ensures MatchesOfAll([n] + rest, Any()) == NodeMatches(n, Any()) + MatchesOfAll(rest, Any())
    ensures NodeReads(n) && Reads(Entries(rest)) ==> Reads(Entries([n] + rest))
  {
    assert ([n] + rest)[1..] == rest;
  }

  lemma {:induction false} FixturesMatch(n: nat)
    ensures Reads(Entries(Fixtures(n)))
    ensures var found := MatchesOfAll(Fixtures(n), Any());
      |found| == n && Lua("", "a.lua") !in found
  {
    if n != 0 {
      FixturesMatch(n - 1);
      var first := Lua("src/fixtures/", Cs(n) + ".lua");
      NodeThenRest(File(first), Fixtures(n - 1));
      assert first.relativePath[0] == 's';
    }
  }

  lemma SourceMatches(n: nat)
    ensures Reads(Source(n)) && Matches(Source(n), Any()) == MatchesOfAll(Fixtures(n), Any())
  {
    FixturesMatch(n);
    var inner := Directory("/src/fixtures", "fixtures", None, Entries(Fixtures(n)));
    NodeThenRest(inner, []);
    assert [inner] + [] == [inner];
    assert NodeMatches(inner, Any()) == MatchesOfAll(Fixtures(n), Any());
    assert MatchesOfAll([], Any()) == [];
  }

  lemma AllMatch(n: nat)
    ensures Reads(ManyFixtures(n))
    ensures Matches(ManyFixtures(n), Any()) == MatchesOfAll(Fixtures(n), Any()) + [Lua("", "a.lua")]
  {
    SourceMatches(n);
    var folder, file := Directory("/src", "src", None, Source(n)), File(Lua("", "a.lua"));
    NodeThenRest(folder, [file]);
    NodeThenRest(file, []);
    assert [folder] + [file] == [folder, file] && [file] + [] == [file];
    assert NodeMatches(folder, Any()) == MatchesOfAll(Fixtures(n), Any());
    assert NodeMatches(file, Any()) == [Lua("", "a.lua")];
    assert MatchesOfAll([], Any()) == [];
  }

  lemma FirstIsAtTheTop(all: seq<Record>)
    requires Lua("", "a.lua") in all
    ensures Smallest(Priority(), all, 1) == [Lua("", "a.lua")]
  {
    SortedRecords(Priority(), all);
    var sorted := Sort(ByRecord(Priority()), all);
    assert Lua("", "a.lua") in multiset(sorted);
    var k :| 0 <= k < |sorted| && sorted[k] == Lua("", "a.lua");
    assert k == 0 || !Before(Priority(), sorted[k], sorted[0]);
  }

  /** With as many fixtures as the scan collects, the one file that comes first is not in the answer:
      the walk enters `src` before it looks at the file. */
  lemma FirstIsNotListed(n: nat)
    requires n == DEFAULT_SOURCE_LIST_LIMIT + 1
    ensures Reads(ManyFixtures(n))
    ensures Smallest(Priority(), Matches(ManyFixtures(n), Any()), 1) == [Lua("", "a.lua")]
    ensures var r := SourceFiles(Folder(ManyFixtures(n)), 1, Priority(), Any());
      r.Done? && r.value.limit == 1 && Lua("", "a.lua") !in r.value.files
  {
    AllMatch(n);
    FixturesMatch(n);
    FirstIsAtTheTop(Matches(ManyFixtures(n), Any()));
    var fixtures := MatchesOfAll(Fixtures(n), Any());
    assert (fixtures + [Lua("", "a.lua")])[..n] == fixtures;
    ScanOfReadable(ManyFixtures(n), 1, Priority(), Any());
    NoneIsAtTheTop(fixtures);
  }

  lemma NoneIsAtTheTop(met: seq<Record>)
    requires Lua("", "a.lua") !in met
    ensures Lua("", "a.lua") !in Smallest(Priority(), met, 1)
  {
    SortedRecords(Priority(), met);
    forall r | r in Smallest(Priority(), met, 1)
      ensures r in met
    {
      assert r in multiset(Sort(ByRecord(Priority()), met));
    }
  }

  // ---------------------------------------------------------------- trees that do not read

  /** Where the walk meets the first directory that cannot be read. */
  function FirstBreak(visits: seq<Visit>): (n: nat)
    ensures n <= |visits|
    ensures n < |visits| ==> visits[n].Broken?
    ensures forall k :: 0 <= k < n ==> !visits[k].Broken?
  {
    if visits == [] || visits[0].Broken? then 0 else 1 + FirstBreak(visits[1..])
  }

  lemma {:induction false} RunFailsExactly(p: Progress, visits: seq<Visit>, limit: nat)
    ensures !Run(p, visits, limit).1
       <==> FirstBreak(visits) < |visits| && |p.records| + |FoundIn(visits[..FirstBreak(visits)])| < limit
    decreases |visits|
  {
    if visits != [] && !visits[0].Broken? {
      RunFailsExactly(Take(p, visits[0]), visits[1..], limit);
      var n := FirstBreak(visits[1..]);
      assert visits[..n + 1][1..] == visits[1..][..n];
    }
  }

  /** The scan fails exactly when it meets an unreadable directory before it has enough files. */
  lemma RefusedExactly(listing: Listing, limit: nat, score: Record -> int, wanted: Record -> bool)
    ensures var visits := VisitsIn(listing, wanted);
      var n := FirstBreak(visits);
      SourceFiles(Folder(listing), limit, score, wanted).Refused?
        == (n < |visits| && |FoundIn(visits[..n])| < CollectionLimit(EffectiveLimit(limit)))
  {
    RunFailsExactly(Start(), VisitsIn(listing, wanted), CollectionLimit(EffectiveLimit(limit)));
  }

  // ---------------------------------------------------------------- the counters

  predicate Consistent(p: Progress) {
    && p.matched == |p.records|
    && p.matched + p.skipped + p.unsupported + p.unreadable <= p.visited
    && |p.samples| == Least(MAX_SKIPPED_DIRECTORY_SAMPLES, p.skipped)
  }

  lemma {:induction false} RunStaysConsistent(p: Progress, visits: seq<Visit>, limit: nat)
    requires Consistent(p)
    ensures Consistent(Run(p, visits, limit).0)
    decreases |visits|
  {
    if |p.records| < limit && visits != [] && !visits[0].Broken? {
      RunStaysConsistent(Take(p, visits[0]), visits[1..], limit);
    }
  }

  /** Diagnostics of every listing that succeeds. */
  lemma DiagnosticsAgree(root: Root, limit: nat, score: Record -> int, wanted: Record -> bool)
    requires SourceFiles(root, limit, score, wanted).Done?
    ensures var r := SourceFiles(root, limit, score, wanted).value;
      var d := r.diagnostics;
      && d.returnedCount == |r.files| == Least(d.effectiveLimit, d.matchedFileCount)
      && (r.truncated <==> d.returnedCount < d.matchedFileCount)
      && d.matchedFileCount + d.skippedDirectoryCount + d.unsupportedFileCount + d.unreadableEntryCount <= d.visitedEntryCount
      && |d.skippedDirectories| == Least(MAX_SKIPPED_DIRECTORY_SAMPLES, d.skippedDirectoryCount)
  {
    var l := EffectiveLimit(limit);
    var visits := VisitsIn(root.listing, wanted);
    RunStaysConsistent(Start(), visits, CollectionLimit(l));
    var records := Run(Start(), visits, CollectionLimit(l)).0.records;
    SortedRecords(score, records);
  }
}
