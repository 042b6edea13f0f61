/**
 The diagnostics of the source scan, counted over the entries of the tree.
 */
module SourceCounts {
  import opened Basics
  import opened SourceList
  import opened SourceScan

  // ---------------------------------------------------------------- what the tree holds

  /** The file sits somewhere below, in no directory that is left out. */
  predicate Holds(listing: Listing, r: Record) {
    listing.Entries? && exists k :: 0 <= k < |listing.nodes| && NodeHolds(listing.nodes[k], r)
  }

  predicate NodeHolds(n: Node, r: Record) {
    match n
    case Directory(_, _, skip, inside) => skip == None && Holds(inside, r)
    case File(record) => record == r
    case _ => false
  }

  /** The matches are the files below whose language is known and that are asked for. */
  lemma {:induction false} MatchesAre(listing: Listing, wanted: Record -> bool, r: Record)
    ensures r in Matches(listing, wanted) <==> Holds(listing, r) && r.language != "plain" && wanted(r)
    decreases listing
  {
    if listing.Entries? {
      MatchesOfAllAre(listing.nodes, wanted, r);
    }
  }

  lemma {:induction false} MatchesOfAllAre(nodes: seq<Node>, wanted: Record -> bool, r: Record)
    ensures r in MatchesOfAll(nodes, wanted)
       <==> (exists k :: 0 <= k < |nodes| && NodeHolds(nodes[k], r)) && r.language != "plain" && wanted(r)
    decreases nodes
  {
    if nodes != [] {
      var rest := nodes[1..];
      if nodes[0].Directory? {
        MatchesAre(nodes[0].listing, wanted, r);
      }
      MatchesOfAllAre(rest, wanted, r);
      if k :| 0 <= k < |nodes| && NodeHolds(nodes[k], r) && k > 0 {
        assert rest[k - 1] == nodes[k];
      }
      assert forall k :: 0 <= k < |rest| ==> rest[k] == nodes[k + 1];
    }
  }

  // ---------------------------------------------------------------- what the walk looks at

  /** Every entry an unbounded walk looks at, in walk order. */
  function Met(listing: Listing): seq<Node> {
    if listing.NotRead? then [] else MetOf(listing.nodes)
  }

  function MetOf(nodes: seq<Node>): seq<Node> {
    if nodes == [] then []
    else
      [nodes[0]]
      + (if nodes[0].Directory? && nodes[0].skip == None then Met(nodes[0].listing) else [])
      + MetOf(nodes[1..])
  }

  function Count(nodes: seq<Node>, kind: Node -> bool): nat {
    if nodes == [] then 0 else Count(nodes[..|nodes| - 1], kind) + if kind(nodes[|nodes| - 1]) then 1 else 0
  }

  predicate IsLeftOut(n: Node) {
    n.Directory? && n.skip != None
  }

  /** Neither a directory nor a file in a known language. */
  predicate IsUnsupported(n: Node) {
    n.Special? || (n.File? && n.record.language == "plain")
  }

  predicate IsUnreadable(n: Node) {
    n.Unreadable?
  }

  /** A file in a known language that is asked for. */
  function IsMatch(wanted: Record -> bool): Node -> bool {
    (n: Node) => n.File? && n.record.language != "plain" && wanted(n.record)
  }

  function LeftOut(nodes: seq<Node>): seq<Skipped> {
    if nodes == [] then []
    else
      var n := nodes[|nodes| - 1];
      LeftOut(nodes[..|nodes| - 1]) + if IsLeftOut(n) then [Skipped(n.path, n.name, n.skip.value)] else []
  }

  /** The visit that an entry by itself amounts to. */
  function VisitFor(n: Node, wanted: Record -> bool): Visit {
    if n.Directory? && n.skip == None then Entered else VisitsOf(n, wanted)[0]
  }

  /** As long as no unreadable directory is met, the visits are the entries, one by one. */
  ghost predicate Aligned(visits: seq<Visit>, met: seq<Node>, wanted: Record -> bool) {
    && (forall m :: 0 <= m <= |visits| && Broken !in visits[..m] ==>
          m <= |met| && forall k :: 0 <= k < m ==> visits[k] == VisitFor(met[k], wanted))
    && (Broken !in visits ==> |visits| == |met|)
  }

  lemma AlignedAppends(a: seq<Visit>, b: seq<Visit>, x: seq<Node>, y: seq<Node>, wanted: Record -> bool)
    requires Aligned(a, x, wanted) && Aligned(b, y, wanted)
    ensures Aligned(a + b, x + y, wanted)
  {
    assert a[..|a|] == a && b[..|b|] == b;
    forall m | 0 <= m <= |a + b| && Broken !in (a + b)[..m]
      ensures m <= |x + y| && forall k :: 0 <= k < m ==> (a + b)[k] == VisitFor((x + y)[k], wanted)
    {
      if m <= |a| {
        assert (a + b)[..m] == a[..m];
      } else {
        assert (a + b)[..m] == a + b[..m - |a|];
      }
    }
  }

  lemma {:induction false} VisitsAlign(listing: Listing, wanted: Record -> bool)
    ensures Aligned(VisitsIn(listing, wanted), Met(listing), wanted)
    decreases listing
  {
    if listing.Entries? {
      AllAlign(listing.nodes, wanted);
    } else {
      assert [Broken][..1] == [Broken];
    }
  }

  lemma {:induction false} AllAlign(nodes: seq<Node>, wanted: Record -> bool)
    ensures Aligned(VisitsOfAll(nodes, wanted), MetOf(nodes), wanted)
    decreases nodes
  {
    if nodes != [] {
      NodeAligns(nodes[0], wanted);
      AllAlign(nodes[1..], wanted);
      var first := [nodes[0]] + if nodes[0].Directory? && nodes[0].skip == None then Met(nodes[0].listing) else [];
      AlignedAppends(VisitsOf(nodes[0], wanted), VisitsOfAll(nodes[1..], wanted), first, MetOf(nodes[1..]), wanted);
    }
  }

  lemma {:induction false} NodeAligns(n: Node, wanted: Record -> bool)
    ensures Aligned(VisitsOf(n, wanted), [n] + if n.Directory? && n.skip == None then Met(n.listing) else [], wanted)
    decreases n
  {
    if n.Directory? && n.skip == None {
      VisitsAlign(n.listing, wanted);
      AlignedAppends([Entered], VisitsIn(n.listing, wanted), [n], Met(n.listing), wanted);
    } else {
      assert [n] + [] == [n];
    }
  }

  // ---------------------------------------------------------------- the counters

  /** The progress after looking at these entries and no more. */
  ghost predicate CountsOver(p: Progress, met: seq<Node>, wanted: Record -> bool) {
    && p.visited == |met|
    && p.unreadable == Count(met, IsUnreadable)
    && p.skipped == Count(met, IsLeftOut)
    && p.unsupported == Count(met, IsUnsupported)
    && p.matched == Count(met, IsMatch(wanted)) == |p.records|
    && p.samples == LeftOut(met)[..if |LeftOut(met)| < 16 then |LeftOut(met)| else 16]
  }

  lemma TakeCounts(p: Progress, met: seq<Node>, n: Node, wanted: Record -> bool)
    requires CountsOver(p, met, wanted)
    ensures CountsOver(Take(p, VisitFor(n, wanted)), met + [n], wanted)
  {
    assert (met + [n])[..|met|] == met;
  }

  /** The walk looks at the first entries, as far as it gets: all of them, unless it has enough files
      or meets a directory that cannot be read. */
  lemma {:induction false} RunCountsEntries(p: Progress, visits: seq<Visit>, limit: nat, met: seq<Node>, n: nat,
                                            wanted: Record -> bool) returns (last: nat)
    requires n <= |met| && Aligned(visits, met[n..], wanted) && CountsOver(p, met[..n], wanted)
    ensures n <= last <= |met| && CountsOver(Run(p, visits, limit).0, met[..last], wanted)
    ensures Run(p, visits, limit).1 && |Run(p, visits, limit).0.records| < limit ==> last == |met|
    decreases |visits|
  {
    last := n;
    if |p.records| >= limit {
    } else if visits == [] {
      assert Broken !in visits;
    } else if visits[0] != Broken {
      FirstAligned(visits, met, n, wanted);
      TakeCounts(p, met[..n], met[n], wanted);
      assert met[..n] + [met[n]] == met[..n + 1];
      last := RunCountsEntries(Take(p, visits[0]), visits[1..], limit, met, n + 1, wanted);
    }
  }

  lemma FirstAligned(visits: seq<Visit>, met: seq<Node>, n: nat, wanted: Record -> bool)
    requires n <= |met| && Aligned(visits, met[n..], wanted) && visits != [] && visits[0] != Broken
    ensures n < |met| && visits[0] == VisitFor(met[n], wanted) && Aligned(visits[1..], met[n + 1..], wanted)
  {
    assert visits[..1] == [visits[0]];
    var rest, left := visits[1..], met[n + 1..];
    assert forall k :: 0 <= k < |left| ==> left[k] == met[n..][k + 1];
    forall m | 0 <= m <= |rest| && Broken !in rest[..m]
      ensures m <= |left| && forall k :: 0 <= k < m ==> rest[k] == VisitFor(left[k], wanted)
    {
      assert visits[..m + 1] == [visits[0]] + rest[..m];
      assert forall k :: 0 <= k < m ==> rest[k] == visits[k + 1];
    }
    assert Broken !in rest ==> Broken !in visits;
  }

  /** The diagnostics of a listing that succeeds are counts over the first entries of its tree; over
      all of them when the collection limit was not reached. */
  lemma DiagnosticsCount(listing: Listing, limit: nat, score: Record -> int, wanted: Record -> bool) returns (n: nat)
    requires SourceFiles(Folder(listing), limit, score, wanted).Done?
    ensures n <= |Met(listing)|
    ensures var d := SourceFiles(Folder(listing), limit, score, wanted).value.diagnostics;
      var met := Met(listing)[..n];
      && d.visitedEntryCount == n && d.matchedFileCount == Count(met, IsMatch(wanted))
      && d.unreadableEntryCount == Count(met, IsUnreadable)
      && d.skippedDirectoryCount == Count(met, IsLeftOut)
      && d.unsupportedFileCount == Count(met, IsUnsupported)
      && d.skippedDirectories == LeftOut(met)[..if |LeftOut(met)| < 16 then |LeftOut(met)| else 16]
      && (!d.collectionLimitReached ==> n == |Met(listing)|)
  {
    var met := Met(listing);
    VisitsAlign(listing, wanted);
    assert met[0..] == met && met[..0] == [];
    n := RunCountsEntries(Start(), VisitsIn(listing, wanted), CollectionLimit(EffectiveLimit(limit)), met, 0, wanted);
  }
}
