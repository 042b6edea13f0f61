/**
 The bounded scan for source files: a recursive walk that stops once enough files are collected,
 then a sort in another order and a cut to the asked limit.
 */
module SourceScan {
  import opened Basics

  const DEFAULT_SOURCE_LIST_LIMIT: nat := 10_000
  const MAX_SOURCE_LIST_LIMIT: nat := 25_000
  const MAX_SKIPPED_DIRECTORY_SAMPLES: nat := 16

  datatype Record = Record(path: string, relativePath: string, fileName: string, language: string, byteCount: nat)

  datatype Skipped = Skipped(path: string, name: string, reason: string)

  /** A directory entry. `skip` is the reason its name is on the list of directories not entered,
      and `listing` is `NotRead` when the directory cannot be read. Listings are in walk order;
      nothing here depends on which order that is. */
  datatype Node =
    | Unreadable
    | Directory(path: string, name: string, skip: Option<string>, listing: Listing)
    | File(record: Record)
    | Special

  /** What `read_dir` gives. */
  datatype Listing = NotRead | Entries(nodes: seq<Node>)

  // ---------------------------------------------------------------- what the walk meets

  datatype Visit =
    | Failed
    | Entered
    | Avoided(dir: Skipped)
    | Unsupported
    | Unwanted
    | Found(record: Record)
    | Broken

  /** `is_source_file`. */
  predicate IsSource(r: Record) {
    r.language != "plain"
  }

  function VisitsOf(n: Node, wanted: Record -> bool): seq<Visit> {
    match n
    case Unreadable => [Failed]
    case Directory(path, name, skip, listing) =>
      if skip.Some? then [Avoided(Skipped(path, name, skip.value))]
      else [Entered] + VisitsIn(listing, wanted)
    case File(record) =>
      if !IsSource(record) then [Unsupported]
      else if !wanted(record) then [Unwanted]
      else [Found(record)]
    case Special => [Unsupported]
  }

  function VisitsOfAll(nodes: seq<Node>, wanted: Record -> bool): seq<Visit> {
    if nodes == [] then [] else VisitsOf(nodes[0], wanted) + VisitsOfAll(nodes[1..], wanted)
  }

  function VisitsIn(listing: Listing, wanted: Record -> bool): seq<Visit> {
    match listing case NotRead => [Broken] case Entries(nodes) => VisitsOfAll(nodes, wanted)
  }

  // ---------------------------------------------------------------- the walk

  datatype Progress = Progress(records: seq<Record>, visited: nat, matched: nat, skipped: nat, unsupported: nat,
                               unreadable: nat, samples: seq<Skipped>)

  function Take(p: Progress, v: Visit): Progress {
    match v
    case Failed => p.(visited := p.visited + 1, unreadable := p.unreadable + 1)
    case Entered => p.(visited := p.visited + 1)
    case Avoided(dir) =>
      p.(visited := p.visited + 1, skipped := p.skipped + 1,
         samples := if |p.samples| >= MAX_SKIPPED_DIRECTORY_SAMPLES then p.samples else p.samples + [dir])
    case Unsupported => p.(visited := p.visited + 1, unsupported := p.unsupported + 1)
    case Unwanted => p.(visited := p.visited + 1)
    case Found(record) => p.(visited := p.visited + 1, matched := p.matched + 1, records := p.records + [record])
    case Broken => p
  }

  /** Take visits until enough files are collected or a directory cannot be read. */
  function Run(p: Progress, visits: seq<Visit>, limit: nat): (Progress, bool)
    decreases |visits|
  {
    if |p.records| >= limit || visits == [] then (p, true)
    else if visits[0].Broken? then (p, false)
    else Run(Take(p, visits[0]), visits[1..], limit)
  }

  lemma {:induction false} RunAppends(p: Progress, a: seq<Visit>, b: seq<Visit>, limit: nat)
    ensures Run(p, a + b, limit) == (var (q, ok) := Run(p, a, limit); if ok then Run(q, b, limit) else (q, false))
    decreases |a|
  {
    if a == [] {
      assert a + b == b;
    } else {
      assert (a + b)[1..] == a[1..] + b;
      RunAppends(Take(p, a[0]), a[1..], b, limit);
    }
  }

  /** The walk of a listing is the walk of its next entry and then of the others. */
  lemma RunNext(p: Progress, nodes: seq<Node>, k: nat, limit: nat, wanted: Record -> bool)
    requires k < |nodes|
    ensures Run(p, VisitsOfAll(nodes[k..], wanted), limit)
         == (var (q, ok) := Run(p, VisitsOf(nodes[k], wanted), limit);
             if ok then Run(q, VisitsOfAll(nodes[k + 1..], wanted), limit) else (q, false))
  {
    assert nodes[k..][1..] == nodes[k + 1..];
    RunAppends(p, VisitsOf(nodes[k], wanted), VisitsOfAll(nodes[k + 1..], wanted), limit);
  }

  lemma RunOne(p: Progress, v: Visit, limit: nat)
    requires |p.records| < limit && !v.Broken?
    ensures Run(p, [v], limit) == (Take(p, v), true)
  {
    assert [v][1..] == [];
  }

  lemma RunEnters(p: Progress, rest: seq<Visit>, limit: nat)
    requires |p.records| < limit
    ensures Run(p, [Entered] + rest, limit) == Run(p.(visited := p.visited + 1), rest, limit)
  {
    assert ([Entered] + rest)[1..] == rest;
  }

  /** The vector of records and the counters that the recursion shares. */
  class Scan {
    var records: seq<Record>
    var visited: nat
    var matched: nat
    var skipped: nat
    var unsupported: nat
    var unreadable: nat
    var samples: seq<Skipped>

    constructor ()
      ensures Now() == Progress([], 0, 0, 0, 0, 0, [])
    {
      records, samples := [], [];
      visited, matched, skipped, unsupported, unreadable := 0, 0, 0, 0, 0;
    }

    ghost function Now(): Progress
      reads this
    {
      Progress(records, visited, matched, skipped, unsupported, unreadable, samples)
    }

    /** `record_skipped_directory`. */
    method RecordSkippedDirectory(dir: Skipped)
      modifies this`skipped, this`samples
      ensures skipped == old(skipped) + 1
      ensures samples == if |old(samples)| >= MAX_SKIPPED_DIRECTORY_SAMPLES then old(samples) else old(samples) + [dir]
    {
      skipped := skipped + 1;
      if |samples| >= MAX_SKIPPED_DIRECTORY_SAMPLES {
        return;
      }
      samples := samples + [dir];
    }

    /** The loop body of `collect_source_files`. */
    method Meet(node: Node, limit: nat, wanted: Record -> bool) returns (ok: bool)
      requires |records| < limit
      modifies this
      ensures (Now(), ok) == Run(old(Now()), VisitsOf(node, wanted), limit)
      decreases node
    {
      visited := visited + 1;
      match node {
        case Unreadable =>
          unreadable := unreadable + 1;
        case Directory(path, name, skip, inside) =>
          if skip.Some? {
            RecordSkippedDirectory(Skipped(path, name, skip.value));
          } else {
            RunEnters(old(Now()), VisitsIn(inside, wanted), limit);
            ok := Collect(inside, limit, wanted);
            return;
          }
        case Special =>
          unsupported := unsupported + 1;
        case File(record) =>
          if !IsSource(record) {
            unsupported := unsupported + 1;
          } else if wanted(record) {
            matched := matched + 1;
            records := records + [record];
          }
      }
      RunOne(old(Now()), VisitsOf(node, wanted)[0], limit);
      return true;
    }

    /** `collect_source_files`. */
    method Collect(listing: Listing, limit: nat, wanted: Record -> bool) returns (ok: bool)
      modifies this
      ensures (Now(), ok) == Run(old(Now()), VisitsIn(listing, wanted), limit)
      decreases listing
    {
      if |records| >= limit {
        return true;
      }
      if listing.NotRead? {
        return false;
      }
      var nodes := listing.nodes;
      var k := 0;
      while k < |nodes|
        invariant 0 <= k <= |nodes|
        invariant Run(old(Now()), VisitsOfAll(nodes, wanted), limit) == Run(Now(), VisitsOfAll(nodes[k..], wanted), limit)
      {
        if |records| >= limit {
          break;
        }
        RunNext(Now(), nodes, k, limit, wanted);
        var inner := Meet(nodes[k], limit, wanted);
        if !inner {
          return false;
        }
        k := k + 1;
      }
      return true;
    }
  }
}
