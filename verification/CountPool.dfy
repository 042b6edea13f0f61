/**
 The pool of counting workers: every schedule of the steps by which they claim files through
 one shared counter, count them apart, and add their tallies up.
 */
module CountPool {
  import opened Basics
  import opened WordSearch
  import opened ReferenceCounts

  /** A file as a worker finds it: over the size ceiling, unreadable, or its lines. */
  datatype File = TooBig | Unreadable | Lines(lines: seq<Text>)

  datatype Worker =
    | Ready(counts: seq<nat>, scanned: nat)
    | Holding(index: nat, counts: seq<nat>, scanned: nat)
    | Finished(counts: seq<nat>, scanned: nat)

  /** What became of a claimed file. */
  datatype Fate = Held(worker: nat) | Counted | PassedOver | Abandoned

  /** `next_file`, the two flags, the workers, and as history the fate of each claimed file. */
  datatype Pool = Pool(next: nat, ranOutOfTime: bool, skipped: bool, workers: seq<Worker>, fate: map<nat, Fate>)

  datatype Step =
    | Claim(worker: nat)
    | GiveUp(worker: nat)
    | Work(worker: nat)

  function Zeros(n: nat): seq<nat> {
    seq(n, _ => 0)
  }

  function Start(names: seq<Text>, workers: nat): Pool {
    Pool(0, false, false, seq(workers, _ => Ready(Zeros(|names|), 0)), map[])
  }

  function Tallied(names: seq<Text>, counts: seq<nat>, lines: seq<Text>): seq<nat>
    requires |counts| == |names|
  {
    seq(|names|, i requires 0 <= i < |names| => Saturated(counts[i] + LineCount(names, i, lines)))
  }

  /** Whether a step of the worker can happen now. */
  predicate Enabled(names: seq<Text>, p: Pool, step: Step) {
    match step
    case Claim(w) => w < |p.workers| && p.workers[w].Ready?
    case GiveUp(w) => w < |p.workers| && p.workers[w].Holding?
    case Work(w) => w < |p.workers| && p.workers[w].Holding? && |p.workers[w].counts| == |names|
  }

  /** `Claim` is the fetch-add and the lookup; `GiveUp` finds the deadline passed; `Work` skips
      or counts the file. */
  function Next(names: seq<Text>, files: seq<File>, p: Pool, step: Step): Pool
    requires Enabled(names, p, step)
  {
    var w := p.workers[step.worker];
    match step
    case Claim(n) =>
      if p.next < |files| then
        p.(next := p.next + 1, workers := p.workers[n := Holding(p.next, w.counts, w.scanned)], fate := p.fate[p.next := Held(n)])
      else
        p.(next := p.next + 1, workers := p.workers[n := Finished(w.counts, w.scanned)])
    case GiveUp(n) =>
      p.(ranOutOfTime := true, workers := p.workers[n := Finished(w.counts, w.scanned)], fate := p.fate[w.index := Abandoned])
    case Work(n) =>
      if w.index < |files| && files[w.index].Lines? then
        p.(workers := p.workers[n := Ready(Tallied(names, w.counts, files[w.index].lines), w.scanned + 1)],
           fate := p.fate[w.index := Counted])
      else
        p.(skipped := true, workers := p.workers[n := Ready(w.counts, w.scanned)], fate := p.fate[w.index := PassedOver])
  }

  /** The pool after a schedule; `None` when a worker was asked for a step it cannot take. */
  function After(names: seq<Text>, files: seq<File>, workers: nat, steps: seq<Step>): Option<Pool> {
    if steps == [] then Some(Start(names, workers))
    else
      var before := After(names, files, workers, steps[..|steps| - 1]);
      if before.None? || !Enabled(names, before.value, steps[|steps| - 1]) then None
      else Some(Next(names, files, before.value, steps[|steps| - 1]))
  }

  /** The counter values the claims of a schedule received, in order. */
  function Claims(names: seq<Text>, files: seq<File>, workers: nat, steps: seq<Step>): seq<nat>
    requires After(names, files, workers, steps).Some?
  {
    if steps == [] then []
    else
      var front := steps[..|steps| - 1];
      Claims(names, files, workers, front)
        + if steps[|steps| - 1].Claim? then [After(names, files, workers, front).value.next] else []
  }

  /** Each index is handed out once, in order, under every schedule. */
  lemma {:induction false} EachIndexClaimedOnce(names: seq<Text>, files: seq<File>, workers: nat, steps: seq<Step>)
    requires After(names, files, workers, steps).Some?
    ensures Claims(names, files, workers, steps) == seq(After(names, files, workers, steps).value.next, k => k)
  {
    if steps != [] {
      EachIndexClaimedOnce(names, files, workers, steps[..|steps| - 1]);
    }
  }

  // ---------------------------------------------------------------- sums

  function FileCount(names: seq<Text>, i: nat, f: File): nat
    requires i < |names|
  {
    if f.Lines? then LineCount(names, i, f.lines) else 0
  }

  /** The exact count over the files of a set among the first `n`. */
  function Exact(names: seq<Text>, i: nat, files: seq<File>, n: nat, some: set<nat>): nat
    requires i < |names| && n <= |files|
  {
    if n == 0 then 0
    else Exact(names, i, files, n - 1, some) + if n - 1 in some then FileCount(names, i, files[n - 1]) else 0
  }

  function UpToIndex(n: nat): (all: set<nat>)
    ensures |all| == n && forall k: nat :: k in all <==> k < n
  {
    if n == 0 then {} else UpToIndex(n - 1) + {n - 1}
  }

  function AllFiles(files: seq<File>): set<nat> {
    UpToIndex(|files|)
  }

  lemma {:induction false} ExactGrows(names: seq<Text>, i: nat, files: seq<File>, n: nat, some: set<nat>, k: nat)
    requires i < |names| && n <= |files| && k < |files| && k !in some
    ensures Exact(names, i, files, n, some + {k})
      == Exact(names, i, files, n, some) + if k < n then FileCount(names, i, files[k]) else 0
  {
    if n > 0 {
      ExactGrows(names, i, files, n - 1, some, k);
    }
  }

  lemma {:induction false} ExactMonotone(names: seq<Text>, i: nat, files: seq<File>, n: nat, some: set<nat>, more: set<nat>)
    requires i < |names| && n <= |files| && forall k: nat :: k < n && k in some ==> k in more
    ensures Exact(names, i, files, n, some) <= Exact(names, i, files, n, more)
  {
    if n > 0 {
      ExactMonotone(names, i, files, n - 1, some, more);
    }
  }

  /** What joining the workers adds up, each addition saturating. */
  function Joined(workers: seq<Worker>, i: nat): nat {
    if workers == [] then 0
    else Saturated(Joined(workers[..|workers| - 1], i) + CountOf(workers[|workers| - 1], i))
  }

  function CountOf(w: Worker, i: nat): nat {
    if i < |w.counts| then w.counts[i] else 0
  }

  function Scanned(workers: seq<Worker>): nat {
    if workers == [] then 0 else Scanned(workers[..|workers| - 1]) + workers[|workers| - 1].scanned
  }

  /** Growing one worker's tally grows the saturated sum the same way. */
  lemma {:induction false} JoinedUpdate(workers: seq<Worker>, w: nat, v: Worker, i: nat, more: nat)
    requires w < |workers| && CountOf(v, i) == Saturated(CountOf(workers[w], i) + more)
    ensures Joined(workers[w := v], i) == Saturated(Joined(workers, i) + more)
  {
    var last := |workers| - 1;
    if w == last {
      assert workers[w := v][..last] == workers[..last];
    } else {
      assert workers[w := v][..last] == workers[..last][w := v];
      JoinedUpdate(workers[..last], w, v, i, more);
    }
  }

  lemma {:induction false} ScannedUpdate(workers: seq<Worker>, w: nat, v: Worker)
    requires w < |workers|
    ensures Scanned(workers[w := v]) == Scanned(workers) - workers[w].scanned + v.scanned
  {
    var last := |workers| - 1;
    if w == last {
      assert workers[w := v][..last] == workers[..last];
    } else {
      assert workers[w := v][..last] == workers[..last][w := v];
      ScannedUpdate(workers[..last], w, v);
    }
  }

  lemma {:induction false} StartJoined(workers: seq<Worker>, i: nat)
    requires forall w :: 0 <= w < |workers| ==> CountOf(workers[w], i) == 0 && workers[w].scanned == 0
    ensures Joined(workers, i) == 0 && Scanned(workers) == 0
  {
    if workers != [] {
      StartJoined(workers[..|workers| - 1], i);
    }
  }

  // ---------------------------------------------------------------- what every schedule keeps

  function CountedFiles(p: Pool): set<nat> {
    set k: nat | k in p.fate && p.fate[k] == Counted
  }

  /** Exactly the claimed files have a fate; a file is held by the worker that holds it and by
      no other; only readable files are counted and only the others passed over. */
  ghost predicate FilesAccounted(files: seq<File>, p: Pool) {
    && (forall k: nat :: k in p.fate <==> k < |files| && k < p.next)
    && (forall w: nat :: w < |p.workers| && p.workers[w].Holding? ==>
          p.workers[w].index in p.fate && p.fate[p.workers[w].index] == Held(w))
    && (forall k: nat :: k in p.fate && p.fate[k].Held? ==>
          p.fate[k].worker < |p.workers| && p.workers[p.fate[k].worker].Holding? && p.workers[p.fate[k].worker].index == k)
    && (forall k: nat :: k in p.fate && p.fate[k] == Counted ==> k < |files| && files[k].Lines?)
    && (forall k: nat :: k in p.fate && p.fate[k] == PassedOver ==> k < |files| && !files[k].Lines?)
  }

  /** A flag is up exactly when some file met its fate. */
  ghost predicate FlagsHonest(files: seq<File>, p: Pool) {
    && (p.ranOutOfTime <==> exists k: nat :: k in p.fate && p.fate[k] == Abandoned)
    && (p.skipped <==> exists k: nat :: k in p.fate && p.fate[k] == PassedOver)
    && (!p.ranOutOfTime ==> forall w :: 0 <= w < |p.workers| && p.workers[w].Finished? ==> |files| <= p.next)
  }

  /** Every tally is a u32 per symbol; their saturated sums are exact for the counted files. */
  ghost predicate SumsFollow(names: seq<Text>, files: seq<File>, workers: seq<Worker>, counted: set<nat>) {
    && (forall w :: 0 <= w < |workers| ==> |workers[w].counts| == |names|)
    && (forall w, i :: 0 <= w < |workers| && 0 <= i < |workers[w].counts| ==> workers[w].counts[i] <= U32_MAX)
    && (forall i: nat :: i < |names| ==> Joined(workers, i) == Saturated(Exact(names, i, files, |files|, counted)))
    && Scanned(workers) == |counted|
  }

  ghost predicate SumsExact(names: seq<Text>, files: seq<File>, p: Pool) {
    SumsFollow(names, files, p.workers, CountedFiles(p))
  }

  ghost predicate Good(names: seq<Text>, files: seq<File>, p: Pool) {
    FilesAccounted(files, p) && FlagsHonest(files, p) && SumsExact(names, files, p)
  }

  lemma StartGood(names: seq<Text>, files: seq<File>, workers: nat)
    ensures Good(names, files, Start(names, workers))
  {
    var p := Start(names, workers);
    assert CountedFiles(p) == {};
    forall i: nat | i < |names|
      ensures Joined(p.workers, i) == Saturated(Exact(names, i, files, |files|, {}))
    {
      StartJoined(p.workers, i);
      ExactNothing(names, i, files, |files|);
    }
    StartJoined(p.workers, 0);
  }

  lemma {:induction false} ExactNothing(names: seq<Text>, i: nat, files: seq<File>, n: nat)
    requires i < |names| && n <= |files|
    ensures Exact(names, i, files, n, {}) == 0
  {
    if n > 0 {
      ExactNothing(names, i, files, n - 1);
    }
  }

  predicate IsCount(files: seq<File>, p: Pool, step: Step)
    requires step.worker < |p.workers|
  {
    step.Work? && p.workers[step.worker].Holding? && p.workers[step.worker].index < |files|
      && files[p.workers[step.worker].index].Lines?
  }

  lemma StepCounted(names: seq<Text>, files: seq<File>, p: Pool, step: Step)
    requires FilesAccounted(files, p) && Enabled(names, p, step)
    ensures CountedFiles(Next(names, files, p, step))
      == CountedFiles(p) + if IsCount(files, p, step) then {p.workers[step.worker].index} else {}
    ensures IsCount(files, p, step) ==> p.workers[step.worker].index !in CountedFiles(p)
  {
    var q := Next(names, files, p, step);
    var now := CountedFiles(p) + if IsCount(files, p, step) then {p.workers[step.worker].index} else {};
    forall k: nat
      ensures k in CountedFiles(q) <==> k in now
    {
    }
    assert CountedFiles(q) == now;
  }

  /** A step changes one worker, whose tally grows by the file it counted. */
  lemma StepWorker(names: seq<Text>, files: seq<File>, p: Pool, step: Step)
    requires Enabled(names, p, step)
    ensures var w := p.workers[step.worker];
      var q := Next(names, files, p, step).workers;
      && |q| == |p.workers| && q == p.workers[step.worker := q[step.worker]]
      && q[step.worker].scanned == w.scanned + (if IsCount(files, p, step) then 1 else 0)
      && q[step.worker].counts == (if IsCount(files, p, step) then Tallied(names, w.counts, files[w.index].lines) else w.counts)
  {
  }

  /** The saturated sum of the tallies follows the exact sum over the counted files. */
  lemma SumFollows(names: seq<Text>, files: seq<File>, workers: seq<Worker>, n: nat, v: Worker, i: nat,
                   some: set<nat>, k: nat)
    requires n < |workers| && i < |names| && |workers[n].counts| == |names| && k < |files| && k !in some && files[k].Lines?
    requires v.counts == Tallied(names, workers[n].counts, files[k].lines)
    requires Joined(workers, i) == Saturated(Exact(names, i, files, |files|, some))
    ensures Joined(workers[n := v], i) == Saturated(Exact(names, i, files, |files|, some + {k}))
  {
    JoinedUpdate(workers, n, v, i, LineCount(names, i, files[k].lines));
    ExactGrows(names, i, files, |files|, some, k);
  }

  lemma CountingKeepsSums(names: seq<Text>, files: seq<File>, workers: seq<Worker>, n: nat, v: Worker,
                          counted: set<nat>, k: nat)
    requires SumsFollow(names, files, workers, counted) && n < |workers|
    requires k < |files| && k !in counted && files[k].Lines?
    requires v.counts == Tallied(names, workers[n].counts, files[k].lines) && v.scanned == workers[n].scanned + 1
    ensures SumsFollow(names, files, workers[n := v], counted + {k})
  {
    ScannedUpdate(workers, n, v);
    forall i: nat | i < |names|
      ensures Joined(workers[n := v], i) == Saturated(Exact(names, i, files, |files|, counted + {k}))
    {
      SumFollows(names, files, workers, n, v, i, counted, k);
    }
  }

  lemma IdlingKeepsSums(names: seq<Text>, files: seq<File>, workers: seq<Worker>, n: nat, v: Worker, counted: set<nat>)
    requires SumsFollow(names, files, workers, counted) && n < |workers|
    requires v.counts == workers[n].counts && v.scanned == workers[n].scanned
    ensures SumsFollow(names, files, workers[n := v], counted)
  {
    ScannedUpdate(workers, n, v);
    forall i: nat | i < |names|
      ensures Joined(workers[n := v], i) == Joined(workers, i)
    {
      JoinedUpdate(workers, n, v, i, 0);
    }
  }

  lemma StepSums(names: seq<Text>, files: seq<File>, p: Pool, step: Step)
    requires FilesAccounted(files, p) && SumsExact(names, files, p) && Enabled(names, p, step)
    ensures SumsExact(names, files, Next(names, files, p, step))
  {
    var n := step.worker;
    var v := Next(names, files, p, step).workers[n];
    StepWorker(names, files, p, step);
    StepCounted(names, files, p, step);
    if IsCount(files, p, step) {
      CountingKeepsSums(names, files, p.workers, n, v, CountedFiles(p), p.workers[n].index);
    } else {
      IdlingKeepsSums(names, files, p.workers, n, v, CountedFiles(p));
      assert CountedFiles(p) + {} == CountedFiles(p);
    }
  }

  lemma ClaimKeepsFiles(files: seq<File>, p: Pool, q: Pool, n: nat)
    requires FilesAccounted(files, p) && n < |p.workers| && p.workers[n].Ready?
    requires q.next == p.next + 1 && |q.workers| == |p.workers|
    requires forall w :: 0 <= w < |p.workers| && w != n ==> q.workers[w] == p.workers[w]
    requires if p.next < |files|
      then q.workers[n].Holding? && q.workers[n].index == p.next && q.fate == p.fate[p.next := Held(n)]
      else q.workers[n].Finished? && q.fate == p.fate
    ensures FilesAccounted(files, q)
  {
  }

  lemma ReleaseKeepsFiles(files: seq<File>, p: Pool, q: Pool, n: nat, fate: Fate)
    requires FilesAccounted(files, p) && n < |p.workers| && p.workers[n].Holding?
    requires q.next == p.next && |q.workers| == |p.workers| && !q.workers[n].Holding?
    requires forall w :: 0 <= w < |p.workers| && w != n ==> q.workers[w] == p.workers[w]
    requires q.fate == p.fate[p.workers[n].index := fate] && !fate.Held?
    requires fate == Counted ==> files[p.workers[n].index].Lines?
    requires fate == PassedOver ==> !files[p.workers[n].index].Lines?
    ensures FilesAccounted(files, q)
  {
  }

  lemma StepFiles(names: seq<Text>, files: seq<File>, p: Pool, step: Step)
    requires FilesAccounted(files, p) && Enabled(names, p, step)
    ensures FilesAccounted(files, Next(names, files, p, step))
  {
    var q := Next(names, files, p, step);
    if step.Claim? {
      ClaimKeepsFiles(files, p, q, step.worker);
    } else {
      assert p.workers[step.worker].index in p.fate;
      ReleaseKeepsFiles(files, p, q, step.worker, q.fate[p.workers[step.worker].index]);
    }
  }

  lemma StepFlags(names: seq<Text>, files: seq<File>, p: Pool, step: Step)
    requires FilesAccounted(files, p) && FlagsHonest(files, p) && Enabled(names, p, step)
    ensures FlagsHonest(files, Next(names, files, p, step))
  {
    var q := Next(names, files, p, step);
    var w := p.workers[step.worker];
    forall k: nat | k in p.fate && !p.fate[k].Held?
      ensures k in q.fate && q.fate[k] == p.fate[k]
    {
    }
    assert w.Holding? ==> w.index in q.fate;
  }

  lemma {:induction false} EverySchedule(names: seq<Text>, files: seq<File>, workers: nat, steps: seq<Step>)
    requires After(names, files, workers, steps).Some?
    ensures var p := After(names, files, workers, steps).value;
      Good(names, files, p) && |p.workers| == workers
  {
    if steps == [] {
      StartGood(names, files, workers);
    } else {
      var before := After(names, files, workers, steps[..|steps| - 1]).value;
      EverySchedule(names, files, workers, steps[..|steps| - 1]);
      StepSums(names, files, before, steps[|steps| - 1]);
      StepFiles(names, files, before, steps[|steps| - 1]);
      StepFlags(names, files, before, steps[|steps| - 1]);
    }
  }

  predicate AllFinished(p: Pool) {
    forall w :: 0 <= w < |p.workers| ==> p.workers[w].Finished?
  }

  /** Whatever the schedule, once every worker has finished: with neither flag up every file was
      scanned and each total is the saturated exact count; otherwise each total is a floor of
      it, and a skip flag means some file could not be counted. */
  lemma PassTotals(names: seq<Text>, files: seq<File>, workers: nat, steps: seq<Step>, i: nat)
    requires After(names, files, workers, steps).Some? && 0 < workers && i < |names|
    requires AllFinished(After(names, files, workers, steps).value)
    ensures var p := After(names, files, workers, steps).value;
      var exact := Saturated(Exact(names, i, files, |files|, AllFiles(files)));
      && (!p.ranOutOfTime && !p.skipped ==> Scanned(p.workers) == |files| && Joined(p.workers, i) == exact)
      && Joined(p.workers, i) <= exact
      && (p.skipped ==> exists k :: 0 <= k < |files| && !files[k].Lines?)
  {
    var p := After(names, files, workers, steps).value;
    EverySchedule(names, files, workers, steps);
    assert p.workers[0].Finished?;
    ExactMonotone(names, i, files, |files|, CountedFiles(p), AllFiles(files));
    if !p.ranOutOfTime && !p.skipped {
      assert forall k: nat :: k < |files| ==> k in p.fate;
      assert CountedFiles(p) == AllFiles(files);
    }
  }

  // ---------------------------------------------------------------- what the totals mean

  /** The lines of all readable files that hold the name as a whole word. */
  ghost function MentioningFiles(name: Text, files: seq<File>, n: nat): nat
    requires n <= |files|
  {
    if n == 0 then 0
    else
      MentioningFiles(name, files, n - 1)
      + if files[n - 1].Lines? then MentioningLines(name, files[n - 1].lines) else 0
  }

  lemma {:induction false} ExactIsMentions(names: seq<Text>, i: nat, files: seq<File>, n: nat)
    requires CountsExactly(names, i) && n <= |files|
    ensures Exact(names, i, files, n, AllFiles(files)) == MentioningFiles(names[i], files, n)
  {
    if n > 0 {
      ExactIsMentions(names, i, files, n - 1);
      if files[n - 1].Lines? {
        LineCountIsMentions(names, i, files[n - 1].lines);
      }
    }
  }

  /** A whole pass over requested names: whatever the schedule, the total of a name that cannot
      overlap itself after a break is the saturated number of lines that mention it when neither
      flag is up, and never more. */
  lemma PassCountsMentions(trimmed: seq<Text>, files: seq<File>, workers: nat, steps: seq<Step>, i: nat)
    requires var names := Kept(trimmed, []);
      && i < |names| && (forall d :: !OverlapsAfterBreak(names[i], d))
      && After(names, files, workers, steps).Some? && 0 < workers
      && AllFinished(After(names, files, workers, steps).value)
    ensures var names := Kept(trimmed, []);
      var p := After(names, files, workers, steps).value;
      var mentions := Saturated(MentioningFiles(names[i], files, |files|));
      && Joined(p.workers, i) <= mentions
      && (!p.ranOutOfTime && !p.skipped ==> Joined(p.workers, i) == mentions)
  {
    var names := Kept(trimmed, []);
    NormalizedShape(trimmed, []);
    PassTotals(names, files, workers, steps, i);
    ExactIsMentions(names, i, files, |files|);
  }
}
