/**
 The tally of one file: identifiers looked up as they are scanned, other names searched for, each
 symbol at most once a line.
 */
module ReferenceCounts {
  import opened WordSearch

  const U32_MAX: nat := 0xFFFF_FFFF
  const MAX_REFERENCE_COUNT_SYMBOLS: nat := 256

  /** `saturating_add` on u32. */
  function Saturated(n: nat): nat {
    if n > U32_MAX then U32_MAX else n
  }

  datatype Plan = Plan(names: seq<Text>, identifiers: map<Text, nat>, searched: seq<nat>)

  /** The table holds the last index of a repeated plain name. */
  predicate IsLastOf(names: seq<Text>, i: nat) {
    i < |names| && forall k :: i < k < |names| ==> names[k] != names[i]
  }

  /** Plain names are looked up by text, the others are searched for one by one. */
  ghost predicate IsPlan(p: Plan) {
    && (forall t :: t in p.identifiers ==>
          && IsPlain(t) && IsLastOf(p.names, p.identifiers[t]) && p.names[p.identifiers[t]] == t)
    && (forall i :: 0 <= i < |p.names| && IsPlain(p.names[i]) ==> p.names[i] in p.identifiers)
    && (forall k :: 0 <= k < |p.searched| ==> p.searched[k] < |p.names| && !IsPlain(p.names[p.searched[k]]))
    && (forall i :: 0 <= i < |p.names| && !IsPlain(p.names[i]) ==> i in p.searched)
  }

  /** `ReferenceCountPlan::new`. */
  method NewPlan(names: seq<Text>) returns (p: Plan)
    ensures p.names == names && IsPlan(p)
  {
    var identifiers: map<Text, nat> := map[];
    var searched: seq<nat> := [];
    var i := 0;
    while i < |names|
      invariant 0 <= i <= |names|
      invariant forall t :: t in identifiers ==>
        && IsPlain(t) && identifiers[t] < i && names[identifiers[t]] == t
        && forall k :: identifiers[t] < k < i ==> names[k] != t
      invariant forall k :: 0 <= k < i && IsPlain(names[k]) ==> names[k] in identifiers
      invariant forall k :: 0 <= k < |searched| ==> searched[k] < i && !IsPlain(names[searched[k]])
      invariant forall k: nat :: k < i && !IsPlain(names[k]) ==> k in searched
    {
      if IsPlain(names[i]) {
        identifiers := identifiers[names[i] := i];
      } else {
        searched := searched + [i];
      }
      i := i + 1;
    }
    p := Plan(names, identifiers, searched);
  }

  /** What a pass counts for a symbol: a plain name by its identifiers, any other by search.
      Of a plain name asked for twice only the last one is counted. */
  predicate Counts(names: seq<Text>, i: nat, line: Text)
    requires i < |names|
  {
    if IsPlain(names[i]) then IsLastOf(names, i) && HasToken(line, 0, names[i])
    else Search(line, names[i], 0).Some?
  }

  function LineCount(names: seq<Text>, i: nat, lines: seq<Text>): nat
    requires i < |names|
  {
    if lines == [] then 0
    else LineCount(names, i, lines[..|lines| - 1]) + if Counts(names, i, lines[|lines| - 1]) then 1 else 0
  }

  /** For distinct non-empty names that cannot overlap after a break, a counted line is exactly
      a line that mentions the symbol as a whole word. */
  lemma CountsIsMention(names: seq<Text>, i: nat, line: Text)
    requires i < |names| && names[i] != [] && IsLastOf(names, i)
    requires forall d :: !OverlapsAfterBreak(names[i], d)
    ensures Counts(names, i, line) <==> Mentions(line, names[i])
  {
    if IsPlain(names[i]) {
      ScanAgreesWithSearch(line, names[i]);
    } else {
      SearchCompleteExactly(names[i]);
    }
  }

  /** Every byte of it is in the alphabet. */
  predicate IsWord(text: Text) {
    text != [] && forall k :: 0 <= k < |text| ==> InAlphabet(text[k])
  }

  lemma WordsArePlain(name: Text)
    requires IsWord(name)
    ensures IsPlain(name) && forall d :: !OverlapsAfterBreak(name, d)
  {
    forall k | 0 <= k < |name|
      ensures IsIdentifierByte(name[k])
    {
      AlphabetIs(name[k]);
    }
  }

  /** Beside another byte a word counts exactly when that byte is not in the alphabet. */
  lemma CountsBesideOtherBytes(names: seq<Text>, i: nat, b: Byte)
    requires i < |names| && IsWord(names[i]) && forall k :: i < k < |names| ==> names[k] != names[i]
    ensures Counts(names, i, names[i] + [b]) <==> !InAlphabet(b)
    ensures Counts(names, i, [b] + names[i]) <==> !InAlphabet(b)
  {
    var name := names[i];
    WordsArePlain(name);
    forall line: Text
      ensures Counts(names, i, line) <==> exists n: nat :: StandsAt(line, name, n)
    {
      CountsIsMention(names, i, line);
      MentionsExactly(line, name);
    }
    StandsBefore(name, b);
    StandsAfter(name, b);
  }

  lemma StandsBefore(name: Text, b: Byte)
    requires IsWord(name)
    ensures (exists n: nat :: StandsAt(name + [b], name, n)) <==> !InAlphabet(b)
  {
    var line := name + [b];
    assert line[0..|name|] == name;
    assert line[0] == name[0] && InAlphabet(name[0]);
    assert !InAlphabet(b) ==> StandsAt(line, name, 0);
  }

  lemma StandsAfter(name: Text, b: Byte)
    requires IsWord(name)
    ensures (exists n: nat :: StandsAt([b] + name, name, n)) <==> !InAlphabet(b)
  {
    var line := [b] + name;
    assert line[1..1 + |name|] == name;
    assert line[|name|] == name[|name| - 1] && InAlphabet(name[|name| - 1]);
    assert !InAlphabet(b) ==> StandsAt(line, name, 1);
  }

  /** A line that is one word counts for the name that equals it and for no other. */
  lemma OneWordCountsOnce(names: seq<Text>, i: nat, line: Text)
    requires i < |names| && IsWord(names[i]) && forall k :: i < k < |names| ==> names[k] != names[i]
    requires IsWord(line)
    ensures Counts(names, i, line) <==> names[i] == line
  {
    var name := names[i];
    WordsArePlain(name);
    CountsIsMention(names, i, line);
    MentionsExactly(line, name);
    assert line[0..|line|] == line;
    assert name == line ==> StandsAt(line, name, 0);
  }

  /** The name contains no shifted copy of itself that starts after a byte outside the alphabet. */
  predicate NeverOverlaps(name: Text) {
    forall d :: 0 < d < |name| && !InAlphabet(name[d - 1]) ==> name[d..] != name[..|name| - d]
  }

  /** Of such a name a line counts exactly when it stands there by itself. */
  lemma CountsStanding(names: seq<Text>, i: nat, line: Text)
    requires i < |names| && names[i] != [] && NeverOverlaps(names[i]) && forall k :: i < k < |names| ==> names[k] != names[i]
    ensures Counts(names, i, line) <==> exists n: nat :: StandsAt(line, names[i], n)
  {
    forall d | 0 < d < |names[i]|
      ensures !OverlapsAfterBreak(names[i], d)
    {
      AlphabetIs(names[i][d - 1]);
    }
    CountsIsMention(names, i, line);
    MentionsExactly(line, names[i]);
  }

  /** The lines that hold the name as a whole word. */
  ghost function MentioningLines(name: Text, lines: seq<Text>): nat {
    if lines == [] then 0
    else MentioningLines(name, lines[..|lines| - 1]) + if Mentions(lines[|lines| - 1], name) then 1 else 0
  }

  /** The names for which every count is exact: asked for once, not blank, and without a shifted
      copy of themselves after a break. */
  ghost predicate CountsExactly(names: seq<Text>, i: nat) {
    i < |names| && names[i] != [] && IsLastOf(names, i) && forall d :: !OverlapsAfterBreak(names[i], d)
  }

  /** Counted lines are mentioning lines. */
  lemma {:induction false} LineCountIsMentions(names: seq<Text>, i: nat, lines: seq<Text>)
    requires CountsExactly(names, i)
    ensures LineCount(names, i, lines) == MentioningLines(names[i], lines)
  {
    if lines != [] {
      LineCountIsMentions(names, i, lines[..|lines| - 1]);
      CountsIsMention(names, i, lines[|lines| - 1]);
    }
  }

  /** One line counted into running totals, and a whole file. */
  function Bumped(names: seq<Text>, totals: seq<nat>, line: Text): (next: seq<nat>)
    requires |totals| == |names|
    ensures |next| == |names|
    ensures forall i :: 0 <= i < |names| ==> next[i] == if Counts(names, i, line) then Saturated(totals[i] + 1) else totals[i]
  {
    seq(|names|, i requires 0 <= i < |names| => if Counts(names, i, line) then Saturated(totals[i] + 1) else totals[i])
  }

  function Totals(names: seq<Text>, start: seq<nat>, lines: seq<Text>): (totals: seq<nat>)
    requires |start| == |names|
    ensures |totals| == |names|
  {
    if lines == [] then start else Bumped(names, Totals(names, start, lines[..|lines| - 1]), lines[|lines| - 1])
  }

  lemma {:induction false} TotalsAreLineCounts(names: seq<Text>, start: seq<nat>, lines: seq<Text>, i: nat)
    requires |start| == |names| && i < |names| && start[i] <= U32_MAX
    ensures Totals(names, start, lines)[i] == Saturated(start[i] + LineCount(names, i, lines))
  {
    if lines != [] {
      TotalsAreLineCounts(names, start, lines[..|lines| - 1], i);
    }
  }

  class Tally {
    var counts: seq<nat>
    var seenOnLine: seq<nat>
    var linesRead: nat

    ghost predicate Valid(symbols: nat)
      reads this
    {
      && |counts| == |seenOnLine| == symbols
      && (forall i :: 0 <= i < symbols ==> counts[i] <= U32_MAX && seenOnLine[i] <= linesRead)
    }

    constructor (symbols: nat)
      ensures Valid(symbols) && linesRead == 0
      ensures forall i :: 0 <= i < symbols ==> counts[i] == 0
    {
      counts := seq(symbols, _ => 0);
      seenOnLine := seq(symbols, _ => 0);
      linesRead := 0;
    }

    /** Counts a symbol for a line unless that line already counted for it. */
    method Record(symbol: nat, line: nat)
      requires symbol < |counts| == |seenOnLine|
      modifies this`counts, this`seenOnLine
      ensures seenOnLine == old(seenOnLine)[symbol := line]
      ensures counts == if old(seenOnLine[symbol]) == line then old(counts)
                        else old(counts)[symbol := Saturated(old(counts[symbol]) + 1)]
    {
      if seenOnLine[symbol] == line {
        return;
      }
      seenOnLine := seenOnLine[symbol := line];
      counts := counts[symbol := Saturated(counts[symbol] + 1)];
    }

    /** Relative to the state before the line: a symbol is marked with the line exactly when
        it has been counted once for it. */
    ghost predicate Marked(counts0: seq<nat>, seen0: seq<nat>, line: nat)
      reads this
    {
      && |counts| == |seenOnLine| == |counts0| == |seen0|
      && forall i :: 0 <= i < |counts| ==>
           && (seenOnLine[i] == line || seenOnLine[i] == seen0[i])
           && counts[i] == (if seenOnLine[i] == line then Saturated(counts0[i] + 1) else counts0[i])
    }

    /** The identifiers of the line, each looked up once. */
    method ScanIdentifiers(line: Text, plan: Plan, lineId: nat)
      requires IsPlan(plan) && |counts| == |seenOnLine| == |plan.names|
      requires forall i :: 0 <= i < |seenOnLine| ==> seenOnLine[i] < lineId
      modifies this`counts, this`seenOnLine
      ensures Marked(old(counts), old(seenOnLine), lineId)
      ensures forall i: nat :: i < |plan.names| ==>
        (seenOnLine[i] == lineId <==> IsPlain(plan.names[i]) && Counts(plan.names, i, line))
    {
      var index := 0;
      while index < |line|
        invariant Marked(old(counts), old(seenOnLine), lineId)
        invariant forall i: nat :: i < |plan.names| ==>
          ((seenOnLine[i] == lineId || (IsPlain(plan.names[i]) && IsLastOf(plan.names, i) && HasToken(line, index, plan.names[i])))
             <==> (IsPlain(plan.names[i]) && Counts(plan.names, i, line)))
        decreases |line| - index
      {
        if !IsIdentifierByte(line[index]) {
          index := index + 1;
          continue;
        }
        var start := index;
        while index < |line| && IsIdentifierByte(line[index])
          invariant start <= index <= |line|
          invariant RunEnd(line, start) == RunEnd(line, index)
        {
          index := index + 1;
        }
        if line[start..index] in plan.identifiers {
          Record(plan.identifiers[line[start..index]], lineId);
        }
      }
    }

    /** The names that must be searched for, one by one. */
    method SearchNames(line: Text, plan: Plan, lineId: nat)
      requires IsPlan(plan) && |counts| == |seenOnLine| == |plan.names|
      modifies this`counts, this`seenOnLine
      ensures |counts| == |seenOnLine| == |plan.names|
      ensures forall i: nat :: i < |plan.names| ==>
        seenOnLine[i] == if !IsPlain(plan.names[i]) && Counts(plan.names, i, line) then lineId else old(seenOnLine[i])
      ensures forall i: nat :: i < |plan.names| ==>
        counts[i] == if seenOnLine[i] == old(seenOnLine[i]) then old(counts[i]) else Saturated(old(counts[i]) + 1)
    {
      var k := 0;
      while k < |plan.searched|
        invariant 0 <= k <= |plan.searched| && |counts| == |seenOnLine| == |plan.names|
        invariant forall i: nat :: i < |plan.names| ==>
          seenOnLine[i] == if i in plan.searched[..k] && Counts(plan.names, i, line) then lineId else old(seenOnLine[i])
        invariant forall i: nat :: i < |plan.names| ==>
          counts[i] == if seenOnLine[i] == old(seenOnLine[i]) then old(counts[i]) else Saturated(old(counts[i]) + 1)
      {
        var symbol := plan.searched[k];
        var column := FindReferenceColumn(line, plan.names[symbol]);
        assert plan.searched[..k + 1] == plan.searched[..k] + [symbol];
        if column.Some? {
          Record(symbol, lineId);
        }
        k := k + 1;
      }
      assert plan.searched[..|plan.searched|] == plan.searched;
    }

    /** One line: identifiers first, then the names that must be searched for. */
    method CountLine(line: Text, plan: Plan, lineId: nat)
      requires IsPlan(plan) && |counts| == |seenOnLine| == |plan.names|
      requires forall i :: 0 <= i < |seenOnLine| ==> seenOnLine[i] < lineId
      modifies this`counts, this`seenOnLine
      ensures Marked(old(counts), old(seenOnLine), lineId)
      ensures forall i: nat :: i < |plan.names| ==> (seenOnLine[i] == lineId <==> Counts(plan.names, i, line))
    {
      if plan.identifiers != map[] {
        ScanIdentifiers(line, plan, lineId);
      } else {
        assert forall i: nat :: i < |plan.names| ==> !IsPlain(plan.names[i]);
      }
      SearchNames(line, plan, lineId);
    }

    /** The loop body of `count_reference_lines`. */
    method CountNextLine(line: Text, plan: Plan)
      requires IsPlan(plan) && Valid(|plan.names|)
      modifies this
      ensures Valid(|plan.names|) && linesRead == old(linesRead) + 1
      ensures counts == Bumped(plan.names, old(counts), line)
    {
      linesRead := linesRead + 1;
      CountLine(line, plan, linesRead);
    }

    /** `count_reference_lines`: every total grows by the number of counted lines, a line with
        repeats counting once, and sticks at the u32 maximum. */
    method CountReferenceLines(content: seq<Text>, plan: Plan)
      requires IsPlan(plan) && Valid(|plan.names|)
      modifies this
      ensures Valid(|plan.names|) && linesRead == old(linesRead) + |content|
      ensures forall i :: 0 <= i < |plan.names| ==>
        var sum := old(counts[i]) + LineCount(plan.names, i, content);
        counts[i] == if sum < 4_294_967_295 then sum else 4_294_967_295
    {
      var n := 0;
      while n < |content|
        invariant 0 <= n <= |content|
        invariant Valid(|plan.names|) && linesRead == old(linesRead) + n
        invariant counts == Totals(plan.names, old(counts), content[..n])
      {
        CountNextLine(content[n], plan);
        assert content[..n + 1][..n] == content[..n];
        n := n + 1;
      }
      assert content[..|content|] == content;
      forall i | 0 <= i < |plan.names|
        ensures counts[i] == Saturated(old(counts[i]) + LineCount(plan.names, i, content))
      {
        TotalsAreLineCounts(plan.names, old(counts), content, i);
      }
    }
  }

  predicate IsBlank(name: Text) {
    name == []
  }

  /** `normalized_reference_count_symbols` on names already trimmed: blanks and repeats are
      dropped, the rest keep their order, and at most 256 are kept. */
  method NormalizedSymbols(trimmed: seq<Text>) returns (names: seq<Text>)
    ensures names == Kept(trimmed, [])
  {
    names := [];
    var k := 0;
    while k < |trimmed|
      invariant 0 <= k <= |trimmed| && |names| < MAX_REFERENCE_COUNT_SYMBOLS
      invariant Kept(trimmed, []) == Kept(trimmed[k..], names)
    {
      assert trimmed[k..][0] == trimmed[k] && trimmed[k..][1..] == trimmed[k + 1..];
      if !IsBlank(trimmed[k]) && trimmed[k] !in names {
        names := names + [trimmed[k]];
        if |names| >= MAX_REFERENCE_COUNT_SYMBOLS {
          return;
        }
      }
      k := k + 1;
    }
  }

  function Kept(trimmed: seq<Text>, kept: seq<Text>): seq<Text> {
    if trimmed == [] || |kept| >= MAX_REFERENCE_COUNT_SYMBOLS then kept
    else if IsBlank(trimmed[0]) || trimmed[0] in kept then Kept(trimmed[1..], kept)
    else Kept(trimmed[1..], kept + [trimmed[0]])
  }

  /** The names a pass is given are distinct and not blank, were all asked for, and miss an
      asked-for name only when the limit is reached. */
  lemma {:induction false} NormalizedShape(trimmed: seq<Text>, kept: seq<Text>)
    requires |kept| <= MAX_REFERENCE_COUNT_SYMBOLS
    requires forall k :: 0 <= k < |kept| ==> kept[k] != [] && forall m :: k < m < |kept| ==> kept[m] != kept[k]
    ensures var names := Kept(trimmed, kept);
      && |names| <= MAX_REFERENCE_COUNT_SYMBOLS
      && (forall i: nat :: i < |names| ==> names[i] != [] && IsLastOf(names, i))
      && (forall n :: n in names ==> n in kept || n in trimmed)
      && (forall n :: n in kept ==> n in names)
      && (|names| < MAX_REFERENCE_COUNT_SYMBOLS ==> forall n :: n in trimmed && n != [] ==> n in names)
    decreases |trimmed|
  {
    if trimmed != [] && |kept| < MAX_REFERENCE_COUNT_SYMBOLS {
      assert forall n :: n in trimmed <==> n == trimmed[0] || n in trimmed[1..];
      if IsBlank(trimmed[0]) || trimmed[0] in kept {
        NormalizedShape(trimmed[1..], kept);
      } else {
        assert trimmed[0] in kept + [trimmed[0]];
        NormalizedShape(trimmed[1..], kept + [trimmed[0]]);
      }
    }
  }

  predicate IsFirstAt(trimmed: seq<Text>, x: Text, p: nat) {
    p < |trimmed| && trimmed[p] == x && x !in trimmed[..p]
  }

  /** The names are in the order in which they are first asked for. */
  ghost predicate InFirstOrder(trimmed: seq<Text>, names: seq<Text>) {
    forall i, j, p: nat, q: nat :: 0 <= i < j < |names| && IsFirstAt(trimmed, names[i], p) && IsFirstAt(trimmed, names[j], q) ==>
      p < q
  }

  /** Nothing is left out that is asked for before one of them. */
  ghost predicate NoneBefore(trimmed: seq<Text>, names: seq<Text>) {
    forall x, p: nat, y, q: nat ::
      x != [] && IsFirstAt(trimmed, x, p) && y in names && IsFirstAt(trimmed, y, q) && p < q ==> x in names
  }

  /** Where the loop stands: all that was asked for so far is kept. */
  ghost predicate KeptSoFar(trimmed: seq<Text>, k: nat, kept: seq<Text>) {
    && k <= |trimmed| && InFirstOrder(trimmed, kept)
    && (forall x :: x in trimmed[..k] && x != [] ==> x in kept)
    && (forall x :: x in kept ==> x in trimmed[..k])
  }

  lemma KeptIsBefore(trimmed: seq<Text>, k: nat, kept: seq<Text>)
    requires KeptSoFar(trimmed, k, kept)
    ensures NoneBefore(trimmed, kept)
  {
    forall x, p: nat, y, q: nat | x != [] && IsFirstAt(trimmed, x, p) && y in kept && IsFirstAt(trimmed, y, q) && p < q
      ensures x in kept
    {
      FirstIsWithin(trimmed, k, y, q);
      assert trimmed[..k][p] == x;
    }
  }

  lemma KeepNext(trimmed: seq<Text>, k: nat, kept: seq<Text>)
    requires k < |trimmed| && KeptSoFar(trimmed, k, kept)
    ensures var x := trimmed[k];
      KeptSoFar(trimmed, k + 1, if IsBlank(x) || x in kept then kept else kept + [x])
  {
    var x := trimmed[k];
    assert trimmed[..k + 1] == trimmed[..k] + [x];
    if !IsBlank(x) && x !in kept {
      var names := kept + [x];
      assert x !in trimmed[..k];
      forall i, j, p: nat, q: nat | 0 <= i < j < |names| && IsFirstAt(trimmed, names[i], p) && IsFirstAt(trimmed, names[j], q)
        ensures p < q
      {
        if j == |kept| {
          assert kept[i] in trimmed[..k];
          FirstIsWithin(trimmed, k, kept[i], p);
          PrefixHolds(trimmed, k);
        }
      }
    }
  }

  lemma FirstIsWithin(trimmed: seq<Text>, k: nat, x: Text, p: nat)
    requires k <= |trimmed| && x in trimmed[..k] && IsFirstAt(trimmed, x, p)
    ensures p < k
  {
    var n :| 0 <= n < k && trimmed[..k][n] == x;
    PrefixHolds(trimmed, p);
  }

  lemma PrefixHolds(trimmed: seq<Text>, m: nat)
    requires m <= |trimmed|
    ensures forall n :: 0 <= n < m ==> trimmed[n] in trimmed[..m]
  {
    assert forall n :: 0 <= n < m ==> trimmed[..m][n] == trimmed[n];
  }

  /** A request keeps the order of its names, and where it stops at the limit it drops the later ones. */
  lemma {:induction false} KeptInOrder(trimmed: seq<Text>, k: nat, kept: seq<Text>)
    requires KeptSoFar(trimmed, k, kept)
    ensures InFirstOrder(trimmed, Kept(trimmed[k..], kept)) && NoneBefore(trimmed, Kept(trimmed[k..], kept))
    decreases |trimmed| - k
  {
    KeptIsBefore(trimmed, k, kept);
    if k < |trimmed| && |kept| < MAX_REFERENCE_COUNT_SYMBOLS {
      var x := trimmed[k];
      assert trimmed[k..][0] == x && trimmed[k..][1..] == trimmed[k + 1..];
      KeepNext(trimmed, k, kept);
      KeptInOrder(trimmed, k + 1, if IsBlank(x) || x in kept then kept else kept + [x]);
    }
  }

  /** For a whole request. */
  lemma NormalizedInOrder(trimmed: seq<Text>)
    ensures InFirstOrder(trimmed, Kept(trimmed, [])) && NoneBefore(trimmed, Kept(trimmed, [])) && |Kept(trimmed, [])| <= 256
  {
    assert trimmed[0..] == trimmed;
    KeptInOrder(trimmed, 0, []);
    NormalizedShape(trimmed, []);
  }
}
