/**
 Whole-word matching in one line: the direct search, and the one-pass identifier scan that
 stands in for it. Lines and names are bytes; only ASCII letters, digits and `_` are
 identifier bytes, so a multi-byte character never is.
 */
module WordSearch {
  import opened Basics

  type Byte = b: int | 0 <= b < 256

  type Text = seq<Byte>

  const UNDERSCORE: Byte := 95

  predicate IsIdentifierByte(b: Byte) {
    b == UNDERSCORE || 48 <= b <= 57 || 65 <= b <= 90 || 97 <= b <= 122
  }

  /** Ordinary symbol names: every byte is an identifier byte. */
  predicate IsPlain(name: Text) {
    forall k :: 0 <= k < |name| ==> IsIdentifierByte(name[k])
  }

  /** `is_source_token_boundary`. */
  predicate IsTokenBoundary(line: Text, start: nat, end: nat)
    requires start <= end <= |line|
  {
    && (start == 0 || !IsIdentifierByte(line[start - 1]))
    && (end == |line| || !IsIdentifierByte(line[end]))
  }

  predicate OccursAt(line: Text, name: Text, i: nat) {
    i + |name| <= |line| && line[i..i + |name|] == name
  }

  predicate WholeWordAt(line: Text, name: Text, i: nat) {
    OccursAt(line, name, i) && IsTokenBoundary(line, i, i + |name|)
  }

  ghost predicate Mentions(line: Text, name: Text) {
    exists i: nat :: WholeWordAt(line, name, i)
  }

  // ---------------------------------------------------------------- the direct search

  /** `line[from..].find(name)`: the first occurrence at or after `from`. */
  function NextMatch(line: Text, name: Text, from: nat): (m: Option<nat>)
    ensures m.Some? ==> from <= m.value && OccursAt(line, name, m.value)
    ensures m.Some? ==> forall i :: from <= i < m.value ==> !OccursAt(line, name, i)
    ensures m.None? ==> forall i :: from <= i ==> !OccursAt(line, name, i)
    decreases |line| - from
  {
    if from + |name| > |line| then None
    else if OccursAt(line, name, from) then Some(from)
    else if from == |line| then None
    else NextMatch(line, name, from + 1)
  }

  /** Each failed match is skipped whole. What the search returns is a whole-word occurrence. */
  function Search(line: Text, name: Text, from: nat): (found: Option<nat>)
    requires name != []
    ensures found.Some? ==> from <= found.value && WholeWordAt(line, name, found.value)
    decreases |line| - from
  {
    if from >= |line| then None
    else
      match NextMatch(line, name, from)
      case None => None
      case Some(i) =>
        if IsTokenBoundary(line, i, i + |name|) then Some(i) else Search(line, name, i + |name|)
  }

  /** `find_case_sensitive_source_reference_column`. */
  method FindReferenceColumn(line: Text, name: Text) returns (column: Option<nat>)
    requires name != []
    ensures column == Search(line, name, 0)
  {
    var searchStart := 0;
    while searchStart < |line|
      invariant Search(line, name, 0) == Search(line, name, searchStart)
      decreases |line| - searchStart
    {
      var found := NextMatch(line, name, searchStart);
      if found.None? {
        return None;
      }
      var index := found.value;
      var endIndex := index + |name|;
      if IsTokenBoundary(line, index, endIndex) {
        return Some(index);
      }
      searchStart := endIndex;
    }
    column := None;
  }

  /** A shifted copy of the name may begin inside the name, right after a byte that is not an
      identifier byte. Then skipping a failed match can skip a whole word. */
  predicate OverlapsAfterBreak(name: Text, d: nat) {
    0 < d < |name| && name[d..] == name[..|name| - d] && !IsIdentifierByte(name[d - 1])
  }

  lemma OverlapShift(line: Text, name: Text, i: nat, j: nat)
    requires OccursAt(line, name, i) && WholeWordAt(line, name, j) && i < j < i + |name|
    ensures OverlapsAfterBreak(name, j - i)
  {
    var d := j - i;
    assert name[d..] == line[i..i + |name|][d..] == line[j..i + |name|];
    assert name[..|name| - d] == line[j..j + |name|][..|name| - d] == line[j..i + |name|];
    assert name[d - 1] == line[i..i + |name|][d - 1] == line[j - 1];
  }

  /** Without such an overlap the search returns the leftmost whole word. */
  lemma {:induction false} SearchFindsLeftmost(line: Text, name: Text, from: nat, j: nat)
    requires name != [] && forall d :: !OverlapsAfterBreak(name, d)
    requires from <= j && WholeWordAt(line, name, j)
    ensures Search(line, name, from).Some? && Search(line, name, from).value <= j
    decreases |line| - from
  {
    var i := NextMatch(line, name, from).value;
    if !IsTokenBoundary(line, i, i + |name|) {
      if j < i + |name| {
        OverlapShift(line, name, i, j);
      } else {
        SearchFindsLeftmost(line, name, i + |name|, j);
      }
    }
  }

  /** An identifier byte that does not start the name. */
  function OtherByte(name: Text): (b: Byte)
    requires name != []
    ensures IsIdentifierByte(b) && b != name[0]
  {
    if name[0] == 120 then 121 else 120
  }

  /** With such an overlap this line mentions the name and the search misses it. */
  function MissedLine(name: Text, d: nat): Text
    requires OverlapsAfterBreak(name, d)
  {
    [OtherByte(name)] + name[..d] + name
  }

  lemma MissedLineMentions(name: Text, d: nat)
    requires OverlapsAfterBreak(name, d)
    ensures WholeWordAt(MissedLine(name, d), name, d + 1)
  {
    var line := MissedLine(name, d);
    assert line[d + 1..d + 1 + |name|] == name;
    assert line[d] == name[d - 1];
  }

  lemma MissedLineSearch(name: Text, d: nat)
    requires OverlapsAfterBreak(name, d)
    ensures Search(MissedLine(name, d), name, 0) == None
  {
    var line := MissedLine(name, d);
    assert line[1..] == name[..d] + name;
    assert line[1..1 + |name|] == name[..d] + name[..|name| - d] == name[..d] + name[d..] == name;
    assert OccursAt(line, name, 1);
    assert !OccursAt(line, name, 0) by {
      assert line[0..|name|][0] == line[0] == OtherByte(name);
    }
    assert NextMatch(line, name, 0) == Some(1);
    assert !IsTokenBoundary(line, 1, 1 + |name|);
    assert NextMatch(line, name, 1 + |name|) == None;
  }

  /** The search finds a mention in every line that has one exactly when no shifted copy of the
      name begins after a break inside it. Plain identifiers and names that cannot overlap
      themselves qualify; `a.a` does not. */
  lemma SearchCompleteExactly(name: Text)
    requires name != []
    ensures (forall line: Text :: Mentions(line, name) ==> Search(line, name, 0).Some?)
      <==> (forall d :: !OverlapsAfterBreak(name, d))
  {
    if forall d :: !OverlapsAfterBreak(name, d) {
      forall line: Text | Mentions(line, name)
        ensures Search(line, name, 0).Some?
      {
        var j: nat :| WholeWordAt(line, name, j);
        SearchFindsLeftmost(line, name, 0, j);
      }
    } else {
      var d :| OverlapsAfterBreak(name, d);
      MissedLineMentions(name, d);
      MissedLineSearch(name, d);
      assert Mentions(MissedLine(name, d), name);
    }
  }

  /** `a.a` in `xa.a.a`: a mention the search does not see. */
  lemma OverlappingNameMissed()
    ensures var name: Text := [97, 46, 97];
      var line: Text := [120, 97, 46, 97, 46, 97];
      Mentions(line, name) && Search(line, name, 0) == None
  {
    var name: Text := [97, 46, 97];
    assert OverlapsAfterBreak(name, 2);
    MissedLineMentions(name, 2);
    MissedLineSearch(name, 2);
    assert MissedLine(name, 2) == [120, 97, 46, 97, 46, 97];
  }

  // ---------------------------------------------------------------- the one-pass scan

  function RunEnd(line: Text, from: nat): (end: nat)
    requires from <= |line|
    ensures from <= end <= |line|
    ensures forall k :: from <= k < end ==> IsIdentifierByte(line[k])
    ensures end == |line| || !IsIdentifierByte(line[end])
    decreases |line| - from
  {
    if from == |line| || !IsIdentifierByte(line[from]) then from else RunEnd(line, from + 1)
  }

  /** Whether one of the identifiers pulled out of the line from `from` on is the name. */
  predicate HasToken(line: Text, from: nat, name: Text)
    decreases |line| - from
  {
    if from >= |line| then false
    else if !IsIdentifierByte(line[from]) then HasToken(line, from + 1, name)
    else
      var end := RunEnd(line, from);
      line[from..end] == name || HasToken(line, end, name)
  }

  /** A place where no identifier is cut in two. */
  predicate BetweenTokens(line: Text, at: nat) {
    at >= |line| || at == 0 || !IsIdentifierByte(line[at - 1]) || !IsIdentifierByte(line[at])
  }

  lemma OccursBytes(line: Text, name: Text, i: nat)
    ensures OccursAt(line, name, i) ==> forall k :: i <= k < i + |name| ==> line[k] == name[k - i]
  {
    if OccursAt(line, name, i) {
      assert forall k :: i <= k < i + |name| ==> line[k] == line[i..i + |name|][k - i];
    }
  }

  lemma WordIsRun(line: Text, name: Text, i: nat)
    requires name != [] && IsPlain(name) && WholeWordAt(line, name, i)
    ensures RunEnd(line, i) == i + |name|
  {
    OccursBytes(line, name, i);
    assert forall k :: i <= k < i + |name| ==> line[k] == name[k - i] && IsIdentifierByte(name[k - i]);
  }

  /** For a plain name the scan sees it from `from` on exactly when it is a whole word there. */
  lemma {:induction false} ScanIsMention(line: Text, from: nat, name: Text)
    requires name != [] && IsPlain(name) && BetweenTokens(line, from)
    ensures HasToken(line, from, name) <==> exists i: nat :: from <= i && WholeWordAt(line, name, i)
    decreases |line| - from
  {
    if from < |line| {
      if !IsIdentifierByte(line[from]) {
        ScanIsMention(line, from + 1, name);
        OccursBytes(line, name, from);
      } else {
        var end := RunEnd(line, from);
        ScanIsMention(line, end, name);
        if line[from..end] == name {
          assert WholeWordAt(line, name, from);
        }
        if i: nat :| from <= i && WholeWordAt(line, name, i) {
          WordIsRun(line, name, i);
          assert i == from || end <= i;
        }
      }
    } else {
      assert forall i: nat :: from <= i ==> !OccursAt(line, name, i);
    }
  }

  /** For a plain identifier the one-pass scan and the direct search agree on every line, and
      both say whether the line mentions it as a whole word. */
  lemma ScanAgreesWithSearch(line: Text, name: Text)
    requires name != [] && IsPlain(name)
    ensures HasToken(line, 0, name) <==> Search(line, name, 0).Some?
    ensures HasToken(line, 0, name) <==> Mentions(line, name)
  {
    ScanIsMention(line, 0, name);
    assert forall d :: !OverlapsAfterBreak(name, d);
    SearchCompleteExactly(name);
  }

  // ---------------------------------------------------------------- words, letter by letter

  /** ASCII letters, digits and the underscore. */
  predicate InAlphabet(b: Byte) {
    b as char in {'A', 'B', 'C', 'D', 'E', 'F', 'G', 'H', 'I', 'J', 'K', 'L', 'M',
                  'N', 'O', 'P', 'Q', 'R', 'S', 'T', 'U', 'V', 'W', 'X', 'Y', 'Z',
                  'a', 'b', 'c', 'd', 'e', 'f', 'g', 'h', 'i', 'j', 'k', 'l', 'm',
                  'n', 'o', 'p', 'q', 'r', 's', 't', 'u', 'v', 'w', 'x', 'y', 'z',
                  '0', '1', '2', '3', '4', '5', '6', '7', '8', '9', '_'}
  }

  lemma AlphabetIs(b: Byte)
    ensures InAlphabet(b) <==> IsIdentifierByte(b)
  {
  }

  /** The name stands in the line with no letter of the alphabet before or after it. */
  predicate StandsAt(line: Text, name: Text, i: nat) {
    && i + |name| <= |line| && line[i..i + |name|] == name
    && (i == 0 || !InAlphabet(line[i - 1]))
    && (i + |name| == |line| || !InAlphabet(line[i + |name|]))
  }

  lemma MentionsExactly(line: Text, name: Text)
    ensures Mentions(line, name) <==> exists i: nat :: StandsAt(line, name, i)
  {
    forall i: nat
      ensures WholeWordAt(line, name, i) <==> StandsAt(line, name, i)
    {
      if i + |name| <= |line| {
        if i > 0 {
          AlphabetIs(line[i - 1]);
        }
        if i + |name| < |line| {
          AlphabetIs(line[i + |name|]);
        }
      }
    }
  }
}
