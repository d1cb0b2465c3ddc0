/**
 * One rule applied to one line: the whole-word pattern
 * `(?<![a-zA-Z0-9_<])SRC(?![a-zA-Z0-9_>])` with SRC taken literally, the
 * matches `finditer` reports, the text `subn` produces, and the splice and
 * offset arithmetic that rebuilds a line from replacements sorted by start.
 */
module Substitution {
  import opened Text
  import opened Rules

  /** One replacement as the source records it: ten characters of context
      before, the matched text, ten characters after, the replacement text,
      and the span. */
  datatype Replacement = Replacement(pre: string, original: string, post: string, dest: string, start: nat, end: nat)

  /** Characters the lookbehind forbids just before a match. */
  predicate BlocksBefore(c: char) {
    IsWordChar(c) || c == '<'
  }

  /** Characters the lookahead forbids just after a match. */
  predicate BlocksAfter(c: char) {
    IsWordChar(c) || c == '>'
  }

  /** The pattern matches at position i of the line. */
  predicate MatchesAt(line: string, src: string, i: int) {
    && OccursAt(line, src, i)
    && (i == 0 || !BlocksBefore(line[i - 1]))
    && (i + |src| == |line| || !BlocksAfter(line[i + |src|]))
  }

  /** re.finditer from position i: a match resumes the scan at its end, a
      failed attempt at the next position. The first match lies in the line
      at or after i, and there are fewer matches than characters left, since
      each consumes at least one. */
  function MatchesFrom(line: string, src: string, i: nat): (r: seq<nat>)
    requires src != []
    ensures r != [] ==> i <= r[0] && r[0] + |src| <= |line|
    ensures i <= |line| ==> |r| <= |line| - i
    decreases |line| - i
  {
    if i + |src| > |line| then []
    else if MatchesAt(line, src, i) then [i] + MatchesFrom(line, src, i + |src|)
    else MatchesFrom(line, src, i + 1)
  }

  function Matches(line: string, src: string): seq<nat>
    requires src != []
  {
    MatchesFrom(line, src, 0)
  }

  /** Every reported position is a match at or after i, and reported matches
      are in order and do not overlap. */
  lemma {:induction false} MatchesFromSound(line: string, src: string, i: nat)
    requires src != []
    ensures Reported(line, src, i, MatchesFrom(line, src, i))
  {
    ReportedFrom(line, src, i, MatchesFrom(line, src, i));
  }

  /** MatchesFromSound with the reported positions named. */
  lemma {:induction false} ReportedFrom(line: string, src: string, i: nat, ms: seq<nat>)
    requires src != [] && ms == MatchesFrom(line, src, i)
    ensures Reported(line, src, i, ms)
    decreases |line| - i
  {
    if i + |src| <= |line| {
      var hit := ScanFrom(line, src, i);
      if hit {
        var rest := MatchesFrom(line, src, i + |src|);
        ReportedFrom(line, src, i + |src|, rest);
        ReportedCons(line, src, i, rest);
      } else {
        ReportedFrom(line, src, i + 1, MatchesFrom(line, src, i + 1));
      }
    }
  }

  /** One step of the scan at i while the source still fits: at a match it
      reports i and resumes after the match, otherwise it moves on by one. */
  lemma {:induction false} ScanFrom(line: string, src: string, i: nat) returns (hit: bool)
    requires src != [] && i + |src| <= |line|
    ensures hit ==> MatchesAt(line, src, i)
    ensures hit ==> MatchesFrom(line, src, i) == [i] + MatchesFrom(line, src, i + |src|)
    ensures !hit ==> MatchesFrom(line, src, i) == MatchesFrom(line, src, i + 1)
  {
    hit := MatchesAt(line, src, i);
  }

  /** A match at i in front of matches reported from its end. */
  lemma {:induction false} ReportedCons(line: string, src: string, i: nat, rest: seq<nat>)
    requires MatchesAt(line, src, i) && Reported(line, src, i + |src|, rest)
    ensures Reported(line, src, i, [i] + rest)
  {
    var ms := [i] + rest;
    forall k | 0 <= k < |ms|
      ensures i <= ms[k] && MatchesAt(line, src, ms[k])
    {
      if k > 0 {
        assert ms[k] == rest[k - 1];
      }
    }
    forall a, b | 0 <= a < b < |ms|
      ensures ms[a] + |src| <= ms[b]
    {
      assert ms[b] == rest[b - 1];
      if a > 0 {
        assert ms[a] == rest[a - 1];
      }
    }
  }

  /** Positions at or after i where the pattern matches, in order and at
      least the source length apart. */
  predicate Reported(line: string, src: string, i: nat, ms: seq<nat>) {
    && (forall k :: 0 <= k < |ms| ==> i <= ms[k] && MatchesAt(line, src, ms[k]))
    && (forall a, b :: 0 <= a < b < |ms| ==> ms[a] + |src| <= ms[b])
  }

  /** Position j is one of the reported positions or lies inside the span of
      length n of one of them. */
  predicate Covered(ms: seq<nat>, n: nat, j: nat) {
    j in ms || exists k :: 0 <= k < |ms| && ms[k] < j < ms[k] + n
  }

  /** Every match at or after i is reported or lies inside a reported one. */
  lemma {:induction false} MatchesFromComplete(line: string, src: string, i: nat, j: nat)
    requires src != [] && i <= j && MatchesAt(line, src, j)
    ensures Covered(MatchesFrom(line, src, i), |src|, j)
    decreases |line| - i, 1
  {
    if i == j {
      MatchReported(line, src, i);
      CoveredHead(|src|, i, MatchesFrom(line, src, i + |src|), j);
    } else {
      CompleteBefore(line, src, i, j);
    }
  }

  /** The scan from a position before the match j covers j. */
  lemma {:induction false} CompleteBefore(line: string, src: string, i: nat, j: nat)
    requires src != [] && i < j && MatchesAt(line, src, j)
    ensures Covered(MatchesFrom(line, src, i), |src|, j)
    decreases |line| - i, 0
  {
    var hit := ScanFrom(line, src, i);
    var rest := MatchesFrom(line, src, i + |src|);
    if !hit {
      MatchesFromComplete(line, src, i + 1, j);
    } else if j < i + |src| {
      CoveredHead(|src|, i, rest, j);
    } else {
      MatchesFromComplete(line, src, i + |src|, j);
      CoveredCons(|src|, i, rest, j);
    }
  }

  /** A match at i is reported, and the scan resumes at its end. */
  lemma {:induction false} MatchReported(line: string, src: string, i: nat)
    requires src != [] && MatchesAt(line, src, i)
    ensures i + |src| <= |line|
    ensures MatchesFrom(line, src, i) == [i] + MatchesFrom(line, src, i + |src|)
  {
  }

  /** A position inside the first span is covered. */
  lemma {:induction false} CoveredHead(n: nat, i: nat, rest: seq<nat>, j: nat)
    requires i <= j < i + n
    ensures Covered([i] + rest, n, j)
  {
    if j == i {
      assert ([i] + rest)[0] == j;
    } else {
      assert ([i] + rest)[0] < j < ([i] + rest)[0] + n;
    }
  }

  /** A position covered by the later positions stays covered. */
  lemma {:induction false} CoveredCons(n: nat, i: nat, rest: seq<nat>, j: nat)
    requires Covered(rest, n, j)
    ensures Covered([i] + rest, n, j)
  {
    var ms := [i] + rest;
    if j in rest {
      var k :| 0 <= k < |rest| && rest[k] == j;
      assert ms[k + 1] == j;
    } else {
      var k :| 0 <= k < |rest| && rest[k] < j < rest[k] + n;
      assert ms[k + 1] == rest[k];
    }
  }

  /** The replacement the source records for a match of the rule at start. */
  function MakeReplacement(line: string, start: nat, rule: Rule): (r: Replacement)
    requires start + |rule.src| <= |line|
    ensures r.start == start && r.end == start + |rule.src| && r.dest == rule.dest
    ensures r.original == line[r.start..r.end]
  {
    var end := start + |rule.src|;
    var from := if start >= 10 then start - 10 else 0;
    var until := if end + 10 <= |line| then end + 10 else |line|;
    Replacement(line[from..start], line[start..end], line[end..until], rule.dest, start, end)
  }

  /** Every position leaves room for `len` characters before the line's end. */
  predicate FitLine(line: string, len: nat, ms: seq<nat>)
    decreases |ms|
  {
    ms == [] || (ms[0] + len <= |line| && FitLine(line, len, ms[1..]))
  }

  /** The replacements for the given match positions. */
  function SpansOf(line: string, ms: seq<nat>, rule: Rule): (r: seq<Replacement>)
    requires FitLine(line, |rule.src|, ms)
    ensures |r| == |ms|
  {
    if ms == [] then [] else [MakeReplacement(line, ms[0], rule)] + SpansOf(line, ms[1..], rule)
  }

  /** The spans lie inside the line from position `from` on, in order and
      without overlap. */
  predicate Laid(line: string, reps: seq<Replacement>, from: nat)
    decreases |reps|
  {
    if reps == [] then from <= |line|
    else from <= reps[0].start <= reps[0].end <= |line| && Laid(line, reps[1..], reps[0].end)
  }

  /** Each replacement records the text its span covers. */
  predicate Recorded(line: string, reps: seq<Replacement>) {
    forall k :: 0 <= k < |reps| ==> reps[k].start <= reps[k].end <= |line| && reps[k].original == line[reps[k].start..reps[k].end]
  }

  /** The line from position `from` with every span replaced by its
      replacement text, read front to back. */
  function Rebuilt(line: string, reps: seq<Replacement>, from: nat): string
    requires Laid(line, reps, from) && from <= |line|
    decreases |reps|
  {
    if reps == [] then line[from..]
    else line[from..reps[0].start] + reps[0].dest + Rebuilt(line, reps[1..], reps[0].end)
  }

  /** A single span: the text before it, its replacement, the text after it. */
  lemma {:induction false} RebuiltSingle(line: string, r: Replacement)
    requires r.start <= r.end <= |line|
    ensures Laid(line, [r], 0)
    ensures Rebuilt(line, [r], 0) == line[..r.start] + r.dest + line[r.end..]
  {
    assert [r][1..] == [];
  }

  /** Text before the first span can be taken out of the rebuilt part. */
  lemma {:induction false} RebuiltFrom(line: string, reps: seq<Replacement>, from: nat, mid: nat)
    requires Laid(line, reps, from) && from <= mid <= |line|
    requires mid <= (if reps == [] then |line| else reps[0].start)
    ensures Laid(line, reps, mid)
    ensures Rebuilt(line, reps, from) == line[from..mid] + Rebuilt(line, reps, mid)
  {
    if reps != [] {
      var st := reps[0].start;
      RebuiltStep(line, reps, from);
      RebuiltStep(line, reps, mid);
      SliceSplit(line, from, mid, st);
      Assoc4(line[from..mid], line[mid..st], reps[0].dest, Rebuilt(line, reps[1..], reps[0].end));
    } else {
      DropSplit(line, from, mid);
    }
  }

  /** `subn` on the line from position i, with the replacement text taken
      literally; the lookbehind sees the original line. A rule that maps a
      source to itself leaves the line as it is. */
  function Replaced(line: string, src: string, dest: string, i: nat): (r: string)
    requires src != [] && i <= |line|
    ensures src == dest ==> r == line[i..]
    decreases |line| - i
  {
    if i + |src| > |line| then line[i..]
    else if MatchesAt(line, src, i) then
      assert line[i..] == line[i..i + |src|] + line[i + |src|..];
      dest + Replaced(line, src, dest, i + |src|)
    else [line[i]] + Replaced(line, src, dest, i + 1)
  }

  /** pattern.subn(dest, line): the new line and the number of replacements. */
  function Subn(line: string, rule: Rule): (string, nat)
    requires rule.src != []
  {
    (Replaced(line, rule.src, rule.dest, 0), |Matches(line, rule.src)|)
  }

  /** Moving the starting point back keeps the spans laid. */
  lemma {:induction false} LaidFromEarlier(line: string, reps: seq<Replacement>, from: nat, later: nat)
    requires from <= later && Laid(line, reps, later)
    ensures Laid(line, reps, from)
  {
  }

  lemma {:induction false} MatchSpansLaid(line: string, rule: Rule, i: nat)
    requires rule.src != [] && i <= |line|
    ensures FitLine(line, |rule.src|, MatchesFrom(line, rule.src, i))
    ensures Laid(line, SpansOf(line, MatchesFrom(line, rule.src, i), rule), i)
    decreases |line| - i
  {
    if i + |rule.src| <= |line| {
      var hit := ScanStep(line, rule, i);
      if hit {
        MatchSpansLaid(line, rule, i + |rule.src|);
        var rest := MatchesFrom(line, rule.src, i + |rule.src|);
        ConsRebuilt(line, rule, i, rest, SpansOf(line, rest, rule));
      } else {
        MatchSpansLaid(line, rule, i + 1);
        var ms := MatchesFrom(line, rule.src, i + 1);
        LaidFromEarlier(line, SpansOf(line, ms, rule), i, i + 1);
      }
    }
  }

  /** The spans of matches record the text they cover. */
  lemma {:induction false} SpansRecorded(line: string, ms: seq<nat>, rule: Rule)
    requires FitLine(line, |rule.src|, ms)
    ensures Recorded(line, SpansOf(line, ms, rule))
    decreases |ms|
  {
    if ms != [] {
      SpansRecorded(line, ms[1..], rule);
      var spans := SpansOf(line, ms, rule);
      assert spans == [MakeReplacement(line, ms[0], rule)] + SpansOf(line, ms[1..], rule);
      forall k | 0 <= k < |spans|
        ensures spans[k].start <= spans[k].end <= |line| && spans[k].original == line[spans[k].start..spans[k].end]
      {
        if k > 0 {
          assert spans[k] == SpansOf(line, ms[1..], rule)[k - 1];
        }
      }
    }
  }

  /** Replacing every reported match is rebuilding the line from the spans of
      those matches: `subn` and the splice agree. */
  lemma {:induction false} ReplacedIsRebuilt(line: string, rule: Rule, i: nat)
    requires rule.src != [] && i <= |line|
    ensures FitLine(line, |rule.src|, MatchesFrom(line, rule.src, i))
    ensures Laid(line, SpansOf(line, MatchesFrom(line, rule.src, i), rule), i)
    ensures Replaced(line, rule.src, rule.dest, i)
            == Rebuilt(line, SpansOf(line, MatchesFrom(line, rule.src, i), rule), i)
    decreases |line| - i
  {
    var src := rule.src;
    if i + |src| > |line| {
      BeyondLastMatch(line, rule, i);
    } else {
      var hit := ScanStep(line, rule, i);
      if hit {
        ReplacedIsRebuilt(line, rule, i + |src|);
        var rest := MatchesFrom(line, src, i + |src|);
        MatchStep(line, rule, i, MatchesFrom(line, src, i), rest, SpansOf(line, rest, rule),
                  Replaced(line, src, rule.dest, i), Replaced(line, src, rule.dest, i + |src|));
      } else {
        ReplacedIsRebuilt(line, rule, i + 1);
        var ms := MatchesFrom(line, src, i + 1);
        SkipStep(line, rule, i, ms, SpansOf(line, ms, rule),
                 Replaced(line, src, rule.dest, i), Replaced(line, src, rule.dest, i + 1));
      }
    }
  }

  /** One step of the scan and of `subn` at i while the source still fits:
      at a match the scan reports i and resumes after it while `subn` emits
      the replacement; otherwise both move on by one character, `subn`
      keeping the character at i. */
  lemma {:induction false} ScanStep(line: string, rule: Rule, i: nat) returns (hit: bool)
    requires rule.src != [] && i + |rule.src| <= |line|
    ensures hit ==> MatchesFrom(line, rule.src, i) == [i] + MatchesFrom(line, rule.src, i + |rule.src|)
    ensures hit ==> Replaced(line, rule.src, rule.dest, i) == rule.dest + Replaced(line, rule.src, rule.dest, i + |rule.src|)
    ensures !hit ==> MatchesFrom(line, rule.src, i) == MatchesFrom(line, rule.src, i + 1)
    ensures !hit ==> Replaced(line, rule.src, rule.dest, i) == [line[i]] + Replaced(line, rule.src, rule.dest, i + 1)
  {
    hit := MatchesAt(line, rule.src, i);
  }

  lemma {:induction false} BeyondLastMatch(line: string, rule: Rule, i: nat)
    requires rule.src != [] && i <= |line| < i + |rule.src|
    ensures MatchesFrom(line, rule.src, i) == []
    ensures FitLine(line, |rule.src|, MatchesFrom(line, rule.src, i))
    ensures Laid(line, SpansOf(line, MatchesFrom(line, rule.src, i), rule), i)
    ensures Replaced(line, rule.src, rule.dest, i) == Rebuilt(line, [], i)
  {
  }

  /** A non-empty rebuild: the text before the first span, its replacement,
      then the rest. */
  lemma {:induction false} RebuiltStep(line: string, reps: seq<Replacement>, from: nat)
    requires reps != [] && Laid(line, reps, from)
    ensures Laid(line, reps[1..], reps[0].end)
    ensures Rebuilt(line, reps, from) == line[from..reps[0].start] + reps[0].dest + Rebuilt(line, reps[1..], reps[0].end)
  {
  }

  /** A rebuild whose first span starts where it does: that span's
      replacement, then the rest. */
  lemma {:induction false} RebuiltAtFirst(line: string, reps: seq<Replacement>, from: nat)
    requires reps != [] && Laid(line, reps, from) && reps[0].start == from
    ensures Laid(line, reps[1..], reps[0].end)
    ensures Rebuilt(line, reps, from) == reps[0].dest + Rebuilt(line, reps[1..], reps[0].end)
  {
    assert line[from..from] == [];
  }

  /** A match at i: the positions are i followed by those after the match,
      and the text is the replacement followed by the text after it. */
  lemma {:induction false} MatchStep(line: string, rule: Rule, i: nat, ms: seq<nat>, rest: seq<nat>, tail: seq<Replacement>, out: string, outRest: string)
    requires i + |rule.src| <= |line| && ms == [i] + rest && out == rule.dest + outRest
    requires FitLine(line, |rule.src|, rest) && tail == SpansOf(line, rest, rule)
    requires Laid(line, tail, i + |rule.src|) && outRest == Rebuilt(line, tail, i + |rule.src|)
    ensures FitLine(line, |rule.src|, ms) && Laid(line, SpansOf(line, ms, rule), i)
    ensures out == Rebuilt(line, SpansOf(line, ms, rule), i)
  {
    ConsRebuilt(line, rule, i, rest, tail);
  }

  /** Rebuilding the spans of a match at i followed by further matches: the
      replacement text, then the rebuild after the match. */
  lemma {:induction false} ConsRebuilt(line: string, rule: Rule, i: nat, rest: seq<nat>, tail: seq<Replacement>)
    requires i + |rule.src| <= |line| && FitLine(line, |rule.src|, rest)
    requires tail == SpansOf(line, rest, rule) && Laid(line, tail, i + |rule.src|)
    ensures FitLine(line, |rule.src|, [i] + rest)
    ensures Laid(line, SpansOf(line, [i] + rest, rule), i)
    ensures Rebuilt(line, SpansOf(line, [i] + rest, rule), i) == rule.dest + Rebuilt(line, tail, i + |rule.src|)
  {
    SpansCons(line, rule, i, rest);
    RebuiltAtHead(line, SpansOf(line, [i] + rest, rule), tail, i, i + |rule.src|, rule.dest);
  }

  /** A rebuild whose first span starts where it does, described by its end,
      its replacement text and the spans after it. */
  lemma {:induction false} RebuiltAtHead(line: string, reps: seq<Replacement>, tail: seq<Replacement>, from: nat, to: nat, dest: string)
    requires reps != [] && Laid(line, reps, from)
    requires reps[0].start == from && reps[0].end == to && reps[0].dest == dest && reps[1..] == tail
    ensures Laid(line, tail, to)
    ensures Rebuilt(line, reps, from) == dest + Rebuilt(line, tail, to)
  {
    RebuiltAtFirst(line, reps, from);
  }

  /** The spans of a match followed by further matches: the first is the
      match's span, the rest are the spans of the later matches. */
  lemma {:induction false} SpansCons(line: string, rule: Rule, i: nat, rest: seq<nat>)
    requires i + |rule.src| <= |line| && FitLine(line, |rule.src|, rest)
    ensures FitLine(line, |rule.src|, [i] + rest)
    ensures SpansOf(line, [i] + rest, rule)[0].start == i
    ensures SpansOf(line, [i] + rest, rule)[0].end == i + |rule.src|
    ensures SpansOf(line, [i] + rest, rule)[0].dest == rule.dest
    ensures SpansOf(line, [i] + rest, rule)[1..] == SpansOf(line, rest, rule)
  {
    assert ([i] + rest)[0] == i && ([i] + rest)[1..] == rest;
  }

  /** No match at i: the positions are those from i + 1, and the text is
      the character at i followed by the text from i + 1. */
  lemma {:induction false} SkipStep(line: string, rule: Rule, i: nat, ms: seq<nat>, spans: seq<Replacement>, out: string, outRest: string)
    requires i < |line| && out == [line[i]] + outRest
    requires FitLine(line, |rule.src|, ms) && spans == SpansOf(line, ms, rule)
    requires Laid(line, spans, i + 1) && outRest == Rebuilt(line, spans, i + 1)
    ensures Laid(line, SpansOf(line, ms, rule), i)
    ensures out == Rebuilt(line, SpansOf(line, ms, rule), i)
  {
    LaidFromEarlier(line, spans, i, i + 1);
    RebuiltFrom(line, spans, i, i + 1);
    assert line[i..i + 1] == [line[i]];
  }

  /** A line the rule does not match comes back unchanged. */
  lemma {:induction false} ReplacedWithoutMatch(line: string, src: string, dest: string, i: nat)
    requires src != [] && i <= |line| && MatchesFrom(line, src, i) == []
    ensures Replaced(line, src, dest, i) == line[i..]
    decreases |line| - i
  {
    if i + |src| <= |line| {
      ReplacedWithoutMatch(line, src, dest, i + 1);
      assert line[i..] == [line[i]] + line[i + 1..];
    }
  }

  /** The change in length the replacements make: the sum of replacement
      length minus matched length. */
  function Offset(reps: seq<Replacement>): int {
    if reps == [] then 0 else |reps[0].dest| - |reps[0].original| + Offset(reps[1..])
  }

  lemma {:induction false} OffsetAppend(reps: seq<Replacement>, r: Replacement)
    ensures Offset(reps + [r]) == Offset(reps) + |r.dest| - |r.original|
    decreases |reps|
  {
    if reps != [] {
      assert (reps + [r])[1..] == reps[1..] + [r];
      OffsetAppend(reps[1..], r);
    }
  }

  /** dest stands at position p of out. */
  predicate Placed(out: string, p: int, dest: string) {
    0 <= p && p + |dest| <= |out| && out[p..p + |dest|] == dest
  }

  /** In the rebuilt line, each replacement text stands at its start shifted
      by the offset of the replacements before it. */
  lemma {:induction false} DestAtShiftedStart(line: string, reps: seq<Replacement>, from: nat, k: nat)
    requires Laid(line, reps, from) && Recorded(line, reps) && from <= |line| && k < |reps|
    ensures Placed(Rebuilt(line, reps, from), reps[k].start - from + Offset(reps[..k]), reps[k].dest)
  {
    assert Sized(reps);
    DestAt(line, reps, from, k, Rebuilt(line, reps, from), Offset(reps[..k]));
  }

  /** Each replacement's original text is as long as its span; what
      Recorded says about lengths. */
  predicate Sized(reps: seq<Replacement>) {
    forall k :: 0 <= k < |reps| ==> |reps[k].original| == reps[k].end - reps[k].start
  }

  /** DestAtShiftedStart with the rebuilt line and the offset named. */
  lemma {:induction false} DestAt(line: string, reps: seq<Replacement>, from: nat, k: nat, out: string, off: int)
    requires Laid(line, reps, from) && Sized(reps) && from <= |line| && k < |reps|
    requires out == Rebuilt(line, reps, from) && off == Offset(reps[..k])
    ensures Placed(out, reps[k].start - from + off, reps[k].dest)
    decreases k
  {
    RebuiltStep(line, reps, from);
    var rest := Rebuilt(line, reps[1..], reps[0].end);
    if k == 0 {
      assert reps[..0] == [];
      PlacedAfter(out, line[from..reps[0].start], reps[0].dest + rest, 0, reps[0].start - from, reps[0].dest);
    } else {
      SizedTail(reps);
      var restOff := Offset(reps[1..][..k - 1]);
      DestAt(line, reps[1..], reps[0].end, k - 1, rest, restOff);
      assert reps[1..][k - 1] == reps[k];
      OffsetOfPrefix(reps, k);
      ShiftPast(out, line[from..reps[0].start] + reps[0].dest, rest, reps[0], reps[k], from, restOff, off);
    }
  }

  /** The spans after the first are sized too, and the first one's
      original text is as long as its span. */
  lemma {:induction false} SizedTail(reps: seq<Replacement>)
    requires Sized(reps) && reps != []
    ensures Sized(reps[1..]) && |reps[0].original| == reps[0].end - reps[0].start
  {
  }

  /** One step of DestAt with every recursive term named: a text at
      its shifted start in the rest stands at its shifted start in the whole. */
  lemma {:induction false} ShiftPast(out: string, head: string, rest: string, r0: Replacement, rk: Replacement,
                                     from: nat, restOffset: int, offset: int)
    requires out == head + rest && |head| == r0.start - from + |r0.dest|
    requires |r0.original| == r0.end - r0.start
    requires offset == |r0.dest| - |r0.original| + restOffset
    requires Placed(rest, rk.start - r0.end + restOffset, rk.dest)
    ensures Placed(out, rk.start - from + offset, rk.dest)
  {
    PlacedAfter(out, head, rest, rk.start - r0.end + restOffset, rk.start - from + offset, rk.dest);
  }

  /** The offset of the first k spans: the first one's, then the rest's. */
  lemma {:induction false} OffsetOfPrefix(reps: seq<Replacement>, k: nat)
    requires 0 < k <= |reps|
    ensures Offset(reps[..k]) == |reps[0].dest| - |reps[0].original| + Offset(reps[1..][..k - 1])
  {
    assert reps[..k][1..] == reps[1..][..k - 1];
  }

  /** A text standing at q in the second part of a concatenation stands at q
      shifted by the first part's length in the whole. */
  lemma {:induction false} PlacedAfter(out: string, head: string, rest: string, q: nat, p: int, dest: string)
    requires out == head + rest && p == |head| + q
    requires Placed(rest, q, dest)
    ensures Placed(out, p, dest)
  {
    SliceOfAppend(head, rest, q, |dest|);
  }

  /** A slice of the second part of a concatenation, shifted by the first. */
  lemma {:induction false} SliceOfAppend(a: string, b: string, q: nat, n: nat)
    requires q + n <= |b|
    ensures (a + b)[|a| + q..|a| + q + n] == b[q..q + n]
  {
  }

  /** The length of the rebuilt line is the original length plus the offset. */
  lemma {:induction false} RebuiltLength(line: string, reps: seq<Replacement>, from: nat)
    requires Laid(line, reps, from) && Recorded(line, reps) && from <= |line|
    ensures |Rebuilt(line, reps, from)| == |line| - from + Offset(reps)
    decreases |reps|
  {
    if reps != [] {
      RebuiltLength(line, reps[1..], reps[0].end);
    }
  }

  /** Where the first span at or after the k-th starts; the line's end when
      there is none. */
  function Cut(line: string, reps: seq<Replacement>, k: nat): nat
    requires k <= |reps|
  {
    if k < |reps| then reps[k].start else |line|
  }

  /** A suffix of laid spans is laid from its own first start, and the span
      before it ends by then. */
  lemma {:induction false} LaidSuffix(line: string, reps: seq<Replacement>, from: nat, k: nat)
    requires Laid(line, reps, from) && k <= |reps|
    ensures Cut(line, reps, k) <= |line| && Laid(line, reps[k..], Cut(line, reps, k))
    ensures k > 0 ==> reps[k - 1].start <= reps[k - 1].end <= Cut(line, reps, k)
    decreases k
  {
    if k > 0 {
      LaidSuffix(line, reps[1..], reps[0].end, k - 1);
      assert reps[1..][k - 1..] == reps[k..];
      if k > 1 {
        assert reps[1..][k - 2] == reps[k - 1];
      } else if reps[1..] != [] {
        assert reps[1..][0] == reps[1];
      }
    } else if reps != [] {
      assert reps[0..] == reps;
    }
  }

  /** Splicing the k-th replacement into a line whose later spans are already
      replaced extends the rebuilt part back to the k-th start. */
  lemma {:induction false} SpliceStep(line: string, reps: seq<Replacement>, k: nat, newLine: string)
    requires Laid(line, reps, 0) && k < |reps|
    requires Cut(line, reps, k + 1) <= |line| && Laid(line, reps[k + 1..], Cut(line, reps, k + 1))
    requires newLine == line[..Cut(line, reps, k + 1)] + Rebuilt(line, reps[k + 1..], Cut(line, reps, k + 1))
    ensures reps[k].start <= reps[k].end <= |newLine|
    ensures Laid(line, reps[k..], Cut(line, reps, k))
    ensures newLine[..reps[k].start] + reps[k].dest + newLine[reps[k].end..]
            == line[..Cut(line, reps, k)] + Rebuilt(line, reps[k..], Cut(line, reps, k))
  {
    LaidSuffix(line, reps, 0, k);
    LaidSuffix(line, reps, 0, k + 1);
    var r := reps[k];
    var c := Cut(line, reps, k + 1);
    var later := Rebuilt(line, reps[k + 1..], c);
    assert reps[k..][1..] == reps[k + 1..];
    RebuiltAtFirst(line, reps[k..], r.start);
    RebuiltFrom(line, reps[k + 1..], r.end, c);
    TakeOfAppend(line[..c], later, r.start);
    DropOfAppend(line[..c], later, r.end);
    assert line[..c][..r.start] == line[..r.start];
    assert line[..c][r.end..] == line[r.end..c];
    assert Rebuilt(line, reps[k..], r.start) == r.dest + (line[r.end..c] + later);
    AppendAssoc(line[..r.start], r.dest, line[r.end..c] + later);
  }

  lemma {:induction false} TakeOfAppend(a: string, b: string, n: nat)
    requires n <= |a|
    ensures (a + b)[..n] == a[..n]
  {
  }

  lemma {:induction false} DropOfAppend(a: string, b: string, n: nat)
    requires n <= |a|
    ensures (a + b)[n..] == a[n..] + b
  {
  }

  lemma {:induction false} AppendAssoc(a: string, b: string, c: string)
    ensures a + b + c == a + (b + c)
  {
  }

  /** The new line of the preview: the replacements applied from the last to
      the first so that earlier positions stay valid. */
  method SpliceLine(line: string, reps: seq<Replacement>) returns (newLine: string)
    requires Laid(line, reps, 0)
    ensures newLine == Rebuilt(line, reps, 0)
  {
    newLine := line;
    var k := |reps|;
    LaidSuffix(line, reps, 0, k);
    assert line[..|line|] == line;
    while k > 0
      invariant 0 <= k <= |reps|
      invariant Cut(line, reps, k) <= |line| && Laid(line, reps[k..], Cut(line, reps, k))
      invariant newLine == line[..Cut(line, reps, k)] + Rebuilt(line, reps[k..], Cut(line, reps, k))
    {
      k := k - 1;
      SpliceStep(line, reps, k, newLine);
      LaidSuffix(line, reps, 0, k);
      var r := reps[k];
      newLine := newLine[..r.start] + r.dest + newLine[r.end..];
    }
    if reps != [] {
      RebuiltFrom(line, reps, 0, reps[0].start);
    }
  }

  /** The positions of the replacement texts in the new line: each start
      shifted by the length changes of the replacements before it. */
  method NewPositions(reps: seq<Replacement>) returns (positions: seq<(int, string)>)
    ensures |positions| == |reps|
    ensures forall k :: 0 <= k < |reps| ==> positions[k] == (reps[k].start + Offset(reps[..k]), reps[k].dest)
  {
    positions := [];
    var offset := 0;
    for k := 0 to |reps|
      invariant |positions| == k
      invariant offset == Offset(reps[..k])
      invariant forall j :: 0 <= j < k ==> positions[j] == (reps[j].start + Offset(reps[..j]), reps[j].dest)
    {
      var r := reps[k];
      positions := positions + [(r.start + offset, r.dest)];
      assert reps[..k + 1] == reps[..k] + [r];
      OffsetAppend(reps[..k], r);
      offset := offset + |r.dest| - |r.original|;
    }
  }

  /** The two computations display_replacements makes for one line: the new
      line and the position of each replacement text in it. Each position
      holds exactly its replacement text. */
  method DisplayLine(line: string, reps: seq<Replacement>) returns (newLine: string, positions: seq<(int, string)>)
    requires Laid(line, reps, 0) && Recorded(line, reps)
    ensures newLine == Rebuilt(line, reps, 0)
    ensures |positions| == |reps|
    ensures forall k :: 0 <= k < |reps| ==>
              && positions[k].1 == reps[k].dest
              && 0 <= positions[k].0 <= positions[k].0 + |reps[k].dest| <= |newLine|
              && newLine[positions[k].0..positions[k].0 + |reps[k].dest|] == reps[k].dest
  {
    newLine := SpliceLine(line, reps);
    positions := NewPositions(reps);
    forall k | 0 <= k < |reps|
      ensures 0 <= positions[k].0 <= positions[k].0 + |reps[k].dest| <= |newLine|
      ensures newLine[positions[k].0..positions[k].0 + |reps[k].dest|] == reps[k].dest
    {
      DestAtShiftedStart(line, reps, 0, k);
    }
  }
}
