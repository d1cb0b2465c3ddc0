/**
 * The substitution engine over a whole file: `collect_replacements` accepts,
 * rule by rule and match by match, the spans that touch no span accepted
 * before them and sorts each line's spans by start; `apply_replacements`
 * rewrites every line by running `subn` for each rule in turn on the line as
 * the earlier rules left it; `process_file` writes the rewritten lines only
 * when changes were asked for, some span was collected and some `subn`
 * replaced something.
 */
module Replacements {
  import opened Wrappers
  import opened Rules
  import opened Substitution

  /** Every rule has a non-empty source, as compiled rules do. */
  predicate Sourced(rules: seq<Rule>) {
    forall k :: 0 <= k < |rules| ==> rules[k].src != []
  }

  /** The overlap test of the source: the closed intervals [start, end] and
      [r.start, r.end] share a point, so spans that only meet also overlap. */
  predicate Touches(start: int, end: int, r: Replacement) {
    start <= r.end && end >= r.start
  }

  /** Some span already accepted overlaps [start, end]. */
  predicate Blocked(start: int, end: int, acc: seq<Replacement>) {
    exists j :: 0 <= j < |acc| && Touches(start, end, acc[j])
  }

  /** The spans accepted so far after the match at m is considered: it is
      added unless it overlaps one of them or its text is not the source. */
  function Consider(line: string, rule: Rule, m: nat, acc: seq<Replacement>): seq<Replacement>
    requires m + |rule.src| <= |line|
  {
    var rep := MakeReplacement(line, m, rule);
    if !Blocked(rep.start, rep.end, acc) && rep.original == rule.src then acc + [rep] else acc
  }

  /** The matches of one rule considered in the order finditer reports them. */
  function AcceptMatches(line: string, rule: Rule, ms: seq<nat>, acc: seq<Replacement>): seq<Replacement>
    requires FitLine(line, |rule.src|, ms)
    decreases |ms|
  {
    if ms == [] then acc
    else AcceptMatches(line, rule, ms[1..], Consider(line, rule, ms[0], acc))
  }

  /** The rules taken in order, each scanning the original line. */
  function AcceptRules(line: string, rules: seq<Rule>, acc: seq<Replacement>): seq<Replacement>
    requires Sourced(rules)
    decreases |rules|
  {
    if rules == [] then acc
    else
      MatchSpansLaid(line, rules[0], 0);
      AcceptRules(line, rules[1..], AcceptMatches(line, rules[0], Matches(line, rules[0].src), acc))
  }

  /** The spans collected for one line, in the order they were accepted. */
  function Accepted(line: string, rules: seq<Rule>): seq<Replacement>
    requires Sourced(rules)
  {
    AcceptRules(line, rules, [])
  }

  /** Inserts r after every span that starts no later than it. */
  function InsertByStart(sorted: seq<Replacement>, r: Replacement): seq<Replacement>
    decreases |sorted|
  {
    if sorted == [] || r.start < sorted[0].start then [r] + sorted
    else [sorted[0]] + InsertByStart(sorted[1..], r)
  }

  /** list.sort(key=start), a stable sort by start. */
  function SortByStart(reps: seq<Replacement>): seq<Replacement>
    decreases |reps|
  {
    if reps == [] then []
    else InsertByStart(SortByStart(reps[..|reps| - 1]), reps[|reps| - 1])
  }

  /** The spans one line contributes, sorted by start. */
  function LinePreview(line: string, rules: seq<Rule>): (r: seq<Replacement>)
    requires Sourced(rules)
    ensures multiset(r) == multiset(Accepted(line, rules))
  {
    SortPermutes(Accepted(line, rules));
    SortByStart(Accepted(line, rules))
  }

  // ---------------------------------------------------------------------
  // What the accepted spans are

  /** r is the replacement recorded for a match of the rule at r.start. */
  predicate IsMatchOf(line: string, rule: Rule, r: Replacement) {
    && r.start + |rule.src| <= |line|
    && MatchesAt(line, rule.src, r.start)
    && r == MakeReplacement(line, r.start, rule)
  }

  /** Each span was checked against every span accepted before it. */
  predicate Separated(reps: seq<Replacement>) {
    forall i, j :: 0 <= i < j < |reps| ==> !Touches(reps[j].start, reps[j].end, reps[i])
  }

  /** The text of a match is always the source, so the source's second test
      never rejects one. */
  lemma {:induction false} MatchTextIsSource(line: string, rule: Rule, m: nat)
    requires m + |rule.src| <= |line| && MatchesAt(line, rule.src, m)
    ensures MakeReplacement(line, m, rule).original == rule.src
  {
  }

  /** Considering a match only ever appends it, and appends it exactly when it
      does not overlap an accepted span. */
  lemma {:induction false} ConsiderEffect(line: string, rule: Rule, m: nat, acc: seq<Replacement>)
    requires m + |rule.src| <= |line| && MatchesAt(line, rule.src, m)
    ensures !Blocked(m, m + |rule.src|, acc) ==> Consider(line, rule, m, acc) == acc + [MakeReplacement(line, m, rule)]
    ensures Blocked(m, m + |rule.src|, acc) ==> Consider(line, rule, m, acc) == acc
  {
    MatchTextIsSource(line, rule, m);
  }

  /** Accepted spans are kept: each step extends the list. */
  lemma {:induction false} AcceptMatchesExtends(line: string, rule: Rule, ms: seq<nat>, acc: seq<Replacement>)
    requires FitLine(line, |rule.src|, ms)
    ensures acc <= AcceptMatches(line, rule, ms, acc)
    decreases |ms|
  {
    if ms != [] {
      AcceptMatchesExtends(line, rule, ms[1..], Consider(line, rule, ms[0], acc));
    }
  }

  /** Within one rule: the spans added are matches of the rule that overlap no
      span before them. */
  lemma {:induction false} AcceptMatchesSound(line: string, rule: Rule, ms: seq<nat>, acc: seq<Replacement>)
    requires FitLine(line, |rule.src|, ms) && Reported(line, rule.src, 0, ms) && Separated(acc)
    ensures var r := AcceptMatches(line, rule, ms, acc);
            && Separated(r)
            && forall k :: |acc| <= k < |r| ==> IsMatchOf(line, rule, r[k])
    decreases |ms|
  {
    if ms != [] {
      var next := Consider(line, rule, ms[0], acc);
      ConsiderEffect(line, rule, ms[0], acc);
      ReportedTail(line, rule.src, ms);
      AcceptMatchesSound(line, rule, ms[1..], next);
      var r := AcceptMatches(line, rule, ms[1..], next);
      if next != acc {
        assert next[|acc|] == r[|acc|] by {
          AcceptMatchesExtends(line, rule, ms[1..], next);
        }
      }
    }
  }

  /** Within one rule: every reported match overlaps some span afterwards,
      either its own or one accepted before it. */
  lemma {:induction false} AcceptMatchesComplete(line: string, rule: Rule, ms: seq<nat>, acc: seq<Replacement>, t: nat)
    requires FitLine(line, |rule.src|, ms) && t < |ms| && MatchesAt(line, rule.src, ms[t])
    ensures Blocked(ms[t], ms[t] + |rule.src|, AcceptMatches(line, rule, ms, acc))
    decreases |ms|
  {
    if t == 0 {
      FirstMatchBlocked(line, rule, ms, acc);
    } else {
      assert ms[1..][t - 1] == ms[t];
      AcceptMatchesComplete(line, rule, ms[1..], Consider(line, rule, ms[0], acc), t - 1);
    }
  }

  /** The first match considered overlaps a span afterwards: one accepted
      before it, or its own. */
  lemma {:induction false} FirstMatchBlocked(line: string, rule: Rule, ms: seq<nat>, acc: seq<Replacement>)
    requires ms != [] && FitLine(line, |rule.src|, ms) && MatchesAt(line, rule.src, ms[0])
    ensures Blocked(ms[0], ms[0] + |rule.src|, AcceptMatches(line, rule, ms, acc))
  {
    var m := ms[0];
    var next := Consider(line, rule, m, acc);
    ConsiderEffect(line, rule, m, acc);
    if Blocked(m, m + |rule.src|, acc) {
      BlockedLater(m, m + |rule.src|, acc, next);
    } else {
      assert Touches(m, m + |rule.src|, next[|acc|]);
    }
    AcceptMatchesExtends(line, rule, ms[1..], next);
    BlockedLater(m, m + |rule.src|, next, AcceptMatches(line, rule, ms[1..], next));
  }

  /** The reported matches after the first are reported matches too. */
  lemma {:induction false} ReportedTail(line: string, src: string, ms: seq<nat>)
    requires ms != [] && Reported(line, src, 0, ms)
    ensures Reported(line, src, 0, ms[1..])
  {
    forall k | 0 <= k < |ms[1..]|
      ensures MatchesAt(line, src, ms[1..][k])
    {
      assert ms[1..][k] == ms[k + 1];
    }
    forall a, b | 0 <= a < b < |ms[1..]|
      ensures ms[1..][a] + |src| <= ms[1..][b]
    {
      assert ms[1..][a] == ms[a + 1] && ms[1..][b] == ms[b + 1];
    }
  }

  /** A span overlapping an accepted span still overlaps one after more are
      accepted. */
  lemma {:induction false} BlockedLater(start: int, end: int, acc: seq<Replacement>, more: seq<Replacement>)
    requires Blocked(start, end, acc) && acc <= more
    ensures Blocked(start, end, more)
  {
    var j :| 0 <= j < |acc| && Touches(start, end, acc[j]);
    assert more[j] == acc[j];
  }

  /** r is the replacement recorded for a match of one of the rules. */
  predicate FromRules(line: string, rules: seq<Rule>, r: Replacement) {
    exists k :: 0 <= k < |rules| && IsMatchOf(line, rules[k], r)
  }

  lemma {:induction false} AcceptRulesExtends(line: string, rules: seq<Rule>, acc: seq<Replacement>)
    requires Sourced(rules)
    ensures acc <= AcceptRules(line, rules, acc)
    decreases |rules|
  {
    if rules != [] {
      MatchSpansLaid(line, rules[0], 0);
      var next := AcceptMatches(line, rules[0], Matches(line, rules[0].src), acc);
      AcceptMatchesExtends(line, rules[0], Matches(line, rules[0].src), acc);
      AcceptRulesExtends(line, rules[1..], next);
    }
  }

  /** Over all rules: the spans added are matches of some rule, and no span
      overlaps one accepted before it. */
  lemma {:induction false} AcceptRulesSound(line: string, rules: seq<Rule>, acc: seq<Replacement>)
    requires Sourced(rules) && Separated(acc)
    ensures var r := AcceptRules(line, rules, acc);
            && Separated(r)
            && forall k :: |acc| <= k < |r| ==> FromRules(line, rules, r[k])
    decreases |rules|
  {
    if rules != [] {
      var ms := Matches(line, rules[0].src);
      MatchSpansLaid(line, rules[0], 0);
      MatchesFromSound(line, rules[0].src, 0);
      var next := AcceptMatches(line, rules[0], ms, acc);
      AcceptMatchesSound(line, rules[0], ms, acc);
      AcceptRulesSound(line, rules[1..], next);
      AcceptRulesExtends(line, rules[1..], next);
      var r := AcceptRules(line, rules[1..], next);
      forall k | |acc| <= k < |r|
        ensures FromRules(line, rules, r[k])
      {
        if k < |next| {
          assert r[k] == next[k];
          assert IsMatchOf(line, rules[0], r[k]);
        } else {
          var q :| 0 <= q < |rules[1..]| && IsMatchOf(line, rules[1..][q], r[k]);
          assert rules[1..][q] == rules[q + 1];
        }
      }
    }
  }

  /** Over all rules: every match finditer reports for any rule on the
      original line overlaps some collected span. */
  lemma {:induction false} AcceptRulesComplete(line: string, rules: seq<Rule>, acc: seq<Replacement>, k: nat, t: nat)
    requires Sourced(rules) && k < |rules| && t < |Matches(line, rules[k].src)|
    ensures var m := Matches(line, rules[k].src)[t];
            Blocked(m, m + |rules[k].src|, AcceptRules(line, rules, acc))
    decreases |rules|
  {
    var ms := Matches(line, rules[0].src);
    MatchSpansLaid(line, rules[0], 0);
    var next := AcceptMatches(line, rules[0], ms, acc);
    if k == 0 {
      MatchesFromSound(line, rules[0].src, 0);
      assert MatchesAt(line, rules[0].src, ms[t]);
      AcceptMatchesComplete(line, rules[0], ms, acc, t);
      AcceptRulesExtends(line, rules[1..], next);
      BlockedLater(ms[t], ms[t] + |rules[0].src|, next, AcceptRules(line, rules[1..], next));
    } else {
      assert rules[1..][k - 1] == rules[k];
      AcceptRulesComplete(line, rules[1..], next, k - 1, t);
    }
  }

  /** Some rule matches the original line. */
  predicate AnyMatch(line: string, rules: seq<Rule>)
    requires Sourced(rules)
  {
    exists k :: 0 <= k < |rules| && Matches(line, rules[k].src) != []
  }

  /** A line gets a span exactly when some rule matches it. */
  lemma {:induction false} AcceptedIffMatch(line: string, rules: seq<Rule>)
    requires Sourced(rules)
    ensures Accepted(line, rules) != [] <==> AnyMatch(line, rules)
  {
    var r := Accepted(line, rules);
    if AnyMatch(line, rules) {
      var k :| 0 <= k < |rules| && Matches(line, rules[k].src) != [];
      AcceptRulesComplete(line, rules, [], k, 0);
    }
    if r != [] {
      AcceptRulesSound(line, rules, []);
      var q :| 0 <= q < |rules| && IsMatchOf(line, rules[q], r[0]);
      MatchesFromComplete(line, rules[q].src, 0, r[0].start);
    }
  }

  // ---------------------------------------------------------------------
  // Sorting by start

  lemma {:induction false} InsertByStartPermutes(sorted: seq<Replacement>, r: Replacement)
    ensures multiset(InsertByStart(sorted, r)) == multiset(sorted) + multiset{r}
    decreases |sorted|
  {
    if sorted != [] && r.start >= sorted[0].start {
      InsertByStartPermutes(sorted[1..], r);
      assert sorted == [sorted[0]] + sorted[1..];
    }
  }

  /** Sorting rearranges the spans and neither adds nor drops one. */
  lemma {:induction false} SortPermutes(reps: seq<Replacement>)
    ensures multiset(SortByStart(reps)) == multiset(reps)
    decreases |reps|
  {
    if reps != [] {
      var init := reps[..|reps| - 1];
      SortPermutes(init);
      InsertByStartPermutes(SortByStart(init), reps[|reps| - 1]);
      assert reps == init + [reps[|reps| - 1]];
    }
  }

  /** Inserting a span that overlaps none of a laid list keeps it laid. */
  lemma {:induction false} InsertLaid(line: string, sorted: seq<Replacement>, r: Replacement, from: nat)
    requires Laid(line, sorted, from) && from <= r.start <= r.end <= |line|
    requires forall j :: 0 <= j < |sorted| ==> !Touches(r.start, r.end, sorted[j])
    ensures Laid(line, InsertByStart(sorted, r), from)
    decreases |sorted|
  {
    if sorted == [] {
    } else if r.start < sorted[0].start {
      assert !Touches(r.start, r.end, sorted[0]);
      RebuiltFrom(line, sorted, from, r.end);
      assert ([r] + sorted)[1..] == sorted;
    } else {
      assert !Touches(r.start, r.end, sorted[0]);
      forall j | 0 <= j < |sorted[1..]|
        ensures !Touches(r.start, r.end, sorted[1..][j])
      {
        assert sorted[1..][j] == sorted[j + 1];
      }
      InsertLaid(line, sorted[1..], r, sorted[0].end);
      assert ([sorted[0]] + InsertByStart(sorted[1..], r))[1..] == InsertByStart(sorted[1..], r);
    }
  }

  /** Spans that lie inside the line and were accepted without overlap are
      laid out in order once sorted by start. */
  lemma {:induction false} SortLaid(line: string, reps: seq<Replacement>)
    requires Separated(reps)
    requires forall k :: 0 <= k < |reps| ==> reps[k].start <= reps[k].end <= |line|
    ensures Laid(line, SortByStart(reps), 0)
    decreases |reps|
  {
    if reps != [] {
      var init := reps[..|reps| - 1];
      var last := reps[|reps| - 1];
      var sorted := SortByStart(init);
      SortLaid(line, init);
      SortPermutes(init);
      forall j | 0 <= j < |sorted|
        ensures !Touches(last.start, last.end, sorted[j])
      {
        assert sorted[j] in multiset(init);
        var i :| 0 <= i < |init| && init[i] == sorted[j];
        assert reps[i] == sorted[j];
      }
      InsertLaid(line, sorted, last, 0);
    }
  }

  /** A line's preview holds the accepted spans, sorted: each is a match of a
      rule recording the text it covers, and they lie in order without
      overlap. */
  lemma {:induction false} PreviewLaid(line: string, rules: seq<Rule>)
    requires Sourced(rules)
    ensures var p := LinePreview(line, rules);
            && multiset(p) == multiset(Accepted(line, rules))
            && Laid(line, p, 0)
            && Recorded(line, p)
            && forall k :: 0 <= k < |p| ==> FromRules(line, rules, p[k])
  {
    var acc := Accepted(line, rules);
    AcceptRulesSound(line, rules, []);
    AcceptedInLine(line, rules, acc);
    SortLaid(line, acc);
    SortPermutes(acc);
    PreviewFromRules(line, rules, acc);
  }

  /** Spans that hold matches of the rules lie inside the line. */
  lemma {:induction false} AcceptedInLine(line: string, rules: seq<Rule>, acc: seq<Replacement>)
    requires forall k :: 0 <= k < |acc| ==> FromRules(line, rules, acc[k])
    ensures forall k :: 0 <= k < |acc| ==> acc[k].start <= acc[k].end <= |line|
  {
    forall k | 0 <= k < |acc|
      ensures acc[k].start <= acc[k].end <= |line|
    {
      var q :| 0 <= q < |rules| && IsMatchOf(line, rules[q], acc[k]);
    }
  }

  /** Sorting keeps every span a match of the rules that records its text. */
  lemma {:induction false} PreviewFromRules(line: string, rules: seq<Rule>, acc: seq<Replacement>)
    requires forall k :: 0 <= k < |acc| ==> FromRules(line, rules, acc[k])
    ensures var p := SortByStart(acc);
            && Recorded(line, p)
            && forall k :: 0 <= k < |p| ==> FromRules(line, rules, p[k])
  {
    var p := SortByStart(acc);
    SortPermutes(acc);
    forall k | 0 <= k < |p|
      ensures FromRules(line, rules, p[k])
      ensures p[k].start <= p[k].end <= |line| && p[k].original == line[p[k].start..p[k].end]
    {
      assert p[k] in multiset(acc);
      var i :| 0 <= i < |acc| && acc[i] == p[k];
      var q :| 0 <= q < |rules| && IsMatchOf(line, rules[q], acc[i]);
    }
  }

  // ---------------------------------------------------------------------
  // Apply mode

  /** One line after `subn` ran for every rule in turn, each on the line the
      rules before it produced, and whether any of them replaced something.
      When none did, the line comes back as it was. */
  function Rewrite(line: string, rules: seq<Rule>): (r: (string, bool))
    requires Sourced(rules)
    ensures !r.1 ==> r.0 == line
    decreases |rules|
  {
    if rules == [] then (line, false)
    else
      var (next, count) := Subn(line, rules[0]);
      var rest := Rewrite(next, rules[1..]);
      if count == 0 then
        ReplacedWithoutMatch(line, rules[0].src, rules[0].dest, 0);
        (rest.0, rest.1)
      else (rest.0, true)
  }

  /** Whether a rewrite changed the line: some `subn` reported a replacement. */
  predicate Changed(line: string, rules: seq<Rule>)
    requires Sourced(rules)
  {
    Rewrite(line, rules).1
  }

  /** The rewrite reports a change exactly when some rule matches the original
      line: rules that do not match leave the line as it was for the next. */
  lemma {:induction false} ChangedIffMatch(line: string, rules: seq<Rule>)
    requires Sourced(rules)
    ensures Changed(line, rules) <==> AnyMatch(line, rules)
    decreases |rules|
  {
    if rules != [] {
      if Matches(line, rules[0].src) == [] {
        ReplacedWithoutMatch(line, rules[0].src, rules[0].dest, 0);
        ChangedIffMatch(line, rules[1..]);
        if AnyMatch(line, rules) {
          var k :| 0 <= k < |rules| && Matches(line, rules[k].src) != [];
          assert rules[1..][k - 1] == rules[k];
        }
        if AnyMatch(line, rules[1..]) {
          var k :| 0 <= k < |rules[1..]| && Matches(line, rules[1..][k].src) != [];
          assert rules[1..][k] == rules[k + 1];
        }
      }
    }
  }

  /** Preview and apply agree on which lines change: a line gets spans exactly
      when its rewrite reports a replacement. */
  lemma {:induction false} PreviewIffChanged(line: string, rules: seq<Rule>)
    requires Sourced(rules)
    ensures LinePreview(line, rules) != [] <==> Changed(line, rules)
  {
    AcceptedIffMatch(line, rules);
    ChangedIffMatch(line, rules);
    SortPermutes(Accepted(line, rules));
    assert |LinePreview(line, rules)| == |multiset(LinePreview(line, rules))|;
  }

  // ---------------------------------------------------------------------
  // A whole file

  /** Every line's preview. */
  function LinePreviews(lines: seq<string>, rules: seq<Rule>): (pv: seq<seq<Replacement>>)
    requires Sourced(rules)
    ensures |pv| == |lines|
  {
    seq(|lines|, i requires 0 <= i < |lines| => LinePreview(lines[i], rules))
  }

  /** The (line index, spans) entries for the first n lines; lines without
      spans are left out. */
  function Entries(pv: seq<seq<Replacement>>, n: nat): seq<(nat, seq<Replacement>)>
    requires n <= |pv|
  {
    if n == 0 then []
    else Entries(pv, n - 1) + (if pv[n - 1] == [] then [] else [(n - 1, pv[n - 1])])
  }

  /** The number of spans in the entries. */
  function SpanCount(entries: seq<(nat, seq<Replacement>)>): nat {
    if entries == [] then 0
    else SpanCount(entries[..|entries| - 1]) + |entries[|entries| - 1].1|
  }

  /** Appending a line to the entries: its entry comes last, if it has one. */
  lemma {:induction false} EntriesStep(pv: seq<seq<Replacement>>, n: nat)
    requires 0 < n <= |pv|
    ensures pv[n - 1] == [] ==> Entries(pv, n) == Entries(pv, n - 1)
    ensures pv[n - 1] != [] ==> Entries(pv, n) == Entries(pv, n - 1) + [(n - 1, pv[n - 1])]
  {
    assert Entries(pv, n - 1) + [] == Entries(pv, n - 1);
  }

  /** Each entry is a line's non-empty span list, and the entries follow the
      lines' order. */
  lemma {:induction false} EntriesAreLines(pv: seq<seq<Replacement>>, n: nat)
    requires n <= |pv|
    ensures var p := Entries(pv, n);
            && (forall t :: 0 <= t < |p| ==> p[t].0 < n && p[t].1 == pv[p[t].0] && p[t].1 != [])
            && (forall a, b :: 0 <= a < b < |p| ==> p[a].0 < p[b].0)
    decreases n
  {
    if n > 0 {
      EntriesAreLines(pv, n - 1);
      EntriesStep(pv, n);
    }
  }

  /** Every line with a non-empty span list has an entry. */
  lemma {:induction false} EntriesCoverLines(pv: seq<seq<Replacement>>, n: nat, i: nat)
    requires n <= |pv| && i < n && pv[i] != []
    ensures exists t :: 0 <= t < |Entries(pv, n)| && Entries(pv, n)[t] == (i, pv[i])
    decreases n
  {
    EntriesStep(pv, n);
    var q := Entries(pv, n - 1);
    if i == n - 1 {
      assert Entries(pv, n)[|q|] == (i, pv[i]);
    } else {
      EntriesCoverLines(pv, n - 1, i);
      var t :| 0 <= t < |q| && q[t] == (i, pv[i]);
      assert Entries(pv, n)[t] == q[t];
    }
  }

  /** The count is positive exactly when some line has a span. */
  lemma {:induction false} SpanCountPositive(pv: seq<seq<Replacement>>, n: nat)
    requires n <= |pv|
    ensures SpanCount(Entries(pv, n)) > 0 <==> exists i :: 0 <= i < n && pv[i] != []
    decreases n
  {
    if n > 0 {
      SpanCountPositive(pv, n - 1);
      var q := Entries(pv, n - 1);
      EntriesStep(pv, n);
      if pv[n - 1] != [] {
        SpanCountSnoc(q, (n - 1, pv[n - 1]));
        assert 0 <= n - 1 < n && pv[n - 1] != [];
      } else if exists i :: 0 <= i < n && pv[i] != [] {
        var i :| 0 <= i < n && pv[i] != [];
        assert i < n - 1;
      }
    }
  }

  /** One more entry adds its spans to the count. */
  lemma {:induction false} SpanCountSnoc(q: seq<(nat, seq<Replacement>)>, e: (nat, seq<Replacement>))
    ensures SpanCount(q + [e]) == SpanCount(q) + |e.1|
  {
    assert (q + [e])[..|q|] == q;
  }

  /** The text every line has after the rewrite. */
  function RewriteAll(lines: seq<string>, rules: seq<Rule>): (out: seq<string>)
    requires Sourced(rules)
    ensures |out| == |lines|
  {
    seq(|lines|, i requires 0 <= i < |lines| => Rewrite(lines[i], rules).0)
  }

  /** Some line's rewrite reported a replacement. */
  predicate Modified(lines: seq<string>, rules: seq<Rule>)
    requires Sourced(rules)
  {
    exists i :: 0 <= i < |lines| && Changed(lines[i], rules)
  }

  /** When no rewrite reported a replacement every line is as it was. */
  lemma {:induction false} UnmodifiedIsIdentity(lines: seq<string>, rules: seq<Rule>)
    requires Sourced(rules) && !Modified(lines, rules)
    ensures RewriteAll(lines, rules) == lines
  {
    forall i | 0 <= i < |lines|
      ensures RewriteAll(lines, rules)[i] == lines[i]
    {
      assert !Changed(lines[i], rules);
    }
  }

  /** Some span is collected in a file exactly when its rewrite modifies it,
      so the write guard's `total > 0` never decides anything on its own. */
  lemma {:induction false} TotalIffModified(lines: seq<string>, rules: seq<Rule>)
    requires Sourced(rules)
    ensures SpanCount(Entries(LinePreviews(lines, rules), |lines|)) > 0 <==> Modified(lines, rules)
  {
    var pv := LinePreviews(lines, rules);
    SpanCountPositive(pv, |lines|);
    forall i | 0 <= i < |lines|
      ensures pv[i] != [] <==> Changed(lines[i], rules)
    {
      PreviewIffChanged(lines[i], rules);
    }
  }

  // ---------------------------------------------------------------------
  // The source's loops

  /** The processed ranges hold the start and end of each accepted span. */
  predicate Tracks(ranges: seq<(nat, nat)>, reps: seq<Replacement>) {
    |ranges| == |reps| && forall i :: 0 <= i < |reps| ==> ranges[i] == (reps[i].start, reps[i].end)
  }

  /** The scan of the processed ranges for one that [start, end] overlaps. */
  method Overlaps(start: nat, end: nat, ranges: seq<(nat, nat)>) returns (overlap: bool)
    ensures overlap <==> exists j :: 0 <= j < |ranges| && start <= ranges[j].1 && end >= ranges[j].0
  {
    overlap := false;
    var j := 0;
    while j < |ranges|
      invariant 0 <= j <= |ranges| && !overlap
      invariant forall i :: 0 <= i < j ==> !(start <= ranges[i].1 && end >= ranges[i].0)
    {
      if start <= ranges[j].1 && end >= ranges[j].0 {
        overlap := true;
        break;
      }
      j := j + 1;
    }
  }

  /** One match of the scan: what remains after it is considered. */
  lemma {:induction false} AcceptMatchesStep(line: string, rule: Rule, ms: seq<nat>, t: nat, acc: seq<Replacement>)
    requires t < |ms| && FitLine(line, |rule.src|, ms[t..])
    ensures ms[t] + |rule.src| <= |line| && FitLine(line, |rule.src|, ms[t + 1..])
    ensures AcceptMatches(line, rule, ms[t..], acc) == AcceptMatches(line, rule, ms[t + 1..], Consider(line, rule, ms[t], acc))
  {
    assert ms[t..][0] == ms[t] && ms[t..][1..] == ms[t + 1..];
  }

  /** One rule of the scan: what remains after its matches are considered. */
  lemma {:induction false} AcceptRulesStep(line: string, rules: seq<Rule>, k: nat, acc: seq<Replacement>)
    requires Sourced(rules) && k < |rules|
    ensures FitLine(line, |rules[k].src|, Matches(line, rules[k].src))
    ensures AcceptRules(line, rules[k..], acc)
            == AcceptRules(line, rules[k + 1..], AcceptMatches(line, rules[k], Matches(line, rules[k].src), acc))
  {
    MatchSpansLaid(line, rules[k], 0);
    assert rules[k..][0] == rules[k] && rules[k..][1..] == rules[k + 1..];
  }

  /** The body of the scan over one rule's matches: the match at start is
      accepted, and its range recorded, unless it overlaps a processed range
      or its text is not the source. */
  method ConsiderMatch(line: string, rule: Rule, start: nat, accepted: seq<Replacement>, ranges: seq<(nat, nat)>)
    returns (accepted': seq<Replacement>, ranges': seq<(nat, nat)>)
    requires start + |rule.src| <= |line| && Tracks(ranges, accepted)
    ensures accepted' == Consider(line, rule, start, accepted)
    ensures Tracks(ranges', accepted')
  {
    accepted', ranges' := accepted, ranges;
    var end := start + |rule.src|;
    var overlap := Overlaps(start, end, ranges);
    assert overlap == Blocked(start, end, accepted) by {
      if overlap {
        var j :| 0 <= j < |ranges| && start <= ranges[j].1 && end >= ranges[j].0;
        assert Touches(start, end, accepted[j]);
      }
    }
    if !overlap {
      var rep := MakeReplacement(line, start, rule);
      if rep.original == rule.src {
        accepted' := accepted + [rep];
        ranges' := ranges + [(start, end)];
      }
    }
  }

  /** collect_replacements for one line: each rule's matches on the original
      line are checked against the processed ranges, then the spans are
      sorted by start. */
  method CollectLine(line: string, rules: seq<Rule>) returns (reps: seq<Replacement>)
    requires Sourced(rules)
    ensures reps == LinePreview(line, rules)
  {
    var accepted: seq<Replacement> := [];
    var ranges: seq<(nat, nat)> := [];
    assert rules[0..] == rules;
    for k := 0 to |rules|
      invariant Tracks(ranges, accepted)
      invariant AcceptRules(line, rules[k..], accepted) == Accepted(line, rules)
    {
      var rule := rules[k];
      var ms := Matches(line, rule.src);
      AcceptRulesStep(line, rules, k, accepted);
      ghost var before := accepted;
      assert ms[0..] == ms;
      for t := 0 to |ms|
        invariant Tracks(ranges, accepted)
        invariant FitLine(line, |rule.src|, ms[t..])
        invariant AcceptMatches(line, rule, ms[t..], accepted) == AcceptMatches(line, rule, ms, before)
      {
        AcceptMatchesStep(line, rule, ms, t, accepted);
        accepted, ranges := ConsiderMatch(line, rule, ms[t], accepted, ranges);
      }
      assert ms[|ms|..] == [];
    }
    reps := SortByStart(accepted);
  }

  /** collect_replacements: the non-empty previews with their line indices,
      and the number of spans. */
  method CollectReplacements(lines: seq<string>, rules: seq<Rule>) returns (byLine: seq<(nat, seq<Replacement>)>, total: nat)
    requires Sourced(rules)
    ensures byLine == Entries(LinePreviews(lines, rules), |lines|)
    ensures total == SpanCount(byLine)
  {
    ghost var pv := LinePreviews(lines, rules);
    byLine := [];
    total := 0;
    for i := 0 to |lines|
      invariant byLine == Entries(pv, i)
      invariant total == SpanCount(byLine)
    {
      var reps := CollectLine(lines[i], rules);
      EntriesStep(pv, i + 1);
      if reps != [] {
        assert (byLine + [(i, reps)])[..|byLine|] == byLine;
        byLine := byLine + [(i, reps)];
        total := total + |reps|;
      }
    }
  }

  /** One rule of the rewrite: what remains after its `subn`. */
  lemma {:induction false} RewriteStep(line: string, rules: seq<Rule>, k: nat)
    requires Sourced(rules) && k < |rules|
    ensures var r := Subn(line, rules[k]);
            Rewrite(line, rules[k..]) == (Rewrite(r.0, rules[k + 1..]).0, r.1 > 0 || Rewrite(r.0, rules[k + 1..]).1)
  {
    assert rules[k..][0] == rules[k] && rules[k..][1..] == rules[k + 1..];
  }

  /** apply_replacements: every line of a copy rewritten by each rule's `subn`
      in turn, and whether any `subn` replaced something. */
  method ApplyReplacements(lines: seq<string>, rules: seq<Rule>) returns (modified: bool, out: seq<string>)
    requires Sourced(rules)
    ensures out == RewriteAll(lines, rules)
    ensures modified <==> Modified(lines, rules)
  {
    modified := false;
    out := lines;
    for i := 0 to |out|
      invariant |out| == |lines|
      invariant forall j :: 0 <= j < i ==> out[j] == Rewrite(lines[j], rules).0
      invariant forall j :: i <= j < |lines| ==> out[j] == lines[j]
      invariant modified <==> exists j :: 0 <= j < i && Changed(lines[j], rules)
    {
      var newLine := out[i];
      ghost var before := modified;
      assert rules[0..] == rules;
      for k := 0 to |rules|
        invariant Rewrite(newLine, rules[k..]).0 == Rewrite(lines[i], rules).0
        invariant (modified || Rewrite(newLine, rules[k..]).1) == (before || Changed(lines[i], rules))
      {
        RewriteStep(newLine, rules, k);
        var result := Subn(newLine, rules[k]);
        newLine := result.0;
        if result.1 > 0 {
          modified := true;
        }
      }
      assert rules[|rules|..] == [];
      out := out[i := newLine];
    }
  }

  /** process_file without the reading and the preview: the span count, and
      the lines written back, written only when changes are asked for, some
      span was collected and some `subn` replaced something. */
  method ProcessFile(lines: seq<string>, rules: seq<Rule>, applyChanges: bool) returns (total: nat, written: Option<seq<string>>)
    requires Sourced(rules)
    ensures total == SpanCount(Entries(LinePreviews(lines, rules), |lines|))
    ensures written.Some? <==> applyChanges && total > 0 && Modified(lines, rules)
    ensures written.Some? ==> written.value == RewriteAll(lines, rules)
  {
    var byLine;
    byLine, total := CollectReplacements(lines, rules);
    written := None;
    if applyChanges && total > 0 {
      var modified, out := ApplyReplacements(lines, rules);
      if modified {
        written := Some(out);
      }
    }
  }

  /** The file is written exactly when changes are asked for and some rule
      matches some line; a file left alone loses nothing. */
  lemma {:induction false} WriteGuard(lines: seq<string>, rules: seq<Rule>, applyChanges: bool)
    requires Sourced(rules)
    ensures var total := SpanCount(Entries(LinePreviews(lines, rules), |lines|));
            (applyChanges && total > 0 && Modified(lines, rules))
            <==> (applyChanges && exists i :: 0 <= i < |lines| && AnyMatch(lines[i], rules))
    ensures !Modified(lines, rules) ==> RewriteAll(lines, rules) == lines
  {
    TotalIffModified(lines, rules);
    forall i | 0 <= i < |lines|
      ensures Changed(lines[i], rules) <==> AnyMatch(lines[i], rules)
    {
      ChangedIffMatch(lines[i], rules);
    }
    if !Modified(lines, rules) {
      UnmodifiedIsIdentity(lines, rules);
    }
  }

  // ---------------------------------------------------------------------
  // Where preview and apply disagree

  /** Two matches that meet end to start: the closed-interval test keeps only
      the first for the preview, while `subn` replaces both. */
  lemma {:induction false} MeetingMatchesDiverge()
    ensures Sourced([Rule("*", "x")])
    ensures LinePreview("**", [Rule("*", "x")]) == [Replacement("", "*", "*", "x", 0, 1)]
    ensures Rebuilt("**", LinePreview("**", [Rule("*", "x")]), 0) == "x*"
    ensures Rewrite("**", [Rule("*", "x")]).0 == "xx"
  {
    MeetingPreview();
    var first := Replacement("", "*", "*", "x", 0, 1);
    RebuiltSingle("**", first);
    assert "**"[..0] == "" && "**"[1..] == "*";
    MeetingRewrite();
  }

  /** The preview of the meeting matches: the second touches the first. */
  lemma {:induction false} MeetingPreview()
    ensures Sourced([Rule("*", "x")])
    ensures LinePreview("**", [Rule("*", "x")]) == [Replacement("", "*", "*", "x", 0, 1)]
  {
    var first := Replacement("", "*", "*", "x", 0, 1);
    MeetingAccepted();
    assert SortByStart([first]) == [first] by {
      assert [first][..0] == [] && [first][0] == first;
    }
  }

  /** Both matches of `*` in `**` are reported. */
  lemma {:induction false} MeetingMatches()
    ensures Matches("**", "*") == [0, 1]
  {
    assert MatchesAt("**", "*", 0) && MatchesAt("**", "*", 1);
  }

  /** Only the first of the meeting matches is accepted. */
  lemma {:induction false} MeetingAccepted()
    ensures Sourced([Rule("*", "x")])
    ensures Accepted("**", [Rule("*", "x")]) == [Replacement("", "*", "*", "x", 0, 1)]
  {
    var line, rule := "**", Rule("*", "x");
    MeetingMatches();
    var first := MakeReplacement(line, 0, rule);
    assert first == Replacement("", "*", "*", "x", 0, 1);
    MeetingConsidered();
    assert [rule][0] == rule && [rule][1..] == [];
    assert AcceptRules(line, [rule], []) == AcceptRules(line, [], AcceptMatches(line, rule, [0, 1], []));
  }

  /** The matches at 0 and 1 are considered in turn; the second is blocked. */
  lemma {:induction false} MeetingConsidered()
    ensures FitLine("**", 1, [0, 1])
    ensures AcceptMatches("**", Rule("*", "x"), [0, 1], []) == [Replacement("", "*", "*", "x", 0, 1)]
  {
    var line, rule := "**", Rule("*", "x");
    var first := MakeReplacement(line, 0, rule);
    assert first == Replacement("", "*", "*", "x", 0, 1);
    assert Consider(line, rule, 0, []) == [first];
    assert Blocked(1, 2, [first]) by {
      assert Touches(1, 2, [first][0]);
    }
    assert Consider(line, rule, 1, [first]) == [first];
    assert [0, 1][1..] == [1] && [1][1..] == [];
  }

  /** The rewrite of the meeting matches replaces both. */
  lemma {:induction false} MeetingRewrite()
    ensures Sourced([Rule("*", "x")])
    ensures Rewrite("**", [Rule("*", "x")]).0 == "xx"
  {
    assert MatchesAt("**", "*", 0) && MatchesAt("**", "*", 1);
    assert Replaced("**", "*", "x", 0) == "x" + ("x" + "");
    assert [Rule("*", "x")][1..] == [];
  }

  /** A replacement text that is the source of a later rule: the preview shows
      the first replacement, while apply replaces the result again. */
  lemma {:induction false} ChainedRulesDiverge()
    ensures Sourced([Rule("long", "int"), Rule("int", "short")])
    ensures LinePreview("long", [Rule("long", "int"), Rule("int", "short")]) == [Replacement("", "long", "", "int", 0, 4)]
    ensures Rebuilt("long", LinePreview("long", [Rule("long", "int"), Rule("int", "short")]), 0) == "int"
    ensures Rewrite("long", [Rule("long", "int"), Rule("int", "short")]).0 == "short"
  {
    var rep := Replacement("", "long", "", "int", 0, 4);
    ChainedPreview();
    RebuiltSingle("long", rep);
    assert "long"[..0] == "" && "long"[4..] == "";
    ChainedRewrite();
  }

  /** The preview of `long` replaces it by `int` only. */
  lemma {:induction false} ChainedPreview()
    ensures Sourced([Rule("long", "int"), Rule("int", "short")])
    ensures LinePreview("long", [Rule("long", "int"), Rule("int", "short")]) == [Replacement("", "long", "", "int", 0, 4)]
  {
    var rep := Replacement("", "long", "", "int", 0, 4);
    ChainedAccepted();
    assert SortByStart([rep]) == [rep] by {
      assert [rep][..0] == [] && [rep][0] == rep;
    }
  }

  /** The first rule claims the whole line; the second does not occur in it. */
  lemma {:induction false} ChainedAccepted()
    ensures Sourced([Rule("long", "int"), Rule("int", "short")])
    ensures Accepted("long", [Rule("long", "int"), Rule("int", "short")]) == [Replacement("", "long", "", "int", 0, 4)]
  {
    var line, rules := "long", [Rule("long", "int"), Rule("int", "short")];
    var rep := Replacement("", "long", "", "int", 0, 4);
    ChainedMatches();
    assert MakeReplacement(line, 0, rules[0]) == rep;
    assert Consider(line, rules[0], 0, []) == [rep];
    assert AcceptMatches(line, rules[0], [0], []) == [rep] by {
      assert [0][1..] == [];
    }
    assert rules[1..] == [rules[1]] && rules[1..][1..] == [];
    assert AcceptRules(line, rules, []) == AcceptRules(line, rules[1..], [rep]);
    assert AcceptRules(line, rules[1..], [rep]) == AcceptRules(line, [], AcceptMatches(line, rules[1], [], [rep]));
  }

  /** `long` matches once in `long`; `int` does not occur in it. */
  lemma {:induction false} ChainedMatches()
    ensures Matches("long", "long") == [0]
    ensures Matches("long", "int") == []
  {
    assert MatchesAt("long", "long", 0);
    assert !MatchesAt("long", "int", 0) && !MatchesAt("long", "int", 1);
  }

  /** Apply rewrites `long` to `int` and then `int` to `short`. */
  lemma {:induction false} ChainedRewrite()
    ensures Sourced([Rule("long", "int"), Rule("int", "short")])
    ensures Rewrite("long", [Rule("long", "int"), Rule("int", "short")]).0 == "short"
  {
    var rules := [Rule("long", "int"), Rule("int", "short")];
    assert MatchesAt("long", "long", 0);
    assert Replaced("long", "long", "int", 0) == "int" + "";
    assert MatchesAt("int", "int", 0);
    assert Replaced("int", "int", "short", 0) == "short" + "";
    assert rules[1..] == [Rule("int", "short")] && rules[1..][1..] == [];
  }
}
