/**
 * The rule compiler: the accumulated `Swap` setting is split on commas, each
 * piece becomes a `src/dest` pair (a `typedef A B;` piece becomes `A/B`), one
 * pair of double quotes is removed from each side, pairs with an empty side are
 * dropped, a repeated source empties the whole result, and the rules are
 * sorted by descending source length, equal lengths keeping their order.
 */
module Rules {
  import opened Wrappers
  import opened Text

  /** One substitution rule: a spelling to look for and its replacement. */
  datatype Rule = Rule(src: string, dest: string)

  /** The text before the first block-comment opener (or, when there is none,
      before the first line-comment opener), stripped; the text itself when it
      holds neither. */
  function CutComment(part: string): (r: string)
    ensures !Contains(part, "/*") && !Contains(part, "//") ==> r == part
    ensures Contains(part, "/*") ==> r == Strip(part[..Find(part, "/*")])
    ensures !Contains(part, "/*") && Contains(part, "//") ==> r == Strip(part[..Find(part, "//")])
  {
    if Contains(part, "/*") then Strip(part[..Find(part, "/*")])
    else if Contains(part, "//") then Strip(part[..Find(part, "//")])
    else part
  }

  /** What is left of a piece holds no block-comment opener, and no
      line-comment opener either when the piece had no block comment; a
      piece with a comment opener gets shorter. */
  lemma {:induction false} CutCommentLeavesNoOpener(part: string)
    ensures !Contains(CutComment(part), "/*")
    ensures !Contains(part, "/*") ==> !Contains(CutComment(part), "//")
    ensures Contains(part, "/*") || Contains(part, "//") ==> |CutComment(part)| < |part|
  {
    if Contains(part, "/*") {
      var f := Find(part, "/*");
      StripBeforeFirst(part, "/*", f);
      var a := StripIsSlice(part[..f]);
    } else if Contains(part, "//") {
      var f := Find(part, "//");
      StripBeforeFirst(part, "/*", f);
      StripBeforeFirst(part, "//", f);
      var a := StripIsSlice(part[..f]);
    }
  }

  /** Strip keeps a contiguous slice of its argument. */
  lemma {:induction false} StripIsSlice(x: string) returns (a: nat)
    ensures a + |Strip(x)| <= |x| && Strip(x) == x[a..a + |Strip(x)|]
  {
    LStripRemovesLeadingSpace(x);
    var l := LStrip(x);
    RStripRemovesTrailingSpace(l);
    a := |x| - |l|;
  }

  /** The stripped text before a position where t has not yet occurred
      holds no t. */
  lemma {:induction false} StripBeforeFirst(part: string, t: string, f: nat)
    requires t != [] && f <= |part|
    requires forall j :: 0 <= j < f ==> !OccursAt(part, t, j)
    ensures !Contains(Strip(part[..f]), t)
  {
    var r := Strip(part[..f]);
    var a := StripIsSlice(part[..f]);
    forall j | 0 <= j && j + |t| <= |r|
      ensures !OccursAt(r, t, j)
    {
      forall m | j <= m < j + |t|
        ensures r[m] == part[a + m]
      {
        assert r[m] == part[..f][a + m];
      }
      assert r[j..j + |t|] == part[a + j..a + j + |t|];
      assert !OccursAt(part, t, a + j);
    }
  }

  /** The tail `\s+(\w+)\s*;` of the typedef pattern tried at position q: the
      word it captures. The word run and the space runs are maximal, which is
      the only way the tail can match. */
  function TailAt(s: string, q: nat): Option<string>
    requires q <= |s|
  {
    var a := SkipSpace(s, q);
    var b := SkipWord(s, a);
    var c := SkipSpace(s, b);
    if a > q && b > a && c < |s| && s[c] == ';' then Some(s[a..b]) else None
  }

  /** The lazy group `(.*?)`: the first end position at or after q at which the
      tail matches, never running over a newline. */
  function LazyFrom(s: string, q: nat): (r: Option<(nat, string)>)
    requires q <= |s|
    ensures r.Some? ==> q <= r.value.0 <= |s|
    decreases |s| - q
  {
    var tail := TailAt(s, q);
    if tail.Some? then Some((q, tail.value))
    else if q < |s| && s[q] != '\n' then LazyFrom(s, q + 1)
    else None
  }

  /** re.match of `typedef\s+(.*?)\s+(\w+)\s*;`: the two groups. The lazy group
      starts after all the spaces; when nothing fits there, the engine gives one
      space back, which can only succeed with an empty first group. */
  function MatchTypedef(s: string): (r: Option<(string, string)>)
    ensures r.Some? ==> StartsWith(s, "typedef")
  {
    if !StartsWith(s, "typedef") then None
    else
      var p := SkipSpace(s, 7);
      if p == 7 then None
      else match LazyFrom(s, p)
        case Some((q, w)) => Some((s[p..q], w))
        case None => if p >= 9 && TailAt(s, p - 1).Some? then Some(([], TailAt(s, p - 1).value)) else None
  }

  /** A `typedef A B;` piece as the pair text `A/B`, comments removed first. */
  function TypedefSwap(part: string): (r: Option<string>)
    ensures r.Some? ==> '/' in r.value
  {
    var m := MatchTypedef(CutComment(part));
    if m.None? then None
    else
      var src := Strip(m.value.0);
      assert (src + "/" + m.value.1)[|src|] == '/';
      Some(src + "/" + m.value.1)
  }

  /** One comma-separated piece of the `Swap` setting as a pair text; None for a
      blank piece or a typedef the pattern rejects. */
  function PairText(piece: string): Option<string> {
    var p := Strip(piece);
    if p == [] then None
    else if StartsWith(p, "typedef ") then TypedefSwap(p)
    else Some(p)
  }

  /** The pair texts of the pieces, in order. */
  function PairsOf(pieces: seq<string>): (r: seq<string>)
    ensures |r| <= |pieces|
  {
    if pieces == [] then []
    else
      var acc := PairsOf(pieces[..|pieces| - 1]);
      match PairText(pieces[|pieces| - 1])
      case Some(p) => acc + [p]
      case None => acc
  }

  /** Removes one pair of surrounding double quotes; a lone quote becomes empty. */
  function Unquote(s: string): (r: string)
    ensures |r| <= |s|
    ensures !(StartsWith(s, "\"") && EndsWith(s, "\"")) ==> r == s
    ensures |s| >= 2 && s[0] == '"' && s[|s| - 1] == '"' ==> r == s[1..|s| - 1]
  {
    if StartsWith(s, "\"") && EndsWith(s, "\"") then
      if |s| == 1 then [] else s[1..|s| - 1]
    else s
  }

  /** Unquoting a quoted text gives the text back, and unquoting removes at
      most one pair of surrounding quotes. */
  lemma {:induction false} UnquoteRoundTrip(x: string)
    ensures Unquote("\"" + x + "\"") == x
    ensures Unquote(x) == x || x == "\"" || x == "\"" + Unquote(x) + "\""
  {
    var q := "\"" + x + "\"";
    assert StartsWith(q, "\"") && EndsWith(q, "\"");
    assert q[1..|q| - 1] == x;
    if StartsWith(x, "\"") && EndsWith(x, "\"") && |x| > 1 {
      assert x == [x[0]] + x[1..|x| - 1] + [x[|x| - 1]];
    }
  }

  /** A pair text split on its first `/`, both sides stripped and unquoted; None
      without a `/` or with an empty side. */
  function RuleOf(pair: string): (r: Option<Rule>)
    ensures r.Some? ==> r.value.src != [] && r.value.dest != []
    ensures '/' !in pair ==> r.None?
  {
    if '/' !in pair then None
    else
      var parts := SplitOnce(pair, '/');
      var src := Unquote(Strip(parts[0]));
      var dest := Unquote(Strip(parts[1]));
      if src != [] && dest != [] then Some(Rule(src, dest)) else None
  }

  /** A pair text is cut at its first `/`: whatever follows, including further
      slashes, belongs to the destination. The pair gives the rule of the
      stripped and unquoted sides exactly when both are non-empty. */
  lemma {:induction false} RuleOfSplitsAtFirstSlash(a: string, b: string)
    requires '/' !in a
    ensures var src := Unquote(Strip(a));
            var dest := Unquote(Strip(b));
            RuleOf(a + "/" + b) == (if src != [] && dest != [] then Some(Rule(src, dest)) else None)
  {
    IndexOfFirst(a + "/" + b, a, b, '/');
  }

  /** `A/B` with trimmed sides and no `/` in A gives the rule from unquoted A to
      unquoted B. */
  lemma {:induction false} RuleOfPair(a: string, b: string)
    requires a != [] && !IsSpace(a[0]) && !IsSpace(a[|a| - 1]) && '/' !in a
    requires b != [] && !IsSpace(b[0]) && !IsSpace(b[|b| - 1])
    requires Unquote(a) != [] && Unquote(b) != []
    ensures RuleOf(a + "/" + b) == Some(Rule(Unquote(a), Unquote(b)))
  {
    RuleOfSplitsAtFirstSlash(a, b);
    StripOfTrimmed(a);
    StripOfTrimmed(b);
  }

  /** The pair texts of consecutive runs of pieces are concatenated: each
      piece is read on its own. */
  lemma {:induction false} PairsOfConcat(ps: seq<string>, qs: seq<string>)
    ensures PairsOf(ps + qs) == PairsOf(ps) + PairsOf(qs)
    decreases |qs|
  {
    if qs == [] {
      assert ps + qs == ps;
    } else {
      var n := |qs| - 1;
      assert (ps + qs)[..|ps + qs| - 1] == ps + qs[..n];
      assert (ps + qs)[|ps + qs| - 1] == qs[n];
      PairsOfConcat(ps, qs[..n]);
      match PairText(qs[n])
      case Some(p) =>
        assert PairsOf(ps) + PairsOf(qs) == PairsOf(ps) + PairsOf(qs[..n]) + [p];
      case None =>
    }
  }

  /** Pieces that are blank after stripping give no pair text. */
  lemma {:induction false} PairsOfBlankPieces(ps: seq<string>)
    requires forall k :: 0 <= k < |ps| ==> Strip(ps[k]) == []
    ensures PairsOf(ps) == []
    decreases |ps|
  {
    if ps != [] {
      PairsOfBlankPieces(ps[..|ps| - 1]);
    }
  }

  /** Trimmed, non-empty pieces that are not typedefs are their own pair texts. */
  lemma {:induction false} PairsOfPlainPieces(ps: seq<string>)
    requires forall k :: 0 <= k < |ps| ==>
               ps[k] != [] && !IsSpace(ps[k][0]) && !IsSpace(ps[k][|ps[k]| - 1])
               && !StartsWith(ps[k], "typedef ")
    ensures PairsOf(ps) == ps
    decreases |ps|
  {
    if ps != [] {
      var n := |ps| - 1;
      PairsOfPlainPieces(ps[..n]);
      StripOfTrimmed(ps[n]);
      assert ps[..n] + [ps[n]] == ps;
    }
  }

  /** A piece `typedef A B;` gives the pair text `A/B`. */
  lemma {:induction false} PairsOfTypedefPiece(a: string, b: string)
    requires a != [] && !IsSpace(a[0]) && !IsSpace(a[|a| - 1])
    requires '/' !in a && ';' !in a && '\n' !in a
    requires b != [] && forall i :: 0 <= i < |b| ==> IsWordChar(b[i])
    ensures PairsOf(["typedef " + a + " " + b + ";"]) == [a + "/" + b]
  {
    var s := "typedef " + a + " " + b + ";";
    StripOfTrimmed(s);
    assert StartsWith(s, "typedef ");
    TypedefOfDeclaration(a, b);
    assert [s][..0] == [];
  }

  /** The rule each pair text gives, if any. */
  function ParsedPairs(pairs: seq<string>): (r: seq<Option<Rule>>)
    ensures |r| == |pairs| && forall k :: 0 <= k < |pairs| ==> r[k] == RuleOf(pairs[k])
  {
    seq(|pairs|, k requires 0 <= k < |pairs| => RuleOf(pairs[k]))
  }

  /** The rules among the first n entries, in order. */
  function Present(opts: seq<Option<Rule>>, n: nat): (r: seq<Rule>)
    requires n <= |opts|
    ensures |r| <= n
  {
    if n == 0 then []
    else if opts[n - 1].Some? then Present(opts, n - 1) + [opts[n - 1].value]
    else Present(opts, n - 1)
  }

  /** The rules of the pair texts, in encounter order. */
  function Candidates(pairs: seq<string>): (r: seq<Rule>)
    ensures |r| <= |pairs|
  {
    Present(ParsedPairs(pairs), |pairs|)
  }

  /** Every candidate rule has a non-empty source and replacement. */
  lemma {:induction false} CandidatesNonEmpty(pairs: seq<string>)
    ensures forall k :: 0 <= k < |Candidates(pairs)| ==>
              Candidates(pairs)[k].src != [] && Candidates(pairs)[k].dest != []
  {
    PresentNonEmpty(ParsedPairs(pairs), |pairs|);
  }

  lemma {:induction false} PresentNonEmpty(opts: seq<Option<Rule>>, n: nat)
    requires n <= |opts|
    requires forall k :: 0 <= k < |opts| && opts[k].Some? ==> opts[k].value.src != [] && opts[k].value.dest != []
    ensures forall k :: 0 <= k < |Present(opts, n)| ==> Present(opts, n)[k].src != [] && Present(opts, n)[k].dest != []
  {
    if n > 0 {
      PresentNonEmpty(opts, n - 1);
    }
  }

  predicate DistinctSources(rules: seq<Rule>) {
    forall i, j :: 0 <= i < j < |rules| ==> rules[i].src != rules[j].src
  }

  function SourcesOf(rules: seq<Rule>): set<string> {
    set r | r in rules :: r.src
  }

  /** Inserts r after every rule whose source is at least as long: the step of
      a stable sort on descending source length. */
  function InsertByLength(sorted: seq<Rule>, r: Rule): (t: seq<Rule>)
    ensures |t| == |sorted| + 1
  {
    if sorted == [] then [r]
    else if |sorted[0].src| >= |r.src| then [sorted[0]] + InsertByLength(sorted[1..], r)
    else [r] + sorted
  }

  /** Python's stable list.sort(key = source length, reverse = True). */
  function SortByLength(rules: seq<Rule>): (r: seq<Rule>)
    ensures |r| == |rules|
  {
    if rules == [] then []
    else InsertByLength(SortByLength(rules[..|rules| - 1]), rules[|rules| - 1])
  }

  /** The rules the `Swap` setting compiles to: at most one per comma piece,
      none without the setting. */
  function CompileRules(config: map<string, string>): (r: seq<Rule>)
    ensures |r| <= (if "Swap" in config then |Split(config["Swap"], ',')| else 0)
  {
    if "Swap" !in config then []
    else
      var c := Candidates(PairsOf(Split(config["Swap"], ',')));
      if DistinctSources(c) then SortByLength(c) else []
  }

  predicate NonIncreasing(rules: seq<Rule>) {
    forall i, j :: 0 <= i < j < |rules| ==> |rules[i].src| >= |rules[j].src|
  }

  /** The rules whose source has length n, in order. */
  function WithLength(rules: seq<Rule>, n: nat): (r: seq<Rule>)
    ensures forall k :: 0 <= k < |r| ==> |r[k].src| == n && r[k] in rules
  {
    if rules == [] then []
    else if |rules[0].src| == n then [rules[0]] + WithLength(rules[1..], n)
    else WithLength(rules[1..], n)
  }

  lemma {:induction false} InsertPermutes(sorted: seq<Rule>, r: Rule)
    ensures multiset(InsertByLength(sorted, r)) == multiset(sorted) + multiset{r}
    decreases |sorted|
  {
    if sorted != [] && |sorted[0].src| >= |r.src| {
      InsertPermutes(sorted[1..], r);
      assert sorted == [sorted[0]] + sorted[1..];
    }
  }

  lemma {:induction false} InsertKeepsOrder(sorted: seq<Rule>, r: Rule)
    requires NonIncreasing(sorted)
    ensures NonIncreasing(InsertByLength(sorted, r))
    decreases |sorted|
  {
    if sorted != [] && |sorted[0].src| >= |r.src| {
      InsertKeepsOrder(sorted[1..], r);
      InsertBelowHead(sorted, r);
      ConsNonIncreasing(sorted[0], InsertByLength(sorted[1..], r));
    } else if sorted != [] {
      forall k | 0 <= k < |sorted|
        ensures |sorted[k].src| <= |r.src|
      {
        if k > 0 {
          assert |sorted[0].src| >= |sorted[k].src|;
        }
      }
      ConsNonIncreasing(r, sorted);
    }
  }

  /** No rule's source is longer than n. */
  predicate AtMost(rules: seq<Rule>, n: nat) {
    forall k :: 0 <= k < |rules| ==> |rules[k].src| <= n
  }

  /** A rule at least as long as every rule of an ordered list can go in
      front of it. */
  lemma {:induction false} ConsNonIncreasing(x: Rule, t: seq<Rule>)
    requires NonIncreasing(t) && AtMost(t, |x.src|)
    ensures NonIncreasing([x] + t)
  {
    var u := [x] + t;
    forall i, j | 0 <= i < j < |u|
      ensures |u[i].src| >= |u[j].src|
    {
      assert u[j] == t[j - 1];
      if i > 0 {
        assert u[i] == t[i - 1];
      }
    }
  }

  /** Inserting behind the head of an ordered list keeps every rule of the
      rest no longer than the head. */
  lemma {:induction false} InsertBelowHead(sorted: seq<Rule>, r: Rule)
    requires NonIncreasing(sorted) && sorted != [] && |sorted[0].src| >= |r.src|
    ensures AtMost(InsertByLength(sorted[1..], r), |sorted[0].src|)
  {
    var t := InsertByLength(sorted[1..], r);
    InsertPermutes(sorted[1..], r);
    forall k | 0 <= k < |t|
      ensures |t[k].src| <= |sorted[0].src|
    {
      assert t[k] in multiset(sorted[1..]) + multiset{r};
      if t[k] != r {
        assert t[k] in sorted[1..];
        var m :| 0 <= m < |sorted[1..]| && sorted[1..][m] == t[k];
        assert sorted[m + 1] == t[k];
      }
    }
  }

  /** Insertion puts r after every rule of its length. */
  lemma {:induction false} InsertKeepsTies(sorted: seq<Rule>, r: Rule, n: nat)
    requires NonIncreasing(sorted)
    ensures WithLength(InsertByLength(sorted, r), n)
            == WithLength(sorted, n) + (if |r.src| == n then [r] else [])
    decreases |sorted|
  {
    if sorted != [] && |sorted[0].src| >= |r.src| {
      var t := InsertByLength(sorted[1..], r);
      InsertKeepsTies(sorted[1..], r, n);
      assert ([sorted[0]] + t)[1..] == t;
    } else if sorted != [] {
      assert ([r] + sorted)[1..] == sorted;
      if |r.src| == n {
        WithLengthAbsent(sorted, n);
      }
    }
  }

  /** In rules sorted by descending length whose first is shorter than n, no
      rule has length n. */
  lemma {:induction false} WithLengthAbsent(sorted: seq<Rule>, n: nat)
    requires NonIncreasing(sorted) && sorted != [] && |sorted[0].src| < n
    ensures WithLength(sorted, n) == []
    decreases |sorted|
  {
    if |sorted| > 1 {
      WithLengthAbsent(sorted[1..], n);
    }
  }

  /** The sort orders by non-increasing source length, is a permutation, and is
      stable: the rules of each length keep their relative order. */
  lemma {:induction false} SortByLengthIsStableSort(rules: seq<Rule>)
    ensures NonIncreasing(SortByLength(rules))
    ensures multiset(SortByLength(rules)) == multiset(rules)
    ensures forall n :: WithLength(SortByLength(rules), n) == WithLength(rules, n)
    decreases |rules|
  {
    if rules != [] {
      var init := rules[..|rules| - 1];
      var r := rules[|rules| - 1];
      SortByLengthIsStableSort(init);
      InsertKeepsOrder(SortByLength(init), r);
      InsertPermutes(SortByLength(init), r);
      assert rules == init + [r];
      forall n
        ensures WithLength(SortByLength(rules), n) == WithLength(rules, n)
      {
        InsertKeepsTies(SortByLength(init), r, n);
        WithLengthAppend(init, r, n);
      }
    }
  }

  lemma {:induction false} WithLengthAppend(rules: seq<Rule>, r: Rule, n: nat)
    ensures WithLength(rules + [r], n) == WithLength(rules, n) + (if |r.src| == n then [r] else [])
    decreases |rules|
  {
    if rules != [] {
      assert (rules + [r])[1..] == rules[1..] + [r];
      WithLengthAppend(rules[1..], r, n);
    }
  }

  /** Rules with pairwise distinct sources stay so under any permutation. */
  lemma {:induction false} DistinctUnderPermutation(a: seq<Rule>, b: seq<Rule>)
    requires multiset(a) == multiset(b) && DistinctSources(a)
    ensures DistinctSources(b)
  {
    forall i, j | 0 <= i < j < |b|
      ensures b[i].src != b[j].src
    {
      if b[i].src == b[j].src {
        assert b[i] in multiset(a) && b[j] in multiset(a);
        var i' :| 0 <= i' < |a| && a[i'] == b[i];
        var j' :| 0 <= j' < |a| && a[j'] == b[j];
        if i' == j' {
          TwoCopies(b, i, j);
          CountAtMostOne(a, a[i']);
          assert false;
        }
      }
    }
  }

  lemma {:induction false} TwoCopies(b: seq<Rule>, i: nat, j: nat)
    requires i < j < |b| && b[i] == b[j]
    ensures multiset(b)[b[i]] >= 2
  {
    assert b == b[..i] + [b[i]] + b[i + 1..j] + [b[j]] + b[j + 1..];
  }

  /** In rules with distinct sources a rule occurs at most once. */
  lemma {:induction false} CountAtMostOne(a: seq<Rule>, x: Rule)
    requires DistinctSources(a)
    ensures multiset(a)[x] <= 1
    decreases |a|
  {
    if a != [] {
      assert a == [a[0]] + a[1..];
      CountAtMostOne(a[1..], x);
      if a[0] == x {
        assert x !in a[1..];
      }
    }
  }

  /** The compiled rules have non-empty sides and pairwise distinct sources, are
      ordered by non-increasing source length with ties in encounter order, and
      are exactly the candidate rules when no source repeats. */
  lemma {:induction false} CompiledRules(config: map<string, string>)
    ensures var rules := CompileRules(config);
            && (forall k :: 0 <= k < |rules| ==> rules[k].src != [] && rules[k].dest != [])
            && DistinctSources(rules)
            && NonIncreasing(rules)
    ensures "Swap" !in config ==> CompileRules(config) == []
    ensures "Swap" in config ==>
              var c := Candidates(PairsOf(Split(config["Swap"], ',')));
              && (DistinctSources(c) ==>
                    && multiset(CompileRules(config)) == multiset(c)
                    && forall n :: WithLength(CompileRules(config), n) == WithLength(c, n))
              && (!DistinctSources(c) ==> CompileRules(config) == [])
  {
    if "Swap" in config {
      var c := Candidates(PairsOf(Split(config["Swap"], ',')));
      if DistinctSources(c) {
        var s := SortByLength(c);
        SortByLengthIsStableSort(c);
        CandidatesNonEmpty(PairsOf(Split(config["Swap"], ',')));
        DistinctUnderPermutation(c, s);
        forall k | 0 <= k < |s|
          ensures s[k].src != [] && s[k].dest != []
        {
          assert s[k] in multiset(c);
        }
      }
    }
  }

  /** The candidate rules of a prefix of the pair texts are a prefix of those
      of all of them. */
  lemma {:induction false} PresentOfPrefix(opts: seq<Option<Rule>>, m: nat, n: nat)
    requires m <= n <= |opts|
    ensures |Present(opts, m)| <= |Present(opts, n)|
    ensures Present(opts, m) == Present(opts, n)[..|Present(opts, m)|]
    decreases n
  {
    if m < n {
      PresentOfPrefix(opts, m, n - 1);
      var c := Present(opts, m);
      var ci := Present(opts, n - 1);
      var all := Present(opts, n);
      assert c == ci[..|c|];
      assert ci == all[..|ci|];
      assert all[..|ci|][..|c|] == all[..|c|];
    } else {
      var c := Present(opts, m);
      assert c[..|c|] == c;
    }
  }


  /** A typedef declaration `typedef A B;` with a single space on each side,
      where A has no comment opener, no newline and no semicolon and B is a
      word, compiles to the pair text `A/B`. */
  lemma {:induction false} TypedefOfDeclaration(a: string, b: string)
    requires a != [] && !IsSpace(a[0]) && !IsSpace(a[|a| - 1])
    requires '/' !in a && ';' !in a && '\n' !in a
    requires b != [] && forall i :: 0 <= i < |b| ==> IsWordChar(b[i])
    ensures TypedefSwap("typedef " + a + " " + b + ";") == Some(a + "/" + b)
  {
    var s := "typedef " + a + " " + b + ";";
    NoCommentOpener(s, a, b);
    assert CutComment(s) == s;
    MatchDeclaration(s, a, b);
    StripOfTrimmed(a);
  }

  lemma {:induction false} MatchDeclaration(s: string, a: string, b: string)
    requires s == "typedef " + a + " " + b + ";"
    requires a != [] && !IsSpace(a[0]) && !IsSpace(a[|a| - 1])
    requires ';' !in a && '\n' !in a
    requires b != [] && forall i :: 0 <= i < |b| ==> IsWordChar(b[i])
    ensures MatchTypedef(s) == Some((a, b))
  {
    var q := 8 + |a|;
    assert s[..7] == "typedef";
    assert s[7] == ' ' && s[8] == a[0];
    assert SkipSpace(s, 8) == 8;
    assert SkipSpace(s, 7) == 8;
    assert s[8..q] == a;
    TailAtDeclaration(s, a, b);
    NoEarlierTail(s, a, b);
    forall k | 8 <= k < q
      ensures s[k] != '\n'
    {
      assert s[k] == a[k - 8];
    }
    LazyFromFinds(s, 8, q, b);
  }

  lemma {:induction false} NoCommentOpener(s: string, a: string, b: string)
    requires s == "typedef " + a + " " + b + ";"
    requires '/' !in a && forall i :: 0 <= i < |b| ==> IsWordChar(b[i])
    ensures !Contains(s, "/*") && !Contains(s, "//")
  {
    forall i | 0 <= i < |s|
      ensures s[i] != '/'
    {
      if 8 <= i < 8 + |a| {
        assert s[i] == a[i - 8];
      } else if 8 + |a| + 1 <= i < |s| - 1 {
        assert s[i] == b[i - 9 - |a|];
      }
    }
    forall j
      ensures !OccursAt(s, "/*", j) && !OccursAt(s, "//", j)
    {
      if 0 <= j && j + 2 <= |s| {
        assert s[j..j + 2][0] == s[j];
      }
    }
  }

  lemma {:induction false} TailAtDeclaration(s: string, a: string, b: string)
    requires s == "typedef " + a + " " + b + ";"
    requires b != [] && forall i :: 0 <= i < |b| ==> IsWordChar(b[i])
    ensures TailAt(s, 8 + |a|) == Some(b)
  {
    var q := 8 + |a|;
    assert s[q] == ' ' && s[q + 1..q + 1 + |b|] == b && s[q + 1 + |b|] == ';';
    assert !IsWordChar(s[q + 1 + |b|]) && !IsSpace(s[q + 1 + |b|]);
    assert !IsSpace(s[q + 1]) by { assert s[q + 1] == b[0]; }
    assert SkipSpace(s, q) == q + 1 by {
      assert SkipSpace(s, q + 1) == q + 1;
    }
    SkipWordOver(s, q + 1, q + 1 + |b|);
  }

  lemma {:induction false} SkipWordOver(s: string, i: nat, j: nat)
    requires i <= j < |s| && !IsWordChar(s[j])
    requires forall k :: i <= k < j ==> IsWordChar(s[k])
    ensures SkipWord(s, i) == j
    decreases j - i
  {
    if i < j {
      SkipWordOver(s, i + 1, j);
    }
  }

  /** No position inside A can end the lazy group. */
  lemma {:induction false} NoEarlierTail(s: string, a: string, b: string)
    requires s == "typedef " + a + " " + b + ";"
    requires a != [] && !IsSpace(a[|a| - 1]) && ';' !in a
    requires b != [] && forall i :: 0 <= i < |b| ==> IsWordChar(b[i])
    ensures forall k :: 8 <= k < 8 + |a| ==> TailAt(s, k).None?
  {
    var sp := 8 + |a|;
    assert s[sp - 1] == a[|a| - 1] && s[sp] == ' ' && s[sp + 1] == b[0];
    forall m | 8 <= m < sp
      ensures s[m] != ';'
    {
      assert s[m] == a[m - 8];
    }
    forall k | 8 <= k < sp
      ensures TailAt(s, k).None?
    {
      NoTailBefore(s, k, sp);
    }
  }

  /** The tail cannot match at k when the text from k up to a single space
      at sp holds no semicolon, does not end in a space, and a word follows
      the space. */
  lemma {:induction false} NoTailBefore(s: string, k: nat, sp: nat)
    requires k < sp && sp + 1 < |s|
    requires s[sp] == ' ' && !IsSpace(s[sp - 1]) && IsWordChar(s[sp + 1])
    requires forall m :: k <= m < sp ==> s[m] != ';'
    ensures TailAt(s, k).None?
  {
    var x := SkipSpace(s, k);
    var y := SkipWord(s, x);
    var z := SkipSpace(s, y);
    SkipSpaceStops(s, k);
    SkipWordStops(s, x);
    SkipSpaceStops(s, y);
    if x > k && y > x {
      assert x < sp;
      assert y <= sp;
      if y < sp {
        assert z < sp;
      } else {
        assert !IsSpace(s[sp + 1]);
        assert z == sp + 1;
      }
    }
  }

  /** The lazy group ends at a position where the tail matches, with no
      earlier such position and no newline before it. */
  lemma {:induction false} LazyFromIsFirstTail(s: string, q: nat)
    requires q <= |s| && LazyFrom(s, q).Some?
    ensures var (t, w) := LazyFrom(s, q).value;
            && TailAt(s, t) == Some(w)
            && (forall k :: q <= k < t ==> s[k] != '\n')
            && (forall k :: q <= k < t ==> TailAt(s, k).None?)
    decreases |s| - q
  {
    if TailAt(s, q).None? {
      LazyFromIsFirstTail(s, q + 1);
    }
  }

  /** Conversely, the first tail position before any newline is where the lazy
      group ends. */
  lemma {:induction false} LazyFromFinds(s: string, q: nat, target: nat, w: string)
    requires q <= target <= |s| && TailAt(s, target) == Some(w)
    requires forall k :: q <= k < target ==> TailAt(s, k).None?
    requires forall k :: q <= k < target ==> s[k] != '\n'
    ensures LazyFrom(s, q) == Some((target, w))
    decreases target - q
  {
    if q < target {
      assert TailAt(s, q).None? && s[q] != '\n';
      LazyFromFinds(s, q + 1, target, w);
    }
  }

  /** The rules `parse_swaps` returns for the configuration. */
  method ParseSwaps(config: map<string, string>) returns (rules: seq<Rule>)
    ensures rules == CompileRules(config)
  {
    rules := [];
    if "Swap" !in config {
      return;
    }
    var pairs := CollectPairs(Split(config["Swap"], ','));
    var swaps, distinct := CollectRules(pairs);
    if !distinct {
      return [];
    }
    rules := SortByLength(swaps);
  }

  /** The first pass of `parse_swaps`: blank pieces are dropped and typedef
      pieces rewritten. */
  method CollectPairs(pieces: seq<string>) returns (pairs: seq<string>)
    ensures pairs == PairsOf(pieces)
  {
    pairs := [];
    var i := 0;
    while i < |pieces|
      invariant 0 <= i <= |pieces|
      invariant pairs == PairsOf(pieces[..i])
    {
      assert pieces[..i + 1][..i] == pieces[..i];
      var part := Strip(pieces[i]);
      if part != [] {
        if StartsWith(part, "typedef ") {
          var swap := TypedefSwap(part);
          if swap.Some? {
            pairs := pairs + [swap.value];
          }
        } else {
          pairs := pairs + [part];
        }
      }
      i := i + 1;
    }
    assert pieces[..i] == pieces;
  }

  /** The second pass of `parse_swaps`: each pair becomes a rule, stopping at
      the first repeated source. */
  method CollectRules(pairs: seq<string>) returns (swaps: seq<Rule>, distinct: bool)
    ensures distinct == DistinctSources(Candidates(pairs))
    ensures distinct ==> swaps == Candidates(pairs)
  {
    ghost var opts := ParsedPairs(pairs);
    var sources: set<string> := {};
    swaps := [];
    var k := 0;
    while k < |pairs|
      invariant 0 <= k <= |pairs|
      invariant swaps == Present(opts, k)
      invariant sources == SourcesOf(swaps)
      invariant DistinctSources(swaps)
    {
      assert opts[k] == RuleOf(pairs[k]);
      var swaps', sources', repeated := AddPair(pairs[k], swaps, sources);
      if repeated {
        RepeatedSourceIsFinal(opts, k, swaps, opts[k].value);
        return swaps, false;
      }
      swaps, sources := swaps', sources';
      k := k + 1;
    }
    distinct := true;
  }

  /** One pair of the second pass: its rule, if it has one, is appended and
      its source recorded, unless the source was seen before. */
  method AddPair(pair: string, swaps: seq<Rule>, sources: set<string>)
    returns (swaps': seq<Rule>, sources': set<string>, repeated: bool)
    requires sources == SourcesOf(swaps) && DistinctSources(swaps)
    ensures repeated <==> RuleOf(pair).Some? && RuleOf(pair).value.src in sources
    ensures !repeated ==> swaps' == swaps + (if RuleOf(pair).Some? then [RuleOf(pair).value] else [])
    ensures !repeated ==> sources' == SourcesOf(swaps') && DistinctSources(swaps')
  {
    swaps', sources', repeated := swaps, sources, false;
    var rule := RuleOf(pair);
    if rule.Some? {
      if rule.value.src in sources {
        repeated := true;
        return;
      }
      AppendFreshSource(swaps, rule.value);
      sources' := sources + {rule.value.src};
      swaps' := swaps + [rule.value];
    }
  }

  lemma {:induction false} AppendFreshSource(rules: seq<Rule>, r: Rule)
    requires DistinctSources(rules) && r.src !in SourcesOf(rules)
    ensures DistinctSources(rules + [r]) && SourcesOf(rules + [r]) == SourcesOf(rules) + {r.src}
  {
    forall i | 0 <= i < |rules|
      ensures rules[i].src != r.src
    {
      assert rules[i] in rules;
    }
  }

  lemma {:induction false} RepeatedSourceIsFinal(opts: seq<Option<Rule>>, k: nat, swaps: seq<Rule>, r: Rule)
    requires k < |opts| && swaps == Present(opts, k)
    requires opts[k] == Some(r) && r.src in SourcesOf(swaps)
    ensures !DistinctSources(Present(opts, |opts|))
  {
    var c := Present(opts, k + 1);
    assert c == swaps + [r];
    PresentOfPrefix(opts, k + 1, |opts|);
    var all := Present(opts, |opts|);
    var i := SourceIndex(swaps, r.src);
    assert all[i] == c[i] && all[|swaps|] == c[|swaps|];
  }

  lemma {:induction false} SourceIndex(rules: seq<Rule>, src: string) returns (i: nat)
    requires src in SourcesOf(rules)
    ensures i < |rules| && rules[i].src == src
  {
    var x :| x in rules && x.src == src;
    i :| i < |rules| && rules[i] == x;
  }
}
