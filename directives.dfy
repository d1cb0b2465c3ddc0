/**
 * The directive evaluator of the configuration reader: `#define`, `#ifdef`,
 * `#ifndef`, `#if`, `#elif`, `#else` and `#endif` over a macro table and a
 * stack of branch outcomes, with the threaded "skip the current level" flag.
 *
 * `Step` is the meaning of one directive line; the class `Preprocessor` holds
 * the table and the stack that the source mutates in place and is proved
 * against `Step`. Evaluating a `#if`/`#elif` expression (macro substitution
 * followed by Python's eval) is an oracle parameter returning an
 * `Evaluation`.
 */
module Directives {
  import opened Wrappers
  import opened Text

  type Macros = map<string, string>

  /** What becomes of a `#if`/`#elif` expression: its truth value; an `eval`
      failure, which the source catches and counts as false; or a macro value
      that `re.sub` rejects as a replacement template, which the source does
      not catch. */
  datatype Evaluation = Value(b: bool) | EvalError | SubstitutionError

  /** Substitutes the macros into an expression and evaluates it. The names
      come in the order they were first defined, the order in which the source
      substitutes them: a value that mentions a later macro is substituted
      again, one that mentions an earlier macro is not. */
  type CondEval = (Macros, seq<string>, string) -> Evaluation

  /** The evaluator context threaded from one directive to the next: the macro
      table, its names in first-definition order (the insertion order of the
      source's dict), the condition stack and the skip flag. */
  datatype DirState = DirState(macros: Macros, order: seq<string>, stack: seq<bool>, skip: bool)

  const InitialDirState := DirState(map[], [], [], false)

  /** The directive keywords the configuration reader accepts. */
  const Keywords: seq<string> := ["ifdef", "ifndef", "if", "elif", "else", "endif", "define"]

  /** The branch a directive line takes, in the order the source tests them.
      Names are already stripped; an argument of `defined(...)` is None when the
      pattern did not match. */
  datatype Directive =
    | Define(rest: string)
    | Ifdef(name: string)
    | Ifndef(name: string)
    | IfDefined(arg: Option<string>)
    | IfExpr(expr: string)
    | ElifDefined(arg: Option<string>)
    | ElifExpr(expr: string)
    | Else
    | Endif
    | Unhandled

  function Last(s: seq<bool>): bool
    requires s != []
  {
    s[|s| - 1]
  }

  /** Python any(s). */
  predicate AnyTrue(s: seq<bool>) {
    true in s
  }

  /** The line is accepted by the keyword check: its first word after `#` is a
      directive keyword. */
  predicate KeywordValid(line: string) {
    match FirstWord(DropFirst(line))
    case None => false
    case Some(w) => w in Keywords
  }

  /** `defined\s*\(([^)]+)\)` tried at position i: the text between the
      parentheses. */
  function DefinedAt(s: string, i: nat): (r: Option<string>)
    requires i <= |s|
    ensures r.Some? ==> r.value != [] && ')' !in r.value && OccursAt(s, "defined", i)
  {
    if !OccursAt(s, "defined", i) then None
    else
      var p := SkipSpace(s, i + 7);
      if p < |s| && s[p] == '(' && ')' in s[p + 1..] then
        var q := p + 1 + IndexOf(s[p + 1..], ')');
        if q > p + 1 then Some(s[p + 1..q]) else None
      else None
  }

  /** re.search of the `defined(...)` pattern from position i: the leftmost
      position where it matches. */
  function SearchDefined(s: string, i: nat): (r: Option<string>)
    requires i <= |s|
    ensures r.Some? ==> r.value != [] && ')' !in r.value
    decreases |s| - i
  {
    var here := DefinedAt(s, i);
    if here.Some? then here
    else if i < |s| then SearchDefined(s, i + 1)
    else None
  }

  /** The text at i reads `defined`, white space up to p, `(`, g, `)`, with g
      non-empty and free of `)`. */
  predicate DefinedShape(s: string, i: nat, p: nat, g: string) {
    && OccursAt(s, "defined", i)
    && i + 7 <= p && p + |g| + 2 <= |s|
    && (forall k :: i + 7 <= k < p ==> IsSpace(s[k]))
    && s[p] == '(' && s[p + 1..p + 1 + |g|] == g && s[p + 1 + |g|] == ')'
    && g != [] && ')' !in g
  }

  /** The pattern matches at i with capture g exactly when the text there is
      `defined`, white space, `(`, g and `)`: the space run and the capture
      cannot give anything back, since neither `(` is white space nor `)` is
      in `[^)]`. */
  lemma {:induction false} DefinedAtIsShape(s: string, i: nat, g: string)
    requires i <= |s|
    ensures DefinedAt(s, i) == Some(g) <==> exists p :: DefinedShape(s, i, p, g)
  {
    if DefinedAt(s, i) == Some(g) {
      var p := SkipSpace(s, i + 7);
      SkipSpaceStops(s, i + 7);
      var idx := IndexOf(s[p + 1..], ')');
      assert s[p + 1..][..idx] == s[p + 1..p + 1 + idx];
      assert DefinedShape(s, i, p, g);
    }
    if exists p :: DefinedShape(s, i, p, g) {
      var p :| DefinedShape(s, i, p, g);
      DefinedShapeAt(s, i, p, g);
    }
  }

  /** The `if` half of DefinedAtIsShape, for a given p. */
  lemma {:induction false} DefinedShapeAt(s: string, i: nat, p: nat, g: string)
    requires DefinedShape(s, i, p, g)
    ensures DefinedAt(s, i) == Some(g)
  {
    var j := SkipSpace(s, i + 7);
    SkipSpaceStops(s, i + 7);
    assert !IsSpace(s[p]);
    assert j == p;
    var t := s[p + 1..];
    assert t[|g|] == ')' && t[..|g|] == g;
    IndexOfAt(t, ')', |g|);
  }

  /** re.search finds g from i exactly when some position j at or after i
      matches with capture g and no position between i and j matches. */
  lemma {:induction false} SearchDefinedIsLeftmost(s: string, i: nat, g: string)
    requires i <= |s|
    ensures SearchDefined(s, i) == Some(g) <==>
              exists j :: i <= j <= |s| && DefinedAt(s, j) == Some(g)
                          && forall k :: i <= k < j ==> DefinedAt(s, k).None?
  {
    if SearchDefined(s, i) == Some(g) {
      var j := SearchDefinedFound(s, i);
    }
    if exists j :: i <= j <= |s| && DefinedAt(s, j) == Some(g) && forall k :: i <= k < j ==> DefinedAt(s, k).None? {
      var j :| i <= j <= |s| && DefinedAt(s, j) == Some(g) && forall k :: i <= k < j ==> DefinedAt(s, k).None?;
      SearchDefinedFinds(s, i, j, g);
    }
  }

  /** re.search finds nothing from i exactly when no position at or after i
      matches. */
  lemma {:induction false} SearchDefinedMissing(s: string, i: nat)
    requires i <= |s|
    ensures SearchDefined(s, i).None? <==> forall j :: i <= j <= |s| ==> DefinedAt(s, j).None?
    decreases |s| - i
  {
    if i < |s| {
      SearchDefinedMissing(s, i + 1);
    }
  }

  /** A found capture comes from a position with no match before it. */
  lemma {:induction false} SearchDefinedFound(s: string, i: nat) returns (j: nat)
    requires i <= |s| && SearchDefined(s, i).Some?
    ensures i <= j <= |s| && DefinedAt(s, j) == SearchDefined(s, i)
    ensures forall k :: i <= k < j ==> DefinedAt(s, k).None?
    decreases |s| - i
  {
    if DefinedAt(s, i).Some? {
      j := i;
    } else {
      j := SearchDefinedFound(s, i + 1);
    }
  }

  /** The first matching position is the one found. */
  lemma {:induction false} SearchDefinedFinds(s: string, i: nat, j: nat, g: string)
    requires i <= j <= |s| && DefinedAt(s, j) == Some(g)
    requires forall k :: i <= k < j ==> DefinedAt(s, k).None?
    ensures SearchDefined(s, i) == Some(g)
    decreases j - i
  {
    if i < j {
      SearchDefinedFinds(s, i + 1, j, g);
    }
  }

  /** The stripped macro name inside the first `defined(...)`, if any. */
  function DefinedName(content: string): Option<string> {
    match SearchDefined(content, 0)
    case Some(g) => Some(Strip(g))
    case None => None
  }

  /** The dispatch on the text after `#` (left-stripped): a `#define` keeps the
      text after its keyword; a line falls through every branch exactly when it
      starts with none of the seven keyword prefixes; a `#if` or `#elif` is an
      expression test only when the line does not mention `defined`
      (`defined(` for `#elif`). */
  function Classify(content: string): (d: Directive)
    ensures d.Define? ==> content == "define " + d.rest
    ensures d.Unhandled? <==>
              && !StartsWith(content, "define ") && !StartsWith(content, "ifdef ")
              && !StartsWith(content, "ifndef ") && !StartsWith(content, "if ")
              && !StartsWith(content, "elif ") && !StartsWith(content, "else")
              && !StartsWith(content, "endif")
    ensures d.IfExpr? ==> StartsWith(content, "if ") && !Contains(content, "defined")
    ensures d.ElifExpr? ==> StartsWith(content, "elif ") && !Contains(content, "defined(")
  {
    if StartsWith(content, "define ") then
      assert content == content[..7] + content[7..];
      Define(content[7..])
    else if StartsWith(content, "ifdef ") then Ifdef(Strip(content[6..]))
    else if StartsWith(content, "ifndef ") then Ifndef(Strip(content[7..]))
    else if StartsWith(content, "if ") && Contains(content, "defined") then IfDefined(DefinedName(content))
    else if StartsWith(content, "if ") then IfExpr(Strip(content[3..]))
    else if StartsWith(content, "elif ") then
      if Contains(content, "defined(") then ElifDefined(DefinedName(content))
      else ElifExpr(Strip(content[5..]))
    else if StartsWith(content, "else") then Else
    else if StartsWith(content, "endif") then Endif
    else Unhandled
  }

  /** The text after `#` with its leading white space removed. */
  function Content(line: string): string {
    LStrip(DropFirst(line))
  }

  /** An evaluation that fails counts as false. */
  function Truth(cond: CondEval, s: DirState, expr: string): bool {
    match cond(s.macros, s.order, expr)
    case Value(b) => b
    case _ => false
  }

  /** Opening a branch: the new entry is forced false inside a false branch. */
  function Push(s: DirState, test: bool): DirState {
    var top := if s.stack != [] && !Last(s.stack) then false else test;
    s.(stack := s.stack + [top], skip := !top)
  }

  /** Replacing the innermost entry. */
  function SetTop(s: DirState, b: bool): DirState
    requires s.stack != []
  {
    s.(stack := s.stack[..|s.stack| - 1] + [b], skip := !b)
  }

  /** `#define NAME [VALUE]`: ignored inside a skipped branch. */
  function DefineStep(s: DirState, rest: string): DirState {
    if s.skip then s
    else
      var parts := SplitOnce(Strip(rest), ' ');
      var order := if parts[0] in s.macros then s.order else s.order + [parts[0]];
      s.(macros := s.macros[parts[0] := if |parts| > 1 then parts[1] else "1"], order := order)
  }

  /** General `#if EXPR`: not evaluated inside a false branch. */
  function IfExprStep(s: DirState, expr: string, cond: CondEval): DirState {
    if s.stack != [] && !Last(s.stack) then s.(stack := s.stack + [false], skip := true)
    else
      var b := Truth(cond, s, expr);
      s.(stack := s.stack + [b], skip := !b)
  }

  /** `#elif`: `test` is None when a `defined(` argument did not match. */
  function ElifStep(s: DirState, test: Option<bool>): DirState {
    if s.stack == [] then s
    else if AnyTrue(s.stack[..|s.stack| - 1]) then SetTop(s, false)
    else if test.None? then s
    else SetTop(s, test.value)
  }

  function ElseStep(s: DirState): DirState {
    if s.stack == [] then s
    else if AnyTrue(s.stack[..|s.stack| - 1]) then s.(skip := true)
    else SetTop(s, !Last(s.stack))
  }

  function EndifStep(s: DirState): DirState {
    var rest := if s.stack == [] then [] else s.stack[..|s.stack| - 1];
    s.(stack := rest, skip := rest != [] && !Last(rest))
  }

  /** The effect of a classified directive on the evaluator context: the depth
      changes by at most one and no entry below the innermost one changes. */
  function Apply(s: DirState, d: Directive, cond: CondEval): (r: DirState)
    ensures |s.stack| - 1 <= |r.stack| <= |s.stack| + 1
    ensures s.stack != [] ==> r.stack[..|s.stack| - 1] == s.stack[..|s.stack| - 1]
  {
    match d
    case Define(rest) => DefineStep(s, rest)
    case Ifdef(name) => Push(s, name in s.macros)
    case Ifndef(name) => Push(s, name !in s.macros)
    case IfDefined(arg) => if arg.None? then s else Push(s, arg.value in s.macros)
    case IfExpr(expr) => IfExprStep(s, expr, cond)
    case ElifDefined(arg) => ElifStep(s, if arg.None? then None else Some(arg.value in s.macros))
    case ElifExpr(expr) => ElifStep(s, Some(Truth(cond, s, expr)))
    case Else => ElseStep(s)
    case Endif => EndifStep(s)
    case Unhandled => s
  }

  /** The effect of one directive line on the evaluator context: only a
      `#define` line touches the macro table, and the depth changes by at most
      one. */
  function Step(s: DirState, line: string, cond: CondEval): (r: DirState)
    ensures !StartsWith(Content(line), "define ") ==> r.macros == s.macros
    ensures |s.stack| - 1 <= |r.stack| <= |s.stack| + 1
  {
    var d := Classify(Content(line));
    MacrosOnlyGrow(s, d, cond);
    Apply(s, d, cond)
  }

  /** The directive evaluates an expression whose macro substitution raises:
      a `#if EXPR` outside a false branch, or a `#elif EXPR` under no true
      enclosing entry. The exception escapes the directive. */
  predicate Raises(s: DirState, d: Directive, cond: CondEval) {
    match d
    case IfExpr(expr) => (s.stack == [] || Last(s.stack)) && cond(s.macros, s.order, expr).SubstitutionError?
    case ElifExpr(expr) =>
      s.stack != [] && !AnyTrue(s.stack[..|s.stack| - 1]) && cond(s.macros, s.order, expr).SubstitutionError?
    case _ => false
  }

  /** The directive line raises instead of updating the context. */
  predicate StepRaises(s: DirState, line: string, cond: CondEval) {
    Raises(s, Classify(Content(line)), cond)
  }

  /** The directives that open a branch and push one entry. */
  predicate Opens(d: Directive) {
    d.Ifdef? || d.Ifndef? || (d.IfDefined? && d.arg.Some?) || d.IfExpr?
  }

  /** The test an opening directive would push in an enclosing true branch. */
  function OpenTest(d: Directive, s: DirState, cond: CondEval): bool
    requires Opens(d)
  {
    match d
    case Ifdef(name) => name in s.macros
    case Ifndef(name) => name !in s.macros
    case IfDefined(arg) => arg.value in s.macros
    case IfExpr(expr) => Truth(cond, s, expr)
  }

  /** The skip flag says exactly that the innermost entry is false. */
  predicate SkipMatchesTop(s: DirState) {
    s.skip == (s.stack != [] && !Last(s.stack))
  }

  /** `#define` inside a skipped branch changes nothing. */
  lemma {:induction false} DefineInSkippedBranch(s: DirState, d: Directive, cond: CondEval)
    requires s.skip && d.Define?
    ensures Apply(s, d, cond) == s
  {
  }

  /** Outside a skipped branch `#define NAME VALUE` binds NAME to the text after
      the first space, and `#define NAME` binds it to "1". */
  lemma {:induction false} DefineBindsName(s: DirState, d: Directive, cond: CondEval)
    requires !s.skip && d.Define?
    ensures var t := Strip(d.rest);
            var r := Apply(s, d, cond);
            && r.stack == s.stack && r.skip == s.skip
            && (' ' !in t ==> r.macros == s.macros[t := "1"])
            && (' ' in t ==> exists name, value :: t == name + " " + value && ' ' !in name
                                                  && r.macros == s.macros[name := value])
  {
    var t := Strip(d.rest);
    var parts := SplitOnce(t, ' ');
    if ' ' in t {
      assert t == parts[0] + " " + parts[1];
    }
  }

  /** Macros are never removed, and only `#define` changes the table. */
  lemma {:induction false} MacrosOnlyGrow(s: DirState, d: Directive, cond: CondEval)
    ensures s.macros.Keys <= Apply(s, d, cond).macros.Keys
    ensures !d.Define? ==> Apply(s, d, cond).macros == s.macros
  {
  }

  /** The order lists every macro name exactly once. */
  ghost predicate DefinitionOrder(s: DirState) {
    && (forall name :: name in s.macros <==> name in s.order)
    && (forall i, j :: 0 <= i < j < |s.order| ==> s.order[i] != s.order[j])
  }

  /** A directive keeps the order listing every macro once; a name keeps the
      place of its first definition, and a newly defined name is appended. */
  lemma {:induction false} ApplyKeepsDefinitionOrder(s: DirState, d: Directive, cond: CondEval)
    ensures var r := Apply(s, d, cond);
            && (DefinitionOrder(s) ==> DefinitionOrder(r))
            && |s.order| <= |r.order| <= |s.order| + 1 && r.order[..|s.order|] == s.order
            && (|r.order| > |s.order| ==> d.Define? && r.order[|s.order|] !in s.macros)
  {
    var r := Apply(s, d, cond);
    if d.Define? && !s.skip {
      var name := SplitOnce(Strip(d.rest), ' ')[0];
      if name !in s.macros {
        assert r.order == s.order + [name];
        assert r.order[..|s.order|] == s.order;
        if DefinitionOrder(s) {
          forall n
            ensures n in r.macros <==> n in r.order
          {
            assert n in r.order <==> n in s.order || n == name;
          }
        }
      }
    } else {
      assert r.order == s.order;
    }
  }

  /** The same definitions in another order give the same table but another
      substitution order: `#define A B` then `#define B 1` lists A first, the
      other way round lists B first, so an expression `A` may evaluate
      differently after each. */
  lemma {:induction false} DefinitionOrderFollowsFile(cond: CondEval)
    ensures var s1 := Apply(Apply(InitialDirState, Define("A B"), cond), Define("B 1"), cond);
            var s2 := Apply(Apply(InitialDirState, Define("B 1"), cond), Define("A B"), cond);
            && s1.macros == s2.macros == map["A" := "B", "B" := "1"]
            && s1.order == ["A", "B"] && s2.order == ["B", "A"]
  {
    StripOfTrimmed("A B");
    StripOfTrimmed("B 1");
    IndexOfFirst("A B", "A", "B", ' ');
    IndexOfFirst("B 1", "B", "1", ' ');
  }

  /** `#ifdef`, `#ifndef`, a matching `#if defined(...)` and a general `#if` push
      exactly one entry: their test when the enclosing entry is true (or there is
      none), false otherwise; the skip flag then mirrors the new entry. */
  lemma {:induction false} OpeningPushesOneEntry(s: DirState, d: Directive, cond: CondEval)
    requires Opens(d)
    ensures var r := Apply(s, d, cond);
            && |r.stack| == |s.stack| + 1 && r.stack[..|s.stack|] == s.stack
            && Last(r.stack) == ((s.stack == [] || Last(s.stack)) && OpenTest(d, s, cond))
            && r.skip == !Last(r.stack)
            && r.macros == s.macros
  {
    var r := Apply(s, d, cond);
    assert r.stack[..|s.stack|] == s.stack;
  }

  /** A general `#if` inside a false branch is not evaluated: its outcome does
      not depend on the evaluator at all. */
  lemma {:induction false} FalseBranchDoesNotEvaluate(s: DirState, d: Directive, c1: CondEval, c2: CondEval)
    requires d.IfExpr? && s.stack != [] && !Last(s.stack)
    ensures Apply(s, d, c1) == Apply(s, d, c2)
  {
  }

  /** An expression that cannot be evaluated opens a false branch instead of
      failing. */
  lemma {:induction false} FailedEvaluationPushesFalse(s: DirState, d: Directive, cond: CondEval)
    requires d.IfExpr?
    requires cond(s.macros, s.order, d.expr).EvalError?
    ensures Apply(s, d, cond).stack == s.stack + [false]
    ensures Apply(s, d, cond).skip
  {
  }

  /** With no open branch, `#elif`, `#else` and `#endif` leave the stack as it is. */
  lemma {:induction false} UnpairedDirectiveKeepsStack(s: DirState, d: Directive, cond: CondEval)
    requires s.stack == []
    requires d.ElifDefined? || d.ElifExpr? || d.Else? || d.Endif?
    ensures Apply(s, d, cond).stack == [] && Apply(s, d, cond).macros == s.macros
    ensures !d.Endif? ==> Apply(s, d, cond) == s
  {
  }

  /** `#endif` pops exactly one entry and recomputes the skip flag from the new top. */
  lemma {:induction false} EndifPopsOneEntry(s: DirState, d: Directive, cond: CondEval)
    requires d.Endif? && s.stack != []
    ensures var r := Apply(s, d, cond);
            && r.stack == s.stack[..|s.stack| - 1]
            && r.skip == (r.stack != [] && !Last(r.stack))
            && r.macros == s.macros
  {
  }

  /** A branch opened and closed right away leaves the stack as it was, and the
      skip flag as the enclosing entry says. */
  lemma {:induction false} OpenThenEndifRestoresStack(s: DirState, open: Directive, close: Directive, cond: CondEval)
    requires Opens(open) && close.Endif?
    ensures var r := Apply(Apply(s, open, cond), close, cond);
            && r.stack == s.stack && r.macros == s.macros
            && r.skip == (s.stack != [] && !Last(s.stack))
  {
    OpeningPushesOneEntry(s, open, cond);
    var m := Apply(s, open, cond);
    EndifPopsOneEntry(m, close, cond);
  }

  /** `#elif` whose enclosing entries include a true one closes the branch
      whatever its own condition says. */
  lemma {:induction false} ElifUnderTrueEnclosingIsFalse(s: DirState, d: Directive, cond: CondEval)
    requires d.ElifDefined? || d.ElifExpr?
    requires s.stack != [] && AnyTrue(s.stack[..|s.stack| - 1])
    ensures var r := Apply(s, d, cond);
            r.stack == s.stack[..|s.stack| - 1] + [false] && r.skip && r.macros == s.macros
  {
  }

  /** Where no enclosing entry is true, `#elif EXPR` replaces the innermost entry
      by its own condition: whether the earlier branch fired plays no part. */
  lemma {:induction false} ElifIgnoresEarlierBranch(s: DirState, d: Directive, cond: CondEval)
    requires d.ElifExpr?
    requires s.stack != [] && !AnyTrue(s.stack[..|s.stack| - 1])
    ensures var r := Apply(s, d, cond);
            && r.stack == s.stack[..|s.stack| - 1] + [Truth(cond, s, d.expr)]
            && r.skip == !Last(r.stack)
  {
  }

  /** `#else` where no enclosing entry is true inverts the innermost entry; where
      one is, it only sets the skip flag and leaves the entry alone. */
  lemma {:induction false} ElseInvertsOrSkips(s: DirState, d: Directive, cond: CondEval)
    requires d.Else? && s.stack != []
    ensures var r := Apply(s, d, cond);
            && (!AnyTrue(s.stack[..|s.stack| - 1]) ==>
                  r.stack == s.stack[..|s.stack| - 1] + [!Last(s.stack)] && r.skip == Last(s.stack))
            && (AnyTrue(s.stack[..|s.stack| - 1]) ==> r.stack == s.stack && r.skip)
  {
  }

  /** Every directive keeps "skip exactly when the innermost entry is false",
      except `#else` on a true entry under a true enclosing entry, which sets the
      flag and keeps the entry true. */
  lemma {:induction false} StepKeepsSkipMatchingTop(s: DirState, d: Directive, cond: CondEval)
    requires SkipMatchesTop(s)
    requires !(d.Else? && s.stack != [] && Last(s.stack)
               && AnyTrue(s.stack[..|s.stack| - 1]))
    ensures SkipMatchesTop(Apply(s, d, cond))
  {
  }

  /** A directive that passes the keyword check and is still ignored has one of
      the keywords that need an argument, followed by something other than a
      plain space (a tab, or nothing). */
  lemma {:induction false} IgnoredValidDirective(line: string)
    requires KeywordValid(line) && Classify(Content(line)).Unhandled?
    ensures var w := FirstWord(DropFirst(line)).value;
            && w in ["define", "ifdef", "ifndef", "if", "elif"]
            && !StartsWith(Content(line), w + " ")
  {
    var c := Content(line);
    var w := LeadingWord(c);
    assert FirstWord(DropFirst(line)) == Some(w);
    IgnoredKeyword(c, w);
  }

  lemma {:induction false} IgnoredKeyword(c: string, w: string)
    requires w in Keywords && |w| <= |c| && w == c[..|w|] && (|w| == |c| || IsSpace(c[|w|]))
    requires Classify(c).Unhandled?
    ensures w in ["define", "ifdef", "ifndef", "if", "elif"]
    ensures !StartsWith(c, w + " ")
  {
    assert StartsWith(c, w);
  }

  /** As written, `#elif` tests the enclosing entries only: after a taken
      top-level `#ifdef A`, `#elif defined(A)` keeps the branch active. */
  lemma {:induction false} TakenIfdefThenElifStaysActive(cond: CondEval)
    ensures var s1 := Apply(DirState(map["A" := "1"], ["A"], [], false), Ifdef("A"), cond);
            var s2 := Apply(s1, ElifDefined(Some("A")), cond);
            s1.stack == [true] && s2.stack == [true] && !s2.skip
  {
  }

  /** As written, `#else` inside a false branch can clear the skip flag: with A
      and B undefined, `#ifdef A`, `#ifdef B`, `#else` leaves lines active while
      the outer entry is still false. */
  lemma {:induction false} NestedElseEscapesFalseBranch(cond: CondEval)
    ensures var s1 := Apply(InitialDirState, Ifdef("A"), cond);
            var s2 := Apply(s1, Ifdef("B"), cond);
            var s3 := Apply(s2, Else, cond);
            s3.stack == [false, true] && !s3.skip
  {
  }

  /** As written, `#else` under a true enclosing entry sets the skip flag but
      keeps its entry true, so a nested `#ifdef` of a defined macro re-activates
      lines inside the `#else` part. */
  lemma {:induction false} ElseUnderTrueThenIfdefReactivates(cond: CondEval)
    ensures var s0 := DirState(map["A" := "1"], ["A"], [], false);
            var s1 := Apply(s0, Ifdef("A"), cond);
            var s2 := Apply(s1, Ifdef("A"), cond);
            var s3 := Apply(s2, Else, cond);
            var s4 := Apply(s3, Ifdef("A"), cond);
            s3.skip && s3.stack == [true, true] && s4.stack == [true, true, true] && !s4.skip
  {
  }

  /** A nested opening directive inside a false branch is skipped whatever its
      own test: with A undefined and B defined, `#ifdef A` then `#ifdef B`
      keeps skipping. */
  lemma {:induction false} NestedIfdefInFalseBranchSkips(cond: CondEval)
    ensures var s1 := Apply(DirState(map["B" := "1"], ["B"], [], false), Ifdef("A"), cond);
            var s2 := Apply(s1, Ifdef("B"), cond);
            s2.stack == [false, false] && s2.skip
  {
  }

  /** The macro table with its insertion order, the condition stack and the
      skip flag that the source keeps in a dict, a list and a threaded
      variable. */
  class Preprocessor {
    var macros: Macros
    var order: seq<string>
    var stack: seq<bool>
    var skip: bool

    constructor ()
      ensures macros == map[] && order == [] && stack == [] && !skip
    {
      macros := map[];
      order := [];
      stack := [];
      skip := false;
    }

    function State(): DirState
      reads this
    {
      DirState(macros, order, stack, skip)
    }

    /** Evaluates one directive line, updating the table and the stack in
        place; `raised` when the macro substitution of an evaluated expression
        raises, before anything was updated. */
    method Process(line: string, cond: CondEval) returns (raised: bool)
      modifies this
      ensures raised == StepRaises(old(State()), line, cond)
      ensures raised ==> State() == old(State())
      ensures !raised ==> State() == Step(old(State()), line, cond)
    {
      raised := false;
      var d := Classify(Content(line));
      if d.Define? {
        DefineMacro(d.rest);
      } else if d.Ifdef? {
        OpenBranch(d.name in macros);
      } else if d.Ifndef? {
        OpenBranch(d.name !in macros);
      } else if d.IfDefined? {
        if d.arg.Some? {
          OpenBranch(d.arg.value in macros);
        }
      } else if d.IfExpr? {
        raised := OpenExprBranch(d.expr, cond);
      } else if d.ElifDefined? {
        if d.arg.Some? {
          ChooseBranch(Some(d.arg.value in macros));
        } else {
          ChooseBranch(None);
        }
      } else if d.ElifExpr? {
        var result := cond(macros, order, d.expr);
        if result.SubstitutionError? && stack != [] && !AnyTrue(stack[..|stack| - 1]) {
          return true;
        }
        ChooseBranch(Some(result.Value? && result.b));
      } else if d == Else {
        ElseBranch();
      } else if d == Endif {
        CloseBranch();
      }
    }

    method DefineMacro(rest: string)
      modifies this
      ensures State() == DefineStep(old(State()), rest)
    {
      if skip {
        return;
      }
      var parts := SplitOnce(Strip(rest), ' ');
      var value := if |parts| > 1 then parts[1] else "1";
      if parts[0] !in macros {
        order := order + [parts[0]];
      }
      macros := macros[parts[0] := value];
    }

    /** `#ifdef`, `#ifndef` and `#if defined(...)`: push the test, or false
        inside a false branch. */
    method OpenBranch(test: bool)
      modifies this
      ensures State() == Push(old(State()), test)
    {
      if stack != [] && !stack[|stack| - 1] {
        stack := stack + [false];
      } else {
        stack := stack + [test];
      }
      skip := !stack[|stack| - 1];
    }

    method OpenExprBranch(expr: string, cond: CondEval) returns (raised: bool)
      modifies this
      ensures raised == Raises(old(State()), IfExpr(expr), cond)
      ensures raised ==> State() == old(State())
      ensures !raised ==> State() == IfExprStep(old(State()), expr, cond)
    {
      raised := false;
      if stack != [] && !stack[|stack| - 1] {
        stack := stack + [false];
        skip := true;
        return;
      }
      var result := cond(macros, order, expr);
      if result.SubstitutionError? {
        return true;
      }
      if result.Value? {
        stack := stack + [result.b];
      } else {
        stack := stack + [false];
      }
      skip := !stack[|stack| - 1];
    }

    method ChooseBranch(test: Option<bool>)
      modifies this
      ensures State() == ElifStep(old(State()), test)
    {
      if stack == [] {
        return;
      }
      if AnyTrue(stack[..|stack| - 1]) {
        stack := stack[|stack| - 1 := false];
        skip := true;
        return;
      }
      if test.Some? {
        stack := stack[|stack| - 1 := test.value];
        skip := !test.value;
      }
    }

    method ElseBranch()
      modifies this
      ensures State() == ElseStep(old(State()))
    {
      if stack == [] {
        return;
      }
      if AnyTrue(stack[..|stack| - 1]) {
        skip := true;
      } else {
        stack := stack[|stack| - 1 := !stack[|stack| - 1]];
        skip := !stack[|stack| - 1];
      }
    }

    method CloseBranch()
      modifies this
      ensures State() == EndifStep(old(State()))
    {
      if stack != [] {
        stack := stack[..|stack| - 1];
      }
      skip := stack != [] && !stack[|stack| - 1];
    }
  }
}
