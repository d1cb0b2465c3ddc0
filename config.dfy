/**
 * The configuration reader: one `key = value` line at a time, the `Swap = {`
 * block that collects typedef lines, the line loop that routes directive
 * lines to the evaluator and skips comment lines and lines of false branches,
 * the checks at the end of the file, and the de-duplicated `Folder` and
 * `Files` lists.
 *
 * The file is a sequence of raw lines; reading it is not modelled.
 */
module Config {
  import opened Wrappers
  import opened Text
  import opened Directives
  import opened Rules

  /** The settings read so far: key to value text. */
  type Table = map<string, string>

  /** What `process_config_line` returns: the table, whether a `Swap` block is
      open, and whether the line is an error that stops the reading. */
  datatype LineResult = LineResult(config: Table, inSwap: bool, error: bool)

  /** The keys whose values accumulate, comma-separated, over several lines. */
  const Accumulating: set<string> := {"Folder", "Files", "Swap"}

  /** Appends a value to a key as a further comma-separated piece. */
  function Accumulate(config: Table, key: string, value: string): (r: Table)
    ensures r.Keys == config.Keys + {key}
    ensures forall k :: k in config && k != key ==> r[k] == config[k]
  {
    if key !in config then config[key := value] else config[key := config[key] + "," + value]
  }

  /** The value of a `key = value` line: the text after the first `=`,
      stripped, with one trailing comma removed. */
  function SettingValue(afterEquals: string): string {
    var v := Strip(afterEquals);
    if v != [] && v[|v| - 1] == ',' then Strip(v[..|v| - 1]) else v
  }

  /** The stripped key of a `key = value` line. */
  function SettingKey(line: string): string
    requires '=' in line
  {
    Strip(SplitOnce(line, '=')[0])
  }

  /** A `key = value` line: the stripped key is set or, for the accumulating
      keys, extended. Only that key changes; its new value ends with the line's
      value, and is that value alone unless the key accumulates and is already
      set, when it is the old value, a comma and the line's value. */
  function Assign(config: Table, line: string): (r: Table)
    requires '=' in line
    ensures var key := SettingKey(line);
            var value := SettingValue(SplitOnce(line, '=')[1]);
            && r.Keys == config.Keys + {key}
            && (forall k :: k in config && k != key ==> r[k] == config[k])
            && EndsWith(r[key], value)
            && (key !in Accumulating || key !in config ==> r[key] == value)
            && (key in Accumulating && key in config ==> r[key] == config[key] + "," + value)
  {
    var parts := SplitOnce(line, '=');
    var key := Strip(parts[0]);
    var value := SettingValue(parts[1]);
    var r := if key in Accumulating then Accumulate(config, key, value) else config[key := value];
    assert key in config && key in Accumulating ==> r[key] == (config[key] + ",") + value;
    r
  }

  /** One stripped, non-comment configuration line outside a skipped branch. */
  function ConfigLine(line: string, config: Table, inSwap: bool): (r: LineResult)
    ensures r.error <==> (StartsWith(line, "Swap = {") && inSwap) || (StartsWith(line, "typedef ") && !inSwap)
    ensures r.error ==> r.config == config && r.inSwap == inSwap
    ensures !r.error ==> r.inSwap == (StartsWith(line, "Swap = {") || (inSwap && line != "}"))
    ensures !r.error && StartsWith(line, "Swap = {") ==> r.config == config
    ensures !r.error && StartsWith(line, "typedef ") ==> r.config == Accumulate(config, "Swap", line)
    ensures (!StartsWith(line, "Swap = {") && !(line == "}" && inSwap) && !StartsWith(line, "typedef ")
             && '=' in line) ==> r.config == Assign(config, line)
    ensures '=' !in line && !StartsWith(line, "typedef ") ==> r.config == config
  {
    if StartsWith(line, "Swap = {") then
      if inSwap then LineResult(config, inSwap, true) else LineResult(config, true, false)
    else if line == "}" && inSwap then LineResult(config, false, false)
    else if StartsWith(line, "typedef ") then
      if !inSwap then LineResult(config, inSwap, true)
      else LineResult(Accumulate(config, "Swap", line), inSwap, false)
    else if '=' in line then LineResult(Assign(config, line), inSwap, false)
    else LineResult(config, inSwap, false)
  }

  /** An accumulated value splits on commas into the pieces it had before
      followed by the pieces of the appended value. */
  lemma {:induction false} AccumulateSplits(config: Table, key: string, value: string)
    ensures Split(Accumulate(config, key, value)[key], ',')
            == (if key in config then Split(config[key], ',') else []) + Split(value, ',')
  {
    if key in config {
      SplitAppend(config[key], value, ',');
    }
  }

  /** No character of s is white space. */
  predicate Unspaced(s: string) {
    forall i :: 0 <= i < |s| ==> !IsSpace(s[i])
  }

  /** A line `KEY = VALUE` with a key free of white space and `=` and a trimmed
      value not ending in a comma sets KEY to VALUE, or appends VALUE to it
      for `Folder`, `Files` and `Swap`; the rest of the table is kept. */
  lemma {:induction false} AssignmentLine(config: Table, inSwap: bool, key: string, value: string)
    requires key != [] && Unspaced(key) && '=' !in key
    requires value == [] || (!IsSpace(value[0]) && !IsSpace(value[|value| - 1]) && value[|value| - 1] != ',')
    requires key != "typedef" && !(key == "Swap" && StartsWith(value, "{"))
    ensures var r := ConfigLine(key + " = " + value, config, inSwap);
            && !r.error && r.inSwap == inSwap
            && r.config == (if key in Accumulating then Accumulate(config, key, value) else config[key := value])
  {
    var line := key + " = " + value;
    SettingLineParts(key, value);
    NotBlockOrTypedef(key, value);
    assert line != "}" && '=' in line;
  }

  /** Such a line splits at its `=` into the key and the value. */
  lemma {:induction false} SettingLineParts(key: string, value: string)
    requires key != [] && !IsSpace(key[0]) && !IsSpace(key[|key| - 1]) && '=' !in key
    requires value == [] || (!IsSpace(value[0]) && !IsSpace(value[|value| - 1]) && value[|value| - 1] != ',')
    ensures var parts := SplitOnce(key + " = " + value, '=');
            Strip(parts[0]) == key && SettingValue(parts[1]) == value
  {
    var line := key + " = " + value;
    assert line == (key + " ") + ['='] + (" " + value);
    IndexOfFirst(line, key + " ", " " + value, '=');
    StripPadded([], key, " ");
    assert [] + key + " " == key + " ";
    StripPadded(" ", value, []);
    assert " " + value + [] == " " + value;
  }

  /** Such a line neither opens a `Swap` block nor is a typedef line. */
  lemma {:induction false} NotBlockOrTypedef(key: string, value: string)
    requires key != [] && Unspaced(key) && key != "typedef"
    requires !(key == "Swap" && StartsWith(value, "{"))
    ensures !StartsWith(key + " = " + value, "Swap = {")
    ensures !StartsWith(key + " = " + value, "typedef ")
  {
    var line := key + " = " + value;
    assert line[|key|] == ' ';
    if key == "Swap" {
      assert line[..7] == "Swap = ";
      assert value == [] || line[7] == value[0];
      assert value == [] || value[..1] == [value[0]];
    } else if |key| == 4 {
      assert line[..4] == key;
    } else if |key| > 4 {
      assert line[4] == key[4];
    }
    if |key| == 7 {
      assert line[..7] == key;
    } else if |key| > 7 {
      assert line[7] == key[7];
    }
  }

  /** A trailing comma after a trimmed value is dropped. */
  lemma {:induction false} TrailingCommaDropped(afterEquals: string, value: string)
    requires afterEquals == " " + value + ","
    requires value != [] && !IsSpace(value[0]) && !IsSpace(value[|value| - 1])
    ensures SettingValue(afterEquals) == value
  {
    var v := value + ",";
    assert v[0] == value[0];
    StripPadded(" ", v, []);
    assert " " + v + [] == afterEquals;
    assert v[..|v| - 1] == value;
    StripOfTrimmed(value);
  }

  /** The reader's state between lines. */
  datatype Reader = Reader(dir: DirState, config: Table, inSwap: bool)

  const InitialReader := Reader(InitialDirState, map[], false)

  /** Reading stops at the first error; otherwise it goes on with a state. */
  datatype Progress = Aborted | Running(reader: Reader)

  /** The stripped line is a directive line. */
  predicate IsDirective(t: string) {
    t != [] && StartsWith(t, "#")
  }

  /** The stripped line is blank or starts a comment. */
  predicate IsBlankOrComment(t: string) {
    t == [] || StartsWith(t, "//") || StartsWith(t, "/*")
  }

  /** One raw line of the file, as the loop of `parse_config` treats it. A
      blank or comment line, and a setting line inside a false branch, change
      nothing; reading stops only at a directive line or at an active setting
      line; at most one condition is opened, and the definition order keeps
      listing every macro once. */
  function ReadLine(r: Reader, raw: string, cond: CondEval): (p: Progress)
    ensures !IsDirective(Strip(raw)) && (IsBlankOrComment(Strip(raw)) || r.dir.skip) ==> p == Running(r)
    ensures p.Aborted? ==> IsDirective(Strip(raw)) || (!IsBlankOrComment(Strip(raw)) && !r.dir.skip)
    ensures p.Running? ==> |p.reader.dir.stack| <= |r.dir.stack| + 1
    ensures p.Running? && DefinitionOrder(r.dir) ==> DefinitionOrder(p.reader.dir)
  {
    var t := Strip(raw);
    if IsDirective(t) then
      if !KeywordValid(t) || StepRaises(r.dir, t, cond) then Aborted
      else
        ApplyKeepsDefinitionOrder(r.dir, Classify(Content(t)), cond);
        Running(r.(dir := Step(r.dir, t, cond)))
    else if IsBlankOrComment(t) then Running(r)
    else if r.dir.skip then Running(r)
    else
      var lr := ConfigLine(t, r.config, r.inSwap);
      if lr.error then Aborted else Running(Reader(r.dir, lr.config, lr.inSwap))
  }

  /** The lines read in order from the initial state; no more conditions are
      open than lines were read, and the definition order lists every macro
      once. */
  function ReadLines(lines: seq<string>, cond: CondEval): (p: Progress)
    ensures p.Running? ==> |p.reader.dir.stack| <= |lines|
    ensures p.Running? ==> DefinitionOrder(p.reader.dir)
  {
    if lines == [] then Running(InitialReader)
    else match ReadLines(lines[..|lines| - 1], cond)
      case Aborted => Aborted
      case Running(r) => ReadLine(r, lines[|lines| - 1], cond)
  }

  /** The de-duplicated, non-empty stripped pieces, in order of first
      appearance. */
  function Entries(pieces: seq<string>): seq<string> {
    if pieces == [] then []
    else
      var acc := Entries(pieces[..|pieces| - 1]);
      var p := Strip(pieces[|pieces| - 1]);
      if p != [] && p !in acc then acc + [p] else acc
  }

  /** The list a comma-separated setting names; empty when the key is absent. */
  function ListSetting(config: Table, key: string): seq<string> {
    if key in config then Entries(Split(config[key], ',')) else []
  }

  /** What `parse_config` returns: folders, file extensions and rules; all
      three empty after an error or an unclosed `Swap` block. An unclosed
      conditional is only reported. */
  function ParseConfig(lines: seq<string>, cond: CondEval): (r: (seq<string>, seq<string>, seq<Rule>))
    ensures r.0 != [] || r.1 != [] || r.2 != [] ==>
              ReadLines(lines, cond).Running? && !ReadLines(lines, cond).reader.inSwap
  {
    match ReadLines(lines, cond)
    case Aborted => ([], [], [])
    case Running(r) =>
      if r.inSwap then ([], [], [])
      else (ListSetting(r.config, "Folder"), ListSetting(r.config, "Files"), CompileRules(r.config))
  }

  /** The entries have no duplicates and no empty entry, and are exactly the
      non-empty stripped pieces. */
  lemma {:induction false} EntriesAreUniquePieces(pieces: seq<string>)
    ensures Distinct(Entries(pieces))
    ensures forall x :: x in Entries(pieces) <==> x != [] && exists p :: p in pieces && Strip(p) == x
  {
    if pieces != [] {
      var init := pieces[..|pieces| - 1];
      var last := pieces[|pieces| - 1];
      EntriesAreUniquePieces(init);
      assert pieces == init + [last];
      var e0 := Entries(init);
      var e := Entries(pieces);
      var p := Strip(last);
      assert e == if p != [] && p !in e0 then e0 + [p] else e0;
      assert forall x :: x in e0 <==> x != [] && exists q :: q in init && Strip(q) == x;
      assert forall x :: x in e0 ==> x in e;
      forall x
        ensures x in e <==> x != [] && exists q :: q in pieces && Strip(q) == x
      {
        if x in e {
          if x in e0 {
            var q :| q in init && Strip(q) == x;
            assert q in pieces;
          } else {
            assert x == p && last in pieces;
          }
        }
        if x != [] && exists q :: q in pieces && Strip(q) == x {
          var q :| q in pieces && Strip(q) == x;
          if q in init {
            assert x in e0;
          } else {
            assert q == last;
          }
        }
      }
    }
  }

  /** No entry occurs twice. */
  predicate Distinct(e: seq<string>) {
    forall i, j :: 0 <= i < j < |e| ==> e[i] != e[j]
  }

  /** Once reading stops, further lines change nothing. */
  lemma {:induction false} AbortIsFinal(lines: seq<string>, more: seq<string>, cond: CondEval)
    requires ReadLines(lines, cond) == Aborted
    ensures ReadLines(lines + more, cond) == Aborted
    decreases |more|
  {
    if more != [] {
      var init := more[..|more| - 1];
      AbortIsFinal(lines, init, cond);
      assert (lines + more)[..|lines + more| - 1] == lines + init;
    } else {
      assert lines + more == lines;
    }
  }

  /** Only directive lines change the evaluator; only lines that are neither
      directives nor comments, read outside a skipped branch, change the table
      or the block flag. */
  lemma {:induction false} ReadLineEffects(r: Reader, raw: string, cond: CondEval)
    requires ReadLine(r, raw, cond).Running?
    ensures var n := ReadLine(r, raw, cond).reader;
            && (n.dir != r.dir ==> IsDirective(Strip(raw)))
            && (n.config != r.config || n.inSwap != r.inSwap ==>
                  !IsDirective(Strip(raw)) && !IsBlankOrComment(Strip(raw)) && !r.dir.skip)
  {
  }

  /** A directive line whose keyword is not one of the seven stops the
      reading. */
  lemma {:induction false} InvalidDirectiveAborts(r: Reader, raw: string, cond: CondEval)
    requires IsDirective(Strip(raw)) && !KeywordValid(Strip(raw))
    ensures ReadLine(r, raw, cond) == Aborted
  {
  }

  /** A `#if EXPR` or `#elif EXPR` that is evaluated while some macro value is
      not a valid replacement template stops the reading, and then the parse
      yields three empty lists; the same expression in a false branch, or
      under a true enclosing entry for `#elif`, is never substituted. */
  lemma {:induction false} RaisingSubstitutionAborts(lines: seq<string>, cond: CondEval)
    requires lines != [] && ReadLines(lines[..|lines| - 1], cond).Running?
    requires var t := Strip(lines[|lines| - 1]);
             IsDirective(t) && KeywordValid(t)
             && StepRaises(ReadLines(lines[..|lines| - 1], cond).reader.dir, t, cond)
    ensures ReadLines(lines, cond) == Aborted
    ensures forall more :: ParseConfig(lines + more, cond) == ([], [], [])
  {
    forall more
      ensures ParseConfig(lines + more, cond) == ([], [], [])
    {
      AbortIsFinal(lines, more, cond);
    }
  }

  /** The compiled rules of a successful parse keep the rule compiler's
      guarantees: non-empty sides, distinct sources, non-increasing source
      length. */
  lemma {:induction false} ParsedRulesAreCompiled(lines: seq<string>, cond: CondEval)
    ensures var rules := ParseConfig(lines, cond).2;
            && (forall k :: 0 <= k < |rules| ==> rules[k].src != [] && rules[k].dest != [])
            && DistinctSources(rules)
            && NonIncreasing(rules)
  {
    var p := ReadLines(lines, cond);
    if p.Running? && !p.reader.inSwap {
      CompiledRules(p.reader.config);
    }
  }

  /** The folder and extension lists of a parse have no duplicates and no
      empty entries. */
  lemma {:induction false} ParsedListsAreUnique(lines: seq<string>, cond: CondEval)
    ensures var (folders, files, _) := ParseConfig(lines, cond);
            && Distinct(folders) && Distinct(files)
            && [] !in folders && [] !in files
  {
    var p := ReadLines(lines, cond);
    if p.Running? && !p.reader.inSwap {
      var c := p.reader.config;
      if "Folder" in c {
        EntriesAreUniquePieces(Split(c["Folder"], ','));
      }
      if "Files" in c {
        EntriesAreUniquePieces(Split(c["Files"], ','));
      }
    }
  }

  /** A file that ends inside a `Swap` block yields nothing. */
  lemma {:induction false} UnclosedSwapBlockYieldsNothing(lines: seq<string>, cond: CondEval)
    requires ReadLines(lines, cond).Running? && ReadLines(lines, cond).reader.inSwap
    ensures ParseConfig(lines, cond) == ([], [], [])
  {
  }

  /** `parse_folders` (key `Folder`) and `parse_files` (key `Files`). */
  method ParseList(config: Table, key: string) returns (entries: seq<string>)
    ensures entries == ListSetting(config, key)
  {
    entries := [];
    if key in config {
      entries := CollectEntries(Split(config[key], ','));
    }
  }

  /** The loop of `parse_folders` and `parse_files`. */
  method CollectEntries(pieces: seq<string>) returns (entries: seq<string>)
    ensures entries == Entries(pieces)
  {
    entries := [];
    var i := 0;
    while i < |pieces|
      invariant 0 <= i <= |pieces|
      invariant entries == Entries(pieces[..i])
    {
      assert pieces[..i + 1][..i] == pieces[..i];
      var p := Strip(pieces[i]);
      if p != [] && p !in entries {
        entries := entries + [p];
      }
      i := i + 1;
    }
    assert pieces[..i] == pieces;
  }

  /** `parse_config` over the lines of the file: the macro table and the
      condition stack live in a Preprocessor, the settings in a local table. */
  method ParseConfigLines(lines: seq<string>, cond: CondEval)
    returns (folders: seq<string>, files: seq<string>, swaps: seq<Rule>)
    ensures (folders, files, swaps) == ParseConfig(lines, cond)
  {
    var pp := new Preprocessor();
    var config: Table := map[];
    var inSwap := false;
    var i := 0;
    while i < |lines|
      invariant 0 <= i <= |lines|
      invariant ReadLines(lines[..i], cond) == Running(Reader(pp.State(), config, inSwap))
    {
      ReadLinesStep(lines, i, cond);
      var config', inSwap', aborted := ReadOne(pp, lines[i], config, inSwap, cond);
      if aborted {
        AbortIsFinal(lines[..i + 1], lines[i + 1..], cond);
        TakeDrop(lines, i + 1);
        return [], [], [];
      }
      config, inSwap := config', inSwap';
      i := i + 1;
    }
    assert lines[..i] == lines;
    if inSwap {
      return [], [], [];
    }
    folders := ParseList(config, "Folder");
    files := ParseList(config, "Files");
    swaps := ParseSwaps(config);
  }

  /** One pass of the reading loop: a directive goes to the preprocessor, a
      setting line outside a skipped branch to the line reader; `aborted`
      when the line is one the source rejects or the directive raises. */
  method ReadOne(pp: Preprocessor, raw: string, config: Table, inSwap: bool, cond: CondEval)
    returns (config': Table, inSwap': bool, aborted: bool)
    modifies pp
    ensures aborted <==> ReadLine(Reader(old(pp.State()), config, inSwap), raw, cond).Aborted?
    ensures !aborted ==> ReadLine(Reader(old(pp.State()), config, inSwap), raw, cond)
                         == Running(Reader(pp.State(), config', inSwap'))
  {
    var t := Strip(raw);
    config', inSwap', aborted := config, inSwap, false;
    if IsDirective(t) {
      if !KeywordValid(t) {
        return config, inSwap, true;
      }
      var raised := pp.Process(t, cond);
      if raised {
        return config, inSwap, true;
      }
    } else if !IsBlankOrComment(t) && !pp.skip {
      var lr := ConfigLine(t, config, inSwap);
      if lr.error {
        return config, inSwap, true;
      }
      config', inSwap' := lr.config, lr.inSwap;
    }
  }

  lemma {:induction false} ReadLinesStep(lines: seq<string>, i: nat, cond: CondEval)
    requires i < |lines|
    ensures ReadLines(lines[..i + 1], cond)
            == match ReadLines(lines[..i], cond)
               case Aborted => Aborted
               case Running(r) => ReadLine(r, lines[i], cond)
  {
    assert lines[..i + 1][..i] == lines[..i];
  }
}
