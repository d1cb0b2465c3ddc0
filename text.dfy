/**
 * The few Python string operations the configuration reader and the rule
 * compiler rely on: strip, startswith, find, split and split with a limit.
 * Strings are sequences of characters.
 */
module Text {
  import opened Wrappers

  /** The characters Python's str.isspace() accepts; str.strip(), str.split()
      and the regular-expression class \s all use this set. */
  predicate IsSpace(c: char) {
    if c <= ' ' then c == ' ' || '\t' <= c <= '\r' || '\U{001C}' <= c else IsWideSpace(c)
  }

  /** The white-space characters above U+0020. */
  predicate IsWideSpace(c: char) {
    var n := c as int;
    n == 0x85 || n == 0xA0 || n == 0x1680 || (0x2000 <= n <= 0x200A) || n == 0x2028
    || n == 0x2029 || n == 0x202F || n == 0x205F || n == 0x3000
  }

  /** ASCII letters, digits and the underscore. */
  predicate IsWordChar(c: char) {
    ('a' <= c <= 'z') || ('A' <= c <= 'Z') || ('0' <= c <= '9') || c == '_'
  }

  predicate StartsWith(s: string, prefix: string) {
    |prefix| <= |s| && s[..|prefix|] == prefix
  }

  predicate EndsWith(s: string, suffix: string) {
    |suffix| <= |s| && s[|s| - |suffix|..] == suffix
  }

  /** Python s[1:]. */
  function DropFirst(s: string): string {
    if s == [] then [] else s[1..]
  }

  /** Python s.lstrip(). */
  function LStrip(s: string): string {
    if s != [] && IsSpace(s[0]) then LStrip(s[1..]) else s
  }

  /** Python s.rstrip(). */
  function RStrip(s: string): string {
    if s != [] && IsSpace(s[|s| - 1]) then RStrip(s[..|s| - 1]) else s
  }

  /** lstrip leaves the suffix after the leading white space. */
  lemma {:induction false} LStripRemovesLeadingSpace(s: string)
    ensures var r := LStrip(s);
            && |r| <= |s| && r == s[|s| - |r|..]
            && (r == [] || !IsSpace(r[0]))
            && forall i :: 0 <= i < |s| - |r| ==> IsSpace(s[i])
    decreases |s|
  {
    if s != [] && IsSpace(s[0]) {
      LStripRemovesLeadingSpace(s[1..]);
    }
  }

  /** rstrip leaves the prefix before the trailing white space. */
  lemma {:induction false} RStripRemovesTrailingSpace(s: string)
    ensures var r := RStrip(s);
            && |r| <= |s| && r == s[..|r|]
            && (r == [] || !IsSpace(r[|r| - 1]))
            && forall i :: |r| <= i < |s| ==> IsSpace(s[i])
    decreases |s|
  {
    if s != [] && IsSpace(s[|s| - 1]) {
      RStripRemovesTrailingSpace(s[..|s| - 1]);
    }
  }

  /** Python s.strip(). */
  function Strip(s: string): string {
    RStrip(LStrip(s))
  }

  /** A string that starts and ends with a non-space character is its own strip. */
  lemma {:induction false} StripOfTrimmed(s: string)
    requires s == [] || (!IsSpace(s[0]) && !IsSpace(s[|s| - 1]))
    ensures Strip(s) == s
  {
  }

  /** lstrip drops a run of white space in front of a string that does not
      start with white space. */
  lemma {:induction false} LStripOverSpaces(pre: string, s: string)
    requires forall i :: 0 <= i < |pre| ==> IsSpace(pre[i])
    requires s == [] || !IsSpace(s[0])
    ensures LStrip(pre + s) == s
    decreases |pre|
  {
    if pre != [] {
      assert (pre + s)[1..] == pre[1..] + s;
      LStripOverSpaces(pre[1..], s);
    }
  }

  /** rstrip drops a run of white space after a string that does not end with
      white space. */
  lemma {:induction false} RStripOverSpaces(s: string, post: string)
    requires forall i :: 0 <= i < |post| ==> IsSpace(post[i])
    requires s == [] || !IsSpace(s[|s| - 1])
    ensures RStrip(s + post) == s
    decreases |post|
  {
    if post != [] {
      assert (s + post)[..|s + post| - 1] == s + post[..|post| - 1];
      RStripOverSpaces(s, post[..|post| - 1]);
    }
  }

  /** strip removes white-space padding on both sides of a trimmed string. */
  lemma {:induction false} StripPadded(pre: string, s: string, post: string)
    requires forall i :: 0 <= i < |pre| ==> IsSpace(pre[i])
    requires forall i :: 0 <= i < |post| ==> IsSpace(post[i])
    requires s == [] || (!IsSpace(s[0]) && !IsSpace(s[|s| - 1]))
    ensures Strip(pre + s + post) == s
  {
    if s == [] {
      assert pre + s + post == pre + post;
      LStripOverSpaces(pre + post, []);
      assert pre + post + [] == pre + post;
    } else {
      assert pre + s + post == pre + (s + post);
      LStripOverSpaces(pre, s + post);
      RStripOverSpaces(s, post);
    }
  }

  /** t occurs in s starting at position j. */
  predicate OccursAt(s: string, t: string, j: int) {
    0 <= j && j + |t| <= |s| && s[j..j + |t|] == t
  }

  /** Python s.find(t, i): the first index at or after i where t occurs, or -1. */
  function FindFrom(s: string, t: string, i: nat): (r: int)
    ensures r == -1 || (i <= r && OccursAt(s, t, r))
    ensures r == -1 ==> forall j :: i <= j ==> !OccursAt(s, t, j)
    ensures r != -1 ==> forall j :: i <= j < r ==> !OccursAt(s, t, j)
    decreases |s| - i
  {
    if i + |t| > |s| then -1
    else if s[i..i + |t|] == t then i
    else FindFrom(s, t, i + 1)
  }

  /** Python s.find(t). */
  function Find(s: string, t: string): int {
    FindFrom(s, t, 0)
  }

  /** Python `t in s` for strings. */
  predicate Contains(s: string, t: string) {
    Find(s, t) != -1
  }

  /** Python s.index(c): the first position of c. */
  function IndexOf(s: string, c: char): (i: nat)
    requires c in s
    ensures i < |s| && s[i] == c && c !in s[..i]
  {
    if s[0] == c then 0
    else
      var j := IndexOf(s[1..], c);
      assert s[..j + 1] == [s[0]] + s[1..][..j];
      j + 1
  }

  /** The first position at or after i that is not white space. */
  function SkipSpace(s: string, i: nat): (j: nat)
    requires i <= |s|
    ensures i <= j <= |s|
    decreases |s| - i
  {
    if i < |s| && IsSpace(s[i]) then SkipSpace(s, i + 1) else i
  }

  /** SkipSpace stops at the first non-space character. */
  lemma {:induction false} SkipSpaceStops(s: string, i: nat)
    requires i <= |s|
    ensures var j := SkipSpace(s, i);
            && (j == |s| || !IsSpace(s[j]))
            && forall k :: i <= k < j ==> IsSpace(s[k])
    decreases |s| - i
  {
    if i < |s| && IsSpace(s[i]) {
      SkipSpaceStops(s, i + 1);
    }
  }

  /** The first position at or after i that is not a word character. */
  function SkipWord(s: string, i: nat): (j: nat)
    requires i <= |s|
    ensures i <= j <= |s|
    decreases |s| - i
  {
    if i < |s| && IsWordChar(s[i]) then SkipWord(s, i + 1) else i
  }

  /** SkipWord stops at the first character that is not a word character. */
  lemma {:induction false} SkipWordStops(s: string, i: nat)
    requires i <= |s|
    ensures var j := SkipWord(s, i);
            && (j == |s| || !IsWordChar(s[j]))
            && forall k :: i <= k < j ==> IsWordChar(s[k])
    decreases |s| - i
  {
    if i < |s| && IsWordChar(s[i]) {
      SkipWordStops(s, i + 1);
    }
  }

  /** Python s.split(sep) for a one-character separator: the pieces between
      separators, empty ones included. */
  function Split(s: string, sep: char): (r: seq<string>)
    ensures |r| >= 1
    ensures forall k :: 0 <= k < |r| ==> sep !in r[k]
    decreases |s|
  {
    if sep in s then
      var i := IndexOf(s, sep);
      [s[..i]] + Split(s[i + 1..], sep)
    else [s]
  }

  /** Python sep.join(parts). */
  function Join(parts: seq<string>, sep: char): string
    requires |parts| >= 1
  {
    if |parts| == 1 then parts[0] else parts[0] + [sep] + Join(parts[1..], sep)
  }

  /** Splitting loses nothing: joining the pieces gives the string back. */
  lemma {:induction false} JoinSplit(s: string, sep: char)
    ensures Join(Split(s, sep), sep) == s
    decreases |s|
  {
    if sep in s {
      var i := IndexOf(s, sep);
      var rest := Split(s[i + 1..], sep);
      assert Split(s, sep) == [s[..i]] + rest;
      JoinCons(s[..i], rest, sep);
      JoinSplit(s[i + 1..], sep);
      CutAt(s, i);
    }
  }

  /** Joining a first piece in front of further pieces. */
  lemma {:induction false} JoinCons(a: string, rest: seq<string>, sep: char)
    requires |rest| >= 1
    ensures Join([a] + rest, sep) == a + [sep] + Join(rest, sep)
  {
    assert ([a] + rest)[0] == a && ([a] + rest)[1..] == rest;
  }

  /** A sequence is its part before i, its element at i and its part after. */
  lemma {:induction false} CutAt<T>(s: seq<T>, i: nat)
    requires i < |s|
    ensures s == s[..i] + [s[i]] + s[i + 1..]
  {
  }

  /** Joining pieces free of the separator and splitting again gives the pieces. */
  lemma {:induction false} SplitJoin(parts: seq<string>, sep: char)
    requires |parts| >= 1
    requires forall k :: 0 <= k < |parts| ==> sep !in parts[k]
    ensures Split(Join(parts, sep), sep) == parts
    decreases |parts|
  {
    if |parts| > 1 {
      var rest := Join(parts[1..], sep);
      var s := parts[0] + [sep] + rest;
      assert Join(parts, sep) == s;
      var i := |parts[0]|;
      assert s[..i] == parts[0] && s[i + 1..] == rest;
      SplitStep(s, sep, i);
      SplitJoin(parts[1..], sep);
      assert [parts[0]] + parts[1..] == parts;
    } else {
      assert Join(parts, sep) == parts[0];
    }
  }

  /** Splitting a joined string splits each side. */
  lemma {:induction false} SplitAppend(a: string, b: string, sep: char)
    ensures Split(a + [sep] + b, sep) == Split(a, sep) + Split(b, sep)
    decreases |a|, 1
  {
    if sep in a {
      SplitAppendAfterFirst(a, b, sep);
    } else {
      var s := a + [sep] + b;
      assert s[..|a|] == a;
      SplitStep(s, sep, |a|);
      assert s[|a| + 1..] == b;
    }
  }

  /** SplitAppend when a holds the separator: the first piece of a comes first. */
  lemma {:induction false} SplitAppendAfterFirst(a: string, b: string, sep: char)
    requires sep in a
    ensures Split(a + [sep] + b, sep) == Split(a, sep) + Split(b, sep)
    decreases |a|, 0
  {
    var s := a + [sep] + b;
    var j := IndexOf(a, sep);
    SplitStep(a, sep, j);
    assert s[..j] == a[..j];
    SplitStep(s, sep, j);
    assert s[j + 1..] == a[j + 1..] + [sep] + b;
    SplitAppend(a[j + 1..], b, sep);
    Regroup([a[..j]], Split(a[j + 1..], sep), Split(b, sep));
  }

  /** A sequence is its part before k followed by its part from k. */
  lemma {:induction false} TakeDrop<T>(s: seq<T>, k: nat)
    requires k <= |s|
    ensures s[..k] + s[k..] == s
  {
  }

  /** A slice is its part before b followed by its part from b. */
  lemma {:induction false} SliceSplit<T>(s: seq<T>, a: nat, b: nat, c: nat)
    requires a <= b <= c <= |s|
    ensures s[a..c] == s[a..b] + s[b..c]
  {
  }

  /** A suffix is its part before b followed by the suffix from b. */
  lemma {:induction false} DropSplit<T>(s: seq<T>, a: nat, b: nat)
    requires a <= b <= |s|
    ensures s[a..] == s[a..b] + s[b..]
  {
  }

  lemma {:induction false} Assoc4<T>(w: seq<T>, x: seq<T>, y: seq<T>, z: seq<T>)
    ensures (w + x) + y + z == w + (x + y + z)
  {
  }

  lemma {:induction false} Regroup<T>(x: seq<T>, y: seq<T>, z: seq<T>)
    ensures x + (y + z) == x + y + z
  {
  }

  /** Splitting at the first separator. */
  lemma {:induction false} SplitStep(s: string, sep: char, j: nat)
    requires j < |s| && s[j] == sep && sep !in s[..j]
    ensures Split(s, sep) == [s[..j]] + Split(s[j + 1..], sep)
  {
    IndexOfAt(s, sep, j);
  }

  /** The first occurrence of c is the position before which c does not occur. */
  lemma {:induction false} IndexOfAt(s: string, c: char, i: nat)
    requires i < |s| && s[i] == c && c !in s[..i]
    ensures IndexOf(s, c) == i
  {
    var j := IndexOf(s, c);
  }

  /** Python s.split(sep, 1): the text before the first separator and, when
      there is one, the text after it. */
  function SplitOnce(s: string, sep: char): (r: seq<string>)
    ensures |r| == (if sep in s then 2 else 1)
    ensures sep !in r[0]
    ensures |r| == 1 ==> r[0] == s
    ensures |r| == 2 ==> s == r[0] + [sep] + r[1]
  {
    if sep in s then
      var i := IndexOf(s, sep);
      assert s == s[..i] + [sep] + s[i + 1..];
      [s[..i], s[i + 1..]]
    else [s]
  }

  /** Splitting at the first occurrence of a separator that the first part
      does not contain. */
  lemma {:induction false} IndexOfFirst(s: string, a: string, b: string, sep: char)
    requires s == a + [sep] + b && sep !in a
    ensures SplitOnce(s, sep) == [a, b]
  {
    var i := IndexOf(s, sep);
    assert s[|a|] == sep && s[..|a|] == a;
    assert forall m :: 0 <= m < |a| ==> s[m] != sep by {
      forall m | 0 <= m < |a| ensures s[m] != sep { assert s[m] == a[m]; }
    }
    assert forall m :: 0 <= m < i ==> s[m] != sep by {
      forall m | 0 <= m < i ensures s[m] != sep { assert s[m] == s[..i][m]; }
    }
    assert s[i] == sep;
    assert i == |a|;
    assert s[i + 1..] == b;
  }

  /** The leading run of non-space characters. */
  function LeadingWord(s: string): (w: string)
    ensures |w| <= |s| && w == s[..|w|]
    ensures forall i :: 0 <= i < |w| ==> !IsSpace(w[i])
    ensures |w| == |s| || IsSpace(s[|w|])
  {
    if s == [] || IsSpace(s[0]) then []
    else
      var w := LeadingWord(s[1..]);
      assert [s[0]] + w == s[..|w| + 1];
      [s[0]] + w
  }

  /** Python s.split(None, 1)[0]: the first white-space-delimited word, or
      None when s is blank. */
  function FirstWord(s: string): Option<string> {
    var t := LStrip(s);
    if t == [] then None else Some(LeadingWord(t))
  }
}
