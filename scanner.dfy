/**
 * The balanced-span scanner of `extract_json_from_text` (api/utils.py and its
 * copy nested in api/index.py): from the first `{` or `[` of the text it walks
 * forward with a stack of expected closers and the `in_str`/`esc` flags, and
 * cuts the candidate at the first character that empties the stack.
 *
 * `Step` is one iteration of that loop as a function, `RunFrom` the loop over a
 * whole string; the methods are the loops themselves, proved against them.
 */
module Scanner {
  import opened Wrappers

  /** The loop's variables: the closer stack and the two string flags. */
  datatype ScanState = ScanState(stack: seq<char>, inStr: bool, esc: bool)

  /** The loop's start: an empty stack, outside any string. */
  const Fresh := ScanState([], false, false)

  predicate IsOpener(c: char) {
    c == '{' || c == '['
  }

  function CloserOf(c: char): char {
    if c == '{' then '}' else ']'
  }

  /** One pass of the scanning loop on character `c`. */
  function Step(st: ScanState, c: char): ScanState {
    if st.inStr then
      if st.esc then st.(esc := false)
      else if c == '\\' then st.(esc := true)
      else if c == '"' then st.(inStr := false)
      else st
    else if c == '"' then st.(inStr := true)
    else if c == '{' then st.(stack := st.stack + ['}'])
    else if c == '[' then st.(stack := st.stack + [']'])
    else if st.stack != [] && c == st.stack[|st.stack| - 1] then st.(stack := st.stack[..|st.stack| - 1])
    else st
  }

  /**
   * The rules of one step: inside a string the stack is never touched, an
   * escape swallows the next character whatever it is, and only an unescaped
   * quote ends the string; outside a string a quote opens one, an opener
   * pushes its own closer, and a closer pops only when it is the expected one
   * on top; the stack moves by at most one.
   */
  lemma StepRules(st: ScanState, c: char)
    ensures st.inStr ==> Step(st, c).stack == st.stack
    ensures st.inStr && st.esc ==> Step(st, c) == st.(esc := false)
    ensures st.inStr && !st.esc ==> (Step(st, c).inStr <==> c != '"')
    ensures !st.inStr ==> (Step(st, c).inStr <==> c == '"')
    ensures !st.inStr && !st.esc ==> !Step(st, c).esc
    ensures !st.inStr && IsOpener(c) ==> Step(st, c).stack == st.stack + [CloserOf(c)]
    ensures !IsOpener(c) && Step(st, c).stack != st.stack ==>
      && !st.inStr && st.stack != [] && c == st.stack[|st.stack| - 1]
      && Step(st, c).stack == st.stack[..|st.stack| - 1]
    ensures |st.stack| - 1 <= |Step(st, c).stack| <= |st.stack| + 1
  {
  }

  /** The state after feeding all of `s` to the loop, starting in `st`. */
  function RunFrom(st: ScanState, s: string): ScanState
    decreases |s|
  {
    if s == [] then st else RunFrom(Step(st, s[0]), s[1..])
  }

  lemma {:induction false} RunFromAppend(st: ScanState, a: string, b: string)
    ensures RunFrom(st, a + b) == RunFrom(RunFrom(st, a), b)
    decreases |a|
  {
    if a == [] {
      assert a + b == b;
    } else {
      assert (a + b)[1..] == a[1..] + b;
      RunFromAppend(Step(st, a[0]), a[1..], b);
    }
  }

  lemma RunFromSnoc(st: ScanState, s: string, c: char)
    ensures RunFrom(st, s + [c]) == Step(RunFrom(st, s), c)
  {
    RunFromAppend(st, s, [c]);
  }

  /**
   * A balanced span: it starts with an opener and the loop, started fresh on
   * it, ends with an empty closer stack.
   */
  predicate Balanced(s: string) {
    s != [] && IsOpener(s[0]) && RunFrom(Fresh, s).stack == []
  }

  function FirstBalancedFrom(t: string, start: nat, k: nat): (r: Option<nat>)
    requires start < k
    decreases |t| + 1 - k
    ensures r.Some? ==> k <= r.value <= |t| && Balanced(t[start..r.value])
    ensures r.Some? ==> forall j :: k <= j < r.value ==> !Balanced(t[start..j])
    ensures r.None? ==> forall j :: k <= j <= |t| ==> !Balanced(t[start..j])
  {
    if k > |t| then None
    else if Balanced(t[start..k]) then Some(k)
    else FirstBalancedFrom(t, start, k + 1)
  }

  /**
   * The (exclusive) end of the shortest balanced prefix of `t[start..]`, or
   * None when no prefix is balanced.
   */
  function ShortestBalanced(t: string, start: nat): (r: Option<nat>)
    ensures r.Some? ==> start < r.value <= |t| && Balanced(t[start..r.value])
    ensures r.Some? ==> forall j :: start < j < r.value ==> !Balanced(t[start..j])
    ensures r.None? ==> forall j :: start < j <= |t| ==> !Balanced(t[start..j])
  {
    FirstBalancedFrom(t, start, start + 1)
  }

  /** The first balanced prefix found is the one `ShortestBalanced` names. */
  lemma {:induction false} FirstBalancedFromIs(t: string, start: nat, k: nat, e: nat)
    requires start < k <= e <= |t| && Balanced(t[start..e])
    requires forall j :: k <= j < e ==> !Balanced(t[start..j])
    ensures FirstBalancedFrom(t, start, k) == Some(e)
    decreases e - k
  {
    if k < e {
      FirstBalancedFromIs(t, start, k + 1, e);
    }
  }

  lemma ShortestBalancedIs(t: string, start: nat, e: nat)
    requires start < e <= |t| && Balanced(t[start..e])
    requires forall j :: start < j < e ==> !Balanced(t[start..j])
    ensures ShortestBalanced(t, start) == Some(e)
  {
    FirstBalancedFromIs(t, start, start + 1, e);
  }

  lemma NoBalancedPrefix(t: string, start: nat)
    requires forall j :: start < j <= |t| ==> !Balanced(t[start..j])
    ensures ShortestBalanced(t, start) == None
  {
  }

  /** The loop's state after reading `t[start..i]`, one character at a time from the left. */
  function RunTo(t: string, start: nat, i: nat): ScanState
    requires start <= i <= |t|
    decreases i - start
  {
    if i == start then Fresh else Step(RunTo(t, start, i - 1), t[i - 1])
  }

  lemma {:induction false} RunToIsRunFrom(t: string, start: nat, i: nat)
    requires start <= i <= |t|
    ensures RunTo(t, start, i) == RunFrom(Fresh, t[start..i])
    decreases i - start
  {
    if i > start {
      RunToIsRunFrom(t, start, i - 1);
      RunToStep(t, start, i);
    }
  }

  /** One more character read by `RunTo` is one more character of the slice. */
  lemma RunToStep(t: string, start: nat, i: nat)
    requires start < i <= |t| && RunTo(t, start, i - 1) == RunFrom(Fresh, t[start..i - 1])
    ensures RunTo(t, start, i) == RunFrom(Fresh, t[start..i])
  {
    assert RunTo(t, start, i) == Step(RunTo(t, start, i - 1), t[i - 1]);
    SnocLink(RunTo(t, start, i - 1), t[start..i - 1], t[i - 1], t[start..i]);
  }

  lemma SnocLink(a: ScanState, pre: string, c: char, whole: string)
    requires a == RunFrom(Fresh, pre) && whole == pre + [c]
    ensures Step(a, c) == RunFrom(Fresh, whole)
  {
    RunFromSnoc(Fresh, pre, c);
  }

  /** From an opener, a prefix is balanced exactly when the loop's stack is empty after it. */
  lemma BalancedIffEmptied(t: string, start: nat, j: nat)
    requires start < j <= |t| && IsOpener(t[start])
    ensures Balanced(t[start..j]) <==> RunTo(t, start, j).stack == []
  {
    RunToIsRunFrom(t, start, j);
    assert t[start..j][0] == t[start];
  }

  /** The first index at which the stack empties ends the shortest balanced prefix. */
  lemma FirstEmptyingIsShortest(t: string, start: nat, e: nat)
    requires start < e <= |t| && IsOpener(t[start])
    requires RunTo(t, start, e).stack == []
    requires forall j :: start < j < e ==> RunTo(t, start, j).stack != []
    ensures ShortestBalanced(t, start) == Some(e)
  {
    BalancedIffEmptied(t, start, e);
    forall j | start < j < e
      ensures !Balanced(t[start..j])
    {
      BalancedIffEmptied(t, start, j);
    }
    ShortestBalancedIs(t, start, e);
  }

  /** A stack that never empties means no balanced prefix. */
  lemma NeverEmptiedIsNone(t: string, start: nat)
    requires start < |t| && IsOpener(t[start])
    requires forall j :: start < j <= |t| ==> RunTo(t, start, j).stack != []
    ensures ShortestBalanced(t, start) == None
  {
    forall j | start < j <= |t|
      ensures !Balanced(t[start..j])
    {
      BalancedIffEmptied(t, start, j);
    }
    NoBalancedPrefix(t, start);
  }

  function FirstOpenerFrom(t: string, i: nat): (r: Option<nat>)
    decreases |t| - i
    ensures r.Some? ==> i <= r.value < |t| && IsOpener(t[r.value])
    ensures r.Some? ==> forall k :: i <= k < r.value ==> !IsOpener(t[k])
    ensures r.None? ==> forall k :: i <= k < |t| ==> !IsOpener(t[k])
  {
    if i >= |t| then None
    else if IsOpener(t[i]) then Some(i)
    else FirstOpenerFrom(t, i + 1)
  }

  /** The index of the first `{` or `[` in the whole text. */
  function FirstOpener(t: string): (r: Option<nat>)
    ensures r.Some? ==> r.value < |t| && IsOpener(t[r.value])
    ensures r.Some? ==> forall k :: 0 <= k < r.value ==> !IsOpener(t[k])
    ensures r.None? <==> forall k :: 0 <= k < |t| ==> !IsOpener(t[k])
  {
    FirstOpenerFrom(t, 0)
  }

  /** The search for the first opener: a left-to-right loop that stops at the first `{` or `[`. */
  method FindFirstOpener(t: string) returns (r: Option<nat>)
    ensures r == FirstOpener(t)
  {
    var i := 0;
    while i < |t|
      invariant 0 <= i <= |t|
      invariant forall k :: 0 <= k < i ==> !IsOpener(t[k])
    {
      if t[i] == '{' || t[i] == '[' {
        return Some(i);
      }
      i := i + 1;
    }
    return None;
  }

  /**
   * The scanning loop from `start`: returns the exclusive end of the candidate
   * `t[start:i + 1]` at the first closer that empties the stack, or None when
   * the text ends first. The span it returns is the shortest balanced prefix.
   */
  method ScanSpan(t: string, start: nat) returns (r: Option<nat>)
    requires start < |t| && IsOpener(t[start])
    ensures r == ShortestBalanced(t, start)
    ensures r.Some? ==> start < r.value <= |t| && Balanced(t[start..r.value])
    ensures r.Some? ==> forall j :: start < j < r.value ==> !Balanced(t[start..j])
    ensures r.None? ==> forall j :: start < j <= |t| ==> !Balanced(t[start..j])
  {
    var stack: seq<char> := [];
    var inStr := false;
    var esc := false;
    var i := start;
    while i < |t|
      invariant start <= i <= |t|
      invariant ScanState(stack, inStr, esc) == RunTo(t, start, i)
      invariant i > start ==> stack != []
      invariant forall j :: start < j <= i ==> RunTo(t, start, j).stack != []
    {
      var ch := t[i];
      if inStr {
        if esc {
          esc := false;
        } else if ch == '\\' {
          esc := true;
        } else if ch == '"' {
          inStr := false;
        }
      } else if ch == '"' {
        inStr := true;
      } else if ch == '{' {
        stack := stack + ['}'];
      } else if ch == '[' {
        stack := stack + [']'];
      } else if stack != [] && ch == stack[|stack| - 1] {
        stack := stack[..|stack| - 1];
        if stack == [] {
          assert RunTo(t, start, i + 1).stack == [];
          FirstEmptyingIsShortest(t, start, i + 1);
          return Some(i + 1);
        }
      }
      assert ScanState(stack, inStr, esc) == RunTo(t, start, i + 1);
      i := i + 1;
    }
    NeverEmptiedIsNone(t, start);
    return None;
  }

  // ---------------------------------------------------------------------------
  // Strings are inert. The scanner's notion of a string literal: between the
  // quotes, any character except `"` and `\`, or a backslash followed by any
  // one character (the escape shapes of section 7 of RFC 8259, without the
  // check on what follows the backslash, which the scanner does not make).
  // ---------------------------------------------------------------------------

  predicate StringBody(b: string)
    decreases |b|
  {
    || b == []
    || (b[0] != '"' && b[0] != '\\' && StringBody(b[1..]))
    || (|b| >= 2 && b[0] == '\\' && StringBody(b[2..]))
  }

  /**
   * Inside a string body no prefix leaves the string or touches the stack
   * (so `}`, `]`, `{`, `[` and an escaped `\"` are all inert), and the whole
   * body returns the loop to the state it started in.
   */
  lemma {:induction false} StringBodyInert(st: ScanState, b: string, k: nat)
    requires st.inStr && !st.esc && StringBody(b) && k <= |b|
    ensures RunFrom(st, b[..k]).inStr && RunFrom(st, b[..k]).stack == st.stack
    ensures RunFrom(st, b) == st
    decreases |b|
  {
    if b == [] {
      assert b[..k] == [];
    } else if b[0] != '"' && b[0] != '\\' && StringBody(b[1..]) {
      assert Step(st, b[0]) == st;
      if k > 0 {
        assert b[..k][1..] == b[1..][..k - 1];
        StringBodyInert(st, b[1..], k - 1);
      } else {
        assert b[..k] == [];
      }
      StringBodyInert(st, b[1..], 0);
    } else {
      var st1 := st.(esc := true);
      assert Step(st, b[0]) == st1;
      assert Step(st1, b[1]) == st;
      assert RunFrom(st, b) == RunFrom(st, b[2..]) by {
        assert b[1..][1..] == b[2..];
      }
      if k >= 2 {
        assert b[..k][1..][1..] == b[2..][..k - 2];
        StringBodyInert(st, b[2..], k - 2);
        assert RunFrom(st, b[..k]) == RunFrom(st, b[2..][..k - 2]);
      } else if k == 1 {
        assert b[..k][1..] == [];
      } else {
        assert b[..k] == [];
      }
      StringBodyInert(st, b[2..], 0);
    }
  }

  /** A whole quoted string, met outside a string, leaves the scanner as it was. */
  lemma QuotedStringInert(st: ScanState, b: string)
    requires !st.inStr && !st.esc && StringBody(b)
    ensures RunFrom(st, ['"'] + b + ['"']) == st
  {
    var inside := st.(inStr := true);
    RunFromAppend(st, ['"'] + b, ['"']);
    RunFromAppend(st, ['"'], b);
    StringBodyInert(inside, b, 0);
  }

  // ---------------------------------------------------------------------------
  // An independent description of what the scanner accepts: a group is an
  // opener, a body, and the matching closer; a body is a run of items, each a
  // quoted string, a nested group, or one other character that is not the
  // group's own closer (a closer of the other kind is ignored by the scanner,
  // so it is an ordinary character here).
  // ---------------------------------------------------------------------------

  predicate Group(g: string)
    decreases |g|, 0
  {
    && |g| >= 2 && IsOpener(g[0]) && g[|g| - 1] == CloserOf(g[0])
    && Body(g[1..|g| - 1], CloserOf(g[0]))
  }

  predicate Item(x: string, close: char)
    decreases |x|, 1
  {
    || (|x| == 1 && x[0] != '"' && !IsOpener(x[0]) && x[0] != close)
    || (|x| >= 2 && x[0] == '"' && x[|x| - 1] == '"' && StringBody(x[1..|x| - 1]))
    || Group(x)
  }

  predicate Body(b: string, close: char)
    decreases |b|, 2
  {
    b == [] || exists n :: 0 < n <= |b| && Item(b[..n], close) && Body(b[n..], close)
  }

  /** `s` still holds all of `base` at its bottom. */
  predicate AtOrAbove(base: seq<char>, s: seq<char>) {
    |s| >= |base| && s[..|base|] == base
  }

  /** `s` holds all of `base` at its bottom and more on top. */
  predicate Above(base: seq<char>, s: seq<char>) {
    |s| > |base| && s[..|base|] == base
  }

  /** The state the loop is in right after it meets an opener outside strings. */
  function Opened(st: ScanState, c: char): ScanState {
    st.(stack := st.stack + [c])
  }

  /**
   * A group met outside a string brings the loop back to the state it started
   * in, and at every point strictly inside the group the stack is higher
   * than it was at the start.
   */
  lemma {:induction false} GroupRun(st: ScanState, g: string)
    requires !st.inStr && !st.esc && Group(g)
    ensures RunFrom(st, g) == st
    ensures forall k :: 0 < k < |g| ==> Above(st.stack, RunFrom(st, g[..k]).stack)
    decreases |g|, 0
  {
    var c := CloserOf(g[0]);
    var b := g[1..|g| - 1];
    var st1 := Opened(st, c);
    assert Step(st, g[0]) == st1;
    BodyRun(st1, b, c);
    assert (st.stack + [c])[..|st.stack|] == st.stack;
    assert Step(st1, c) == st;
    assert g == [g[0]] + b + [c];
    RunFromAppend(st, [g[0]] + b, [c]);
    RunFromAppend(st, [g[0]], b);
    forall k | 0 < k < |g|
      ensures Above(st.stack, RunFrom(st, g[..k]).stack)
    {
      assert g[..k] == [g[0]] + b[..k - 1];
      RunFromAppend(st, [g[0]], b[..k - 1]);
      var s' := RunFrom(st1, b[..k - 1]).stack;
      assert s'[..|st.stack| + 1] == st.stack + [c];
      assert s'[..|st.stack|] == (st.stack + [c])[..|st.stack|];
    }
  }

  /** One item of a body leaves the loop where it was and never digs into the stack. */
  lemma {:induction false} ItemRun(st: ScanState, x: string, c: char)
    requires !st.inStr && !st.esc && st.stack != [] && st.stack[|st.stack| - 1] == c
    requires Item(x, c)
    ensures RunFrom(st, x) == st
    ensures forall k :: 0 <= k <= |x| ==> AtOrAbove(st.stack, RunFrom(st, x[..k]).stack)
    decreases |x|, 1
  {
    assert x[..|x|] == x;
    assert x[..0] == [];
    if |x| == 1 && x[0] != '"' && !IsOpener(x[0]) && x[0] != c {
      assert Step(st, x[0]) == st;
    } else if |x| >= 2 && x[0] == '"' && x[|x| - 1] == '"' && StringBody(x[1..|x| - 1]) {
      var b := x[1..|x| - 1];
      assert x == ['"'] + b + ['"'];
      QuotedStringInert(st, b);
      var inside := st.(inStr := true);
      forall k | 0 < k < |x|
        ensures AtOrAbove(st.stack, RunFrom(st, x[..k]).stack)
      {
        assert x[..k] == ['"'] + b[..k - 1];
        RunFromAppend(st, ['"'], b[..k - 1]);
        StringBodyInert(inside, b, k - 1);
      }
    } else {
      GroupRun(st, x);
    }
  }

  /** A body, like each of its items, leaves the loop where it was. */
  lemma {:induction false} BodyRun(st: ScanState, b: string, c: char)
    requires !st.inStr && !st.esc && st.stack != [] && st.stack[|st.stack| - 1] == c
    requires Body(b, c)
    ensures RunFrom(st, b) == st
    ensures forall k :: 0 <= k <= |b| ==> AtOrAbove(st.stack, RunFrom(st, b[..k]).stack)
    decreases |b|, 2
  {
    if b == [] {
      assert b[..0] == [];
    } else {
      var n :| 0 < n <= |b| && Item(b[..n], c) && Body(b[n..], c);
      var x, rest := b[..n], b[n..];
      ItemRun(st, x, c);
      BodyRun(st, rest, c);
      assert b == x + rest;
      NeutralThenRest(st, x, rest);
    }
  }

  /** A piece that leaves the loop where it was, then the rest: the run stays above as both parts do. */
  lemma NeutralThenRest(st: ScanState, x: string, rest: string)
    requires RunFrom(st, x) == st
    requires forall k :: 0 <= k <= |x| ==> AtOrAbove(st.stack, RunFrom(st, x[..k]).stack)
    requires forall k :: 0 <= k <= |rest| ==> AtOrAbove(st.stack, RunFrom(st, rest[..k]).stack)
    ensures RunFrom(st, x + rest) == RunFrom(st, rest)
    ensures forall k :: 0 <= k <= |x + rest| ==> AtOrAbove(st.stack, RunFrom(st, (x + rest)[..k]).stack)
  {
    RunFromAppend(st, x, rest);
    forall k | 0 <= k <= |x + rest|
      ensures AtOrAbove(st.stack, RunFrom(st, (x + rest)[..k]).stack)
    {
      if k <= |x| {
        assert (x + rest)[..k] == x[..k];
      } else {
        PrefixPastNeutral(st, x, rest, k);
      }
    }
  }

  /** Past a piece that leaves the loop where it was, a prefix runs like the rest of its part. */
  lemma PrefixPastNeutral(st: ScanState, x: string, rest: string, k: nat)
    requires RunFrom(st, x) == st && |x| < k <= |x| + |rest|
    ensures RunFrom(st, (x + rest)[..k]) == RunFrom(st, rest[..k - |x|])
  {
    assert (x + rest)[..k] == x + rest[..k - |x|];
    RunFromAppend(st, x, rest[..k - |x|]);
  }

  /** The first opener of `pre + rest` is the first character of `rest` when `pre` has none. */
  lemma FirstOpenerAfterProse(pre: string, rest: string)
    requires forall k :: 0 <= k < |pre| ==> !IsOpener(pre[k])
    requires rest != [] && IsOpener(rest[0])
    ensures FirstOpener(pre + rest) == Some(|pre|)
  {
    var t := pre + rest;
    assert t[|pre|] == rest[0];
    assert forall k :: 0 <= k < |pre| ==> t[k] == pre[k];
  }

  /** The loop, started fresh on `g`, empties its stack at the end of `g` and nowhere before. */
  predicate EmptiesOnlyAtEnd(g: string) {
    && g != [] && IsOpener(g[0]) && RunFrom(Fresh, g).stack == []
    && forall k :: 0 < k < |g| ==> RunFrom(Fresh, g[..k]).stack != []
  }

  lemma GroupEmptiesOnlyAtEnd(g: string)
    requires Group(g)
    ensures EmptiesOnlyAtEnd(g)
  {
    GroupRun(Fresh, g);
  }

  /** Such a span is the shortest balanced span starting where it sits. */
  lemma IsShortestBalancedAt(t: string, p: nat, g: string)
    requires EmptiesOnlyAtEnd(g) && p + |g| <= |t| && t[p..p + |g|] == g
    ensures ShortestBalanced(t, p) == Some(p + |g|)
  {
    forall j | p < j < p + |g|
      ensures !Balanced(t[p..j])
    {
      assert t[p..j] == g[..j - p];
    }
  }

  /**
   * A group that follows opener-free prose is found whole, whatever follows it:
   * the scan starts at its first character and is cut exactly at its end.
   */
  lemma ScanFindsEmbeddedGroup(pre: string, g: string, post: string)
    requires forall k :: 0 <= k < |pre| ==> !IsOpener(pre[k])
    requires Group(g)
    ensures FirstOpener(pre + g + post) == Some(|pre|)
    ensures ShortestBalanced(pre + g + post, |pre|) == Some(|pre| + |g|)
  {
    GroupEmptiesOnlyAtEnd(g);
    FirstOpenerAfterProse(pre, g + post);
    assert pre + g + post == pre + (g + post);
    EmbeddedGroupSpan(pre, g, post);
  }

  lemma EmbeddedGroupSpan(pre: string, g: string, post: string)
    requires EmptiesOnlyAtEnd(g)
    ensures ShortestBalanced(pre + g + post, |pre|) == Some(|pre| + |g|)
  {
    MiddleSlice(pre, g, post);
    IsShortestBalancedAt(pre + g + post, |pre|, g);
  }

  lemma MiddleSlice(pre: string, g: string, post: string)
    ensures |pre| + |g| <= |pre + g + post| && (pre + g + post)[|pre|..|pre| + |g|] == g
  {
  }

  // Small cases, one per rule of the loop.

  /** The span ends at the first closer that empties the stack; what follows is never read. */
  lemma StopsAtFirstClosure(t: string)
    requires t == "[1]]"
    ensures ShortestBalanced(t, 0) == Some(3)
  {
    assert RunTo(t, 0, 1).stack == "]";
    assert RunTo(t, 0, 2).stack == "]";
    assert RunTo(t, 0, 3).stack == [];
    FirstEmptyingIsShortest(t, 0, 3);
  }

  /** A closer that is not on top of the stack is passed over, and the right one still closes. */
  lemma MismatchedCloserIgnored(t: string)
    requires t == "{]}"
    ensures ShortestBalanced(t, 0) == Some(3)
  {
    assert RunTo(t, 0, 1).stack == "}";
    assert RunTo(t, 0, 2).stack == "}";
    assert RunTo(t, 0, 3).stack == [];
    FirstEmptyingIsShortest(t, 0, 3);
  }

  /** A mismatched closer does not pop, so the text ends with the stack non-empty and there is no span. */
  lemma MismatchedCloserLeavesSpanOpen(t: string)
    requires t == "[{]"
    ensures ShortestBalanced(t, 0) == None
  {
    assert RunTo(t, 0, 1).stack == "]";
    assert RunTo(t, 0, 2).stack == "]}";
    assert RunTo(t, 0, 3).stack == "]}";
    NeverEmptiedIsNone(t, 0);
  }

  /** Inside a string a brace is inert, and an escaped quote does not end the string. */
  lemma EscapedQuoteStaysInString(t: string)
    requires t == "{\"\\\"}\"}"
    ensures ShortestBalanced(t, 0) == Some(7)
  {
    assert |t| == 7 && t[0] == '{' && t[1] == '"' && t[2] == '\\' && t[3] == '"';
    assert t[4] == '}' && t[5] == '"' && t[6] == '}';
    assert RunTo(t, 0, 1) == ScanState("}", false, false);
    assert RunTo(t, 0, 2) == ScanState("}", true, false);
    assert RunTo(t, 0, 3) == ScanState("}", true, true);
    assert RunTo(t, 0, 4) == ScanState("}", true, false);
    assert RunTo(t, 0, 5) == ScanState("}", true, false);
    assert RunTo(t, 0, 6) == ScanState("}", false, false);
    assert RunTo(t, 0, 7) == ScanState([], false, false);
    FirstEmptyingIsShortest(t, 0, 7);
  }
}
