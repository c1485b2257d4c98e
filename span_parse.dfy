/**
 * The converse of `Scanner.GroupEmptiesOnlyAtEnd`: every span on which the
 * scanning loop, started fresh, empties its stack at the end and nowhere
 * before is a `Group` of the independent grammar. Together they say that the
 * spans the scanner cuts are exactly the well-formed bracket groups, with
 * quoted strings skipped and closers of the other kind treated as plain text.
 *
 * The proof reads the span the way the grammar does: an item is a quoted
 * string (up to its first unescaped quote), a nested group (up to the first
 * point where the stack drops back), or one plain character.
 */
module SpanParse {
  import opened Scanner

  /** Outside a string the escape flag is off: the loop sets it only inside strings. */
  predicate Sane(st: ScanState) {
    st.esc ==> st.inStr
  }

  lemma {:induction false} RunFromSane(st: ScanState, s: string)
    requires Sane(st)
    ensures Sane(RunFrom(st, s))
    decreases |s|
  {
    if s != [] {
      RunFromSane(Step(st, s[0]), s[1..]);
    }
  }

  /** One step never disturbs the bottom `base` of the stack unless it drops below it. */
  lemma StepKeepsBase(base: seq<char>, x: ScanState, c: char)
    requires AtOrAbove(base, x.stack) && |Step(x, c).stack| >= |base|
    ensures AtOrAbove(base, Step(x, c).stack)
  {
    var s := x.stack;
    if !x.inStr && c != '"' && !IsOpener(c) && s != [] && c == s[|s| - 1] {
      assert s[..|s| - 1][..|base|] == s[..|base|];
    } else if !x.inStr && IsOpener(c) {
      assert (s + [CloserOf(c)])[..|base|] == s[..|base|];
    }
  }

  /** Outside a string, an opener pushes its own closer. */
  lemma StepOpener(st: ScanState, o: char)
    requires !st.inStr && IsOpener(o)
    ensures Step(st, o) == Opened(st, CloserOf(o))
  {
  }

  // Quoted strings.

  /** Where the string that the loop is inside ends: the index of the first unescaped quote. */
  function StringEnd(s: string): nat
    decreases |s|
  {
    if s == [] then 0
    else if s[0] == '"' then 0
    else if s[0] == '\\' then (if |s| >= 2 then 2 + StringEnd(s[2..]) else 1)
    else 1 + StringEnd(s[1..])
  }

  /**
   * When the loop, inside a string, has left it by the end of `s`, the string
   * closes at `StringEnd(s)`: a quote preceded by a string body, after which the
   * loop is just outside the string.
   */
  lemma {:induction false} StringEndCloses(st: ScanState, s: string)
    requires st.inStr && !st.esc && !RunFrom(st, s).inStr
    ensures StringEnd(s) < |s| && s[StringEnd(s)] == '"'
    ensures StringBody(s[..StringEnd(s)])
    ensures RunFrom(st, s[..StringEnd(s) + 1]) == st.(inStr := false)
    decreases |s|
  {
    if s[0] == '"' {
      assert s[..1] == ['"'];
      assert s[..0] == [];
    } else if s[0] == '\\' {
      var e := st.(esc := true);
      assert Step(st, s[0]) == e;
      if |s| == 1 {
        assert false;
      }
      assert Step(e, s[1]) == st;
      assert s[1..][1..] == s[2..];
      assert RunFrom(st, s) == RunFrom(st, s[2..]);
      StringEndCloses(st, s[2..]);
      var m := StringEnd(s[2..]);
      assert StringEnd(s) == m + 2;
      assert s[..m + 2][2..] == s[2..][..m];
      assert s[..m + 3][1..][1..] == s[2..][..m + 1];
    } else {
      assert Step(st, s[0]) == st;
      assert RunFrom(st, s) == RunFrom(st, s[1..]);
      StringEndCloses(st, s[1..]);
      var m := StringEnd(s[1..]);
      assert StringEnd(s) == m + 1;
      assert s[..m + 1][1..] == s[1..][..m];
      assert s[..m + 2][1..] == s[1..][..m + 1];
    }
  }

  // Nested groups.

  /** The first prefix length from `k` on at which the stack is back at or below its starting height. */
  function FirstDrop(st: ScanState, b: string, k: nat): (j: nat)
    requires k <= |b| && |RunFrom(st, b[..|b|]).stack| <= |st.stack|
    decreases |b| - k
    ensures k <= j <= |b| && |RunFrom(st, b[..j]).stack| <= |st.stack|
    ensures forall i :: k <= i < j ==> |RunFrom(st, b[..i]).stack| > |st.stack|
  {
    if |RunFrom(st, b[..k]).stack| <= |st.stack| then k else FirstDrop(st, b, k + 1)
  }

  /** The loop starts outside a string, `g` opens, and the stack drops back only at the end of `g`. */
  predicate OpensAndDropsAtEnd(st: ScanState, g: string) {
    && !st.inStr && !st.esc && g != [] && IsOpener(g[0])
    && |RunFrom(st, g).stack| <= |st.stack|
    && forall k :: 0 < k < |g| ==> |RunFrom(st, g[..k]).stack| > |st.stack|
  }

  /** Strictly inside such a span, the closer pushed by its opener stays on the stack. */
  lemma {:induction false} OpenerStaysBelow(st: ScanState, g: string, k: nat)
    requires OpensAndDropsAtEnd(st, g) && 0 < k < |g|
    ensures AtOrAbove(st.stack + [CloserOf(g[0])], RunFrom(st, g[..k]).stack)
    decreases k
  {
    var base := st.stack + [CloserOf(g[0])];
    if k == 1 {
      assert g[..1] == [g[0]];
      StepOpener(st, g[0]);
      assert RunFrom(st, [g[0]]) == Step(st, g[0]);
      assert base[..|base|] == base;
    } else {
      OpenerStaysBelow(st, g, k - 1);
      assert g[..k] == g[..k - 1] + [g[k - 1]];
      RunFromSnoc(st, g[..k - 1], g[k - 1]);
      StepKeepsBase(base, RunFrom(st, g[..k - 1]), g[k - 1]);
    }
  }

  /** The last character of such a span is the closer of its opener, and it brings the loop back. */
  lemma ClosesAtEnd(st: ScanState, g: string)
    requires OpensAndDropsAtEnd(st, g)
    ensures |g| >= 2 && g[|g| - 1] == CloserOf(g[0])
    ensures RunFrom(st, g[..|g| - 1]) == Opened(st, CloserOf(g[0]))
    ensures RunFrom(st, g) == st
  {
    var c := CloserOf(g[0]);
    var base := st.stack + [c];
    assert g[..1] == [g[0]] && g[..|g|] == g;
    StepOpener(st, g[0]);
    assert RunFrom(st, g[..1]) == Step(st, g[0]);
    assert |g| >= 2;
    var n := |g|;
    var x := RunFrom(st, g[..n - 1]);
    OpenerStaysBelow(st, g, n - 1);
    RunFromSane(st, g[..n - 1]);
    assert g == g[..n - 1] + [g[n - 1]];
    RunFromSnoc(st, g[..n - 1], g[n - 1]);
    assert RunFrom(st, g) == Step(x, g[n - 1]);
    assert |x.stack| == |base| && x.stack == base by {
      assert x.stack[..|base|] == base;
    }
    assert !x.inStr && !x.esc;
    assert x == Opened(st, c);
  }

  /** Such a span is a group of the grammar, and it leaves the loop where it was. */
  lemma {:induction false} SpanIsGroupFrom(st: ScanState, g: string)
    requires OpensAndDropsAtEnd(st, g)
    ensures Group(g) && RunFrom(st, g) == st
    decreases |g|, 0
  {
    ClosesAtEnd(st, g);
    var c := CloserOf(g[0]);
    var st1 := Opened(st, c);
    var body := g[1..|g| - 1];
    StepOpener(st, g[0]);
    assert RunFrom(st, [g[0]]) == st1;
    assert g[..|g| - 1] == [g[0]] + body;
    RunFromAppend(st, [g[0]], body);
    forall k | 0 <= k <= |body|
      ensures AtOrAbove(st1.stack, RunFrom(st1, body[..k]).stack)
    {
      assert g[..k + 1] == [g[0]] + body[..k];
      RunFromAppend(st, [g[0]], body[..k]);
      OpenerStaysBelow(st, g, k + 1);
    }
    BodyFrom(st1, body, c);
  }

  /** The conditions under which a run from `st` over `b` is a body closed by `c`. */
  predicate NeutralAbove(st: ScanState, b: string, c: char) {
    && !st.inStr && !st.esc && st.stack != [] && st.stack[|st.stack| - 1] == c
    && RunFrom(st, b) == st
    && forall k :: 0 <= k <= |b| ==> AtOrAbove(st.stack, RunFrom(st, b[..k]).stack)
  }

  /**
   * A run that comes back to where it started and never digs into the stack
   * below its top closer `c` is a body closed by `c`.
   */
  lemma {:induction false} BodyFrom(st: ScanState, b: string, c: char)
    requires NeutralAbove(st, b, c)
    ensures Body(b, c)
    decreases |b|, 2
  {
    if b != [] {
      assert b[..1] == [b[0]];
      assert RunFrom(st, b[..1]) == Step(st, b[0]);
      if b[0] == '"' {
        var inside := st.(inStr := true);
        assert RunFrom(st, b) == RunFrom(inside, b[1..]);
        StringEndCloses(inside, b[1..]);
        var m := StringEnd(b[1..]);
        var n := m + 2;
        var x := b[..n];
        assert x[1..] == b[1..][..m + 1];
        assert RunFrom(st, x) == RunFrom(inside, x[1..]) == st;
        assert x[1..|x| - 1] == b[1..][..m];
        assert Item(x, c);
        AfterItem(st, b, c, n);
      } else if IsOpener(b[0]) {
        assert b[..|b|] == b;
        var j := FirstDrop(st, b, 1);
        var g := b[..j];
        forall k | 0 < k < |g|
          ensures |RunFrom(st, g[..k]).stack| > |st.stack|
        {
          assert g[..k] == b[..k];
        }
        SpanIsGroupFrom(st, g);
        AfterItem(st, b, c, j);
      } else {
        if b[0] == c {
          assert false;
        }
        assert Step(st, b[0]) == st;
        assert Item(b[..1], c);
        AfterItem(st, b, c, 1);
      }
    }
  }

  /** An item that leaves the loop where it was, followed by the rest of a neutral run, makes a body. */
  lemma {:induction false} AfterItem(st: ScanState, b: string, c: char, n: nat)
    requires NeutralAbove(st, b, c)
    requires 0 < n <= |b| && Item(b[..n], c) && RunFrom(st, b[..n]) == st
    ensures Body(b, c)
    decreases |b|, 1
  {
    var x, rest := b[..n], b[n..];
    assert b == x + rest;
    RunFromAppend(st, x, rest);
    forall k | 0 <= k <= |rest|
      ensures AtOrAbove(st.stack, RunFrom(st, rest[..k]).stack)
    {
      if k == 0 {
        assert rest[..0] == [];
        assert st.stack[..|st.stack|] == st.stack;
      } else {
        PrefixPastNeutral(st, x, rest, n + k);
      }
    }
    BodyFrom(st, rest, c);
  }

  /** Every span that empties the fresh loop's stack at its end and nowhere before is a group. */
  lemma SpanIsGroup(g: string)
    requires EmptiesOnlyAtEnd(g)
    ensures Group(g)
  {
    SpanIsGroupFrom(Fresh, g);
  }

  /** The spans the loop cuts are exactly the groups of the grammar. */
  lemma GroupIffEmptiesOnlyAtEnd(g: string)
    ensures Group(g) <==> EmptiesOnlyAtEnd(g)
  {
    if Group(g) {
      GroupEmptiesOnlyAtEnd(g);
    }
    if EmptiesOnlyAtEnd(g) {
      SpanIsGroup(g);
    }
  }
}
