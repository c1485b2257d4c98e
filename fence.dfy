/**
 * The fenced-block search of `extract_json_from_text`: the pattern
 * ```` ```(?:json)?\s*(.*?)\s*``` ```` searched with DOTALL and IGNORECASE,
 * followed by `.strip()` of the captured group, written as explicit finds.
 *
 * The leftmost match starts at the first "```" of the text (any later start
 * needs a closing "```" that would serve the first one too). The optional tag
 * is tried first; none of the four tag characters is a backtick, so a closing
 * "```" exists after the tag exactly when one exists after the opening fence
 * (lemma TagDoesNotMoveClosingFence). The lazy group ends at the first "```"
 * after the opening (and tag), and the `\s*` on both sides only removes
 * whitespace that `.strip()` removes as well.
 */
module Fence {
  import opened Wrappers
  import opened Text

  const Ticks: string := "```"

  /** `json` after the opening fence, as IGNORECASE matches it (U+017F folds to `s`). */
  predicate JsonTagAt(t: string, k: nat) {
    && k + 4 <= |t|
    && t[k] in "jJ" && t[k + 1] in "sS\U{17F}" && t[k + 2] in "oO" && t[k + 3] in "nN"
  }

  /** Where the captured group starts, given the index of the opening fence. */
  function InnerStart(t: string, p: nat): nat {
    if JsonTagAt(t, p + 3) then p + 7 else p + 3
  }

  /**
   * The fence candidate: the pattern matches exactly when the text holds two
   * fences that do not overlap; the stripped group then holds no fence, and it
   * neither starts nor ends with whitespace.
   */
  function FenceCandidate(t: string): (r: Option<string>)
    ensures r.Some? <==> exists p: nat, k: nat :: p + 3 <= k && OccursAt(t, Ticks, p) && OccursAt(t, Ticks, k)
    ensures r.Some? ==> forall m :: !OccursAt(r.value, Ticks, m)
    ensures r.Some? && r.value != [] ==> !IsSpace(r.value[0]) && !IsSpace(r.value[|r.value| - 1])
  {
    match IndexOf(t, Ticks, 0)
    case None => None
    case Some(p) =>
      ClosingSearchFrom(t, p);
      var s := InnerStart(t, p);
      match IndexOf(t, Ticks, s)
      case None => None
      case Some(k) =>
        NoFenceInStrippedGap(t, s, k);
        Some(Strip(t[s..k]))
  }

  /** Looking for the closing fence after the tag finds the one that follows the opening fence. */
  lemma ClosingSearchFrom(t: string, p: nat)
    ensures IndexOf(t, Ticks, InnerStart(t, p)) == IndexOf(t, Ticks, p + 3)
  {
    if JsonTagAt(t, p + 3) {
      TagDoesNotMoveClosingFence(t, p);
    }
  }

  /** The tag holds no backtick, so skipping it never skips a closing fence. */
  lemma TagDoesNotMoveClosingFence(t: string, p: nat)
    requires JsonTagAt(t, p + 3)
    ensures IndexOf(t, Ticks, p + 3) == IndexOf(t, Ticks, p + 7)
  {
    assert forall k :: p + 3 <= k < p + 7 ==> !OccursAt(t, Ticks, k);
    IndexOfSkips(t, Ticks, p + 3, p + 7);
  }

  lemma NoFenceInStrippedGap(t: string, s: nat, k: nat)
    requires s <= k <= |t|
    requires forall j :: s <= j < k ==> !OccursAt(t, Ticks, j)
    ensures forall m :: !OccursAt(Strip(t[s..k]), Ticks, m)
  {
    var c := Strip(t[s..k]);
    var i := StripOffset(t[s..k]);
    SliceOfSlice(t, s, k, i, i + |c|);
    assert c == t[s + i..s + i + |c|];
    forall m: nat | OccursAt(c, Ticks, m)
      ensures false
    {
      OccursInSlice(t, Ticks, s + i, s + i + |c|, m);
    }
  }

  /** Where the first fence, the tag and the next fence sit determines the candidate. */
  lemma TaggedCandidateAt(t: string, p: nat, q: nat)
    requires OccursAt(t, Ticks, p) && forall j :: 0 <= j < p ==> !OccursAt(t, Ticks, j)
    requires JsonTagAt(t, p + 3) && p + 7 <= q
    requires OccursAt(t, Ticks, q) && forall j :: p + 7 <= j < q ==> !OccursAt(t, Ticks, j)
    ensures FenceCandidate(t) == Some(Strip(t[p + 7..q]))
  {
    IndexOfSkips(t, Ticks, 0, p);
    IndexOfSkips(t, Ticks, p + 7, q);
  }

  /** When the first fence carries no `json` tag, the candidate is the stripped text up to the next fence. */
  lemma UntaggedCandidateAt(t: string, p: nat, q: nat)
    requires OccursAt(t, Ticks, p) && forall j :: 0 <= j < p ==> !OccursAt(t, Ticks, j)
    requires !JsonTagAt(t, p + 3) && p + 3 <= q
    requires OccursAt(t, Ticks, q) && forall j :: p + 3 <= j < q ==> !OccursAt(t, Ticks, j)
    ensures FenceCandidate(t) == Some(Strip(t[p + 3..q]))
  {
    IndexOfSkips(t, Ticks, 0, p);
    IndexOfSkips(t, Ticks, p + 3, q);
  }

  /**
   * A bare "```" block right after backtick-free prose, holding no backtick and
   * not starting with a `json` tag, yields exactly its stripped inner text.
   */
  lemma UntaggedBlockIsCandidate(pre: string, body: string, post: string)
    requires forall k :: 0 <= k < |pre| ==> pre[k] != '`'
    requires forall k :: 0 <= k < |body| ==> body[k] != '`'
    requires !JsonTagAt(body, 0)
    ensures FenceCandidate(pre + Ticks + body + Ticks + post) == Some(Strip(body))
  {
    var t := pre + Ticks + body + Ticks + post;
    var p := |pre|;
    var q := p + 3 + |body|;
    assert t[..p] == pre;
    assert t[p..p + 3] == Ticks;
    assert t[p + 3..q] == body;
    assert t[q..q + 3] == Ticks;
    if |body| >= 4 {
      assert t[p + 3..p + 7] == body[..4];
    } else {
      assert t[q] == '`';
    }
    forall j | 0 <= j < p
      ensures !OccursAt(t, Ticks, j)
    {
      assert t[j] == t[..p][j];
    }
    forall j | p + 3 <= j < q
      ensures !OccursAt(t, Ticks, j)
    {
      assert t[j] == t[p + 3..q][j - p - 3];
    }
    UntaggedCandidateAt(t, p, q);
  }

  /**
   * A block opened by "```json" (any case) right after backtick-free prose and
   * holding no backtick yields exactly its stripped inner text.
   */
  lemma TaggedBlockIsCandidate(pre: string, tag: string, body: string, post: string)
    requires forall k :: 0 <= k < |pre| ==> pre[k] != '`'
    requires forall k :: 0 <= k < |body| ==> body[k] != '`'
    requires |tag| == 4 && JsonTagAt(tag, 0)
    ensures FenceCandidate(pre + Ticks + tag + body + Ticks + post) == Some(Strip(body))
  {
    var t := pre + Ticks + tag + body + Ticks + post;
    var p := |pre|;
    var q := p + 7 + |body|;
    assert t[..p] == pre;
    assert t[p..p + 3] == Ticks;
    assert t[p + 3..p + 7] == tag;
    assert t[p + 7..q] == body;
    assert t[q..q + 3] == Ticks;
    forall j | 0 <= j < p
      ensures !OccursAt(t, Ticks, j)
    {
      assert t[j] == t[..p][j];
    }
    forall j | p + 7 <= j < q
      ensures !OccursAt(t, Ticks, j)
    {
      assert t[j] == t[p + 7..q][j - p - 7];
    }
    TaggedCandidateAt(t, p, q);
  }
}
