/**
 * `extract_json_from_text` of api/utils.py: the fenced block first, and when
 * that is absent or does not decode, the balanced span from the first `{` or `[`.
 *
 * `json.loads` is left abstract: a decoder is any function from the candidate
 * text to Some(value), or to None where `json.loads` raises. Some(JNull) is a
 * successful decode of `null`, which Python returns as None.
 */
module Extractor {
  import opened Wrappers
  import opened PyJson
  import opened Text
  import opened Fence
  import opened Scanner
  import opened SpanParse

  type Decoder = string -> Option<Json>

  /**
   * The text handed to the decoder after the fence fails: the shortest
   * balanced span starting at the first opener of the whole text.
   */
  function ScanCandidate(t: string): (r: Option<string>)
    ensures r.Some? <==> FirstOpener(t).Some? && ShortestBalanced(t, FirstOpener(t).value).Some?
    ensures r.Some? ==> var s := FirstOpener(t).value;
      && s + |r.value| <= |t| && r.value == t[s..s + |r.value|]
      && Balanced(r.value)
      && forall j :: 0 < j < |r.value| ==> !Balanced(r.value[..j])
  {
    match FirstOpener(t)
    case None => None
    case Some(s) =>
      match ShortestBalanced(t, s)
      case None => None
      case Some(e) =>
        var c := t[s..e];
        assert forall j :: 0 < j < |c| ==> c[..j] == t[s..s + j];
        Some(c)
  }

  /** Step 2: the scanned candidate is decoded once; a failure is final. */
  function ScanAndDecode(t: string, decode: Decoder): Option<Json> {
    match ScanCandidate(t)
    case None => None
    case Some(c) => decode(c)
  }

  /** Both steps, without the empty-text guard: the copy nested in api/index.py. */
  function FenceThenScan(t: string, decode: Decoder): Option<Json> {
    var f := FenceCandidate(t);
    if f.Some? && decode(f.value).Some? then decode(f.value) else ScanAndDecode(t, decode)
  }

  /** The function of api/utils.py: empty text first gives None. */
  function Extracted(t: string, decode: Decoder): Option<Json> {
    if t == "" then None else FenceThenScan(t, decode)
  }

  /** The extractor of api/utils.py, with its loops. */
  method ExtractJsonFromText(t: string, decode: Decoder) returns (r: Option<Json>)
    ensures r == Extracted(t, decode)
  {
    if t == "" {
      return None;
    }
    var fence := FenceCandidate(t);
    if fence.Some? {
      var v := decode(fence.value);
      if v.Some? {
        return v;
      }
    }
    var start := FindFirstOpener(t);
    if start.None? {
      return None;
    }
    var end := ScanSpan(t, start.value);
    if end.None? {
      return None;
    }
    r := decode(t[start.value..end.value]);
  }

  lemma EmptyTextIsNone(decode: Decoder)
    ensures Extracted("", decode) == None
  {
  }

  /** A fenced block that decodes is the result, before any scanning. */
  lemma FenceDecodesFirst(t: string, decode: Decoder)
    requires t != "" && FenceCandidate(t).Some? && decode(FenceCandidate(t).value).Some?
    ensures Extracted(t, decode) == decode(FenceCandidate(t).value)
  {
  }

  /** A fenced block that does not decode is not final: scanning takes over. */
  lemma FenceFailureFallsThrough(t: string, decode: Decoder)
    requires t != "" && (FenceCandidate(t).None? || decode(FenceCandidate(t).value).None?)
    ensures Extracted(t, decode) == ScanAndDecode(t, decode)
  {
  }

  /** Without an opener anywhere, or without any balanced span from it, the scan gives None. */
  lemma NoCandidateIsNone(t: string, decode: Decoder)
    requires (forall k :: 0 <= k < |t| ==> !IsOpener(t[k]))
      || (FirstOpener(t).Some? && forall j :: FirstOpener(t).value < j <= |t| ==> !Balanced(t[FirstOpener(t).value..j]))
    ensures ScanAndDecode(t, decode) == None
  {
  }

  /**
   * Only the one candidate is ever decoded: decoders that agree on the fence
   * candidate and on the scanned span give the same result, whatever they do
   * on every other substring.
   */
  lemma OnlyTheCandidatesAreDecoded(t: string, d1: Decoder, d2: Decoder)
    requires FenceCandidate(t).Some? ==> d1(FenceCandidate(t).value) == d2(FenceCandidate(t).value)
    requires ScanCandidate(t).Some? ==> d1(ScanCandidate(t).value) == d2(ScanCandidate(t).value)
    ensures Extracted(t, d1) == Extracted(t, d2)
  {
  }

  /** The copy nested in api/index.py, which has no empty-text guard, agrees on every text. */
  lemma NestedCopyAgrees(t: string, decode: Decoder)
    ensures FenceThenScan(t, decode) == Extracted(t, decode)
  {
    if t == "" {
      assert FirstOpener(t).None?;
    }
  }

  /**
   * A single well-formed value after opener-free prose, with no fence that
   * decodes, is located and decoded whole, whatever text follows it.
   */
  lemma LocatesEmbeddedValue(pre: string, g: string, post: string, decode: Decoder)
    requires forall k :: 0 <= k < |pre| ==> !IsOpener(pre[k])
    requires Group(g)
    requires var f := FenceCandidate(pre + g + post); f.None? || decode(f.value).None?
    ensures ScanCandidate(pre + g + post) == Some(g)
    ensures Extracted(pre + g + post, decode) == decode(g)
  {
    var t := pre + g + post;
    ScanFindsEmbeddedGroup(pre, g, post);
    assert t[|pre|..|pre| + |g|] == g;
  }

  /**
   * Whenever the scan yields a candidate, it is a well-formed bracket group:
   * the scan never hands the decoder a span cut in the middle of a string or
   * closed by a bracket of the wrong kind.
   */
  lemma CandidateIsGroup(t: string)
    ensures ScanCandidate(t).Some? ==> Group(ScanCandidate(t).value)
  {
    if ScanCandidate(t).Some? {
      var c := ScanCandidate(t).value;
      forall k | 0 < k < |c|
        ensures RunFrom(Fresh, c[..k]).stack != []
      {
        assert c[..k][0] == c[0];
        assert !Balanced(c[..k]);
      }
      SpanIsGroup(c);
    }
  }

  /**
   * A block opened by "```json" (any case) after backtick-free prose, holding
   * no backtick, is decoded from its stripped inner text when it decodes.
   */
  lemma DecodesFencedBlock(pre: string, tag: string, body: string, post: string, decode: Decoder)
    requires forall k :: 0 <= k < |pre| ==> pre[k] != '`'
    requires forall k :: 0 <= k < |body| ==> body[k] != '`'
    requires |tag| == 4 && JsonTagAt(tag, 0)
    requires decode(Strip(body)).Some?
    ensures Extracted(pre + Ticks + tag + body + Ticks + post, decode) == decode(Strip(body))
  {
    TaggedBlockIsCandidate(pre, tag, body, post);
  }

  /**
   * A bare "```" block after backtick-free prose, whose body holds no backtick
   * and does not start with a `json` tag, is decoded from its stripped inner
   * text when that decodes.
   */
  lemma DecodesUntaggedBlock(pre: string, body: string, post: string, decode: Decoder)
    requires forall k :: 0 <= k < |pre| ==> pre[k] != '`'
    requires forall k :: 0 <= k < |body| ==> body[k] != '`'
    requires !JsonTagAt(body, 0)
    requires decode(Strip(body)).Some?
    ensures Extracted(pre + Ticks + body + Ticks + post, decode) == decode(Strip(body))
  {
    UntaggedBlockIsCandidate(pre, body, post);
  }
}
