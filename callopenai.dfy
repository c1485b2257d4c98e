/**
 * What `call_openai` of api/index.py does with the model's output text: the
 * empty-text check, the nested extractor, the two accepted shapes of the
 * decoded value and the nested copy of the normalizer. Each 502 it raises and
 * each exception its list comprehension lets escape is an `ApiError`.
 */
module CallOpenAi {
  import opened Wrappers
  import opened PyJson
  import opened Scanner
  import opened Extractor
  import opened Normalizer

  datatype ApiError =
    | NoTextOutput          // 502 "OpenAI returned no text output"
    | InvalidJson           // 502 "Model did not return valid JSON"
    | NoItems               // 502 "Unexpected OpenAI response (no items)"
    | NotIterable           // `for it in items_list` over a number, a bool or None
    | BadItem(e: NormError) // `normalize_item` raised on an element

  /**
   * The two accepted shapes: a dict with an `items` key gives that value,
   * whatever it is (so `{"items": null}` passes this test); a list gives
   * itself; every other shape is the 502 "no items".
   */
  function ResolveItems(v: Json): (r: Result<Json, ApiError>)
    ensures r.Err? <==> !v.JArr? && !(v.JObj? && "items" in v.fields)
    ensures r.Err? ==> r.error == NoItems
    ensures v.JArr? ==> r == Ok(v)
    ensures v.JObj? && "items" in v.fields ==> r == Ok(v.fields["items"])
  {
    if v.JObj? && "items" in v.fields then Ok(v.fields["items"])
    else if v.JArr? then Ok(v)
    else Err(NoItems)
  }

  /**
   * The elements `for it in items_list` visits. The first key of a non-empty
   * dict and the first character of a non-empty string are strings, on which
   * `normalize_item` fails at once; empty ones give no elements. A number, a
   * bool or null cannot be iterated at all.
   */
  function IterItems(v: Json): (r: Result<seq<Json>, ApiError>)
    ensures v.JArr? ==> r == Ok(v.elems)
    ensures r.Ok? && !v.JArr? ==> r.value == []
    ensures r.Err? <==> (v.JObj? && v.fields != map[]) || (v.JStr? && v.s != "") || v.JNull? || v.JNum? || v.JBool?
    ensures r.Err? ==> (r.error == NotIterable <==> v.JNull? || v.JNum? || v.JBool?)
    ensures r.Err? && r.error != NotIterable ==> r.error == BadItem(NotADict)
  {
    match v
    case JArr(xs) => Ok(xs)
    case JObj(m) => if m == map[] then Ok([]) else Err(BadItem(NotADict))
    case JStr(s) => if s == "" then Ok([]) else Err(BadItem(NotADict))
    case _ => Err(NotIterable)
  }

  /** From the decoded value on: its shape, then the nested normalizer. */
  function FromParsed(v: Json, topK: int): Result<seq<Item>, ApiError> {
    match ResolveItems(v)
    case Err(e) => Err(e)
    case Ok(itemsList) =>
      match IterItems(itemsList)
      case Err(e) => Err(e)
      case Ok(items) =>
        match NormalizedAndFiltered(items, topK, TitleDefaultEmpty)
        case Err(e) => Err(BadItem(e))
        case Ok(r) => Ok(r)
  }

  /** The whole tail of `call_openai`, from the output text to the returned items. */
  function ModelTextToItems(text: string, topK: int, decode: Decoder): Result<seq<Item>, ApiError> {
    if text == "" then Err(NoTextOutput)
    else
      match FenceThenScan(text, decode)
      case None => Err(InvalidJson)
      case Some(JNull) => Err(InvalidJson)
      case Some(v) => FromParsed(v, topK)
  }

  /** The tail of `call_openai`, step by step. */
  method CallOpenAiTail(text: string, topK: int, decode: Decoder) returns (r: Result<seq<Item>, ApiError>)
    ensures r == ModelTextToItems(text, topK, decode)
  {
    if text == "" {
      return Err(NoTextOutput);
    }
    var parsed := ExtractJsonFromText(text, decode);
    NestedCopyAgrees(text, decode);
    if parsed.None? || parsed.value.JNull? {
      return Err(InvalidJson);
    }
    var itemsList := ResolveItems(parsed.value);
    if itemsList.Err? {
      return Err(itemsList.error);
    }
    var items := IterItems(itemsList.value);
    if items.Err? {
      return Err(items.error);
    }
    var normalized := NormalizeAll(items.value, TitleDefaultEmpty);
    if normalized.Err? {
      return Err(BadItem(normalized.error));
    }
    var finished := FinishItems(normalized.value, topK);
    r := Ok(finished);
  }

  /** Empty output text is a 502 before anything is parsed. */
  lemma EmptyTextIsFatal(topK: int, decode: Decoder)
    ensures ModelTextToItems("", topK, decode) == Err(NoTextOutput)
  {
  }

  /** Text the extractor gives nothing for, or only `null`, is a 502 "invalid JSON". */
  lemma NothingExtractedIsFatal(text: string, topK: int, decode: Decoder)
    requires text != ""
    ensures ModelTextToItems(text, topK, decode) == Err(InvalidJson) <==>
      FenceThenScan(text, decode) in {None, Some(JNull)}
  {
    match FenceThenScan(text, decode)
    case None =>
    case Some(v) =>
      if v != JNull {
        assert ModelTextToItems(text, topK, decode) == FromParsed(v, topK);
        match ResolveItems(v)
        case Err(e) => assert e == NoItems;
        case Ok(l) =>
          match IterItems(l)
          case Err(e) => assert e != InvalidJson;
          case Ok(items) =>
      }
  }

  /** A bare list and the same list under `"items"` give the same answer, whatever else the dict holds. */
  lemma WrappedAndBareListAgree(m: map<string, Json>, xs: seq<Json>, topK: int)
    requires "items" in m && m["items"] == JArr(xs)
    ensures FromParsed(JObj(m), topK) == FromParsed(JArr(xs), topK)
  {
  }

  /** A decoded value that is neither a dict with `"items"` nor a list is a 502 "no items". */
  lemma OtherShapesHaveNoItems(v: Json, topK: int)
    ensures FromParsed(v, topK) == Err(NoItems) <==> !(v.JObj? && "items" in v.fields) && !v.JArr?
  {
    if v.JObj? && "items" in v.fields {
      assert IterItems(v.fields["items"]) != Err(NoItems);
    }
  }

  /**
   * On a list whose items read their titles alike, the index.py copy returns
   * what `normalize_and_filter_items` of api/utils.py returns.
   */
  lemma AgreesWithUtilsNormalizer(xs: seq<Json>, topK: int)
    requires forall k :: 0 <= k < |xs| ==> TitleReadsAgree(xs[k])
    ensures var u := NormalizedAndFiltered(xs, topK, TitleOrEmpty);
      FromParsed(JArr(xs), topK) == if u.Ok? then Ok(u.value) else Err(BadItem(u.error))
  {
    NormalizeAllCopiesAgree(xs);
  }

  /**
   * A list written after prose without braces or brackets, and no fenced
   * block that decodes, reaches the normalizer whatever follows it.
   */
  lemma ProseAroundAList(pre: string, g: string, post: string, topK: int, decode: Decoder)
    requires forall k :: 0 <= k < |pre| ==> !IsOpener(pre[k])
    requires Group(g)
    requires var f := Fence.FenceCandidate(pre + g + post); f.None? || decode(f.value).None?
    requires decode(g).Some? && decode(g).value.JArr?
    ensures ModelTextToItems(pre + g + post, topK, decode) == FromParsed(decode(g).value, topK)
  {
    LocatesEmbeddedValue(pre, g, post, decode);
    NestedCopyAgrees(pre + g + post, decode);
    assert g != [];
  }
}
