/**
 * `normalize_and_filter_items` of api/utils.py and its inner `normalize_item`,
 * with the variant of `normalize_item` nested in `call_openai` of api/index.py.
 *
 * Raw items are whatever the decoded JSON holds, so a raw item is a Json value
 * (a dict when it is well formed) and normalized fields keep the raw values
 * they were copied from, as the Python dicts do.
 */
module Normalizer {
  import opened Wrappers
  import opened PyJson
  import opened Text

  /** The two grant-type tags of api/schemas.py: 補助金 (subsidy) and 助成金 (grant). */
  const Subsidy: string := "補助金"
  const Grant: string := "助成金"

  /** The normalized dict, field by field; only `confidence` is always a number. */
  datatype Item = Item(
    title: Json,
    summary: Json,
    sourceUrl: Json,
    grantType: Json,
    deadline: Json,
    amountMax: Json,
    rateMax: Json,
    area: Json,
    municipality: Json,
    industry: Json,
    confidence: real,
    reasons: Json)

  /** Exceptions `normalize_item` raises; neither copy recovers from them. */
  datatype NormError =
    | NotADict             // `i.get` on a value that is not a dict
    | TitleNotAString      // `.lower()` on a title that is not a str
    | ConfidenceNotANumber // `float(...)` on a list, a dict or a str

  /**
   * How a copy reads the title for grant-type inference: api/utils.py uses
   * `(i.get("title") or "")`, api/index.py uses `i.get("title", "")`, which
   * keeps a null or other falsy non-string title.
   */
  datatype TitleRead = TitleOrEmpty | TitleDefaultEmpty

  /** The tag inferred from a title: 補助金 wins over 助成金, and 補助金 is the default. */
  function InferGrantType(title: string): (r: string)
    ensures r == Subsidy || r == Grant
    ensures r == Grant <==> Contains(title, Grant) && !Contains(title, Subsidy)
  {
    assert Subsidy[0] != Grant[0];
    if Contains(title, Subsidy) then Subsidy
    else if Contains(title, Grant) then Grant
    else Subsidy
  }

  /**
   * The title that grant-type inference lowers. With `(get("title") or "")`
   * only a truthy title that is not a string fails; with `get("title", "")`
   * any present title that is not a string fails, null included. A string
   * title is read as it is, and a missing one as "".
   */
  function TitleForInference(d: map<string, Json>, read: TitleRead): (r: Result<string, NormError>)
    ensures r.Err? ==> r.error == TitleNotAString
    ensures read == TitleOrEmpty ==> (r.Err? <==> Truthy(Get(d, "title")) && !Get(d, "title").JStr?)
    ensures read == TitleDefaultEmpty ==> (r.Err? <==> "title" in d && !d["title"].JStr?)
    ensures Get(d, "title").JStr? ==> r == Ok(Get(d, "title").s)
    ensures "title" !in d ==> r == Ok("")
  {
    var v := match read
      case TitleOrEmpty => Or(Get(d, "title"), JStr(""))
      case TitleDefaultEmpty => GetOr(d, "title", JStr(""));
    if v.JStr? then Ok(v.s) else Err(TitleNotAString)
  }

  /**
   * The grant type of a normalized item: a truthy raw value is kept as it is;
   * otherwise one of the two tags is inferred, which fails only when the
   * title cannot be read. Either way the grant type is truthy.
   */
  function GrantTypeOf(d: map<string, Json>, read: TitleRead): (r: Result<Json, NormError>)
    ensures Truthy(Get(d, "grant_type")) ==> r == Ok(Get(d, "grant_type"))
    ensures !Truthy(Get(d, "grant_type")) ==> (r.Err? <==> TitleForInference(d, read).Err?)
    ensures !Truthy(Get(d, "grant_type")) && r.Ok? ==> r.value == JStr(Subsidy) || r.value == JStr(Grant)
    ensures !Truthy(Get(d, "grant_type")) && TitleForInference(d, read).Ok? ==>
      r == Ok(JStr(InferGrantType(TitleForInference(d, read).value)))
    ensures r.Ok? ==> Truthy(r.value)
  {
    var raw := Get(d, "grant_type");
    if Truthy(raw) then Ok(raw)
    else
      match TitleForInference(d, read)
      case Err(e) => Err(e)
      case Ok(title) => Ok(JStr(InferGrantType(title)))
  }

  /**
   * The confidence as a float: a missing or null confidence is 0.0, a number
   * is kept, `True` and `False` are 1.0 and 0.0, and a string, a list or a
   * dict raises.
   */
  function ConfidenceOf(d: map<string, Json>): (r: Result<real, NormError>)
    ensures Get(d, "confidence").JNull? ==> r == Ok(0.0)
    ensures Get(d, "confidence").JNum? ==> r == Ok(Get(d, "confidence").n)
    ensures Get(d, "confidence").JBool? ==> r == Ok(if Get(d, "confidence").b then 1.0 else 0.0)
    ensures r.Err? <==> Get(d, "confidence").JStr? || Get(d, "confidence").JArr? || Get(d, "confidence").JObj?
    ensures r.Err? ==> r.error == ConfidenceNotANumber
  {
    match Get(d, "confidence")
    case JNull => Ok(0.0)
    case JNum(n) => Ok(n)
    case JBool(b) => Ok(if b then 1.0 else 0.0)
    case _ => Err(ConfidenceNotANumber)
  }

  /**
   * One raw item normalized. It fails exactly when the item is not a dict, its
   * confidence is not a number, or the title it must infer from is unreadable;
   * a normalized item has a truthy grant type, a url exactly when one of the
   * three url keys is truthy, and the confidence read from the item.
   */
  function NormalizeItem(i: Json, read: TitleRead): (r: Result<Item, NormError>)
    ensures !i.JObj? ==> r == Err(NotADict)
    ensures r.Err? <==>
      !i.JObj? || ConfidenceOf(i.fields).Err?
      || (!Truthy(Get(i.fields, "grant_type")) && TitleForInference(i.fields, read).Err?)
    ensures r.Ok? ==> Truthy(r.value.grantType)
    ensures r.Ok? && Truthy(Get(i.fields, "grant_type")) ==> r.value.grantType == Get(i.fields, "grant_type")
    ensures r.Ok? && !Truthy(Get(i.fields, "grant_type")) ==>
      r.value.grantType == JStr(InferGrantType(TitleForInference(i.fields, read).value))
    ensures r.Ok? ==> r.value.confidence == ConfidenceOf(i.fields).value
    ensures r.Ok? ==> (Truthy(r.value.sourceUrl) <==>
      Truthy(Get(i.fields, "source_url")) || Truthy(Get(i.fields, "url")) || Truthy(Get(i.fields, "link")))
  {
    if !i.JObj? then Err(NotADict)
    else
      var d := i.fields;
      match GrantTypeOf(d, read)
      case Err(e) => Err(e)
      case Ok(grantType) =>
        match ConfidenceOf(d)
        case Err(e) => Err(e)
        case Ok(confidence) =>
          Ok(Item(
            title := Or(Get(d, "title"), Or(Get(d, "name"), JStr(""))),
            summary := Or(Get(d, "summary"), Or(Get(d, "description"), JStr(""))),
            sourceUrl := Or(Get(d, "source_url"), Or(Get(d, "url"), Or(Get(d, "link"), JStr("")))),
            grantType := grantType,
            deadline := Get(d, "deadline"),
            amountMax := Get(d, "amount_max"),
            rateMax := Get(d, "rate_max"),
            area := Get(d, "area"),
            municipality := Get(d, "municipality"),
            industry := Get(d, "industry"),
            confidence := confidence,
            reasons := Or(Get(d, "reasons"), JArr([]))))
  }

  /** All the values of `rs`, or the error of its first failure. */
  function Collect<T, E>(rs: seq<Result<T, E>>): (r: Result<seq<T>, E>)
    ensures r.Ok? <==> forall k :: 0 <= k < |rs| ==> rs[k].Ok?
    ensures r.Ok? ==> |r.value| == |rs|
    ensures r.Ok? ==> forall k :: 0 <= k < |rs| ==> r.value[k] == rs[k].value
  {
    if rs == [] then Ok([])
    else
      match rs[0]
      case Err(e) => Err(e)
      case Ok(x) =>
        assert forall k :: 1 <= k < |rs| ==> rs[k] == rs[1..][k - 1];
        match Collect(rs[1..])
        case Err(e) => Err(e)
        case Ok(xs) => Ok([x] + xs)
  }

  /** A failing sequence reports the error of its first failure. */
  lemma {:induction false} CollectFirstError<T, E>(rs: seq<Result<T, E>>, k: nat)
    requires k < |rs| && rs[k].Err?
    requires forall j :: 0 <= j < k ==> rs[j].Ok?
    ensures Collect(rs) == Err(rs[k].error)
    decreases k
  {
    if k > 0 {
      assert rs[0].Ok?;
      assert rs[1..][k - 1] == rs[k];
      CollectFirstError(rs[1..], k - 1);
    }
  }

  /** Every item normalized in order, or the error of the first item that fails. */
  function NormalizeAll(items: seq<Json>, read: TitleRead): (r: Result<seq<Item>, NormError>)
    ensures r.Ok? <==> forall k :: 0 <= k < |items| ==> NormalizeItem(items[k], read).Ok?
    ensures r.Ok? ==> |r.value| == |items|
    ensures r.Ok? ==> forall k :: 0 <= k < |items| ==> r.value[k] == NormalizeItem(items[k], read).value
  {
    var rs := seq(|items|, k requires 0 <= k < |items| => NormalizeItem(items[k], read));
    assert forall k :: 0 <= k < |items| ==> rs[k] == NormalizeItem(items[k], read);
    Collect(rs)
  }

  /** A failing list reports the exception of its first failing item. */
  lemma NormalizeAllFirstError(items: seq<Json>, read: TitleRead, k: nat)
    requires k < |items| && NormalizeItem(items[k], read).Err?
    requires forall j :: 0 <= j < k ==> NormalizeItem(items[j], read).Ok?
    ensures NormalizeAll(items, read) == Err(NormalizeItem(items[k], read).error)
  {
    CollectFirstError(seq(|items|, k requires 0 <= k < |items| => NormalizeItem(items[k], read)), k);
  }

  /** `s[:k]` with Python's slice bounds: a negative `k` counts from the end. */
  function SliceTo<T>(s: seq<T>, k: int): (r: seq<T>)
    ensures |r| == if k >= 0 then (if k < |s| then k else |s|) else (if |s| + k > 0 then |s| + k else 0)
    ensures |r| <= |s| && r == s[..|r|]
  {
    if k >= 0 then (if k < |s| then s[..k] else s)
    else if |s| + k > 0 then s[..|s| + k] else []
  }

  /** The normalized item has a truthy url. */
  predicate HasUrl(it: Item) {
    Truthy(it.sourceUrl)
  }

  /** `a` is `b` with some elements left out, in the same order. */
  predicate IsSubsequence<T(==)>(a: seq<T>, b: seq<T>)
    decreases |b|
  {
    if a == [] then true
    else if b == [] then false
    else (a[0] == b[0] && IsSubsequence(a[1..], b[1..])) || IsSubsequence(a, b[1..])
  }

  lemma {:induction false} SubsequenceOfItself<T>(s: seq<T>)
    ensures IsSubsequence(s, s)
    decreases |s|
  {
    if s != [] {
      SubsequenceOfItself(s[1..]);
    }
  }

  /**
   * The url filter: exactly the items with a truthy url, each as often as in
   * `s`, in their original order.
   */
  function KeepWithUrl(s: seq<Item>): (r: seq<Item>)
    ensures |r| <= |s|
    ensures forall x :: x in r <==> x in s && HasUrl(x)
    ensures IsSubsequence(r, s)
    ensures forall x :: multiset(r)[x] == if HasUrl(x) then multiset(s)[x] else 0
  {
    if s == [] then []
    else
      var rest := KeepWithUrl(s[1..]);
      assert s == [s[0]] + s[1..];
      assert multiset(s) == multiset{s[0]} + multiset(s[1..]);
      if HasUrl(s[0]) then
        assert ([s[0]] + rest)[1..] == rest;
        assert multiset([s[0]] + rest) == multiset{s[0]} + multiset(rest);
        [s[0]] + rest
      else
        assert rest == [] || rest[0] in s[1..];
        rest
  }

  /**
   * The url filter with its override: the items that have a url, unless there
   * are none, in which case the list is kept whole. It never empties a list.
   */
  function SelectByUrl(s: seq<Item>): (r: seq<Item>)
    ensures IsSubsequence(r, s) && |r| <= |s|
    ensures (exists k :: 0 <= k < |s| && HasUrl(s[k])) ==> forall x :: x in r <==> x in s && HasUrl(x)
    ensures (exists k :: 0 <= k < |s| && HasUrl(s[k])) ==>
      forall x :: multiset(r)[x] == if HasUrl(x) then multiset(s)[x] else 0
    ensures (forall k :: 0 <= k < |s| ==> !HasUrl(s[k])) ==> r == s
    ensures s != [] ==> r != []
  {
    var filtered := KeepWithUrl(s);
    if filtered == [] then
      assert forall k :: 0 <= k < |s| ==> !HasUrl(s[k]) by {
        forall k | 0 <= k < |s| ensures !HasUrl(s[k]) {
          assert s[k] in s;
        }
      }
      SubsequenceOfItself(s);
      s
    else
      assert (forall k :: 0 <= k < |s| ==> !HasUrl(s[k])) ==> false by {
        assert filtered[0] in s;
      }
      filtered
  }

  /** The fallback loop's effect on one item: a confidence of exactly 0 becomes 0.2. */
  function WithFallback(it: Item): Item {
    if it.confidence == 0.0 then it.(confidence := 0.2) else it
  }

  /**
   * The fallback on every item: nothing but confidences change, no confidence
   * is 0 afterwards, and a non-zero confidence is kept.
   */
  function AllWithFallback(s: seq<Item>): (r: seq<Item>)
    ensures |r| == |s|
    ensures forall k :: 0 <= k < |s| ==> r[k] == s[k].(confidence := r[k].confidence)
    ensures forall k :: 0 <= k < |s| ==> r[k].confidence != 0.0
    ensures forall k :: 0 <= k < |s| && s[k].confidence != 0.0 ==> r[k].confidence == s[k].confidence
    ensures forall k :: 0 <= k < |s| && s[k].confidence == 0.0 ==> r[k].confidence == 0.2
  {
    seq(|s|, k requires 0 <= k < |s| => WithFallback(s[k]))
  }

  /** The whole pass: normalize all, truncate to `topK`, filter by url, then the fallback. */
  function NormalizedAndFiltered(items: seq<Json>, topK: int, read: TitleRead): Result<seq<Item>, NormError> {
    match NormalizeAll(items, read)
    case Err(e) => Err(e)
    case Ok(normalized) => Ok(AllWithFallback(SelectByUrl(SliceTo(normalized, topK))))
  }

  /** The fallback loop: every confidence of exactly 0 becomes 0.2, in place in the array. */
  method ApplyConfidenceFallback(a: array<Item>)
    modifies a
    ensures a[..] == AllWithFallback(old(a[..]))
  {
    var i := 0;
    while i < a.Length
      invariant 0 <= i <= a.Length
      invariant forall k :: 0 <= k < i ==> a[k] == WithFallback(old(a[k]))
      invariant forall k :: i <= k < a.Length ==> a[k] == old(a[k])
    {
      if a[i].confidence == 0.0 {
        a[i] := a[i].(confidence := 0.2);
      }
      i := i + 1;
    }
  }

  /** From the normalized list on: truncate, filter with the override, and the fallback loop. */
  method FinishItems(normalized: seq<Item>, topK: int) returns (r: seq<Item>)
    ensures r == AllWithFallback(SelectByUrl(SliceTo(normalized, topK)))
  {
    var truncated := SliceTo(normalized, topK);
    var filtered := KeepWithUrl(truncated);
    if filtered == [] {
      filtered := truncated;
    }
    var a := new Item[|filtered|](k requires 0 <= k < |filtered| => filtered[k]);
    assert a[..] == filtered;
    ApplyConfidenceFallback(a);
    r := a[..];
  }

  /** The normalizer of api/utils.py: normalize, truncate, filter with its override, then the fallback. */
  method NormalizeAndFilterItems(items: seq<Json>, topK: int) returns (r: Result<seq<Item>, NormError>)
    ensures r == NormalizedAndFiltered(items, topK, TitleOrEmpty)
  {
    var normalized := NormalizeAll(items, TitleOrEmpty);
    if normalized.Err? {
      return Err(normalized.error);
    }
    var finished := FinishItems(normalized.value, topK);
    r := Ok(finished);
  }

  // Properties of one item.

  /** Every normalized item carries a truthy grant type: the raw one, or one of the two tags. */
  lemma GrantTypeAlwaysSet(i: Json, read: TitleRead)
    requires NormalizeItem(i, read).Ok?
    ensures Truthy(NormalizeItem(i, read).value.grantType)
    ensures var raw := Get(i.fields, "grant_type");
      NormalizeItem(i, read).value.grantType == raw
      || (!Truthy(raw) && NormalizeItem(i, read).value.grantType in {JStr(Subsidy), JStr(Grant)})
  {
    var raw := Get(i.fields, "grant_type");
    if !Truthy(raw) {
      var title := TitleForInference(i.fields, read).value;
      assert NormalizeItem(i, read).value.grantType == JStr(InferGrantType(title));
    }
  }

  /** A title mentioning both tags is a subsidy (補助金), whatever their order. */
  lemma SubsidyWinsOverGrant(pre: string, mid: string, post: string)
    ensures InferGrantType(pre + Grant + mid + Subsidy + post) == Subsidy
    ensures InferGrantType(pre + Subsidy + mid + Grant + post) == Subsidy
  {
    var t1 := pre + Grant + mid + Subsidy + post;
    assert t1[|pre + Grant + mid|..|pre + Grant + mid| + |Subsidy|] == Subsidy;
    assert OccursAt(t1, Subsidy, |pre + Grant + mid|);
    ContainsIff(t1, Subsidy);
    var t2 := pre + Subsidy + mid + Grant + post;
    assert t2[|pre|..|pre| + |Subsidy|] == Subsidy;
    assert OccursAt(t2, Subsidy, |pre|);
    ContainsIff(t2, Subsidy);
  }

  /** The `name` key is only a title fallback: it never decides the grant type. */
  lemma NameNeverDecidesGrantType(d: map<string, Json>, v: Json, read: TitleRead)
    ensures GrantTypeOf(d, read) == GrantTypeOf(d["name" := v], read)
  {
    assert Get(d["name" := v], "grant_type") == Get(d, "grant_type");
    assert Get(d["name" := v], "title") == Get(d, "title");
    assert GetOr(d["name" := v], "title", JStr("")) == GetOr(d, "title", JStr(""));
  }

  /** A falsy title is replaced by the name, and a missing or falsy name by "". */
  lemma TitleFallsBackToName(d: map<string, Json>, read: TitleRead)
    requires NormalizeItem(JObj(d), read).Ok?
    ensures Truthy(Get(d, "title")) ==> NormalizeItem(JObj(d), read).value.title == Get(d, "title")
    ensures !Truthy(Get(d, "title")) && Truthy(Get(d, "name")) ==> NormalizeItem(JObj(d), read).value.title == Get(d, "name")
    ensures !Truthy(Get(d, "title")) && !Truthy(Get(d, "name")) ==> NormalizeItem(JObj(d), read).value.title == JStr("")
  {
  }

  /**
   * The six fields copied by name keep the raw value, None when the key is
   * absent; `reasons` is the raw value when truthy, otherwise an empty list.
   */
  lemma CopiedFieldsKept(d: map<string, Json>, read: TitleRead)
    requires NormalizeItem(JObj(d), read).Ok?
    ensures var it := NormalizeItem(JObj(d), read).value;
      && it.deadline == Get(d, "deadline") && it.amountMax == Get(d, "amount_max")
      && it.rateMax == Get(d, "rate_max") && it.area == Get(d, "area")
      && it.municipality == Get(d, "municipality") && it.industry == Get(d, "industry")
    ensures Truthy(Get(d, "reasons")) ==> NormalizeItem(JObj(d), read).value.reasons == Get(d, "reasons")
    ensures !Truthy(Get(d, "reasons")) ==> NormalizeItem(JObj(d), read).value.reasons == JArr([])
  {
  }

  /** The summary is the raw summary when truthy, else the description when truthy, else "". */
  lemma SummaryFallsBackToDescription(d: map<string, Json>, read: TitleRead)
    requires NormalizeItem(JObj(d), read).Ok?
    ensures Truthy(Get(d, "summary")) ==> NormalizeItem(JObj(d), read).value.summary == Get(d, "summary")
    ensures !Truthy(Get(d, "summary")) && Truthy(Get(d, "description")) ==>
      NormalizeItem(JObj(d), read).value.summary == Get(d, "description")
    ensures !Truthy(Get(d, "summary")) && !Truthy(Get(d, "description")) ==>
      NormalizeItem(JObj(d), read).value.summary == JStr("")
  {
  }

  /** The url is the first truthy one of `source_url`, `url` and `link`, else "". */
  lemma SourceUrlFallsBack(d: map<string, Json>, read: TitleRead)
    requires NormalizeItem(JObj(d), read).Ok?
    ensures Truthy(Get(d, "source_url")) ==> NormalizeItem(JObj(d), read).value.sourceUrl == Get(d, "source_url")
    ensures !Truthy(Get(d, "source_url")) && Truthy(Get(d, "url")) ==>
      NormalizeItem(JObj(d), read).value.sourceUrl == Get(d, "url")
    ensures !Truthy(Get(d, "source_url")) && !Truthy(Get(d, "url")) && Truthy(Get(d, "link")) ==>
      NormalizeItem(JObj(d), read).value.sourceUrl == Get(d, "link")
    ensures !Truthy(Get(d, "source_url")) && !Truthy(Get(d, "url")) && !Truthy(Get(d, "link")) ==>
      NormalizeItem(JObj(d), read).value.sourceUrl == JStr("")
  {
  }

  /**
   * The inference reaches the item: with no truthy raw grant type, a title
   * that mentions 助成金 and not 補助金 gives 助成金, and any other readable
   * title gives 補助金.
   */
  lemma InferredTagReachesItem(d: map<string, Json>, read: TitleRead)
    requires NormalizeItem(JObj(d), read).Ok? && !Truthy(Get(d, "grant_type"))
    ensures var title := TitleForInference(d, read).value;
      NormalizeItem(JObj(d), read).value.grantType ==
        if Contains(title, Grant) && !Contains(title, Subsidy) then JStr(Grant) else JStr(Subsidy)
  {
  }

  /** A missing or null confidence normalizes to 0 and leaves the pass as 0.2. */
  lemma MissingConfidenceEndsAtFallback(d: map<string, Json>, read: TitleRead)
    requires NormalizeItem(JObj(d), read).Ok?
    requires "confidence" !in d || d["confidence"] == JNull
    ensures NormalizeItem(JObj(d), read).value.confidence == 0.0
    ensures WithFallback(NormalizeItem(JObj(d), read).value).confidence == 0.2
  {
  }

  /**
   * The title a copy reads for inference is absent, a string or truthy (a
   * truthy non-string makes both copies raise), or it is not needed.
   */
  predicate TitleReadsAgree(i: Json) {
    i.JObj? ==> var d := i.fields;
      "title" !in d || d["title"].JStr? || Truthy(d["title"]) || Truthy(Get(d, "grant_type"))
  }

  /**
   * The two copies of `normalize_item` agree whenever the title they read for
   * inference is absent, a string or truthy, or the raw grant type is truthy.
   */
  lemma CopiesAgree(i: Json)
    requires TitleReadsAgree(i)
    ensures NormalizeItem(i, TitleOrEmpty) == NormalizeItem(i, TitleDefaultEmpty)
  {
    if i.JObj? {
      var d := i.fields;
      if !Truthy(Get(d, "grant_type")) {
        assert TitleForInference(d, TitleOrEmpty) == TitleForInference(d, TitleDefaultEmpty);
      }
    }
  }

  /**
   * The copies part exactly where that condition fails: a present title that
   * is falsy and not a string, with no truthy raw grant type.
   */
  lemma CopiesAgreeIff(i: Json)
    ensures NormalizeItem(i, TitleOrEmpty) == NormalizeItem(i, TitleDefaultEmpty) <==> TitleReadsAgree(i)
  {
    if TitleReadsAgree(i) {
      CopiesAgree(i);
    } else {
      var d := i.fields;
      assert TitleForInference(d, TitleOrEmpty) == Ok("");
      assert NormalizeItem(i, TitleDefaultEmpty) == Err(TitleNotAString);
    }
  }

  /** Where they part: a null title without a grant type is inferred by one copy and raises in the other. */
  lemma NullTitleSplitsTheCopies()
    ensures NormalizeItem(JObj(map["title" := JNull]), TitleOrEmpty).Ok?
    ensures NormalizeItem(JObj(map["title" := JNull]), TitleOrEmpty).value.grantType == JStr(Subsidy)
    ensures NormalizeItem(JObj(map["title" := JNull]), TitleDefaultEmpty) == Err(TitleNotAString)
  {
    var d := map["title" := JNull];
    assert Get(d, "grant_type") == JNull;
    assert Get(d, "confidence") == JNull;
    assert TitleForInference(d, TitleOrEmpty) == Ok("");
    assert !Contains("", Subsidy) && !Contains("", Grant);
  }

  // Properties of the whole pass.

  /** Lists whose items all meet that condition normalize alike under both copies. */
  lemma NormalizeAllCopiesAgree(items: seq<Json>)
    requires forall k :: 0 <= k < |items| ==> TitleReadsAgree(items[k])
    ensures NormalizeAll(items, TitleOrEmpty) == NormalizeAll(items, TitleDefaultEmpty)
  {
    forall k | 0 <= k < |items|
      ensures NormalizeItem(items[k], TitleOrEmpty) == NormalizeItem(items[k], TitleDefaultEmpty)
    {
      CopiesAgree(items[k]);
    }
    var a := seq(|items|, k requires 0 <= k < |items| => NormalizeItem(items[k], TitleOrEmpty));
    var b := seq(|items|, k requires 0 <= k < |items| => NormalizeItem(items[k], TitleDefaultEmpty));
    assert a == b;
  }

  /** Every member of a subsequence is a member of the sequence it came from. */
  lemma {:induction false} SubsequenceMembers<T>(a: seq<T>, b: seq<T>)
    requires IsSubsequence(a, b)
    ensures forall x :: x in a ==> x in b
    decreases |b|
  {
    if a != [] {
      if a[0] == b[0] && IsSubsequence(a[1..], b[1..]) {
        SubsequenceMembers(a[1..], b[1..]);
        assert forall x :: x in a ==> x == a[0] || x in a[1..];
        assert forall x :: x in b[1..] ==> x in b;
      } else {
        SubsequenceMembers(a, b[1..]);
        assert forall x :: x in b[1..] ==> x in b;
      }
    }
  }

  /** The pass fails exactly when some item fails, however small `topK` is. */
  lemma PassFailsIffSomeItemFails(items: seq<Json>, topK: int, read: TitleRead)
    ensures NormalizedAndFiltered(items, topK, read).Err? <==>
      exists k :: 0 <= k < |items| && NormalizeItem(items[k], read).Err?
  {
  }

  /** At most `topK` items come out, never more than went in, and none when none went in. */
  lemma PassBounds(items: seq<Json>, topK: int, read: TitleRead)
    requires NormalizedAndFiltered(items, topK, read).Ok?
    ensures |NormalizedAndFiltered(items, topK, read).value| <= |items|
    ensures topK >= 0 ==> |NormalizedAndFiltered(items, topK, read).value| <= topK
    ensures 0 < topK && items != [] ==> NormalizedAndFiltered(items, topK, read).value != []
  {
    var normalized := NormalizeAll(items, read).value;
    var truncated := SliceTo(normalized, topK);
    assert |SelectByUrl(truncated)| <= |truncated|;
  }

  /**
   * Truncation comes before the url filter: once every item normalizes, the
   * result depends on the first `topK` items only, so an item with a url that
   * lies beyond them never replaces the url-less ones before it.
   */
  lemma TruncationBeforeFilter(items: seq<Json>, topK: nat, read: TitleRead)
    requires topK <= |items|
    requires NormalizeAll(items, read).Ok?
    ensures NormalizedAndFiltered(items, topK, read) == NormalizedAndFiltered(items[..topK], topK, read)
  {
    var all := NormalizeAll(items, read).value;
    var front := NormalizeAll(items[..topK], read).value;
    assert SliceTo(all, topK) == front;
    assert SliceTo(front, topK) == front;
  }

  /** Every item that comes out is, up to the fallback, the normalization of one of the first `topK` inputs. */
  lemma OutputComesFromTheFirstTopK(items: seq<Json>, topK: int, read: TitleRead)
    requires NormalizedAndFiltered(items, topK, read).Ok?
    ensures var r := NormalizedAndFiltered(items, topK, read).value;
      forall j :: 0 <= j < |r| ==>
        exists k :: 0 <= k < |SliceTo(items, topK)| && r[j] == WithFallback(NormalizeItem(items[k], read).value)
  {
    var normalized := NormalizeAll(items, read).value;
    var r := NormalizedAndFiltered(items, topK, read).value;
    FinishedFromTruncated(normalized, topK);
    forall j | 0 <= j < |r|
      ensures exists k :: 0 <= k < |SliceTo(items, topK)| && r[j] == WithFallback(NormalizeItem(items[k], read).value)
    {
      var k :| 0 <= k < |SliceTo(normalized, topK)| && r[j] == WithFallback(normalized[k]);
      assert normalized[k] == NormalizeItem(items[k], read).value;
    }
  }

  /** After truncation, the filter and the fallback, every item is the fallback of one of the first `topK`. */
  lemma FinishedFromTruncated(normalized: seq<Item>, topK: int)
    ensures var r := AllWithFallback(SelectByUrl(SliceTo(normalized, topK)));
      forall j :: 0 <= j < |r| ==>
        exists k :: 0 <= k < |SliceTo(normalized, topK)| && r[j] == WithFallback(normalized[k])
  {
    var truncated := SliceTo(normalized, topK);
    var selected := SelectByUrl(truncated);
    var r := AllWithFallback(selected);
    SubsequenceMembers(selected, truncated);
    forall j | 0 <= j < |r|
      ensures exists k :: 0 <= k < |truncated| && r[j] == WithFallback(normalized[k])
    {
      assert selected[j] in truncated;
      var k :| 0 <= k < |truncated| && truncated[k] == selected[j];
      assert r[j] == WithFallback(selected[j]);
      assert truncated[k] == normalized[k];
    }
  }

  /** Filtering twice is filtering once: a filtered list is all url items, or has none. */
  lemma {:induction false} KeepWithUrlOfUrlItems(s: seq<Item>)
    requires forall k :: 0 <= k < |s| ==> HasUrl(s[k])
    ensures KeepWithUrl(s) == s
    decreases |s|
  {
    if s != [] {
      KeepWithUrlOfUrlItems(s[1..]);
      assert [s[0]] + s[1..] == s;
    }
  }

  lemma SelectByUrlIdempotent(s: seq<Item>)
    ensures SelectByUrl(SelectByUrl(s)) == SelectByUrl(s)
  {
    var r := SelectByUrl(s);
    if KeepWithUrl(s) != [] {
      assert forall k :: 0 <= k < |r| ==> HasUrl(r[k]) by {
        forall k | 0 <= k < |r| ensures HasUrl(r[k]) {
          assert r[k] in r;
        }
      }
      KeepWithUrlOfUrlItems(r);
    }
  }

  /** The fallback changes nothing the second time. */
  lemma AllWithFallbackIdempotent(s: seq<Item>)
    ensures AllWithFallback(AllWithFallback(s)) == AllWithFallback(s)
  {
  }
}
