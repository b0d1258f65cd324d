/**
 * The submitter: the client configuration built by `NewTransformer`, the
 * request `postItem` sends (endpoint, credential, form fields) and the way it
 * classifies the answer, composed by `processFile` with rendering.
 */
module Submit {
  import opened Wrappers
  import opened Strings
  import opened Decimal
  import opened Render

  /** The only configuration error: the API key variable is unset or empty. */
  datatype ConfigError = KeyNotSet(envName: string)

  /** The shared client state that matters here: the base URL and the Authorization header. */
  datatype Transformer = Transformer(apiBase: string, authorization: string)

  /**
   * `NewTransformer`; `key` is the value `os.Getenv(apiKeyEnv)` returned
   * (the empty string when unset). One trailing `/` is cut off the base.
   */
  function NewTransformer(apiBase: string, apiKeyEnv: string, key: string): (r: Result<Transformer, ConfigError>)
    ensures r.Failure? <==> key == ""
    ensures r.Failure? ==> r.error == KeyNotSet(apiKeyEnv)
    ensures r.Success? ==> r.value.authorization == "Bearer " + key
    ensures r.Success? && HasSuffix(apiBase, "/") ==> r.value.apiBase + "/" == apiBase
    ensures r.Success? && !HasSuffix(apiBase, "/") ==> r.value.apiBase == apiBase
  {
    var base := TrimSuffix(apiBase, "/");
    if key == "" then Failure(KeyNotSet(apiKeyEnv))
    else Success(Transformer(base, "Bearer " + key))
  }

  /** The URL every item is posted to: the base followed by the `/omnipub` path. */
  function Endpoint(t: Transformer): (url: string)
    ensures HasPrefix(url, t.apiBase) && HasSuffix(url, "/omnipub")
    ensures |url| == |t.apiBase| + 8
  {
    t.apiBase + "/omnipub"
  }

  /**
   * The endpoint is the configured base with `/omnipub` appended, where a
   * base ending in `/` loses that one `/` first, so no `//` appears at the seam
   * unless the base ended in two slashes.
   */
  lemma EndpointOfBase(apiBase: string, apiKeyEnv: string, key: string)
    requires key != ""
    ensures var t := NewTransformer(apiBase, apiKeyEnv, key).value;
            && (HasSuffix(apiBase, "/") ==> Endpoint(t) == apiBase[..|apiBase| - 1] + "/omnipub")
            && (!HasSuffix(apiBase, "/") ==> Endpoint(t) == apiBase + "/omnipub")
  {
    var t := NewTransformer(apiBase, apiKeyEnv, key).value;
    if HasSuffix(apiBase, "/") {
      assert t.apiBase == apiBase[..|apiBase| - 1];
    }
  }

  /** The value of a multipart form field; `Json(m)` stands for the text `json.Marshal(m)` produces. */
  datatype FieldValue = Text(text: string) | Json(metadata: map<string, string>)

  datatype Field = Field(name: string, value: FieldValue)

  /** The collection passed to each item: present only for a flag value above zero. */
  function CollectionSelector(flag: int): (r: Option<int>)
    ensures r.Some? <==> flag > 0
    ensures r.Some? ==> r.value == flag
  {
    if flag > 0 then Some(flag) else None
  }

  /** The fields `postItem` writes, in order. */
  function FormFields(htmlContent: string, metadata: map<string, string>, collectionId: Option<int>): (fields: seq<Field>)
    ensures |fields| == if collectionId.Some? then 3 else 2
    ensures fields[0] == Field("html_content", Text(htmlContent))
    ensures fields[1] == Field("metadata", Json(metadata))
    ensures collectionId.Some? ==> fields[2] == Field("collection_id", Text(DecimalText(collectionId.value)))
  {
    [Field("html_content", Text(htmlContent)), Field("metadata", Json(metadata))]
    + if collectionId.Some? then [Field("collection_id", Text(DecimalText(collectionId.value)))] else []
  }

  function FieldNames(fields: seq<Field>): (names: seq<string>)
    ensures |names| == |fields|
    ensures forall k :: 0 <= k < |fields| ==> names[k] == fields[k].name
  {
    if fields == [] then [] else [fields[0].name] + FieldNames(fields[1..])
  }

  /**
   * For a run's collection flag, the form carries `html_content`, then
   * `metadata`, then `collection_id` exactly when the flag is above zero, and
   * that field's decimal text reads back as the flag.
   */
  lemma FormFieldsForFlag(htmlContent: string, metadata: map<string, string>, flag: int)
    ensures var fields := FormFields(htmlContent, metadata, CollectionSelector(flag));
            && FieldNames(fields) == ["html_content", "metadata"] + (if flag > 0 then ["collection_id"] else [])
            && (flag > 0 ==> fields[2].value.Text? && fields[2].value.text == DecimalText(flag)
                             && ParseDecimal(fields[2].value.text) == flag)
  {
    DecimalRoundTrip(flag);
  }

  /** A POST of a multipart form to `url`, with the Authorization header value. */
  datatype Request = Request(url: string, authorization: string, fields: seq<Field>)

  /** The request `postItem` sends: to the endpoint, with the credential and the form. */
  function BuildRequest(t: Transformer, htmlContent: string, metadata: map<string, string>, collectionId: Option<int>): (r: Request)
    ensures r.url == t.apiBase + "/omnipub" && r.authorization == t.authorization
    ensures |r.fields| == if collectionId.Some? then 3 else 2
    ensures FieldNames(r.fields) == ["html_content", "metadata"] + (if collectionId.Some? then ["collection_id"] else [])
    ensures r.fields[0].value == Text(htmlContent) && r.fields[1].value == Json(metadata)
  {
    Request(Endpoint(t), t.authorization, FormFields(htmlContent, metadata, collectionId))
  }

  /** What came back for a request: a status and body, or an error before any status. */
  datatype Response = Received(status: int, body: string) | TransportFailed(message: string)

  datatype PostError = HttpError(status: int, detail: string) | TransportError(message: string)

  /** `4 << 10`, the number of body bytes read for the error detail. */
  const BodyLimit := 4096

  /** The first `n` characters of `s`, or all of it when shorter (`io.LimitReader`). */
  function Limit(s: string, n: nat): (r: string)
    ensures HasPrefix(s, r)
    ensures |r| == if |s| <= n then |s| else n
  {
    if |s| <= n then s else s[..n]
  }

  /**
   * `postItem`'s verdict on a response: a 2xx status is success; any other
   * status is an error carrying that status and the trimmed start of the
   * body; a transport error is passed on.
   */
  function Classify(resp: Response): (r: Outcome<PostError>)
    ensures r.Pass? <==> resp.Received? && 200 <= resp.status < 300
    ensures resp.TransportFailed? ==> r == Fail(TransportError(resp.message))
    ensures resp.Received? && !(200 <= resp.status < 300) ==>
              r == Fail(HttpError(resp.status, TrimSpace(Limit(resp.body, BodyLimit))))
  {
    match resp
    case TransportFailed(message) => Fail(TransportError(message))
    case Received(status, body) =>
      if 200 <= status && status < 300 then Pass
      else Fail(HttpError(status, TrimSpace(Limit(body, BodyLimit))))
  }

  /**
   * The error detail of a rejected request is bounded: at most 4096
   * characters, taken from the start of the body, with no white space at
   * either end.
   */
  lemma HttpErrorDetailBounded(status: int, body: string)
    requires !(200 <= status < 300)
    ensures var r := Classify(Received(status, body));
            && r.Fail? && r.error.HttpError?
            && |r.error.detail| <= BodyLimit
            && Contains(Limit(body, BodyLimit), r.error.detail)
            && NoSpaceAtEnds(r.error.detail)
  {
    TrimmedWithin(Limit(body, BodyLimit));
  }

  /** Trimming keeps a piece of the text, no longer than it, with no white space at either end. */
  lemma TrimmedWithin(s: string)
    ensures |TrimSpace(s)| <= |s| && Contains(s, TrimSpace(s)) && NoSpaceAtEnds(TrimSpace(s))
  {
    var left := TrimLeftSpace(s);
    var d := TrimRightSpace(left);
    TrimBoth(s, left, d);
    assert OccursAt(s, d, |s| - |left|);
  }

  /** Why one item failed: it could not be loaded or decoded, or the post failed. */
  datatype ItemError = LoadError(message: string) | PostFailed(error: PostError)

  /** The request `processFile` posts for a decoded article under a collection flag. */
  function ItemRequest(t: Transformer, art: Article, flag: int): (r: Request)
    ensures r.url == t.apiBase + "/omnipub" && r.authorization == t.authorization
    ensures |r.fields| == if flag > 0 then 3 else 2
    ensures r.fields[0] == Field("html_content", Text(BuildHtml(art)))
    ensures r.fields[1] == Field("metadata", Json(BuildMetadata(art)))
    ensures flag > 0 ==> r.fields[2] == Field("collection_id", Text(DecimalText(flag)))
  {
    BuildRequest(t, BuildHtml(art), BuildMetadata(art), CollectionSelector(flag))
  }

  /**
   * `processFile`: `decoded` is the result of opening and decoding the file,
   * and `network` says what the remote end answers to a request. Any failing
   * step ends the item with that step's error.
   */
  function ProcessFile(t: Transformer, decoded: Result<Article, string>, flag: int, network: Request -> Response): (r: Outcome<ItemError>)
    ensures decoded.Failure? ==> r == Fail(LoadError(decoded.error))
    ensures decoded.Success? ==>
              var verdict := Classify(network(ItemRequest(t, decoded.value, flag)));
              verdict.Fail? ==> r == Fail(PostFailed(verdict.error))
  {
    match decoded
    case Failure(message) => Fail(LoadError(message))
    case Success(art) =>
      match Classify(network(ItemRequest(t, art, flag)))
      case Pass => Pass
      case Fail(e) => Fail(PostFailed(e))
  }

  /**
   * An item succeeds exactly when it decoded and the endpoint answered its
   * request with a 2xx status; that request goes to the endpoint with the
   * credential, the rendered document, the metadata of the article and the
   * collection the flag selects.
   */
  lemma ProcessFileSucceedsIff(t: Transformer, decoded: Result<Article, string>, flag: int, network: Request -> Response)
    ensures ProcessFile(t, decoded, flag, network).Pass?
            <==> decoded.Success?
                 && var resp := network(ItemRequest(t, decoded.value, flag));
                    resp.Received? && 200 <= resp.status < 300
    ensures decoded.Success? ==>
              var req := ItemRequest(t, decoded.value, flag);
              && req.url == t.apiBase + "/omnipub"
              && req.authorization == t.authorization
              && req.fields[0] == Field("html_content", Text(BuildHtml(decoded.value)))
              && req.fields[1] == Field("metadata", Json(BuildMetadata(decoded.value)))
              && (|req.fields| == 3 <==> flag > 0)
  {
  }
}
