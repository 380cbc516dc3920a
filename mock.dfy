/**
  `HttpWasmMockQuerier`: a querier for contract tests that answers smart
  contract queries from a live chain node over its LCD REST interface and
  hands every other query to the library's in-memory `MockQuerier`.
 */
module Mock {
  import opened Wrappers
  import opened Bytes
  import Base64
  import opened CosmWasm

  datatype HttpWasmMockQuerier = HttpWasmMockQuerier(base: MockQuerier, urlLcd: string)

  /** What the querier calls but does not define, passed in as functions:
      - `baseHandleQuery`: `MockQuerier::handle_query` of the wrapped querier;
      - `lcdGet`: the blocking HTTP GET of a URL followed by parsing its body as
        `{"data": ...}`, giving the JSON text of `data` (`Value::to_string`),
        or None when the request or the parse fails;
      - `fromSlice`: `from_slice`, the JSON decoding of a raw request, with
        the text of its error when it fails. */
  datatype Env<!C> = Env(
    baseHandleQuery: (MockQuerier, QueryRequest<C>) -> QuerierResult,
    lcdGet: string -> Option<string>,
    fromSlice: seq<byte> -> Result<QueryRequest<C>, string>)

  /** The `unwrap` calls that end the test with a panic. */
  datatype PanicSite = LcdRequestFailed | InvalidBase64

  /** A call either returns or panics. */
  datatype Outcome<T> = Returns(value: T) | Panics(site: PanicSite)

  /** `HttpWasmMockQuerier::new`. */
  function New(base: Option<MockQuerier>, urlLcd: string, balances: Option<seq<(string, seq<Coin>)>>)
    : (q: HttpWasmMockQuerier)
    ensures q.urlLcd == urlLcd
    ensures base.Some? ==> q.base == base.value
    ensures base.None? && balances.Some? ==> q.base.balances == balances.value && q.base.handlers == Defaults
    ensures base.None? && balances.None? ==> q.base.balances == [] && q.base.handlers == Defaults
  {
    HttpWasmMockQuerier(
      match base
      case Some(b) => b
      case None => NewMockQuerier(match balances case Some(bs) => bs case None => []),
      urlLcd)
  }

  const ContractPath: string := "/cosmwasm/wasm/v1/contract/"
  const SmartPath: string := "/smart/"

  /** The LCD URL of a smart query: the node's base URL, the contract path,
      the address, the smart path and the message text, joined with no
      escaping of any part. */
  function SmartQueryUrl(urlLcd: string, contractAddr: string, msgText: string): (url: string)
    ensures var a := |urlLcd| + |ContractPath|;
            var b := a + |contractAddr|;
            var c := b + |SmartPath|;
            && |url| == c + |msgText|
            && url[..|urlLcd|] == urlLcd
            && url[|urlLcd|..a] == ContractPath
            && url[a..b] == contractAddr
            && url[b..c] == SmartPath
            && url[c..] == msgText
  {
    urlLcd + ContractPath + contractAddr + SmartPath + msgText
  }

  /** The URL as `handle_query` builds it, one `push_str` at a time. */
  method BuildSmartUrl(urlLcd: string, contractAddr: string, msg: Binary) returns (url: string)
    ensures url == SmartQueryUrl(urlLcd, contractAddr, BinaryText(msg))
  {
    url := urlLcd;
    url := url + ContractPath;
    url := url + contractAddr;
    url := url + SmartPath;
    url := url + BinaryText(msg);
  }

  predicate IsSmartQuery<C>(request: QueryRequest<C>) {
    request.Wasm? && request.wasm.Smart?
  }

  /** `handle_query`. A smart query is sent to the node; its `data` text is
      encoded as unpadded base64, decoded again by `Binary::from_base64` and
      returned as a success at both levels. Any other request is answered by
      the wrapped querier. */
  function HandleQuery<C>(q: HttpWasmMockQuerier, request: QueryRequest<C>, env: Env<C>)
    : (r: Outcome<QuerierResult>)
    ensures !IsSmartQuery(request) ==> r == Returns(env.baseHandleQuery(q.base, request))
    ensures IsSmartQuery(request) ==>
              var data := env.lcdGet(SmartQueryUrl(q.urlLcd, request.wasm.contractAddr, BinaryText(request.wasm.msg)));
              && (data.None? ==> r == Panics(LcdRequestFailed))
              && (data.Some? ==> r == Returns(SystemResult.Ok(ContractResult.Ok(Utf8(data.value)))))
  {
    match request
    case Wasm(Smart(contractAddr, msg)) =>
      var url := SmartQueryUrl(q.urlLcd, contractAddr, BinaryText(msg));
      (match env.lcdGet(url)
       case None => Panics(LcdRequestFailed)
       case Some(data) =>
         var encodedResp := Base64.EncodeNoPad(Utf8(data));
         Base64.DecodeOfEncodeNoPad(Utf8(data));
         match Base64.Decode(encodedResp)
         case None => Panics(InvalidBase64)
         case Some(binaryResp) => Returns(SystemResult.Ok(ContractResult.Ok(binaryResp))))
    case _ => Returns(env.baseHandleQuery(q.base, request))
  }

  const ParseErrorPrefix: string := "Parsing query request: "

  /** `raw_query`: decode the request bytes, or report them back as an invalid request. */
  function RawQuery<C>(q: HttpWasmMockQuerier, binRequest: seq<byte>, env: Env<C>)
    : (r: Outcome<QuerierResult>)
    ensures env.fromSlice(binRequest).Failure? ==>
              && r.Returns? && r.value.Err? && r.value.error.InvalidRequest?
              && r.value.error.request == binRequest
              && |ParseErrorPrefix| <= |r.value.error.error|
              && r.value.error.error[..|ParseErrorPrefix|] == ParseErrorPrefix
              && r.value.error.error[|ParseErrorPrefix|..] == env.fromSlice(binRequest).error
    ensures env.fromSlice(binRequest).Success? ==>
              r == HandleQuery(q, env.fromSlice(binRequest).value, env)
  {
    match env.fromSlice(binRequest)
    case Failure(e) =>
      Returns(SystemResult.Err(InvalidRequest(ParseErrorPrefix + e, binRequest)))
    case Success(request) => HandleQuery(q, request, env)
  }

  /** The node can recover the message from the URL: the segment after
      `/smart/` decodes to exactly `msg`. */
  lemma SmartUrlCarriesMsg(urlLcd: string, contractAddr: string, msg: Binary)
    ensures var url := SmartQueryUrl(urlLcd, contractAddr, BinaryText(msg));
            Base64.Decode(url[|url| - |BinaryText(msg)|..]) == Some(msg)
  {
  }

  /** Nothing is percent-escaped: the message bytes FB FF have the text
      `+/8=`, so the URL of a query carrying them ends in `+/8=`, with a `/`
      that splits its last path segment in two. */
  lemma UnescapedMsgText(urlLcd: string, contractAddr: string)
    ensures var url := SmartQueryUrl(urlLcd, contractAddr, BinaryText([0xFB, 0xFF]));
            url[|url| - 4..] == "+/8=" && url[|url| - 3] == '/'
  {
    TextOfFBFF();
  }

  lemma TextOfFBFF()
    ensures BinaryText([0xFB, 0xFF]) == "+/8="
  {
    var b: seq<byte> := [0xFB, 0xFF];
    assert Base64.EncodeNoPad(b) == Base64.EncodeTail(b);
    assert Base64.SextetChar(62) == '+';
    assert Base64.SextetChar(63) == '/';
    assert Base64.SextetChar(60) == '8';
    assert Base64.EncodeTail(b) == "+/8";
    assert Base64.Padding(2) == "=";
  }

  /** When the node's `data` is ASCII JSON text (as `{"balance":"42"}`), the
      caller receives one byte per character, each equal to its code. */
  lemma SmartAnswerOfAsciiJson<C>(q: HttpWasmMockQuerier, contractAddr: string, msg: Binary, env: Env<C>, json: string)
    requires env.lcdGet(SmartQueryUrl(q.urlLcd, contractAddr, BinaryText(msg))) == Some(json)
    requires IsAscii(json)
    ensures var r := HandleQuery(q, Wasm(Smart(contractAddr, msg)), env);
            && r.Returns? && r.value.Ok? && r.value.value.Ok?
            && |r.value.value.value| == |json|
            && forall i | 0 <= i < |json| :: r.value.value.value[i] as int == json[i] as int
  {
    Utf8OfAscii(json);
  }
}
