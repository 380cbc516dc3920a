# HTTP-backed mock querier for CosmWasm contract tests

This project models `HttpWasmMockQuerier`, a querier for CosmWasm contract
tests. It answers smart contract queries from a live chain node through the
node's LCD REST interface. It hands every other query to the in-memory
`MockQuerier` of `cosmwasm_std`, which it wraps.

The model follows `src/mock.rs`:

- `Mock.New` builds the querier. It keeps a supplied base querier. Otherwise
  it builds a fresh one from the seed balances, or from no balances.
- `Mock.HandleQuery` routes a request. A `Wasm(Smart { contract_addr, msg })`
  query becomes a GET of
  `url_lcd + "/cosmwasm/wasm/v1/contract/" + contract_addr + "/smart/" + msg.to_string()`.
  The JSON text of the answer's `data` field is encoded as unpadded standard
  base64 and decoded again with `Binary::from_base64`. The result is returned
  as `Ok(Ok(bytes))`. Every other request goes to the base querier unchanged.
- `Mock.RawQuery` decodes the raw request bytes. If that fails, it returns a
  system-level `InvalidRequest` carrying the bytes. Otherwise it calls
  `HandleQuery`.
- `Base64` is the RFC 4648 codec the re-encoding goes through: the standard
  alphabet of section 4, with and without the padding of section 3.2.
- `Bytes.Utf8` gives the bytes of a Rust `String`, which is what the encoder
  is handed.

The central result is the `HandleQuery` contract. When the node answers, the
caller gets exactly the UTF-8 bytes of the `data` JSON text, successful at both
levels. The base64 detour never reaches its `unwrap` failure. This rests on
`Base64.DecodeOfEncodeNoPad`. `Base64.DecodeExactly` adds the other direction
for the model's `Decode`, which takes complete padding or none: the only texts
it decodes to a byte string are that string's padded and unpadded encodings.

Collaborators the model does not define are passed in as function-typed
fields of `Mock.Env`:

- the wrapped querier's `handle_query`;
- the blocking HTTP GET together with the JSON parse of its body, giving the
  text of `data`, or `None` on failure;
- `from_slice`.

A panicking `unwrap` is an explicit `Panics` outcome.

The message text in the URL is `msg.to_string()`, and `msg` is a `Binary`.
A `Binary` displays as padded standard base64, so the URL carries base64 text,
not the JSON of the contract message. Nothing in the URL is percent-escaped.
A message whose base64 holds `/` therefore adds a path separator to the URL
(`Mock.UnescapedMsgText`).

## Model

| member | source | states |
|---|---|---|
| `Mock.New` | src/mock.rs:31-40 | the URL is stored unchanged; a supplied base querier is kept; without one, the base is a fresh querier seeded with the given balances, or with none when no balances are given |
| `Mock.SmartQueryUrl` | src/mock.rs:46-50 | the URL starts with `url_lcd`, then holds the contract path, the contract address verbatim, `/smart/`, and ends with the message text; its length is the sum of the parts |
| `Mock.BuildSmartUrl` | src/mock.rs:46-50 | the URL built by successive appends is the smart-query URL of the base URL, the address and the message text |
| `CosmWasm.BinaryText` | src/mock.rs:50 | the text of a `Binary` has a length that is a multiple of four and decodes back to exactly its bytes |
| `Mock.SmartUrlCarriesMsg` | src/mock.rs:46-50 | the URL segment after `/smart/` decodes to exactly the message bytes |
| `Mock.UnescapedMsgText` | src/mock.rs:46-50 | for every base URL and address, the message bytes FB FF end the URL in `+/8=`, with an unescaped `/` |
| `Mock.HandleQuery` | src/mock.rs:42-61 | a request other than a smart wasm query returns exactly the base querier's result; a smart query panics when the node request fails, and otherwise returns `Ok(Ok(b))` where `b` is the UTF-8 of the `data` JSON text; it never panics on base64 decoding |
| `Mock.SmartAnswerOfAsciiJson` | src/mock.rs:52-58 | for ASCII `data` text the answer has one byte per character, each equal to the character's code, successful at both levels |
| `Mock.RawQuery` | src/mock.rs:66-77 | undecodable bytes give a system-level `InvalidRequest` whose request is the original bytes and whose message is "Parsing query request: " followed by the decoder's error; decodable bytes give exactly the `handle_query` result of the decoded request |
| `Base64.SextetChar` | src/mock.rs:55 | every 6-bit value maps to a character of the standard alphabet |
| `Base64.SextetValue` | src/mock.rs:56 | every character of the standard alphabet maps to a 6-bit value that maps back to it |
| `Base64.EncodeNoPad` | src/mock.rs:55 | the unpadded encoding of n bytes has length 4*(n/3), plus n%3+1 when n%3 is not 0, and uses only the standard alphabet, so it has no `=` |
| `Base64.Encode` | src/mock.rs:50 | the padded encoding of n bytes has length 4*ceil(n/3), a multiple of four |
| `Base64.DecodeUnpadded` | src/mock.rs:56 | accepted unpadded text uses only the standard alphabet and has the length of the encoding of its result |
| `Base64.Decode` | src/mock.rs:56 | accepted text is standard-alphabet text followed by at most two `=`; when padded, its length is a multiple of four; its body has the length of the unpadded encoding of the result |
| `Base64.DecodeUnpaddedOfEncode` | src/mock.rs:55-56 | unpadded decoding of the unpadded encoding returns the input bytes |
| `Base64.EncodeOfDecodeUnpadded` | src/mock.rs:56 | unpadded decoding accepts only canonical text: re-encoding its result gives the input text |
| `Base64.DecodeOfEncodeNoPad` | src/mock.rs:54-56 | `Binary::from_base64` of the `STANDARD_NO_PAD` encoding returns exactly the encoded bytes |
| `Base64.DecodeOfEncode` | src/mock.rs:50 | `Binary::from_base64` of the padded encoding returns exactly the encoded bytes |
| `Base64.EncodeOfDecode` | src/mock.rs:56 | any text the model's `Decode` accepts is the unpadded or the padded encoding of its result |
| `Base64.DecodeExactly` | src/mock.rs:54-56 | the model's `Decode` maps a text to bytes b if and only if the text is the unpadded or the padded encoding of b |
| `Bytes.Utf8` | src/mock.rs:55 | the bytes of a string number between one and four per character |
| `Bytes.Utf8Char` | src/mock.rs:55 | one character encodes as one to four bytes; one byte with the character's code when it is below 0x80; otherwise a lead byte announcing the width, followed by continuation bytes |
| `Bytes.Utf8OfAscii` | src/mock.rs:55 | ASCII text is stored byte for byte, each byte equal to its character's code |

## Left out

- The blocking HTTP GET (`reqwest`) and the JSON parse of the response into `{ data }` (src/mock.rs:52-53) are network I/O and library code. They are the `lcdGet` parameter. It returns the JSON text of `data`, or `None` when the request fails in transport or the body does not parse as JSON with a `data` field. A 4xx or 5xx status is not a failure in itself: it panics only through that parse, and a non-2xx body that has a `data` field is returned like any other answer.
- `serde_json::Value::to_string` is library code. The JSON text is an opaque string.
- The text of a panic message is not modelled. A panic is `Panics` with the site of the failing `unwrap`.
- `from_slice` is library code and is the `fromSlice` parameter. Its error text is the string after the message prefix.
- `MockQuerier::new` and `MockQuerier::handle_query` are library code. `handle_query` is the `baseHandleQuery` parameter. A `MockQuerier` value is only a stand-in record of the seed balances it was built from and a tag for its handlers. The helper `CosmWasm.NewMockQuerier` builds that record for `MockQuerier::new`. The bank state it sets up and the answers it gives are not modelled.
- Request kinds: `QueryRequest` keeps `Bank`, `Custom`, `Stargate` and `Wasm`. The feature-gated `Staking`, `Ibc` and `Distribution` kinds take the same delegation path as `Bank` and are not modelled separately.
- Base64.Decode: the model accepts complete padding or none. The decoder behind `Binary::from_base64` also accepts partial padding, such as "AA=" for the byte 00, and the model rejects it. `handle_query` only ever decodes unpadded text, so this does not affect the querier's behaviour.
- Base64.EncodeOfDecode: holds of the model's `Decode` only. `Binary::from_base64` also accepts partially padded text such as "AA=", which is neither encoding of its result.
- Base64.DecodeExactly: the direction "decodes to b, so it is an encoding of b" holds of the model's `Decode` only. Partially padded text that `Binary::from_base64` accepts, such as "AA=", is a further text that decodes to b.
- `create_http_mock` (src/mock.rs:80-94) only assembles `OwnedDeps` with default storage and API.
- `src/test.rs` is an integration test against a public node. It needs the network.
- Blocking, timeouts and concurrent callers are not modelled. Each call is one evaluation.
