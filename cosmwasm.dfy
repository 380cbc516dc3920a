/**
  The part of the `cosmwasm_std` library the querier meets at its boundary:
  query requests, the two-level query result, coins and the in-memory mock
  querier it wraps. Only the shapes are modelled; the library's own logic is
  not.
 */
module CosmWasm {
  import opened Wrappers
  import opened Bytes
  import Base64

  /** `Binary`: an owned byte string. */
  type Binary = seq<byte>

  type Uint128 = x: nat | x < 0x1_0000_0000_0000_0000_0000_0000_0000_0000

  datatype Coin = Coin(denom: string, amount: Uint128)

  datatype BankQuery =
    | Balance(address: string, denom: string)
    | AllBalances(address: string)

  datatype WasmQuery =
    | Smart(contractAddr: string, msg: Binary)
    | Raw(contractAddr: string, key: Binary)
    | ContractInfo(contractAddr: string)

  /** `QueryRequest<C>`, where C is the chain's custom query type. */
  datatype QueryRequest<C> =
    | Bank(bank: BankQuery)
    | Custom(custom: C)
    | Stargate(path: string, data: Binary)
    | Wasm(wasm: WasmQuery)

  datatype SystemError =
    | InvalidRequest(error: string, request: Binary)
    | InvalidResponse(error: string, response: Binary)
    | NoSuchContract(addr: string)
    | Unknown
    | UnsupportedRequest(kind: string)

  /** Outer level of a query result: did the host answer at all. */
  datatype SystemResult<T> = Ok(value: T) | Err(error: SystemError)

  /** Inner level: did the contract answer successfully. */
  datatype ContractResult<T> = Ok(value: T) | Err(error: string)

  type QuerierResult = SystemResult<ContractResult<Binary>>

  /** The text form of a `Binary` (its `Display`, `to_string`): padded standard base64. */
  function BinaryText(b: Binary): (s: string)
    ensures |s| % 4 == 0
    ensures Base64.Decode(s) == Some(b)
  {
    Base64.DecodeOfEncode(b);
    Base64.Encode(b)
  }

  /** Handlers a `MockQuerier` answers with, beyond its bank balances: the
      library defaults, or ones a test installed (custom, wasm, staking). */
  datatype Handlers = Defaults | Installed(id: nat)

  /** The library's in-memory `MockQuerier`. Its answers are library code and
      enter the model as a parameter; its state is kept as the bank balances
      it was seeded with and the handlers it uses. */
  datatype MockQuerier = MockQuerier(balances: seq<(string, seq<Coin>)>, handlers: Handlers)

  /** `MockQuerier::new(balances)`. */
  function NewMockQuerier(balances: seq<(string, seq<Coin>)>): (m: MockQuerier)
    ensures m.balances == balances && m.handlers == Defaults
  {
    MockQuerier(balances, Defaults)
  }
}
