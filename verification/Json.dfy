/** The value of a cJSON tree: what an item and everything below it denote. */
module Json {
  import opened Bytes

  datatype Value =
    | Null
    | False
    | True
    | Number(n: real)
    | String(text: bytes)
    | Raw(text: bytes)
    | Array(items: seq<Value>)
    | Object(members: seq<Member>)

  datatype Member = Member(key: bytes, value: Value)

  /** Integers below this are printed as plain decimals and compared exactly. */
  const LARGEST: int := 1_000_000_000_000_000

  const NESTING_LIMIT: nat := 1000
}
