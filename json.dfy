/** `encoding/json` seen from outside: a marshaller that always succeeds on the
    model's value types and an unmarshaller that may reject its input. The JSON
    syntax itself is not modelled; what the protocol relies on is that
    unmarshalling what was marshalled gives the value back. */
module Json {
  import opened Bytes
  import opened Wrappers

  datatype Codec<!T> = Codec(marshal: T -> seq<Byte>, unmarshal: seq<Byte> -> Option<T>)

  /** `json.Unmarshal(json.Marshal(x))` yields `x` for every value `x`. */
  ghost predicate RoundTrips<T(!new)>(c: Codec<T>)
  {
    forall x: T :: c.unmarshal(c.marshal(x)) == Some(x)
  }
}
