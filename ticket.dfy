/** The capability token exchanged out of band between sender and receiver
    (internal/ticket/ticket.go): the JSON of a `Ticket`, carried as padded
    URL-safe base64 text. */
module TicketCodec {
  import opened Bytes
  import opened Wrappers
  import Json
  import Base64Url

  /** `ticket.Ticket`; the JSON keys are `peer_addr`, `file_hash`, `file_name`, `file_size`. */
  datatype Ticket = Ticket(peerAddr: string, fileHash: string, fileName: string, fileSize: Int64)

  /** The four ways `Decode` fails, in the order it checks them. */
  datatype TicketError =
    | InvalidEncoding  // "failed to decode ticket"
    | InvalidJson      // "failed to unmarshal ticket"
    | MissingPeerAddr  // "invalid ticket: missing peer address"
    | MissingFileHash  // "invalid ticket: missing file hash"

  /** `(*Ticket).Encode`: marshalling a ticket cannot fail, so neither can encoding.
      The text decodes, as base64url, to exactly the ticket's JSON. */
  function Encode(c: Json.Codec<Ticket>, t: Ticket): (s: string)
    ensures Base64Url.Decode(s) == Some(c.marshal(t))
  {
    Base64Url.DecodeEncode(c.marshal(t));
    Base64Url.Encode(c.marshal(t))
  }

  /** `ticket.Decode`. Base64 is undone first, then the JSON is parsed, then the
      peer address and the content hash are checked, in that order. The file name
      and the file size are taken as they are. */
  function Decode(c: Json.Codec<Ticket>, s: string): (r: Result<Ticket, TicketError>)
    ensures Base64Url.Decode(s).None? <==> r == Err(InvalidEncoding)
    ensures r == Err(InvalidJson) <==>
              Base64Url.Decode(s).Some? && c.unmarshal(Base64Url.Decode(s).value).None?
    ensures r.Ok? ==>
              Base64Url.Decode(s).Some? && c.unmarshal(Base64Url.Decode(s).value) == Some(r.value)
              && r.value.peerAddr != "" && r.value.fileHash != ""
    ensures Base64Url.Decode(s).Some? && c.unmarshal(Base64Url.Decode(s).value).Some? ==>
              var t := c.unmarshal(Base64Url.Decode(s).value).value;
              && (t.peerAddr != "" && t.fileHash != "" ==> r == Ok(t))
              && (r == Err(MissingPeerAddr) <==> t.peerAddr == "")
              && (r == Err(MissingFileHash) <==> t.peerAddr != "" && t.fileHash == "")
  {
    match Base64Url.Decode(s)
    case None => Err(InvalidEncoding)
    case Some(data) =>
      match c.unmarshal(data)
      case None => Err(InvalidJson)
      case Some(t) =>
        if t.peerAddr == "" then Err(MissingPeerAddr)
        else if t.fileHash == "" then Err(MissingFileHash)
        else Ok(t)
  }

  /** A ticket with a peer address and a content hash survives encoding and
      decoding whatever its name and size (an empty name or a negative size included). */
  lemma DecodeEncode(c: Json.Codec<Ticket>, t: Ticket)
    requires Json.RoundTrips(c)
    requires t.peerAddr != "" && t.fileHash != ""
    ensures Decode(c, Encode(c, t)) == Ok(t)
  {
    assert c.unmarshal(c.marshal(t)) == Some(t);
  }

  /** Encoding a ticket decodes to the validation error for its missing field,
      the peer address being checked before the hash. */
  lemma DecodeEncodeRejects(c: Json.Codec<Ticket>, t: Ticket)
    requires Json.RoundTrips(c)
    requires t.peerAddr == "" || t.fileHash == ""
    ensures Decode(c, Encode(c, t)) == Err(if t.peerAddr == "" then MissingPeerAddr else MissingFileHash)
  {
    assert c.unmarshal(c.marshal(t)) == Some(t);
  }

  /** Text whose base64 is valid but whose JSON is not is rejected as such,
      before any field is looked at. */
  lemma UnparsableRejected(c: Json.Codec<Ticket>, s: string)
    requires Base64Url.Decode(s).Some? && c.unmarshal(Base64Url.Decode(s).value).None?
    ensures Decode(c, s) == Err(InvalidJson)
  {
  }
}
