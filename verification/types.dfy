/** The shared type vocabulary of include/types.hpp and the transport
    interface (crab) that the core writes to. */
module Types {

  /** One octet of file contents or of a binary string. */
  type Byte = bv8

  /** The parsed query parameters of a request (`kv_map_t`). */
  type KvMap = map<string, string>

  /** The identity of an open client connection (`http::Client *`). */
  type ClientId = nat

  /** A JSON scalar as stored by the JSON object builder. */
  datatype JsonValue = JInt(i: int) | JStr(s: string)

  /** One `Client::write` call, recorded instead of being performed. */
  datatype Write =
    /** A response header with status, content type, its parameter and
        the announced body length, buffered until the body follows. */
    | Header(status: int, mime: string, mimeParams: string, contentLength: nat)
    /** Raw body bytes following a `Header`. */
    | Body(bytes: seq<Byte>)
    /** `Response::simple_html(status, body)`. */
    | SimpleHtml(status: int, body: string)
    /** `Response::simple_text(status, body)`. */
    | SimpleText(status: int, body: string)
    /** A WebSocket message with the given opcode carrying a JSON object
        (the object, not its serialised text). */
    | WebMessage(opcode: int, json: map<string, JsonValue>)
}
