/** The uniform response every endpoint returns: a JSON body
    `{data, message, error}` together with an HTTP status code. */
module Envelope {
  import opened Messages

  const OK: int := 200
  const BAD_REQUEST: int := 400
  const NOT_FOUND: int := 404
  const INTERNAL_ERROR: int := 500

  const SUCCESS: string := "Success"

  /** The `data` field: a string, the empty object `{}`, or a conversation record. */
  datatype Data =
    | Text(text: string)
    | EmptyObject
    | Record(conversationId: int, tag: string, messages: seq<Message>)

  datatype Response = Response(status: int, data: Data, message: string, error: bool)

  /** A 200 response carrying `data` with message "Success". */
  function Succeeded(data: Data): Response
  {
    Response(OK, data, SUCCESS, false)
  }

  /** An error response with empty string data, as the document endpoints and
      the update failure path build it. */
  function Rejected(status: int, message: string): Response
  {
    Response(status, Text(""), message, true)
  }
}
