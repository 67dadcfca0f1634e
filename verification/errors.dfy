/** The server's error enumeration (src/error.rs), extended with the variants
    that src/util.rs and src/cgi.rs return. */
module Errors {

  datatype ServerError =
    | InvalidStatusCode(code: int)
    | DecompressionError
    | UnsupportedEncoding
    | InvalidRequest
    | BodyTooLarge
    | MalformedPayload
    | UnsupportedMediaType
    | BadGateway
    /** Not a value the source returns: the connection's task panicked and
        nothing was sent. */
    | TaskPanicked
}
