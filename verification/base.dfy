/** Shared result shapes of the HTTP handlers: an optional value, the error
    payloads the API sends back, and a handler result that carries the HTTP
    status code next to the payload. */
module Base {

  /** A value that may be absent: a missing query parameter, body field or row. */
  datatype Option<+T> = None | Some(value: T) {
    function GetOr(default: T): T {
      match this
      case Some(v) => v
      case None => default
    }
  }

  /** The two error bodies the API produces: `{ error: message }` and the
      express-validator `{ errors: [...] }` list, here the names of the
      failing fields in rule order. */
  datatype Error = Message(text: string) | Invalid(fields: seq<string>)

  /** A handler's answer: a success status with its payload, or an error
      status with its error body. */
  datatype Result<+T> = Ok(status: int, value: T) | Err(status: int, error: Error)

  /** The empty success payload of the disable endpoints (`{ message: ... }`). */
  datatype Ack = Ack

  const OK: int := 200
  const CREATED: int := 201
  const BAD_REQUEST: int := 400
  const UNAUTHORIZED: int := 401
  const FORBIDDEN: int := 403
  const NOT_FOUND: int := 404
  const SERVER_ERROR: int := 500

  /** JavaScript truthiness of an optional string: present and not empty. */
  predicate Truthy(o: Option<string>) {
    o.Some? && o.value != ""
  }
}
