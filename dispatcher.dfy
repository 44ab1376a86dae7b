/**
 * `processAPI` (API.php:95-118) as a value: the handler registry is a map
 * from endpoint name to handler, and a handler either returns a value or
 * throws an exception carrying a message and a code.
 */
module Dispatcher {
  import opened Php
  import opened Sanitizer
  import opened StatusCatalog

  /** What a handler does with the arguments: return a value, or throw (message, code). */
  datatype HandlerResult = Returned(value: Value) | Threw(message: string, code: int)

  /** The endpoint methods a concrete API offers, by name. */
  type Handlers = map<string, seq<string> -> HandlerResult>

  /** The status and the data `processAPI` hands to `_response`. */
  datatype Reply = Reply(status: int, data: Value)

  /** The PHP array `array('error' => message)`. */
  function ErrorObject(message: string): Value {
    Array(map["error" := Scalar(message)])
  }

  /** The error message of a caught exception: its own message when truthy, else the phrase of its code. */
  function ErrorMessage(message: string, code: int): (r: string)
    ensures r != []
    ensures Truthy(message) ==> r == message
    ensures !Truthy(message) ==> r == RequestStatus(code)
  {
    if Truthy(message) then message else RequestStatus(code)
  }

  /** The status of a caught exception: its code when non-zero, else 500. */
  function ErrorStatus(code: int): (r: int)
    ensures r != 0
    ensures code != 0 ==> r == code
    ensures code == 0 ==> r == 500
  {
    if code != 0 then code else 500
  }

  /**
   * `processAPI`: no handler for the endpoint gives 404 with the bare string
   * "No Endpoint: <endpoint>"; a handler that returns gives 200 with its
   * value; one that throws gives its error status with an error object.
   */
  function Dispatch(handlers: Handlers, endpoint: string, args: seq<string>): (r: Reply)
    ensures r.status != 0
    ensures endpoint !in handlers ==> r == Reply(404, Scalar("No Endpoint: " + endpoint))
    ensures endpoint in handlers && handlers[endpoint](args).Returned? ==>
      r == Reply(200, handlers[endpoint](args).value)
  {
    if endpoint in handlers then
      match handlers[endpoint](args)
      case Returned(v) => Reply(200, v)
      case Threw(message, code) => Reply(ErrorStatus(code), ErrorObject(ErrorMessage(message, code)))
    else Reply(404, Scalar("No Endpoint: " + endpoint))
  }

  /**
   * A thrown exception always yields an object with one non-empty `error`
   * string: the message when it is truthy, the reason phrase of the code
   * otherwise; the status is the code, or 500 for code 0.
   */
  lemma ThrownErrorReply(handlers: Handlers, endpoint: string, args: seq<string>)
    requires endpoint in handlers && handlers[endpoint](args).Threw?
    ensures var outcome, r := handlers[endpoint](args), Dispatch(handlers, endpoint, args);
      && r.status == (if outcome.code != 0 then outcome.code else 500)
      && r.data.Array? && r.data.entries.Keys == {"error"}
      && r.data.entries["error"].Scalar?
      && var m := r.data.entries["error"].s;
         && m != []
         && (Truthy(outcome.message) ==> m == outcome.message)
         && (!Truthy(outcome.message) ==> m == RequestStatus(outcome.code))
  {
  }

  /** Dispatch answers 404 exactly when no handler is registered under the endpoint, unless a handler itself throws 404. */
  lemma NotFoundExactlyWithoutHandler(handlers: Handlers, endpoint: string, args: seq<string>)
    requires endpoint in handlers ==> !(handlers[endpoint](args).Threw? && handlers[endpoint](args).code == 404)
    ensures Dispatch(handlers, endpoint, args).status == 404 <==> endpoint !in handlers
  {
  }

  /** Unknown handler: "bogus" gives 404 and "No Endpoint: bogus". */
  lemma BogusEndpoint(handlers: Handlers, args: seq<string>)
    requires "bogus" !in handlers
    ensures Dispatch(handlers, "bogus", args) == Reply(404, Scalar("No Endpoint: bogus"))
  {
    assert "No Endpoint: " + "bogus" == "No Endpoint: bogus";
  }

  /** A handler throwing ("Forbidden action", 403) gives 403 with that message. */
  lemma ForbiddenAction(handlers: Handlers, args: seq<string>)
    requires "files" in handlers && handlers["files"](args) == Threw("Forbidden action", 403)
    ensures Dispatch(handlers, "files", args) == Reply(403, ErrorObject("Forbidden action"))
  {
  }

  /** A handler throwing ("", 0) gives 500 with "Internal Server Error"; the falsy "0" is replaced too. */
  lemma EmptyError(handlers: Handlers, args: seq<string>)
    requires "files" in handlers && handlers["files"](args) == Threw("", 0)
    ensures Dispatch(handlers, "files", args) == Reply(500, ErrorObject("Internal Server Error"))
  {
  }

  /** The message "0" is falsy in PHP, so the phrase of the code is reported instead. */
  lemma ZeroMessageIsFalsy(handlers: Handlers, args: seq<string>)
    requires "files" in handlers && handlers["files"](args) == Threw("0", 404)
    ensures Dispatch(handlers, "files", args) == Reply(404, ErrorObject("Not Found"))
  {
    RequestStatusExamples();
  }
}
