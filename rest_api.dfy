/**
 * The abstract class API of API.php as an object: the constructor assembles
 * the request into its fields step by step (API.php:47-92), `ProcessApi`
 * routes it to a handler (API.php:95-118) and `Response` sends the status
 * line and renders the JSON text (API.php:121-132).
 *
 * The host environment becomes parameters: the rewritten path (the `request`
 * parameter), the request method, the X-HTTP-Method header, the query and
 * form parameters, the raw body, the server protocol and `json_encode`.
 * `header()` calls are recorded in `headers`, log writes in `log`.
 */
module RestApi {
  import opened Wrappers
  import opened Php
  import opened Sanitizer
  import opened StatusCatalog
  import opened UnicodeEscapes
  import opened Request
  import opened Dispatcher

  /** One `write_log` call: level and the method, endpoint and payload it reports. */
  datatype LogEntry = LogEntry(level: string, httpMethod: string, endpoint: string, request: map<string, Value>)

  /** The three headers every response starts with. */
  const CorsHeaders: seq<string> := [
    "Access-Control-Allow-Origin: *",
    "Access-Control-Allow-Methods: *",
    "Content-Type: application/json"
  ]

  class Api {
    /** The effective HTTP method. */
    var httpMethod: string
    /** The first path segment, naming the handler. */
    var endpoint: string
    /** The second path segment when it is not numeric, else "". */
    var verb: string
    /** The remaining path segments. */
    var args: seq<string>
    /** The sanitised payload, without its `request` key. */
    var request: map<string, Value>
    /** The raw body of a PUT request. */
    var file: Option<string>
    /** The `header()` calls made so far, in order. */
    var headers: seq<string>
    /** The entries written to the log sink, in order. */
    var log: seq<LogEntry>
    /** The exception the constructor threw, if it threw one. */
    var exception: Option<string>
    /** `$_SERVER["SERVER_PROTOCOL"]`. */
    const protocol: string
    /** `json_encode` with JSON_UNESCAPED_SLASHES and JSON_PRETTY_PRINT. */
    const encode: Value -> string

    /**
     * `__construct`: send the CORS headers, parse the path, resolve the
     * method override (throwing "Unexpected Header" on a bad value), pick and
     * sanitise the payload (sending a 405 status line for an unknown method)
     * and drop the `request` key.
     */
    constructor (path: string, requestMethod: string, overrideHeader: Option<string>,
                 query: map<string, Value>, form: map<string, Value>, body: string,
                 protocol: string, encode: Value -> string)
      ensures this.protocol == protocol && this.encode == encode && log == []
      ensures var route := ParsePath(path);
        endpoint == route.endpoint && verb == route.verb.GetOr("") && args == route.args
      ensures match EffectiveMethod(requestMethod, overrideHeader)
        case Failure(e) =>
          exception == Some(e) && httpMethod == requestMethod &&
          headers == CorsHeaders && request == map[] && file == None
        case Success(m) =>
          exception == None && httpMethod == m &&
          match SelectPayload(m, query, form, body)
          case NotAllowed =>
            headers == CorsHeaders + [StatusLine(protocol, 405)] && request == map[] && file == None
          case Accepted(payload, f) =>
            headers == CorsHeaders && request == payload && file == f
    {
      var sent := [];
      sent := sent + [CorsHeaders[0]];
      sent := sent + [CorsHeaders[1]];
      sent := sent + [CorsHeaders[2]];
      assert sent == CorsHeaders;
      var first, second, rest := SplitRequestPath(path);
      var resolved, thrown := ResolveMethod(requestMethod, overrideHeader);
      var payload, body', allowed := map[], None, true;
      if thrown.None? {
        payload, body', allowed := LoadPayload(resolved, query, form, body);
      }
      this.protocol := protocol;
      this.encode := encode;
      endpoint, verb, args := first, second, rest;
      httpMethod, exception := resolved, thrown;
      request, file := payload, body';
      headers, log := sent, [];
      new;
      if !allowed {
        var _ := Response(ErrorObject("Invalid Method"), 405);
      }
    }

    /**
     * `processAPI`: with a handler for the endpoint, log the request and
     * answer with what the handler returns or throws; without one, answer
     * 404. The status line and the text follow `Dispatch`.
     */
    method ProcessApi(handlers: Handlers) returns (result: string)
      requires exception == None
      modifies this`headers, this`log
      ensures var reply := Dispatch(handlers, endpoint, args);
        headers == old(headers) + [StatusLine(protocol, reply.status)] &&
        result == RegexUnescape(encode(reply.data))
      ensures log == old(log) + if endpoint in handlers then [LogEntry("info", httpMethod, endpoint, request)] else []
    {
      if endpoint in handlers {
        log := log + [LogEntry("info", httpMethod, endpoint, request)];
      }
      var reply := Dispatch(handlers, endpoint, args);
      result := Response(reply.data, reply.status);
    }

    /**
     * `_response`: send the status line for `status`, then encode `data` and
     * turn the Unicode escapes of the encoding into UTF-8.
     */
    method Response(data: Value, status: int) returns (result: string)
      modifies this`headers
      ensures headers == old(headers) + [StatusLine(protocol, status)]
      ensures result == RegexUnescape(encode(data))
    {
      headers := headers + [StatusLine(protocol, status)];
      var json := encode(data);
      result := ReplaceUnicodeEscapes(json);
    }
  }

  /** The path part of `__construct`: split, shift the endpoint, shift a non-numeric verb. */
  method SplitRequestPath(path: string) returns (endpoint: string, verb: string, args: seq<string>)
    ensures var route := ParsePath(path);
      endpoint == route.endpoint && verb == route.verb.GetOr("") && args == route.args
  {
    verb := "";
    args := Explode('/', RTrimSlashes(path));
    endpoint := args[0];
    args := args[1..];
    if |args| > 0 && !IsNumeric(args[0]) {
      verb := args[0];
      args := args[1..];
    }
  }

  /**
   * The method part of `__construct`: the request method, overridden for POST
   * by the header; any other header value is thrown as an exception.
   */
  method ResolveMethod(requestMethod: string, overrideHeader: Option<string>)
    returns (httpMethod: string, exception: Option<string>)
    ensures match EffectiveMethod(requestMethod, overrideHeader)
      case Failure(e) => exception == Some(e) && httpMethod == requestMethod
      case Success(m) => exception == None && httpMethod == m
  {
    httpMethod, exception := requestMethod, None;
    if httpMethod == "POST" && overrideHeader.Some? {
      if overrideHeader.value == "DELETE" {
        httpMethod := "DELETE";
      } else if overrideHeader.value == "PUT" {
        httpMethod := "PUT";
      } else {
        exception := Some(UnexpectedHeader);
      }
    }
  }

  /**
   * The payload part of `__construct`: sanitise the parameters the method
   * reads, keep a PUT body, refuse any other method, drop `request`.
   */
  method LoadPayload(httpMethod: string, query: map<string, Value>, form: map<string, Value>, body: string)
    returns (request: map<string, Value>, file: Option<string>, allowed: bool)
    ensures match SelectPayload(httpMethod, query, form, body)
      case NotAllowed => !allowed && request == map[] && file == None
      case Accepted(payload, f) => allowed && request == payload && file == f
  {
    request, file, allowed := map[], None, true;
    if httpMethod == "DELETE" || httpMethod == "POST" {
      var cleaned := CleanInputs(Array(form));
      request := cleaned.entries;
    } else if httpMethod == "GET" {
      var cleaned := CleanInputs(Array(query));
      request := cleaned.entries;
    } else if httpMethod == "PUT" {
      var cleaned := CleanInputs(Array(query));
      request := cleaned.entries;
      file := Some(body);
    } else {
      allowed := false;
    }
    request := request - {"request"};
  }
}
