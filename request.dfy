/**
 * What the constructor of API (API.php:53-91) derives from a request: the
 * route (endpoint, optional verb, positional arguments) taken from the
 * rewritten path, the effective HTTP method after the POST override header,
 * and the sanitised payload chosen by that method.
 */
module Request {
  import opened Wrappers
  import opened Php
  import opened Sanitizer

  // ---------------------------------------------------------------------
  // the route

  /** `explode('/', rtrim(path, '/'))`: the path's segments once trailing slashes are gone. */
  function Segments(path: string): (segs: seq<string>)
    ensures |segs| >= 1
    ensures forall i :: 0 <= i < |segs| ==> '/' !in segs[i]
    ensures Implode('/', segs) == RTrimSlashes(path)
  {
    Explode('/', RTrimSlashes(path))
  }

  /** Endpoint, the verb if one was shifted off, and the remaining arguments. */
  datatype Route = Route(endpoint: string, verb: Option<string>, args: seq<string>)

  /** The segments a route consists of, in path order. */
  function RouteSegments(r: Route): seq<string> {
    [r.endpoint] + (if r.verb.Some? then [r.verb.value] else []) + r.args
  }

  /**
   * The first segment is the endpoint; the next one becomes the verb when it
   * exists and is not numeric; the rest are the arguments. Joined with '/',
   * the route's segments give back the path without its trailing slashes.
   */
  function ParsePath(path: string): (r: Route)
    ensures RouteSegments(r) == Segments(path)
    ensures Implode('/', RouteSegments(r)) == RTrimSlashes(path)
    ensures r.verb.Some? <==> |Segments(path)| >= 2 && !IsNumeric(Segments(path)[1])
  {
    var segs := Segments(path);
    var r := if |segs| >= 2 && !IsNumeric(segs[1]) then Route(segs[0], Some(segs[1]), segs[2..])
             else Route(segs[0], None, segs[1..]);
    assert RouteSegments(r) == segs;
    r
  }

  /** The first part of an implosion is its prefix, followed by the separator when more parts come. */
  lemma {:induction false} ImplodeStartsWithFirst(sep: char, parts: seq<string>)
    requires |parts| >= 1
    ensures |parts[0]| <= |Implode(sep, parts)|
    ensures Implode(sep, parts)[..|parts[0]|] == parts[0]
    ensures |parts| > 1 ==> |parts[0]| < |Implode(sep, parts)| && Implode(sep, parts)[|parts[0]|] == sep
  {
    if |parts| > 1 {
      var s := Implode(sep, parts);
      assert s == parts[0] + [sep] + Implode(sep, parts[1..]);
      assert s[..|parts[0]|] == parts[0];
    }
  }

  /** The last part of an implosion is its suffix. */
  lemma {:induction false} ImplodeEndsWithLast(sep: char, parts: seq<string>)
    requires |parts| >= 1
    ensures var last := parts[|parts| - 1];
      |last| <= |Implode(sep, parts)| && Implode(sep, parts)[|Implode(sep, parts)| - |last|..] == last
    decreases |parts|
  {
    if |parts| > 1 {
      ImplodeEndsWithLast(sep, parts[1..]);
      var s := Implode(sep, parts);
      var t := Implode(sep, parts[1..]);
      assert s == (parts[0] + [sep]) + t;
      assert s[|s| - |t|..] == t;
    }
  }

  /**
   * The endpoint is everything of the right-trimmed path up to its first '/'
   * (all of it when there is none); an empty path gives the empty endpoint.
   */
  lemma EndpointIsFirstSegment(path: string)
    ensures var e, p := ParsePath(path).endpoint, RTrimSlashes(path);
      && '/' !in e
      && |e| <= |p| && p[..|e|] == e
      && (|e| == |p| || p[|e|] == '/')
    ensures path == "" ==> ParsePath(path).endpoint == ""
  {
    ImplodeStartsWithFirst('/', Segments(path));
  }

  /** A '/'-join of '/'-free segments whose last one is non-empty does not end in '/'. */
  lemma ImplodeIsRTrimmed(parts: seq<string>)
    requires |parts| >= 1
    requires forall i :: 0 <= i < |parts| ==> '/' !in parts[i]
    requires |parts| == 1 || parts[|parts| - 1] != ""
    ensures RTrimSlashes(Implode('/', parts)) == Implode('/', parts)
  {
    var s := Implode('/', parts);
    ImplodeEndsWithLast('/', parts);
    var last := parts[|parts| - 1];
    if |parts| == 1 {
      assert s == parts[0];
    } else {
      assert s[|s| - 1] == last[|last| - 1];
      assert last[|last| - 1] in last;
    }
  }

  /**
   * Routing by position: for segments free of '/' whose last one is
   * non-empty, the route of their '/'-join takes the first as endpoint, the
   * second as verb exactly when it is not numeric, and the rest as arguments.
   */
  lemma ParseJoinedSegments(parts: seq<string>)
    requires |parts| >= 1
    requires forall i :: 0 <= i < |parts| ==> '/' !in parts[i]
    requires |parts| == 1 || parts[|parts| - 1] != ""
    ensures ParsePath(Implode('/', parts)) ==
      if |parts| >= 2 && !IsNumeric(parts[1]) then Route(parts[0], Some(parts[1]), parts[2..])
      else Route(parts[0], None, parts[1..])
  {
    ImplodeIsRTrimmed(parts);
    ExplodeImplode('/', parts);
  }

  /** "files/process/12": a verb, then a numeric argument. */
  lemma ParseWithVerb()
    ensures ParsePath("files/process/12") == Route("files", Some("process"), ["12"])
  {
    assert !IsNumeric("process");
    assert Implode('/', ["files", "process", "12"]) == "files/process/12";
    ParseJoinedSegments(["files", "process", "12"]);
  }

  /** "files/12": a numeric second segment is not a verb and stays an argument. */
  lemma ParseNumericSecondSegment()
    ensures ParsePath("files/12") == Route("files", None, ["12"])
  {
    DigitsAreNumeric("12");
    assert Implode('/', ["files", "12"]) == "files/12";
    ParseJoinedSegments(["files", "12"]);
  }

  /** "a//b": the empty second segment is not numeric, so it is shifted as the verb. */
  lemma ParseEmptyVerb()
    ensures ParsePath("a//b") == Route("a", Some(""), ["b"])
  {
    assert Implode('/', ["a", "", "b"]) == "a//b";
    ParseJoinedSegments(["a", "", "b"]);
  }

  /**
   * Endpoint and verb leave `args` by position, not by value: in "a/1/a" the
   * numeric "1" is no verb, and the endpoint's text comes back as an argument.
   */
  lemma EndpointTextMayRecurInArgs()
    ensures ParsePath("a/1/a") == Route("a", None, ["1", "a"])
  {
    DigitsAreNumeric("1");
    assert Implode('/', ["a", "1", "a"]) == "a/1/a";
    ParseJoinedSegments(["a", "1", "a"]);
  }

  /** Appending any number of '/' to the path does not change the route. */
  lemma TrailingSlashesIgnored(path: string, slashes: string)
    requires forall i :: 0 <= i < |slashes| ==> slashes[i] == '/'
    ensures ParsePath(path + slashes) == ParsePath(path)
  {
    RTrimSlashesAppended(path, slashes);
  }

  /**
   * `rtrim` leaves a leading slash alone, so a path given with one has the
   * empty endpoint, and its first real segment becomes the verb or an argument.
   */
  lemma LeadingSlashGivesEmptyEndpoint(path: string)
    ensures ParsePath("/" + path).endpoint == ""
  {
    var p := RTrimSlashes("/" + path);
    if p != [] {
      assert p[0] == '/';
      assert Explode('/', p)[0] == "";
    }
  }

  // ---------------------------------------------------------------------
  // the effective method

  /** The message of the exception a bad override header raises. */
  const UnexpectedHeader: string := "Unexpected Header"

  /**
   * The method the request is served as: a POST with an override header
   * becomes DELETE or PUT as the header says, any other header value is an
   * error; every other request keeps its method, header or not.
   */
  function EffectiveMethod(requestMethod: string, overrideHeader: Option<string>): (r: Result<string, string>)
    ensures r.Failure? <==>
      requestMethod == "POST" && overrideHeader.Some? && overrideHeader.value != "DELETE" && overrideHeader.value != "PUT"
    ensures r.Failure? ==> r.error == UnexpectedHeader
    ensures r.Success? && r.value != requestMethod ==>
      requestMethod == "POST" && overrideHeader.Some? && r.value == overrideHeader.value
    ensures requestMethod != "POST" || overrideHeader.None? ==> r == Success(requestMethod)
    ensures requestMethod == "POST" && overrideHeader.Some? && r.Success? ==> r.value == overrideHeader.value
  {
    if requestMethod == "POST" && overrideHeader.Some? then
      if overrideHeader.value == "DELETE" then Success("DELETE")
      else if overrideHeader.value == "PUT" then Success("PUT")
      else Failure(UnexpectedHeader)
    else Success(requestMethod)
  }

  /** The override with DELETE, with PUT, and with anything else. */
  lemma OverrideExamples(other: string)
    requires other != "DELETE" && other != "PUT"
    ensures EffectiveMethod("POST", Some("DELETE")) == Success("DELETE")
    ensures EffectiveMethod("POST", Some("PUT")) == Success("PUT")
    ensures EffectiveMethod("POST", Some(other)) == Failure("Unexpected Header")
    ensures EffectiveMethod("GET", Some(other)) == Success("GET")
  {
  }

  // ---------------------------------------------------------------------
  // the payload

  /** The payload of an accepted method, or the 405 rejection of any other. */
  datatype Payload = Accepted(request: map<string, Value>, file: Option<string>) | NotAllowed

  /** The parameters a method reads: the form for DELETE and POST, the query otherwise. */
  function PayloadSource(httpMethod: string, query: map<string, Value>, form: map<string, Value>): map<string, Value> {
    if httpMethod == "DELETE" || httpMethod == "POST" then form else query
  }

  /**
   * The payload of the effective method: DELETE and POST take the sanitised
   * form parameters, GET and PUT the sanitised query parameters, and PUT also
   * keeps the raw body; in every case the `request` key is gone. Any other
   * method is not allowed.
   */
  function SelectPayload(httpMethod: string, query: map<string, Value>, form: map<string, Value>, body: string): (p: Payload)
    ensures p.NotAllowed? <==> httpMethod != "DELETE" && httpMethod != "POST" && httpMethod != "GET" && httpMethod != "PUT"
    ensures p.Accepted? ==> "request" !in p.request
    ensures p.Accepted? ==> (p.file.Some? <==> httpMethod == "PUT") && (p.file.Some? ==> p.file.value == body)
  {
    if httpMethod == "DELETE" || httpMethod == "POST" then Accepted(SanitizeEntries(form) - {"request"}, None)
    else if httpMethod == "GET" then Accepted(SanitizeEntries(query) - {"request"}, None)
    else if httpMethod == "PUT" then Accepted(SanitizeEntries(query) - {"request"}, Some(body))
    else NotAllowed
  }

  /**
   * An accepted payload holds every parameter of the method's source except
   * `request`, each one sanitised.
   */
  lemma AcceptedPayloadSanitisesSource(httpMethod: string, query: map<string, Value>, form: map<string, Value>, body: string)
    requires SelectPayload(httpMethod, query, form, body).Accepted?
    ensures var p := SelectPayload(httpMethod, query, form, body).request;
      var source := PayloadSource(httpMethod, query, form);
      p.Keys == source.Keys - {"request"} &&
      forall k :: k in p ==> p[k] == Sanitize(source[k])
  {
  }
}
