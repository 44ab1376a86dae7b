/**
 * The reason phrases of `_requestStatus` (API.php:149-194): the status codes
 * of RFC 2616 section 6.1.1 with their phrases, plus 306 "(Unused)" from
 * section 10.3.7, and the HTTP status line `_response` sends (API.php:123).
 */
module StatusCatalog {
  import Php
  import opened Wrappers

  /** The phrases of the 1xx codes, from 100 up. */
  const Informational: seq<string> := ["Continue", "Switching Protocols"]

  /** The phrases of the 2xx codes, from 200 up. */
  const Successful: seq<string> := [
    "OK", "Created", "Accepted", "Non-Authoritative Information", "No Content",
    "Reset Content", "Partial Content"
  ]

  /** The phrases of the 3xx codes, from 300 up. */
  const Redirection: seq<string> := [
    "Multiple Choices", "Moved Permanently", "Found", "See Other", "Not Modified",
    "Use Proxy", "(Unused)", "Temporary Redirect"
  ]

  /** The phrases of the 4xx codes, from 400 up. */
  const ClientError: seq<string> := [
    "Bad Request", "Unauthorized", "Payment Required", "Forbidden", "Not Found",
    "Method Not Allowed", "Not Acceptable", "Proxy Authentication Required",
    "Request Timeout", "Conflict", "Gone", "Length Required", "Precondition Failed",
    "Request Entity Too Large", "Request-URI Too Long", "Unsupported Media Type",
    "Requested Range Not Satisfiable", "Expectation Failed"
  ]

  /** The phrases of the 5xx codes, from 500 up. */
  const ServerError: seq<string> := [
    "Internal Server Error", "Not Implemented", "Bad Gateway", "Service Unavailable",
    "Gateway Timeout", "HTTP Version Not Supported"
  ]

  /** The phrase at `code - base` of a class whose codes start at `base`, if there is one. */
  function ClassEntry(phrases: seq<string>, base: int, code: int): Option<string> {
    if base <= code < base + |phrases| then Some(phrases[code - base]) else None
  }

  /**
   * The `$status` array of `_requestStatus`: `Some(phrase)` for the 41 codes it
   * lists, `None` (PHP's undefined index) for every other code.
   */
  function StatusTable(code: int): (r: Option<string>)
    ensures r.Some? ==> 100 <= code <= 505 && r.value != []
  {
    if code < 200 then ClassEntry(Informational, 100, code)
    else if code < 300 then ClassEntry(Successful, 200, code)
    else if code < 400 then ClassEntry(Redirection, 300, code)
    else if code < 500 then ClassEntry(ClientError, 400, code)
    else ClassEntry(ServerError, 500, code)
  }

  /** The codes RFC 2616 section 6.1.1 lists, class by class. */
  predicate IsListedCode(code: int) {
    code == 100 || code == 101 ||
    200 <= code <= 206 ||
    300 <= code <= 307 ||
    400 <= code <= 417 ||
    500 <= code <= 505
  }

  /** The phrase `_requestStatus` gives for the 500 fallback. */
  const InternalServerError: string := "Internal Server Error"

  /**
   * `_requestStatus(code)`: the listed code's phrase when the table has a
   * (truthy) entry for it, otherwise the phrase of 500. Never empty.
   */
  function RequestStatus(code: int): (r: string)
    ensures r != []
    ensures IsListedCode(code) ==> StatusTable(code) == Some(r)
    ensures !IsListedCode(code) ==> r == InternalServerError
  {
    TableHoldsListedCodes(code);
    var entry := StatusTable(code);
    if entry.Some? && Php.Truthy(entry.value) then entry.value else StatusTable(500).value
  }

  /** The table has an entry exactly for the listed codes, and every entry is a non-empty phrase. */
  lemma TableHoldsListedCodes(code: int)
    ensures StatusTable(code).Some? <==> IsListedCode(code)
    ensures StatusTable(code).Some? ==> Php.Truthy(StatusTable(code).value)
  {
    assert forall i :: 0 <= i < |Informational| ==> Php.Truthy(Informational[i]);
    assert forall i :: 0 <= i < |Successful| ==> Php.Truthy(Successful[i]);
    assert forall i :: 0 <= i < |Redirection| ==> Php.Truthy(Redirection[i]);
    assert forall i :: 0 <= i < |ClientError| ==> Php.Truthy(ClientError[i]);
    assert forall i :: 0 <= i < |ServerError| ==> Php.Truthy(ServerError[i]);
  }

  /**
   * "Internal Server Error" comes back for 500 and for every unlisted code,
   * and for no other: each other listed code has a phrase of its own.
   */
  lemma InternalServerErrorExactly(code: int)
    ensures RequestStatus(code) == InternalServerError <==> (code == 500 || !IsListedCode(code))
  {
  }

  /** A few lookups: 403, 404, 405, 306, and 0 (unlisted). */
  lemma RequestStatusExamples()
    ensures RequestStatus(403) == "Forbidden"
    ensures RequestStatus(404) == "Not Found"
    ensures RequestStatus(405) == "Method Not Allowed"
    ensures RequestStatus(306) == "(Unused)"
    ensures RequestStatus(0) == "Internal Server Error"
  {
  }

  /**
   * The status line `_response` sends: `protocol`, the code in decimal and its
   * phrase, separated by single spaces.
   */
  function StatusLine(protocol: string, status: int): (r: string)
    ensures |r| > |protocol| + 1 && r[..|protocol| + 1] == protocol + " "
    ensures var phrase := RequestStatus(status);
      |r| > |phrase| && r[|r| - |phrase|..] == phrase && r[|r| - |phrase| - 1] == ' '
  {
    var digits, phrase := Php.IntToString(status), RequestStatus(status);
    var line := protocol + " " + digits + " " + phrase;
    assert line[..|protocol| + 1] == protocol + " ";
    line
  }

  /** Between the space after the protocol and the space before the phrase, the status line spells the code in decimal. */
  lemma StatusLineSpellsCode(protocol: string, status: int)
    ensures var r, phrase := StatusLine(protocol, status), RequestStatus(status);
      |protocol| + 1 <= |r| - |phrase| - 1 && r[|protocol| + 1..|r| - |phrase| - 1] == Php.IntToString(status)
  {
    var digits, phrase := Php.IntToString(status), RequestStatus(status);
    var r := StatusLine(protocol, status);
    assert r == protocol + " " + digits + " " + phrase;
    assert r[|protocol| + 1..|r| - |phrase| - 1] == digits;
  }
}
