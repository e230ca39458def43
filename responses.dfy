/** The Rack response triples of `Brochure::Application`: `respond_with`,
    `success`, `not_found` and `forbidden`. */
module Responses {
  import opened RubyString

  /** `[status, headers, [body]]`. */
  datatype Response = Response(status: int, headers: map<string, string>, body: seq<string>)

  /** The default content type of `respond_with`, comma included. */
  const HtmlContentType: string := "text/html, charset=utf-8"

  /** The heredoc body of `not_found`; `<<-` keeps each line's indentation. */
  const NotFoundHeading: string := "404 Not Found"
  const NotFoundBody: string :=
    "        <!DOCTYPE html>\n"
    + "        <html><head><title>Not Found</title></head>\n"
    + "        <body><h1>" + NotFoundHeading + "</h1></body></html>\n"

  /** `t` occurs in `s` at position `i`. */
  predicate OccursAt(s: string, t: string, i: int)
  {
    0 <= i <= |s| - |t| && s[i..i + |t|] == t
  }

  lemma OccursInMiddle(a: string, t: string, b: string)
    ensures OccursAt(a + t + b, t, |a|)
  {
    var s := a + t + b;
    assert forall k :: 0 <= k < |t| ==> s[|a| + k] == t[k];
    assert s[|a|..|a| + |t|] == t;
  }

  /** `respond_with(status, body, content_type)`: the status as given, exactly
      the two headers `Content-Type` and `Content-Length`, the latter the
      decimal character count of the body, and the body as a one-element list. */
  function RespondWith(status: int, body: string, contentType: string): (r: Response)
    ensures r.status == status && r.body == [body]
    ensures r.headers.Keys == {"Content-Type", "Content-Length"}
    ensures r.headers["Content-Type"] == contentType
    ensures AllDigits(r.headers["Content-Length"]) && ParseDecimal(r.headers["Content-Length"]) == |body|
  {
    ParseDecimalString(|body|);
    Response(status, map["Content-Type" := contentType, "Content-Length" := DecimalString(|body|)], [body])
  }

  /** `success(body)`: 200 with the rendered body as HTML. */
  function Success(body: string): (r: Response)
    ensures r.status == 200 && r.body == [body]
    ensures "Content-Type" in r.headers && r.headers["Content-Type"] == HtmlContentType
  {
    RespondWith(200, body, HtmlContentType)
  }

  /** `not_found`: 404 with a small HTML page whose heading reads
      "404 Not Found". */
  function NotFound(): (r: Response)
    ensures r.status == 404 && |r.body| == 1
    ensures exists i :: OccursAt(r.body[0], NotFoundHeading, i)
  {
    var front := "        <!DOCTYPE html>\n" + "        <html><head><title>Not Found</title></head>\n" + "        <body><h1>";
    assert NotFoundBody == front + NotFoundHeading + "</h1></body></html>\n";
    OccursInMiddle(front, NotFoundHeading, "</h1></body></html>\n");
    var r := RespondWith(404, NotFoundBody, HtmlContentType);
    assert r.body[0] == front + NotFoundHeading + "</h1></body></html>\n";
    assert OccursAt(r.body[0], NotFoundHeading, |front|);
    r
  }

  /** `forbidden`: 403 with the body "Forbidden". */
  function Forbidden(): (r: Response)
    ensures r.status == 403 && r.body == ["Forbidden"]
    ensures "Content-Length" in r.headers && r.headers["Content-Length"] == "9"
  {
    RespondWith(403, "Forbidden", HtmlContentType)
  }

  /** Every response this application builds is well formed: its length
      header is the decimal character count of its single body part. */
  predicate WellFormed(r: Response)
  {
    && |r.body| == 1
    && r.headers.Keys == {"Content-Type", "Content-Length"}
    && AllDigits(r.headers["Content-Length"])
    && ParseDecimal(r.headers["Content-Length"]) == |r.body[0]|
  }

  lemma ResponsesWellFormed(body: string)
    ensures WellFormed(Success(body)) && WellFormed(NotFound()) && WellFormed(Forbidden())
    ensures "Content-Length" in Success(body).headers
    ensures Success(body).headers["Content-Length"] == DecimalString(|body|)
  {
  }
}
