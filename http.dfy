/** The response record every command handler inspects (http_requests.h). */
module Http {

  /** A framed reply: the parsed status code, the raw head, the extracted
      body and everything that was received. */
  datatype HttpResponse = HttpResponse(statusCode: int, headers: string, body: string, fullResponse: string)
  {
    /** A reply counts as a failure unless its status is 2xx. */
    predicate IsError() {
      statusCode < 200 || statusCode >= 300
    }
  }

  /** A response as it is before anything is filled in: its status code is 0. */
  function DefaultResponse(): (r: HttpResponse)
    ensures r.statusCode == 0 && r.headers == "" && r.body == "" && r.fullResponse == ""
    ensures r.IsError()
  {
    HttpResponse(0, "", "", "")
  }

  /** The only successes are the 2xx codes: 1xx, 3xx (a redirect such as 301),
      4xx, 5xx and the unparsed 0 are all errors. */
  lemma IsErrorExactly(r: HttpResponse)
    ensures !r.IsError() <==> 200 <= r.statusCode < 300
    ensures r.statusCode == 0 ==> r.IsError()
    ensures 100 <= r.statusCode < 200 ==> r.IsError()
    ensures 300 <= r.statusCode < 400 ==> r.IsError()
  {
  }
}
