/** The controller's response protocol: `result` builds the envelope
    `{code, msg, time, data}`, picks the HTTP status and then always throws
    to stop the request. Here the throw is the `Halt` case of `Flow`, which
    every caller returns instead of carrying on. */
module ResponseEnvelope {
  import opened Wrappers

  /** A header value as PHP holds it; `Null` is a header set to `null`,
      which `isset` treats as absent. */
  datatype HeaderValue = Null | Int(n: int) | Text(s: string)

  type Headers = map<string, HeaderValue>

  /** The JSON body: `code`, `msg`, `time` (the request time) and `data`. */
  datatype Body = Body(code: int, msg: string, time: int, data: Option<string>)

  /** A response ready to emit: body, HTTP status, headers to send. */
  datatype Response = Response(body: Body, status: HeaderValue, headers: Headers)

  /** Control after a step: carry on, or stop and emit this response. */
  datatype Flow = Continue | Halt(response: Response)

  /** `isset($header[key])`. */
  predicate IsSet(header: Headers, key: string) {
    key in header && header[key] != Null
  }

  /** The HTTP status derived from an envelope code when no `statuscode`
      header is given: codes in [200, 1000) pass through, others become 200. */
  function StatusFor(code: int): (status: int)
    ensures 200 <= status < 1000
    ensures status == code <==> 200 <= code < 1000
    ensures !(200 <= code < 1000) ==> status == 200
  {
    if code >= 1000 || code < 200 then 200 else code
  }

  /** `result`: the envelope always carries the caller's `code`; the status
      is the `statuscode` header when set (and that header is then not
      sent), else the status derived from `code`. */
  function Result(requestTime: int, msg: string, data: Option<string>, code: int, header: Headers): (r: Response)
    ensures r.body == Body(code, msg, requestTime, data)
    ensures IsSet(header, "statuscode") ==>
              r.status == header["statuscode"] && r.headers == header - {"statuscode"}
    ensures !IsSet(header, "statuscode") ==>
              r.status == Int(StatusFor(code)) && r.headers == header
    ensures r.status != Null
    ensures !IsSet(r.headers, "statuscode")
  {
    if IsSet(header, "statuscode") then
      Response(Body(code, msg, requestTime, data), header["statuscode"], header - {"statuscode"})
    else
      Response(Body(code, msg, requestTime, data), Int(StatusFor(code)), header)
  }

  /** `success`: `result` with default code 1. */
  function Success(requestTime: int, msg: string := "", data: Option<string> := None, code: int := 1,
                   header: Headers := map[]): (r: Response)
    ensures r == Result(requestTime, msg, data, code, header)
  {
    Result(requestTime, msg, data, code, header)
  }

  /** `error`: `result` with default code 0. */
  function Error(requestTime: int, msg: string := "", data: Option<string> := None, code: int := 0,
                 header: Headers := map[]): (r: Response)
    ensures r == Result(requestTime, msg, data, code, header)
  {
    Result(requestTime, msg, data, code, header)
  }

  /** With the default codes (1 for success, 0 for error) the HTTP status is 200. */
  lemma DefaultCodesAnswer200(requestTime: int, msg: string)
    ensures Success(requestTime, msg).status == Int(200) && Success(requestTime, msg).body.code == 1
    ensures Error(requestTime, msg).status == Int(200) && Error(requestTime, msg).body.code == 0
  {
  }

  /** The guard's rejection codes are all in [200, 1000), so with no
      `statuscode` header each is also the HTTP status. */
  lemma RejectionCodesAreHttpStatuses(requestTime: int, msg: string, code: int)
    requires code in {401, 403, 503, 504, 505, 555}
    ensures Error(requestTime, msg, None, code).status == Int(code)
  {
  }
}
