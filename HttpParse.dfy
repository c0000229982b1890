/** The request shapes of http_parse.h that websock.h reads, and a header
    lookup standing in for get_args.

    The parser itself and get_args are not part of this model; only the
    shape of a parsed request is. A header's args are the text after the
    colon. C strings are modelled by their characters before the NUL. */
module HttpParse {

  datatype Option<T> = None | Some(value: T)

  datatype HttpReqType = Get | Post | Head

  /** One header line: its name and its argument text. */
  datatype HttpHdr = HttpHdr(name: string, args: string)

  /** At most this many headers are kept per request. */
  const HttpMaxHdrs: nat := 32

  /** The header array of the C struct has HttpMaxHdrs slots. */
  type HttpHdrs = s: seq<HttpHdr> | |s| <= HttpMaxHdrs

  datatype HttpReq = HttpReq(
    reqType: HttpReqType,
    path: string,
    hdrs: HttpHdrs,
    payloadLen: int,
    payload: string)

  /** The header named name comes first among those so named, with args v. */
  predicate FirstArgsAre(hdrs: seq<HttpHdr>, name: string, v: string)
  {
    exists i :: 0 <= i < |hdrs| && hdrs[i] == HttpHdr(name, v) &&
      forall j :: 0 <= j < i ==> hdrs[j].name != name
  }

  /** The args of the first header whose name is exactly name, or None. */
  function LookupArgs(hdrs: seq<HttpHdr>, name: string): (r: Option<string>)
    ensures r.None? <==> forall i :: 0 <= i < |hdrs| ==> hdrs[i].name != name
  {
    if |hdrs| == 0 then None
    else if hdrs[0].name == name then Some(hdrs[0].args)
    else LookupArgs(hdrs[1..], name)
  }

  /** get_args(req, name): the stand-in looks the name up exactly,
      case-sensitively, and takes the first match. */
  function GetArgs(req: HttpReq, name: string): (r: Option<string>)
    ensures r.None? <==> forall i :: 0 <= i < |req.hdrs| ==> req.hdrs[i].name != name
    ensures r.Some? ==> FirstArgsAre(req.hdrs, name, r.value)
  {
    var r := LookupArgs(req.hdrs, name);
    if r.Some? then LookupArgsFirst(req.hdrs, name, r.value); r else r
  }

  /** LookupArgs finds exactly the first header so named. */
  lemma {:induction false} LookupArgsFirst(hdrs: seq<HttpHdr>, name: string, v: string)
    ensures LookupArgs(hdrs, name) == Some(v) <==> FirstArgsAre(hdrs, name, v)
    decreases |hdrs|
  {
    if |hdrs| > 0 {
      if hdrs[0].name == name {
        if FirstArgsAre(hdrs, name, v) {
          var i :| 0 <= i < |hdrs| && hdrs[i] == HttpHdr(name, v) &&
            forall j :: 0 <= j < i ==> hdrs[j].name != name;
          assert i == 0;
        }
        if LookupArgs(hdrs, name) == Some(v) {
          assert hdrs[0] == HttpHdr(name, v);
        }
      } else {
        LookupArgsFirst(hdrs[1..], name, v);
        if FirstArgsAre(hdrs[1..], name, v) {
          var i :| 0 <= i < |hdrs[1..]| && hdrs[1..][i] == HttpHdr(name, v) &&
            forall j :: 0 <= j < i ==> hdrs[1..][j].name != name;
          assert hdrs[i + 1] == HttpHdr(name, v);
          forall j | 0 <= j < i + 1
            ensures hdrs[j].name != name
          {
            if j > 0 {
              assert hdrs[j] == hdrs[1..][j - 1];
            }
          }
        }
        if FirstArgsAre(hdrs, name, v) {
          var i :| 0 <= i < |hdrs| && hdrs[i] == HttpHdr(name, v) &&
            forall j :: 0 <= j < i ==> hdrs[j].name != name;
          assert i > 0 && hdrs[1..][i - 1] == HttpHdr(name, v);
          forall j | 0 <= j < i - 1
            ensures hdrs[1..][j].name != name
          {
            assert hdrs[1..][j] == hdrs[j + 1];
          }
        }
      }
    }
  }
}
