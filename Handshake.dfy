/** The opening handshake of websock.h: is_websock_request and
    websock_handshake_response, which answers a client's upgrade request
    with the Sec-WebSocket-Accept value of section 4.2.2 of RFC 6455.

    SHA-1 is a foreign call and is a parameter here: any function from the
    hashed text to a 20-byte digest. sprintf is modelled by what it leaves
    in the buffer: the formatted text followed by a NUL. */
module Handshake {
  import opened MmErrors
  import opened HttpParse
  import opened Base64

  const MaxProtocolLen: nat := 32
  const ShaDigestLength: nat := 20

  const UpgradeHdr: string :=
    "HTTP/1.1 101 Switching Protocols\r\n" + "Upgrade: websocket\r\n" +
    "Connection: Upgrade\r\n" + "Sec-WebSocket-Accept: "
  const MagicString: string := "258EAFA5-E914-47DA-95CA-C5AB0DC85B11"
  const SecAcceptLen: nat := 4 * ((ShaDigestLength + 2) / 3)
  const SubprotocolHdr: string := "Sec-WebSocket-Protocol: "
  const Crlf: string := "\r\n"

  /** The size of the static response buffer: the header text, the accept
      key, its CRLF, the protocol header with the longest protocol, and four
      more characters for the two CRLFs that end the response. */
  const HandshakeResponseSize: nat :=
    |UpgradeHdr| + SecAcceptLen + 2 + |SubprotocolHdr| + MaxProtocolLen + 4

  /** The buffer size the response needs once sprintf's NUL is counted. */
  const HandshakeBufferSize: nat := HandshakeResponseSize + 1

  /** A SHA-1 digest. */
  type Digest = s: seq<byte> | |s| == ShaDigestLength witness Rfc6455SampleDigest

  // ---------------------------------------------------------------------
  // is_websock_request
  // ---------------------------------------------------------------------

  /** is_websock_request(req, err): Connection is exactly "Upgrade", Upgrade
      is exactly "websocket" and a Sec-WebSocket-Key header is present.
      Nothing is looked at once err holds a failure. */
  function IsWebsockRequest(req: HttpReq, err: MmErr): (r: bool)
    ensures r ==> err == MmSuccess
  {
    if err.Failed() then false
    else
      match GetArgs(req, "Connection")
      case None => false
      case Some(cxn) =>
        if cxn != "Upgrade" then false
        else
          match GetArgs(req, "Upgrade")
          case None => false
          case Some(upgrade) =>
            if upgrade != "websocket" then false
            else GetArgs(req, "Sec-WebSocket-Key").Some?
  }

  /** In terms of the header list: the first Connection header says
      "Upgrade", the first Upgrade header says "websocket" and some header is
      named Sec-WebSocket-Key. */
  lemma IsWebsockRequestHeaders(req: HttpReq)
    ensures IsWebsockRequest(req, MmSuccess) <==>
              && FirstArgsAre(req.hdrs, "Connection", "Upgrade")
              && FirstArgsAre(req.hdrs, "Upgrade", "websocket")
              && exists i :: 0 <= i < |req.hdrs| && req.hdrs[i].name == "Sec-WebSocket-Key"
  {
    LookupArgsFirst(req.hdrs, "Connection", "Upgrade");
    LookupArgsFirst(req.hdrs, "Upgrade", "websocket");
  }

  // ---------------------------------------------------------------------
  // The accept key
  // ---------------------------------------------------------------------

  /** The key up to its first comma: strcspn(key, ","). */
  function KeyToken(key: string): (t: string)
    ensures |t| <= |key| && t == key[..|t|]
    ensures ',' !in t
    ensures |t| < |key| ==> key[|t|] == ','
  {
    if |key| == 0 || key[0] == ',' then [] else [key[0]] + KeyToken(key[1..])
  }

  /** A key without a comma is taken whole. */
  lemma KeyTokenWhole(key: string)
    requires ',' !in key
    ensures KeyToken(key) == key
  {
  }

  /** Of a key list, the text before the first comma is taken. */
  lemma KeyTokenFirst(key: string, rest: string)
    requires ',' !in key
    ensures KeyToken(key + "," + rest) == key
  {
    var s := key + "," + rest;
    var t := KeyToken(s);
    assert s[|key|] == ',';
    assert key == s[..|key|];
  }

  /** The Sec-WebSocket-Accept value for a key: the base64 text of the SHA-1
      digest of the key's first token followed by the magic string. */
  function AcceptKey(sha1: string -> Digest, key: string): (r: string)
    ensures |r| == SecAcceptLen
  {
    B64(sha1(KeyToken(key) + MagicString))
  }

  /** The key of the sample handshake in section 1.3 of RFC 6455. */
  const Rfc6455SampleKey: string := "dGhlIHNhbXBsZSBub25jZQ=="

  /** Given the SHA-1 digest that section 1.3 of RFC 6455 states for the
      sample key, the accept key is the one the RFC gives. */
  lemma AcceptKeyRfc6455Sample(sha1: string -> Digest)
    requires sha1(Rfc6455SampleKey + MagicString) == Rfc6455SampleDigest
    ensures AcceptKey(sha1, Rfc6455SampleKey) == Rfc6455SampleAccept
  {
    KeyTokenWhole(Rfc6455SampleKey);
    B64Rfc6455Sample();
  }

  /** The accept key gives the digest back. */
  lemma AcceptKeyDecodes(sha1: string -> Digest, key: string)
    ensures B64Decode(AcceptKey(sha1, key)) == sha1(KeyToken(key) + MagicString)
  {
    B64RoundTrip(sha1(KeyToken(key) + MagicString));
  }

  // ---------------------------------------------------------------------
  // The response
  // ---------------------------------------------------------------------

  /** The optional Sec-WebSocket-Protocol line. */
  function ProtocolLine(prot: Option<string>): (r: string)
    ensures r == [] <==> prot.None?
    ensures prot.Some? ==> |r| == |SubprotocolHdr| + |prot.value| + 2 && r[|r| - 2..] == Crlf
  {
    if prot.Some? then SubprotocolHdr + prot.value + Crlf else ""
  }

  /** The response text: status line and upgrade headers, the accept key, an
      optional protocol line, and the empty line that ends the headers. */
  function ResponseText(accept: string, prot: Option<string>): (r: string)
    ensures |r| == |UpgradeHdr| + |accept| + |ProtocolLine(prot)| + 4
  {
    UpgradeHdr + accept + Crlf + ProtocolLine(prot) + Crlf
  }

  /** The result of websock_handshake_response: the response text, or None
      and the error it reports. */
  function HandshakeResponse(req: Option<HttpReq>, prot: Option<string>, err: MmErr,
                             sha1: string -> Digest): (r: (Option<string>, MmErr))
    ensures r.0.Some? <==> r.1 == MmSuccess
    ensures err.Failed() ==> r == (None, err)
  {
    if err.Failed() then (None, err)
    else if req.None? then (None, WebsockNullArg)
    else if !IsWebsockRequest(req.value, err) then (None, WebsockNotWebsocket)
    else if prot.Some? && |prot.value| > MaxProtocolLen then (None, WebsockProtTooLong)
    else
      var key := GetArgs(req.value, "Sec-WebSocket-Key").value;
      (Some(ResponseText(AcceptKey(sha1, key), prot)), err)
  }

  /** The response text starts with the upgrade headers, carries the
      accept value right after them, and ends with an empty line. */
  lemma ResponseTextShape(accept: string, prot: Option<string>)
    ensures var t := ResponseText(accept, prot);
            && |UpgradeHdr| + |accept| + 4 <= |t|
            && t[..|UpgradeHdr|] == UpgradeHdr
            && t[|UpgradeHdr|..|UpgradeHdr| + |accept|] == accept
            && t[|t| - 4..] == Crlf + Crlf
  {
    Framed(UpgradeHdr, accept, ProtocolLine(prot));
  }

  /** The shape of h + a + CRLF + line + CRLF, for a line that is empty or
      ends in its own CRLF. */
  lemma Framed(h: string, a: string, line: string)
    requires line == [] || (|line| >= 2 && line[|line| - 2..] == Crlf)
    ensures var t := h + a + Crlf + line + Crlf;
            && |h| + |a| + 4 <= |t|
            && t[..|h|] == h
            && t[|h|..|h| + |a|] == a
            && t[|t| - 4..] == Crlf + Crlf
  {
    var head := h + a;
    var t := head + Crlf + line + Crlf;
    assert t[..|head|] == head;
    assert t[..|h|] == head[..|h|];
    assert t[|h|..|head|] == head[|h|..];
    if line == [] {
      assert t == head + (Crlf + Crlf);
    } else {
      assert t[|t| - 4..] == line[|line| - 2..] + Crlf;
    }
  }

  /** A response is produced exactly for an upgrade request whose protocol,
      if any, has at most MaxProtocolLen characters; it starts with the
      upgrade headers, carries the accept key of the request's key, and ends
      with an empty line. */
  lemma HandshakeResponseCases(req: HttpReq, prot: Option<string>, sha1: string -> Digest)
    ensures var r := HandshakeResponse(Some(req), prot, MmSuccess, sha1);
            r.0.Some? <==> IsWebsockRequest(req, MmSuccess) && (prot.None? || |prot.value| <= MaxProtocolLen)
    ensures var r := HandshakeResponse(Some(req), prot, MmSuccess, sha1);
            r.0.Some? ==>
              var t := r.0.value;
              var key := GetArgs(req, "Sec-WebSocket-Key").value;
              && |UpgradeHdr| + SecAcceptLen + 4 <= |t|
              && t[..|UpgradeHdr|] == UpgradeHdr
              && t[|UpgradeHdr|..|UpgradeHdr| + SecAcceptLen] == AcceptKey(sha1, key)
              && t[|t| - 4..] == Crlf + Crlf
  {
    var r := HandshakeResponse(Some(req), prot, MmSuccess, sha1);
    if r.0.Some? {
      var key := GetArgs(req, "Sec-WebSocket-Key").value;
      ResponseTextShape(AcceptKey(sha1, key), prot);
    }
  }

  /** The response text, without its NUL, fits the static buffer of
      HandshakeResponseSize characters, and with its NUL fits a buffer of
      HandshakeBufferSize characters. */
  lemma ResponseFits(accept: string, prot: Option<string>)
    requires |accept| == SecAcceptLen
    requires prot.Some? ==> |prot.value| <= MaxProtocolLen
    ensures |ResponseText(accept, prot)| <= HandshakeResponseSize
    ensures |ResponseText(accept, prot)| + 1 <= HandshakeBufferSize
  {
  }

  /** As written, sprintf's NUL after the response does not fit the static
      buffer when the protocol has MaxProtocolLen characters. */
  lemma ResponseNulOverflows(accept: string, prot: string)
    requires |accept| == SecAcceptLen && |prot| == MaxProtocolLen
    ensures |ResponseText(accept, Some(prot))| == HandshakeResponseSize
    ensures |ResponseText(accept, Some(prot))| + 1 > HandshakeResponseSize
  {
  }

  // ---------------------------------------------------------------------
  // Filling the buffer
  // ---------------------------------------------------------------------

  /** The characters of a C string: those before the first NUL. */
  function CStr(s: seq<char>): (r: seq<char>)
    ensures |r| <= |s| && r == s[..|r|] && Nul !in r
    ensures |r| < |s| ==> s[|r|] == Nul
  {
    if |s| == 0 || s[0] == Nul then [] else [s[0]] + CStr(s[1..])
  }

  /** A text without NUL, followed by a NUL, reads back as that text. */
  lemma {:induction false} CStrOfTerminated(t: seq<char>, rest: seq<char>)
    requires Nul !in t
    ensures CStr(t + [Nul] + rest) == t
    decreases |t|
  {
    if |t| == 0 {
      assert (t + [Nul] + rest)[0] == Nul;
    } else {
      assert (t + [Nul] + rest)[1..] == t[1..] + [Nul] + rest;
      CStrOfTerminated(t[1..], rest);
      assert t == [t[0]] + t[1..];
    }
  }

  /** sprintf(buf + pos, "%s", s, ...) and pos += incr: s and a NUL are
      written at pos, and the position moves past s. */
  method Emit(buf: array<char>, pos: nat, s: string) returns (pos': nat)
    requires pos + |s| < buf.Length
    modifies buf
    ensures pos' == pos + |s|
    ensures buf[..pos' + 1] == old(buf[..pos]) + s + [Nul]
    ensures buf[pos' + 1..] == old(buf[pos' + 1..])
  {
    forall i | pos <= i < pos + |s| {
      buf[i] := s[i - pos];
    }
    buf[pos + |s|] := Nul;
    pos' := pos + |s|;
  }

  /** to_b64 of the digest into result_b64, read back as a C string. */
  method EncodeAccept(result: Digest) returns (accept: string)
    ensures accept == B64(result)
  {
    var resultB64 := new char[SecAcceptLen + 1];
    ToB64(resultB64, result, ShaDigestLength);
    assert result[..ShaDigestLength] == result;
    B64NoNul(result);
    CStrOfTerminated(B64(result), []);
    assert resultB64[..] == B64(result) + [Nul] + [];
    accept := CStr(resultB64[..]);
  }

  /** The three sprintf calls of a successful handshake, for any text: head,
      then line when there is one, then a CRLF, and a NUL after them. */
  method WriteLines(buf: array<char>, head: string, line: Option<string>)
    requires |head| + (if line.Some? then |line.value| else 0) + |Crlf| < buf.Length
    modifies buf
    ensures var t := head + (if line.Some? then line.value else "") + Crlf;
            && buf[..|t| + 1] == t + [Nul]
            && buf[|t| + 1..] == old(buf[|t| + 1..])
  {
    ghost var body := if line.Some? then line.value else "";
    ghost var end := |head| + |body| + |Crlf| + 1;
    var pos := Emit(buf, 0, head);
    assert buf[end..] == old(buf[end..]) by {
      assert buf[end..] == buf[pos + 1..][end - pos - 1..];
      assert old(buf[end..]) == old(buf[pos + 1..])[end - pos - 1..];
    }
    assert buf[..pos] == head by {
      assert buf[..pos] == buf[..pos + 1][..pos];
    }
    if line.Some? {
      ghost var b1 := buf[..];
      pos := Emit(buf, pos, line.value);
      assert buf[end..] == b1[end..] by {
        assert buf[end..] == buf[pos + 1..][end - pos - 1..];
        assert b1[end..] == b1[pos + 1..][end - pos - 1..];
      }
    }
    assert buf[..pos] == head + body by {
      assert buf[..pos] == buf[..pos + 1][..pos];
    }
    pos := Emit(buf, pos, Crlf);
  }

  /** The response text for accept and prot, then a NUL. */
  method WriteResponse(buf: array<char>, accept: string, prot: Option<string>)
    requires buf.Length == HandshakeBufferSize
    requires |accept| == SecAcceptLen
    requires prot.Some? ==> |prot.value| <= MaxProtocolLen
    modifies buf
    ensures var t := ResponseText(accept, prot);
            && |t| < buf.Length && buf[..|t| + 1] == t + [Nul]
            && buf[|t| + 1..] == old(buf[|t| + 1..])
  {
    ResponseFits(accept, prot);
    var line := if prot.Some? then Some(SubprotocolHdr + prot.value + Crlf) else None;
    assert ProtocolLine(prot) == if line.Some? then line.value else "";
    WriteLines(buf, UpgradeHdr + accept + Crlf, line);
  }

  /** websock_handshake_response(req, prot, err), writing into buf, the
      buffer the source keeps in a static variable. ok says whether buf is
      returned, and on success buf holds the response as a C string. The
      buffer has HandshakeBufferSize characters, one more than the source
      declares, so that the NUL always fits. */
  method WebsockHandshakeResponse(buf: array<char>, req: Option<HttpReq>, prot: Option<string>,
                                  err: MmErr, sha1: string -> Digest)
    returns (ok: bool, err': MmErr)
    requires buf.Length == HandshakeBufferSize
    modifies buf
    ensures ok == HandshakeResponse(req, prot, err, sha1).0.Some?
    ensures err' == HandshakeResponse(req, prot, err, sha1).1
    ensures ok ==> var t := HandshakeResponse(req, prot, err, sha1).0.value;
                   && |t| < buf.Length && buf[..|t| + 1] == t + [Nul]
                   && buf[|t| + 1..] == old(buf[|t| + 1..])
    ensures !ok ==> buf[..] == old(buf[..])
  {
    if err.Failed() {
      return false, err;
    }
    if req.None? {
      return false, WebsockNullArg;
    }
    if !IsWebsockRequest(req.value, err) {
      return false, WebsockNotWebsocket;
    }
    if prot.Some? && |prot.value| > MaxProtocolLen {
      return false, WebsockProtTooLong;
    }

    var key := GetArgs(req.value, "Sec-WebSocket-Key").value;
    AnswerUpgrade(buf, key, prot, sha1);
    ok, err' := true, err;
  }

  /** The successful path of websock_handshake_response: hash the key token
      and the magic GUID, encode the digest, and write the response. */
  method AnswerUpgrade(buf: array<char>, key: string, prot: Option<string>, sha1: string -> Digest)
    requires buf.Length == HandshakeBufferSize
    requires prot.Some? ==> |prot.value| <= MaxProtocolLen
    modifies buf
    ensures var t := ResponseText(AcceptKey(sha1, key), prot);
            && |t| < buf.Length && buf[..|t| + 1] == t + [Nul]
            && buf[|t| + 1..] == old(buf[|t| + 1..])
  {
    var hashMe := KeyToken(key) + MagicString;
    var result := sha1(hashMe);
    var accept := EncodeAccept(result);
    WriteResponse(buf, accept, prot);
  }
}
