# websock.h in Dafny

A model of the WebSocket half of c-http-ws, the single-header library
`websock.h`. It covers three parts:

- **Base64 encoding.** `to_b64` is modelled as an array-filling method proved equal to a reference encoder `B64`. That encoder has its standard properties proved: length, alphabet, padding, the round trip through a decoder, and the sample of section 1.3 of RFC 6455.
- **The opening handshake.** `is_websock_request` is modelled. So is `websock_handshake_response`, which builds the `101 Switching Protocols` answer with the `Sec-WebSocket-Accept` value of section 4.2.2 of RFC 6455.
- **The frame-parser state.** The `websock_pkt` structure is a class. `new_websock_pkt`, `reset_websock_pkt`, `expand_pkt_mem_to` and the unfinished `write_to_websock_parser` are its operations.

**The error channel.** Every C function takes `mm_err *err`. In the model, each operation takes the caller's error value and returns the new one. Every contract states that an operation entered with a failure does nothing and hands that failure back.

**Modules:**

- `MmErrors` (Errors.dfy): the error codes.
- `HttpParse` (HttpParse.dfy): the shape of a parsed request from http_parse.h, plus a header lookup.
- `Base64` (Base64.dfy).
- `Handshake` (Handshake.dfy).
- `Websock` (Websock.dfy): packet types, the `websock_pkt` class and the parser.

**Stand-ins for code outside this model:**

- **SHA-1** is a parameter `sha1: string -> Digest`, a function to 20-byte sequences.
- **Allocation failure** is a boolean parameter `oom`.
- **`get_args`** is defined in code that is not part of this model. The stand-in `GetArgs` returns the arguments of the first header whose name equals the query exactly.
- **C strings** are the sequence of their characters before the NUL.
- **Bytes** are integers `0 <= x < 256`. The unsigned shifts and masks of `to_b64` are written as `/ 2^k % 64` and `* 2^k % 64`. Every intermediate value stays below 2^24, so no C wrap-around can occur.

## Model

| member | source | states |
|---|---|---|
| `Base64.EncodedLenBounds` | websock.h:52 | the encoded length (WEBSOCK_SEC_ACCEPT_LEN for n = 20) is a whole number of 4-character groups, and the fewest that hold n bytes at 3 per group: 4n <= 3r < 4n + 12 |
| `Base64.Char6` | websock.h:278-290 | the `alpha[...]` entry for a 6-bit value is never the padding '=' and never NUL, so the output cannot end early or be misread as padding |
| `Base64.Quad` | websock.h:285-290 | a 3-byte group becomes exactly 4 characters |
| `Base64.B64` | websock.h:274-318 | the reference encoding of n bytes has 4*((n+2)/3) characters |
| `Base64.SextetOf` | websock.h:278-280 | the decoder's inverse alphabet maps every character to a 6-bit value |
| `Base64.Unquad` | websock.h:285-290 | the decoder turns 4 characters back into 3 bytes |
| `Base64.AlphabetTable` | websock.h:278-280 | the alphabet string has 64 characters, and entry i is the i-th character of A-Z, a-z, 0-9, '+', '/' |
| `Base64.AlphabetInverse` | websock.h:278-280 | alphabet characters are distinct from each other and from '=' (decoding recovers the index) |
| `Base64.PadNotInAlphabet` | websock.h:278-280 | the padding character '=' is not an alphabet character |
| `Base64.B64Append` | websock.h:284-294 | encoding a whole number of 3-byte groups and then the rest is encoding their concatenation |
| `Base64.B64Length` | websock.h:284-317 | the encoding of n bytes has 4*((n+2)/3) characters, which is 28 for a 20-byte SHA-1 digest |
| `Base64.B64Drop` | websock.h:284-294 | dropping k whole groups of input drops 4k characters of output |
| `Base64.B64FullGroup` | websock.h:284-290 | characters 4k..4k+4 of the output are the encoding of input bytes 3k..3k+3 |
| `Base64.QuadCharset` | websock.h:287-290 | each character of a full group is an alphabet character |
| `Base64.CharsetConcat` | websock.h:284-313 | text made only of alphabet characters and '=' stays so under concatenation |
| `Base64.B64Charset` | websock.h:284-313 | every emitted character is in the 64-character alphabet or is '=' |
| `Base64.QuadNoPad` | websock.h:287-290 | a full group emits no '=' |
| `Base64.PadCount` | websock.h:296-313 | the number of '=' is below 3 and completes n to a whole number of 3-byte groups |
| `Base64.B64Padding` | websock.h:296-313 | the output ends in exactly (3 - n%3)%3 '=' characters, with none before them: "==" for one leftover byte, "=" for two, none for zero |
| `Base64.PaddedConcat` | websock.h:284-313 | text without '=' placed before padded text keeps exactly that padding |
| `Base64.PaddingStep` | websock.h:284-294 | a full group in front does not change how the rest is padded, and 3 more bytes need the same padding |
| `Base64.PaddingOne` | websock.h:300-306 | one leftover byte ends the text in "==", with no '=' before |
| `Base64.PaddingTwo` | websock.h:307-313 | two leftover bytes end the text in "=", with no '=' before |
| `Base64.QuadNoNul` | websock.h:287-290 | a full group emits no NUL |
| `Base64.B64NoNul` | websock.h:274-317 | the encoding holds no NUL, so the NUL written after it ends the C string there |
| `Base64.UnquadOfQuad` | websock.h:285-290 | the 6-bit slices of a group give its three bytes back |
| `Base64.DecodeTailOne` | websock.h:300-306 | a one-byte tail round-trips through its "xx==" text |
| `Base64.DecodeLastTwo` | websock.h:307-313 | a group whose last character is replaced by '=' decodes to the first two bytes of its value |
| `Base64.DecodeTailTwo` | websock.h:307-313 | a two-byte tail round-trips through its "xxx=" text |
| `Base64.DecodeFullGroup` | websock.h:285-290 | a group without '=' decodes to its three bytes, in front of the decoding of what follows |
| `Base64.B64RoundTrip` | websock.h:274-318 | decoding the encoding of any byte sequence gives that sequence back |
| `Base64.B64Injective` | websock.h:274-318 | different inputs have different encodings |
| `Base64.SampleGroups` | websock.h:284-313 | each of the six full groups of the sample digest of section 1.3 of RFC 6455 encodes to its four characters of the RFC's accept value, and the two-byte tail encodes to "xOo=" |
| `Base64.B64Cons` | websock.h:284-294 | a whole group in front of the input puts its four characters in front of the output |
| `Base64.B64Rfc6455Sample` | websock.h:274-318 | the sample digest of section 1.3 of RFC 6455 encodes to "s3pPLMBiTxaQ9kYGzzhZRbK+xOo=" |
| `Base64.GroupAt` | websock.h:284-294 | after g full groups, characters 4g..4g+4 of the encoded prefix are the group's four characters |
| `Base64.EncodedLenAfter` | websock.h:284-294 | g full groups in front of k bytes add exactly 4g characters to the encoded length |
| `Base64.TailAt` | websock.h:296-313 | after the 4g characters of g full groups, the encoding continues with the encoding of the k leftover bytes, and its length is 4g plus that encoding's length |
| `Base64.Spliced` | websock.h:284-317 | text written in two parts into a buffer and followed by a NUL leaves the text, the NUL, and the old buffer contents after them |
| `Base64.Assembled` | websock.h:284-317 | the groups, then the tail, then the NUL, written in that order, make up the whole encoding followed by a NUL |
| `Base64.GroupSlices` | websock.h:285-290 | the four 6-bit fields of the big-endian value b0<<16 \| b1<<8 \| b2 (bits 23..18, 17..12, 11..6, 5..0) are the slices the reference encoder takes from the bytes |
| `Base64.TailOneText` | websock.h:300-306 | one leftover byte u gives the characters for u>>2 & 63 and u<<4 & 63, then "==" |
| `Base64.B64Two` | websock.h:307-313 | two leftover bytes encode to the characters of b0's top six bits, b0's low two bits with b1's top four, b1's low four bits, then '=' |
| `Base64.TailTwoSlices` | websock.h:307-313 | for u = b0<<8 \| b1, the fields u>>10, u>>4 and u<<2 (each & 63) are those three 6-bit values |
| `Base64.TailTwoText` | websock.h:307-313 | two leftover bytes, u = b0<<8 \| b1, give the characters for u>>10, u>>4 and u<<2 (each & 63), then "=" |
| `Base64.EncodeGroup` | websock.h:285-290 | writes the group's four characters at wr and leaves the rest of dst unchanged |
| `Base64.TailOne` | websock.h:300-306 | case 1 writes the four characters of the one-byte encoding at wr and leaves the rest of dst unchanged |
| `Base64.TailTwo` | websock.h:307-313 | case 2 writes the four characters of the two-byte encoding at wr and leaves the rest of dst unchanged |
| `Base64.EncodeTail` | websock.h:296-313 | writes the encoding of the 0, 1 or 2 leftover bytes at wr, advances wr by its length, and leaves the rest unchanged |
| `Base64.EncodeGroups` | websock.h:284-294 | the loop consumes whole groups while 3 or more bytes are left; the first 4*(rd/3) characters of dst are the encoding so far; fewer than 3 bytes remain, and wr plus the encoded length of what remains is the encoded length of all len bytes |
| `Base64.ToB64` | websock.h:274-318 | dst becomes B64 of the first len bytes (none when len is negative), then a NUL, with the rest of dst unchanged |
| `HttpParse.GetArgs` | websock.h:251-264 | the stand-in for get_args finds no value exactly when no header has the name, and otherwise returns the args of the first header with that name |
| `HttpParse.LookupArgs` | http_parse.h:29-42 | no value exactly when no header carries the name |
| `HttpParse.LookupArgsFirst` | http_parse.h:29-42 | the lookup returns v exactly when the first header so named has args v |
| `Handshake.IsWebsockRequest` | websock.h:245-269 | true only when no earlier error is pending |
| `Handshake.IsWebsockRequestHeaders` | websock.h:251-265 | a request is an upgrade exactly when the first Connection header is "Upgrade", the first Upgrade header is "websocket", and a Sec-WebSocket-Key header exists |
| `Handshake.KeyToken` | websock.h:351 | the token is the longest comma-free prefix of the key (strcspn(key, ",")) |
| `Handshake.KeyTokenWhole` | websock.h:351 | a key without a comma is used whole |
| `Handshake.KeyTokenFirst` | websock.h:351 | of "k,rest" only k is used |
| `Handshake.AcceptKey` | websock.h:350-361 | the accept value has SEC_ACCEPT_LEN = 28 characters |
| `Handshake.AcceptKeyDecodes` | websock.h:350-361 | the accept value decodes back to SHA-1 of the key token followed by the magic GUID |
| `Handshake.AcceptKeyRfc6455Sample` | websock.h:350-361 | for the sample key "dGhlIHNhbXBsZSBub25jZQ==", given the digest RFC 6455 states, the accept value is "s3pPLMBiTxaQ9kYGzzhZRbK+xOo=" |
| `Handshake.HandshakeResponse` | websock.h:329-377 | a response exists exactly when the returned error is success; with an earlier error pending, it gives NULL and that error |
| `Handshake.ProtocolLine` | websock.h:368-371 | the Sec-WebSocket-Protocol line is empty exactly when there is no protocol; otherwise it has the header's length plus the protocol's plus 2, and ends in "\r\n" |
| `Handshake.ResponseText` | websock.h:365-373 | the text of the three sprintf calls is as long as the upgrade headers, the accept value, the protocol line and four more characters for the two CRLFs |
| `Handshake.Framed` | websock.h:365-372 | text built as header, accept value, CRLF, an optional line ending in CRLF, and a final CRLF starts with the header, has the accept value right after it, and ends in two CRLFs |
| `Handshake.ResponseTextShape` | websock.h:365-372 | the response text starts with the upgrade headers, has the accept value right after them, and ends with "\r\n\r\n" |
| `Handshake.HandshakeResponseCases` | websock.h:337-374 | given a request and no pending error, a response exists exactly for an upgrade request whose protocol, if any, has at most 32 characters; the response starts with the upgrade headers, continues with the accept value of the request's key, and ends with "\r\n\r\n" |
| `Handshake.ResponseFits` | websock.h:60-66 | without its NUL, the response text fits WEBSOCK_HANDSHAKE_RESPONSE_SIZE; with its NUL, it fits HandshakeBufferSize |
| `Handshake.ResponseNulOverflows` | websock.h:332-373 | with a 32-character protocol, the text fills all 187 characters of the static buffer, so sprintf's NUL is written past its end |
| `Handshake.CStr` | websock.h:365 | `%s` reads the characters before the first NUL |
| `Handshake.CStrOfTerminated` | websock.h:317 | a NUL-free text followed by a NUL reads back as that text |
| `Handshake.Emit` | websock.h:365-374 | sprintf at pos writes the text and a NUL, advances pos by the text's length, and keeps what was before pos |
| `Handshake.EncodeAccept` | websock.h:360-361 | to_b64 of the digest into a 29-character buffer, read as a C string, is B64 of the digest |
| `Handshake.WriteLines` | websock.h:364-374 | writing a head, an optional line and a CRLF by successive sprintf calls leaves their concatenation followed by a NUL, and the buffer after the NUL unchanged |
| `Handshake.WriteResponse` | websock.h:363-374 | the three sprintf calls leave the response text followed by a NUL, and the buffer after the NUL unchanged |
| `Handshake.AnswerUpgrade` | websock.h:350-374 | once the checks have passed, the buffer holds the response text for the accept key of the request's key (first token hashed with the magic string, then Base64) followed by a NUL, and is unchanged after the NUL |
| `Handshake.WebsockHandshakeResponse` | websock.h:329-377 | the returned buffer and error are those of HandshakeResponse; on success the buffer holds the response as a C string and is unchanged after its NUL; on failure the buffer is untouched |
| `Websock.Code` | websock.h:94-100 | every opcode fits in 4 bits |
| `Websock.FromCode` | websock.h:94-100 | the packet type found for an opcode has that opcode |
| `Websock.FromCodeOfCode` | websock.h:94-100 | every packet type is recovered from its opcode |
| `Websock.PktTypeStrsTable` | websock.h:114-132 | the table has 16 entries; entry c is the enumerator's name for the opcodes 0, 1, 2, 9, 10 and "bad operation" otherwise |
| `Websock.PktTypeStrsBadOp` | websock.h:114-132 | "bad operation" marks exactly the opcodes no packet type has |
| `Websock.EnumName` | websock.h:94-100 | each packet type's name is its enumerator, spelt with the WEBSOCK_ prefix |
| `Websock.HdrTaken` | websock.h:409-412 | the header state takes at most len bytes and never passes 14 header bytes; it takes fewer than len only when the header is then complete |
| `Websock.HdrTakenSplit` | websock.h:409-412 | feeding input in two pieces collects the same header bytes as feeding it at once |
| `Websock.ExpandedCap` | websock.h:228-239 | the capacity never shrinks and is either kept or doubled; it reaches min_sz afterwards exactly when it or its double does |
| `Websock.WebsockPkt.constructor` | websock.h:160-183 | a new packet has a fresh 256-byte buffer and cap 256, and is then reset (reset_websock_pkt): state HDR, pos 0 and payload_len at its largest value |
| `Websock.WebsockPkt.Reset` | websock.h:188-194 | from any parse state, state becomes HDR, pos 0 and payload_len the unsigned maximum; base, cap and the other fields are unchanged |
| `Websock.WebsockPkt.ExpandPktMemTo` | websock.h:224-240 | with an error pending, nothing changes; if cap >= min_sz, nothing changes; otherwise, on success, cap is doubled once and the old contents are a prefix of the fresh buffer; when allocation fails, HTTP_OOM is reported and nothing changes |
| `Websock.WebsockPkt.CollectHdr` | websock.h:409-412 | copies buf[0..k) to base[pos..pos+k) with k = min(len, 14 - pos) and leaves the rest of base unchanged |
| `Websock.NewWebsockPkt` | websock.h:160-183 | with an error pending, NULL and the error; on allocation failure, NULL and WEBSOCK_OOM; otherwise a fresh, reset packet |
| `Websock.WriteToWebsockParser` | websock.h:383-435 | always returns -1. The checks run in order: pending error, then NULL pkt or buf (WEBSOCK_NULL_ARG), then len < 0 (WEBSOCK_INVALID_ARG), then the buffer expansion (HTTP_OOM). On any failure nothing changes. Otherwise k = min(len, 14 - pos) bytes are copied into the header region, pos advances by k, and WEBSOCK_NOT_IMPL is reported; pkt_type, fin and payload_len keep their values, and base is the same array unless cap grew, when it is a fresh one |

## Left out

- SHA-1 (`openssl/sha.h`) is a foreign library call. It is a parameter; only its 20-byte result length is assumed.
- `malloc`, `realloc`, `free` and `alloca` are not modelled as memory. Each allocation that can fail is a boolean `oom` parameter, and new buffers are fresh Dafny arrays.
- `del_websock_pkt` only frees memory, and Dafny has no deallocation, so it is not modelled.
- `sprintf` and `%n` are modelled by the text they write followed by a NUL (`Emit`). Format-string semantics are not modelled.
- `websock_handshake_response` keeps its buffer in a static variable. The model takes the buffer as a parameter, so the aliasing between successive calls is not captured.
- `get_args` and the HTTP parser are not part of this model. `GetArgs` is a stand-in: an exact, first-match lookup whose own error reporting is not modelled.
- Model strings may contain the NUL character, and a C string cannot. The lengths of `prot` and of the header values match `strlen` only for NUL-free strings. The model does not require that, so a `prot` holding a NUL is measured by its full length rather than up to the NUL.
- Header-name case: http_parse.h:30 says the parser lower-cases header names, while is_websock_request looks up "Connection", "Upgrade" and "Sec-WebSocket-Key". The stand-in compares exactly, so no case folding is modelled.
- `Websock.WebsockPkt.constructor`: new_websock_pkt allocates a buffer but never stores it in `base` and never sets `cap`. The model assumes both are set to the 256-byte buffer, because otherwise nothing about the packet's buffer could be stated.
- `Websock.WebsockPkt.constructor`: `pkt_type` and `fin` are left uninitialised by the source. The model gives them fixed values.
- `payload_len` is an `unsigned long`, taken to be 64 bits wide as on LP64 platforms, so `-1` stores 2^64 - 1 (`ULongMax`). A platform with a 32-bit `unsigned long` would store 2^32 - 1 instead.
- The `payload` pointer of `websock_pkt` is never read or written, so it is not a field of the model.
- `Websock.WriteToWebsockParser`: the payload copy loop (websock.h:420-428) cannot run, because nothing sets the payload state. `Valid()` records that the state is always HDR, and the branch is proved unreachable. The loop's own behaviour is therefore not modelled. If the state could be reached, the loop would write up to payload_len bytes into a buffer that one doubling does not size for them.
- `Websock.WebsockPkt.ExpandPktMemTo` reproduces the source: it doubles once rather than until `min_sz` fits (`ExpandedCap` states the consequence), and it reports HTTP_OOM. The 32-bit overflow of `cap * 2` and of `pos + len` is not modelled, since integers are unbounded. Within the model, the header state never writes past pos 14 < 256 <= cap.
- Frame-header decoding, unmasking and the stragglers policy of section 5.2 of RFC 6455 do not exist in the source and are not invented. CLOSE (opcode 8) is not among the source's packet types, so the table names it "bad operation".
- The `MM_IMPLEMENT`/include-guard machinery and the mm_err.h error-string registry are replaced by the `MmErr` datatype.

## Findings

| source | as written | input that shows it | evidently intended | confidence | as-written member | corrected member |
|---|---|---|---|---|---|---|
| websock.h:332-373 | the static buffer has WEBSOCK_HANDSHAKE_RESPONSE_SIZE = 187 characters (websock.h:60-66), exactly the longest response text, so sprintf's terminating NUL goes one past its end | a valid upgrade request with a 32-character `prot` | one more character for the NUL (188) | not executed | `Handshake.ResponseNulOverflows` | `Handshake.WebsockHandshakeResponse` |
