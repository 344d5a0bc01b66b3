# A verified model of the seti_cw static-file HTTP server core

This project models the protocol and bookkeeping engine of a small static-file
HTTP server written in C. The server keeps a fixed table of connection slots.
Each slot runs a resumable state machine
(VACANT < RECV_HEADER < SEND_HEADER < SEND_BODY). It receives a request
header into a bounded 8192-byte buffer, parses it and prepares a response.
It then sends the response header and refills the buffer from a body
producer (a file range, a directory listing or an error page) until the body
is done. A select(2)-based event queue tells the worker which descriptors are
ready.

Sockets, the file system, the clock and formatted output are not modelled as
such. Every read, write and accept outcome enters as a parameter. So do the
stat/access result, the scandir entry list, the file bytes and the time stamp.
The ready sets pselect reports are inputs too.

One Dafny module stands for each C file:

| module | file | what it holds |
|---|---|---|
| `Util` (util.dfy) | util.c, util.h, configuration.h | `struct my_buffer` as a class with `buffer_append`; `esnprintf`, `append_before`, `tokenize_space`, `string_to_num`, the `realloc_array` overflow guard; size_t wrap-around |
| `MySock` (mysock.dfy) | mysock.c | `sockets_same_addr` and the non-inet_ntop branches of `get_socket_inaddr` |
| `Http` (http.dfy) | http.c, http.h | request and response records, `status_str`, `prep_header_buf_http`, `prepare_err_resp_http`, the receive and send loops |
| `HttpParse` (http_parse.dfy) | http.c | `decode` (in place) and `parse_header_http` |
| `HttpPath` (http_path.dfy) | http.c | `norm_path` (in place, with its memmove) and `ensure_dirslash` |
| `HttpRange` (http_range.dfy) | http.c | `handle_range` |
| `HttpResponse` (http_response.dfy) | http.c, configuration.h | the header-field tail of `prepare_resp_http` and the MIME lookup |
| `BodyBuffer` (buffer.dfy) | buffer.c | `html_escape`, `compareent`, `suffix`, the three producers and `data_fct` |
| `Connection` (connection.dfy) | connection.c, connection.h | the slot (`Conn`), the slot table (`ConnTable`), `serve_con`, `reset_con`, `connection_get_drop_candidate`, `accept_con` |
| `QueueSelect` (queue_select.dfy) | queue_select.c | the registration table (`Queues`) with `queue_create`, `queue_add_fd`, `queue_mod_fd`, `queue_rem_fd`, `queue_event_get_data` and the event scan of `queue_wait` |

Conventions:

- A byte is a `char`.
- A C string is a NUL-free `string`. An array that holds one is read through
  `Util.CString`, which takes the bytes before the first NUL. The one array
  read with no NUL in it, the received header, is read through
  `Connection.HeaderString`.
- The memory layout is LP64 little-endian: size_t is 8 bytes, low byte first.
- Text that `vsnprintf`/`snprintf` would produce is passed in already formatted.
- size_t arithmetic wraps modulo 2^64 where the code depends on it
  (`Util.SizeSub`, `Util.SizeAdd`).

Each imperative operation is a method. Its contract ties the new state to a
specification function. The lemmas beside that function state what the code
promises.

### Behaviour kept as the code has it

The model follows the code where it differs from what the authors probably
meant:

- **`status_str` (http.c:33-39).** The table assigns index 405 twice, so 405
  prints "Not Modified" and 304 prints "(null)". See `Http.StatusTextQuirks`.
- **The Allow value of a 405 response (http.c:900-901)** already contains its
  name, so the line reads "Allow: Allow: GET, HEAD". See
  `Http.AllowLineRepeatsName`.
- **The eviction rule's type test (connection.c:215-236)** compares
  `connection[i]`'s type with the minimiser's, not `connection[j]`'s. See
  `Connection.TypeComparedWithOuterSlot`.
- **Eviction minimises state before type (connection.c:207-236).** In the
  largest address group a connection still in RECV_HEADER goes before a
  directory listing that is already sending its body. See
  `Connection.LowestStateEvictedFirst`.
- **The listing producer tests `buffer_append(...) < 0` (buffer.c:130,160).**
  `buffer_append` returns 1 on failure (util.c:211), so these failures pass
  unnoticed. A footer that does not fit is dropped, yet progress still
  becomes dirlen + 1. See `BodyBuffer.ListingCallEmits`.
- **A listing entry that does not fit after the header (buffer.c:123-156).**
  Progress stays 0, so every call returns the header again. This happens when
  the line of the first visible entry, which carries its escaped absolute
  path, is longer than what the header leaves free. See
  `BodyBuffer.ListingHeaderRepeats`.
- **The `memset` in `queue_rem_fd` (queue_select.c:218)** has its value and
  length swapped, so it writes nothing. See `QueueSelect.RemovedKeepsEntries`.
- **`queue_mod_fd` with IN (queue_select.c:149-153)** changes neither set when
  the descriptor is already write-watched. See `QueueSelect.ModInterest`.
- **`queue_create` (queue_select.c:58-81)** returns `num_queues - 1`, so once
  all ten queues exist it returns 9 instead of an error. See
  `QueueSelect.CreatedIndex`.
- **A 304 or range-error response** is built from a zeroed record, so its
  type stays 0, that is DIRLISTING. See `HttpResponse.TailRangeRejected`.
- **"bytes=-0"** is accepted as the empty interval [size, size - 1]. See
  `HttpRange.SuffixZero`.
- **An empty file** gets upper bound `size - 1`, which wraps to SIZE_MAX, and a
  Content-Length of 0 after the second wrap. See `HttpRange.EmptyFileWraps`
  and `HttpResponse.TailEmptyFileSuffix`.
- **A complete header of exactly 8192 bytes (connection.c:93)** has no NUL
  in `buf.data`, so `parse_header_http` reads on into `buf.length`, which
  holds 8190. On an LP64 little-endian target the text gains the bytes 0xFE
  0x1F. It no longer ends in CRLF, so the request is answered with an error.
  See `Connection.HeaderString` and `Connection.OverlongHeaderRejected`.

## Model

| member | source | states |
|---|---|---|
| MySock.SameAddrEquivalence | mysock.c:148-165 | sockets_same_addr is reflexive, symmetric and transitive, so every slot matches itself in the eviction count |
| MySock.DifferentFamilies | mysock.c:152-155 | addresses of different families never compare equal |
| MySock.InetIgnoresPort | mysock.c:159-161 | two AF_INET peers compare equal exactly when their 32-bit addresses agree, whatever the ports |
| MySock.Inet6ComparesFromPort | mysock.c:162-164 | AF_INET6 falls to the sun_path branch, which reads from the port on: two IPv6 peers whose port starts with a zero byte compare equal whatever their addresses |
| MySock.Inet6SamePrefix | mysock.c:162-164 | two IPv6 peers compare equal when their bytes agree up to a common NUL from the port on (strcmp of the sun_path view) |
| MySock.Snprintf | mysock.c:139-142 | snprintf into len bytes keeps a prefix of the literal shorter than len, all of it when it fits, nothing when len is 0 |
| MySock.GetSocketInaddr | mysock.c:117-146 | AF_INET/AF_INET6 return 1 exactly when inet_ntop fails and otherwise hold its text; AF_UNIX writes "uds", any other family "-", both returning 0 |
| Util.SizeSub | http.c:538 | size_t subtraction wraps modulo 2^64: exact when b <= a, 2^64 + a - b otherwise |
| Util.SizeAdd | http.c:844-846 | size_t addition wraps modulo 2^64 |
| Util.CStrLen | util.c:166 | strlen is the index of the first NUL (or the whole array when there is none); no NUL before it |
| Util.CStringOfTerminated | util.c:166-176 | a NUL-free text followed by a NUL is the C string stored there |
| Util.CStringOfPrefix | util.c:166-176 | the C string of an array depends only on its bytes up to the first NUL |
| Util.CStringThroughNul | util.c:173 | a NUL written right after |d| bytes makes the C string that of d |
| Util.Buffer.constructor | util.h:9-12 | a fresh my_buffer holds BUFFER_SIZE zero bytes and length 0 |
| Util.Buffer.Zero | http.c:150 | memset(buf, 0, sizeof *buf) leaves length 0 and every byte NUL |
| Util.Buffer.Put | http.c:110-130 | the bytes read (or fread) behind the contents are appended to them and nothing after them changes |
| Util.Buffer.Consume | http.c:96-97 | memmove plus length -= r drops exactly the first r bytes and keeps the rest in order |
| Util.Buffer.Append | util.c:197-217 | buffer_append succeeds exactly when the text is strictly shorter than the remaining capacity, then adds exactly the text and a NUL, so length stays below BUFFER_SIZE; failure returns 1, keeps the contents and zeroes everything from length to the end |
| Util.Esnprintf | util.c:71-81 | esnprintf fails exactly when the text and its NUL do not fit; the destination holds a prefix of the text, all of it on success |
| Util.AppendBefore | util.c:164-177 | append_before returns 1 and leaves the array untouched exactly when len + prefixlen + 1 > size; otherwise the C string becomes prefix followed by the old string |
| Util.ShiftRight | util.c:173 | memmove(str + prefixlen, str, len + 1) moves the string and its NUL up by prefixlen and leaves the other bytes alone |
| Util.CopyPrefix | util.c:174 | memcpy writes the prefix at the front and leaves the other bytes alone |
| Util.SkipSpaces | util.c:100-101 | the first non-space at or after i; everything skipped is a space |
| Util.TokenEnd | util.c:108-126 | a token ends at the first space not preceded by a backslash, or at the end; a non-empty token is at least one byte long |
| Util.Scan | util.c:98-153 | the goto scan from a position with acc already stored: on success the result extends acc and fits in tlen slots |
| Util.ScanTokens | util.c:98-153 | the scan yields acc followed by the token list of the string exactly when that list exists and fits in the slots; trailing spaces, an empty remainder or one token too many give None |
| Util.TokenizeByTokens | util.c:83-162 | tokenize_space succeeds exactly when the string is non-NULL, does not start with a space, and its tokens exist and fit; it then returns exactly those tokens |
| Util.SkipSpacesLoop | util.c:100-101 | the skipping loop stops where SkipSpaces says |
| Util.TokenEndLoop | util.c:108-126 | the token loop stops where TokenEnd says, stepping over each backslash-space pair |
| Util.CopyToken | util.c:136-144 | the copy loop writes the token with each backslash of a backslash-space dropped |
| Util.TokenizeSpace | util.c:83-162 | returns 0 exactly when the tokenization succeeds, with the tokens in the first slots and NULL after them; returns 1 with every slot NULL otherwise |
| Util.TokenizeLoop | util.c:98-161 | the goto loop returns 0 exactly when the scan from position 0 succeeds, with the slots holding its tokens; on failure every slot is NULL |
| Util.ClearSlots | util.c:155-159 | the error path sets every slot to NULL |
| Util.NatToString | http.c:168-171 | the decimal text printf prints for a non-negative value is a non-empty digit string, one digit exactly for values below 10 |
| Util.NatToStringValue | http.c:844-846 | reading the printed decimal digits back gives the value again |
| Util.Strtoll | util.c:244 | strtoll's value lies within [LLONG_MIN, LLONG_MAX] (clamped on overflow) and its end pointer lies within the string |
| Util.StringToNum | util.c:219-259 | an error comes with the value 0 and one of "invalid", "too small", "too large"; minval > maxval is "invalid"; no error means the whole string was parsed and the value lies in [minval, maxval] |
| Util.StrtollOfNumeral | util.c:244 | strtoll reads a whole numeral (blanks, an optional sign, at least one digit) to its end and returns its exact value, or LLONG_MAX / LLONG_MIN with ERANGE when the value lies beyond them |
| Util.StringToNumOfNumeral | util.c:238-259 | with valid bounds, a whole numeral gives its exact value when it lies in [minval, maxval], otherwise 0 with "too small" below minval (a negative overflow included) or "too large" above maxval (a positive overflow included) |
| Util.StrtollWholeIsNumeral | util.c:244-246 | whatever strtoll reads to the end of the string with at least one character consumed is a whole numeral |
| Util.StringToNumInvalid | util.c:238-246 | the answer is "invalid" exactly when minval > maxval or the string is not a whole numeral |
| Util.DigitStringToNum | util.c:236-258 | on a non-empty digit string with bounds [0, maxval] string_to_num returns the decimal value with no error, or 0 with "too large" when it exceeds maxval |
| Util.ReallocArray | util.c:186-195 | realloc_array asks for nmemb * size bytes, and returns NULL with ENOMEM exactly when that product exceeds SIZE_MAX |
| Util.ReallocGuardExact | util.c:188-189 | the MUL_NO_OVERFLOW guard rejects exactly the products that overflow a 64-bit size_t |
| Http.StatusText | http.c:33-39 | the reason phrase printed for a status is "(null)" exactly when status_str has no entry for it |
| Http.StatusTextQuirks | http.c:33-39 | 405 prints "Not Modified" (its index is assigned twice and the later text stays), 304 prints "(null)", 200 and 500 print their own phrases |
| Http.IntToString | http.c:168-171 | "%d" of a non-negative status is a digit string that reads back as the status; a negative one starts with '-' |
| Http.FieldLinesStep | http.c:176-183 | the field loop's text after field i is its text before it followed by field i's line |
| Http.FieldLinesGrow | http.c:176-183 | the field lines only grow as the loop goes on |
| Http.FieldLinesEnd | http.c:176-183 | the field lines are empty or end in CRLF |
| Http.HeaderShape | http.c:167-189 | every header starts with "HTTP/1.1 " and ends in CRLF CRLF, the terminator receive_header_http looks for |
| Http.AllowLineRepeatsName | http.c:900-901 | the 405 error response's header line reads "Allow: Allow: GET, HEAD" because the field value already holds the name |
| Http.PrepHeaderBuf | http.c:154-194 | succeeds exactly when the time stamp exists and the whole header (status line, Date, Connection, each non-empty field, CRLF) fits below BUFFER_SIZE, and the buffer then holds exactly that header; otherwise the buffer is zeroed and the status is 500 |
| Http.AppendFieldLines | http.c:176-183 | the field loop appends each non-empty field's line in enum order, and succeeds exactly when all of them fit |
| Http.PrepareErrResponse | http.c:880-906 | a zeroed response of type ERROR with the given status, Content-Type "text/html; charset=utf-8", the Allow field "Allow: GET, HEAD" only for 405, every other field empty |
| Http.ReceiveKeeps | http.c:108-143 | the receive loop only adds bytes; it completes only on bytes ending in CRLF CRLF within capacity, and a blocked partial header stays below capacity |
| Http.ReceiveChunks | http.c:108-148 | a header that arrives in non-empty chunks, with no earlier point where the bytes end in CRLF CRLF or fill the buffer, is received completely |
| Http.ReceiveStep | http.c:130-142 | one read of a whole chunk completes on CRLF CRLF and otherwise continues with the chunk appended |
| Http.ReceiveBytes | http.c:110-142 | one read stores what fits of its bytes, then completes on CRLF CRLF, fails on a full buffer, or reads again |
| Http.ReceiveHeader | http.c:103-152 | would-block returns 0 with done unset and the partial bytes kept; completion returns 0 with done set and the length two short of the bytes, which stay in the array; EOF, a read error or a full buffer without the terminator return 500 and zero the buffer |
| Http.TakeBytes | http.c:130-142 | one successful read: the bytes are appended, then CRLF CRLF finishes with the length dropped by 2, a full buffer fails with 500 and a zeroed buffer, anything else asks for another read |
| Http.SendSplits | http.c:74-101 | the bytes written followed by the bytes kept are the original bytes; the status is 0 or 500, and 500 always leaves bytes unsent |
| Http.SendParts | http.c:83-98 | each write removes exactly the bytes it transferred from the front, so sent + kept is the original |
| Http.SendStep | http.c:85-97 | a write of r > 0 bytes sends the first r bytes and the loop continues on the rest |
| Http.SendStatus | http.c:83-100 | the send loop returns 0 or 500, and 500 leaves bytes behind |
| Http.SendDrains | http.c:83-100 | writes that transfer bytes and add up to at least the buffer's length empty it with status 0 |
| Http.SendBuffer | http.c:74-101 | the status and the bytes left in the buffer are those of the send loop over the write results: would-block returns 0 with the rest kept in order, another failure returns 500 |
| HttpParse.HexByte | http.c:62-63 | sscanf("%2hhx") of two hex digits is the byte 16 * high + low |
| HttpParse.PercentDecode | http.c:51-72 | decoding never lengthens the text, which is what makes decoding m_path in place safe |
| HttpParse.DecodeEncode | http.c:57-70 | decoding undoes percent-encoding of every byte: each "%XY" becomes the byte XY spells (section 2.1 of RFC 3986) |
| HttpParse.DecodePlain | http.c:66-69 | a text without '%' is copied unchanged |
| HttpParse.DecodeAt | http.c:59-69 | one step of the decode loop: a '%' and two hex digits give one byte and skip three, anything else is copied and skips one |
| HttpParse.DecodeStep | http.c:57-70 | one turn of the in-place loop writes at i (never ahead of the read position s), and what is written so far followed by the decoding of the unread input equals what was written before followed by the decoding from s |
| HttpParse.DecodeInPlace | http.c:51-72 | decode(m_path, m_path), as called at line 301, leaves the decoding of the C string at the front of the array followed by a NUL |
| HttpParse.MatchMethod | http.c:214-226 | the method is the first of GET, HEAD the header starts with, and there is none exactly when it starts with neither |
| HttpParse.FindFrom | http.c:239 | strchr finds the first occurrence at or after p, or reports that there is none |
| HttpParse.ScanStop | http.c:244-274 | the target scans stop at the first c before end (or at end) with only printable bytes before it, and fail exactly when a non-printable byte comes first |
| HttpParse.FindCRLF | http.c:363-381 | strstr(p, "\r\n") finds the first CRLF at or after p, or reports that there is none |
| HttpParse.SkipBlanks | http.c:378-379 | the value's leading spaces and tabs are skipped and the first other byte is where the value starts |
| HttpParse.FieldFrom | http.c:352-359 | the field loop picks the first field name the line starts with, in any letter case, and there is none exactly when no name matches |
| HttpParse.FieldStep | http.c:350-393 | a header line either stops the parse with 500 and the request unchanged, or moves forward keeping method, path, query and fragment |
| HttpParse.Run | http.c:196-395 | the parse returns 0, 500, or 405 exactly when the header starts with neither "GET" nor "HEAD" (and then with the zeroed request); a recognised method is the one the header starts with |
| HttpParse.TargetStep | http.c:235-328 | the target step either stops with 500 keeping the method, or moves past the target's space keeping method and header fields |
| HttpParse.FindFromLoop | http.c:239 | the strchr scan returns what FindFrom specifies |
| HttpParse.ScanStopLoop | http.c:244-274 | each isprint scan over the target returns what ScanStop specifies |
| HttpParse.FindCRLFLoop | http.c:363-381 | the strstr scan returns what FindCRLF specifies |
| HttpParse.SkipBlanksLoop | http.c:378-379 | the blank-skipping loop stops where SkipBlanks says |
| HttpParse.MatchField | http.c:352-360 | the loop over req_field_str returns the index FieldFrom picks, or NUM_REQ_FIELDS when no name matches |
| HttpParse.CopyAndDecodePath | http.c:294-301 | memcpy of the raw path, its NUL and the in-place decode leave the C string of the decoded path |
| HttpParse.FieldLine | http.c:350-393 | one pass of the header-line loop does what FieldStep specifies |
| HttpParse.ParseFieldsLoop | http.c:350-394 | the header-line loop returns the status and request the field phase of Run specifies |
| HttpParse.TargetStepM | http.c:235-328 | the target scans and copies produce what TargetStep specifies |
| HttpParse.ParseVersionM | http.c:328-394 | the version check and the header-line loop produce what the version phase of Run specifies |
| HttpParse.ParseHeader | http.c:196-395 | parse_header_http returns the status and request Run specifies from the method on |
| HttpParse.FindFromIs | http.c:239 | a c at k with none before it is what strchr finds |
| HttpParse.ScanStopIs | http.c:244-274 | a stop byte at k with printable bytes and no stop byte before it ends the scan at k |
| HttpParse.ScanStopPrintable | http.c:244-274 | over printable bytes the target scans never fail |
| HttpParse.FindCRLFIs | http.c:363-381 | a CRLF at k with none before it is what strstr finds |
| HttpParse.TargetScans | http.c:239-274 | in a target followed by a space, strchr finds that space, the '#' scan finds the fragment mark, and the '?' scan finds the query mark (or no mark before the fragment) |
| HttpParse.TargetPieces | http.c:294-326 | path, query and fragment of a target are the slices between its marks |
| HttpParse.TargetStepAccepts | http.c:276-328 | when the path fits PATH_MAX and query and fragment fit FIELD_MAX with their NULs, the target step goes on after the space with the three pieces stored |
| HttpParse.TargetRequestIs | http.c:298-326 | the stored pieces are the decoded path, the query when '?' precedes any '#', and the fragment |
| HttpParse.TargetRequestFrom | http.c:276-326 | the request a well-formed target leaves, once the scans have found its marks |
| HttpParse.TargetRoundTrip | http.c:235-328 | a well-formed target followed by a space parses into its decoded path, its query and its fragment, and parsing goes on after the space |
| HttpParse.VersionAccepts | http.c:330-347 | "HTTP/1.0" or "HTTP/1.1" and CRLF take the parse to the header lines right after the CRLF |
| HttpParse.MethodAccepted | http.c:214-235 | a header starting with a method name and one space goes on to the target after that space |
| HttpParse.TargetAccepted | http.c:235-328 | a well-formed target followed by a space takes the parse to the version after that space |
| HttpParse.RequestLineRoundTrip | http.c:196-347 | a request line with a well-formed target parses into its method, decoded path, query and fragment, and the header lines start right after it |
| HttpParse.FrontAccepted | http.c:214-328 | the method and its space, then the target and its space, take the parse to the version |
| HttpParse.BlankLineEnds | http.c:360-394 | the blank line at the end of a header is skipped as an unknown line and the parse returns 0 with the request unchanged |
| HttpParse.FieldsEndInCRLF | http.c:350-394 | the header-line loop entered after a CRLF returns 0 only on a text that ends in CRLF |
| HttpParse.VersionEndsInCRLF | http.c:330-394 | from the version on, status 0 is returned only for a text that ends in CRLF |
| HttpParse.AcceptedEndsInCRLF | http.c:196-395 | parse_header_http returns 0 only for a text that ends in CRLF |
| HttpParse.RequestRoundTrip | http.c:196-395 | a request line followed by the blank line parses with status 0 into exactly what the line spells |
| HttpParse.FieldFromKnown | http.c:352-359 | a line starting with a known name in any letter case selects that field, since no two names share their first letter |
| HttpParse.ValueEnd | http.c:381-390 | a value followed by CRLF ends at that CRLF |
| HttpParse.FieldLineStores | http.c:352-392 | a known field's line with ':', one space, the value and CRLF stores the value in that field and moves to the next line |
| HttpParse.OtherLineSkipped | http.c:360-368 | a line with no known name is skipped up to its CRLF and the request stays as it is |
| HttpParse.LongerNameRejected | http.c:371-376 | a line whose name only begins with a known name, such as "Hostname:", stops the parse with 500 |
| HttpParse.LineAt | http.c:352-392 | one known header line written at p stores its value and moves past it |
| HttpParse.LinesRoundTrip | http.c:350-394 | known header lines and the blank line parse with status 0, each value stored in turn, a later line replacing an earlier one for the same field |
| HttpParse.FieldsNext | http.c:350-393 | the header-line loop continues from wherever a line moves it |
| HttpParse.HeaderRoundTrip | http.c:196-395 | a whole header (request line with a well-formed target, known header lines, the blank line) parses with status 0 into exactly what it spells |
| HttpPath.NextSlash | http.c:434-438 | strchr(p, '/') or, failing that, strchr(p, '\0'): the end of the segment, with no '/' before it |
| HttpPath.LastSlash | http.c:455-456 | the ".." walk back stops at the previous '/' or at the start, with no '/' in between |
| HttpPath.PopSeg | http.c:449-458 | ".." drops the last kept segment (a shorter kept prefix), and at the root drops nothing |
| HttpPath.NormStepOf | http.c:440-482 | one segment: an empty or "." segment is squashed, ".." also drops the previous segment, any other is kept; the path never grows, and the flag is set exactly when the step shortened the path |
| HttpPath.NormFrom | http.c:431-483 | the squashing loop never lengthens the path, and sets the redirect flag exactly when it changed it |
| HttpPath.NormPath | http.c:417-486 | norm_path returns 500 exactly when the path does not start with '/'; otherwise the result is no longer than the input and redirect is set exactly when the path changed |
| HttpPath.AppendPlain | http.c:461-465 | keeping a plain segment keeps the kept text free of empty, "." and ".." segments |
| HttpPath.CutClean | http.c:469-473 | cutting a clean text right after one of its slashes keeps it clean |
| HttpPath.AppendSlash | http.c:461-465 | a clean text followed by a slash stays clean |
| HttpPath.PopSegClean | http.c:452-458 | dropping the last kept segment keeps the kept text clean |
| HttpPath.StepClean | http.c:440-482 | one pass of the loop keeps the kept text clean, and a final pass leaves a clean path |
| HttpPath.KeepClean | http.c:461-465 | a kept plain segment, final or followed by its slash, keeps the kept text clean |
| HttpPath.NormFromClean | http.c:431-483 | the loop started from a clean kept prefix ends in a clean path |
| HttpPath.NormFromFixed | http.c:431-483 | over clean segments the loop keeps everything and sets no flag |
| HttpPath.NormPathClean | http.c:417-486 | a normalised path has no empty, "." or ".." segment left, except a final empty one (a trailing slash) |
| HttpPath.NormPathFixed | http.c:417-486 | a path that is already clean is left as it is, with no redirect |
| HttpPath.NormPathIdempotent | http.c:417-486 | normalising twice is normalising once: the second pass changes nothing and asks for no redirect |
| HttpPath.SquashAt | http.c:449-458 | a squash starts at the squashed segment, or for ".." away from the root at the previous kept segment |
| HttpPath.PassText | http.c:467-478 | a squashed final segment cuts the string, a squashed inner one has what follows its '/' moved down; the string never grows and gains no NUL |
| HttpPath.SquashPass | http.c:431-483 | one pass over the array's current string moves on to a shorter remainder with a kept prefix, or ends the loop |
| HttpPath.PassAgrees | http.c:431-483 | the array pass and the squashing step agree: the same final path, or the same kept prefix and rest |
| HttpPath.PassFollows | http.c:431-483 | after a pass the loop's result depends only on the kept prefix and the rest |
| HttpPath.SegmentEnd | http.c:434-438 | the strchr scans over the array find the end of the segment at p |
| HttpPath.WalkBack | http.c:452-458 | the backward walk of ".." lands where PopSeg says |
| HttpPath.MoveDown | http.c:476 | memmove to a lower address moves cnt bytes down and leaves the bytes before and after the target range alone |
| HttpPath.MovedDown | http.c:476-477 | after the memmove of a squash the array holds the kept prefix, then what followed the segment's '/', then the NUL |
| HttpPath.Squash | http.c:449-478 | the squash leaves PassText in the array, NUL-terminated, and restarts at SquashAt |
| HttpPath.NormSegment | http.c:440-482 | the loop body squashes an empty, "." or ".." segment and steps past any other; the flag is set exactly on a squash, and the array then holds PassText |
| HttpPath.PassEnds | http.c:434-483 | a pass over the final segment ends the loop with that pass's text |
| HttpPath.PassMoves | http.c:434-483 | a pass over an inner segment moves on to SquashAt or past its '/' |
| HttpPath.NormPass | http.c:431-483 | one pass over the array keeps the loop's state (the array's string still normalises to the same result) with a shorter remainder, or finishes with that result in the array |
| HttpPath.SegmentKeepsWalking | http.c:431-483 | what the loop body leaves behind is the next loop state, or the end of the loop |
| HttpPath.SegmentFinishes | http.c:469-473 | at the final segment the loop's result is this pass's text |
| HttpPath.SegmentMoves | http.c:474-478 | at an inner segment the loop goes on from this pass's text with the same result |
| HttpPath.NormPathInPlace | http.c:417-486 | norm_path on the array returns 500 exactly when the C string does not start with '/', leaving the array untouched; otherwise the array holds NormPath of the old string and redirect says whether it changed |
| HttpPath.DirSlash | http.c:503-523 | ensure_dirslash returns 500 exactly when the path, a slash and the NUL would not fit PATH_MAX; otherwise a non-empty path ends in '/', and redirect is set exactly when a slash was added |
| HttpPath.EnsureDirSlash | http.c:503-523 | on the PATH_MAX array: 500 exactly when DirSlash fails, leaving the array untouched; otherwise the array holds DirSlash's path |
| HttpPath.DirSlashIdempotent | http.c:503-523 | a second ensure_dirslash changes nothing and asks for no redirect |
| HttpPath.DirSlashClean | http.c:503-523 | the slash ensure_dirslash adds keeps a normalised path normalised |
| HttpPath.ExampleDotDot | http.c:449-459 | "/a/../b" normalises to "/b" with a redirect |
| HttpPath.ExampleAboveRoot | http.c:452 | "/.." normalises to "/" with a redirect: ".." at the root drops nothing |
| HttpPath.ExampleEmptyAndDot | http.c:444-448 | "/a//./" normalises to "/a/" with a redirect: empty and "." segments go, the trailing slash stays |
| HttpRange.DashFrom | http.c:551-573 | the first '-' at or after i, with no '-' before it |
| HttpRange.SplitRange | http.c:581-645 | after the split the status is 0 or 500, both bounds stay within size_t, and an accepted range on a non-empty file ends before size and is an interval (lower <= upper + 1) |
| HttpRange.RangeOf | http.c:525-646 | handle_range returns 0 or 500 with both bounds within size_t, and an accepted range on a non-empty file ends before size |
| HttpRange.StrayChar | http.c:553-571 | a character that is neither a digit nor '-' after "bytes=" spoils the range |
| HttpRange.SecondDash | http.c:555-561 | a second '-' spoils the range |
| HttpRange.OneDash | http.c:551-573 | digits with exactly one '-' form a range body, and the scan finds that '-' |
| HttpRange.ScanDash | http.c:551-578 | the scanning loop fails exactly when the text after "bytes=" is not digits, one '-', digits, and otherwise points just after the '-' |
| HttpRange.HandleRange | http.c:525-646 | the status and the bounds left in *lower and *upper are those RangeOf specifies, error paths included |
| HttpRange.ContentLengthCounts | http.c:844-846 | for an accepted range on a non-empty file, Content-Length upper - lower + 1 in size_t is exactly the number of bytes in [lower, upper] |
| HttpRange.EmptyFileWraps | http.c:537-543 | for an empty file and no Range field *upper is size - 1 wrapped to SIZE_MAX, and the Content-Length of line 845 wraps back round to 0 |
| HttpRange.DigitCount | http.c:593 | a value below 10^k has at most k decimal digits |
| HttpRange.NumText | http.c:586-598 | any value up to LLONG_MAX prints in fewer than FIELD_MAX - 1 digits, and string_to_num reads it back unchanged |
| HttpRange.SplitAt | http.c:545-589 | "bytes=" A "-" B splits at the '-' into A and B |
| HttpRange.ClosedRange | http.c:591-617 | "bytes=a-b" with a <= b and a < size serves [a, MIN(b, size - 1)], and otherwise is a 500 (section 2.1 of RFC 7233, with errors as 500) |
| HttpRange.OpenRange | http.c:591-617 | "bytes=a-" with a < size serves [a, size - 1], and a >= size is a 500 |
| HttpRange.SuffixRange | http.c:618-643 | "bytes=-n" serves the last n bytes [size - n, size - 1], or the whole file when n exceeds the size |
| HttpRange.SuffixZero | http.c:626-642 | "bytes=-0" is accepted as the empty interval [size, size - 1] |
| HttpRange.MalformedRanges | http.c:545-624 | "bytes=-", "bytes=" without a '-', and a field without the "bytes=" unit are 500 with [0, size - 1] left in the bounds |
| HttpResponse.LastDotBefore | http.c:813 | strrchr(s, '.') finds the last '.', or none when there is no '.' |
| HttpResponse.LastDotIs | http.c:813 | a '.' with no '.' after it is what strrchr finds |
| HttpResponse.FindMime | http.c:812-823 | the table loop returns the type of the first entry whose extension is the text after the path's last '.', and "application/octet-stream" otherwise |
| HttpResponse.MimeFirstMatch | http.c:815-822 | the lookup returns the type of the first entry with the extension |
| HttpResponse.MimeNoMatch | http.c:812 | an extension found nowhere in the table gives the default type |
| HttpResponse.MimeShort | configuration.h:8-25 | every type the lookup can give fits a FIELD_MAX field |
| HttpResponse.MimeExamples | http.c:812-823 | only the last extension counts ("/a.tar.gz" is application/x-gtar), and a path without '.' is application/octet-stream |
| HttpResponse.NumberWidths | http.c:844-855 | neither "%zu" nor "%zd" of a size_t needs more than 20 characters |
| HttpResponse.FileFieldsSet | http.c:837-873 | every file field fits: Accept-Ranges "bytes", Content-Length upper - lower + 1 (in size_t), Content-Range only for a Range request, Content-Type and Last-Modified; Allow and Location stay empty |
| HttpResponse.TailRangeRejected | http.c:789-805 | a rejected Range field gives status 500 with Content-Range "bytes */size", no other field, and the type left at DIRLISTING |
| HttpResponse.TailServesFile | http.c:789-875 | an accepted range gives a FILE response, 200 exactly when the file is readable and 403 otherwise, carrying handle_range's bounds, Content-Length upper - lower + 1, Content-Range only for a Range request, the MIME type of the internal path and the time stamp |
| HttpResponse.TailStampFails | http.c:867-877 | a failing get_time_stamp turns an accepted range into prepare_err_resp_http's 500 |
| HttpResponse.TailWholeFile | http.c:789-875 | without a Range field a non-empty file is sent whole: [0, size - 1] with Content-Length size and no Content-Range |
| HttpResponse.TailEmptyFileSuffix | http.c:789-855 | "bytes=-5" on an empty file is accepted: upper wraps to SIZE_MAX, Content-Length to 0, and "%zd" prints the upper bound as -1 |
| HttpResponse.MimeLength | http.c:861-866 | the Content-Type text always fits its field |
| BodyBuffer.EscapeOf | buffer.c:56-62 | '&', '<', '>', '"' and '\'' become "&amp;", "&lt;", "&gt;", "&quot;" and "&#x27;"; every other byte is copied |
| BodyBuffer.EscapedAppend | buffer.c:65-100 | escaping a concatenation escapes each part |
| BodyBuffer.EscapedStep | buffer.c:65-100 | escaping one more character appends its escape |
| BodyBuffer.FitCount | buffer.c:65-100 | html_escape converts a prefix of the source, stopping at the first character whose escape no longer fits |
| BodyBuffer.FitCountIsMaximal | buffer.c:77-93 | the escaped prefix fits with its NUL and is as long as possible: the whole source, or the next escape would not fit |
| BodyBuffer.FitCountAll | buffer.c:65-101 | when the whole escaped text and its NUL fit, nothing is cut |
| BodyBuffer.FindEntity | buffer.c:67-74 | the inner loop over the escape table finds the character's entity, or none |
| BodyBuffer.PutEscape | buffer.c:74-99 | one character: its escape is copied at j when it fits with a NUL after it, otherwise nothing is written; nothing past dst_siz is touched |
| BodyBuffer.HtmlEscape | buffer.c:50-102 | dst receives the longest escaped prefix of src that fits with its NUL in dst_siz bytes, never a partial entity, and nothing at or past dst_siz is written |
| BodyBuffer.EscapeRoundTrip | buffer.c:56-99 | escaping loses nothing: reading the entities back gives the source |
| BodyBuffer.EscapedIsInert | buffer.c:56-99 | no '<', '>', '"' or '\'' survives escaping |
| BodyBuffer.StrcmpOrder | buffer.c:30 | strcmp is 0 exactly on equal strings and swaps sign with its arguments |
| BodyBuffer.StrcmpTransitive | buffer.c:30 | strcmp orders transitively |
| BodyBuffer.DirectoriesFirst | buffer.c:20-31 | compareent puts a directory before a non-directory, whatever the names |
| BodyBuffer.CompareEntOrder | buffer.c:20-31 | compareent swaps sign with its arguments, is 0 only for the same directory-ness and name, and is transitive, so scandir's sort is well defined |
| BodyBuffer.Suffix | buffer.c:33-48 | FIFO gives "|", DIR "/", LNK "@", SOCK "=", and exactly the other types give "" |
| BodyBuffer.DataFct | buffer.c:13-18 | DIRLISTING, ERROR and FILE select the listing, error and file producers, and nothing else selects them |
| BodyBuffer.PrepareErrorBuffer | buffer.c:178-199 | the buffer is cleared; at progress 0 the page is appended and progress becomes 1 (500 and no progress when it does not fit); at any other progress the buffer stays empty |
| BodyBuffer.ErrorPageFits | buffer.c:185-191 | every error page for a three-digit status fits in the buffer |
| BodyBuffer.ReadAt | buffer.c:224-225 | fread from an offset returns the next bytes of the file, at most n, none past its end |
| BodyBuffer.FileChunk | buffer.c:201-235 | one call never yields more than the buffer holds or than the bytes still owed, upper - lower + 1 - progress |
| BodyBuffer.PrepareFileBuffer | buffer.c:201-244 | a failed fopen is 403 and an offset fseek cannot reach is 500, both with an empty buffer and progress unchanged; otherwise the buffer holds the file's next chunk from lower + progress and progress grows by exactly its length |
| BodyBuffer.ChunkShape | buffer.c:217-235 | without wrap-around a chunk is the file's bytes from lower + progress, as many as fit, are owed and exist |
| BodyBuffer.FileStreamSendsRange | buffer.c:201-244 | the calls from a progress on together produce exactly the file's bytes from lower + progress to upper, cut short only by the end of the file |
| BodyBuffer.StreamStep | buffer.c:223-235 | the stream is one chunk, then the stream from the grown progress; an empty chunk ends it |
| BodyBuffer.ChunkSlice | buffer.c:217-235 | a chunk is the next bytes of the file within the range and the file; an empty chunk means the range or the file is exhausted |
| BodyBuffer.LinesOf | buffer.c:137-155 | the listing has one line (or none, for a '.' entry) per directory entry |
| BodyBuffer.ListFromAppendsLines | buffer.c:137-156 | the entry loop appends the lines of every visible entry up to where it stops, the end of the list or a visible entry whose line no longer fits |
| BodyBuffer.ListEntries | buffer.c:137-156 | the entry loop leaves the buffer and the stopping index ListFrom specifies |
| BodyBuffer.PrepareDirListingBuffer | buffer.c:104-176 | the buffer is cleared; a failed scandir is 403 with nothing produced; otherwise the buffer and progress are one listing call's |
| BodyBuffer.ListingHeaderFits | buffer.c:125-134 | the listing header always fits, since the escaped path is cut below PATH_MAX |
| BodyBuffer.ListingCallEmits | buffer.c:123-166 | a call emits the header at progress 0, then the lines of the visible entries from progress on; either it stops at a visible entry that no longer fits and progress is that entry's index, or every line went in, the footer follows when it fits, and progress becomes dirlen + 1 |
| BodyBuffer.ListingDone | buffer.c:137-166 | past the footer a call produces nothing and keeps progress, which ends the body |
| BodyBuffer.ListingHeaderRepeats | buffer.c:123-156 | with a long escaped directory path the first visible line does not fit after the header, so progress stays 0 and every call returns the header again |
| BodyBuffer.ListFromShort | buffer.c:137-155 | every append of the entry loop is checked against the capacity, so the text stays below it |
| BodyBuffer.Produce | buffer.c:13-244 | a producer returns 0, 403 or 500, an error comes with no bytes, and the bytes fit in the buffer |
| BodyBuffer.ListingCallBounds | buffer.c:104-176 | a listing call stays below the capacity and moves progress at most one past the list |
| BodyBuffer.Fill | buffer.c:13-18 | data_fct[res.rtype] runs the producer the response type selects, with that producer's outcome |
| BodyBuffer.ErrorBodyOnce | buffer.c:178-199 | the error body is sent once: the page with progress 1, then nothing, which ends the body |
| Connection.SendingBody | connection.c:130-162 | the CONN_SEND_BODY step keeps a coherent slot (buffer length within BUFFER_SIZE, NUL-padded) |
| Connection.SendingHeader | connection.c:116-129 | the CONN_SEND_HEADER step keeps a coherent slot |
| Connection.Responding | connection.c:101-115 | after the `response:` label the slot is coherent: either the header of the response, the header of a 500 retry, or the zeroed slot |
| Connection.Receiving | connection.c:78-100 | the CONN_RECV_HEADER step keeps a coherent slot |
| Connection.Served | connection.c:62-170 | serve_con keeps a coherent slot whatever state it starts from |
| Connection.RespondingIgnoresHeld | connection.c:101-112 | the bytes held before the header is prepared do not affect the result |
| Connection.ReceivedComplete | connection.c:92-100 | a complete header is parsed from the C string at the buffer (HeaderString); a parse error leads to the error response for its status, otherwise to the prepared response |
| Connection.BodyAdvances | connection.c:130-169 | a body step ends the connection or stays in CONN_SEND_BODY with the same descriptor and peer |
| Connection.HeaderAdvances | connection.c:116-169 | a header step ends the connection or reaches a state at least CONN_SEND_HEADER, keeping descriptor and peer |
| Connection.RespondingAdvances | connection.c:101-115 | the response label ends the connection or moves on to sending, keeping descriptor and peer |
| Connection.ReceivingAdvances | connection.c:78-115 | a receive step ends the connection or stays in or beyond CONN_RECV_HEADER, keeping descriptor and peer |
| Connection.ServedAdvances | connection.c:62-170 | serve_con either zeroes the slot or leaves it in the same or a later state, never vacant, with the same descriptor and peer |
| Connection.ReceiveWaits | connection.c:69-90 | a receive that would block leaves the slot in CONN_RECV_HEADER with the bytes so far (a fresh slot starts from an empty buffer) and nothing else changed |
| Connection.ErrorsStillRespond | connection.c:81-117 | a failed receive (500) or a parse error is answered: its error response becomes the slot's response and its header goes out at once |
| Connection.HeaderBeforeBody | connection.c:116-162 | a partial header send keeps the unsent bytes in order; an empty buffer ends a HEAD request; a send error ends the connection |
| Connection.BodyAlternates | connection.c:131-160 | for GET an empty buffer is refilled and the connection ends exactly when the producer fails or produces nothing; a full one is drained in order |
| Connection.ErrorBodyLifecycle | connection.c:130-160 | the body of an error response is the error page once (progress 1), then the next refill ends the connection |
| Connection.GroupMinFrom | connection.c:198-248 | the inner loop's minimiser is a slot index |
| Connection.CountIncludesSelf | connection.c:198-205 | a slot's group counts the slot itself |
| Connection.DropKeepsSome | connection.c:186-256 | once a candidate is set it is never unset |
| Connection.DropNeverNone | connection.c:172-259 | a table of at least one slot always yields a candidate, and it is a slot index |
| Connection.DropInRange | connection.c:186-256 | the candidate is a slot index |
| Connection.DropAfterGreediest | connection.c:250-255 | no later group larger than maxcnt leaves the candidate unchanged |
| Connection.DropBeforeGreediest | connection.c:250-255 | the outer loop reaches the first largest group and keeps its minimiser |
| Connection.DropFromFirstGreediest | connection.c:172-259 | the candidate is the minimiser of the first slot whose address has the most connections |
| Connection.GroupMinFromMinimal | connection.c:198-248 | the inner loop keeps the minimiser minimal over the slots seen so far |
| Connection.GroupMinIsMinimal | connection.c:198-248 | the minimiser shares slot i's address, has the lowest state in the group and, below CONN_SEND_BODY, the lowest progress among that state |
| Connection.TypeComparedWithOuterSlot | connection.c:215-236 | the type test compares slot i's type with the minimiser's: a file transfer with less progress is dropped before a listing of the same peer |
| Connection.CountOfFour | connection.c:198-205 | the group size in a table of four, slot by slot |
| Connection.LowestStateEvictedFirst | connection.c:186-256 | in the larger group the connection still receiving its header is the candidate, not the listing |
| Connection.FirstVacant | connection.c:267-275 | the first slot from i on with descriptor 0, all slots before it occupied |
| Connection.AcceptSlot | connection.c:267-283 | the slot accept_con fills is an index of the table |
| Connection.AcceptedView | connection.c:276-287 | zeroing an evicted slot and then accepting into it is the same as accepting into the evicted slot |
| Connection.VacantBeforeEviction | connection.c:267-283 | a vacant slot is always preferred: the chosen slot has descriptor 0 and is at or before any vacant slot |
| Connection.Conn.constructor | connection.h:7-14 | a new slot is valid and zeroed |
| Connection.Conn.Reset | connection.c:51-60 | reset_con zeroes the whole slot |
| Connection.Conn.Drop | connection.c:279-281 | the eviction sets status 0 and then zeroes the slot |
| Connection.Conn.Serve | connection.c:62-170 | serve_con on the slot's fields and buffer does what Served says |
| Connection.Conn.ReceiveStep | connection.c:78-100 | the receive branch does what Receiving says |
| Connection.HeaderString | util.h:9-12 | the text parse_header_http reads from the buffer is NUL-free; it is the header's C string whenever the header is shorter than BUFFER_SIZE or holds a NUL |
| Connection.OverlongHeaderRejected | connection.c:93 | a complete header of exactly BUFFER_SIZE bytes with no NUL is read on into the bytes 0xFE 0x1F of the buffer's length field (BUFFER_SIZE - 2) and is never accepted: the parse returns an error status |
| Connection.Conn.ParseAndRespond | connection.c:92-100 | parses the C string at buf.data, read on into buf.length when no NUL ends it, and responds as ReceivedComplete states |
| Connection.Conn.Respond | connection.c:101-115 | the `response:` label does what Responding says |
| Connection.Conn.SendHeaderStep | connection.c:116-129 | the header branch does what SendingHeader says |
| Connection.Conn.BodyStep | connection.c:130-162 | the body branch does what SendingBody says |
| Connection.ScanStep | connection.c:198-248 | one inner-loop step advances the minimiser and the count as their specifications say |
| Connection.NewConns | connection.h:7-14 | n fresh, zeroed, pairwise distinct slots |
| Connection.ConnTable.constructor | connection.h:7-14 | a table of n zeroed slots |
| Connection.ConnTable.GetDropCandidate | connection.c:172-259 | the two nested loops return DropCandidate of the slots' contents |
| Connection.ConnTable.ScanGroup | connection.c:196-248 | the inner loop returns the group minimiser and the group size |
| Connection.ConnTable.Visit | connection.c:200-247 | one inner-loop body: same-address test and the new minimiser |
| Connection.ConnTable.ResetCon | connection.c:51-60 | NULL does nothing; a slot is zeroed and no other slot changes |
| Connection.ConnTable.ServeCon | connection.c:62-170 | serving slot k changes only slot k, as Served says |
| Connection.ConnTable.AcceptCon | connection.c:261-308 | the lowest vacant slot, else the drop candidate after a reset, receives accept's result; NULL on a failed accept or unblock |
| Connection.ConnTable.FindVacant | connection.c:267-275 | the scan finds FirstVacant of the table |
| Connection.ConnTable.Evict | connection.c:276-282 | a full table zeroes exactly the drop candidate |
| Connection.ConnTable.Admit | connection.c:284-298 | accept's result becomes the descriptor; only a success writes the peer address |
| QueueSelect.FirstFd | queue_select.c:167-178 | the loop of queue_mod_fd stops at the first active entry for fd, every entry before it has another descriptor |
| QueueSelect.ReadyEvents | queue_select.c:293-314 | the event scan with the room checked before each write never reports more events than the array holds |
| QueueSelect.SearchAppend | queue_select.c:334-344 | a lookup over the entries with one more at the end finds the earlier answer, else the new entry when it matches |
| QueueSelect.SearchFirstFd | queue_select.c:334-344 | queue_event_get_data returns the data of the first entry for the descriptor when that entry has the type asked for |
| QueueSelect.SearchKeep | queue_select.c:214-223 | dropping the entries of fd forgets fd and no other descriptor |
| QueueSelect.CreatedIndex | queue_select.c:58-81 | queue_create hands out queue num_queues with empty sets, no entries and maximum -1; with all MAX_QUEUES created it returns MAX_QUEUES - 1 and changes nothing |
| QueueSelect.AddThenData | queue_select.c:83-133 | queue_add_fd fails (-1, nothing changed) exactly for an unknown or full queue; on success fd is in the set of its type, the maximum covers fd, and a lookup of the new event finds the new data unless an earlier entry answers it, every other lookup unchanged |
| QueueSelect.ModThenData | queue_select.c:135-184 | after queue_mod_fd on a descriptor with an active entry, an event of the new type finds the new data |
| QueueSelect.ModInterest | queue_select.c:147-165 | OUT leaves fd in the write set; IN moves fd to the read set only when it is not in the write set, else changes nothing; only fd's membership changes |
| QueueSelect.RemovedKeepsEntries | queue_select.c:186-226 | queue_rem_fd fails exactly for an unknown queue or a descriptor outside 0..maximum; on success fd leaves both sets, num_fds drops by one and every entry stays in place |
| QueueSelect.RemoveHidesLastEntry | queue_select.c:214-223 | with entries for a then b, removing a leaves a's data reachable and makes b's unreachable |
| QueueSelect.CompactingForgetsOnlyRemoved | queue_select.c:209-225 | the intended removal: no event of fd finds data afterwards, every other lookup is unchanged, fd is in neither set |
| QueueSelect.ReadyEventsUnfold | queue_select.c:295-312 | one descriptor of the scan: its read event, its write event if room is left, then the rest |
| QueueSelect.ScanSound | queue_select.c:295-312 | every reported event is for this queue, a descriptor in range, and a ready set that holds it |
| QueueSelect.ScanOrdered | queue_select.c:295-312 | events come in ascending descriptor order, read before write, with no repeats |
| QueueSelect.ScanAbove | queue_select.c:295-312 | a scan starting at fd reports only descriptors from fd on |
| QueueSelect.OneDescriptorOrdered | queue_select.c:297-311 | the events of one descriptor are in order and carry that descriptor |
| QueueSelect.OrderedConcat | queue_select.c:295-312 | ordered events of one descriptor followed by ordered events of higher descriptors are in order |
| QueueSelect.ScanComplete | queue_select.c:295-312 | a scan that did not fill the array reported every ready descriptor in range, both ways |
| QueueSelect.ScanAgreesWithRoom | queue_select.c:295-312 | with room for two events per descriptor the scan as written and the corrected scan agree |
| QueueSelect.ScanAsWrittenBound | queue_select.c:295-312 | as written the scan can report at most one event more than event_len |
| QueueSelect.ScanOverrunsBuffer | queue_select.c:295-312 | one place left and a descriptor ready both ways: as written two events are written, the corrected scan writes one |
| QueueSelect.ReadyEventsStep | queue_select.c:295-312 | the loop's running prefix plus one descriptor's events plus the rest is still the whole scan |
| QueueSelect.Emit | queue_select.c:297-311 | one loop body appends the descriptor's read event and, while room is left, its write event, leaving the rest of the array alone |
| QueueSelect.ScanInto | queue_select.c:293-314 | the loop writes exactly ReadyEvents into the front of the array and leaves the rest alone |
| QueueSelect.Queues.Row | queue_select.c:27 | row q of fd_array holds MAX_FD_PER_QUEUE entries |
| QueueSelect.Queues.Queue | queue_select.c:13-27 | a queue's sets, count, maximum and row form a well-formed view |
| QueueSelect.Queues.State | queue_select.c:13-29 | the static arrays form a well-formed registry whose queue q is Queue(q) |
| QueueSelect.Queues.constructor | queue_select.c:13-29 | zero-initialised storage with no queues |
| QueueSelect.Queues.Create | queue_select.c:58-81 | queue_create changes the storage as Created says and returns its index |
| QueueSelect.Queues.AddFd | queue_select.c:83-133 | queue_add_fd changes the storage as Added says and returns its result |
| QueueSelect.Queues.ModFd | queue_select.c:135-184 | queue_mod_fd changes the storage as Modified says and returns its result |
| QueueSelect.Queues.ModEntry | queue_select.c:167-178 | the first active entry for fd gets the new type and data; no other row changes |
| QueueSelect.Queues.FindFd | queue_select.c:167-178 | the loop finds FirstFd of the active entries |
| QueueSelect.Queues.RemFd | queue_select.c:186-226 | queue_rem_fd changes the storage as Removed says and returns its result |
| QueueSelect.Queues.EventGetData | queue_select.c:329-345 | queue_event_get_data returns DataOf the registry for the event |
| QueueSelect.Queues.Wait | queue_select.c:240-315 | the corrected scan of the first Findings row: an unknown queue gives -1 and changes nothing; otherwise the first n events are ReadyEvents of the ready sets (which lie within the queue's interest sets), the rest of the array is untouched, and every reported event is for this queue and a descriptor up to its maximum that the queue watches in that direction |

## Left out

- srv.c (the worker threads and their event loop), queue_epoll.c and main.c are not part of this model. They are concurrency, OS setup and dispatch around the modelled core.
- Logging is not modelled: `log_con`, `log_info`, `log_warn` and `log_fd_set`. The status 0 that accept_con writes before logging an eviction is kept.
- `reset_con`'s `shutdown` and `close` are not modelled. Only the zeroing of the slot is (`Connection.Conn.Reset`).
- `unblock_socket` (fcntl) enters `Connection.ConnTable.AcceptCon` only as its outcome, the flag `unblocked`.
- `accept` enters as its result (`accepted`) and the peer address. A descriptor of 0 from accept would make the slot look vacant again; the model reproduces this but states nothing about it.
- The start of `prepare_resp_http` (http.c:648-788) enters as `Connection.Env.prepare`: path normalisation, stat, index lookup and the If-Modified-Since test. Only its header-field tail (http.c:789-873) is modelled, in `HttpResponse`. Its `stat`, `access` and time-stamp results are inputs.
- `get_time_stamp` and the `strptime`/`timegm`/`difftime` comparison are not modelled. The time stamp is an optional string input, and one value serves both header attempts of a `serve_con` call.
- `vsnprintf`/`snprintf` formatting is not modelled: formatted text is given as a `string`, and the negative return of `vsnprintf` (an output error) is not modelled.
- `scandir`, `fopen`, `fseek` and `fread` are inputs: the sorted entry list and the file bytes, each an `Option` whose `None` is the failure.
- A zero-byte `write` is not modelled. `errno` is not modelled, so a write result is either bytes transferred, would-block, or failure.
- `pselect` and the retry loop of `queue_wait` are not modelled. The ready sets it reports are parameters of `QueueSelect.Queues.Wait`.
- Other parts of queue_select.c are not modelled: `isFdOpen`, the `assert(isFdOpen(fd))` at the end of `queue_mod_fd`, `remove_closed_fds`, `queue_event_is_error`, the empty `reset_queue_on_ddos` and the mutex of `queue_create`.
- FD_SETSIZE is not modelled: the interest sets are unbounded sets of integers, so a descriptor beyond FD_SETSIZE is not an out-of-range FD_SET.
- The `shared` flag of `queue_add_fd` and the `ptr` field of the event structure are not modelled; `void *` data values are integers, with 0 as NULL.
- `enc_str` (http.c:397-415) is never called and is not modelled.
- `inet_ntop` is not modelled: `MySock.GetSocketInaddr` takes its outcome as an input.
- The MIME table of configuration.h is a lookup function, not data.
- QueueSelect.Queues.AddFd: requires that an existing queue's num_fds is not negative. After more removals than additions the source would store at `fd_array[qfd][-1]`, outside the array.
- QueueSelect.Queues.EventGetData: requires the event's queue index to lie in 0..MAX_QUEUES-1. The source indexes `num_fds` and `fd_array` with it unchecked.
- BodyBuffer.HtmlEscape: requires `dst_siz` of at least 6. Every caller passes PATH_MAX or more; below 6 the unsigned `dst_siz - esclen` wraps and the copy overruns `dst`.
- BodyBuffer.PutEscape: requires `dst_siz` of at least 6, for the same reason as HtmlEscape.
- QueueSelect.Queues.RemFd: models the removal as written. The compacting removal the comment at queue_select.c:213 describes is `QueueSelect.RemovedCompacting`, a function only.

## Findings

| source | as written | input that shows it | evidently intended | confidence | as-written member | corrected member |
|---|---|---|---|---|---|---|
| queue_select.c:295-312 | the loop tests `events_found < event_len` once per descriptor, so after the IN event takes the last place the OUT event of the same descriptor is written at `events[event_len]` | `event_len` 1, one descriptor ready for reading and writing | test the room before each event, never writing more than `event_len` events | not executed | QueueSelect.ScanOverrunsBuffer | QueueSelect.Queues.Wait |
| queue_select.c:214-223 | the `memset` writes nothing and `num_fds` drops by one, so the last registration falls out of the searched range while the removed one stays searchable | entries for descriptors a then b; remove a; `queue_event_get_data` for b gives NULL and for a still gives a's data | remove fd's entries and close the gap, as the comment on the loop says | not executed | QueueSelect.RemoveHidesLastEntry | QueueSelect.CompactingForgetsOnlyRemoved |
