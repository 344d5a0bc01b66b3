/**
 * Request and response records, the status table, response-header
 * serialisation and the bounded receive/send loops of http.c.
 */
module Http {
  import opened Util

  const STATUS_OK: int := 200
  const STATUS_NOT_MODIFIED: int := 304
  const STATUS_FORBIDDEN: int := 403
  const STATUS_NOT_FOUND: int := 404
  const STATUS_METHOD_NOT_ALLOWED: int := 405
  const STATUS_INTERNAL_SERVER_ERROR: int := 500

  datatype Method = GET | HEAD

  function MethodName(m: Method): string
  {
    match m
    case GET => "GET"
    case HEAD => "HEAD"
  }

  // enum req_field
  const REQ_HOST: nat := 0
  const REQ_RANGE: nat := 1
  const REQ_IF_MODIFIED_SINCE: nat := 2
  const NUM_REQ_FIELDS: nat := 3
  const ReqFieldStr: seq<string> := ["Host", "Range", "If-Modified-Since"]

  type ReqFields = f: seq<string> | |f| == NUM_REQ_FIELDS witness ["", "", ""]

  /** struct req_t; every text is the C string held in the corresponding array. */
  datatype Request = Request(meth: Method, path: string, query: string, fragment: string, fields: ReqFields)

  /** The request memset to zero: method GET (0), every text empty. */
  const ZeroRequest: Request := Request(GET, "", "", "", ["", "", ""])

  /** enum res_type, in its declared order DIRLISTING < ERROR < FILE. */
  datatype ResType = DIRLISTING | ERROR | FILE

  function TypeRank(t: ResType): nat
  {
    match t
    case DIRLISTING => 0
    case ERROR => 1
    case FILE => 2
  }

  // enum response_field
  const RES_ACCEPT_RANGES: nat := 0
  const RES_ALLOW: nat := 1
  const RES_LOCATION: nat := 2
  const RES_LAST_MODIFIED: nat := 3
  const RES_CONTENT_LENGTH: nat := 4
  const RES_CONTENT_RANGE: nat := 5
  const RES_CONTENT_TYPE: nat := 6
  const NUM_RES_FIELDS: nat := 7
  const ResFieldStr: seq<string> :=
    ["Accept-Ranges", "Allow", "Location", "Last-Modified", "Content-Length", "Content-Range", "Content-Type"]

  type ResFields = f: seq<string> | |f| == NUM_RES_FIELDS witness ["", "", "", "", "", "", ""]

  const NoFields: ResFields := ["", "", "", "", "", "", ""]

  /** struct resp_t (without the unused virtual-host pointer). */
  datatype Response = Response(status: int, path: string, internalPath: string,
                               lower: nat, upper: nat, rtype: ResType, fields: ResFields)

  /** The response memset to zero: status 0, type DIRLISTING (0), every text empty. */
  const ZeroResponse: Response := Response(0, "", "", 0, 0, DIRLISTING, NoFields)

  /**
   * status_str: the designated initialiser gives index 405 first
   * "Method Not Allowed" and then "Not Modified", so the later one stays;
   * 304 has no entry (NULL).
   */
  function StatusStr(s: int): Option<string>
  {
    if s == STATUS_OK then Some("OK")
    else if s == STATUS_FORBIDDEN then Some("Forbidden")
    else if s == STATUS_NOT_FOUND then Some("Not Found")
    else if s == STATUS_METHOD_NOT_ALLOWED then Some("Not Modified")
    else if s == STATUS_INTERNAL_SERVER_ERROR then Some("Internal Server Error")
    else None
  }

  /** What "%s" prints for status_str[s]: glibc prints a NULL string as "(null)". */
  function StatusText(s: int): (r: string)
    ensures r == "(null)" <==> StatusStr(s).None?
  {
    match StatusStr(s)
    case Some(t) => t
    case None => "(null)"
  }

  /** "%d" of an int. */
  function IntToString(i: int): (r: string)
    ensures |r| >= 1
    ensures i >= 0 ==> (forall k :: 0 <= k < |r| ==> IsDigit(r[k])) && DigitsValue(r) == i
    ensures i < 0 ==> r[0] == '-'
  {
    if i < 0 then "-" + NatToString(-i)
    else NatToStringValue(i); NatToString(i)
  }

  /** The reason phrases of the status table, with its two quirks. */
  lemma StatusTextQuirks()
    ensures StatusText(STATUS_METHOD_NOT_ALLOWED) == "Not Modified"
    ensures StatusText(STATUS_NOT_MODIFIED) == "(null)"
    ensures StatusText(STATUS_OK) == "OK"
    ensures StatusText(STATUS_INTERNAL_SERVER_ERROR) == "Internal Server Error"
  {
  }

  // ---------------------------------------------------------------------
  // prep_header_buf_http

  /** The status line plus the Date and Connection lines. */
  function StatusLines(status: int, date: string): string
  {
    "HTTP/1.1 " + IntToString(status) + " " + StatusText(status) + "\r\nDate: " + date + "\r\nConnection: close\r\n"
  }

  /** The header line of field k, or nothing when its value is empty. */
  function FieldLine(f: ResFields, k: nat): string
    requires k < NUM_RES_FIELDS
  {
    if f[k] == "" then "" else ResFieldStr[k] + ": " + f[k] + "\r\n"
  }

  /** The lines of the first n fields, in enum order. */
  function FieldLines(f: ResFields, n: nat): string
    requires n <= NUM_RES_FIELDS
  {
    if n == 0 then "" else FieldLines(f, n - 1) + FieldLine(f, n - 1)
  }

  /** The complete response header prep_header_buf_http produces. */
  function HeaderText(r: Response, date: string): string
  {
    StatusLines(r.status, date) + FieldLines(r.fields, NUM_RES_FIELDS) + "\r\n"
  }

  lemma FieldLinesStep(pre: string, f: ResFields, i: nat)
    requires i < NUM_RES_FIELDS
    ensures pre + FieldLines(f, i + 1) == pre + FieldLines(f, i) + FieldLine(f, i)
  {
    var a := FieldLines(f, i);
    var b := FieldLine(f, i);
    assert FieldLines(f, i + 1) == a + b;
    assert pre + (a + b) == pre + a + b;
  }

  lemma {:induction false} FieldLinesGrow(f: ResFields, m: nat, n: nat)
    requires m <= n <= NUM_RES_FIELDS
    ensures |FieldLines(f, m)| <= |FieldLines(f, n)|
    decreases n - m
  {
    if m < n {
      FieldLinesGrow(f, m, n - 1);
    }
  }

  /** The field lines are empty or end in CRLF. */
  lemma {:induction false} FieldLinesEnd(f: ResFields, n: nat)
    requires n <= NUM_RES_FIELDS
    ensures var t := FieldLines(f, n); t == "" || (|t| >= 2 && t[|t| - 2] == '\r' && t[|t| - 1] == '\n')
  {
    if n > 0 {
      FieldLinesEnd(f, n - 1);
      var a, b := FieldLines(f, n - 1), FieldLine(f, n - 1);
      assert FieldLines(f, n) == a + b;
    }
  }

  /**
   * The header starts with the status line and ends in an empty line, which
   * is the terminator receive_header_http looks for on the other side.
   */
  lemma HeaderShape(r: Response, date: string)
    ensures var h := HeaderText(r, date);
      |h| >= 9 && h[..9] == "HTTP/1.1 " && EndsWithBlankLine(h)
  {
    var s := StatusLines(r.status, date);
    assert s[..9] == "HTTP/1.1 ";
    assert s[|s| - 2] == '\r' && s[|s| - 1] == '\n';
    FieldLinesEnd(r.fields, NUM_RES_FIELDS);
    ClosedByBlankLine(s, FieldLines(r.fields, NUM_RES_FIELDS));
  }

  /** Lines ending in CRLF, then an empty line, end in CRLF CRLF and keep their start. */
  lemma ClosedByBlankLine(s: string, fl: string)
    requires |s| >= 9 && s[|s| - 2] == '\r' && s[|s| - 1] == '\n'
    requires fl == "" || (|fl| >= 2 && fl[|fl| - 2] == '\r' && fl[|fl| - 1] == '\n')
    ensures var h := s + fl + "\r\n"; h[..9] == s[..9] && EndsWithBlankLine(h)
  {
    var body := s + fl;
    assert body[|body| - 2] == '\r' && body[|body| - 1] == '\n';
  }

  /** A 405 error response carries the field value "Allow: GET, HEAD", so its header line repeats the name. */
  lemma AllowLineRepeatsName()
    ensures FieldLine(PrepareErrResponse(STATUS_METHOD_NOT_ALLOWED).fields, RES_ALLOW) == "Allow: Allow: GET, HEAD\r\n"
  {
  }

  /**
   * prep_header_buf_http: clear the buffer and append the status lines, each
   * non-empty field and the closing CRLF; the time stamp (None when
   * get_time_stamp fails) is a parameter. Any failed append clears the
   * buffer and yields 500.
   */
  method PrepHeaderBuf(r: Response, date: Option<string>, buf: Buffer) returns (status: int)
    requires buf.Valid()
    modifies buf, buf.data
    ensures buf.Valid()
    ensures status == 0 || status == STATUS_INTERNAL_SERVER_ERROR
    ensures status == 0 <==> date.Some? && |HeaderText(r, date.value)| < BUFFER_SIZE
    ensures status == 0 ==> buf.Contents() == HeaderText(r, date.value)
    ensures status != 0 ==> buf.Zeroed()
  {
    buf.Zero();
    if date.None? {
      return STATUS_INTERNAL_SERVER_ERROR;
    }
    var d := date.value;
    var pre := StatusLines(r.status, d);
    ghost var fl := FieldLines(r.fields, NUM_RES_FIELDS);
    ghost var h := HeaderText(r, d);
    assert h == pre + fl + "\r\n" && |h| == |pre| + |fl| + 2;
    var e := buf.Append(pre);
    if e != 0 {
      buf.Zero();
      return STATUS_INTERNAL_SERVER_ERROR;
    }
    assert buf.Contents() == pre && buf.length < BUFFER_SIZE;
    e := AppendFieldLines(r.fields, buf);
    if e != 0 {
      buf.Zero();
      return STATUS_INTERNAL_SERVER_ERROR;
    }
    assert buf.Contents() == pre + fl;
    e := buf.Append("\r\n");
    if e != 0 {
      buf.Zero();
      return STATUS_INTERNAL_SERVER_ERROR;
    }
    return 0;
  }

  /** The field loop of prep_header_buf_http: one append per non-empty field. */
  method AppendFieldLines(f: ResFields, buf: Buffer) returns (e: int)
    requires buf.Valid() && buf.length < BUFFER_SIZE
    modifies buf, buf.data
    ensures buf.Valid()
    ensures e == 0 <==> |old(buf.Contents()) + FieldLines(f, NUM_RES_FIELDS)| < BUFFER_SIZE
    ensures e == 0 ==> buf.Contents() == old(buf.Contents()) + FieldLines(f, NUM_RES_FIELDS)
  {
    ghost var pre := buf.Contents();
    var i := 0;
    while i < NUM_RES_FIELDS
      invariant 0 <= i <= NUM_RES_FIELDS
      invariant buf.Valid() && buf.length < BUFFER_SIZE
      invariant buf.Contents() == pre + FieldLines(f, i)
    {
      ghost var before := buf.Contents();
      if f[i] != "" {
        e := buf.Append(ResFieldStr[i] + ": " + f[i] + "\r\n");
        if e != 0 {
          FieldLinesGrow(f, i + 1, NUM_RES_FIELDS);
          return 1;
        }
      }
      assert buf.Contents() == before + FieldLine(f, i);
      FieldLinesStep(pre, f, i);
      i := i + 1;
    }
    return 0;
  }

  // ---------------------------------------------------------------------
  // prepare_err_resp_http

  const HTML_TYPE: string := "text/html; charset=utf-8"

  /**
   * prepare_err_resp_http: a zeroed response of type ERROR with status s,
   * Content-Type text/html and, for 405, the Allow field (whose value
   * already starts with "Allow: "). Both texts fit their fields, so the
   * status is never replaced by 500.
   */
  function PrepareErrResponse(s: int): (r: Response)
    ensures r.rtype == ERROR && r.status == s
    ensures r.fields[RES_CONTENT_TYPE] == HTML_TYPE
    ensures r.fields[RES_ALLOW] == (if s == STATUS_METHOD_NOT_ALLOWED then "Allow: GET, HEAD" else "")
    ensures forall k :: 0 <= k < NUM_RES_FIELDS && k != RES_CONTENT_TYPE && k != RES_ALLOW ==> r.fields[k] == ""
    ensures r.path == "" && r.internalPath == "" && r.lower == 0 && r.upper == 0
  {
    var ct := Esnprintf(FIELD_MAX, HTML_TYPE);
    var s1 := if ct.failed then STATUS_INTERNAL_SERVER_ERROR else s;
    var allow := Esnprintf(FIELD_MAX, "Allow: GET, HEAD");
    var s2 := if s1 == STATUS_METHOD_NOT_ALLOWED && allow.failed then STATUS_INTERNAL_SERVER_ERROR else s1;
    var allowField := if s1 == STATUS_METHOD_NOT_ALLOWED then allow.text else "";
    Response(s2, "", "", 0, 0, ERROR, NoFields[RES_CONTENT_TYPE := ct.text][RES_ALLOW := allowField])
  }

  // ---------------------------------------------------------------------
  // receive_header_http

  /** The outcome of one read(2) call: bytes (none for EOF), would-block, or another error. */
  datatype ReadResult = Bytes(data: seq<char>) | ReadBlocked | ReadFailed

  /** Where receive_header_http leaves a connection's header bytes. */
  datatype RecvOutcome = RecvBlocked(held: seq<char>) | RecvComplete(held: seq<char>) | RecvFailed

  predicate EndsWithBlankLine(h: seq<char>)
  {
    |h| >= 4 && h[|h| - 4] == '\r' && h[|h| - 3] == '\n' && h[|h| - 2] == '\r' && h[|h| - 1] == '\n'
  }

  function Min(a: nat, b: nat): nat { if a < b then a else b }

  /**
   * The receive loop over the script of read results (an exhausted script
   * would block). Each read asks for the room left, so it returns at most
   * that many bytes.
   */
  function Receive(held: seq<char>, script: seq<ReadResult>): RecvOutcome
    requires |held| <= BUFFER_SIZE
    decreases |script|
  {
    if script == [] then RecvBlocked(held)
    else match script[0]
      case ReadBlocked => RecvBlocked(held)
      case ReadFailed => RecvFailed
      case Bytes(b) =>
        var got := b[..Min(|b|, BUFFER_SIZE - |held|)];
        if got == [] then RecvFailed
        else
          var h := held + got;
          if EndsWithBlankLine(h) then RecvComplete(h)
          else if |h| == BUFFER_SIZE then RecvFailed
          else Receive(h, script[1..])
  }

  /**
   * The receive loop only grows the held bytes; it completes only on bytes
   * ending in CRLF CRLF, and a partial header is kept below capacity.
   */
  lemma {:induction false} ReceiveKeeps(held: seq<char>, script: seq<ReadResult>)
    requires |held| <= BUFFER_SIZE
    requires !EndsWithBlankLine(held)
    ensures Receive(held, script).RecvComplete? ==>
      var h := Receive(held, script).held;
      held < h && EndsWithBlankLine(h) && |h| <= BUFFER_SIZE
    ensures Receive(held, script).RecvBlocked? ==>
      var h := Receive(held, script).held;
      held <= h && !EndsWithBlankLine(h) && (|held| < BUFFER_SIZE ==> |h| < BUFFER_SIZE)
    decreases |script|
  {
    if script != [] && script[0].Bytes? {
      var b := script[0].data;
      var got := b[..Min(|b|, BUFFER_SIZE - |held|)];
      var h := held + got;
      if got != [] && !EndsWithBlankLine(h) && |h| < BUFFER_SIZE {
        ReceiveKeeps(h, script[1..]);
      }
    }
  }

  /**
   * A header that arrives in chunks, with no earlier point where the bytes
   * so far end in CRLF CRLF or fill the buffer, is received completely.
   */
  lemma {:induction false} ReceiveChunks(held: seq<char>, chunks: seq<seq<char>>, script: seq<ReadResult>)
    requires |chunks| == |script| >= 1
    requires forall k :: 0 <= k < |script| ==> script[k] == Bytes(chunks[k]) && chunks[k] != []
    requires |held| + |Concat(chunks)| <= BUFFER_SIZE
    requires EndsWithBlankLine(held + Concat(chunks))
    requires EarlierPartial(held, chunks)
    ensures Receive(held, script) == RecvComplete(held + Concat(chunks))
    decreases |script|
  {
    var c := chunks[0];
    assert Concat(chunks) == c + Concat(chunks[1..]);
    ReceiveStep(held, c, script);
    if |chunks| == 1 {
      assert Concat(chunks) == c;
    } else {
      assert held + c + Concat(chunks[1..]) == held + Concat(chunks);
      ReceiveChunks(held + c, chunks[1..], script[1..]);
    }
  }

  /** Bytes received so far that neither end the header nor fill the buffer. */
  predicate PartialHeader(h: seq<char>)
  {
    !EndsWithBlankLine(h) && |h| < BUFFER_SIZE
  }

  /** Every chunk but the last leaves a partial header behind. */
  predicate EarlierPartial(held: seq<char>, chunks: seq<seq<char>>)
    decreases |chunks|
  {
    |chunks| <= 1 || (PartialHeader(held + chunks[0]) && EarlierPartial(held + chunks[0], chunks[1..]))
  }

  /** One read that delivers a whole non-empty chunk c. */
  lemma ReceiveStep(held: seq<char>, c: seq<char>, script: seq<ReadResult>)
    requires |script| >= 1 && script[0] == Bytes(c) && c != []
    requires |held| + |c| <= BUFFER_SIZE
    ensures EndsWithBlankLine(held + c) ==> Receive(held, script) == RecvComplete(held + c)
    ensures PartialHeader(held + c) ==> Receive(held, script) == Receive(held + c, script[1..])
  {
    assert c[..Min(|c|, BUFFER_SIZE - |held|)] == c;
  }

  /** One read that delivers the non-empty bytes got (what fits of its data). */
  lemma ReceiveBytes(held: seq<char>, script: seq<ReadResult>, got: seq<char>)
    requires |held| <= BUFFER_SIZE && |script| >= 1 && script[0].Bytes?
    requires got == script[0].data[..Min(|script[0].data|, BUFFER_SIZE - |held|)] && got != []
    ensures |held + got| <= BUFFER_SIZE
    ensures Receive(held, script) ==
      if EndsWithBlankLine(held + got) then RecvComplete(held + got)
      else if |held + got| == BUFFER_SIZE then RecvFailed
      else Receive(held + got, script[1..])
  {
  }

  function Concat(cs: seq<seq<char>>): seq<char>
  {
    if cs == [] then [] else cs[0] + Concat(cs[1..])
  }

  /**
   * receive_header_http: read into the buffer until it ends in CRLF CRLF
   * (done, and the length drops by 2 while the bytes stay in the array), until a read
   * would block (partial bytes kept), or until EOF, an error or a full
   * buffer without the terminator (500, buffer zeroed).
   */
  method ReceiveHeader(buf: Buffer, script: seq<ReadResult>) returns (status: int, done: bool)
    requires buf.Valid()
    modifies buf, buf.data
    ensures buf.Valid()
    ensures match Receive(old(buf.Contents()), script)
      case RecvBlocked(h) => status == 0 && !done && buf.Contents() == h &&
        forall k :: |h| <= k < BUFFER_SIZE ==> buf.data[k] == old(buf.data[k])
      case RecvComplete(h) => status == 0 && done && |h| <= BUFFER_SIZE && buf.length == |h| - 2 &&
        buf.data[..|h|] == h && forall k :: |h| <= k < BUFFER_SIZE ==> buf.data[k] == old(buf.data[k])
      case RecvFailed => status == STATUS_INTERNAL_SERVER_ERROR && !done && buf.Zeroed()
  {
    ghost var d0 := buf.data[..];
    ghost var goal := Receive(buf.Contents(), script);
    var i := 0;
    while true
      invariant 0 <= i <= |script|
      invariant buf.Valid()
      invariant Receive(buf.Contents(), script[i..]) == goal
      invariant forall k :: buf.length <= k < BUFFER_SIZE ==> buf.data[k] == d0[k]
      decreases |script| - i
    {
      ghost var held := buf.Contents();
      if i == |script| || script[i].ReadBlocked? {
        assert goal == RecvBlocked(held);
        return 0, false;
      }
      if script[i].ReadFailed? {
        assert goal == RecvFailed;
        buf.Zero();
        return STATUS_INTERNAL_SERVER_ERROR, false;
      }
      var b := script[i].data;
      var got := b[..Min(|b|, BUFFER_SIZE - buf.length)];
      if got == [] {
        assert goal == RecvFailed;
        buf.Zero();
        return STATUS_INTERNAL_SERVER_ERROR, false;
      }
      ReceiveBytes(held, script[i..], got);
      var more;
      status, done, more := TakeBytes(buf, got);
      if !more {
        return;
      }
      assert script[i..][1..] == script[i + 1..];
      i := i + 1;
    }
  }

  /**
   * One successful read inside receive_header_http: store the bytes, then
   * finish on CRLF CRLF (the length drops by 2), fail on a full buffer, or
   * ask for more.
   */
  method TakeBytes(buf: Buffer, got: seq<char>) returns (status: int, done: bool, more: bool)
    requires buf.Valid() && buf.length + |got| <= BUFFER_SIZE
    modifies buf, buf.data
    ensures buf.Valid()
    ensures var h := old(buf.Contents()) + got;
      if EndsWithBlankLine(h) then
        status == 0 && done && !more && buf.length == |h| - 2 && buf.data[..|h|] == h &&
        forall k :: |h| <= k < BUFFER_SIZE ==> buf.data[k] == old(buf.data[k])
      else if |h| == BUFFER_SIZE then
        status == STATUS_INTERNAL_SERVER_ERROR && !done && !more && buf.Zeroed()
      else
        status == 0 && !done && more && buf.Contents() == h &&
        forall k :: |h| <= k < BUFFER_SIZE ==> buf.data[k] == old(buf.data[k])
  {
    ghost var h := buf.Contents() + got;
    buf.Put(got);
    var len := buf.length;
    assert buf.data[..len] == h;
    if len >= 4 && buf.data[len - 4] == '\r' && buf.data[len - 3] == '\n' && buf.data[len - 2] == '\r' && buf.data[len - 1] == '\n' {
      buf.length := len - 2;
      return 0, true, false;
    }
    if len == BUFFER_SIZE {
      buf.Zero();
      return STATUS_INTERNAL_SERVER_ERROR, false, false;
    }
    return 0, false, true;
  }

  // ---------------------------------------------------------------------
  // send_buffer_http

  /** The outcome of one write(2) call: a byte count, would-block, or another error. */
  datatype WriteResult = Wrote(n: nat) | WriteBlocked | WriteFailed

  /** The status send_buffer_http returns, the bytes written in order, and what stays in the buffer. */
  datatype SendOutcome = SendOutcome(status: int, sent: seq<char>, rest: seq<char>)

  /**
   * The send loop over the script of write results (an exhausted script
   * would block). A write transfers at most the bytes held; a write of
   * nothing counts as a failure.
   */
  function Send(held: seq<char>, wscript: seq<WriteResult>): (o: SendOutcome)
    decreases |wscript|
  {
    if held == [] then SendOutcome(0, [], [])
    else if wscript == [] then SendOutcome(0, [], held)
    else match wscript[0]
      case WriteBlocked => SendOutcome(0, [], held)
      case WriteFailed => SendOutcome(STATUS_INTERNAL_SERVER_ERROR, [], held)
      case Wrote(n) =>
        var r := Min(n, |held|);
        if r == 0 then SendOutcome(STATUS_INTERNAL_SERVER_ERROR, [], held)
        else
          var o := Send(held[r..], wscript[1..]);
          SendOutcome(o.status, held[..r] + o.sent, o.rest)
  }

  /**
   * Each write removes exactly the bytes it transferred from the front: the
   * bytes sent followed by the bytes kept are the original bytes. A status
   * of 0 with bytes kept means a write would block.
   */
  lemma SendSplits(held: seq<char>, wscript: seq<WriteResult>)
    ensures Send(held, wscript).sent + Send(held, wscript).rest == held
    ensures Send(held, wscript).status in {0, STATUS_INTERNAL_SERVER_ERROR}
    ensures Send(held, wscript).status == STATUS_INTERNAL_SERVER_ERROR ==> Send(held, wscript).rest != []
  {
    SendParts(held, wscript);
    SendStatus(held, wscript);
  }

  /** The bytes sent followed by the bytes kept are the original bytes. */
  lemma {:induction false} SendParts(held: seq<char>, wscript: seq<WriteResult>)
    ensures Send(held, wscript).sent + Send(held, wscript).rest == held
    decreases |wscript|
  {
    if held != [] && wscript != [] && wscript[0].Wrote? {
      var r := Min(wscript[0].n, |held|);
      if r > 0 {
        SendParts(held[r..], wscript[1..]);
        var o := Send(held[r..], wscript[1..]);
        SendStep(held, wscript);
        SplitJoin(held, r, o.sent, o.rest);
      }
    }
  }

  /** One write that transfers r > 0 bytes. */
  lemma SendStep(held: seq<char>, wscript: seq<WriteResult>)
    requires held != [] && wscript != [] && wscript[0].Wrote? && Min(wscript[0].n, |held|) > 0
    ensures var r := Min(wscript[0].n, |held|);
      var o := Send(held[r..], wscript[1..]);
      Send(held, wscript) == SendOutcome(o.status, held[..r] + o.sent, o.rest)
  {
  }

  /** Splitting s after r bytes and rejoining the two parts gives s back. */
  lemma SplitJoin(s: seq<char>, r: nat, a: seq<char>, b: seq<char>)
    requires r <= |s| && a + b == s[r..]
    ensures s[..r] + a + b == s
  {
    assert s[..r] + a + b == s[..r] + (a + b);
    assert s[..r] + s[r..] == s;
  }

  /** The send loop returns 0 or 500, and 500 always leaves bytes behind. */
  lemma {:induction false} SendStatus(held: seq<char>, wscript: seq<WriteResult>)
    ensures Send(held, wscript).status == 0 || Send(held, wscript).status == STATUS_INTERNAL_SERVER_ERROR
    ensures Send(held, wscript).status == STATUS_INTERNAL_SERVER_ERROR ==> Send(held, wscript).rest != []
    decreases |wscript|
  {
    if held != [] && wscript != [] && wscript[0].Wrote? {
      var r := Min(wscript[0].n, |held|);
      if r > 0 {
        SendStatus(held[r..], wscript[1..]);
      }
    }
  }

  /** Enough successful wscript drain the buffer completely. */
  lemma {:induction false} SendDrains(held: seq<char>, wscript: seq<WriteResult>)
    requires forall k :: 0 <= k < |wscript| ==> wscript[k].Wrote? && wscript[k].n > 0
    requires |held| <= TotalWritten(wscript)
    ensures Send(held, wscript) == SendOutcome(0, held, [])
    decreases |wscript|
  {
    if held != [] {
      var r := Min(wscript[0].n, |held|);
      SendDrains(held[r..], wscript[1..]);
      assert held[..r] + held[r..] == held;
    }
  }

  function TotalWritten(wscript: seq<WriteResult>): nat
  {
    if wscript == [] then 0
    else (if wscript[0].Wrote? then wscript[0].n else 0) + TotalWritten(wscript[1..])
  }

  /**
   * send_buffer_http: write the buffer until it is empty; each write
   * shifts the remaining bytes to the front. Would-block returns 0 with the
   * rest kept; any other failure returns 500.
   */
  method SendBuffer(buf: Buffer, wscript: seq<WriteResult>) returns (status: int)
    requires buf.Valid()
    modifies buf, buf.data
    ensures buf.Valid()
    ensures status == Send(old(buf.Contents()), wscript).status
    ensures buf.Contents() == Send(old(buf.Contents()), wscript).rest
  {
    ghost var goal := Send(buf.Contents(), wscript);
    ghost var sent: seq<char> := [];
    var i := 0;
    while buf.length > 0
      invariant 0 <= i <= |wscript|
      invariant buf.Valid()
      invariant Send(buf.Contents(), wscript[i..]).status == goal.status
      invariant Send(buf.Contents(), wscript[i..]).rest == goal.rest
      decreases |wscript| - i
    {
      if i == |wscript| || wscript[i].WriteBlocked? {
        return 0;
      }
      if wscript[i].WriteFailed? {
        return STATUS_INTERNAL_SERVER_ERROR;
      }
      var r := Min(wscript[i].n, buf.length);
      if r == 0 {
        return STATUS_INTERNAL_SERVER_ERROR;
      }
      buf.Consume(r);
      i := i + 1;
    }
    return 0;
  }
}
