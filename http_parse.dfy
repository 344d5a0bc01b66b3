/**
 * Request parsing of http.c: percent-decoding of the path (decode) and the
 * request-line and header-field parser (parse_header_http).
 *
 * The header is the C string the receive loop left in the buffer, so it is
 * a NUL-free `string`; reading at its length yields the terminating NUL.
 */
module HttpParse {
  import opened Util
  import opened Http

  /** The byte at position i of a C string, NUL at and past its end. */
  function At(h: string, i: nat): char
  {
    if i < |h| then h[i] else '\0'
  }

  /** isprint in the C locale. */
  predicate IsPrint(c: char) { ' ' <= c <= '~' }

  /** isxdigit. */
  predicate IsHex(c: char) { '0' <= c <= '9' || 'a' <= c <= 'f' || 'A' <= c <= 'F' }

  function HexVal(c: char): (v: nat)
    requires IsHex(c)
    ensures v < 16
  {
    if c <= '9' then c as int - '0' as int
    else if c <= 'F' then c as int - 'A' as int + 10
    else c as int - 'a' as int + 10
  }

  /** The byte sscanf("%2hhx") reads from two hex digits. */
  function HexByte(a: char, b: char): (c: char)
    requires IsHex(a) && IsHex(b)
    ensures c as int == 16 * HexVal(a) + HexVal(b)
  {
    (16 * HexVal(a) + HexVal(b)) as char
  }

  // ---------------------------------------------------------------------
  // decode

  /**
   * Percent-decoding as section 2.1 of RFC 3986 describes it: every '%'
   * followed by two hex digits becomes the byte they spell, every other byte
   * is copied. The result is never longer than the input, which is what
   * lets decode run in place.
   */
  function PercentDecode(s: string): (r: string)
    ensures |r| <= |s|
  {
    if s == [] then []
    else if |s| >= 3 && s[0] == '%' && IsHex(s[1]) && IsHex(s[2]) then
      [HexByte(s[1], s[2])] + PercentDecode(s[3..])
    else [s[0]] + PercentDecode(s[1..])
  }

  /** A byte is a char below 256. */
  predicate IsByteString(s: string) { forall k :: 0 <= k < |s| ==> s[k] as int < 256 }

  function HexDigit(d: nat): (c: char)
    requires d < 16
    ensures IsHex(c) && HexVal(c) == d
  {
    if d < 10 then ('0' as int + d) as char else ('A' as int + d - 10) as char
  }

  /** Percent-encoding of every byte, the inverse decode is checked against. */
  function PercentEncode(s: string): (r: string)
    requires IsByteString(s)
    ensures |r| == 3 * |s|
  {
    if s == [] then []
    else ['%', HexDigit(s[0] as int / 16), HexDigit(s[0] as int % 16)] + PercentEncode(s[1..])
  }

  /** Decoding undoes encoding. */
  lemma {:induction false} DecodeEncode(s: string)
    requires IsByteString(s)
    ensures PercentDecode(PercentEncode(s)) == s
  {
    if s != [] {
      var e := PercentEncode(s);
      var hi, lo := HexDigit(s[0] as int / 16), HexDigit(s[0] as int % 16);
      assert e[..3] == ['%', hi, lo] && e[3..] == PercentEncode(s[1..]);
      assert HexByte(hi, lo) == s[0];
      DecodeEncode(s[1..]);
    }
  }

  /** A text without '%' decodes to itself. */
  lemma {:induction false} DecodePlain(s: string)
    requires '%' !in s
    ensures PercentDecode(s) == s
  {
    if s != [] {
      assert '%' !in s[1..];
      DecodePlain(s[1..]);
    }
  }

  /** One step of decoding from position s. */
  lemma DecodeAt(raw: string, s: nat)
    requires s < |raw|
    ensures PercentDecode(raw[s..]) ==
      if s + 2 < |raw| && raw[s] == '%' && IsHex(raw[s + 1]) && IsHex(raw[s + 2])
      then [HexByte(raw[s + 1], raw[s + 2])] + PercentDecode(raw[s + 3..])
      else [raw[s]] + PercentDecode(raw[s + 1..])
  {
    assert raw[s..][1..] == raw[s + 1..];
    if s + 2 < |raw| {
      assert raw[s..][3..] == raw[s + 3..];
    }
  }

  lemma ConcatStep(pre: string, x: char, t: string, whole: string)
    requires pre + ([x] + t) == whole
    ensures (pre + [x]) + t == whole
  {
  }

  /** One turn of the decode loop: write the byte at i for the input at s, which moves on to s'. */
  method DecodeStep(a: array<char>, ghost a0: seq<char>, ghost raw: string, s: nat, i: nat) returns (s': nat)
    requires |a0| == a.Length && |raw| < a.Length && a0[..|raw|] == raw && a0[|raw|] == '\0'
    requires i <= s < |raw|
    requires forall k :: s <= k < a.Length ==> a[k] == a0[k]
    modifies a
    ensures s < s' <= |raw| && i + 1 <= s'
    ensures forall k :: s' <= k < a.Length ==> a[k] == a0[k]
    ensures a[..i + 1] + PercentDecode(raw[s'..]) == old(a[..i]) + PercentDecode(raw[s..])
  {
    ghost var pre := a[..i];
    ghost var tail := PercentDecode(raw[s..]);
    assert a[s] == raw[s];
    DecodeAt(raw, s);
    var x;
    if a[s] == '%' && IsHex(a[s + 1]) && IsHex(a[s + 2]) {
      assert s + 2 < |raw| && raw[s + 1] == a[s + 1] && raw[s + 2] == a[s + 2];
      x, s' := HexByte(a[s + 1], a[s + 2]), s + 3;
    } else {
      assert !(s + 2 < |raw| && raw[s] == '%' && IsHex(raw[s + 1]) && IsHex(raw[s + 2]));
      x, s' := a[s], s + 1;
    }
    assert tail == [x] + PercentDecode(raw[s'..]);
    ConcatStep(pre, x, PercentDecode(raw[s'..]), pre + tail);
    a[i] := x;
    assert a[..i + 1] == pre + [x];
  }

  /**
   * decode(m_path, m_path): the array holds a C string; decoding it in
   * place leaves the decoded bytes followed by a NUL at the front of the
   * array.
   */
  method DecodeInPlace(a: array<char>)
    requires '\0' in a[..]
    modifies a
    ensures var d := PercentDecode(old(CString(a[..])));
      |d| < a.Length && a[..|d|] == d && a[|d|] == '\0'
  {
    ghost var a0 := a[..];
    ghost var raw := CString(a0);
    ghost var n := |raw|;
    assert n < a.Length && a0[n] == '\0';
    var s := 0;
    var i := 0;
    while a[s] != '\0'
      invariant 0 <= i <= s <= n
      invariant forall k :: s <= k < a.Length ==> a[k] == a0[k]
      invariant a[..i] + PercentDecode(raw[s..]) == PercentDecode(raw)
      decreases n - s
    {
      s := DecodeStep(a, a0, raw, s, i);
      i := i + 1;
    }
    assert raw[s..] == [];
    a[i] := '\0';
  }

  // ---------------------------------------------------------------------
  // parse_header_http: the specification

  /** What parse_header_http returns and what it has written into the request by then. */
  datatype Parsed = Parsed(status: int, req: Request)

  /** strncmp(lit, h + p, |lit|) == 0 for a NUL-free lit. */
  predicate HasAt(h: string, p: nat, lit: string)
  {
    p + |lit| <= |h| && h[p..p + |lit|] == lit
  }

  /** ASCII tolower. */
  function ToLower(c: char): char
  {
    if 'A' <= c <= 'Z' then (c as int + 32) as char else c
  }

  /** strncasecmp(h + p, name, |name|) == 0 for a NUL-free name. */
  predicate HasAtIgnoringCase(h: string, p: nat, name: string)
  {
    p + |name| <= |h| && forall k :: 0 <= k < |name| ==> ToLower(h[p + k]) == ToLower(name[k])
  }

  /** The method loop: the first method name the request starts with. */
  function MatchMethod(h: string): (m: Option<Method>)
    ensures m.Some? ==> HasAt(h, 0, MethodName(m.value))
    ensures m.None? <==> !HasAt(h, 0, "GET") && !HasAt(h, 0, "HEAD")
  {
    if HasAt(h, 0, "GET") then Some(GET)
    else if HasAt(h, 0, "HEAD") then Some(HEAD)
    else None
  }

  /** strchr(h + p, c) for a non-NUL c: the first index at or after p holding c. */
  function FindFrom(h: string, p: nat, c: char): (r: Option<nat>)
    ensures r.Some? ==> p <= r.value < |h| && h[r.value] == c
    ensures r.Some? ==> forall j :: p <= j < r.value ==> h[j] != c
    ensures r.None? ==> forall j :: p <= j < |h| ==> h[j] != c
    decreases |h| - p
  {
    if p >= |h| then None
    else if h[p] == c then Some(p)
    else FindFrom(h, p + 1, c)
  }

  /**
   * The target scans: walk from p towards end, failing (None) at a
   * non-printable byte and stopping at c; end when c does not occur.
   */
  function ScanStop(h: string, p: nat, end: nat, c: char): (r: Option<nat>)
    requires p <= end <= |h|
    ensures r.Some? ==> p <= r.value <= end && (r.value < end ==> h[r.value] == c)
    ensures r.Some? ==> forall j :: p <= j < r.value ==> IsPrint(h[j]) && h[j] != c
    ensures r.None? ==> exists j :: p <= j < end && !IsPrint(h[j]) && forall i :: p <= i < j ==> h[i] != c
    decreases end - p
  {
    if p == end then Some(end)
    else if !IsPrint(h[p]) then None
    else if h[p] == c then Some(p)
    else ScanStop(h, p + 1, end, c)
  }

  /** CRLF at j. */
  predicate CRLFAt(h: string, j: nat)
  {
    j + 1 < |h| && h[j] == '\r' && h[j + 1] == '\n'
  }

  /** strstr(h + p, "\r\n"). */
  function FindCRLF(h: string, p: nat): (r: Option<nat>)
    ensures r.Some? ==> p <= r.value && CRLFAt(h, r.value)
    ensures r.Some? ==> forall j :: p <= j < r.value ==> !CRLFAt(h, j)
    ensures r.None? ==> forall j :: p <= j ==> !CRLFAt(h, j)
    decreases |h| - p
  {
    if p + 1 >= |h| then None
    else if CRLFAt(h, p) then Some(p)
    else FindCRLF(h, p + 1)
  }

  /** The value's leading spaces and tabs. */
  function SkipBlanks(h: string, p: nat): (q: nat)
    requires p <= |h|
    ensures p <= q <= |h|
    ensures q < |h| ==> h[q] != ' ' && h[q] != '\t'
    ensures forall j :: p <= j < q ==> h[j] == ' ' || h[j] == '\t'
    decreases |h| - p
  {
    if p < |h| && (h[p] == ' ' || h[p] == '\t') then SkipBlanks(h, p + 1) else p
  }

  /** The field loop: the first of the field names from i on that the line at p starts with. */
  function FieldFrom(h: string, p: nat, i: nat): (r: Option<nat>)
    requires i <= NUM_REQ_FIELDS
    ensures r.Some? ==> i <= r.value < NUM_REQ_FIELDS && HasAtIgnoringCase(h, p, ReqFieldStr[r.value])
    ensures r.Some? ==> forall k :: i <= k < r.value ==> !HasAtIgnoringCase(h, p, ReqFieldStr[k])
    ensures r.None? ==> forall k :: i <= k < NUM_REQ_FIELDS ==> !HasAtIgnoringCase(h, p, ReqFieldStr[k])
    decreases NUM_REQ_FIELDS - i
  {
    if i == NUM_REQ_FIELDS then None
    else if HasAtIgnoringCase(h, p, ReqFieldStr[i]) then Some(i)
    else FieldFrom(h, p, i + 1)
  }

  /** One pass of the header-line loop: the parse stops with a result, or goes on at a later position. */
  datatype Step = Stop(out: Parsed) | Next(pos: nat, req: Request)

  /**
   * The header line at p: a line starting with a known field name must
   * continue with ':'; the value after leading blanks up to CRLF is stored
   * (a later line for the same field replaces it); a value that does not
   * fit FIELD_MAX with its NUL, a missing CRLF or a missing ':' stops with
   * 500; any other line is skipped up to its CRLF.
   */
  function FieldStep(h: string, p: nat, r: Request): (s: Step)
    requires p < |h|
    ensures s.Stop? ==> s.out == Parsed(STATUS_INTERNAL_SERVER_ERROR, r)
    ensures s.Next? ==> p < s.pos <= |h|
    ensures s.Next? ==> s.req.meth == r.meth && s.req.path == r.path && s.req.query == r.query && s.req.fragment == r.fragment
  {
    match FieldFrom(h, p, 0)
    case None =>
      (match FindCRLF(h, p)
       case None => Stop(Parsed(STATUS_INTERNAL_SERVER_ERROR, r))
       case Some(e) => Next(e + 2, r))
    case Some(i) =>
      var c := p + |ReqFieldStr[i]|;
      if At(h, c) != ':' then Stop(Parsed(STATUS_INTERNAL_SERVER_ERROR, r))
      else
        var v := SkipBlanks(h, c + 1);
        match FindCRLF(h, v)
        case None => Stop(Parsed(STATUS_INTERNAL_SERVER_ERROR, r))
        case Some(e) =>
          if e - v + 1 > FIELD_MAX then Stop(Parsed(STATUS_INTERNAL_SERVER_ERROR, r))
          else Next(e + 2, r.(fields := r.fields[i := h[v..e]]))
  }

  /** Where parse_header_http is: at the method, the target, the version, or the header lines. */
  datatype Phase = AtMethod | AtTarget | AtVersion | AtFields

  /**
   * parse_header_http from phase ph at position p with the request r filled
   * in so far. The method must be GET or HEAD (405 otherwise) followed by
   * exactly one space; the target runs to the next space; the version is
   * "HTTP/1.0" or "HTTP/1.1" and CRLF; header lines follow up to the end of
   * the header. Every phase moves p forward.
   */
  function Run(h: string, ph: Phase, p: nat, r: Request): (o: Parsed)
    requires ph == AtMethod ==> p == 0
    ensures o.status == 0 || o.status == STATUS_INTERNAL_SERVER_ERROR || (ph == AtMethod && o.status == STATUS_METHOD_NOT_ALLOWED)
    ensures ph != AtMethod ==> o.req.meth == r.meth
    ensures ph == AtVersion || ph == AtFields ==> o.req.path == r.path && o.req.query == r.query && o.req.fragment == r.fragment
    ensures ph == AtMethod ==> (o.status == STATUS_METHOD_NOT_ALLOWED <==> !HasAt(h, 0, "GET") && !HasAt(h, 0, "HEAD"))
    ensures ph == AtMethod && o.status == STATUS_METHOD_NOT_ALLOWED ==> o.req == ZeroRequest
    ensures ph == AtMethod && o.status != STATUS_METHOD_NOT_ALLOWED ==> HasAt(h, 0, MethodName(o.req.meth))
    decreases |h| - p
  {
    match ph
    case AtMethod =>
      (match MatchMethod(h)
       case None => Parsed(STATUS_METHOD_NOT_ALLOWED, ZeroRequest)
       case Some(m) =>
         var r0 := ZeroRequest.(meth := m);
         var ml := |MethodName(m)|;
         if At(h, ml) != ' ' then Parsed(STATUS_INTERNAL_SERVER_ERROR, r0)
         else Run(h, AtTarget, ml + 1, r0))
    case AtTarget =>
      (match TargetStep(h, p, r)
       case Stop(o) => o
       case Next(n, r3) => Run(h, AtVersion, n, r3))
    case AtVersion =>
      if !HasAt(h, p, "HTTP/") then Parsed(STATUS_INTERNAL_SERVER_ERROR, r)
      else if !HasAt(h, p + 5, "1.0") && !HasAt(h, p + 5, "1.1") then Parsed(STATUS_INTERNAL_SERVER_ERROR, r)
      else if !HasAt(h, p + 8, "\r\n") then Parsed(STATUS_INTERNAL_SERVER_ERROR, r)
      else Run(h, AtFields, p + 10, r)
    case AtFields =>
      if p >= |h| then Parsed(0, r)
      else match FieldStep(h, p, r)
        case Stop(o) => o
        case Next(n, r') => Run(h, AtFields, n, r')
  }

  /** The header-line loop from position p up to the end of the header. */
  function ParseFields(h: string, p: nat, r: Request): Parsed
  {
    Run(h, AtFields, p, r)
  }

  /** What follows the target's space at p: "HTTP/1.0" or "HTTP/1.1", CRLF, then the header lines. */
  function ParseVersion(h: string, p: nat, r: Request): Parsed
  {
    Run(h, AtVersion, p, r)
  }

  /**
   * The query scan's result once the fragment is known: NULL when '?' was
   * not found or a '#' came first.
   */
  function QueryStart(qk: nat, fk: nat, end: nat): Option<nat>
  {
    if qk < end && !(fk < end && fk < qk) then Some(qk) else None
  }

  /**
   * The request target from ps to the next space: the path up to the
   * first '?' or '#', decoded; the query between '?' and the fragment (or
   * the space); the fragment between '#' and the space. Parsing goes on
   * right after that space.
   */
  function TargetStep(h: string, ps: nat, r: Request): (s: Step)
    ensures s.Stop? ==> s.out.status == STATUS_INTERNAL_SERVER_ERROR && s.out.req.meth == r.meth
    ensures s.Next? ==> ps < s.pos <= |h| && s.req.meth == r.meth && s.req.fields == r.fields
  {
    match FindFrom(h, ps, ' ')
    case None => Stop(Parsed(STATUS_INTERNAL_SERVER_ERROR, r))
    case Some(end) =>
      match ScanStop(h, ps, end, '?')
      case None => Stop(Parsed(STATUS_INTERNAL_SERVER_ERROR, r))
      case Some(qk) =>
        match ScanStop(h, ps, end, '#')
        case None => Stop(Parsed(STATUS_INTERNAL_SERVER_ERROR, r))
        case Some(fk) =>
          var q := QueryStart(qk, fk, end);
          var temp := if q.Some? then qk else fk;
          if temp - ps + 1 > PATH_MAX then Stop(Parsed(STATUS_INTERNAL_SERVER_ERROR, r))
          else
            var r1 := r.(path := CString(PercentDecode(h[ps..temp])));
            var qe := fk;
            if q.Some? && qe - (qk + 1) + 1 > FIELD_MAX then Stop(Parsed(STATUS_INTERNAL_SERVER_ERROR, r1))
            else
              var r2 := if q.Some? then r1.(query := h[qk + 1..qe]) else r1;
              if fk < end && end - (fk + 1) + 1 > FIELD_MAX then Stop(Parsed(STATUS_INTERNAL_SERVER_ERROR, r2))
              else
                var r3 := if fk < end then r2.(fragment := h[fk + 1..end]) else r2;
                Next(end + 1, r3)
  }

  /** The target, then the version and the header lines. */
  function ParseTarget(h: string, ps: nat, r: Request): Parsed
  {
    Run(h, AtTarget, ps, r)
  }

  /** parse_header_http on the zeroed request. */
  function ParseRequest(h: string): Parsed
  {
    Run(h, AtMethod, 0, ZeroRequest)
  }

  // ---------------------------------------------------------------------
  // parse_header_http: the scanning code

  /** strchr(h + p, c). */
  method FindFromLoop(h: string, p: nat, c: char) returns (r: Option<nat>)
    ensures r == FindFrom(h, p, c)
  {
    var k := p;
    while k < |h|
      invariant p <= k
      invariant FindFrom(h, k, c) == FindFrom(h, p, c)
      decreases |h| - k
    {
      if h[k] == c {
        return Some(k);
      }
      k := k + 1;
    }
    return None;
  }

  /** One target scan: isprint on every byte up to the stop byte c. */
  method ScanStopLoop(h: string, p: nat, end: nat, c: char) returns (r: Option<nat>)
    requires p <= end <= |h|
    ensures r == ScanStop(h, p, end, c)
  {
    var k := p;
    while k < end
      invariant p <= k <= end
      invariant ScanStop(h, k, end, c) == ScanStop(h, p, end, c)
    {
      if !IsPrint(h[k]) {
        return None;
      }
      if h[k] == c {
        break;
      }
      k := k + 1;
    }
    return Some(k);
  }

  /** strstr(h + p, "\r\n"). */
  method FindCRLFLoop(h: string, p: nat) returns (r: Option<nat>)
    ensures r == FindCRLF(h, p)
  {
    var k := p;
    while k + 1 < |h|
      invariant p <= k
      invariant FindCRLF(h, k) == FindCRLF(h, p)
      decreases |h| - k
    {
      if h[k] == '\r' && h[k + 1] == '\n' {
        return Some(k);
      }
      k := k + 1;
    }
    return None;
  }

  /** Skip the spaces and tabs in front of a field value. */
  method SkipBlanksLoop(h: string, p: nat) returns (q: nat)
    requires p <= |h|
    ensures q == SkipBlanks(h, p)
  {
    q := p;
    while q < |h| && (h[q] == ' ' || h[q] == '\t')
      invariant p <= q <= |h|
      invariant SkipBlanks(h, q) == SkipBlanks(h, p)
    {
      q := q + 1;
    }
  }

  /** The loop over req_field_str; NUM_REQ_FIELDS when no name matches. */
  method MatchField(h: string, p: nat) returns (i: nat)
    ensures i <= NUM_REQ_FIELDS
    ensures i == NUM_REQ_FIELDS <==> FieldFrom(h, p, 0).None?
    ensures i < NUM_REQ_FIELDS ==> FieldFrom(h, p, 0) == Some(i)
  {
    i := 0;
    while i < NUM_REQ_FIELDS
      invariant i <= NUM_REQ_FIELDS
      invariant FieldFrom(h, p, i) == FieldFrom(h, p, 0)
    {
      if HasAtIgnoringCase(h, p, ReqFieldStr[i]) {
        return;
      }
      i := i + 1;
    }
  }

  /**
   * memcpy of the raw path into m_path, its NUL, and decode in place; the
   * request's path is the C string m_path then holds.
   */
  method CopyAndDecodePath(raw: string) returns (path: string)
    requires '\0' !in raw && |raw| < PATH_MAX
    ensures path == CString(PercentDecode(raw))
  {
    var a := new char[PATH_MAX](_ => '\0');
    forall k | 0 <= k < |raw| {
      a[k] := raw[k];
    }
    a[|raw|] := '\0';
    assert a[..][..|raw|] == raw;
    CStringOfTerminated(a[..], raw);
    assert '\0' in a[..] by { assert a[..][|raw|] == '\0'; }
    DecodeInPlace(a);
    var d := PercentDecode(raw);
    assert a[..][..|d|] == d;
    CStringThroughNul(a[..], d);
    path := CString(a[..]);
  }

  /** One pass of the header-line loop at pos < |h|. */
  method FieldLine(h: string, pos: nat, r: Request) returns (s: Step)
    requires pos < |h|
    ensures s == FieldStep(h, pos, r)
  {
    var i := MatchField(h, pos);
    if i == NUM_REQ_FIELDS {
      var e := FindCRLFLoop(h, pos);
      if e.None? {
        return Stop(Parsed(STATUS_INTERNAL_SERVER_ERROR, r));
      }
      return Next(e.value + 2, r);
    }
    var c := pos + |ReqFieldStr[i]|;
    if At(h, c) != ':' {
      return Stop(Parsed(STATUS_INTERNAL_SERVER_ERROR, r));
    }
    var v := SkipBlanksLoop(h, c + 1);
    var e := FindCRLFLoop(h, v);
    if e.None? {
      return Stop(Parsed(STATUS_INTERNAL_SERVER_ERROR, r));
    }
    if e.value - v + 1 > FIELD_MAX {
      return Stop(Parsed(STATUS_INTERNAL_SERVER_ERROR, r));
    }
    return Next(e.value + 2, r.(fields := r.fields[i := h[v..e.value]]));
  }

  /** The header-line loop. */
  method ParseFieldsLoop(h: string, p: nat, r: Request) returns (status: int, req: Request)
    requires p <= |h|
    ensures Parsed(status, req) == ParseFields(h, p, r)
  {
    var pos := p;
    req := r;
    while pos < |h|
      invariant p <= pos <= |h|
      invariant ParseFields(h, pos, req) == ParseFields(h, p, r)
      decreases |h| - pos
    {
      var s := FieldLine(h, pos, req);
      if s.Stop? {
        return s.out.status, s.out.req;
      }
      pos, req := s.pos, s.req;
    }
    return 0, req;
  }

  /** The target scans and copies of parse_header_http. */
  method TargetStepM(h: string, ps: nat, r: Request) returns (s: Step)
    requires '\0' !in h && ps <= |h|
    ensures s == TargetStep(h, ps, r)
  {
    var req := r;
    var end := FindFromLoop(h, ps, ' ');
    if end.None? {
      return Stop(Parsed(STATUS_INTERNAL_SERVER_ERROR, req));
    }
    var qs := ScanStopLoop(h, ps, end.value, '?');
    if qs.None? {
      return Stop(Parsed(STATUS_INTERNAL_SERVER_ERROR, req));
    }
    var fs := ScanStopLoop(h, ps, end.value, '#');
    if fs.None? {
      return Stop(Parsed(STATUS_INTERNAL_SERVER_ERROR, req));
    }
    var q := QueryStart(qs.value, fs.value, end.value);
    var temp := if q.Some? then qs.value else fs.value;
    if temp - ps + 1 > PATH_MAX {
      return Stop(Parsed(STATUS_INTERNAL_SERVER_ERROR, req));
    }
    assert '\0' !in h[ps..temp] by {
      forall k | ps <= k < temp ensures h[k] != '\0' { assert h[k] in h; }
    }
    var path := CopyAndDecodePath(h[ps..temp]);
    req := req.(path := path);
    if q.Some? {
      if fs.value - (qs.value + 1) + 1 > FIELD_MAX {
        return Stop(Parsed(STATUS_INTERNAL_SERVER_ERROR, req));
      }
      req := req.(query := h[qs.value + 1..fs.value]);
    }
    if fs.value < end.value {
      if end.value - (fs.value + 1) + 1 > FIELD_MAX {
        return Stop(Parsed(STATUS_INTERNAL_SERVER_ERROR, req));
      }
      req := req.(fragment := h[fs.value + 1..end.value]);
    }
    return Next(end.value + 1, req);
  }

  /** The version check and the header-line loop, from p on. */
  method ParseVersionM(h: string, p: nat, r: Request) returns (status: int, req: Request)
    ensures Parsed(status, req) == ParseVersion(h, p, r)
  {
    req := r;
    var pos := p;
    if !HasAt(h, pos, "HTTP/") {
      return STATUS_INTERNAL_SERVER_ERROR, req;
    }
    pos := pos + 5;
    if !HasAt(h, pos, "1.0") && !HasAt(h, pos, "1.1") {
      return STATUS_INTERNAL_SERVER_ERROR, req;
    }
    pos := pos + 3;
    if !HasAt(h, pos, "\r\n") {
      return STATUS_INTERNAL_SERVER_ERROR, req;
    }
    pos := pos + 2;
    status, req := ParseFieldsLoop(h, pos, req);
  }

  const Methods: seq<Method> := [GET, HEAD]

  /**
   * parse_header_http over the C string h: the status it returns and the
   * request as it has filled it by then.
   */
  method ParseHeader(h: string) returns (status: int, req: Request)
    requires '\0' !in h
    ensures Parsed(status, req) == ParseRequest(h)
  {
    req := ZeroRequest;
    var i := 0;
    while i < |Methods|
      invariant i <= |Methods|
      invariant forall k :: 0 <= k < i ==> !HasAt(h, 0, MethodName(Methods[k]))
    {
      if HasAt(h, 0, MethodName(Methods[i])) {
        req := req.(meth := Methods[i]);
        break;
      }
      i := i + 1;
    }
    if i == |Methods| {
      assert !HasAt(h, 0, MethodName(Methods[0])) && !HasAt(h, 0, MethodName(Methods[1]));
      return STATUS_METHOD_NOT_ALLOWED, req;
    }
    assert Methods[0] == GET && Methods[1] == HEAD;
    assert MatchMethod(h) == Some(Methods[i]);
    var mlen := |MethodName(Methods[i])|;
    if At(h, mlen) != ' ' {
      return STATUS_INTERNAL_SERVER_ERROR, req;
    }
    assert ParseRequest(h) == ParseTarget(h, mlen + 1, req);
    var t := TargetStepM(h, mlen + 1, req);
    if t.Stop? {
      return t.out.status, t.out.req;
    }
    status, req := ParseVersionM(h, t.pos, t.req);
  }

  // ---------------------------------------------------------------------
  // Properties of the parser

  /** The first occurrence characterises strchr. */
  lemma FindFromIs(h: string, p: nat, k: nat, c: char)
    requires p <= k < |h| && h[k] == c
    requires forall j :: p <= j < k ==> h[j] != c
    ensures FindFrom(h, p, c) == Some(k)
  {
  }

  /** A printable stop byte at k, with printable bytes and no stop byte before it, ends the scan at k. */
  lemma ScanStopIs(h: string, p: nat, end: nat, k: nat, c: char)
    requires p <= k <= end <= |h| && IsPrint(c)
    requires k < end ==> h[k] == c
    requires forall j :: p <= j < k ==> IsPrint(h[j]) && h[j] != c
    ensures ScanStop(h, p, end, c) == Some(k)
  {
  }

  /** Over printable bytes the scan never fails. */
  lemma ScanStopPrintable(h: string, p: nat, end: nat, c: char)
    requires p <= end <= |h|
    requires forall j :: p <= j < end ==> IsPrint(h[j])
    ensures ScanStop(h, p, end, c).Some?
  {
  }

  /** The first CRLF characterises strstr. */
  lemma FindCRLFIs(h: string, p: nat, k: nat)
    requires p <= k && CRLFAt(h, k)
    requires forall j :: p <= j < k ==> !CRLFAt(h, j)
    ensures FindCRLF(h, p) == Some(k)
  {
  }

  lemma HasAtIndex(h: string, p: nat, s: string, j: nat)
    requires HasAt(h, p, s) && j < |s|
    ensures p + j < |h| && h[p + j] == s[j]
  {
    assert h[p..p + |s|][j] == s[j];
  }

  lemma HasAtSplit(h: string, p: nat, a: string, b: string)
    requires HasAt(h, p, a + b)
    ensures HasAt(h, p, a) && HasAt(h, p + |a|, b)
  {
    assert h[p..p + |a|] == (a + b)[..|a|];
    assert h[p + |a|..p + |a| + |b|] == (a + b)[|a|..];
  }

  /** Printable and free of the given bytes. */
  predicate PlainText(s: string, excluded: set<char>)
  {
    forall k :: 0 <= k < |s| ==> IsPrint(s[k]) && s[k] !in excluded
  }

  /** A request target: the path, then "?query" and "#fragment" when present. */
  function Target(path: string, query: Option<string>, fragment: Option<string>): string
  {
    path + (if query.Some? then "?" + query.value else "") + (if fragment.Some? then "#" + fragment.value else "")
  }

  /** What a target spelled as Target(...) can hold: the path has no ' ', '?' or '#', the query no ' ' or '#', the fragment no ' '. */
  predicate WellFormedTarget(path: string, query: Option<string>, fragment: Option<string>)
  {
    PlainText(path, {' ', '?', '#'}) && |path| < PATH_MAX &&
    (query.Some? ==> PlainText(query.value, {' ', '#'}) && |query.value| < FIELD_MAX) &&
    (fragment.Some? ==> PlainText(fragment.value, {' '}) && |fragment.value| < FIELD_MAX)
  }

  lemma TargetLength(path: string, query: Option<string>, fragment: Option<string>)
    ensures |Target(path, query, fragment)| ==
      FragmentMark(0, path, query) + (if fragment.Some? then |fragment.value| + 1 else 0)
  {
  }

  /** A slice of h inside a text written at p is the same slice of the text. */
  lemma SubSlice(h: string, p: nat, t: string, i: nat, j: nat)
    requires HasAt(h, p, t) && i <= j <= |t|
    ensures h[p + i..p + j] == t[i..j]
  {
    forall k | 0 <= k < j - i
      ensures h[p + i..p + j][k] == t[i..j][k]
    {
      assert h[p + i + k] == h[p..p + |t|][i + k];
    }
  }

  /** The pieces of a target, as slices of its text. */
  lemma TargetSlices(path: string, query: Option<string>, fragment: Option<string>)
    ensures var t := Target(path, query, fragment);
      var fm := FragmentMark(0, path, query);
      fm <= |t| && t[..|path|] == path &&
      (query.Some? ==> t[|path| + 1..fm] == query.value) &&
      (fragment.Some? ==> t[fm + 1..] == fragment.value)
  {
    var qt := if query.Some? then "?" + query.value else "";
    var ft := if fragment.Some? then "#" + fragment.value else "";
    var t := Target(path, query, fragment);
    assert t == path + qt + ft;
    assert t[..|path|] == path;
    if query.Some? {
      assert t[|path|..|path| + |qt|] == qt;
      assert t[|path| + 1..|path| + |qt|] == qt[1..];
    }
    if fragment.Some? {
      assert t[|path| + |qt|..] == ft;
      assert t[|path| + |qt| + 1..] == ft[1..];
    }
  }

  /** Where the pieces of a target written at ps lie in h. */
  lemma TargetBytes(h: string, ps: nat, path: string, query: Option<string>, fragment: Option<string>)
    requires WellFormedTarget(path, query, fragment)
    requires HasAt(h, ps, Target(path, query, fragment))
    ensures var qk0 := ps + |path|;
      var fk0 := qk0 + (if query.Some? then |query.value| + 1 else 0);
      var end := ps + |Target(path, query, fragment)|;
      end == fk0 + (if fragment.Some? then |fragment.value| + 1 else 0) &&
      (forall j :: ps <= j < end ==> IsPrint(h[j]) && h[j] != ' ') &&
      (forall j :: ps <= j < qk0 ==> h[j] != '?' && h[j] != '#') &&
      (forall j :: ps <= j < fk0 ==> h[j] != '#') &&
      (query.Some? ==> h[qk0] == '?') &&
      (fragment.Some? ==> h[fk0] == '#')
  {
    var qt := if query.Some? then "?" + query.value else "";
    var ft := if fragment.Some? then "#" + fragment.value else "";
    var t := Target(path, query, fragment);
    assert t == path + qt + ft;
    var qk0 := ps + |path|;
    var fk0 := qk0 + |qt|;
    var end := ps + |t|;
    forall j | ps <= j < end
      ensures IsPrint(h[j]) && h[j] != ' '
      ensures j < qk0 ==> h[j] != '?' && h[j] != '#'
      ensures j < fk0 ==> h[j] != '#'
      ensures query.Some? && j == qk0 ==> h[j] == '?'
      ensures fragment.Some? && j == fk0 ==> h[j] == '#'
    {
      HasAtIndex(h, ps, t, j - ps);
      var i := j - ps;
      if i < |path| {
        assert t[i] == path[i];
      } else if i < |path| + |qt| {
        assert t[i] == qt[i - |path|];
      } else {
        assert t[i] == ft[i - |path| - |qt|];
      }
    }
  }

  /** Start of the query mark, of the fragment mark and of the space after a target written at ps. */
  function QueryMark(ps: nat, path: string): nat { ps + |path| }

  function FragmentMark(ps: nat, path: string, query: Option<string>): nat
  {
    QueryMark(ps, path) + (if query.Some? then |query.value| + 1 else 0)
  }

  /** What the space and fragment scans of parse_header_http find in a target written at ps and followed by a space. */
  lemma TargetScans(h: string, ps: nat, path: string, query: Option<string>, fragment: Option<string>, end: nat, fk: nat)
    requires WellFormedTarget(path, query, fragment)
    requires HasAt(h, ps, Target(path, query, fragment) + " ")
    requires end == ps + |Target(path, query, fragment)|
    requires fk == if fragment.Some? then FragmentMark(ps, path, query) else end
    ensures end < |h| && FindFrom(h, ps, ' ') == Some(end)
    ensures ScanStop(h, ps, end, '#') == Some(fk)
    ensures ScanStop(h, ps, end, '?').Some?
    ensures query.Some? ==> ScanStop(h, ps, end, '?').value == QueryMark(ps, path)
    ensures query.None? ==> ScanStop(h, ps, end, '?').value >= fk
  {
    var t := Target(path, query, fragment);
    HasAtSplit(h, ps, t, " ");
    HasAtIndex(h, ps + |t|, " ", 0);
    TargetBytes(h, ps, path, query, fragment);
    FindFromIs(h, ps, end, ' ');
    ScanStopIs(h, ps, end, fk, '#');
    if query.Some? {
      ScanStopIs(h, ps, end, QueryMark(ps, path), '?');
    } else {
      ScanStopPrintable(h, ps, end, '?');
      assert QueryMark(ps, path) == FragmentMark(ps, path, query);
    }
  }

  /** The path, query and fragment of a target written at ps, as slices of h. */
  lemma TargetPieces(h: string, ps: nat, path: string, query: Option<string>, fragment: Option<string>)
    requires HasAt(h, ps, Target(path, query, fragment))
    ensures var end := ps + |Target(path, query, fragment)|;
      var fk := FragmentMark(ps, path, query);
      fk <= end &&
      h[ps..QueryMark(ps, path)] == path &&
      (query.Some? ==> h[QueryMark(ps, path) + 1..fk] == query.value) &&
      (fragment.Some? ==> h[fk + 1..end] == fragment.value)
  {
    var t := Target(path, query, fragment);
    TargetSlices(path, query, fragment);
    var fm := FragmentMark(0, path, query);
    assert ps + fm == FragmentMark(ps, path, query);
    SubSlice(h, ps, t, 0, |path|);
    if query.Some? {
      SubSlice(h, ps, t, |path| + 1, fm);
    }
    if fragment.Some? {
      SubSlice(h, ps, t, fm + 1, |t|);
    }
  }

  /** The request a successful target step leaves, from the three scan results. */
  function TargetRequest(h: string, ps: nat, r: Request, qk: nat, fk: nat, end: nat): Request
    requires ps <= qk <= end && ps <= fk <= end < |h|
    requires QueryStart(qk, fk, end).Some? ==> qk < fk
  {
    var q := QueryStart(qk, fk, end);
    var r1 := r.(path := CString(PercentDecode(h[ps..if q.Some? then qk else fk])));
    var r2 := if q.Some? then r1.(query := h[qk + 1..fk]) else r1;
    if fk < end then r2.(fragment := h[fk + 1..end]) else r2
  }

  /** When every piece fits, the target step goes on after the space with the pieces stored. */
  lemma TargetStepAccepts(h: string, ps: nat, r: Request, qk: nat, fk: nat, end: nat)
    requires ps <= |h| && FindFrom(h, ps, ' ') == Some(end)
    requires ScanStop(h, ps, end, '?') == Some(qk) && ScanStop(h, ps, end, '#') == Some(fk)
    requires QueryStart(qk, fk, end).Some? ==> qk < fk
    requires (if QueryStart(qk, fk, end).Some? then qk else fk) - ps + 1 <= PATH_MAX
    requires QueryStart(qk, fk, end).Some? ==> fk - qk <= FIELD_MAX
    requires fk < end ==> end - fk <= FIELD_MAX
    ensures TargetStep(h, ps, r) == Next(end + 1, TargetRequest(h, ps, r, qk, fk, end))
  {
  }

  /** r with a target's pieces stored: the decoded path, and the query and the fragment where present. */
  function WithTarget(r: Request, path: string, query: Option<string>, fragment: Option<string>): Request
  {
    r.(path := CString(PercentDecode(path)),
       query := if query.Some? then query.value else r.query,
       fragment := if fragment.Some? then fragment.value else r.fragment)
  }

  /** The stored pieces, from the slices they occupy. */
  lemma TargetRequestIs(h: string, ps: nat, r: Request, qk: nat, fk: nat, end: nat,
                        path: string, query: Option<string>, fragment: Option<string>)
    requires ps <= qk <= end && ps <= fk <= end < |h|
    requires QueryStart(qk, fk, end) == (if query.Some? then Some(qk) else None)
    requires query.Some? ==> qk < fk
    requires fragment.Some? <==> fk < end
    requires h[ps..if query.Some? then qk else fk] == path
    requires query.Some? ==> h[qk + 1..fk] == query.value
    requires fragment.Some? ==> h[fk + 1..end] == fragment.value
    ensures TargetRequest(h, ps, r, qk, fk, end) ==
      WithTarget(r, path, query, fragment)
  {
  }

  /** The request a target written at ps leaves, once the scans have found its marks. */
  lemma TargetRequestFrom(h: string, ps: nat, r: Request, path: string, query: Option<string>, fragment: Option<string>,
                          qk: nat, fk: nat, end: nat)
    requires HasAt(h, ps, Target(path, query, fragment))
    requires end == ps + |Target(path, query, fragment)| && end < |h|
    requires fk == if fragment.Some? then FragmentMark(ps, path, query) else end
    requires ps <= qk <= end
    requires (if query.Some? then qk else fk) == QueryMark(ps, path)
    requires QueryStart(qk, fk, end) == (if query.Some? then Some(qk) else None)
    ensures TargetRequest(h, ps, r, qk, fk, end) ==
      WithTarget(r, path, query, fragment)
  {
    TargetPieces(h, ps, path, query, fragment);
    TargetLength(path, query, fragment);
    TargetRequestIs(h, ps, r, qk, fk, end, path, query, fragment);
  }

  /** The target at ps, followed by a space, parses into its path (decoded), query and fragment. */
  lemma TargetRoundTrip(h: string, ps: nat, r: Request, path: string, query: Option<string>, fragment: Option<string>)
    requires WellFormedTarget(path, query, fragment)
    requires HasAt(h, ps, Target(path, query, fragment) + " ")
    ensures TargetStep(h, ps, r) ==
      Next(ps + |Target(path, query, fragment)| + 1, WithTarget(r, path, query, fragment))
  {
    var end := ps + |Target(path, query, fragment)|;
    var fk := if fragment.Some? then FragmentMark(ps, path, query) else end;
    TargetScans(h, ps, path, query, fragment, end, fk);
    TargetLength(path, query, fragment);
    var qk := ScanStop(h, ps, end, '?').value;
    assert (if query.Some? then qk else fk) == QueryMark(ps, path);
    assert QueryStart(qk, fk, end) == (if query.Some? then Some(qk) else None);
    TargetStepAccepts(h, ps, r, qk, fk, end);
    HasAtSplit(h, ps, Target(path, query, fragment), " ");
    TargetRequestFrom(h, ps, r, path, query, fragment, qk, fk, end);
  }

  /** The version part of a request line: "HTTP/1.0" or "HTTP/1.1" and CRLF. */
  function Version(minor: char): string
  {
    "HTTP/1." + [minor] + "\r\n"
  }

  /** A request line: the method, one space, the target, one space and the version. */
  function RequestLine(m: Method, path: string, query: Option<string>, fragment: Option<string>, minor: char): string
  {
    MethodName(m) + " " + Target(path, query, fragment) + " " + Version(minor)
  }

  /** The request a request line leaves for the header lines: the zeroed request with the method and the target's pieces. */
  function LineRequest(m: Method, path: string, query: Option<string>, fragment: Option<string>): Request
  {
    WithTarget(ZeroRequest.(meth := m), path, query, fragment)
  }

  /** A supported version goes on to the header lines right after its CRLF. */
  lemma VersionAccepts(h: string, p: nat, r: Request, minor: char)
    requires minor == '0' || minor == '1'
    requires HasAt(h, p, Version(minor))
    ensures ParseVersion(h, p, r) == ParseFields(h, p + 10, r)
  {
    var num := "1." + [minor];
    assert Version(minor) == "HTTP/" + num + "\r\n";
    HasAtSplit(h, p, "HTTP/" + num, "\r\n");
    HasAtSplit(h, p, "HTTP/", num);
    assert num == if minor == '0' then "1.0" else "1.1";
  }

  /** A header starting with a method name and one space goes on to the target after that space. */
  lemma MethodAccepted(h: string, m: Method, ps: nat)
    requires ps == |MethodName(m)| + 1
    requires HasAt(h, 0, MethodName(m) + " ")
    ensures ParseRequest(h) == ParseTarget(h, ps, ZeroRequest.(meth := m))
  {
    var mn := MethodName(m);
    HasAtSplit(h, 0, mn, " ");
    HasAtIndex(h, |mn|, " ", 0);
    HasAtIndex(h, 0, mn, 0);
    assert MatchMethod(h) == Some(m);
  }

  /** A well-formed target at ps goes on to the version after its space. */
  lemma TargetAccepted(h: string, ps: nat, r: Request, path: string, query: Option<string>, fragment: Option<string>, n: nat)
    requires WellFormedTarget(path, query, fragment)
    requires HasAt(h, ps, Target(path, query, fragment) + " ") && n == ps + |Target(path, query, fragment)| + 1
    ensures ParseTarget(h, ps, r) == ParseVersion(h, n, WithTarget(r, path, query, fragment))
  {
    TargetRoundTrip(h, ps, r, path, query, fragment);
    TargetNext(h, ps, r, n, WithTarget(r, path, query, fragment));
  }

  /** A target step that goes on leads the parse to the version. */
  lemma TargetNext(h: string, ps: nat, r: Request, n: nat, r': Request)
    requires TargetStep(h, ps, r) == Next(n, r')
    ensures ParseTarget(h, ps, r) == ParseVersion(h, n, r')
  {
  }

  /**
   * A request line with a well-formed target parses into its method, its
   * decoded path, its query and its fragment, and the header lines start
   * right after it.
   */
  lemma {:induction false} RequestLineRoundTrip(h: string, m: Method, path: string, query: Option<string>,
                                                fragment: Option<string>, minor: char)
    requires WellFormedTarget(path, query, fragment) && (minor == '0' || minor == '1')
    requires HasAt(h, 0, RequestLine(m, path, query, fragment, minor))
    ensures ParseRequest(h) ==
      ParseFields(h, |RequestLine(m, path, query, fragment, minor)|, LineRequest(m, path, query, fragment))
  {
    var mn := MethodName(m);
    var t := Target(path, query, fragment);
    var r := LineRequest(m, path, query, fragment);
    var ps: nat := |mn| + 1;
    var pv: nat := ps + |t| + 1;
    LineSplit(h, mn, t, Version(minor));
    LineLength(m, path, query, fragment, minor);
    FrontAccepted(h, m, path, query, fragment, ps, pv);
    VersionAccepts(h, pv, r, minor);
  }

  lemma LineLength(m: Method, path: string, query: Option<string>, fragment: Option<string>, minor: char)
    ensures |RequestLine(m, path, query, fragment, minor)| == |MethodName(m)| + 1 + |Target(path, query, fragment)| + 1 + 10
  {
  }

  /** The method and its space, then the target and its space, take the parse to the version. */
  lemma FrontAccepted(h: string, m: Method, path: string, query: Option<string>, fragment: Option<string>, ps: nat, pv: nat)
    requires WellFormedTarget(path, query, fragment)
    requires ps == |MethodName(m)| + 1 && pv == ps + |Target(path, query, fragment)| + 1
    requires HasAt(h, 0, MethodName(m) + " ") && HasAt(h, ps, Target(path, query, fragment) + " ")
    ensures ParseRequest(h) == ParseVersion(h, pv, LineRequest(m, path, query, fragment))
  {
    MethodAccepted(h, m, ps);
    TargetAccepted(h, ps, ZeroRequest.(meth := m), path, query, fragment, pv);
  }

  /** The text "mn t v" at the start of h holds "mn " at 0, "t " right after it, then v. */
  lemma LineSplit(h: string, mn: string, t: string, v: string)
    requires HasAt(h, 0, mn + " " + t + " " + v)
    ensures HasAt(h, 0, mn + " ") && HasAt(h, |mn| + 1, t + " ") && HasAt(h, |mn| + 1 + |t| + 1, v)
    ensures |mn + " " + t + " " + v| == |mn| + 1 + |t| + 1 + |v|
  {
    assert mn + " " + t + " " + v == (mn + " ") + (t + " ") + v;
    HasAtSplit(h, 0, (mn + " ") + (t + " "), v);
    HasAtSplit(h, 0, mn + " ", t + " ");
  }

  /** The blank line that ends a header leaves the request as it is, with status 0. */
  lemma BlankLineEnds(h: string, p: nat, r: Request)
    requires HasAt(h, p, "\r\n") && |h| == p + 2
    ensures ParseFields(h, p, r) == Parsed(0, r)
  {
    HasAtIndex(h, p, "\r\n", 0);
    HasAtIndex(h, p, "\r\n", 1);
    assert FieldFrom(h, p, 0) == None;
    assert FindCRLF(h, p) == Some(p);
    assert FieldStep(h, p, r) == Next(p + 2, r);
    assert ParseFields(h, p + 2, r) == Parsed(0, r);
  }

  /** The text ends in CRLF. */
  predicate EndsInCRLF(h: string)
  {
    |h| >= 2 && h[|h| - 2] == '\r' && h[|h| - 1] == '\n'
  }

  /** The header-line loop, entered right after a CRLF, returns 0 only on a text that ends in CRLF. */
  lemma {:induction false} FieldsEndInCRLF(h: string, p: nat, r: Request)
    requires 2 <= p && CRLFAt(h, p - 2)
    ensures Run(h, AtFields, p, r).status == 0 ==> EndsInCRLF(h)
    decreases |h| - p
  {
    if p < |h| {
      match FieldStep(h, p, r)
      case Stop(o) =>
      case Next(n, r') =>
        assert CRLFAt(h, n - 2);
        FieldsEndInCRLF(h, n, r');
    }
  }

  /** After the target, only a version line closed by CRLF and accepted header lines give 0. */
  lemma VersionEndsInCRLF(h: string, p: nat, r: Request)
    ensures Run(h, AtVersion, p, r).status == 0 ==> EndsInCRLF(h)
  {
    if HasAt(h, p, "HTTP/") && (HasAt(h, p + 5, "1.0") || HasAt(h, p + 5, "1.1")) && HasAt(h, p + 8, "\r\n") {
      HasAtIndex(h, p + 8, "\r\n", 0);
      HasAtIndex(h, p + 8, "\r\n", 1);
      FieldsEndInCRLF(h, p + 10, r);
    }
  }

  /**
   * parse_header_http accepts only a text that ends in CRLF: every line it
   * reads, the request line included, must be closed by one, and it stops
   * at the end of the text.
   */
  lemma AcceptedEndsInCRLF(h: string)
    ensures ParseRequest(h).status == 0 ==> EndsInCRLF(h)
  {
    match MatchMethod(h)
    case None =>
    case Some(m) =>
      var r0 := ZeroRequest.(meth := m);
      var ml := |MethodName(m)|;
      if At(h, ml) == ' ' {
        assert ParseRequest(h) == Run(h, AtTarget, ml + 1, r0);
        match TargetStep(h, ml + 1, r0)
        case Stop(o) =>
        case Next(n, r3) =>
          VersionEndsInCRLF(h, n, r3);
      }
  }

  /** A request line followed by the blank line parses with status 0 into exactly what the line spells. */
  lemma RequestRoundTrip(m: Method, path: string, query: Option<string>, fragment: Option<string>, minor: char)
    requires WellFormedTarget(path, query, fragment) && (minor == '0' || minor == '1')
    ensures ParseRequest(RequestLine(m, path, query, fragment, minor) + "\r\n") ==
      Parsed(0, LineRequest(m, path, query, fragment))
  {
    var line := RequestLine(m, path, query, fragment, minor);
    var h := line + "\r\n";
    var r := LineRequest(m, path, query, fragment);
    HasAtJoined(line, "\r\n");
    calc {
      ParseRequest(h);
    == { RequestLineRoundTrip(h, m, path, query, fragment, minor); }
      ParseFields(h, |line|, r);
    == { BlankLineEnds(h, |line|, r); }
      Parsed(0, r);
    }
  }

  /** a + b holds a at 0 and b right after it. */
  lemma HasAtJoined(a: string, b: string)
    ensures HasAt(a + b, 0, a) && HasAt(a + b, |a|, b) && |a + b| == |a| + |b|
  {
    assert (a + b)[..|a|] == a;
    assert (a + b)[|a|..|a| + |b|] == b;
  }

  /** No CRLF inside s. */
  predicate NoCRLF(s: string)
  {
    forall j :: 0 <= j < |s| - 1 ==> !(s[j] == '\r' && s[j + 1] == '\n')
  }

  /** A field value the line parser hands back unchanged: no CRLF, no leading blank, room for its NUL. */
  predicate FieldValue(v: string)
  {
    |v| < FIELD_MAX && NoCRLF(v) && (v != [] ==> v[0] != ' ' && v[0] != '\t')
  }

  /** A line starting with a known name, in any letter case, selects that field: no two names share their first letter. */
  lemma FieldFromKnown(h: string, p: nat, i: nat)
    requires i < NUM_REQ_FIELDS && HasAtIgnoringCase(h, p, ReqFieldStr[i])
    ensures FieldFrom(h, p, 0) == Some(i)
  {
    assert ReqFieldStr[0][0] == 'H' && ReqFieldStr[1][0] == 'R' && ReqFieldStr[2][0] == 'I';
    assert ToLower(h[p + 0]) == ToLower(ReqFieldStr[i][0]);
  }

  /** A value followed by CRLF ends at that CRLF. */
  lemma ValueEnd(h: string, v: nat, value: string)
    requires HasAt(h, v, value + "\r\n") && NoCRLF(value)
    ensures FindCRLF(h, v) == Some(v + |value|)
    ensures h[v..v + |value|] == value
  {
    HasAtSplit(h, v, value, "\r\n");
    HasAtIndex(h, v + |value|, "\r\n", 0);
    HasAtIndex(h, v + |value|, "\r\n", 1);
    forall j | v <= j < v + |value|
      ensures !CRLFAt(h, j)
    {
      HasAtIndex(h, v, value, j - v);
      if j + 1 < v + |value| {
        HasAtIndex(h, v, value, j + 1 - v);
      }
    }
    FindCRLFIs(h, v, v + |value|);
  }

  /**
   * A line for a known field, its name in any letter case, then ':', one
   * space, the value and CRLF: the value is stored in that field and the
   * next line starts after the CRLF.
   */
  lemma FieldLineStores(h: string, p: nat, r: Request, i: nat, value: string)
    requires i < NUM_REQ_FIELDS && HasAtIgnoringCase(h, p, ReqFieldStr[i])
    requires HasAt(h, p + |ReqFieldStr[i]|, ": " + value + "\r\n") && FieldValue(value)
    ensures FieldStep(h, p, r) == Next(p + |ReqFieldStr[i]| + |value| + 4, r.(fields := r.fields[i := value]))
  {
    var c: nat := p + |ReqFieldStr[i]|;
    FieldFromKnown(h, p, i);
    ColonValue(h, c, value);
  }

  /** ": ", the value and CRLF at c: the colon, then the value starting right after the one space and ending at the CRLF. */
  lemma ColonValue(h: string, c: nat, value: string)
    requires HasAt(h, c, ": " + value + "\r\n") && FieldValue(value)
    ensures At(h, c) == ':' && SkipBlanks(h, c + 1) == c + 2
    ensures FindCRLF(h, c + 2) == Some(c + 2 + |value|) && h[c + 2..c + 2 + |value|] == value
  {
    assert ": " + value + "\r\n" == ": " + (value + "\r\n");
    HasAtSplit(h, c, ": ", value + "\r\n");
    HasAtIndex(h, c, ": ", 0);
    HasAtIndex(h, c, ": ", 1);
    HasAtIndex(h, c + 2, value + "\r\n", 0);
    assert (value + "\r\n")[0] != ' ' && (value + "\r\n")[0] != '\t';
    assert SkipBlanks(h, c + 1) == c + 2;
    ValueEnd(h, c + 2, value);
  }

  /** Any other line is skipped up to its CRLF, leaving the request as it is. */
  lemma OtherLineSkipped(h: string, p: nat, r: Request, line: string)
    requires forall i :: 0 <= i < NUM_REQ_FIELDS ==> !HasAtIgnoringCase(h, p, ReqFieldStr[i])
    requires HasAt(h, p, line + "\r\n") && NoCRLF(line)
    ensures FieldStep(h, p, r) == Next(p + |line| + 2, r)
  {
    assert FieldFrom(h, p, 0) == None;
    ValueEnd(h, p, line);
  }

  /**
   * A line whose name only begins with a known name, such as "Hostname:",
   * stops the parse with 500: the name matches a prefix, and ':' is not
   * what follows it.
   */
  lemma LongerNameRejected(h: string, p: nat, r: Request, i: nat)
    requires i < NUM_REQ_FIELDS && HasAtIgnoringCase(h, p, ReqFieldStr[i])
    requires At(h, p + |ReqFieldStr[i]|) != ':'
    ensures FieldStep(h, p, r) == Stop(Parsed(STATUS_INTERNAL_SERVER_ERROR, r))
  {
    FieldFromKnown(h, p, i);
  }

  /** A header line for a known field: which field, and its value. */
  datatype HeaderLine = HeaderLine(field: nat, value: string)

  predicate GoodLines(ls: seq<HeaderLine>)
  {
    forall k :: 0 <= k < |ls| ==> ls[k].field < NUM_REQ_FIELDS && FieldValue(ls[k].value)
  }

  function LineText(l: HeaderLine): string
    requires l.field < NUM_REQ_FIELDS
  {
    ReqFieldStr[l.field] + ": " + l.value + "\r\n"
  }

  /** The header lines, one after the other. */
  function LinesText(ls: seq<HeaderLine>): string
    requires GoodLines(ls)
  {
    if ls == [] then "" else LineText(ls[0]) + LinesText(ls[1..])
  }

  /** The fields after storing each line in turn: a later line for the same field wins. */
  function Stored(f: ReqFields, ls: seq<HeaderLine>): ReqFields
    requires GoodLines(ls)
    decreases |ls|
  {
    if ls == [] then f else Stored(f[ls[0].field := ls[0].value], ls[1..])
  }

  /** One known line, written at p, then anything. */
  lemma LineAt(h: string, p: nat, r: Request, l: HeaderLine, rest: string)
    requires l.field < NUM_REQ_FIELDS && FieldValue(l.value)
    requires HasAt(h, p, LineText(l) + rest)
    ensures HasAt(h, p + |LineText(l)|, rest)
    ensures p < |h| && FieldStep(h, p, r) == Next(p + |LineText(l)|, r.(fields := r.fields[l.field := l.value]))
  {
    var name := ReqFieldStr[l.field];
    HasAtSplit(h, p, LineText(l), rest);
    assert LineText(l) == name + (": " + l.value + "\r\n");
    HasAtSplit(h, p, name, ": " + l.value + "\r\n");
    forall k | 0 <= k < |name|
      ensures ToLower(h[p + k]) == ToLower(name[k])
    {
      HasAtIndex(h, p, name, k);
    }
    HasAtIndex(h, p, LineText(l), 0);
    FieldLineStores(h, p, r, l.field, l.value);
  }

  /** Known header lines and the blank line parse with status 0, each value stored in turn. */
  lemma {:induction false} LinesRoundTrip(h: string, p: nat, r: Request, ls: seq<HeaderLine>)
    requires GoodLines(ls)
    requires HasAt(h, p, LinesText(ls) + "\r\n") && |h| == p + |LinesText(ls)| + 2
    ensures ParseFields(h, p, r) == Parsed(0, r.(fields := Stored(r.fields, ls)))
    decreases |ls|
  {
    if ls == [] {
      assert LinesText(ls) + "\r\n" == "\r\n";
      BlankLineEnds(h, p, r);
    } else {
      var l, tail := ls[0], ls[1..];
      GoodTail(ls);
      assert LinesText(ls) + "\r\n" == LineText(l) + (LinesText(tail) + "\r\n");
      LineAt(h, p, r, l, LinesText(tail) + "\r\n");
      var p', r' := p + |LineText(l)|, r.(fields := r.fields[l.field := l.value]);
      calc {
        ParseFields(h, p, r);
      == { FieldsNext(h, p, r, p', r'); }
        ParseFields(h, p', r');
      == { LinesRoundTrip(h, p', r', tail); }
        Parsed(0, r'.(fields := Stored(r'.fields, tail)));
      }
    }
  }

  /** The header-line loop after a line that moves the parse on. */
  lemma FieldsNext(h: string, p: nat, r: Request, p': nat, r': Request)
    requires p < |h| && FieldStep(h, p, r) == Next(p', r')
    ensures ParseFields(h, p, r) == ParseFields(h, p', r')
  {
  }

  lemma GoodTail(ls: seq<HeaderLine>)
    requires GoodLines(ls) && ls != []
    ensures GoodLines(ls[1..])
  {
    forall k | 0 <= k < |ls| - 1
      ensures ls[1..][k] == ls[k + 1]
    {
    }
  }

  /**
   * A whole header — a request line with a well-formed target, known
   * header lines and the blank line — parses with status 0 into exactly
   * what it spells.
   */
  lemma HeaderRoundTrip(m: Method, path: string, query: Option<string>, fragment: Option<string>, minor: char,
                        ls: seq<HeaderLine>)
    requires WellFormedTarget(path, query, fragment) && (minor == '0' || minor == '1') && GoodLines(ls)
    ensures ParseRequest(RequestLine(m, path, query, fragment, minor) + LinesText(ls) + "\r\n") ==
      Parsed(0, LineRequest(m, path, query, fragment).(fields := Stored(ZeroRequest.fields, ls)))
  {
    var line := RequestLine(m, path, query, fragment, minor);
    var rest := LinesText(ls) + "\r\n";
    var h := line + LinesText(ls) + "\r\n";
    var r := LineRequest(m, path, query, fragment);
    assert h == line + rest;
    HasAtJoined(line, rest);
    calc {
      ParseRequest(h);
    == { RequestLineRoundTrip(h, m, path, query, fragment, minor); }
      ParseFields(h, |line|, r);
    == { LinesRoundTrip(h, |line|, r, ls); }
      Parsed(0, r.(fields := Stored(ZeroRequest.fields, ls)));
    }
  }
}
