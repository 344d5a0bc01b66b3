/**
 * The connection table of connection.c: the slots, the resumable
 * per-connection state machine serve_con, the eviction rule
 * connection_get_drop_candidate and the slot choice of accept_con. Every
 * read, write and accept outcome, the time stamp, fopen and scandir, and the
 * response prepare_resp_http derives, are inputs.
 */
module Connection {
  import opened Util
  import opened MySock
  import opened Http
  import opened HttpParse
  import opened BodyBuffer

  /** enum conn_state_t, in its declared (and compared) order. */
  datatype ConnState = VACANT | RECV_HEADER | SEND_HEADER | SEND_BODY

  function StateRank(s: ConnState): nat
  {
    match s
    case VACANT => 0
    case RECV_HEADER => 1
    case SEND_HEADER => 2
    case SEND_BODY => 3
  }

  /** The contents of a slot (struct conn_t), with the bytes its buffer holds. */
  datatype ConnView = ConnView(state: ConnState, fd: int, addr: SockAddr, req: Request,
                               resp: Response, held: seq<char>, progress: nat)

  /** n NUL bytes. */
  function Zeros(n: nat): (r: seq<char>)
    ensures |r| == n && forall k :: 0 <= k < n ==> r[k] == '\0'
  {
    if n == 0 then [] else Zeros(n - 1) + ['\0']
  }

  const ZeroAddr: SockAddr := SockAddr(0, Zeros(STORAGE_BYTES))

  /** The slot memset to zero: vacant, descriptor 0, empty buffer, progress 0. */
  const ZeroView: ConnView := ConnView(VACANT, 0, ZeroAddr, ZeroRequest, ZeroResponse, [], 0)

  /**
   * What a slot's contents always satisfy: the byte range and progress are
   * size_t values, the buffer holds at most its capacity, a header being
   * received has no terminator yet and leaves room, and progress only moves
   * once the body is being sent.
   */
  predicate Coherent(v: ConnView)
  {
    v.resp.lower <= SIZE_MAX && v.resp.upper <= SIZE_MAX && v.progress <= SIZE_MAX &&
    |v.held| <= BUFFER_SIZE &&
    (v.state == RECV_HEADER ==> |v.held| < BUFFER_SIZE && !EndsWithBlankLine(v.held)) &&
    (v.state != SEND_BODY ==> v.progress == 0)
  }

  // ---------------------------------------------------------------------
  // serve_con: the specification

  /**
   * What one serve_con call observes: the read and write outcomes, the
   * response prepare_resp_http derives from a parsed request, the Date
   * stamp (None when get_time_stamp fails), fopen's outcome with the file
   * bytes, and scandir's outcome with the sorted entries.
   */
  datatype Env = Env(rscript: seq<ReadResult>, prepare: Request -> Response, date: Option<string>,
                     wscript: seq<WriteResult>, file: Option<seq<char>>, entries: Option<seq<Entry>>)

  /** Derived ranges are size_t values, and scandir counts its entries in an int. */
  ghost predicate EnvOk(env: Env)
  {
    (forall q :: env.prepare(q).lower <= SIZE_MAX && env.prepare(q).upper <= SIZE_MAX) &&
    (env.entries.Some? ==> |env.entries.value| <= INT_MAX)
  }

  predicate HeaderFits(r: Response, date: Option<string>)
  {
    date.Some? && |HeaderText(r, date.value)| < BUFFER_SIZE
  }

  /**
   * CONN_SEND_BODY: HEAD ends here; GET refills an empty buffer from the
   * producer the response type selects (an error, or nothing produced, ends
   * the connection) or else sends what the buffer holds.
   */
  function SendingBody(v: ConnView, env: Env): (w: ConnView)
    requires Coherent(v) && v.state == SEND_BODY && EnvOk(env)
    ensures Coherent(w)
  {
    if v.req.meth != GET then ZeroView
    else if v.held == [] then
      var p := Produce(DataFct(v.resp.rtype), v.resp, v.progress, env.file, env.entries);
      if p.status != 0 || p.body == [] then ZeroView
      else v.(held := p.body, progress := p.progress)
    else
      var o := Send(v.held, env.wscript);
      SendSplits(v.held, env.wscript);
      if o.status != 0 then ZeroView else v.(held := o.rest)
  }

  /**
   * CONN_SEND_HEADER: send the header; bytes left over keep the state, an
   * emptied buffer moves on to the body at once.
   */
  function SendingHeader(v: ConnView, env: Env): (w: ConnView)
    requires Coherent(v) && v.state == SEND_HEADER && EnvOk(env)
    ensures Coherent(w)
  {
    var o := Send(v.held, env.wscript);
    SendSplits(v.held, env.wscript);
    if o.status != 0 then ZeroView
    else if o.rest != [] then v.(held := o.rest)
    else SendingBody(v.(state := SEND_BODY, held := []), env)
  }

  /**
   * The `response:` label: the header of r goes into the buffer; when it
   * fails, the header of a 500 error response does; when that fails too the
   * connection ends.
   */
  function Responding(v: ConnView, r: Response, env: Env): (w: ConnView)
    requires v.progress == 0 && r.lower <= SIZE_MAX && r.upper <= SIZE_MAX && EnvOk(env)
    ensures Coherent(w)
  {
    if HeaderFits(r, env.date) then
      SendingHeader(v.(state := SEND_HEADER, resp := r, held := HeaderText(r, env.date.value)), env)
    else
      var e := PrepareErrResponse(STATUS_INTERNAL_SERVER_ERROR);
      if HeaderFits(e, env.date) then
        SendingHeader(v.(state := SEND_HEADER, resp := e, held := HeaderText(e, env.date.value)), env)
      else ZeroView
  }

  /**
   * The text parse_header_http reads from c->buf.data: the C string there.
   * A complete header that fills all BUFFER_SIZE bytes has no NUL, so the
   * read runs on into the `length` field that follows `data` in struct
   * my_buffer, which then holds BUFFER_SIZE - 2.
   */
  function HeaderString(h: seq<char>): (t: string)
    ensures '\0' !in t
    ensures |h| < BUFFER_SIZE || (|h| == BUFFER_SIZE && '\0' in h) ==> t == CString(h)
  {
    var c := CString(h);
    if |c| == BUFFER_SIZE then c + SizeLowBytes(BUFFER_SIZE - 2) else c
  }

  /**
   * A complete header of exactly BUFFER_SIZE bytes is never accepted: the
   * bytes of `length` read past it leave a text that does not end in CRLF.
   */
  lemma OverlongHeaderRejected(h: seq<char>)
    requires |h| == BUFFER_SIZE && '\0' !in h
    ensures HeaderString(h) == h + [254 as char, 31 as char]
    ensures ParseRequest(HeaderString(h)).status != 0
  {
    assert CString(h) == h;
    AcceptedEndsInCRLF(HeaderString(h));
  }

  /**
   * CONN_RECV_HEADER: a receive that would block keeps the state with the
   * bytes so far; a failed receive or parse becomes an error response; a
   * parsed request gets the derived response.
   */
  function Receiving(v: ConnView, env: Env): (w: ConnView)
    requires Coherent(v) && v.state == RECV_HEADER && EnvOk(env)
    ensures Coherent(w)
  {
    ReceiveKeeps(v.held, env.rscript);
    match Receive(v.held, env.rscript)
    case RecvBlocked(h) => v.(held := h)
    case RecvFailed => Responding(v.(held := []), PrepareErrResponse(STATUS_INTERNAL_SERVER_ERROR), env)
    case RecvComplete(h) =>
      var p := ParseRequest(HeaderString(h));
      if p.status != 0 then Responding(v.(req := p.req), PrepareErrResponse(p.status), env)
      else Responding(v.(req := p.req), env.prepare(p.req), env)
  }

  /** The bytes held before a response is prepared play no part in it: the header text replaces them. */
  lemma RespondingIgnoresHeld(v: ConnView, h: seq<char>, r: Response, env: Env)
    requires v.progress == 0 && r.lower <= SIZE_MAX && r.upper <= SIZE_MAX && EnvOk(env)
    ensures Responding(v.(held := h), r, env) == Responding(v, r, env)
  {
    assert v.(held := h).(state := SEND_HEADER, resp := r) == v.(state := SEND_HEADER, resp := r).(held := h);
  }

  /** A complete header: the parse result decides the response, whatever the slot held before. */
  lemma ReceivedComplete(v: ConnView, env: Env, g: seq<char>)
    requires Coherent(v) && v.state == RECV_HEADER && EnvOk(env) && Receive(v.held, env.rscript).RecvComplete?
    ensures var h := Receive(v.held, env.rscript).held;
      var p := ParseRequest(HeaderString(h));
      var u := v.(held := g).(req := p.req);
      Receiving(v, env) == if p.status != 0 then Responding(u, PrepareErrResponse(p.status), env)
                           else Responding(u, env.prepare(p.req), env)
  {
    var h := Receive(v.held, env.rscript).held;
    var p := ParseRequest(HeaderString(h));
    var r := if p.status != 0 then PrepareErrResponse(p.status) else env.prepare(p.req);
    assert v.(held := g).(req := p.req) == v.(req := p.req).(held := g);
    RespondingIgnoresHeld(v.(req := p.req), g, r, env);
  }

  /** serve_con: enter at the slot's state and fall through as far as the I/O allows. */
  function Served(v: ConnView, env: Env): (w: ConnView)
    requires Coherent(v) && EnvOk(env)
    ensures Coherent(w)
  {
    match v.state
    case VACANT => Receiving(v.(state := RECV_HEADER, held := []), env)
    case RECV_HEADER => Receiving(v, env)
    case SEND_HEADER => SendingHeader(v, env)
    case SEND_BODY => SendingBody(v, env)
  }

  // ---------------------------------------------------------------------
  // serve_con: properties

  /** The slot's identity: what a call that keeps the connection never touches. */
  predicate SameSocket(v: ConnView, w: ConnView)
  {
    w.fd == v.fd && w.addr == v.addr
  }

  lemma BodyAdvances(v: ConnView, env: Env)
    requires Coherent(v) && v.state == SEND_BODY && EnvOk(env)
    ensures var w := SendingBody(v, env); w == ZeroView || (w.state == SEND_BODY && SameSocket(v, w))
  {
  }

  lemma HeaderAdvances(v: ConnView, env: Env)
    requires Coherent(v) && v.state == SEND_HEADER && EnvOk(env)
    ensures var w := SendingHeader(v, env);
      w == ZeroView || (StateRank(w.state) >= 2 && SameSocket(v, w))
  {
    BodyAdvances(v.(state := SEND_BODY, held := []), env);
  }

  lemma RespondingAdvances(v: ConnView, r: Response, env: Env)
    requires v.progress == 0 && r.lower <= SIZE_MAX && r.upper <= SIZE_MAX && EnvOk(env)
    ensures var w := Responding(v, r, env);
      w == ZeroView || (StateRank(w.state) >= 2 && SameSocket(v, w))
  {
    if HeaderFits(r, env.date) {
      HeaderAdvances(v.(state := SEND_HEADER, resp := r, held := HeaderText(r, env.date.value)), env);
    } else {
      var e := PrepareErrResponse(STATUS_INTERNAL_SERVER_ERROR);
      if HeaderFits(e, env.date) {
        HeaderAdvances(v.(state := SEND_HEADER, resp := e, held := HeaderText(e, env.date.value)), env);
      }
    }
  }

  lemma ReceivingAdvances(v: ConnView, env: Env)
    requires Coherent(v) && v.state == RECV_HEADER && EnvOk(env)
    ensures var w := Receiving(v, env);
      w == ZeroView || (StateRank(w.state) >= 1 && SameSocket(v, w))
  {
    ReceiveKeeps(v.held, env.rscript);
    match Receive(v.held, env.rscript)
    case RecvBlocked(h) =>
    case RecvFailed =>
      RespondingAdvances(v.(held := []), PrepareErrResponse(STATUS_INTERNAL_SERVER_ERROR), env);
    case RecvComplete(h) =>
      var p := ParseRequest(HeaderString(h));
      if p.status != 0 {
        RespondingAdvances(v.(req := p.req), PrepareErrResponse(p.status), env);
      } else {
        RespondingAdvances(v.(req := p.req), env.prepare(p.req), env);
      }
  }

  /**
   * A call either ends the connection (the zeroed slot) or leaves it in the
   * same or a later state, never vacant, with its descriptor and peer kept.
   */
  lemma ServedAdvances(v: ConnView, env: Env)
    requires Coherent(v) && EnvOk(env)
    ensures var w := Served(v, env);
      w == ZeroView || (StateRank(v.state) <= StateRank(w.state) && w.state != VACANT && SameSocket(v, w))
  {
    match v.state
    case VACANT => ReceivingAdvances(v.(state := RECV_HEADER, held := []), env);
    case RECV_HEADER => ReceivingAdvances(v, env);
    case SEND_HEADER => HeaderAdvances(v, env);
    case SEND_BODY => BodyAdvances(v, env);
  }

  /**
   * A fresh or receiving connection whose reads would block stays in
   * RECV_HEADER with the bytes received so far (none kept from before for
   * a fresh one), everything else unchanged.
   */
  lemma ReceiveWaits(v: ConnView, env: Env)
    requires Coherent(v) && EnvOk(env) && (v.state == VACANT || v.state == RECV_HEADER)
    requires var start := if v.state == VACANT then [] else v.held;
      Receive(start, env.rscript).RecvBlocked?
    ensures var start := if v.state == VACANT then [] else v.held;
      Served(v, env) == v.(state := RECV_HEADER, held := Receive(start, env.rscript).held)
  {
  }

  /**
   * A receive or parse error is never dropped silently: the error response
   * for its status becomes the connection's response, its header is what
   * goes out, and sending starts at once.
   */
  lemma ErrorsStillRespond(v: ConnView, env: Env, s: int)
    requires Coherent(v) && EnvOk(env) && (v.state == VACANT || v.state == RECV_HEADER)
    requires var start := if v.state == VACANT then [] else v.held;
      var o := Receive(start, env.rscript);
      (o.RecvFailed? && s == STATUS_INTERNAL_SERVER_ERROR) ||
      (o.RecvComplete? && ParseRequest(HeaderString(o.held)).status == s && s != 0)
    requires HeaderFits(PrepareErrResponse(s), env.date)
    ensures var start := if v.state == VACANT then [] else v.held;
      var o := Receive(start, env.rscript);
      var req := if o.RecvComplete? then ParseRequest(HeaderString(o.held)).req else v.req;
      var e := PrepareErrResponse(s);
      Served(v, env) ==
        SendingHeader(ConnView(SEND_HEADER, v.fd, v.addr, req, e, HeaderText(e, env.date.value), 0), env)
  {
  }

  /**
   * CONN_SEND_HEADER waits until the buffer is empty: a partial send keeps
   * the unsent bytes in order; once it is empty a HEAD request ends.
   */
  lemma HeaderBeforeBody(v: ConnView, env: Env)
    requires Coherent(v) && EnvOk(env) && v.state == SEND_HEADER
    ensures var o := Send(v.held, env.wscript);
      o.status == 0 && o.rest != [] ==> Served(v, env) == v.(held := o.rest) && o.sent + o.rest == v.held
    ensures var o := Send(v.held, env.wscript);
      o.status == 0 && o.rest == [] && v.req.meth == HEAD ==> Served(v, env) == ZeroView
    ensures Send(v.held, env.wscript).status != 0 ==> Served(v, env) == ZeroView
  {
    SendSplits(v.held, env.wscript);
  }

  /**
   * CONN_SEND_BODY for GET alternates: an empty buffer is refilled and the
   * connection ends exactly when the producer fails or produces nothing; a
   * full one is drained in order and progress stays.
   */
  lemma BodyAlternates(v: ConnView, env: Env)
    requires Coherent(v) && EnvOk(env) && v.state == SEND_BODY && v.req.meth == GET
    ensures var p := Produce(DataFct(v.resp.rtype), v.resp, v.progress, env.file, env.entries);
      v.held == [] ==>
        (Served(v, env) == ZeroView <==> p.status != 0 || p.body == []) &&
        (Served(v, env) != ZeroView ==> Served(v, env).held == p.body && Served(v, env).progress == p.progress)
    ensures var o := Send(v.held, env.wscript);
      v.held != [] && o.status == 0 ==>
        Served(v, env) == v.(held := o.rest) && o.sent + Served(v, env).held == v.held
  {
    SendSplits(v.held, env.wscript);
  }

  /**
   * The body of an error response to GET: the first refill is the page with
   * progress 1, and once that is sent the next refill produces nothing and
   * the connection ends.
   */
  lemma ErrorBodyLifecycle(v: ConnView, env: Env, drain: Env)
    requires Coherent(v) && EnvOk(env) && EnvOk(drain)
    requires v.state == SEND_BODY && v.req.meth == GET && v.held == [] && v.progress == 0
    requires v.resp == PrepareErrResponse(v.resp.status) && 100 <= v.resp.status < 1000
    requires Send(ErrorPage(v.resp.status), drain.wscript).rest == [] &&
             Send(ErrorPage(v.resp.status), drain.wscript).status == 0
    ensures Served(v, env) == v.(held := ErrorPage(v.resp.status), progress := 1)
    ensures Served(Served(v, env), drain) == v.(progress := 1)
    ensures Served(Served(Served(v, env), drain), env) == ZeroView
  {
    ErrorBodyOnce(v.resp, env.file, env.entries);
    ErrorBodyOnce(v.resp, drain.file, drain.entries);
    assert ErrorPage(v.resp.status) != [];
  }

  // ---------------------------------------------------------------------
  // connection_get_drop_candidate: the specification

  /** One inner-loop step: connection j of i's address group against the current minimiser c. */
  function Better(vs: seq<ConnView>, i: nat, j: nat, c: nat): nat
    requires i < |vs| && j < |vs| && c < |vs|
  {
    if StateRank(vs[j].state) < StateRank(vs[c].state) then j
    else if vs[j].state != vs[c].state then c
    else if vs[c].state == SEND_BODY && vs[i].resp.rtype != vs[c].resp.rtype then
      (if TypeRank(vs[i].resp.rtype) < TypeRank(vs[c].resp.rtype) then j else c)
    else if vs[j].progress < vs[c].progress then j
    else c
  }

  predicate InGroup(vs: seq<ConnView>, i: nat, j: nat)
    requires i < |vs| && j < |vs|
  {
    SameAddr(vs[i].addr, vs[j].addr)
  }

  /** The inner loop from j on, with c the minimiser so far. */
  function GroupMinFrom(vs: seq<ConnView>, i: nat, j: nat, c: nat): (m: nat)
    requires i < |vs| && j <= |vs| && c < |vs|
    ensures m < |vs|
    decreases |vs| - j
  {
    if j == |vs| then c
    else GroupMinFrom(vs, i, j + 1, if InGroup(vs, i, j) then Better(vs, i, j, c) else c)
  }

  /** The minimiser the inner loop finds for outer index i. */
  function GroupMin(vs: seq<ConnView>, i: nat): nat
    requires i < |vs|
  {
    GroupMinFrom(vs, i, 0, i)
  }

  /** How many of the first j slots share slot i's address. */
  function Count(vs: seq<ConnView>, i: nat, j: nat): nat
    requires i < |vs| && j <= |vs|
  {
    if j == 0 then 0 else Count(vs, i, j - 1) + (if InGroup(vs, i, j - 1) then 1 else 0)
  }

  function GroupSize(vs: seq<ConnView>, i: nat): nat
    requires i < |vs|
  {
    Count(vs, i, |vs|)
  }

  /** The outer loop from i on, with m and maxcnt as found so far. */
  function DropFrom(vs: seq<ConnView>, i: nat, m: Option<nat>, maxcnt: nat): Option<nat>
    requires i <= |vs|
    decreases |vs| - i
  {
    if i == |vs| then m
    else if GroupSize(vs, i) > maxcnt then DropFrom(vs, i + 1, Some(GroupMin(vs, i)), GroupSize(vs, i))
    else DropFrom(vs, i + 1, m, maxcnt)
  }

  /** connection_get_drop_candidate over the slots' contents. */
  function DropCandidate(vs: seq<ConnView>): Option<nat>
  {
    DropFrom(vs, 0, None, 0)
  }

  // ---------------------------------------------------------------------
  // connection_get_drop_candidate: properties

  lemma {:induction false} CountIncludesSelf(vs: seq<ConnView>, i: nat, j: nat)
    requires i < j <= |vs|
    ensures Count(vs, i, j) >= 1
    decreases j
  {
    if j - 1 == i {
      SameAddrEquivalence(vs[i].addr, vs[i].addr, vs[i].addr);
    } else {
      CountIncludesSelf(vs, i, j - 1);
    }
  }

  lemma {:induction false} DropKeepsSome(vs: seq<ConnView>, i: nat, m: Option<nat>, maxcnt: nat)
    requires i <= |vs| && m.Some?
    ensures DropFrom(vs, i, m, maxcnt).Some?
    decreases |vs| - i
  {
    if i < |vs| {
      if GroupSize(vs, i) > maxcnt {
        DropKeepsSome(vs, i + 1, Some(GroupMin(vs, i)), GroupSize(vs, i));
      } else {
        DropKeepsSome(vs, i + 1, m, maxcnt);
      }
    }
  }

  /** With at least one slot there is always a candidate: slot 0's group counts slot 0 itself. */
  lemma DropNeverNone(vs: seq<ConnView>)
    requires |vs| >= 1
    ensures DropCandidate(vs).Some? && DropCandidate(vs).value < |vs|
  {
    CountIncludesSelf(vs, 0, |vs|);
    DropKeepsSome(vs, 1, Some(GroupMin(vs, 0)), GroupSize(vs, 0));
    DropInRange(vs, 1, Some(GroupMin(vs, 0)), GroupSize(vs, 0));
  }

  lemma {:induction false} DropInRange(vs: seq<ConnView>, i: nat, m: Option<nat>, maxcnt: nat)
    requires i <= |vs| && (m.Some? ==> m.value < |vs|)
    ensures var r := DropFrom(vs, i, m, maxcnt); r.Some? ==> r.value < |vs|
    decreases |vs| - i
  {
    if i < |vs| {
      if GroupSize(vs, i) > maxcnt {
        DropInRange(vs, i + 1, Some(GroupMin(vs, i)), GroupSize(vs, i));
      } else {
        DropInRange(vs, i + 1, m, maxcnt);
      }
    }
  }

  /** Slot g's address has the most connections, and no earlier slot's address has as many. */
  predicate FirstGreediest(vs: seq<ConnView>, g: nat)
  {
    g < |vs| &&
    (forall k :: 0 <= k < |vs| ==> GroupSize(vs, k) <= GroupSize(vs, g)) &&
    (forall k :: 0 <= k < g ==> GroupSize(vs, k) < GroupSize(vs, g))
  }

  lemma {:induction false} DropAfterGreediest(vs: seq<ConnView>, i: nat, m: Option<nat>, maxcnt: nat)
    requires i <= |vs|
    requires forall k :: i <= k < |vs| ==> GroupSize(vs, k) <= maxcnt
    ensures DropFrom(vs, i, m, maxcnt) == m
    decreases |vs| - i
  {
    if i < |vs| {
      DropAfterGreediest(vs, i + 1, m, maxcnt);
    }
  }

  lemma {:induction false} DropBeforeGreediest(vs: seq<ConnView>, i: nat, m: Option<nat>, maxcnt: nat, g: nat)
    requires FirstGreediest(vs, g) && i <= g
    requires maxcnt < GroupSize(vs, g)
    ensures DropFrom(vs, i, m, maxcnt) == Some(GroupMin(vs, g))
    decreases g - i
  {
    if i == g {
      DropAfterGreediest(vs, g + 1, Some(GroupMin(vs, g)), GroupSize(vs, g));
    } else if GroupSize(vs, i) > maxcnt {
      DropBeforeGreediest(vs, i + 1, Some(GroupMin(vs, i)), GroupSize(vs, i), g);
    } else {
      DropBeforeGreediest(vs, i + 1, m, maxcnt, g);
    }
  }

  /**
   * The candidate is the minimiser of the group of the first slot whose
   * address has the most connections: a later group of equal size does not
   * replace it.
   */
  lemma DropFromFirstGreediest(vs: seq<ConnView>, g: nat)
    requires FirstGreediest(vs, g)
    ensures DropCandidate(vs) == Some(GroupMin(vs, g))
  {
    CountIncludesSelf(vs, g, |vs|);
    DropBeforeGreediest(vs, 0, None, 0, g);
  }

  /** Every minimiser-so-far property the inner loop keeps over the slots it has scanned. */
  predicate MinimalOver(vs: seq<ConnView>, i: nat, j: nat, c: nat)
    requires i < |vs| && j <= |vs| && c < |vs|
  {
    InGroup(vs, i, c) &&
    forall k :: 0 <= k < j && InGroup(vs, i, k) ==>
      StateRank(vs[c].state) <= StateRank(vs[k].state) &&
      (vs[k].state == vs[c].state != SEND_BODY ==> vs[c].progress <= vs[k].progress)
  }

  lemma {:induction false} GroupMinFromMinimal(vs: seq<ConnView>, i: nat, j: nat, c: nat)
    requires i < |vs| && j <= |vs| && c < |vs|
    requires MinimalOver(vs, i, j, c)
    ensures MinimalOver(vs, i, |vs|, GroupMinFrom(vs, i, j, c))
    decreases |vs| - j
  {
    if j < |vs| {
      var c' := if InGroup(vs, i, j) then Better(vs, i, j, c) else c;
      assert MinimalOver(vs, i, j + 1, c');
      GroupMinFromMinimal(vs, i, j + 1, c');
    }
  }

  /**
   * The minimiser shares slot i's address, has the lowest state in the
   * group, and below SEND_BODY the lowest progress among the group's
   * connections in that state.
   */
  lemma GroupMinIsMinimal(vs: seq<ConnView>, i: nat)
    requires i < |vs|
    ensures var m := GroupMin(vs, i);
      SameAddr(vs[i].addr, vs[m].addr) &&
      (forall k :: 0 <= k < |vs| && SameAddr(vs[i].addr, vs[k].addr) ==>
        StateRank(vs[m].state) <= StateRank(vs[k].state) &&
        (vs[k].state == vs[m].state != SEND_BODY ==> vs[m].progress <= vs[k].progress))
  {
    SameAddrEquivalence(vs[i].addr, vs[i].addr, vs[i].addr);
    GroupMinFromMinimal(vs, i, 0, i);
  }

  // ---------------------------------------------------------------------
  // connection_get_drop_candidate: the type comparison

  /** Two IPv4 peers: bytes 2-5 of the storage are the address. */
  function Peer(b: char): SockAddr
  {
    SockAddr(AF_INET, Zeros(2) + [b] + Zeros(STORAGE_BYTES - 3))
  }

  function Sending(addr: SockAddr, t: ResType, progress: nat): ConnView
  {
    ConnView(SEND_BODY, 3, addr, ZeroRequest, ZeroResponse.(rtype := t), [], progress)
  }

  /**
   * The type test compares connection[i]'s type with the minimiser's, not
   * connection[j]'s: while the minimiser is slot i itself the types always
   * agree and progress decides, so a file transfer with less progress is
   * dropped before a directory listing.
   */
  lemma TypeComparedWithOuterSlot()
    ensures var vs := [Sending(Peer('a'), FILE, 5), Sending(Peer('a'), DIRLISTING, 9)];
      DropCandidate(vs) == Some(0) && vs[0].resp.rtype == FILE && vs[1].resp.rtype == DIRLISTING
  {
    var vs := [Sending(Peer('a'), FILE, 5), Sending(Peer('a'), DIRLISTING, 9)];
    assert InGroup(vs, 0, 1) && InGroup(vs, 1, 0);
    SameAddrEquivalence(vs[0].addr, vs[0].addr, vs[0].addr);
    SameAddrEquivalence(vs[1].addr, vs[1].addr, vs[1].addr);
    assert GroupSize(vs, 0) == 2 && GroupSize(vs, 1) == 2;
    assert GroupMin(vs, 0) == 0;
    DropFromFirstGreediest(vs, 0);
  }

  /** The group size of slot i in a table of four, slot by slot. */
  lemma CountOfFour(vs: seq<ConnView>, i: nat)
    requires |vs| == 4 && i < 4
    ensures GroupSize(vs, i) ==
      (if InGroup(vs, i, 0) then 1 else 0) + (if InGroup(vs, i, 1) then 1 else 0) +
      (if InGroup(vs, i, 2) then 1 else 0) + (if InGroup(vs, i, 3) then 1 else 0)
  {
    assert Count(vs, i, 1) == if InGroup(vs, i, 0) then 1 else 0;
    assert Count(vs, i, 2) == Count(vs, i, 1) + if InGroup(vs, i, 1) then 1 else 0;
    assert Count(vs, i, 3) == Count(vs, i, 2) + if InGroup(vs, i, 2) then 1 else 0;
  }

  /**
   * Three connections of one peer (receiving a header, sending a file,
   * sending a listing at progress 0) and one of another peer (sending a
   * header): the candidate is the one still receiving its header, the
   * lowest state of the larger group, not the listing.
   */
  lemma LowestStateEvictedFirst()
    ensures var a := Peer('a');
      var vs := [ZeroView.(state := RECV_HEADER, fd := 3, addr := a), Sending(a, FILE, 100),
                 Sending(a, DIRLISTING, 0), ZeroView.(state := SEND_HEADER, fd := 4, addr := Peer('b'))];
      DropCandidate(vs) == Some(0)
  {
    var a := Peer('a');
    var vs := [ZeroView.(state := RECV_HEADER, fd := 3, addr := a), Sending(a, FILE, 100),
               Sending(a, DIRLISTING, 0), ZeroView.(state := SEND_HEADER, fd := 4, addr := Peer('b'))];
    assert InAddr(Peer('b'))[0] != InAddr(a)[0];
    SameAddrEquivalence(a, a, a);
    SameAddrEquivalence(Peer('b'), Peer('b'), Peer('b'));
    assert !SameAddr(a, Peer('b')) && !SameAddr(Peer('b'), a);
    assert InGroup(vs, 0, 1) && InGroup(vs, 0, 2) && !InGroup(vs, 0, 3);
    assert InGroup(vs, 1, 0) && InGroup(vs, 1, 2) && !InGroup(vs, 1, 3);
    assert InGroup(vs, 2, 0) && InGroup(vs, 2, 1) && !InGroup(vs, 2, 3);
    assert !InGroup(vs, 3, 0) && !InGroup(vs, 3, 1) && !InGroup(vs, 3, 2);
    CountOfFour(vs, 0);
    CountOfFour(vs, 1);
    CountOfFour(vs, 2);
    CountOfFour(vs, 3);
    assert GroupSize(vs, 0) == 3 && GroupSize(vs, 1) == 3 && GroupSize(vs, 2) == 3 && GroupSize(vs, 3) == 1;
    assert FirstGreediest(vs, 0);
    DropFromFirstGreediest(vs, 0);
    GroupMinIsMinimal(vs, 0);
  }

  // ---------------------------------------------------------------------
  // accept_con: the specification

  /** The index of the first slot from i on whose descriptor is 0, or |vs|. */
  function FirstVacant(vs: seq<ConnView>, i: nat): (k: nat)
    requires i <= |vs|
    ensures i <= k <= |vs|
    ensures k < |vs| ==> vs[k].fd == 0
    ensures forall j :: i <= j < k ==> vs[j].fd != 0
    decreases |vs| - i
  {
    if i == |vs| then |vs|
    else if vs[i].fd == 0 then i
    else FirstVacant(vs, i + 1)
  }

  /** The slot accept_con fills: the lowest vacant one, else the drop candidate. */
  function AcceptSlot(vs: seq<ConnView>): (k: nat)
    requires |vs| >= 1
    ensures k < |vs|
  {
    var f := FirstVacant(vs, 0);
    if f < |vs| then f
    else
      DropNeverNone(vs);
      DropCandidate(vs).value
  }

  /**
   * The slot after accept: zeroed first when it was evicted; accept's
   * result goes into the descriptor, and only a successful accept writes
   * the peer address.
   */
  function Accepted(v: ConnView, evicted: bool, accepted: int, peer: SockAddr): ConnView
  {
    var w := if evicted then ZeroView else v;
    if accepted < 0 then w.(fd := accepted) else w.(fd := accepted, addr := peer)
  }

  /** Zeroing an evicted slot and then admitting into it is admitting into the evicted slot. */
  lemma AcceptedView(vs: seq<ConnView>, vs1: seq<ConnView>, k: nat, evicted: bool, accepted: int, peer: SockAddr)
    requires k < |vs| && vs1 == if evicted then vs[k := ZeroView] else vs
    ensures vs1[k := Accepted(vs1[k], false, accepted, peer)] == vs[k := Accepted(vs[k], evicted, accepted, peer)]
  {
    if evicted {
      UpdateTwice(vs, k, ZeroView, Accepted(ZeroView, false, accepted, peer));
    }
  }

  /** A vacant slot is always preferred: eviction happens only in a table with no descriptor 0. */
  lemma VacantBeforeEviction(vs: seq<ConnView>, j: nat)
    requires j < |vs| && vs[j].fd == 0
    ensures AcceptSlot(vs) <= j && vs[AcceptSlot(vs)].fd == 0
  {
  }

  // ---------------------------------------------------------------------
  // The slots

  /** struct conn_t. */
  class Conn {
    var state: ConnState
    var fd: int
    var addr: SockAddr
    var req: Request
    var resp: Response
    const buf: Buffer
    var progress: nat

    ghost function View(): ConnView
      reads this, buf, buf.data
      requires buf.Valid()
    {
      ConnView(state, fd, addr, req, resp, buf.Contents(), progress)
    }

    /** The contents are coherent, and while a header is received the bytes behind it are NUL. */
    ghost predicate Valid()
      reads this, buf, buf.data
    {
      buf.Valid() && Coherent(View()) &&
      (state == RECV_HEADER ==> forall k :: buf.length <= k < BUFFER_SIZE ==> buf.data[k] == '\0')
    }

    constructor ()
      ensures Valid() && View() == ZeroView && fresh(buf) && fresh(buf.data)
    {
      state := VACANT;
      fd := 0;
      addr := ZeroAddr;
      req := ZeroRequest;
      resp := ZeroResponse;
      progress := 0;
      buf := new Buffer();
    }

    /** reset_con on a slot: shutdown and close are left out; the whole slot is zeroed. */
    method Reset()
      requires buf.Valid()
      modifies this, buf, buf.data
      ensures Valid() && View() == ZeroView
    {
      buf.Zero();
      state := VACANT;
      fd := 0;
      addr := ZeroAddr;
      req := ZeroRequest;
      resp := ZeroResponse;
      progress := 0;
    }

    /** The eviction in accept_con: status 0, so that reset_con logs nothing, then the reset. */
    method Drop()
      requires buf.Valid()
      modifies this, buf, buf.data
      ensures Valid() && View() == ZeroView
    {
      resp := resp.(status := 0);
      Reset();
    }

    /** serve_con. */
    method Serve(env: Env)
      requires Valid() && EnvOk(env)
      modifies this, buf, buf.data
      ensures Valid() && View() == Served(old(View()), env)
    {
      match state
      case VACANT =>
        buf.Zero();
        state := RECV_HEADER;
        ReceiveStep(env);
      case RECV_HEADER =>
        ReceiveStep(env);
      case SEND_HEADER =>
        SendHeaderStep(env);
      case SEND_BODY =>
        BodyStep(env);
    }

    method ReceiveStep(env: Env)
      requires Valid() && EnvOk(env) && state == RECV_HEADER
      modifies this, buf, buf.data
      ensures Valid() && View() == Receiving(old(View()), env)
    {
      ghost var v := View();
      ghost var o := Receive(v.held, env.rscript);
      ReceiveKeeps(v.held, env.rscript);
      var s, done := ReceiveHeader(buf, env.rscript);
      if s != 0 {
        assert o.RecvFailed? && View() == v.(held := []);
        Respond(PrepareErrResponse(s), env);
        return;
      }
      if !done {
        assert o.RecvBlocked? && View() == v.(held := o.held);
        return;
      }
      assert View() == v.(held := buf.Contents());
      ReceivedComplete(v, env, buf.Contents());
      ParseAndRespond(o.held, env);
    }

    /**
     * A complete header in the buffer: parse the C string at buf.data
     * (with the bytes of buf.length when no NUL ends it), then respond.
     */
    method ParseAndRespond(ghost h: seq<char>, env: Env)
      requires buf.Valid() && EnvOk(env) && progress == 0
      requires |h| <= BUFFER_SIZE && buf.data[..|h|] == h && buf.length + 2 == |h|
      requires forall k :: |h| <= k < BUFFER_SIZE ==> buf.data[k] == '\0'
      modifies this, buf, buf.data
      ensures Valid()
      ensures var p := ParseRequest(HeaderString(h));
        var v := old(View()).(req := p.req);
        View() == if p.status != 0 then Responding(v, PrepareErrResponse(p.status), env)
                  else Responding(v, env.prepare(p.req), env)
    {
      if |h| < BUFFER_SIZE {
        CStringThroughNul(buf.data[..], h);
      } else {
        assert buf.data[..] == h;
      }
      var text := CString(buf.data[..]);
      if |text| == buf.data.Length {
        text := text + SizeLowBytes(buf.length);
      }
      var ps, q := ParseHeader(text);
      req := q;
      if ps != 0 {
        Respond(PrepareErrResponse(ps), env);
        return;
      }
      Respond(env.prepare(q), env);
    }

    /** The `response:` label of serve_con: header generation with one retry as a 500. */
    method Respond(r: Response, env: Env)
      requires buf.Valid() && progress == 0 && EnvOk(env) && r.lower <= SIZE_MAX && r.upper <= SIZE_MAX
      modifies this, buf, buf.data
      ensures Valid() && View() == Responding(old(View()), r, env)
    {
      resp := r;
      var s := PrepHeaderBuf(resp, env.date, buf);
      if s != 0 {
        resp := PrepareErrResponse(s);
        s := PrepHeaderBuf(resp, env.date, buf);
        if s != 0 {
          resp := resp.(status := s);
          Reset();
          return;
        }
      }
      state := SEND_HEADER;
      SendHeaderStep(env);
    }

    method SendHeaderStep(env: Env)
      requires Valid() && EnvOk(env) && state == SEND_HEADER
      modifies this, buf, buf.data
      ensures Valid() && View() == SendingHeader(old(View()), env)
    {
      SendSplits(buf.Contents(), env.wscript);
      var s := SendBuffer(buf, env.wscript);
      if s != 0 {
        resp := resp.(status := s);
        Reset();
        return;
      }
      if buf.length > 0 {
        return;
      }
      state := SEND_BODY;
      BodyStep(env);
    }

    method BodyStep(env: Env)
      requires Valid() && EnvOk(env) && state == SEND_BODY
      modifies this, buf, buf.data
      ensures Valid() && View() == SendingBody(old(View()), env)
    {
      if req.meth == GET {
        if buf.length == 0 {
          var s, p := Fill(resp, buf, progress, env.file, env.entries);
          progress := p;
          if s != 0 {
            resp := resp.(status := s);
            Reset();
            return;
          }
          if buf.length == 0 {
            Reset();
            return;
          }
        } else {
          SendSplits(buf.Contents(), env.wscript);
          var s := SendBuffer(buf, env.wscript);
          if s != 0 {
            resp := resp.(status := s);
            Reset();
            return;
          }
        }
        return;
      }
      Reset();
    }
  }

  // ---------------------------------------------------------------------
  // The table

  /** No two slots share their connection, buffer or buffer array. */
  predicate Distinct(cs: seq<Conn>)
  {
    forall i, j :: 0 <= i < |cs| && 0 <= j < |cs| && i != j ==>
      cs[i] != cs[j] && cs[i].buf != cs[j].buf && cs[i].buf.data != cs[j].buf.data
  }

  /** One step of the inner loop of connection_get_drop_candidate. */
  lemma ScanStep(vs: seq<ConnView>, i: nat, j: nat, c: nat, c': nat, same: bool)
    requires i < |vs| && j < |vs| && c < |vs|
    requires same == InGroup(vs, i, j) && c' == if same then Better(vs, i, j, c) else c
    ensures c' < |vs|
    ensures GroupMinFrom(vs, i, j + 1, c') == GroupMinFrom(vs, i, j, c)
    ensures Count(vs, i, j + 1) == Count(vs, i, j) + if same then 1 else 0
  {
  }

  /** Two updates of one index: the second wins. */
  lemma UpdateTwice<T>(s: seq<T>, k: nat, a: T, b: T)
    requires k < |s|
    ensures s[k := a][k := b] == s[k := b]
  {
  }

  /** n freshly allocated, zeroed connections, pairwise distinct down to their buffers. */
  method NewConns(n: nat) returns (cs: seq<Conn>, ghost objs: set<object>)
    ensures |cs| == n && fresh(objs)
    ensures forall i :: 0 <= i < |cs| ==> cs[i] in objs && cs[i].buf in objs && cs[i].buf.data in objs
    ensures Distinct(cs)
    ensures forall i :: 0 <= i < |cs| ==> cs[i].Valid() && cs[i].View() == ZeroView
  {
    cs := [];
    objs := {};
    while |cs| < n
      invariant |cs| <= n && fresh(objs)
      invariant forall i :: 0 <= i < |cs| ==> cs[i] in objs && cs[i].buf in objs && cs[i].buf.data in objs
      invariant Distinct(cs)
      invariant forall i :: 0 <= i < |cs| ==> cs[i].Valid() && cs[i].View() == ZeroView
    {
      var c := new Conn();
      assert c !in objs && c.buf !in objs && c.buf.data !in objs;
      cs := cs + [c];
      objs := objs + {c, c.buf, c.buf.data};
    }
  }

  /** The connection array of one worker: nslots slots, each with its own buffer. */
  class ConnTable {
    const slots: array<Conn>
    ghost var Repr: set<object>

    ghost predicate Valid()
      reads this, Repr
    {
      slots in Repr &&
      (forall i :: 0 <= i < slots.Length ==>
        slots[i] in Repr && slots[i].buf in Repr && slots[i].buf.data in Repr) &&
      Distinct(slots[..]) &&
      (forall i :: 0 <= i < slots.Length ==> slots[i].Valid())
    }

    /** The contents of every slot, in order. */
    ghost function Views(): (vs: seq<ConnView>)
      reads this, Repr
      requires Valid()
      ensures |vs| == slots.Length
      ensures forall i :: 0 <= i < slots.Length ==> vs[i] == slots[i].View()
    {
      seq(slots.Length, i reads this, Repr requires 0 <= i < slots.Length && Valid() => slots[i].View())
    }

    /** A table of n zeroed slots. */
    constructor (n: nat)
      ensures Valid() && fresh(Repr) && slots.Length == n
      ensures forall i :: 0 <= i < n ==> Views()[i] == ZeroView
    {
      var cs, objs := NewConns(n);
      var a := new Conn[n](i requires 0 <= i < n => cs[i]);
      assert a[..] == cs;
      slots := a;
      Repr := objs + {a};
    }
  
    /** connection_get_drop_candidate: the index of the slot to evict, None only for an empty table. */
    method GetDropCandidate() returns (m: Option<nat>)
      requires Valid()
      ensures m == DropCandidate(Views())
    {
      ghost var vs := Views();
      var maxcnt := 0;
      m := None;
      var i := 0;
      while i < slots.Length
        invariant 0 <= i <= slots.Length
        invariant DropFrom(vs, i, m, maxcnt) == DropCandidate(vs)
      {
        var c, cnt := ScanGroup(vs, i);
        if cnt > maxcnt {
          m := Some(c);
          maxcnt := cnt;
        }
        i := i + 1;
      }
    }

    /** The inner loop for outer index i: the size of i's address group and its minimiser. */
    method ScanGroup(ghost vs: seq<ConnView>, i: nat) returns (c: nat, cnt: nat)
      requires Valid() && vs == Views() && i < |vs|
      ensures c == GroupMin(vs, i) && cnt == GroupSize(vs, i)
    {
      c := i;
      cnt := 0;
      var j := 0;
      assert ViewsAre(vs);
      while j < slots.Length
        invariant |vs| == slots.Length && 0 <= j <= |vs| && c < |vs|
        invariant cnt == Count(vs, i, j)
        invariant GroupMinFrom(vs, i, j, c) == GroupMin(vs, i)
      {
        var same;
        ghost var c0 := c;
        c, same := Visit(vs, i, j, c);
        ScanStep(vs, i, j, c0, c, same);
        if same {
          cnt := cnt + 1;
        }
        j := j + 1;
      }
    }

    /** vs is the view of every slot: what the scan reads through the slots, without the frame. */
    ghost predicate ViewsAre(vs: seq<ConnView>)
      reads this, slots, set k | 0 <= k < slots.Length :: slots[k],
        set k | 0 <= k < slots.Length :: slots[k].buf, set k | 0 <= k < slots.Length :: slots[k].buf.data
    {
      |vs| == slots.Length &&
      forall k :: 0 <= k < slots.Length ==> slots[k].buf.Valid() && vs[k] == slots[k].View()
    }

    /** The body of the inner loop: whether j shares i's address, and the new minimiser. */
    method Visit(ghost vs: seq<ConnView>, i: nat, j: nat, c: nat) returns (c': nat, same: bool)
      requires ViewsAre(vs) && i < |vs| && j < |vs| && c < |vs|
      ensures same == InGroup(vs, i, j)
      ensures c' == if same then Better(vs, i, j, c) else c
    {
      assert vs[i] == slots[i].View() && vs[j] == slots[j].View() && vs[c] == slots[c].View();
      c' := c;
      same := SameAddr(slots[i].addr, slots[j].addr);
      if !same {
        return;
      }
      if StateRank(slots[j].state) < StateRank(slots[c].state) {
        c' := j;
      } else if slots[j].state == slots[c].state {
        if slots[c].state == SEND_BODY && slots[i].resp.rtype != slots[c].resp.rtype {
          if TypeRank(slots[i].resp.rtype) < TypeRank(slots[c].resp.rtype) {
            c' := j;
          }
        } else if slots[j].progress < slots[c].progress {
          c' := j;
        }
      }
    }

    /** reset_con: None (NULL) does nothing; a slot is zeroed and nothing else changes. */
    method ResetCon(k: Option<nat>)
      requires Valid() && (k.Some? ==> k.value < slots.Length)
      modifies Repr
      ensures Valid() && Repr == old(Repr)
      ensures Views() == if k.None? then old(Views()) else old(Views())[k.value := ZeroView]
    {
      if k.Some? {
        slots[k.value].Reset();
        assert slots[..] == old(slots[..]);
      }
    }

    /** serve_con on slot k: that slot takes one step and nothing else changes. */
    method ServeCon(k: nat, env: Env)
      requires Valid() && k < slots.Length && EnvOk(env)
      modifies Repr
      ensures Valid() && Repr == old(Repr)
      ensures Views() == old(Views())[k := Served(old(Views())[k], env)]
    {
      slots[k].Serve(env);
      assert slots[..] == old(slots[..]);
    }

    /**
     * accept_con: the lowest slot with descriptor 0, or else the drop
     * candidate (status 0 for the log, then reset); accept's result goes into
     * its descriptor. A failed accept or a failed switch to non-blocking mode
     * returns None; the slot keeps what was written.
     */
    method AcceptCon(accepted: int, peer: SockAddr, unblocked: bool) returns (c: Option<nat>)
      requires Valid() && slots.Length >= 1
      modifies Repr
      ensures Valid() && Repr == old(Repr)
      ensures var vs := old(Views());
        var k := AcceptSlot(vs);
        Views() == vs[k := Accepted(vs[k], FirstVacant(vs, 0) == |vs|, accepted, peer)] &&
        c == if accepted < 0 || !unblocked then None else Some(k)
    {
      ghost var vs := Views();
      var i := FindVacant();
      var k: nat;
      if i == slots.Length {
        k := Evict();
        assert k == AcceptSlot(vs);
      } else {
        k := i;
      }
      ghost var vs1 := Views();
      Admit(k, accepted, peer);
      AcceptedView(vs, vs1, k, i == slots.Length, accepted, peer);
      if accepted < 0 || !unblocked {
        return None;
      }
      return Some(k);
    }

    /** The scan of accept_con for a slot with descriptor 0. */
    method FindVacant() returns (i: nat)
      requires Valid()
      ensures i == FirstVacant(Views(), 0)
    {
      ghost var vs := Views();
      i := 0;
      while i < slots.Length
        invariant 0 <= i <= slots.Length
        invariant FirstVacant(vs, i) == FirstVacant(vs, 0)
      {
        if slots[i].fd == 0 {
          return;
        }
        i := i + 1;
      }
    }

    /** A full table: the drop candidate gets status 0 for the log and is reset. */
    method Evict() returns (k: nat)
      requires Valid() && slots.Length >= 1
      modifies Repr
      ensures Valid() && Repr == old(Repr)
      ensures DropCandidate(old(Views())) == Some(k) && k < slots.Length
      ensures Views() == old(Views())[k := ZeroView]
    {
      DropNeverNone(Views());
      var m := GetDropCandidate();
      k := m.value;
      slots[k].Drop();
      assert slots[..] == old(slots[..]);
    }

    /** accept(2) into slot k: its result becomes the descriptor; only a success writes the peer address. */
    method Admit(k: nat, accepted: int, peer: SockAddr)
      requires Valid() && k < slots.Length
      modifies Repr
      ensures Valid() && Repr == old(Repr)
      ensures Views() == old(Views())[k := Accepted(old(Views())[k], false, accepted, peer)]
    {
      slots[k].fd := accepted;
      if accepted >= 0 {
        slots[k].addr := peer;
      }
      assert slots[..] == old(slots[..]);
    }
  }
}
