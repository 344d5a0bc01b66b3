/**
 * The select(2) backend of the event queue (queue_select.c): per queue a
 * read and a write interest set, the highest registered descriptor, and a
 * fixed array of registrations {queue, descriptor, event type, data}. The
 * ready sets pselect would return are inputs of the event scan; the data
 * pointers are opaque tokens, 0 standing for NULL.
 */
module QueueSelect {
  import opened Util

  const MAX_QUEUES: nat := 10
  const MAX_FD_PER_QUEUE: nat := 1024

  /** enum queue_event_type. */
  datatype EventType = IN | OUT

  /** A void * data pointer, compared only for identity. */
  type Ptr = nat
  const NULL: Ptr := 0

  /** file_desc_info: one registration. */
  datatype FdInfo = FdInfo(queueId: int, fd: int, etype: EventType, data: Ptr)

  /** A statically zeroed registration (type 0 is QUEUE_EVENT_IN). */
  const ZeroInfo := FdInfo(0, 0, IN, NULL)

  /** The fields of queue_event the select backend fills in. */
  datatype Event = Event(events: EventType, fd: int, queueId: int)

  /** One queue: its interest sets, num_fds, the maximum descriptor and its row of fd_array. */
  datatype QueueView = QueueView(read: set<int>, write: set<int>, count: int, maxFd: int, row: seq<FdInfo>)

  /** All queues and how many were created. */
  datatype Registry = Registry(numQueues: int, queues: seq<QueueView>)

  predicate RowOk(v: QueueView)
  {
    |v.row| == MAX_FD_PER_QUEUE && v.count <= MAX_FD_PER_QUEUE
  }

  predicate RegistryOk(s: Registry)
  {
    0 <= s.numQueues <= MAX_QUEUES && |s.queues| == MAX_QUEUES &&
    forall q :: 0 <= q < |s.queues| ==> RowOk(s.queues[q])
  }

  /** A queue index the bounds checks accept. */
  predicate IsQueue(s: Registry, qfd: int)
  {
    0 <= qfd < s.numQueues
  }

  /** How many entries the `i < num_fds` loops visit: none once num_fds is negative. */
  function Active(v: QueueView): (n: nat)
    requires RowOk(v)
    ensures n <= |v.row|
  {
    if v.count < 0 then 0 else v.count
  }

  /** The result of an operation on the registry: the new registry and the return value. */
  datatype Step = Step(reg: Registry, ret: int)

  // ---------------------------------------------------------------------
  // Searching the entries

  /** The data of the first entry of es for descriptor fd and type t. */
  function Search(es: seq<FdInfo>, fd: int, t: EventType): Option<Ptr>
  {
    if es == [] then None
    else if es[0].fd == fd && es[0].etype == t then Some(es[0].data)
    else Search(es[1..], fd, t)
  }

  /** queue_event_get_data: the first active entry matching the event's descriptor and type, else NULL. */
  function DataOf(s: Registry, e: Event): Ptr
    requires RegistryOk(s) && 0 <= e.queueId < MAX_QUEUES
  {
    var v := s.queues[e.queueId];
    match Search(v.row[..Active(v)], e.fd, e.events)
    case Some(d) => d
    case None => NULL
  }

  /** Whether some active entry of the event's queue matches it. */
  predicate Registered(s: Registry, e: Event)
    requires RegistryOk(s) && 0 <= e.queueId < MAX_QUEUES
  {
    var v := s.queues[e.queueId];
    Search(v.row[..Active(v)], e.fd, e.events).Some?
  }

  /** The index of the first entry from i below n whose descriptor is fd, or n. */
  function FirstFd(row: seq<FdInfo>, n: nat, i: nat, fd: int): (k: nat)
    requires i <= n <= |row|
    ensures i <= k <= n
    ensures k < n ==> row[k].fd == fd
    ensures forall j :: i <= j < k ==> row[j].fd != fd
    decreases n - i
  {
    if i == n then n
    else if row[i].fd == fd then i
    else FirstFd(row, n, i + 1, fd)
  }

  // ---------------------------------------------------------------------
  // The operations, over the registry

  /**
   * queue_create: a new queue with empty sets, num_fds 0 and maximum -1.
   * The return value is num_queues - 1 read afterwards, so a full registry
   * answers with its last queue instead of an error.
   */
  function Created(s: Registry): Step
    requires RegistryOk(s)
  {
    if s.numQueues < MAX_QUEUES then
      var q := s.numQueues;
      Step(Registry(q + 1, s.queues[q := QueueView({}, {}, 0, -1, s.queues[q].row)]), q)
    else Step(s, s.numQueues - 1)
  }

  /**
   * queue_add_fd: -1 for an unknown queue or a full one; otherwise the
   * maximum rises to fd, fd joins the set of its type and the registration
   * is stored at index num_fds, which grows by one.
   */
  function Added(s: Registry, qfd: int, fd: int, t: EventType, data: Ptr): Step
    requires RegistryOk(s) && (IsQueue(s, qfd) ==> s.queues[qfd].count >= 0)
  {
    if !IsQueue(s, qfd) then Step(s, -1)
    else
      var v := s.queues[qfd];
      if v.count >= MAX_FD_PER_QUEUE then Step(s, -1)
      else
        var w := QueueView(if t == IN then v.read + {fd} else v.read,
                           if t == OUT then v.write + {fd} else v.write,
                           v.count + 1,
                           if fd > v.maxFd then fd else v.maxFd,
                           v.row[v.count := FdInfo(qfd, fd, t, data)]);
        Step(s.(queues := s.queues[qfd := w]), 0)
  }

  /**
   * The interest sets after queue_mod_fd. Both branches test the write set:
   * a descriptor already in it keeps both sets as they are, whatever type
   * is asked for.
   */
  function ModSets(read: set<int>, write: set<int>, fd: int, t: EventType): (set<int>, set<int>)
  {
    if fd in write then (read, write)
    else if t == IN then (read + {fd}, write - {fd})
    else (read - {fd}, write + {fd})
  }

  /**
   * queue_mod_fd: -1 for an unknown queue or a descriptor outside
   * [0, maximum]; otherwise the sets per ModSets and the first active entry
   * for fd, if any, gets the new type and data.
   */
  function Modified(s: Registry, qfd: int, fd: int, t: EventType, data: Ptr): Step
    requires RegistryOk(s)
  {
    if !IsQueue(s, qfd) then Step(s, -1)
    else
      var v := s.queues[qfd];
      if fd < 0 || fd > v.maxFd then Step(s, -1)
      else Step(s.(queues := s.queues[qfd := ModQueue(v, fd, t, data)]), 0)
  }

  /** The queue after a successful queue_mod_fd. */
  function ModQueue(v: QueueView, fd: int, t: EventType, data: Ptr): QueueView
    requires RowOk(v)
  {
    var sets := ModSets(v.read, v.write, fd, t);
    var k := FirstFd(v.row, Active(v), 0, fd);
    var row := if k < Active(v) then v.row[k := v.row[k].(data := data, etype := t)] else v.row;
    v.(read := sets.0, write := sets.1, row := row)
  }

  /**
   * queue_rem_fd as written: -1 for an unknown queue or a descriptor
   * outside [0, maximum]; otherwise fd leaves both sets and num_fds drops
   * by one. The entries stay as they are: the memset that was to clear a
   * matching entry has its value and length swapped, so it writes nothing.
   */
  function Removed(s: Registry, qfd: int, fd: int): Step
    requires RegistryOk(s)
  {
    if !IsQueue(s, qfd) then Step(s, -1)
    else
      var v := s.queues[qfd];
      if fd < 0 || fd > v.maxFd then Step(s, -1)
      else Step(s.(queues := s.queues[qfd := v.(read := v.read - {fd}, write := v.write - {fd}, count := v.count - 1)]), 0)
  }

  // ---------------------------------------------------------------------
  // The event scan of queue_wait

  /** The IN event for fd, if fd is read-ready. */
  function InEvent(r: set<int>, fd: int, qfd: int): seq<Event>
  {
    if fd in r then [Event(IN, fd, qfd)] else []
  }

  /**
   * The scan over descriptors fd..maxFd with room events left, as written:
   * the room is checked once per descriptor, so a read event that takes
   * the last place is still followed by the write event for that
   * descriptor.
   */
  function ReadyEventsAsWritten(r: set<int>, w: set<int>, fd: int, maxFd: int, qfd: int, room: int): seq<Event>
    decreases if fd <= maxFd then maxFd - fd + 1 else 0
  {
    if fd > maxFd || room <= 0 then []
    else
      var ins := InEvent(r, fd, qfd);
      var outs := if fd in w then [Event(OUT, fd, qfd)] else [];
      ins + outs + ReadyEventsAsWritten(r, w, fd + 1, maxFd, qfd, room - |ins| - |outs|)
  }

  /**
   * The scan with the room checked before each event: ascending
   * descriptors from fd to maxFd, IN before OUT, each tagged with the
   * queue, never more than room events.
   */
  function ReadyEvents(r: set<int>, w: set<int>, fd: int, maxFd: int, qfd: int, room: nat): (es: seq<Event>)
    ensures |es| <= room
    decreases if fd <= maxFd then maxFd - fd + 1 else 0
  {
    if fd > maxFd || room == 0 then []
    else
      var ins := InEvent(r, fd, qfd);
      var left := room - |ins|;
      var outs := if fd in w && left > 0 then [Event(OUT, fd, qfd)] else [];
      ins + outs + ReadyEvents(r, w, fd + 1, maxFd, qfd, left - |outs|)
  }

  // ---------------------------------------------------------------------
  // queue_rem_fd as evidently intended

  /** The entries of es for descriptors other than fd, in order. */
  function Keep(es: seq<FdInfo>, fd: int): (ks: seq<FdInfo>)
    ensures |ks| <= |es|
  {
    if es == [] then []
    else if es[0].fd == fd then Keep(es[1..], fd)
    else [es[0]] + Keep(es[1..], fd)
  }

  /**
   * queue_rem_fd with the entries of fd actually removed and the rest
   * moved together, as the comment on its loop describes: num_fds becomes
   * the number of entries kept.
   */
  function RemovedCompacting(s: Registry, qfd: int, fd: int): Step
    requires RegistryOk(s)
  {
    if !IsQueue(s, qfd) then Step(s, -1)
    else
      var v := s.queues[qfd];
      if fd < 0 || fd > v.maxFd then Step(s, -1)
      else
        var kept := Keep(v.row[..Active(v)], fd);
        var w := QueueView(v.read - {fd}, v.write - {fd}, |kept|, v.maxFd, kept + v.row[|kept|..]);
        Step(s.(queues := s.queues[qfd := w]), 0)
  }

  // ---------------------------------------------------------------------
  // Properties of the search

  /** Searching a sequence with one more entry at its end. */
  lemma {:induction false} SearchAppend(es: seq<FdInfo>, x: FdInfo, fd: int, t: EventType)
    ensures Search(es + [x], fd, t) ==
      if Search(es, fd, t).Some? then Search(es, fd, t)
      else if x.fd == fd && x.etype == t then Some(x.data) else None
  {
    if es != [] {
      assert (es + [x])[1..] == es[1..] + [x];
      SearchAppend(es[1..], x, fd, t);
    }
  }

  /** The search stops at the first entry for the descriptor when that entry has the type asked for. */
  lemma {:induction false} SearchFirstFd(es: seq<FdInfo>, k: nat, fd: int, t: EventType)
    requires k < |es| && es[k].fd == fd && es[k].etype == t
    requires forall j :: 0 <= j < k ==> es[j].fd != fd
    ensures Search(es, fd, t) == Some(es[k].data)
  {
    if k > 0 {
      SearchFirstFd(es[1..], k - 1, fd, t);
    }
  }

  /** Dropping the entries of fd forgets fd and nothing else. */
  lemma {:induction false} SearchKeep(es: seq<FdInfo>, fd: int, x: int, t: EventType)
    ensures Search(Keep(es, fd), x, t) == if x == fd then None else Search(es, x, t)
  {
    if es != [] {
      SearchKeep(es[1..], fd, x, t);
      if es[0].fd != fd {
        assert ([es[0]] + Keep(es[1..], fd))[1..] == Keep(es[1..], fd);
      }
    }
  }

  // ---------------------------------------------------------------------
  // Properties of the operations

  /**
   * queue_create hands out the queues in order; once all MAX_QUEUES exist
   * it answers with the last one rather than an error, and changes nothing.
   */
  lemma CreatedIndex(s: Registry)
    requires RegistryOk(s)
    ensures var o := Created(s);
      RegistryOk(o.reg) && IsQueue(o.reg, o.ret) &&
      (s.numQueues < MAX_QUEUES ==>
        o.ret == s.numQueues && !IsQueue(s, o.ret) &&
        o.reg.queues[o.ret].count == 0 && o.reg.queues[o.ret].maxFd == -1) &&
      (s.numQueues == MAX_QUEUES ==> o.ret == MAX_QUEUES - 1 && o.reg == s)
  {
  }

  /**
   * queue_add_fd fails exactly for an unknown or full queue, and then
   * changes nothing. After a success an event of the new registration's
   * descriptor and type finds the new data unless an earlier registration
   * already answers it; every other lookup is unchanged.
   */
  lemma AddThenData(s: Registry, qfd: int, fd: int, t: EventType, data: Ptr, e: Event)
    requires RegistryOk(s) && (IsQueue(s, qfd) ==> s.queues[qfd].count >= 0)
    requires 0 <= e.queueId < MAX_QUEUES
    ensures var o := Added(s, qfd, fd, t, data);
      RegistryOk(o.reg) && o.ret in {0, -1} &&
      (o.ret == -1 <==> !IsQueue(s, qfd) || s.queues[qfd].count >= MAX_FD_PER_QUEUE) &&
      (o.ret == -1 ==> o.reg == s) &&
      (o.ret == 0 ==>
        fd in (if t == IN then o.reg.queues[qfd].read else o.reg.queues[qfd].write) &&
        o.reg.queues[qfd].maxFd >= fd &&
        DataOf(o.reg, e) ==
          if e == Event(t, fd, qfd) && !Registered(s, e) then data else DataOf(s, e))
  {
    var o := Added(s, qfd, fd, t, data);
    if o.ret == 0 && e.queueId == qfd {
      var v := s.queues[qfd];
      var x := FdInfo(qfd, fd, t, data);
      assert o.reg.queues[qfd].row[..Active(v) + 1] == v.row[..Active(v)] + [x];
      SearchAppend(v.row[..Active(v)], x, e.fd, e.events);
    }
  }

  /**
   * After a successful queue_mod_fd for a descriptor with an active entry,
   * an event of the new type for it finds the new data.
   */
  lemma ModThenData(s: Registry, qfd: int, fd: int, t: EventType, data: Ptr)
    requires RegistryOk(s) && IsQueue(s, qfd) && 0 <= fd <= s.queues[qfd].maxFd
    requires var v := s.queues[qfd]; FirstFd(v.row, Active(v), 0, fd) < Active(v)
    ensures var o := Modified(s, qfd, fd, t, data);
      o.ret == 0 && RegistryOk(o.reg) && DataOf(o.reg, Event(t, fd, qfd)) == data
  {
    var v := s.queues[qfd];
    var o := Modified(s, qfd, fd, t, data);
    var k := FirstFd(v.row, Active(v), 0, fd);
    var w := o.reg.queues[qfd];
    SearchFirstFd(w.row[..Active(w)], k, fd, t);
  }

  /**
   * The interest sets after a successful queue_mod_fd: OUT leaves fd
   * write-ready-watched; IN moves fd to the read set only when it was not
   * in the write set, and otherwise changes neither set. Either way fd
   * stays watched, and only fd's membership can change.
   */
  lemma ModInterest(s: Registry, qfd: int, fd: int, t: EventType, data: Ptr)
    requires RegistryOk(s) && IsQueue(s, qfd) && 0 <= fd <= s.queues[qfd].maxFd
    ensures var v := s.queues[qfd];
      var w := Modified(s, qfd, fd, t, data).reg.queues[qfd];
      (t == OUT ==> fd in w.write) &&
      (t == IN && fd in v.write ==> w.read == v.read && w.write == v.write) &&
      (t == IN && fd !in v.write ==> fd in w.read && fd !in w.write) &&
      fd in w.read + w.write &&
      w.read - {fd} == v.read - {fd} && w.write - {fd} == v.write - {fd} &&
      w.count == v.count && w.maxFd == v.maxFd
  {
  }

  /**
   * queue_rem_fd as written: fd leaves both sets and num_fds drops by one,
   * but every entry stays where it was.
   */
  lemma RemovedKeepsEntries(s: Registry, qfd: int, fd: int)
    requires RegistryOk(s)
    ensures var o := Removed(s, qfd, fd);
      o.ret in {0, -1} &&
      (o.ret == -1 <==> !IsQueue(s, qfd) || fd < 0 || fd > s.queues[qfd].maxFd) &&
      (o.ret == -1 ==> o.reg == s) &&
      (o.ret == 0 ==>
        var v := s.queues[qfd];
        var w := o.reg.queues[qfd];
        fd !in w.read + w.write && w.count == v.count - 1 && w.row == v.row)
  {
  }

  /**
   * The consequence: with registrations for a (first) and b (second) and
   * nothing else, removing a leaves a's data reachable and makes b's
   * unreachable.
   */
  lemma RemoveHidesLastEntry(s: Registry, qfd: int, a: int, b: int, da: Ptr, db: Ptr)
    requires RegistryOk(s) && IsQueue(s, qfd) && a != b && 0 <= a <= s.queues[qfd].maxFd
    requires var v := s.queues[qfd];
      v.count == 2 && v.row[0] == FdInfo(qfd, a, IN, da) && v.row[1] == FdInfo(qfd, b, IN, db)
    ensures var s' := Removed(s, qfd, a).reg;
      RegistryOk(s') &&
      DataOf(s, Event(IN, b, qfd)) == db && DataOf(s', Event(IN, b, qfd)) == NULL &&
      DataOf(s', Event(IN, a, qfd)) == da
  {
    var v := s.queues[qfd];
    var s' := Removed(s, qfd, a).reg;
    var x, y := v.row[0], v.row[1];
    assert v.row[..2] == [x, y] && [x, y][1..] == [y] && [y][1..] == [];
    assert Search([x, y], b, IN) == Search([y], b, IN) == Some(db);
    assert s'.queues[qfd].row[..1] == [x] && [x][1..] == [];
    assert Search([x], b, IN) == Search([], b, IN) == None;
    assert Search([x], a, IN) == Some(da);
  }

  /**
   * The intended removal: afterwards no event of fd finds data, every
   * other lookup is unchanged, and fd is in neither set.
   */
  lemma CompactingForgetsOnlyRemoved(s: Registry, qfd: int, fd: int, e: Event)
    requires RegistryOk(s) && IsQueue(s, qfd) && 0 <= fd <= s.queues[qfd].maxFd
    requires 0 <= e.queueId < MAX_QUEUES
    ensures var s' := RemovedCompacting(s, qfd, fd).reg;
      RegistryOk(s') &&
      fd !in s'.queues[qfd].read + s'.queues[qfd].write &&
      DataOf(s', e) == if e.queueId == qfd && e.fd == fd then NULL else DataOf(s, e)
  {
    var v := s.queues[qfd];
    var kept := Keep(v.row[..Active(v)], fd);
    var s' := RemovedCompacting(s, qfd, fd).reg;
    if e.queueId == qfd {
      assert s'.queues[qfd].row[..Active(s'.queues[qfd])] == kept;
      SearchKeep(v.row[..Active(v)], fd, e.fd, e.events);
    }
  }

  // ---------------------------------------------------------------------
  // Properties of the scan

  /** Event a is reported before event b: a lower descriptor, or the same one with IN before OUT. */
  predicate Precedes(a: Event, b: Event)
  {
    a.fd < b.fd || (a.fd == b.fd && a.events == IN && b.events == OUT)
  }

  /** One descriptor of the scan: its IN event, then its OUT event if room is left, then the rest. */
  lemma ReadyEventsUnfold(r: set<int>, w: set<int>, fd: int, maxFd: int, qfd: int, room: nat)
    requires fd <= maxFd && room > 0
    ensures var ins := InEvent(r, fd, qfd);
      var outs := if fd in w && room - |ins| > 0 then [Event(OUT, fd, qfd)] else [];
      ReadyEvents(r, w, fd, maxFd, qfd, room) ==
        ins + outs + ReadyEvents(r, w, fd + 1, maxFd, qfd, room - |ins| - |outs|)
  {
  }

  /** Every event of es precedes those after it. */
  predicate InOrder(es: seq<Event>)
  {
    forall i, j :: 0 <= i < j < |es| ==> Precedes(es[i], es[j])
  }

  /** Every reported event is for this queue, a descriptor of fd..maxFd, and a ready set that holds it. */
  lemma {:induction false} ScanSound(r: set<int>, w: set<int>, fd: int, maxFd: int, qfd: int, room: nat)
    ensures forall e :: e in ReadyEvents(r, w, fd, maxFd, qfd, room) ==>
      e.queueId == qfd && fd <= e.fd <= maxFd &&
      (e.events == IN ==> e.fd in r) && (e.events == OUT ==> e.fd in w)
    decreases if fd <= maxFd then maxFd - fd + 1 else 0
  {
    if fd <= maxFd && room > 0 {
      var left := room - |InEvent(r, fd, qfd)|;
      var outs := if fd in w && left > 0 then [Event(OUT, fd, qfd)] else [];
      ScanSound(r, w, fd + 1, maxFd, qfd, left - |outs|);
    }
  }

  /** The events come in ascending descriptor order, IN before OUT, with no repeats. */
  lemma {:induction false} ScanOrdered(r: set<int>, w: set<int>, fd: int, maxFd: int, qfd: int, room: nat)
    ensures InOrder(ReadyEvents(r, w, fd, maxFd, qfd, room))
    decreases if fd <= maxFd then maxFd - fd + 1 else 0
  {
    if fd <= maxFd && room > 0 {
      var ins := InEvent(r, fd, qfd);
      var left := room - |ins|;
      var outs := if fd in w && left > 0 then [Event(OUT, fd, qfd)] else [];
      var rest := ReadyEvents(r, w, fd + 1, maxFd, qfd, left - |outs|);
      ScanOrdered(r, w, fd + 1, maxFd, qfd, left - |outs|);
      ScanAbove(r, w, fd + 1, maxFd, qfd, left - |outs|, fd);
      ReadyEventsUnfold(r, w, fd, maxFd, qfd, room);
      OneDescriptorOrdered(r, w, fd, qfd, left);
      OrderedConcat(ins + outs, rest, fd);
    }
  }

  /** Every event of a scan starting at fd is for fd or a higher descriptor. */
  lemma ScanAbove(r: set<int>, w: set<int>, fd: int, maxFd: int, qfd: int, room: nat, lo: int)
    requires lo < fd
    ensures var es := ReadyEvents(r, w, fd, maxFd, qfd, room);
      forall k :: 0 <= k < |es| ==> es[k].fd > lo
  {
    var es := ReadyEvents(r, w, fd, maxFd, qfd, room);
    ScanSound(r, w, fd, maxFd, qfd, room);
    forall k | 0 <= k < |es|
      ensures es[k].fd > lo
    {
      assert es[k] in es;
    }
  }

  /** The events of one descriptor are in order and all carry that descriptor. */
  lemma OneDescriptorOrdered(r: set<int>, w: set<int>, fd: int, qfd: int, left: int)
    ensures var head := InEvent(r, fd, qfd) + (if fd in w && left > 0 then [Event(OUT, fd, qfd)] else []);
      InOrder(head) && forall k :: 0 <= k < |head| ==> head[k].fd == fd
  {
  }

  /** Events of one descriptor in order, followed by ordered events of higher descriptors, are in order. */
  lemma OrderedConcat(head: seq<Event>, rest: seq<Event>, fd: int)
    requires InOrder(head) && InOrder(rest)
    requires forall k :: 0 <= k < |head| ==> head[k].fd == fd
    requires forall k :: 0 <= k < |rest| ==> rest[k].fd > fd
    ensures InOrder(head + rest)
  {
    var es := head + rest;
    forall i, j | 0 <= i < j < |es|
      ensures Precedes(es[i], es[j])
    {
      var k := |head|;
      if j < k {
        assert es[i] == head[i] && es[j] == head[j];
      } else if i < k {
        assert es[i] == head[i] && es[j] == rest[j - k];
      } else {
        assert es[i] == rest[i - k] && es[j] == rest[j - k];
      }
    }
  }

  /** A scan that did not fill its room reported every ready descriptor of fd..maxFd. */
  lemma {:induction false} ScanComplete(r: set<int>, w: set<int>, fd: int, maxFd: int, qfd: int, room: nat)
    ensures var es := ReadyEvents(r, w, fd, maxFd, qfd, room);
      |es| < room ==> forall x :: fd <= x <= maxFd ==>
        (x in r ==> Event(IN, x, qfd) in es) && (x in w ==> Event(OUT, x, qfd) in es)
    decreases if fd <= maxFd then maxFd - fd + 1 else 0
  {
    if fd <= maxFd && room > 0 {
      var ins := InEvent(r, fd, qfd);
      var left := room - |ins|;
      var outs := if fd in w && left > 0 then [Event(OUT, fd, qfd)] else [];
      var rest := ReadyEvents(r, w, fd + 1, maxFd, qfd, left - |outs|);
      ScanComplete(r, w, fd + 1, maxFd, qfd, left - |outs|);
      var es := ins + outs + rest;
      assert ReadyEvents(r, w, fd, maxFd, qfd, room) == es;
      if |es| < room {
        assert fd in r ==> es[0] == Event(IN, fd, qfd);
        assert fd in w ==> outs == [Event(OUT, fd, qfd)] && es[|ins|] == Event(OUT, fd, qfd);
        assert forall e :: e in rest ==> e in es;
      }
    }
  }

  /** With room for two events per descriptor the check before OUT never fires: both scans agree. */
  lemma {:induction false} ScanAgreesWithRoom(r: set<int>, w: set<int>, fd: int, maxFd: int, qfd: int, room: nat)
    requires fd <= maxFd + 1 && room >= 2 * (maxFd - fd + 1)
    ensures ReadyEventsAsWritten(r, w, fd, maxFd, qfd, room) == ReadyEvents(r, w, fd, maxFd, qfd, room)
    decreases maxFd - fd + 1
  {
    if fd <= maxFd {
      var ins := InEvent(r, fd, qfd);
      var outs := if fd in w then [Event(OUT, fd, qfd)] else [];
      ScanAgreesWithRoom(r, w, fd + 1, maxFd, qfd, room - |ins| - |outs|);
    }
  }

  /** As written the scan can report one event more than it has room for, never two. */
  lemma {:induction false} ScanAsWrittenBound(r: set<int>, w: set<int>, fd: int, maxFd: int, qfd: int, room: int)
    requires room >= 0
    ensures |ReadyEventsAsWritten(r, w, fd, maxFd, qfd, room)| <= room + 1
    decreases if fd <= maxFd then maxFd - fd + 1 else 0
  {
    if fd <= maxFd && room > 0 {
      var ins := InEvent(r, fd, qfd);
      var outs := if fd in w then [Event(OUT, fd, qfd)] else [];
      var room' := room - |ins| - |outs|;
      if room' >= 0 {
        ScanAsWrittenBound(r, w, fd + 1, maxFd, qfd, room');
      }
    }
  }

  /** The overrun: one place left and a descriptor ready both ways gives two events. */
  lemma ScanOverrunsBuffer(r: set<int>, w: set<int>, fd: int, qfd: int)
    requires fd in r && fd in w
    ensures ReadyEventsAsWritten(r, w, fd, fd, qfd, 1) == [Event(IN, fd, qfd), Event(OUT, fd, qfd)]
    ensures ReadyEvents(r, w, fd, fd, qfd, 1) == [Event(IN, fd, qfd)]
  {
    assert ReadyEventsAsWritten(r, w, fd + 1, fd, qfd, -1) == [];
    assert ReadyEvents(r, w, fd + 1, fd, qfd, 0) == [];
  }

  /** One descriptor of the scan: its IN event, then its OUT event if room is left, then the rest. */
  lemma ReadyEventsStep(before: seq<Event>, r: set<int>, w: set<int>, fd: int, maxFd: int, qfd: int, room: nat,
                        goal: seq<Event>)
    requires fd <= maxFd && room > 0 && before + ReadyEvents(r, w, fd, maxFd, qfd, room) == goal
    ensures var ins := InEvent(r, fd, qfd);
      var outs := if fd in w && room - |ins| > 0 then [Event(OUT, fd, qfd)] else [];
      before + ins + outs + ReadyEvents(r, w, fd + 1, maxFd, qfd, room - |ins| - |outs|) == goal
  {
    var ins := InEvent(r, fd, qfd);
    var outs := if fd in w && room - |ins| > 0 then [Event(OUT, fd, qfd)] else [];
    var rest := ReadyEvents(r, w, fd + 1, maxFd, qfd, room - |ins| - |outs|);
    ReadyEventsUnfold(r, w, fd, maxFd, qfd, room);
    assert before + ins + outs + rest == before + (ins + outs + rest);
  }

  /** The body of the scan loop for one descriptor: its IN event, then its OUT event while room is left. */
  method Emit(r: set<int>, w: set<int>, fd: int, qfd: int, events: array<Event>, found: nat) returns (found': nat)
    requires found < events.Length
    modifies events
    ensures var ins := InEvent(r, fd, qfd);
      var outs := if fd in w && events.Length - found - |ins| > 0 then [Event(OUT, fd, qfd)] else [];
      found' == found + |ins| + |outs| <= events.Length &&
      events[..found'] == old(events[..found]) + ins + outs &&
      forall j :: found' <= j < events.Length ==> events[j] == old(events[j])
  {
    found' := found;
    if fd in r {
      events[found'] := Event(IN, fd, qfd);
      found' := found' + 1;
    }
    if fd in w && found' < events.Length {
      events[found'] := Event(OUT, fd, qfd);
      found' := found' + 1;
    }
  }

  /** The scan loop of queue_wait: the events of descriptors 0 to maxFd, written from the start of events while they fit. */
  method ScanInto(r: set<int>, w: set<int>, maxFd: int, qfd: int, events: array<Event>) returns (found: nat)
    requires events.Length > 0
    modifies events
    ensures found <= events.Length && events[..found] == ReadyEvents(r, w, 0, maxFd, qfd, events.Length)
    ensures forall j :: found <= j < events.Length ==> events[j] == old(events[j])
  {
    ghost var goal := ReadyEvents(r, w, 0, maxFd, qfd, events.Length);
    found := 0;
    var fd := 0;
    while fd <= maxFd && found < events.Length
      invariant 0 <= fd && 0 <= found <= events.Length
      invariant events[..found] + ReadyEvents(r, w, fd, maxFd, qfd, events.Length - found) == goal
      invariant forall j :: found <= j < events.Length ==> events[j] == old(events[j])
      decreases maxFd - fd + 1
    {
      ghost var before := events[..found];
      ghost var room := events.Length - found;
      found := Emit(r, w, fd, qfd, events, found);
      ReadyEventsStep(before, r, w, fd, maxFd, qfd, room, goal);
      fd := fd + 1;
    }
    assert events[..found] == goal;
  }

  // ---------------------------------------------------------------------
  // The backend's static state, updated in place

  /** The file-scope arrays of queue_select.c and num_queues. */
  class Queues {
    var numQueues: int
    var readfds: seq<set<int>>
    var writefds: seq<set<int>>
    var numFds: seq<int>
    var maxFd: seq<int>
    const fdArray: array2<FdInfo>

    ghost predicate Valid()
      reads this
    {
      0 <= numQueues <= MAX_QUEUES &&
      |readfds| == MAX_QUEUES && |writefds| == MAX_QUEUES && |numFds| == MAX_QUEUES && |maxFd| == MAX_QUEUES &&
      fdArray.Length0 == MAX_QUEUES && fdArray.Length1 == MAX_FD_PER_QUEUE &&
      forall q :: 0 <= q < MAX_QUEUES ==> numFds[q] <= MAX_FD_PER_QUEUE
    }

    /** Row q of fd_array. */
    ghost function Row(q: nat): (row: seq<FdInfo>)
      reads this, fdArray
      requires Valid() && q < MAX_QUEUES
      ensures |row| == MAX_FD_PER_QUEUE
    {
      seq(MAX_FD_PER_QUEUE, i requires 0 <= i < MAX_FD_PER_QUEUE && Valid() reads this, fdArray => fdArray[q, i])
    }

    ghost function Queue(q: nat): (v: QueueView)
      reads this, fdArray
      requires Valid() && q < MAX_QUEUES
      ensures RowOk(v)
    {
      QueueView(readfds[q], writefds[q], numFds[q], maxFd[q], Row(q))
    }

    /** The whole registry. */
    ghost function State(): (s: Registry)
      reads this, fdArray
      requires Valid()
      ensures RegistryOk(s)
      ensures forall q :: 0 <= q < MAX_QUEUES ==> s.queues[q] == Queue(q)
    {
      Registry(numQueues, seq(MAX_QUEUES, q requires 0 <= q < MAX_QUEUES && Valid() reads this, fdArray => Queue(q)))
    }

    /** Zero-initialised static storage: no queues yet. */
    constructor ()
      ensures Valid() && fresh(fdArray) && numQueues == 0
    {
      numQueues := 0;
      readfds := seq(MAX_QUEUES, _ => {});
      writefds := seq(MAX_QUEUES, _ => {});
      numFds := seq(MAX_QUEUES, _ => 0);
      maxFd := seq(MAX_QUEUES, _ => 0);
      fdArray := new FdInfo[MAX_QUEUES, MAX_FD_PER_QUEUE]((_, _) => ZeroInfo);
    }

    /** queue_create, without the mutex. */
    method Create() returns (q: int)
      requires Valid()
      modifies this
      ensures Valid() && State() == Created(old(State())).reg && q == Created(old(State())).ret
    {
      ghost var s := State();
      if numQueues < MAX_QUEUES {
        readfds := readfds[numQueues := {}];
        writefds := writefds[numQueues := {}];
        maxFd := maxFd[numQueues := -1];
        numFds := numFds[numQueues := 0];
        numQueues := numQueues + 1;
        assert forall q :: 0 <= q < MAX_QUEUES ==> Row(q) == s.queues[q].row;
        assert State().queues == s.queues[numQueues - 1 := QueueView({}, {}, 0, -1, s.queues[numQueues - 1].row)];
      }
      q := numQueues - 1;
    }

    /** queue_add_fd. The shared flag is unused. */
    method AddFd(qfd: int, fd: int, t: EventType, data: Ptr) returns (r: int)
      requires Valid() && (0 <= qfd < numQueues ==> numFds[qfd] >= 0)
      modifies this, fdArray
      ensures Valid()
      ensures State() == Added(old(State()), qfd, fd, t, data).reg && r == Added(old(State()), qfd, fd, t, data).ret
    {
      ghost var s := State();
      if qfd < 0 || qfd >= numQueues {
        return -1;
      }
      if numFds[qfd] >= MAX_FD_PER_QUEUE {
        return -1;
      }
      if fd > maxFd[qfd] {
        maxFd := maxFd[qfd := fd];
      }
      if t == IN {
        readfds := readfds[qfd := readfds[qfd] + {fd}];
      } else if t == OUT {
        writefds := writefds[qfd := writefds[qfd] + {fd}];
      }
      var n := numFds[qfd];
      fdArray[qfd, n] := FdInfo(qfd, fd, t, data);
      numFds := numFds[qfd := n + 1];
      assert Row(qfd) == s.queues[qfd].row[n := FdInfo(qfd, fd, t, data)];
      assert forall q :: 0 <= q < MAX_QUEUES && q != qfd ==> Row(q) == s.queues[q].row;
      assert State().queues == Added(s, qfd, fd, t, data).reg.queues;
      return 0;
    }

    /**
     * queue_mod_fd. The final assert that fd is open (an fcntl call) is
     * not part of this model.
     */
    method ModFd(qfd: int, fd: int, t: EventType, data: Ptr) returns (r: int)
      requires Valid()
      modifies this, fdArray
      ensures Valid()
      ensures State() == Modified(old(State()), qfd, fd, t, data).reg && r == Modified(old(State()), qfd, fd, t, data).ret
    {
      ghost var s := State();
      if qfd < 0 || qfd >= numQueues {
        return -1;
      }
      if fd < 0 || fd > maxFd[qfd] {
        return -1;
      }
      if t == IN {
        if fd !in writefds[qfd] {
          readfds := readfds[qfd := readfds[qfd] + {fd}];
          writefds := writefds[qfd := writefds[qfd] - {fd}];
        }
      }
      if t == OUT {
        if fd !in writefds[qfd] {
          writefds := writefds[qfd := writefds[qfd] + {fd}];
          readfds := readfds[qfd := readfds[qfd] - {fd}];
        }
      }
      ghost var v := s.queues[qfd];
      assert (readfds[qfd], writefds[qfd]) == ModSets(v.read, v.write, fd, t);
      assert forall q :: 0 <= q < MAX_QUEUES ==> Row(q) == s.queues[q].row;
      ModEntry(v, qfd, fd, t, data);
      assert Queue(qfd) == ModQueue(v, fd, t, data);
      assert State().queues == s.queues[qfd := ModQueue(v, fd, t, data)];
      return 0;
    }

    /** The entry half of queue_mod_fd: the first active entry for fd gets the new type and data. */
    method ModEntry(ghost v: QueueView, qfd: nat, fd: int, t: EventType, data: Ptr)
      requires Valid() && qfd < MAX_QUEUES && RowOk(v) && v.row == Row(qfd) && v.count == numFds[qfd]
      modifies fdArray
      ensures Valid()
      ensures Row(qfd) == ModQueue(v, fd, t, data).row
      ensures forall q :: 0 <= q < MAX_QUEUES && q != qfd ==> Row(q) == old(Row(q))
    {
      var i := FindFd(v, qfd, fd);
      if i < numFds[qfd] {
        assert fdArray[qfd, i] == v.row[i];
        fdArray[qfd, i] := fdArray[qfd, i].(data := data, etype := t);
        assert Row(qfd) == v.row[i := v.row[i].(data := data, etype := t)];
      }
    }

    /** The loop of queue_mod_fd: the index of the first active entry for fd, or num_fds. */
    method FindFd(ghost v: QueueView, qfd: nat, fd: int) returns (i: nat)
      requires Valid() && qfd < MAX_QUEUES && RowOk(v) && v.row == Row(qfd) && v.count == numFds[qfd]
      ensures i == FirstFd(v.row, Active(v), 0, fd)
    {
      i := 0;
      while i < numFds[qfd]
        invariant 0 <= i <= Active(v)
        invariant forall j :: 0 <= j < i ==> v.row[j].fd != fd
      {
        assert v.row[i] == fdArray[qfd, i];
        if fdArray[qfd, i].fd == fd {
          break;
        }
        i := i + 1;
      }
      ghost var k := FirstFd(v.row, Active(v), 0, fd);
      assert i < Active(v) ==> v.row[i].fd == fd;
      assert !(k < i) && !(i < k);
    }

    /**
     * queue_rem_fd: the loop over the entries is kept out, because its
     * memset writes zero bytes and so changes nothing.
     */
    method RemFd(qfd: int, fd: int) returns (r: int)
      requires Valid()
      modifies this
      ensures Valid()
      ensures State() == Removed(old(State()), qfd, fd).reg && r == Removed(old(State()), qfd, fd).ret
    {
      ghost var s := State();
      if qfd < 0 || qfd >= numQueues {
        return -1;
      }
      if fd < 0 || fd > maxFd[qfd] {
        return -1;
      }
      if fd in readfds[qfd] {
        readfds := readfds[qfd := readfds[qfd] - {fd}];
      }
      if fd in writefds[qfd] {
        writefds := writefds[qfd := writefds[qfd] - {fd}];
      }
      numFds := numFds[qfd := numFds[qfd] - 1];
      assert readfds[qfd] == s.queues[qfd].read - {fd} && writefds[qfd] == s.queues[qfd].write - {fd};
      assert forall q :: 0 <= q < MAX_QUEUES ==> Row(q) == s.queues[q].row;
      assert State().queues == Removed(s, qfd, fd).reg.queues;
      return 0;
    }

    /** queue_event_get_data. The event's queue index is not checked in the source. */
    method EventGetData(e: Event) returns (p: Ptr)
      requires Valid() && 0 <= e.queueId < MAX_QUEUES
      ensures p == DataOf(State(), e)
    {
      var q := e.queueId;
      ghost var v := Queue(q);
      ghost var es := v.row[..Active(v)];
      var i := 0;
      while i < numFds[q]
        invariant 0 <= i <= Active(v)
        invariant Search(es, e.fd, e.events) == Search(v.row[i..Active(v)], e.fd, e.events)
      {
        assert v.row[i..Active(v)][1..] == v.row[i + 1..Active(v)];
        if fdArray[q, i].fd == e.fd && fdArray[q, i].etype == e.events {
          return fdArray[q, i].data;
        }
        i := i + 1;
      }
      return NULL;
    }

    /**
     * The event scan of queue_wait, with the room checked before the write
     * event as well, over the ready sets pselect reported: pselect is handed
     * copies of the queue's interest sets and leaves in them only ready
     * descriptors, so rready and wready lie within those sets. An unknown
     * queue gives -1 and an empty event array 0; every reported event is
     * for a descriptor the queue watches in that direction.
     */
    method Wait(qfd: int, rready: set<int>, wready: set<int>, events: array<Event>) returns (n: int)
      requires Valid()
      requires 0 <= qfd < numQueues ==> rready <= readfds[qfd] && wready <= writefds[qfd]
      modifies events
      ensures !(0 <= qfd < numQueues) ==> n == -1 && events[..] == old(events[..])
      ensures 0 <= qfd < numQueues ==>
        0 <= n <= events.Length &&
        events[..n] == ReadyEvents(rready, wready, 0, maxFd[qfd], qfd, events.Length) &&
        events[n..] == old(events[n..])
      ensures 0 <= qfd < numQueues ==> forall k :: 0 <= k < n ==>
        events[k].queueId == qfd && 0 <= events[k].fd <= maxFd[qfd] &&
        (events[k].events == IN ==> events[k].fd in readfds[qfd]) &&
        (events[k].events == OUT ==> events[k].fd in writefds[qfd])
    {
      if qfd < 0 || qfd >= numQueues {
        return -1;
      }
      if events.Length == 0 {
        return 0;
      }
      var found := ScanInto(rready, wready, maxFd[qfd], qfd, events);
      ScanSound(rready, wready, 0, maxFd[qfd], qfd, events.Length);
      assert forall k :: 0 <= k < found ==> events[k] in events[..found];
      return found;
    }
  }
}
