/** The event loop of ebot.c: the tables of waiting events against the epoll instance's interest list,
    and the queue of ready events. */
module EventLoop {
  import opened Sequences
  import opened TailQueue

  /** EPOLLIN, EPOLLOUT and EPOLLET of one descriptor's registration. */
  datatype Interest = Interest(read: bool, write: bool, edge: bool)

  datatype Op = CtlAdd | CtlMod | CtlDel

  type Kernel = map<nat, Interest>

  /** The kernel is interested in just the kinds of event somebody waits for. */
  ghost predicate Mirrors(kernel: Kernel, r: seq<Event?>, w: seq<Event?>) {
    && |r| == |w| && (forall fd | fd in kernel :: fd < |r|)
    && forall fd | 0 <= fd < |r| ::
         && (fd in kernel <==> r[fd] != null || w[fd] != null)
         && (fd in kernel ==> kernel[fd].read == (r[fd] != null) && kernel[fd].write == (w[fd] != null))
  }

  /** An event is in the table of its kind, under its descriptor. */
  ghost predicate OfKind(t: seq<Event?>, kind: Kind) {
    forall fd | 0 <= fd < |t| && t[fd] != null :: t[fd].fd == fd && t[fd].kind == kind
  }

  lemma RegisteredIff(kernel: Kernel, r: seq<Event?>, w: seq<Event?>, fd: nat)
    requires Mirrors(kernel, r, w) && fd < |r|
    ensures |r| == |w| && (fd in kernel <==> r[fd] != null || w[fd] != null)
  {
  }

  /** The table of `kind` with an event added: one already waiting stays. */
  ghost function Noted(t: seq<Event?>, e: Event, kind: Kind): seq<Event?>
    requires e.fd < |t|
  {
    if e.kind == kind && t[e.fd] == null then t[e.fd := e] else t
  }

  ghost function Cleared(t: seq<Event?>, e: Event, kind: Kind): seq<Event?>
    requires e.fd < |t|
  {
    if e.kind == kind then t[e.fd := null] else t
  }

  /** The table holds events in use with the loop only. */
  ghost predicate KnownIn(t: seq<Event?>, known: set<Event>) {
    forall fd | 0 <= fd < |t| && t[fd] != null :: t[fd] in known
  }

  /** What an addition registers: the kinds already waited for and the new one. */
  ghost function Wanted(r: seq<Event?>, w: seq<Event?>, e: Event): Interest
    requires |r| == |w| && e.fd < |r|
  {
    Interest(e.kind == EventRead || r[e.fd] != null, e.kind == EventWrite || w[e.fd] != null, e.kind == EventRead)
  }

  lemma NotedKeeps(kernel: Kernel, r: seq<Event?>, w: seq<Event?>, e: Event, known: set<Event>)
    requires Mirrors(kernel, r, w) && OfKind(r, EventRead) && OfKind(w, EventWrite) && e.fd < |r|
    requires KnownIn(r, known) && KnownIn(w, known) && e in known
    ensures Mirrors(kernel[e.fd := Wanted(r, w, e)], Noted(r, e, EventRead), Noted(w, e, EventWrite))
    ensures OfKind(Noted(r, e, EventRead), EventRead) && OfKind(Noted(w, e, EventWrite), EventWrite)
    ensures KnownIn(Noted(r, e, EventRead), known) && KnownIn(Noted(w, e, EventWrite), known)
  {
  }

  /** What a deletion leaves registered: the other kind, if it is waited for. */
  ghost function Left(kernel: Kernel, r: seq<Event?>, w: seq<Event?>, e: Event): Kernel
    requires |r| == |w| && e.fd < |r|
  {
    if e.kind == EventRead && w[e.fd] != null then kernel[e.fd := Interest(false, true, false)]
    else if e.kind == EventWrite && r[e.fd] != null then kernel[e.fd := Interest(true, false, true)]
    else kernel - {e.fd}
  }

  lemma ClearedKeeps(kernel: Kernel, r: seq<Event?>, w: seq<Event?>, e: Event, known: set<Event>)
    requires Mirrors(kernel, r, w) && OfKind(r, EventRead) && OfKind(w, EventWrite) && e.fd < |r|
    requires KnownIn(r, known) && KnownIn(w, known)
    ensures Mirrors(Left(kernel, r, w, e), Cleared(r, e, EventRead), Cleared(w, e, EventWrite))
    ensures OfKind(Cleared(r, e, EventRead), EventRead) && OfKind(Cleared(w, e, EventWrite), EventWrite)
    ensures KnownIn(Cleared(r, e, EventRead), known) && KnownIn(Cleared(w, e, EventWrite), known)
  {
  }

  // ----- the ready queue, on sequences

  /** queued_event_readies: an event that is there or not queued yet goes to the end. */
  ghost function Enqueue(c: seq<Event>, e: Event?): seq<Event> { if e == null || e in c then c else c + [e] }

  ghost function EnqueueAll(c: seq<Event>, hits: seq<Event?>): seq<Event> {
    if hits == [] then c else Enqueue(EnqueueAll(c, hits[..|hits| - 1]), hits[|hits| - 1])
  }

  /** The events with a callback. */
  ghost function Callable(c: seq<Event>): seq<Event> {
    if c == [] then [] else (if c[0].cb != NoCallback then [c[0]] else []) + Callable(c[1..])
  }

  /** Each reported event is queued once, and nothing else. */
  lemma {:induction false} EachOnce(c: seq<Event>, hits: seq<Event?>)
    requires NoDup(c)
    ensures NoDup(EnqueueAll(c, hits))
    ensures forall e: Event | e in EnqueueAll(c, hits) :: e in c || e in hits
    ensures forall e: Event | e in c || e in hits :: e in EnqueueAll(c, hits)
  {
    if hits != [] {
      var t, x := hits[..|hits| - 1], hits[|hits| - 1];
      EachOnce(c, t);
      assert hits == t + [x];
    }
  }

  /** Later reports only add behind. */
  lemma {:induction false} AddedBehind(c: seq<Event>, hits: seq<Event?>, k: nat)
    requires k <= |hits|
    ensures EnqueueAll(c, hits[..k]) <= EnqueueAll(c, hits)
  {
    if k < |hits| {
      var t := hits[..|hits| - 1];
      AddedBehind(c, t, k);
      assert t[..k] == hits[..k];
    } else {
      assert hits[..k] == hits;
    }
  }

  /** The queue is in the order of first reports: of any two events that were queued for reports, the
      one in front had been reported when the other had not yet. */
  lemma ReportOrder(c: seq<Event>, hits: seq<Event?>, i: nat, j: nat)
    requires NoDup(c)
    requires var q := EnqueueAll(c, hits); |c| <= i < j < |q|
    ensures var q := EnqueueAll(c, hits); exists k | 0 <= k <= |hits| :: q[i] in hits[..k] && q[j] !in hits[..k]
  {
    var q := EnqueueAll(c, hits);
    EachOnce(c, hits);
    AddedBehind(c, hits, 0);
    assert hits[..0] == [] && c <= q;
    var k := LastBefore(c, hits, j);
    EachOnce(c, hits[..k]);
    AddedBehind(c, hits, k);
    var p := EnqueueAll(c, hits[..k]);
    assert p[i] == q[i] && q[i] in p;
    assert q[i] !in c by { assert forall x | 0 <= x < |c| :: c[x] == q[x] && q[x] != q[i]; }
    assert q[j] !in p by { assert forall x | 0 <= x < |p| :: p[x] == q[x] && q[x] != q[j]; }
  }

  /** The number of reports before the one that queued the event at `j`. */
  lemma {:induction false} LastBefore(c: seq<Event>, hits: seq<Event?>, j: nat) returns (k: nat)
    requires |c| <= j < |EnqueueAll(c, hits)|
    ensures k <= |hits| && |EnqueueAll(c, hits[..k])| == j
  {
    var t := hits[..|hits| - 1];
    if |EnqueueAll(c, t)| == j {
      k := |hits| - 1;
    } else {
      k := LastBefore(c, t, j);
      assert t[..k] == hits[..k];
    }
  }

  /** What epoll_wait reports of one descriptor. */
  datatype Report = Report(fd: nat, input: bool, output: bool)

  /** The table entries the reports lead to, two for each report. */
  ghost function Hits(reports: seq<Report>, r: seq<Event?>, w: seq<Event?>): (hits: seq<Event?>)
    requires |r| == |w| && forall p | p in reports :: p.fd < |r|
    ensures |hits| == 2 * |reports|
    ensures forall i | 0 <= i < |reports| ::
      var p := reports[i];
      && hits[2 * i] == (if p.input then r[p.fd] else null)
      && hits[2 * i + 1] == (if p.output then w[p.fd] else null)
  {
    if reports == [] then [] else
    var t, p := reports[..|reports| - 1], reports[|reports| - 1];
    Hits(t, r, w) + [if p.input then r[p.fd] else null, if p.output then w[p.fd] else null]
  }

  /** The callable events of a queue, in its order. */
  lemma {:induction false} CallableIs(c: seq<Event>)
    requires NoDup(c)
    ensures forall x | 0 <= x < |Callable(c)| :: Callable(c)[x] in c && Callable(c)[x].cb != NoCallback
    ensures forall a | 0 <= a < |c| && c[a].cb != NoCallback :: c[a] in Callable(c)
    ensures forall x, y | 0 <= x < y < |Callable(c)| :: InOrder(c, Callable(c)[x], Callable(c)[y])
  {
    hide Callable, InOrder;
    CallableNil();
    if c != [] {
      CallableIs(c[1..]);
      CallableStep(c);
      assert c == [c[0]] + c[1..];
      CallableSame(c, Callable(c[1..]), Callable(c));
      CallableNext(c, Callable(c[1..]), Callable(c));
    }
  }

  lemma CallableSame(c: seq<Event>, d: seq<Event>, d': seq<Event>)
    requires c != [] && d' == (if c[0].cb != NoCallback then [c[0]] else []) + d
    requires forall x | 0 <= x < |d| :: d[x] in c[1..] && d[x].cb != NoCallback
    requires forall a | 0 <= a < |c[1..]| && c[1..][a].cb != NoCallback :: c[1..][a] in d
    ensures forall x | 0 <= x < |d'| :: d'[x] in c && d'[x].cb != NoCallback
    ensures forall a | 0 <= a < |c| && c[a].cb != NoCallback :: c[a] in d'
  {
    forall a | 0 <= a < |c| && c[a].cb != NoCallback
      ensures c[a] in d'
    {
      if a > 0 { assert c[1..][a - 1] == c[a] && c[a] in d; }
    }
  }

  lemma CallableNext(c: seq<Event>, d: seq<Event>, d': seq<Event>)
    requires c != [] && d' == (if c[0].cb != NoCallback then [c[0]] else []) + d
    requires forall x | 0 <= x < |d| :: d[x] in c[1..]
    requires forall x, y | 0 <= x < y < |d| :: InOrder(c[1..], d[x], d[y])
    ensures forall x, y | 0 <= x < y < |d'| :: InOrder(c, d'[x], d'[y])
  {
    hide InOrder;
    var k := |d'| - |d|;
    forall x, y | 0 <= x < y < |d'|
      ensures InOrder(c, d'[x], d'[y])
    {
      if x < k {
        assert d'[y] == d[y - k];
        FrontFirst(c, d'[y]);
      } else {
        assert d'[x] == d[x - k] && d'[y] == d[y - k];
        InOrderNext(c, d'[x], d'[y]);
      }
    }
  }

  lemma FrontFirst(c: seq<Event>, e: Event)
    requires c != [] && e in c[1..]
    ensures InOrder(c, c[0], e)
  {
    var b :| 0 <= b < |c[1..]| && c[1..][b] == e;
    assert c[b + 1] == e;
  }

  lemma InOrderNext(c: seq<Event>, d: Event, e: Event)
    requires c != [] && InOrder(c[1..], d, e)
    ensures InOrder(c, d, e)
  {
    var a, b :| 0 <= a < b < |c[1..]| && c[1..][a] == d && c[1..][b] == e;
    assert c[a + 1] == d && c[b + 1] == e;
  }

  /** `d` stands somewhere in front of `e`. */
  ghost predicate InOrder(c: seq<Event>, d: Event, e: Event) {
    exists a, b | 0 <= a < b < |c| :: c[a] == d && c[b] == e
  }

  /** What ebot_loop answers to reports when the queue held `c`, with the tables `r` and `w`. Just those
      events are called that have a callback and either were queued or wait for something reported; each
      once; first those queued before, as they stood; then by first report, and within one report the
      reader before the writer. */
  ghost predicate Answers(called: seq<Event>, c: seq<Event>, reports: seq<Report>, r: seq<Event?>, w: seq<Event?>)
    requires |r| == |w| && forall p | p in reports :: p.fd < |r|
  {
    && (forall x | 0 <= x < |called| ::
          var e := called[x];
          && e.cb != NoCallback
          && (e in c || exists i | 0 <= i < |reports| ::
                (reports[i].input && r[reports[i].fd] == e) || (reports[i].output && w[reports[i].fd] == e)))
    && (forall a | 0 <= a < |c| && c[a].cb != NoCallback :: c[a] in called)
    && (forall i | 0 <= i < |reports| ::
          var p := reports[i];
          && (p.input && r[p.fd] != null && r[p.fd].cb != NoCallback ==> r[p.fd] in called)
          && (p.output && w[p.fd] != null && w[p.fd].cb != NoCallback ==> w[p.fd] in called))
    && forall x, y | 0 <= x < y < |called| ::
         && called[x] != called[y]
         && (called[y] in c ==> InOrder(c, called[x], called[y]))
         && (called[x] !in c ==> ReportedFirst(called[x], called[y], reports, r, w))
  }

  /** Whatever reports `e`, something reported `d` before it. */
  ghost predicate ReportedFirst(d: Event, e: Event, reports: seq<Report>, r: seq<Event?>, w: seq<Event?>)
    requires |r| == |w| && forall p | p in reports :: p.fd < |r|
  {
    forall j | 0 <= j < |reports| ::
      && (reports[j].input && r[reports[j].fd] == e ==> exists i | 0 <= i < j ::
            (reports[i].input && r[reports[i].fd] == d) || (reports[i].output && w[reports[i].fd] == d))
      && (reports[j].output && w[reports[j].fd] == e ==> exists i | 0 <= i <= j ::
            (reports[i].input && r[reports[i].fd] == d) || (i < j && reports[i].output && w[reports[i].fd] == d))
  }

  lemma CalledAnswer(c: seq<Event>, reports: seq<Report>, r: seq<Event?>, w: seq<Event?>)
    requires NoDup(c) && |r| == |w| && forall p | p in reports :: p.fd < |r|
    ensures Answers(Callable(EnqueueAll(c, Hits(reports, r, w))), c, reports, r, w)
  {
    hide EnqueueAll, Callable, Hits, InOrder, ReportedFirst, NoDup;
    var called := Callable(EnqueueAll(c, Hits(reports, r, w)));
    forall x | 0 <= x < |called|
      ensures var e := called[x];
        && e.cb != NoCallback
        && (e in c || exists i | 0 <= i < |reports| ::
              (reports[i].input && r[reports[i].fd] == e) || (reports[i].output && w[reports[i].fd] == e))
    {
      CalledFor(c, reports, r, w, called[x]);
    }
    forall a | 0 <= a < |c| && c[a].cb != NoCallback
      ensures c[a] in called
    {
      CalledFor(c, reports, r, w, c[a]);
    }
    forall i | 0 <= i < |reports|
      ensures var p := reports[i];
        && (p.input && r[p.fd] != null && r[p.fd].cb != NoCallback ==> r[p.fd] in called)
        && (p.output && w[p.fd] != null && w[p.fd].cb != NoCallback ==> w[p.fd] in called)
    {
      var p := reports[i];
      if p.input && r[p.fd] != null { CalledFor(c, reports, r, w, r[p.fd]); }
      if p.output && w[p.fd] != null { CalledFor(c, reports, r, w, w[p.fd]); }
    }
    forall x, y | 0 <= x < y < |called|
      ensures called[x] != called[y] && (called[y] in c ==> InOrder(c, called[x], called[y]))
      ensures called[x] !in c ==> ReportedFirst(called[x], called[y], reports, r, w)
    {
      CalledOrder(c, reports, r, w, x, y);
    }
  }

  lemma HitsAre(reports: seq<Report>, r: seq<Event?>, w: seq<Event?>, e: Event)
    requires |r| == |w| && forall p | p in reports :: p.fd < |r|
    ensures e in Hits(reports, r, w) <==> exists i | 0 <= i < |reports| ::
      (reports[i].input && r[reports[i].fd] == e) || (reports[i].output && w[reports[i].fd] == e)
  {
    hide Hits;
    var hits := Hits(reports, r, w);
    if e in hits {
      var h :| 0 <= h < |hits| && hits[h] == e;
      var i := h / 2;
      assert h == 2 * i || h == 2 * i + 1;
      assert (reports[i].input && r[reports[i].fd] == e) || (reports[i].output && w[reports[i].fd] == e);
    }
    forall i | 0 <= i < |reports|
      && ((reports[i].input && r[reports[i].fd] == e) || (reports[i].output && w[reports[i].fd] == e))
      ensures e in hits
    {
      assert hits[2 * i] == e || hits[2 * i + 1] == e;
    }
  }

  lemma CalledFor(c: seq<Event>, reports: seq<Report>, r: seq<Event?>, w: seq<Event?>, e: Event)
    requires NoDup(c) && |r| == |w| && forall p | p in reports :: p.fd < |r|
    ensures e in Callable(EnqueueAll(c, Hits(reports, r, w))) <==>
      && e.cb != NoCallback
      && (e in c || exists i | 0 <= i < |reports| ::
            (reports[i].input && r[reports[i].fd] == e) || (reports[i].output && w[reports[i].fd] == e))
  {
    hide EnqueueAll, Callable, Hits, InOrder, NoDup;
    HitsAre(reports, r, w, e);
    EachOnce(c, Hits(reports, r, w));
    CallableIs(EnqueueAll(c, Hits(reports, r, w)));
  }

  lemma CalledOrder(c: seq<Event>, reports: seq<Report>, r: seq<Event?>, w: seq<Event?>, x: nat, y: nat)
    requires NoDup(c) && |r| == |w| && forall p | p in reports :: p.fd < |r|
    requires x < y < |Callable(EnqueueAll(c, Hits(reports, r, w)))|
    ensures var called := Callable(EnqueueAll(c, Hits(reports, r, w)));
      && called[x] != called[y]
      && (called[y] in c ==> InOrder(c, called[x], called[y]))
      && (called[x] !in c ==> ReportedFirst(called[x], called[y], reports, r, w))
  {
    hide EnqueueAll, Callable, Hits, ReportedFirst;
    var hits := Hits(reports, r, w);
    var q := EnqueueAll(c, hits);
    var called := Callable(q);
    EachOnce(c, hits);
    CallableIs(q);
    QueuedFirst(c, hits);
    var a, b :| 0 <= a < b < |q| && q[a] == called[x] && q[b] == called[y];
    if called[y] in c {
      var d :| 0 <= d < |c| && c[d] == called[y];
      assert q[d] == q[b];
      assert c[a] == called[x] && c[b] == called[y];
    }
    if called[x] !in c {
      ReportOrder(c, hits, a, b);
      var k :| 0 <= k <= |hits| && q[a] in hits[..k] && q[b] !in hits[..k];
      var h :| 0 <= h < k && hits[h] == q[a];
      FirstReported(reports, r, w, called[x], called[y], h, k);
    }
  }

  lemma QueuedFirst(c: seq<Event>, hits: seq<Event?>)
    ensures c <= EnqueueAll(c, hits)
  {
    AddedBehind(c, hits, 0);
    assert hits[..0] == [];
  }

  lemma FirstReported(reports: seq<Report>, r: seq<Event?>, w: seq<Event?>, d: Event, e: Event, h: nat, k: nat)
    requires |r| == |w| && forall p | p in reports :: p.fd < |r|
    requires var hits := Hits(reports, r, w); h < k <= |hits| && hits[h] == d && e !in hits[..k]
    ensures ReportedFirst(d, e, reports, r, w)
  {
    hide Hits;
    var hits, i := Hits(reports, r, w), h / 2;
    assert h == 2 * i || h == 2 * i + 1;
    assert (h == 2 * i && reports[i].input && r[reports[i].fd] == d)
        || (h == 2 * i + 1 && reports[i].output && w[reports[i].fd] == d);
    assert forall g | 0 <= g < k :: hits[g] == hits[..k][g] && hits[g] != e;
    forall j | 0 <= j < |reports|
      ensures reports[j].input && r[reports[j].fd] == e ==> i < j
      ensures reports[j].output && w[reports[j].fd] == e ==> i < j || (i == j && h == 2 * i)
    {
      assert reports[j].input && r[reports[j].fd] == e ==> hits[2 * j] == e && 2 * j >= k;
      assert reports[j].output && w[reports[j].fd] == e ==> hits[2 * j + 1] == e && 2 * j + 1 >= k;
    }
  }

  lemma EnqueueLast(c: seq<Event>, hits: seq<Event?>, e: Event?)
    ensures EnqueueAll(c, hits + [e]) == Enqueue(EnqueueAll(c, hits), e)
  {
    assert (hits + [e])[..|hits|] == hits;
  }

  class Ebot {
    const kides: set<Kind>
    const readWaits: array<Event?>
    const writeWaits: array<Event?>
    const readies: TailQ
    /** The interest list of the epoll instance. */
    var kernel: Kernel
    /** The events in use with this loop. */
    ghost var known: set<Event>

    ghost predicate TablesOk()
      reads this`kernel, readWaits, writeWaits
    {
      && readWaits != writeWaits
      && Mirrors(kernel, readWaits[..], writeWaits[..])
      && OfKind(readWaits[..], EventRead) && OfKind(writeWaits[..], EventWrite)
    }

    ghost predicate ReadyOk()
      reads this`known, readies, readies.elems, known
    {
      && readies.Valid() && readies.elems <= known
      && forall e | e in known :: if e in readies.contents then e.queued == 1 else e.queued == 0
    }

    /** The tables hold events in use with this loop only. */
    ghost predicate TablesKnown()
      reads this`known, readWaits, writeWaits
    {
      && readWaits.Length == writeWaits.Length
      && KnownIn(readWaits[..], known) && KnownIn(writeWaits[..], known)
    }

    ghost predicate Valid()
      reads this`kernel, this`known, readWaits, writeWaits, readies, readies.elems, known
    {
      TablesOk() && TablesKnown() && ReadyOk()
    }

    /** ebot_new */
    constructor (kides: set<Kind>, epSize: nat)
      ensures Valid() && known == {} && readies.contents == [] && readWaits.Length == epSize
      ensures fresh(readWaits) && fresh(writeWaits) && fresh(readies) && this.kides == kides && kernel == map[]
      ensures writeWaits.Length == epSize && forall fd | 0 <= fd < epSize :: readWaits[fd] == null == writeWaits[fd]
    {
      hide TailQ.Valid, TailQ.SnapOf;
      this.kides := kides;
      readWaits := new Event?[epSize](_ => null);
      writeWaits := new Event?[epSize](_ => null);
      readies := new TailQ();
      kernel, known := map[], {};
    }

    /** epoll_ctl: the kernel refuses to add twice and to change or delete what is not there, and may
        fail for reasons of its own. */
    method EpollCtl(op: Op, fd: nat, events: Interest, fail: bool) returns (ret: int)
      modifies this`kernel
      ensures ret == 0 || ret == -1
      ensures ret == 0 <==> !fail && (op == CtlAdd <==> fd !in old(kernel))
      ensures ret != 0 ==> kernel == old(kernel)
      ensures ret == 0 ==> kernel == if op == CtlDel then old(kernel) - {fd} else old(kernel)[fd := events]
    {
      if fail || (op == CtlAdd && fd in kernel) || (op != CtlAdd && fd !in kernel) {
        return -1;
      }
      kernel := if op == CtlDel then kernel - {fd} else kernel[fd := events];
      return 0;
    }

    /** ebot_add_event: succeeds unless the kind is not supported or the kernel fails of its own; the
        kind of operation always fits. An event already waiting for the same kind stays. */
    method AddEvent(e: Event, fail: bool) returns (ret: int)
      requires Valid() && e in known && e.fd < readWaits.Length
      modifies this`kernel, readWaits, writeWaits
      ensures Valid() && (ret == 0 <==> e.kind in kides && !fail)
      ensures forall fd | 0 <= fd < readWaits.Length && fd != e.fd ::
        readWaits[fd] == old(readWaits[fd]) && writeWaits[fd] == old(writeWaits[fd])
      ensures if e.kind == EventRead then writeWaits[e.fd] == old(writeWaits[e.fd])
        else readWaits[e.fd] == old(readWaits[e.fd])
      ensures ret != 0 ==>
        kernel == old(kernel) && readWaits[..] == old(readWaits[..]) && writeWaits[..] == old(writeWaits[..])
      ensures ret == 0 ==> readWaits[..] == Noted(old(readWaits[..]), e, EventRead)
      ensures ret == 0 ==> writeWaits[..] == Noted(old(writeWaits[..]), e, EventWrite)
      ensures ret == 0 ==> var t := if e.kind == EventRead then readWaits else writeWaits;
        t[e.fd] == e <==> old(t[e.fd]) == null || old(t[e.fd]) == e
      ensures ret == 0 ==> var t := if e.kind == EventRead then readWaits else writeWaits;
        t[e.fd] == if old(t[e.fd]) == null then e else old(t[e.fd])
      ensures ret == 0 ==>
        && kernel.Keys == old(kernel.Keys) + {e.fd}
        && kernel[e.fd] == Interest(readWaits[e.fd] != null, writeWaits[e.fd] != null, e.kind == EventRead)
      ensures ret == 0 ==>
        (kernel[e.fd].edge == kernel[e.fd].read <==> e.kind == EventRead || old(readWaits[e.fd]) == null)
      ensures forall fd | fd in kernel && fd != e.fd :: fd in old(kernel) && kernel[fd] == old(kernel[fd])
    {
      hide ReadyOk, Mirrors, OfKind, KnownIn;
      RegisteredIff(kernel, readWaits[..], writeWaits[..], e.fd);
      NotedKeeps(kernel, readWaits[..], writeWaits[..], e, known);
      if e.kind !in kides {
        return -1;
      }
      var r, w := readWaits[e.fd], writeWaits[e.fd];
      var op := CtlAdd;
      if r != null || w != null {
        op := CtlMod;
      }
      var events := Interest(e.kind == EventRead, e.kind == EventWrite, e.kind == EventRead);
      if r != null {
        events := events.(read := true);
      }
      if w != null {
        events := events.(write := true);
      }
      ret := EpollCtl(op, e.fd, events, fail);
      if ret < 0 {
        return -1;
      }
      if e.kind == EventRead && r == null {
        readWaits[e.fd] := e;
      }
      if e.kind == EventWrite && w == null {
        writeWaits[e.fd] := e;
      }
      return 0;
    }

    /** ebot_del_event: clears the slot of the event's kind, and succeeds exactly when the descriptor
        is registered and the kernel does not fail of its own. */
    method DelEvent(e: Event, fail: bool) returns (ret: int)
      requires Valid() && e.fd < readWaits.Length
      modifies this`kernel, readWaits, writeWaits
      ensures Valid() && (ret == 0 <==> e.fd in old(kernel) && !fail)
      ensures forall fd | 0 <= fd < readWaits.Length && fd != e.fd ::
        readWaits[fd] == old(readWaits[fd]) && writeWaits[fd] == old(writeWaits[fd])
      ensures forall fd | fd in old(kernel) && fd != e.fd :: fd in kernel
      ensures var other := if e.kind == EventRead then writeWaits else readWaits;
        && other[e.fd] == old(other[e.fd])
        && (ret == 0 ==> (e.fd in kernel <==> other[e.fd] != null))
      ensures ret == 0 ==> (if e.kind == EventRead then readWaits else writeWaits)[e.fd] == null
      ensures ret == 0 && e.fd in kernel ==>
        kernel[e.fd] == Interest(e.kind == EventWrite, e.kind == EventRead, e.kind == EventWrite)
      ensures ret != 0 ==>
        kernel == old(kernel) && readWaits[..] == old(readWaits[..]) && writeWaits[..] == old(writeWaits[..])
      ensures ret == 0 ==> readWaits[..] == Cleared(old(readWaits[..]), e, EventRead)
      ensures ret == 0 ==> writeWaits[..] == Cleared(old(writeWaits[..]), e, EventWrite)
      ensures forall fd | fd in kernel && fd != e.fd :: fd in old(kernel) && kernel[fd] == old(kernel[fd])
    {
      hide ReadyOk, Mirrors, OfKind, KnownIn;
      RegisteredIff(kernel, readWaits[..], writeWaits[..], e.fd);
      ghost var k, r, w := kernel, readWaits[..], writeWaits[..];
      ClearedKeeps(k, r, w, e, known);
      var op := CtlDel;
      var events := Interest(e.kind == EventRead, e.kind == EventWrite, false);
      var rd, wd := true, true;
      if events.read && writeWaits[e.fd] != null {
        wd := false;
        events := Interest(false, true, false);
        op := CtlMod;
      } else if events.write && readWaits[e.fd] != null {
        rd := false;
        events := Interest(true, false, true);
        op := CtlMod;
      }
      ret := EpollCtl(op, e.fd, events, fail);
      if ret < 0 {
        return -1;
      }
      if rd {
        readWaits[e.fd] := null;
      }
      if wd {
        writeWaits[e.fd] := null;
      }
      assert readWaits[..] == Cleared(r, e, EventRead) && writeWaits[..] == Cleared(w, e, EventWrite);
      assert kernel == Left(k, r, w, e);
      return 0;
    }

    // ----- the ready queue

    /** An event made by event_read or event_write is used with this loop. */
    ghost method Adopt(e: Event)
      requires Valid() && e.queued == 0 && e !in readies.contents
      modifies this`known
      ensures Valid() && known == old(known) + {e}
    {
      known := known + {e};
    }

    /** queued_event_readies */
    method Queue(e: Event?) returns (ret: int)
      requires ReadyOk() && (e != null ==> e in known)
      modifies readies, known`next, known`prev, known`queued
      ensures ReadyOk() && readies.contents == Enqueue(old(readies.contents), e)
      ensures readies.contents ==
        if e == null || e in old(readies.contents) then old(readies.contents) else old(readies.contents) + [e]
      ensures ret == if e == null || e in old(readies.contents) then -1 else 0
    {
      hide Spells, NoDup, TailQ.SnapOf;
      if e == null || e.queued == 1 {
        return -1;
      }
      readies.InsertTail(e);
      e.queued := 1;
      return 0;
    }

    /** dispatch_events: calls the queued events' callbacks once each, first in first out, and leaves
        the queue empty. The out-parameter lists the events whose callbacks are called. */
    method Dispatch() returns (called: seq<Event>)
      requires ReadyOk()
      modifies readies, known`next, known`prev, known`queued
      ensures ReadyOk() && readies.contents == [] && called == Callable(old(readies.contents))
      ensures forall x | 0 <= x < |called| :: called[x] in old(readies.contents) && called[x].cb != NoCallback
      ensures forall a | 0 <= a < |old(readies.contents)| && old(readies.contents)[a].cb != NoCallback ::
        old(readies.contents)[a] in called
      ensures forall x, y | 0 <= x < y < |called| :: InOrder(old(readies.contents), called[x], called[y])
    {
      hide TailQ.Valid, Callable, InOrder, NoDup;
      QueueNoDup();
      CallableIs(readies.contents);
      called := [];
      var empty := readies.Empty();
      CallableNil();
      if empty {
        return;
      }
      First();
      var e := readies.first;
      while e != null
        invariant ReadyOk() && called + Callable(readies.contents) == Callable(old(readies.contents))
        invariant e == ElemAt(readies.contents, 0)
        decreases |readies.contents|
      {
        CallableStep(readies.contents);
        Dequeue(e);
        if e.cb != NoCallback {
          called := called + [e];
        }
        First();
        e := readies.first;
      }
    }

    /** ebot_loop: every reported event that somebody waits for is called once, in the order of the
        reports. `c` is what epoll_wait returned, `interrupted` whether it failed with EINTR. */
    method Loop(c: int, interrupted: bool, reports: seq<Report>) returns (ret: int, called: seq<Event>)
      requires Valid() && (c >= 0 ==> c == |reports|)
      requires forall p | p in reports :: p.fd < readWaits.Length
      modifies readies, known`next, known`prev, known`queued
      ensures Valid()
      ensures c < 0 ==> called == [] && ret == (if interrupted then 0 else -1) && unchanged(readies)
      ensures c >= 0 ==> ret == 0 && readies.contents == []
      ensures c >= 0 ==> Answers(called, old(readies.contents), reports, readWaits[..], writeWaits[..])
    {
      hide TailQ.Valid, Callable, EnqueueAll, Hits, Answers, Mirrors, OfKind, KnownIn, NoDup;
      called := [];
      QueueNoDup();
      ghost var q := readies.contents;
      ret, called := LoopOnce(c, interrupted, reports);
      if c >= 0 { CalledAnswer(q, reports, readWaits[..], writeWaits[..]); }
    }

    lemma QueueNoDup()
      requires ReadyOk()
      ensures NoDup(readies.contents)
    {
      readies.Around(0);
    }

    /** The body of ebot_loop. */
    method LoopOnce(c: int, interrupted: bool, reports: seq<Report>) returns (ret: int, called: seq<Event>)
      requires Valid() && (c >= 0 ==> c == |reports|)
      requires forall p | p in reports :: p.fd < readWaits.Length
      modifies readies, known`next, known`prev, known`queued
      ensures Valid() && readWaits.Length == writeWaits.Length
      ensures c < 0 ==> called == [] && ret == (if interrupted then 0 else -1) && unchanged(readies)
      ensures c >= 0 ==> ret == 0 && readies.contents == []
      ensures c >= 0 ==>
        called == Callable(EnqueueAll(old(readies.contents), Hits(reports, readWaits[..], writeWaits[..])))
    {
      hide TailQ.Valid, Callable, Enqueue;
      called := [];
      if c < 0 {
        ret := if interrupted then 0 else -1;
        return;
      }
      ghost var hits: seq<Event?> := [];
      var i := 0;
      while i < c
        invariant 0 <= i <= c && ReadyOk() && hits == Hits(reports[..i], readWaits[..], writeWaits[..])
        invariant readies.contents == EnqueueAll(old(readies.contents), hits)
      {
        assert reports[..i + 1][..i] == reports[..i];
        hits := QueueReport(reports[i], hits, old(readies.contents));
        i := i + 1;
      }
      assert reports[..c] == reports;
      called := Dispatch();
      ret := 0;
    }

    /** One turn of the loop over the reports. */
    method QueueReport(p: Report, ghost hits: seq<Event?>, ghost c: seq<Event>) returns (ghost hits': seq<Event?>)
      requires ReadyOk() && TablesKnown() && p.fd < readWaits.Length && readies.contents == EnqueueAll(c, hits)
      modifies readies, known`next, known`prev, known`queued
      ensures hits' ==
        hits + [if p.input then readWaits[p.fd] else null, if p.output then writeWaits[p.fd] else null]
      ensures ReadyOk() && readies.contents == EnqueueAll(c, hits')
    {
      hide TailQ.Valid;
      var ret;
      ghost var read, write := null, null;
      if p.input {
        ret := Queue(readWaits[p.fd]);
        read := readWaits[p.fd];
      }
      EnqueueLast(c, hits, read);
      assert readies.contents == EnqueueAll(c, hits + [read]);
      if p.output {
        ret := Queue(writeWaits[p.fd]);
        write := writeWaits[p.fd];
      }
      EnqueueLast(c, hits + [read], write);
      hits' := hits + [read, write];
      assert hits' == hits + [read] + [write];
      assert readies.contents == EnqueueAll(c, hits + [read] + [write]);
    }

    lemma First()
      requires readies.Valid()
      ensures readies.first == ElemAt(readies.contents, 0)
    {
      readies.Around(0);
    }

    method Dequeue(e: Event)
      requires ReadyOk() && readies.contents != [] && e == readies.contents[0]
      modifies readies, known`next, known`prev, known`queued
      ensures ReadyOk() && readies.contents == old(readies.contents)[1..]
    {
      hide Spells;
      readies.Around(0);
      ghost var p := readies.Remove(e);
      e.queued := 0;
    }
  }

  lemma CallableNil()
    ensures Callable([]) == []
  {
  }

  lemma CallableStep(c: seq<Event>)
    requires c != []
    ensures Callable(c) == (if c[0].cb != NoCallback then [c[0]] else []) + Callable(c[1..])
  {
  }
}
