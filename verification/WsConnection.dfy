/** Admission on one WebSocket connection (src/api/ws.rs, handle_ws_connection): a semaphore of 64
    permits shared by single requests and batches, over every interleaving of arrivals,
    completions, panics and aborts. */
module WsConnection {
  import opened Primitives
  import WsBatch

  const MAX_INFLIGHT_REQUESTS: nat := 64

  /** A spawned task and the permits it owns. A batch task runs its window and then sends. */
  datatype Task =
    | SingleTask
    | BatchTask(size: nat, reserved: nat, window: WsBatch.Window<()>)

  datatype Conn = Conn(available: nat, inFlight: seq<Task>)

  /** How a task's future stops: its last await returned, a request inside it panicked, or it was
      aborted. The permit is dropped in each case. */
  datatype Ending = Finished | Panicked | Aborted

  datatype Event =
    | SingleRequest
    | SubscriptionRequest
    | BatchRequest(size: nat)
    | ItemCompletes(task: nat, index: nat)
    | TaskEnds(task: nat, how: Ending)
    | ConnectionCloses

  datatype Reply = Silent | Admitted | Busy | EmptyBatch

  function Fresh(): Conn {
    Conn(MAX_INFLIGHT_REQUESTS, [])
  }

  function Reservation(size: nat): nat {
    Min(size, MAX_INFLIGHT_REQUESTS)
  }

  function Held(t: Task): nat {
    if t.SingleTask? then 1 else t.reserved
  }

  /** Requests of the task that are executing now. */
  function Executing(t: Task): nat {
    if t.SingleTask? then 1 else |t.window.running|
  }

  predicate ReadyToSend(t: Task) {
    t.BatchTask? ==> t.window.running == {}
  }

  function WithoutTask(tasks: seq<Task>, i: nat): seq<Task>
    requires i < |tasks|
  {
    tasks[..i] + tasks[i + 1..]
  }

  function NewBatch(size: nat, reserved: nat): Task {
    BatchTask(size, reserved, WsBatch.Start(size, reserved))
  }

  function AdmitBatch(c: Conn, size: nat): (Conn, Reply) {
    if size == 0 then (c, EmptyBatch)
    else if c.available >= Reservation(size)
    then (Conn(c.available - Reservation(size), c.inFlight + [NewBatch(size, Reservation(size))]), Admitted)
    else (c, Busy)
  }

  /** One event. None when the event cannot happen in this state. */
  function Step(c: Conn, e: Event): Option<(Conn, Reply)> {
    match e
    case SubscriptionRequest => Some((c, Silent))
    case SingleRequest =>
      if c.available >= 1
      then Some((Conn(c.available - 1, c.inFlight + [SingleTask]), Admitted))
      else Some((c, Busy))
    case BatchRequest(size) => Some(AdmitBatch(c, size))
    case ItemCompletes(i, index) =>
      if i < |c.inFlight| && c.inFlight[i].BatchTask?
         && index in c.inFlight[i].window.running && index < c.inFlight[i].size
      then
        var t := c.inFlight[i];
        var window := WsBatch.Complete(t.window, WsBatch.Units(t.size), index);
        Some((c.(inFlight := c.inFlight[i := t.(window := window)]), Silent))
      else None
    case TaskEnds(i, how) =>
      if i < |c.inFlight| && (how == Finished ==> ReadyToSend(c.inFlight[i]))
      then Some((Conn(c.available + Held(c.inFlight[i]), WithoutTask(c.inFlight, i)), Silent))
      else None
    case ConnectionCloses =>
      Some((Conn(c.available + TotalHeld(c.inFlight), []), Silent))
  }

  // ----- the invariant -----

  function TotalHeld(tasks: seq<Task>): nat {
    if tasks == [] then 0 else Held(tasks[0]) + TotalHeld(tasks[1..])
  }

  function TotalExecuting(tasks: seq<Task>): nat {
    if tasks == [] then 0 else Executing(tasks[0]) + TotalExecuting(tasks[1..])
  }

  ghost predicate TaskInv(t: Task) {
    t.BatchTask? ==>
      && t.size > 0
      && t.reserved == Reservation(t.size)
      && WsBatch.Inv(t.window, WsBatch.Units(t.size), t.reserved)
  }

  /** No permit is lost or invented, and every batch owns exactly min(size, 64) of them. */
  ghost predicate Inv(c: Conn) {
    && c.available + TotalHeld(c.inFlight) == MAX_INFLIGHT_REQUESTS
    && forall i :: 0 <= i < |c.inFlight| ==> TaskInv(c.inFlight[i])
  }

  lemma {:induction false} TotalHeldConcat(a: seq<Task>, b: seq<Task>)
    ensures TotalHeld(a + b) == TotalHeld(a) + TotalHeld(b)
  {
    if a == [] {
      assert a + b == b;
    } else {
      TotalHeldConcat(a[1..], b);
      assert (a + b)[1..] == a[1..] + b;
    }
  }

  lemma TotalHeldAt(tasks: seq<Task>, i: nat)
    requires i < |tasks|
    ensures TotalHeld(tasks) == TotalHeld(tasks[..i]) + Held(tasks[i]) + TotalHeld(tasks[i + 1..])
  {
    TotalHeldConcat(tasks[..i], tasks[i..]);
    assert tasks == tasks[..i] + tasks[i..];
    assert tasks[i..][1..] == tasks[i + 1..];
  }

  lemma TotalHeldUpdate(tasks: seq<Task>, i: nat, t: Task)
    requires i < |tasks| && Held(t) == Held(tasks[i])
    ensures TotalHeld(tasks[i := t]) == TotalHeld(tasks)
  {
    TotalHeldAt(tasks, i);
    var updated := tasks[i := t];
    TotalHeldAt(updated, i);
    assert updated[..i] == tasks[..i] && updated[i + 1..] == tasks[i + 1..];
  }

  lemma AdmitInv(c: Conn, t: Task)
    requires Inv(c) && TaskInv(t) && Held(t) <= c.available
    ensures Inv(Conn(c.available - Held(t), c.inFlight + [t]))
  {
    TotalHeldConcat(c.inFlight, [t]);
  }

  lemma ReplaceInv(c: Conn, i: nat, t: Task)
    requires Inv(c) && i < |c.inFlight| && TaskInv(t) && Held(t) == Held(c.inFlight[i])
    ensures Inv(c.(inFlight := c.inFlight[i := t]))
  {
    TotalHeldUpdate(c.inFlight, i, t);
  }

  lemma RemoveInv(c: Conn, i: nat)
    requires Inv(c) && i < |c.inFlight|
    ensures Inv(Conn(c.available + Held(c.inFlight[i]), WithoutTask(c.inFlight, i)))
  {
    TotalHeldAt(c.inFlight, i);
    TotalHeldConcat(c.inFlight[..i], c.inFlight[i + 1..]);
  }

  lemma StepInv(c: Conn, e: Event)
    requires Inv(c) && Step(c, e).Some?
    ensures Inv(Step(c, e).value.0)
  {
    match e
    case SubscriptionRequest =>
    case SingleRequest =>
      if c.available >= 1 {
        AdmitInv(c, SingleTask);
      }
    case BatchRequest(size) =>
      if size > 0 && c.available >= Reservation(size) {
        WsBatch.StartInv(WsBatch.Units(size), Reservation(size));
        AdmitInv(c, NewBatch(size, Reservation(size)));
      }
    case ItemCompletes(i, index) =>
      var t := c.inFlight[i];
      assert TaskInv(t);
      WsBatch.CompleteInv(t.window, WsBatch.Units(t.size), t.reserved, index);
      ReplaceInv(c, i, t.(window := WsBatch.Complete(t.window, WsBatch.Units(t.size), index)));
    case TaskEnds(i, how) =>
      RemoveInv(c, i);
    case ConnectionCloses =>
  }

  /** The states a connection passes through. */
  ghost predicate IsRun(events: seq<Event>, states: seq<Conn>) {
    && |states| == |events| + 1
    && states[0] == Fresh()
    && forall k :: 0 <= k < |events| ==>
      Step(states[k], events[k]).Some? && states[k + 1] == Step(states[k], events[k]).value.0
  }

  lemma {:induction false} RunInv(events: seq<Event>, states: seq<Conn>, k: nat)
    requires IsRun(events, states) && k < |states|
    ensures Inv(states[k])
  {
    if k > 0 {
      RunInv(events, states, k - 1);
      StepInv(states[k - 1], events[k - 1]);
    }
  }

  lemma {:induction false} ExecutingWithinHeld(tasks: seq<Task>)
    requires forall i :: 0 <= i < |tasks| ==> TaskInv(tasks[i])
    ensures TotalExecuting(tasks) <= TotalHeld(tasks)
  {
    if tasks != [] {
      assert TaskInv(tasks[0]);
      assert forall i :: 0 <= i < |tasks[1..]| ==> tasks[1..][i] == tasks[i + 1];
      ExecutingWithinHeld(tasks[1..]);
    }
  }

  lemma {:induction false} TotalExecutingIsSum(a: seq<Task>, t: Task)
    ensures TotalExecuting(a + [t]) == TotalExecuting(a) + Executing(t)
    ensures TotalExecuting([]) == 0
  {
    if a == [] {
      assert a + [t] == [t];
      assert [t][1..] == [];
    } else {
      assert (a + [t])[1..] == a[1..] + [t];
      TotalExecutingIsSum(a[1..], t);
    }
  }

  /** Safety over every run: permits are conserved, no more than 64 requests execute at once, and
      each batch in flight, running or sending, owns exactly min(size, 64) permits and executes
      min(reserved, requests left) requests. */
  lemma PermitConservation(events: seq<Event>, states: seq<Conn>, k: nat)
    requires IsRun(events, states) && k < |states|
    ensures var c := states[k];
      && c.available + TotalHeld(c.inFlight) == MAX_INFLIGHT_REQUESTS
      && TotalExecuting(c.inFlight) <= MAX_INFLIGHT_REQUESTS
      && forall i :: 0 <= i < |c.inFlight| && c.inFlight[i].BatchTask? ==>
        var t := c.inFlight[i];
        && Held(t) == Min(t.size, MAX_INFLIGHT_REQUESTS)
        && Executing(t) == Min(Held(t), t.size - |t.window.responses|)
    ensures Held(SingleTask) == 1 && Executing(SingleTask) == 1
  {
    RunInv(events, states, k);
    ExecutingWithinHeld(states[k].inFlight);
  }

  lemma {:induction false} EveryTaskHolds(tasks: seq<Task>)
    requires forall i :: 0 <= i < |tasks| ==> TaskInv(tasks[i])
    ensures TotalHeld(tasks) >= |tasks|
  {
    if tasks != [] {
      assert TaskInv(tasks[0]);
      assert forall i :: 0 <= i < |tasks[1..]| ==> tasks[1..][i] == tasks[i + 1];
      EveryTaskHolds(tasks[1..]);
    }
  }

  /** No leak over any run: all permits are back exactly when no task is in flight, however the
      tasks ended. */
  lemma NoPermitLeaks(events: seq<Event>, states: seq<Conn>, k: nat)
    requires IsRun(events, states) && k < |states|
    ensures states[k].available == MAX_INFLIGHT_REQUESTS <==> states[k].inFlight == []
  {
    RunInv(events, states, k);
    EveryTaskHolds(states[k].inFlight);
  }

  /** A batch of 64 or more requests is admitted exactly when nothing is in flight; a single request
      is refused exactly when all 64 permits are held. */
  lemma AdmissionIsExact(events: seq<Event>, states: seq<Conn>, k: nat, size: nat)
    requires IsRun(events, states) && k < |states|
    ensures size >= MAX_INFLIGHT_REQUESTS ==>
      (Step(states[k], BatchRequest(size)).value.1 == Admitted <==> states[k].inFlight == [])
    ensures 0 < size ==>
      var needed := Min(size, MAX_INFLIGHT_REQUESTS);
      (Step(states[k], BatchRequest(size)).value.1 == Busy
       <==> TotalHeld(states[k].inFlight) + needed > MAX_INFLIGHT_REQUESTS)
    ensures Step(states[k], SingleRequest).value.1 == Busy <==> TotalHeld(states[k].inFlight) == MAX_INFLIGHT_REQUESTS
  {
    RunInv(events, states, k);
    EveryTaskHolds(states[k].inFlight);
  }

  // ----- which tasks are in flight -----

  function RemoveAt(xs: seq<nat>, i: nat): seq<nat> {
    if i < |xs| then xs[..i] + xs[i + 1..] else xs
  }

  predicate AdmittedAt(events: seq<Event>, states: seq<Conn>, k: nat)
    requires k < |events| && k < |states|
  {
    Step(states[k], events[k]).Some? && Step(states[k], events[k]).value.1 == Admitted
  }

  /** Read off events and replies alone: the events, before event `k`, at which a task was admitted that
      has since neither ended nor been closed over, oldest first. `TaskEnds(i)` means the i-th. */
  function Births(events: seq<Event>, states: seq<Conn>, k: nat): seq<nat>
    requires k <= |events| && |states| == |events| + 1
  {
    if k == 0 then []
    else
      var before := Births(events, states, k - 1);
      match events[k - 1]
      case ConnectionCloses => []
      case TaskEnds(i, _) => RemoveAt(before, i)
      case _ => if AdmittedAt(events, states, k - 1) then before + [k - 1] else before
  }

  /** The completions reported between the admission at event `b` and event `k` for the task admitted
      there, in order. */
  function ItemsOf(events: seq<Event>, states: seq<Conn>, b: nat, k: nat): seq<nat>
    requires k <= |events| && |states| == |events| + 1
  {
    if k <= b + 1 then []
    else
      var before := ItemsOf(events, states, b, k - 1);
      var births := Births(events, states, k - 1);
      match events[k - 1]
      case ItemCompletes(i, index) => if i < |births| && births[i] == b then before + [index] else before
      case _ => before
  }

  /** The window some run of the batch reaches when exactly these requests complete in this order. */
  ghost predicate WindowAfter(w: WsBatch.Window<()>, size: nat, order: seq<nat>) {
    exists windows :: WsBatch.IsRun(WsBatch.Units(size), Min(size, 64), order, windows) && windows[|order|] == w
  }

  /** The task is what the admitted request asked for, as far as it has got. */
  ghost predicate TaskOf(t: Task, e: Event, items: seq<nat>) {
    match e
    case SingleRequest => t == SingleTask && items == []
    case BatchRequest(size) =>
      t.BatchTask? && t.size == size && t.reserved == Min(size, 64) && WindowAfter(t.window, size, items)
    case _ => false
  }

  /** Admitted before event `k`, oldest first. */
  predicate InOrder(births: seq<nat>, k: nat) {
    && (forall p :: 0 <= p < |births| ==> births[p] < k)
    && (forall p, q :: 0 <= p < q < |births| ==> births[p] < births[q])
  }

  ghost predicate Recorded(events: seq<Event>, states: seq<Conn>, k: nat)
    requires k <= |events| && |states| == |events| + 1
  {
    var births := Births(events, states, k);
    && |states[k].inFlight| == |births|
    && InOrder(births, k)
    && forall p :: 0 <= p < |births| ==>
         TaskOf(states[k].inFlight[p], events[births[p]], ItemsOf(events, states, births[p], k))
  }

  lemma NewBatchWindow(size: nat)
    ensures WindowAfter(NewBatch(size, Reservation(size)).window, size, [])
  {
    WsBatch.RunStarts(WsBatch.Units(size), Min(size, 64), WsBatch.Start(size, Min(size, 64)));
  }

  lemma WindowContinues(w: WsBatch.Window<()>, size: nat, order: seq<nat>, index: nat)
    requires size > 0 && WindowAfter(w, size, order) && index in w.running && index < size
    ensures WindowAfter(WsBatch.Complete(w, WsBatch.Units(size), index), size, order + [index])
  {
    var windows :| WsBatch.IsRun(WsBatch.Units(size), Min(size, 64), order, windows) && windows[|order|] == w;
    WsBatch.RunExtends(WsBatch.Units(size), Min(size, 64), order, windows, index);
    var w' := WsBatch.Complete(w, WsBatch.Units(size), index);
    assert (windows + [w'])[|order + [index]|] == w';
  }

  /** An event that leaves the older tasks as they are and reports no completion. */
  lemma OlderTasksStay(events: seq<Event>, states: seq<Conn>, k: nat, p: nat)
    requires k < |events| && |states| == |events| + 1 && Recorded(events, states, k)
    requires !events[k].ItemCompletes? && p < |states[k].inFlight| && states[k].inFlight <= states[k + 1].inFlight
    ensures var births := Births(events, states, k);
      TaskOf(states[k + 1].inFlight[p], events[births[p]], ItemsOf(events, states, births[p], k + 1))
  {
    var b := Births(events, states, k)[p];
    assert ItemsOf(events, states, b, k + 1) == ItemsOf(events, states, b, k);
  }

  lemma NewTaskIsAsked(events: seq<Event>, states: seq<Conn>, k: nat)
    requires IsRun(events, states) && k < |events| && AdmittedAt(events, states, k)
    ensures var before, after := states[k].inFlight, states[k + 1].inFlight;
      && |after| == |before| + 1 && before <= after
      && TaskOf(after[|before|], events[k], [])
      && (events[k].SingleRequest? || events[k].BatchRequest?)
  {
    if events[k].BatchRequest? {
      NewBatchWindow(events[k].size);
    }
  }

  lemma AdmissionRecorded(events: seq<Event>, states: seq<Conn>, k: nat)
    requires IsRun(events, states) && k < |events| && Recorded(events, states, k)
    requires events[k].SingleRequest? || events[k].BatchRequest? || events[k].SubscriptionRequest?
    ensures Recorded(events, states, k + 1)
  {
    var births, after := Births(events, states, k), Births(events, states, k + 1);
    if AdmittedAt(events, states, k) {
      NewTaskIsAsked(events, states, k);
      assert ItemsOf(events, states, k, k + 1) == [];
    } else {
      assert states[k + 1] == states[k];
    }
    forall p | 0 <= p < |after|
      ensures TaskOf(states[k + 1].inFlight[p], events[after[p]], ItemsOf(events, states, after[p], k + 1))
    {
      if p < |births| {
        OlderTasksStay(events, states, k, p);
      }
    }
  }

  lemma ItemRecorded(events: seq<Event>, states: seq<Conn>, k: nat)
    requires IsRun(events, states) && k < |events| && Recorded(events, states, k) && events[k].ItemCompletes?
    ensures Recorded(events, states, k + 1)
  {
    var births, i := Births(events, states, k), events[k].task;
    assert Births(events, states, k + 1) == births;
    forall p | 0 <= p < |births|
      ensures TaskOf(states[k + 1].inFlight[p], events[births[p]], ItemsOf(events, states, births[p], k + 1))
    {
      var t := states[k].inFlight[p];
      if p == i {
        WindowContinues(t.window, t.size, ItemsOf(events, states, births[p], k), events[k].index);
      }
    }
  }

  lemma RemovalKeepsOrder(births: seq<nat>, i: nat, k: nat)
    requires InOrder(births, k) && i < |births|
    ensures InOrder(RemoveAt(births, i), k + 1)
    ensures |RemoveAt(births, i)| == |births| - 1
    ensures forall p :: 0 <= p < |births| - 1 ==> RemoveAt(births, i)[p] == births[if p < i then p else p + 1]
  {
  }

  lemma OtherTaskStays(events: seq<Event>, states: seq<Conn>, k: nat, p: nat)
    requires IsRun(events, states) && k < |events| && Recorded(events, states, k) && events[k].TaskEnds?
    requires p < |Births(events, states, k)| && p != events[k].task
    ensures events[k].task < |states[k].inFlight| && |states[k + 1].inFlight| == |states[k].inFlight| - 1
    ensures var b := Births(events, states, k)[p];
      TaskOf(states[k + 1].inFlight[if p < events[k].task then p else p - 1], events[b],
             ItemsOf(events, states, b, k + 1))
  {
    var b, q := Births(events, states, k)[p], if p < events[k].task then p else p - 1;
    assert states[k + 1].inFlight == WithoutTask(states[k].inFlight, events[k].task);
    assert states[k + 1].inFlight[q] == states[k].inFlight[p];
    assert ItemsOf(events, states, b, k + 1) == ItemsOf(events, states, b, k);
  }

  lemma EndRecorded(events: seq<Event>, states: seq<Conn>, k: nat)
    requires IsRun(events, states) && k < |events| && Recorded(events, states, k) && events[k].TaskEnds?
    ensures Recorded(events, states, k + 1)
  {
    var births, i := Births(events, states, k), events[k].task;
    var after := Births(events, states, k + 1);
    assert states[k + 1].inFlight == WithoutTask(states[k].inFlight, i);
    RemovalKeepsOrder(births, i, k);
    forall p | 0 <= p < |after|
      ensures TaskOf(states[k + 1].inFlight[p], events[after[p]], ItemsOf(events, states, after[p], k + 1))
    {
      OtherTaskStays(events, states, k, if p < i then p else p + 1);
    }
  }

  /** Over every run, the tasks in flight are exactly the requests admitted that have neither ended nor
      been closed over, in order of admission: a single is a single, and a batch holds min(size, 64)
      permits and the window reached by exactly the completions reported for it. */
  lemma {:induction false} InFlightIsAdmittedMinusEnded(events: seq<Event>, states: seq<Conn>, k: nat)
    requires IsRun(events, states) && k < |states|
    ensures Recorded(events, states, k)
  {
    if k > 0 {
      InFlightIsAdmittedMinusEnded(events, states, k - 1);
      match events[k - 1]
      case ItemCompletes(_, _) => ItemRecorded(events, states, k - 1);
      case TaskEnds(_, _) => EndRecorded(events, states, k - 1);
      case ConnectionCloses =>
      case _ => AdmissionRecorded(events, states, k - 1);
    }
  }

  /** Which events can happen, and what is answered when, over every run. A batch task finishes only
      when every request of it is answered; a task can be aborted or panic at any time; after a close
      the connection is as new. */
  lemma EventsAndReplies(events: seq<Event>, states: seq<Conn>, k: nat, e: Event)
    requires IsRun(events, states) && k < |states|
    ensures var c := states[k];
      match e
      case SubscriptionRequest => Step(c, e) == Some((c, Silent))
      case SingleRequest =>
        && Step(c, e).Some?
        && Step(c, e).value.1 == (if TotalHeld(c.inFlight) < 64 then Admitted else Busy)
        && (Step(c, e).value.1 == Busy ==> Step(c, e).value.0 == c)
      case BatchRequest(size) =>
        && Step(c, e).Some?
        && Step(c, e).value.1 ==
          (if size == 0 then EmptyBatch
           else if TotalHeld(c.inFlight) + Min(size, 64) <= 64 then Admitted
           else Busy)
        && (Step(c, e).value.1 != Admitted ==> Step(c, e).value.0 == c)
      case ItemCompletes(i, index) =>
        (Step(c, e).Some? <==> i < |c.inFlight| && c.inFlight[i].BatchTask? && index in c.inFlight[i].window.running)
      case TaskEnds(i, how) =>
        Step(c, e).Some? <==>
          && i < |c.inFlight|
          && (how == Finished && c.inFlight[i].BatchTask? ==>
                |c.inFlight[i].window.responses| == c.inFlight[i].size)
      case ConnectionCloses => Step(c, e).Some? && Step(c, e).value.0 == Fresh()
  {
    RunInv(events, states, k);
    assert forall i :: 0 <= i < |states[k].inFlight| ==> TaskInv(states[k].inFlight[i]);
  }

  // ----- the connection object -----

  class WsConnectionTasks {
    var available: nat
    var inFlight: seq<Task>

    function Snapshot(): Conn
      reads this
    {
      Conn(available, inFlight)
    }

    constructor ()
      ensures Snapshot() == Fresh()
    {
      available, inFlight := MAX_INFLIGHT_REQUESTS, [];
    }

    /** try_acquire_many: all of them or none, never waiting. */
    method TryAcquire(n: nat) returns (ok: bool)
      modifies `available
      ensures ok <==> old(available) >= n
      ensures available == if ok then old(available) - n else old(available)
    {
      ok := available >= n;
      if ok {
        available := available - n;
      }
    }

    method OnSingle() returns (reply: Reply)
      modifies this
      ensures Step(old(Snapshot()), SingleRequest) == Some((Snapshot(), reply))
    {
      var ok := TryAcquire(1);
      if !ok {
        return Busy;
      }
      inFlight := inFlight + [SingleTask];
      reply := Admitted;
    }

    method OnBatch(size: nat) returns (reply: Reply)
      modifies this
      ensures Step(old(Snapshot()), BatchRequest(size)) == Some((Snapshot(), reply))
    {
      if size == 0 {
        return EmptyBatch;
      }
      var reserved := Reservation(size);
      var ok := TryAcquire(reserved);
      if !ok {
        return Busy;
      }
      inFlight := inFlight + [NewBatch(size, reserved)];
      reply := Admitted;
    }

    method OnItem(task: nat, index: nat)
      requires Step(Snapshot(), ItemCompletes(task, index)).Some?
      modifies this
      ensures Step(old(Snapshot()), ItemCompletes(task, index)) == Some((Snapshot(), Silent))
    {
      var t := inFlight[task];
      inFlight := inFlight[task := t.(window := WsBatch.Complete(t.window, WsBatch.Units(t.size), index))];
    }

    /** The permit guard is dropped when the task's future is. */
    method OnTaskEnd(task: nat, how: Ending)
      requires Step(Snapshot(), TaskEnds(task, how)).Some?
      modifies this
      ensures Step(old(Snapshot()), TaskEnds(task, how)) == Some((Snapshot(), Silent))
    {
      available := available + Held(inFlight[task]);
      inFlight := inFlight[..task] + inFlight[task + 1..];
    }

    /** Abort everything: every task drops its permits. */
    method OnClose()
      modifies this
      ensures Step(old(Snapshot()), ConnectionCloses) == Some((Snapshot(), Silent))
    {
      while inFlight != []
        invariant available + TotalHeld(inFlight) == old(available + TotalHeld(inFlight))
        decreases |inFlight|
      {
        available := available + Held(inFlight[0]);
        inFlight := inFlight[1..];
      }
    }
  }
}
