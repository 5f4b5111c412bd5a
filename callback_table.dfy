/** The state of the subscriber task with the channels taken away: the table
    of callbacks per subscription, the two commands that change it, and the
    calls one batch of updates produces. Everything here is a value; the
    classes in module `Subscriber` are proved against it. */
module CallbackTable {
  import NV = NetValue

  /** netidx's subscription id; the binding only compares and hashes it. */
  type SubId = NV.Uint64

  /** The id of one registered callback, drawn from a process-wide counter. */
  type CbId = NV.Uint64

  /** A JavaScript function wrapped for calls from another thread; only its
      identity matters here. */
  datatype Callback = Callback(token: nat)

  datatype Event = Update(value: NV.Value) | Unsubscribed

  /** The requests JavaScript threads send to the subscriber task (`DvToBe`). */
  datatype Command =
    | RegisterCb(id: SubId, cbid: CbId, cb: Callback)
    | UnregisterCb(id: SubId, cbid: CbId)

  /** `SubId -> (CbId -> callback)`. */
  type Table = map<SubId, map<CbId, Callback>>

  /** One blocking call of callback `cb`, registered as `cbid` under `id`, with `value`. */
  datatype Call = Call(id: SubId, cbid: CbId, cb: Callback, value: NV.Value)

  /** The table never keeps a subscription whose callbacks are all gone. */
  ghost predicate NoEmptyEntries(t: Table)
  {
    forall id :: id in t ==> t[id] != map[]
  }

  predicate Registered(t: Table, id: SubId, cbid: CbId)
  {
    id in t && cbid in t[id]
  }

  /** `callbacks.entry(id).or_insert_with(HashMap::default).insert(cbid, cb)`. */
  function Register(t: Table, id: SubId, cbid: CbId, cb: Callback): (r: Table)
    ensures forall i, c :: Registered(r, i, c) <==> Registered(t, i, c) || (i == id && c == cbid)
    ensures id in r && cbid in r[id] && r[id][cbid] == cb
    ensures forall i, c :: i in t && c in t[i] && !(i == id && c == cbid) ==> i in r && c in r[i] && r[i][c] == t[i][c]
    ensures NoEmptyEntries(t) ==> NoEmptyEntries(r)
  {
    var inner := if id in t then t[id] else map[];
    t[id := inner[cbid := cb]]
  }

  /** Removes `cbid` from the callbacks of `id`, and the entry of `id`
      with it when that leaves it empty; an unknown `id` is ignored. */
  function Unregister(t: Table, id: SubId, cbid: CbId): (r: Table)
    ensures forall i, c :: Registered(r, i, c) <==> Registered(t, i, c) && !(i == id && c == cbid)
    ensures forall i, c :: i in r && c in r[i] ==> i in t && c in t[i] && r[i][c] == t[i][c]
    ensures NoEmptyEntries(t) ==> NoEmptyEntries(r)
  {
    if id in t then
      var h := t[id] - {cbid};
      if h == map[] then
        assert forall c :: c in t[id] ==> c in h || c == cbid;
        t - {id}
      else t[id := h]
    else t
  }

  /** One command of the `match req` arms: the pair it names becomes
      registered with its callback, or unregistered, and no other pair's
      registration changes. */
  function Apply(t: Table, cmd: Command): (r: Table)
    ensures cmd.RegisterCb? ==> Registered(r, cmd.id, cmd.cbid) && r[cmd.id][cmd.cbid] == cmd.cb
    ensures cmd.UnregisterCb? ==> !Registered(r, cmd.id, cmd.cbid)
    ensures forall i, c :: !(i == cmd.id && c == cmd.cbid) ==> (Registered(r, i, c) <==> Registered(t, i, c))
    ensures NoEmptyEntries(t) ==> NoEmptyEntries(r)
  {
    match cmd
    case RegisterCb(id, cbid, cb) => Register(t, id, cbid, cb)
    case UnregisterCb(id, cbid) => Unregister(t, id, cbid)
  }

  /** The table after the commands have been handled one after the other. */
  function ApplyAll(t: Table, cmds: seq<Command>): (r: Table)
    decreases |cmds|
  {
    if cmds == [] then t else ApplyAll(Apply(t, cmds[0]), cmds[1..])
  }

  /** Whatever commands arrive, no subscription is left with an empty callback map. */
  lemma {:induction false} ApplyAllKeepsNoEmptyEntries(t: Table, cmds: seq<Command>)
    requires NoEmptyEntries(t)
    ensures NoEmptyEntries(ApplyAll(t, cmds))
    decreases |cmds|
  {
    if cmds != [] {
      ApplyAllKeepsNoEmptyEntries(Apply(t, cmds[0]), cmds[1..]);
    }
  }

  /** In particular from the empty table the task starts with. */
  lemma NoEmptyEntriesFromStart(cmds: seq<Command>)
    ensures NoEmptyEntries(ApplyAll(map[], cmds))
  {
    ApplyAllKeepsNoEmptyEntries(map[], cmds);
  }

  /** Registering touches only the entry of `id`. */
  lemma RegisterLeavesOthers(t: Table, id: SubId, cbid: CbId, cb: Callback, other: SubId)
    requires other != id
    ensures other in Register(t, id, cbid, cb) <==> other in t
    ensures other in t ==> Register(t, id, cbid, cb)[other] == t[other]
  {
  }

  /** Unregistering something that is not registered changes nothing. */
  lemma UnregisterUnknownIsNoop(t: Table, id: SubId, cbid: CbId)
    requires NoEmptyEntries(t)
    requires !Registered(t, id, cbid)
    ensures Unregister(t, id, cbid) == t
  {
    if id in t {
      assert t[id] - {cbid} == t[id];
      assert t[id := t[id]] == t;
    }
  }

  /** Unregistering twice is unregistering once. */
  lemma UnregisterIdempotent(t: Table, id: SubId, cbid: CbId)
    ensures Unregister(Unregister(t, id, cbid), id, cbid) == Unregister(t, id, cbid)
  {
    var r := Unregister(t, id, cbid);
    if id in r {
      assert r[id] - {cbid} == r[id];
      assert r[id := r[id]] == r;
    }
  }

  /** Registering a callback id that is not there yet and unregistering it
      again gives back the table, the entry the registration created included. */
  lemma RegisterUnregisterRoundTrip(t: Table, id: SubId, cbid: CbId, cb: Callback)
    requires NoEmptyEntries(t)
    requires !Registered(t, id, cbid)
    ensures Unregister(Register(t, id, cbid, cb), id, cbid) == t
  {
    var inner := if id in t then t[id] else map[];
    assert inner[cbid := cb] - {cbid} == inner;
    if id in t {
      assert t[id := inner] == t;
    } else {
      assert t[id := map[]] - {id} == t;
    }
  }

  /** The commands `DVal`'s drop sends: one `UnregisterCb(id, c)` per `c`
      in `cbids`, each exactly once, in no particular order. The first
      command uses up one id; the rest unregister the others. */
  ghost predicate UnregistersEach(cmds: seq<Command>, id: SubId, cbids: set<CbId>)
    decreases |cmds|
  {
    if cmds == [] then cbids == {}
    else
      && cmds[0].UnregisterCb? && cmds[0].id == id && cmds[0].cbid in cbids
      && UnregistersEach(cmds[1..], id, cbids - {cmds[0].cbid})
  }

  /** The step of the drop loop: unregistering one more id, not yet sent. */
  lemma {:induction false} UnregistersEachSnoc(cmds: seq<Command>, id: SubId, sent: set<CbId>, cbid: CbId)
    requires UnregistersEach(cmds, id, sent)
    requires cbid !in sent
    ensures UnregistersEach(cmds + [UnregisterCb(id, cbid)], id, sent + {cbid})
    decreases |cmds|
  {
    var ext := cmds + [UnregisterCb(id, cbid)];
    if cmds == [] {
      assert ext[1..] == [];
      assert sent + {cbid} - {cbid} == {};
    } else {
      var c := cmds[0].cbid;
      UnregistersEachSnoc(cmds[1..], id, sent - {c}, cbid);
      assert ext[1..] == cmds[1..] + [UnregisterCb(id, cbid)];
      assert (sent + {cbid}) - {c} == (sent - {c}) + {cbid};
    }
  }

  /** The drop commands are unregisters for `id`, and name exactly the ids in `cbids`. */
  lemma {:induction false} UnregistersEachNames(cmds: seq<Command>, id: SubId, cbids: set<CbId>, c: CbId)
    requires UnregistersEach(cmds, id, cbids)
    ensures forall k :: 0 <= k < |cmds| ==> cmds[k].UnregisterCb? && cmds[k].id == id
    ensures UnregisterCb(id, c) in cmds <==> c in cbids
    decreases |cmds|
  {
    if cmds != [] {
      UnregistersEachNames(cmds[1..], id, cbids - {cmds[0].cbid}, c);
      assert cmds == [cmds[0]] + cmds[1..];
    }
  }

  /** A run of unregister commands removes exactly the pairs it names. */
  lemma {:induction false} ApplyUnregisters(t: Table, cmds: seq<Command>, i: SubId, c: CbId)
    requires forall k :: 0 <= k < |cmds| ==> cmds[k].UnregisterCb?
    ensures Registered(ApplyAll(t, cmds), i, c) <==> Registered(t, i, c) && UnregisterCb(i, c) !in cmds
    decreases |cmds|
  {
    if cmds != [] {
      ApplyUnregisters(Apply(t, cmds[0]), cmds[1..], i, c);
      assert cmds == [cmds[0]] + cmds[1..];
    }
  }

  /** Once the drop commands of a handle have been handled, none of its
      callback ids is registered under its subscription, and nothing else
      was touched. */
  lemma DropClearsHandle(t: Table, cmds: seq<Command>, id: SubId, cbids: set<CbId>)
    requires UnregistersEach(cmds, id, cbids)
    ensures forall c :: c in cbids ==> !Registered(ApplyAll(t, cmds), id, c)
    ensures forall i, c :: !(i == id && c in cbids) ==>
              (Registered(ApplyAll(t, cmds), i, c) <==> Registered(t, i, c))
  {
    forall i, c
      ensures Registered(ApplyAll(t, cmds), i, c) <==> Registered(t, i, c) && !(i == id && c in cbids)
    {
      UnregistersEachNames(cmds, id, cbids, c);
      ApplyUnregisters(t, cmds, i, c);
    }
  }

  // ---------------------------------------------------------------------
  // Batch fan-out

  /** `calls` is one call to each callback in `cbs`, each exactly once and in
      some order, every one for subscription `id` and carrying `v`: the first
      call uses up one callback of the map, the rest call the others. */
  ghost predicate CallsEach(calls: seq<Call>, cbs: map<CbId, Callback>, id: SubId, v: NV.Value)
    decreases |calls|
  {
    if calls == [] then cbs.Keys == {}
    else
      var c := calls[0].cbid;
      c in cbs && calls[0] == Call(id, c, cbs[c], v) && CallsEach(calls[1..], cbs - {c}, id, v)
  }

  /** One more call, to a callback not yet called, extends a run of calls. */
  lemma {:induction false} CallsEachSnoc(calls: seq<Call>, cbs: map<CbId, Callback>, id: SubId, v: NV.Value,
                                         cbid: CbId, cb: Callback)
    requires CallsEach(calls, cbs, id, v)
    requires cbid !in cbs
    ensures CallsEach(calls + [Call(id, cbid, cb, v)], cbs[cbid := cb], id, v)
    decreases |calls|
  {
    var ext := calls + [Call(id, cbid, cb, v)];
    if calls == [] {
      assert ext[1..] == [];
      assert (cbs[cbid := cb] - {cbid}).Keys == {};
    } else {
      var c := calls[0].cbid;
      CallsEachSnoc(calls[1..], cbs - {c}, id, v, cbid, cb);
      assert ext[1..] == calls[1..] + [Call(id, cbid, cb, v)];
      assert cbs[cbid := cb] - {c} == (cbs - {c})[cbid := cb];
    }
  }

  /** The step of the loop over a callback map: calling one of the callbacks
      still pending extends the calls made so far. */
  lemma CallsEachStep(calls: seq<Call>, cbs: map<CbId, Callback>, pending: set<CbId>, id: SubId, v: NV.Value, cbid: CbId)
    requires pending <= cbs.Keys && cbid in pending
    requires CallsEach(calls, cbs - pending, id, v)
    ensures CallsEach(calls + [Call(id, cbid, cbs[cbid], v)], cbs - (pending - {cbid}), id, v)
  {
    CallsEachSnoc(calls, cbs - pending, id, v, cbid, cbs[cbid]);
    assert cbs - (pending - {cbid}) == (cbs - pending)[cbid := cbs[cbid]];
  }

  /** There are as many calls as callbacks. */
  lemma {:induction false} CallsEachLength(calls: seq<Call>, cbs: map<CbId, Callback>, id: SubId, v: NV.Value)
    requires CallsEach(calls, cbs, id, v)
    ensures |calls| == |cbs.Keys|
    decreases |calls|
  {
    if calls != [] {
      var c := calls[0].cbid;
      CallsEachLength(calls[1..], cbs - {c}, id, v);
      assert (cbs - {c}).Keys == cbs.Keys - {c};
    }
  }

  /** Every call goes to a callback of the map, for `id`, with `v`. */
  lemma {:induction false} CallsEachTargets(calls: seq<Call>, cbs: map<CbId, Callback>, id: SubId, v: NV.Value, x: Call)
    requires CallsEach(calls, cbs, id, v)
    requires x in calls
    ensures x.cbid in cbs && x == Call(id, x.cbid, cbs[x.cbid], v)
    decreases |calls|
  {
    if x != calls[0] {
      assert calls == [calls[0]] + calls[1..];
      CallsEachTargets(calls[1..], cbs - {calls[0].cbid}, id, v, x);
    }
  }

  /** Every callback of the map is called exactly once. */
  lemma {:induction false} CallsEachOnce(calls: seq<Call>, cbs: map<CbId, Callback>, id: SubId, v: NV.Value, cbid: CbId)
    requires CallsEach(calls, cbs, id, v)
    requires cbid in cbs
    ensures multiset(calls)[Call(id, cbid, cbs[cbid], v)] == 1
    decreases |calls|
  {
    var x := Call(id, cbid, cbs[cbid], v);
    var c := calls[0].cbid;
    assert calls == [calls[0]] + calls[1..];
    if c == cbid {
      if x in calls[1..] {
        CallsEachTargets(calls[1..], cbs - {c}, id, v, x);
      }
    } else {
      CallsEachOnce(calls[1..], cbs - {c}, id, v, cbid);
    }
  }

  /** The number of calls one event of a batch produces. */
  function CallCount(t: Table, e: (SubId, Event)): (n: nat)
  {
    if e.1.Update? && e.0 in t then |t[e.0].Keys| else 0
  }

  /** The calls one event produces: one per callback of its id for an update
      of a known id, none otherwise. */
  ghost predicate EventCalls(t: Table, e: (SubId, Event), calls: seq<Call>)
  {
    if e.1.Update? && e.0 in t then CallsEach(calls, t[e.0], e.0, e.1.value) else calls == []
  }

  /** `calls` is what handling `batch` produces against table `t`: the calls of
      each event, event after event in batch order. */
  ghost predicate FanOut(t: Table, batch: seq<(SubId, Event)>, calls: seq<Call>)
    decreases |batch|
  {
    if batch == [] then calls == []
    else
      var n := CallCount(t, batch[0]);
      n <= |calls| && EventCalls(t, batch[0], calls[..n]) && FanOut(t, batch[1..], calls[n..])
  }

  /** The total number of calls a batch produces. */
  function TotalCalls(t: Table, batch: seq<(SubId, Event)>): (n: nat)
    decreases |batch|
  {
    if batch == [] then 0 else CallCount(t, batch[0]) + TotalCalls(t, batch[1..])
  }

  lemma EventCallsCount(t: Table, e: (SubId, Event), calls: seq<Call>)
    requires EventCalls(t, e, calls)
    ensures |calls| == CallCount(t, e)
  {
    if e.1.Update? && e.0 in t {
      CallsEachLength(calls, t[e.0], e.0, e.1.value);
    }
  }

  /** A batch produces exactly as many calls as its updates have callbacks. */
  lemma {:induction false} FanOutLength(t: Table, batch: seq<(SubId, Event)>, calls: seq<Call>)
    requires FanOut(t, batch, calls)
    ensures |calls| == TotalCalls(t, batch)
    decreases |batch|
  {
    if batch != [] {
      var n := CallCount(t, batch[0]);
      FanOutLength(t, batch[1..], calls[n..]);
    }
  }

  /** Handling one more event appends that event's calls. */
  lemma {:induction false} FanOutSnoc(t: Table, batch: seq<(SubId, Event)>, calls: seq<Call>,
                                      e: (SubId, Event), more: seq<Call>)
    requires FanOut(t, batch, calls)
    requires EventCalls(t, e, more)
    ensures FanOut(t, batch + [e], calls + more)
    decreases |batch|
  {
    EventCallsCount(t, e, more);
    if batch == [] {
      assert [e][1..] == [];
      assert (calls + more)[..CallCount(t, e)] == more;
      assert (calls + more)[CallCount(t, e)..] == [];
    } else {
      var n := CallCount(t, batch[0]);
      FanOutSnoc(t, batch[1..], calls[n..], e, more);
      assert (batch + [e])[1..] == batch[1..] + [e];
      assert (calls + more)[..n] == calls[..n];
      assert (calls + more)[n..] == calls[n..] + more;
    }
  }

  /** Batches are handled in order: the calls of a concatenation are the
      calls of the first part followed by those of the second. */
  lemma {:induction false} FanOutSplit(t: Table, b1: seq<(SubId, Event)>, b2: seq<(SubId, Event)>,
                                       calls: seq<Call>)
    requires FanOut(t, b1 + b2, calls)
    ensures TotalCalls(t, b1) <= |calls|
    ensures FanOut(t, b1, calls[..TotalCalls(t, b1)])
    ensures FanOut(t, b2, calls[TotalCalls(t, b1)..])
    decreases |b1|
  {
    if b1 == [] {
      assert b1 + b2 == b2;
      assert TotalCalls(t, b1) == 0;
      assert calls[..0] == [];
      assert calls[0..] == calls;
    } else {
      var n := CallCount(t, b1[0]);
      assert (b1 + b2)[0] == b1[0];
      assert (b1 + b2)[1..] == b1[1..] + b2;
      var rest := calls[n..];
      FanOutSplit(t, b1[1..], b2, rest);
      var m := TotalCalls(t, b1[1..]);
      assert rest[..m] == calls[n..n + m];
      assert rest[m..] == calls[n + m..];
      FanOutPrefix(t, b1, calls, n, m);
    }
  }

  /** The step of `FanOutSplit`: a first event's calls followed by those of
      the rest of a prefix form that prefix's calls. */
  lemma FanOutPrefix(t: Table, b: seq<(SubId, Event)>, calls: seq<Call>, n: nat, m: nat)
    requires b != [] && n == CallCount(t, b[0]) && n + m <= |calls|
    requires EventCalls(t, b[0], calls[..n])
    requires FanOut(t, b[1..], calls[n..n + m])
    ensures FanOut(t, b, calls[..n + m])
  {
    assert calls[..n + m][..n] == calls[..n];
    assert calls[..n + m][n..] == calls[n..n + m];
  }

  /** Unsubscribed events, and updates for ids without callbacks, produce no
      calls; a batch made only of those produces none at all. */
  lemma {:induction false} SilentBatch(t: Table, batch: seq<(SubId, Event)>, calls: seq<Call>)
    requires FanOut(t, batch, calls)
    requires forall k :: 0 <= k < |batch| ==> batch[k].1.Unsubscribed? || batch[k].0 !in t
    ensures calls == []
    decreases |batch|
  {
    if batch != [] {
      SilentBatch(t, batch[1..], calls);
    }
  }

  /** Every call a batch produces goes to a callback registered for the
      id of an update in the batch, with that update's value. */
  lemma {:induction false} CallsComeFromUpdates(t: Table, batch: seq<(SubId, Event)>, calls: seq<Call>, x: Call)
    requires FanOut(t, batch, calls)
    requires x in calls
    ensures Registered(t, x.id, x.cbid) && x.cb == t[x.id][x.cbid]
    ensures (x.id, Update(x.value)) in batch
    decreases |batch|
  {
    var n := CallCount(t, batch[0]);
    if x in calls[..n] {
      CallsEachTargets(calls[..n], t[batch[0].0], batch[0].0, batch[0].1.value, x);
      assert batch[0] == (x.id, Update(x.value));
    } else {
      assert calls == calls[..n] + calls[n..];
      CallsComeFromUpdates(t, batch[1..], calls[n..], x);
    }
  }

  /** Conversely, every callback registered for the id of an update in the
      batch is called with that update's value. */
  lemma {:induction false} UpdatesReachCallbacks(t: Table, batch: seq<(SubId, Event)>, calls: seq<Call>,
                                                 k: nat, cbid: CbId)
    requires FanOut(t, batch, calls)
    requires k < |batch| && batch[k].1.Update?
    requires Registered(t, batch[k].0, cbid)
    ensures Call(batch[k].0, cbid, t[batch[k].0][cbid], batch[k].1.value) in calls
    decreases |batch|
  {
    var n := CallCount(t, batch[0]);
    assert calls == calls[..n] + calls[n..];
    if k == 0 {
      var seg := calls[..n];
      CallsEachOnce(seg, t[batch[0].0], batch[0].0, batch[0].1.value, cbid);
    } else {
      UpdatesReachCallbacks(t, batch[1..], calls[n..], k - 1, cbid);
    }
  }

  /** A single update reaches each callback of its id exactly once. */
  lemma SingleUpdateCallsEachOnce(t: Table, id: SubId, v: NV.Value, calls: seq<Call>, cbid: CbId)
    requires FanOut(t, [(id, Update(v))], calls)
    requires Registered(t, id, cbid)
    ensures multiset(calls)[Call(id, cbid, t[id][cbid], v)] == 1
  {
    var n := CallCount(t, (id, Update(v)));
    assert [(id, Update(v))][1..] == [];
    assert calls[n..] == [];
    assert calls == calls[..n];
    CallsEachOnce(calls, t[id], id, v, cbid);
  }

  // ---------------------------------------------------------------------
  // The task loop

  /** What `select_biased!` hands the task on one turn of its loop: a batch
      from the update channel or a command from a JavaScript thread. */
  datatype Input = BatchReady(batch: seq<(SubId, Event)>) | CommandReady(cmd: Command)

  /** The table after one turn: batches leave it as it is. */
  function Step(t: Table, x: Input): (r: Table)
  {
    match x
    case BatchReady(_) => t
    case CommandReady(c) => Apply(t, c)
  }

  function TableAfter(t: Table, inputs: seq<Input>): (r: Table)
    decreases |inputs|
  {
    if inputs == [] then t else TableAfter(Step(t, inputs[0]), inputs[1..])
  }

  /** The commands among the inputs, in order. */
  function CommandsOf(inputs: seq<Input>): (cmds: seq<Command>)
    ensures forall c :: c in cmds <==> CommandReady(c) in inputs
    decreases |inputs|
  {
    if inputs == [] then []
    else if inputs[0].CommandReady? then [inputs[0].cmd] + CommandsOf(inputs[1..])
    else CommandsOf(inputs[1..])
  }

  /** The commands of two runs of inputs are those of the first, then those
      of the second: the filter keeps the order the task receives them in. */
  lemma {:induction false} CommandsOfAppend(a: seq<Input>, b: seq<Input>)
    ensures CommandsOf(a + b) == CommandsOf(a) + CommandsOf(b)
    decreases |a|
  {
    if a == [] {
      assert a + b == b;
    } else {
      assert (a + b)[0] == a[0];
      assert (a + b)[1..] == a[1..] + b;
      CommandsOfAppend(a[1..], b);
    }
  }

  /** `calls` is what the task produces over `inputs`, starting from table `t`:
      each batch fans out against the table as the commands before it left it. */
  ghost predicate Runs(t: Table, inputs: seq<Input>, calls: seq<Call>)
    decreases |inputs|
  {
    if inputs == [] then calls == []
    else
      match inputs[0]
      case CommandReady(c) => Runs(Apply(t, c), inputs[1..], calls)
      case BatchReady(b) =>
        var n := TotalCalls(t, b);
        n <= |calls| && FanOut(t, b, calls[..n]) && Runs(t, inputs[1..], calls[n..])
  }

  lemma {:induction false} TableAfterSnoc(t: Table, inputs: seq<Input>, x: Input)
    ensures TableAfter(t, inputs + [x]) == Step(TableAfter(t, inputs), x)
    decreases |inputs|
  {
    if inputs == [] {
      assert [x][1..] == [];
    } else {
      assert (inputs + [x])[1..] == inputs[1..] + [x];
      TableAfterSnoc(Step(t, inputs[0]), inputs[1..], x);
    }
  }

  /** Only commands change the table: the batches of a run, however many,
      leave it as the commands alone would. */
  lemma {:induction false} TableAfterIsCommandsOnly(t: Table, inputs: seq<Input>)
    ensures TableAfter(t, inputs) == ApplyAll(t, CommandsOf(inputs))
    decreases |inputs|
  {
    if inputs != [] {
      TableAfterIsCommandsOnly(Step(t, inputs[0]), inputs[1..]);
      if inputs[0].CommandReady? {
        var cmds := [inputs[0].cmd] + CommandsOf(inputs[1..]);
        assert cmds[0] == inputs[0].cmd && cmds[1..] == CommandsOf(inputs[1..]);
      }
    }
  }

  /** Whatever the task is handed, its table never holds an empty callback map. */
  lemma TaskKeepsNoEmptyEntries(inputs: seq<Input>)
    ensures NoEmptyEntries(TableAfter(map[], inputs))
  {
    TableAfterIsCommandsOnly(map[], inputs);
    NoEmptyEntriesFromStart(CommandsOf(inputs));
  }

  /** A run of one input. */
  lemma RunsSingle(t: Table, x: Input, more: seq<Call>)
    requires x.CommandReady? ==> more == []
    requires x.BatchReady? ==> FanOut(t, x.batch, more)
    ensures Runs(t, [x], more)
  {
    assert [x][1..] == [];
    if x.BatchReady? {
      FanOutLength(t, x.batch, more);
      assert more[TotalCalls(t, x.batch)..] == [];
      assert more[..TotalCalls(t, x.batch)] == more;
    }
  }

  /** Handling one more input extends the run by that input's calls. */
  lemma {:induction false} RunsSnoc(t: Table, inputs: seq<Input>, calls: seq<Call>, x: Input, more: seq<Call>)
    requires Runs(t, inputs, calls)
    requires x.CommandReady? ==> more == []
    requires x.BatchReady? ==> FanOut(TableAfter(t, inputs), x.batch, more)
    ensures Runs(t, inputs + [x], calls + more)
    decreases |inputs|
  {
    if inputs == [] {
      assert calls == [];
      RunsSingle(t, x, more);
      assert inputs + [x] == [x] && calls + more == more;
    } else {
      var ext := inputs + [x];
      assert ext[0] == inputs[0];
      assert ext[1..] == inputs[1..] + [x];
      assert TableAfter(t, inputs) == TableAfter(Step(t, inputs[0]), inputs[1..]);
      match inputs[0]
      case CommandReady(c) =>
        RunsSnoc(Apply(t, c), inputs[1..], calls, x, more);
      case BatchReady(b) =>
        var n := TotalCalls(t, b);
        RunsSnoc(t, inputs[1..], calls[n..], x, more);
        RunsBatchFirst(t, ext, calls, more, n);
    }
  }

  /** The step of `RunsSnoc` when the run starts with a batch: the calls
      appended at the end leave that batch's calls in front. */
  lemma RunsBatchFirst(t: Table, inputs: seq<Input>, calls: seq<Call>, more: seq<Call>, n: nat)
    requires inputs != [] && inputs[0].BatchReady? && n == TotalCalls(t, inputs[0].batch)
    requires n <= |calls| && FanOut(t, inputs[0].batch, calls[..n])
    requires Runs(t, inputs[1..], calls[n..] + more)
    ensures Runs(t, inputs, calls + more)
  {
    assert (calls + more)[..n] == calls[..n];
    assert (calls + more)[n..] == calls[n..] + more;
  }
}
