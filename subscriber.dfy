/** The objects of the subscriber binding: the callback-id counter, the
    command channel's sender, the per-subscription handle `DVal`, the
    `Subscriber` that creates handles, and the state of the subscriber task.
    Each method is proved against the value semantics of `CallbackTable`. */
module Subscriber {
  import NV = NetValue
  import opened CallbackTable

  /** The static `AtomicU64` behind `CbId::new`. `issued` records every id
      handed out; `wrapped` becomes true once the counter has gone past
      2^64 - 1 and started again from 0. */
  class CbIdCounter {
    var next: CbId
    ghost var issued: set<CbId>
    ghost var wrapped: bool

    /** Until it wraps, the ids handed out are exactly 0 .. next - 1. */
    ghost predicate Valid()
      reads this
    {
      !wrapped ==> forall c: CbId :: c in issued <==> c < next
    }

    constructor ()
      ensures Valid() && next == 0 && issued == {} && !wrapped
    {
      next := 0;
      issued := {};
      wrapped := false;
    }

    /** `NEXT.fetch_add(1)`: returns the current value and advances the
        counter, wrapping to 0 after 2^64 - 1. Until it wraps, each id is
        larger than every id handed out before it. */
    method New() returns (id: CbId)
      requires Valid()
      modifies this
      ensures Valid()
      ensures id == old(next)
      ensures next == (old(next) + 1) % NV.U64_LIMIT
      ensures issued == old(issued) + {id}
      ensures wrapped == (old(wrapped) || id == NV.U64_LIMIT - 1)
      ensures !old(wrapped) ==> forall c :: c in old(issued) ==> c < id
    {
      id := next;
      next := (next + 1) % NV.U64_LIMIT;
      issued := issued + {id};
      wrapped := wrapped || id == NV.U64_LIMIT - 1;
    }
  }

  /** The unbounded sender `to_be`: the commands sent so far, in order.
      Sending never fails, and the task receives them in this order. */
  class CommandSender {
    var sent: seq<Command>

    constructor ()
      ensures sent == []
    {
      sent := [];
    }

    method Send(cmd: Command)
      modifies this
      ensures sent == old(sent) + [cmd]
    {
      sent := sent + [cmd];
    }
  }

  /** The JavaScript handle for one subscription, with the ids of the
      callbacks registered through it. */
  class DVal {
    const id: SubId
    const sender: CommandSender
    const counter: CbIdCounter
    var callbacks: set<CbId>

    /** Every id the handle holds came from the counter. */
    ghost predicate Valid()
      reads this, counter
    {
      counter.Valid() && callbacks <= counter.issued
    }

    constructor (id: SubId, sender: CommandSender, counter: CbIdCounter)
      requires counter.Valid()
      ensures Valid()
      ensures this.id == id && this.sender == sender && this.counter == counter
      ensures callbacks == {}
    {
      this.id := id;
      this.sender := sender;
      this.counter := counter;
      callbacks := {};
    }

    /** `on_update`: draws a fresh callback id, sends exactly one
        `RegisterCb` for it and records it in the handle. Until the counter
        wraps, the id is not one the handle already held. */
    method OnUpdate(cb: Callback)
      requires Valid()
      modifies this, sender, counter
      ensures Valid()
      ensures counter.next == (old(counter.next) + 1) % NV.U64_LIMIT
      ensures counter.issued == old(counter.issued) + {old(counter.next)}
      ensures counter.wrapped == (old(counter.wrapped) || old(counter.next) == NV.U64_LIMIT - 1)
      ensures sender.sent == old(sender.sent) + [RegisterCb(id, old(counter.next), cb)]
      ensures callbacks == old(callbacks) + {old(counter.next)}
      ensures !old(counter.wrapped) ==> old(counter.next) !in old(callbacks)
    {
      var cbid := counter.New();
      sender.Send(RegisterCb(id, cbid, cb));
      callbacks := callbacks + {cbid};
    }

    /** `drop`: sends one `UnregisterCb` per held callback id, in the hash
        set's order. `drops` names the commands sent. */
    method Drop() returns (ghost drops: seq<Command>)
      modifies sender
      ensures sender.sent == old(sender.sent) + drops
      ensures UnregistersEach(drops, id, callbacks)
    {
      drops := [];
      ghost var done: set<CbId> := {};
      var pending := callbacks;
      while pending != {}
        invariant done + pending == callbacks && done !! pending
        invariant sender.sent == old(sender.sent) + drops
        invariant UnregistersEach(drops, id, done)
        decreases pending
      {
        var cbid :| cbid in pending;
        sender.Send(UnregisterCb(id, cbid));
        UnregistersEachSnoc(drops, id, done, cbid);
        drops := drops + [UnregisterCb(id, cbid)];
        done := done + {cbid};
        pending := pending - {cbid};
      }
      assert done == callbacks;
    }
  }

  /** The `Subscriber` JavaScript holds: it shares the task's command sender
      and the process-wide callback-id counter with every handle it makes. */
  class Subscriber {
    const toBe: CommandSender
    const counter: CbIdCounter

    constructor (toBe: CommandSender, counter: CbIdCounter)
      ensures this.toBe == toBe && this.counter == counter
    {
      this.toBe := toBe;
      this.counter := counter;
    }

    /** `subscribe`: netidx's durable subscription to `path` has the id
        `subId`, which stands for the path from here on (the path itself
        only names the subscription to netidx, which is not modelled); the
        handle for it starts with no callbacks. */
    method Subscribe(path: string, subId: SubId) returns (d: DVal)
      requires counter.Valid()
      ensures fresh(d) && d.Valid()
      ensures d.id == subId && d.callbacks == {}
      ensures d.sender == toBe && d.counter == counter
    {
      d := new DVal(subId, toBe, counter);
    }
  }

  /** The state `subscriber_task` owns: the callback table. */
  class Dispatcher {
    var callbacks: Table

    ghost predicate Valid()
      reads this
    {
      NoEmptyEntries(callbacks)
    }

    constructor ()
      ensures Valid() && callbacks == map[]
    {
      callbacks := map[];
    }

    /** The `RegisterCb` arm. */
    method HandleRegister(id: SubId, cbid: CbId, cb: Callback)
      requires Valid()
      modifies this
      ensures Valid()
      ensures callbacks == Register(old(callbacks), id, cbid, cb)
    {
      var inner: map<CbId, Callback> := map[];
      if id in callbacks {
        inner := callbacks[id];
      }
      callbacks := callbacks[id := inner[cbid := cb]];
      assert callbacks == Register(old(callbacks), id, cbid, cb);
    }

    /** The `UnregisterCb` arm: only an occupied entry is touched, and it is
        removed when its last callback goes. */
    method HandleUnregister(id: SubId, cbid: CbId)
      requires Valid()
      modifies this
      ensures Valid()
      ensures callbacks == Unregister(old(callbacks), id, cbid)
    {
      if id in callbacks {
        var h := callbacks[id] - {cbid};
        if h == map[] {
          callbacks := callbacks - {id};
        } else {
          callbacks := callbacks[id := h];
        }
      }
    }

    method HandleCommand(cmd: Command)
      requires Valid()
      modifies this
      ensures Valid()
      ensures callbacks == Apply(old(callbacks), cmd)
    {
      match cmd
      case RegisterCb(id, cbid, cb) => HandleRegister(id, cbid, cb);
      case UnregisterCb(id, cbid) => HandleUnregister(id, cbid);
    }

    /** `for cb in cbs.values() { cb.call(v.clone(), Blocking) }`: one call
        per callback of `id`, in the hash map's order, each with `v`. */
    method CallAll(id: SubId, v: NV.Value) returns (calls: seq<Call>)
      requires id in callbacks
      ensures CallsEach(calls, callbacks[id], id, v)
    {
      var cbs := callbacks[id];
      calls := [];
      var pending := cbs.Keys;
      while pending != {}
        invariant pending <= cbs.Keys
        invariant CallsEach(calls, cbs - pending, id, v)
        decreases pending
      {
        var cbid :| cbid in pending;
        CallsEachStep(calls, cbs, pending, id, v, cbid);
        calls := calls + [Call(id, cbid, cbs[cbid], v)];
        pending := pending - {cbid};
      }
      assert cbs - pending == cbs;
    }

    /** The batch arm: walks the batch in order; an update for an id with
        callbacks calls each of them, anything else is skipped. The table is
        not modified. */
    method HandleBatch(batch: seq<(SubId, Event)>) returns (calls: seq<Call>)
      ensures FanOut(callbacks, batch, calls)
    {
      calls := [];
      var i := 0;
      while i < |batch|
        invariant 0 <= i <= |batch|
        invariant FanOut(callbacks, batch[..i], calls)
      {
        var (id, ev) := batch[i];
        var more: seq<Call> := [];
        if ev.Update? && id in callbacks {
          more := CallAll(id, ev.value);
        }
        FanOutSnoc(callbacks, batch[..i], calls, batch[i], more);
        assert batch[..i + 1] == batch[..i] + [batch[i]];
        calls := calls + more;
        i := i + 1;
      }
      assert batch[..|batch|] == batch;
    }

    /** The task loop over the inputs `select_biased!` picks, one per turn. */
    method Run(inputs: seq<Input>) returns (calls: seq<Call>)
      requires Valid()
      modifies this
      ensures Valid()
      ensures callbacks == TableAfter(old(callbacks), inputs)
      ensures Runs(old(callbacks), inputs, calls)
    {
      calls := [];
      var i := 0;
      while i < |inputs|
        invariant 0 <= i <= |inputs|
        invariant Valid()
        invariant callbacks == TableAfter(old(callbacks), inputs[..i])
        invariant Runs(old(callbacks), inputs[..i], calls)
      {
        var more: seq<Call> := [];
        match inputs[i] {
          case BatchReady(b) => more := HandleBatch(b);
          case CommandReady(c) => HandleCommand(c);
        }
        RunsSnoc(old(callbacks), inputs[..i], calls, inputs[i], more);
        TableAfterSnoc(old(callbacks), inputs[..i], inputs[i]);
        assert inputs[..i + 1] == inputs[..i] + [inputs[i]];
        calls := calls + more;
        i := i + 1;
      }
      assert inputs[..|inputs|] == inputs;
    }
  }
}
