/**
 * The line reader's logic as functions on a snapshot of its state: one step of the poll
 * cycle, a whole cycle, the run loop, the drain done by `process` and the broadcast done by
 * `send_all`, together with the lemmas that say what each achieves.
 */
module Engine {
  import opened Text
  import opened Sources

  /** What `readline()` did on a ready readable source: returned text (the empty string at end of
      stream), or raised LineIncomplete. */
  datatype ReadOutcome = Line(text: string) | Incomplete

  /** What the reader did that its collaborators can observe. */
  datatype Event =
    | Accept(callback: Callback, src: Source)                  // callback(engine, src, src)
    | Deliver(callback: Callback, src: Source, line: string)   // callback(engine, src, line)
    | Remove(onRemove: Callback, src: Source)                  // on_remove(engine, src)
    | Write(src: Source, text: string)                         // src.write(text)
    | Flush(src: Source)                                       // src.flush()

  /** Per-source line queues; a source without a key has an empty queue. */
  type Queues = map<Source, seq<string>>

  /**
   * A snapshot of the reader: the registry, the queues, every line ever enqueued per source
   * (`arrived`), the events so far and the stop flag.
   */
  datatype State = State(registry: Registry, queues: Queues, arrived: Queues, log: seq<Event>, stopped: bool)

  /** The queue of `f`, empty when none was ever created. */
  function Pending(q: Queues, f: Source): seq<string> {
    if f in q then q[f] else []
  }

  /** The loop guard of the background thread: not stopped, and more than the control entry left. */
  predicate KeepPolling(stopped: bool, registry: Registry) {
    !stopped && |registry| > 1
  }

  /** Reading `o` from `f` completes a line worth queueing. */
  predicate Stores(f: Source, o: ReadOutcome) {
    f.kind == Readable && o.Line? && RStrip(o.text) != []
  }

  /** Reading `o` from `f` counts as end of stream: the read, stripped, is empty. */
  predicate AtEof(f: Source, o: ReadOutcome) {
    f.kind == Readable && o.Line? && RStrip(o.text) == []
  }

  /** The line queued for `f` after reading `o`, if any. */
  function Stored(f: Source, o: ReadOutcome): seq<string> {
    if Stores(f, o) then [RStrip(o.text)] else []
  }

  // ---------------------------------------------------------------------------------------
  // The poll cycle

  /** One pass of the `for f in ready` loop for the ready source `f`, whose read gave `o`. */
  function ReadStep(s: State, f: Source, o: ReadOutcome): State {
    var callback := GetEntry(s.registry, f).callback;
    if f.kind == Acceptor then
      s.(log := s.log + [Accept(callback, f)])
    else if o.Incomplete? then
      s
    else
      var line := RStrip(o.text);
      if line != [] then
        var stored := RStrip(line);
        s.(queues := s.queues[f := Pending(s.queues, f) + [stored]],
           arrived := s.arrived[f := Pending(s.arrived, f) + [stored]])
      else
        var onRemove := GetEntry(s.registry, f).onRemove;
        s.(registry := s.registry - {f}, log := s.log + [Remove(onRemove, f)])
  }

  /** One cycle: the ready sources visited in order. */
  function CycleOf(s: State, ready: seq<Source>, readline: Source -> ReadOutcome): State
    decreases |ready|
  {
    if ready == [] then s
    else ReadStep(CycleOf(s, ready[..|ready| - 1], readline), ready[|ready| - 1], readline(ready[|ready| - 1]))
  }

  /** A readable source with a non-blank line: the stripped line joins the end of its queue, nothing else changes. */
  lemma ReadStepStoresLine(s: State, f: Source, text: string)
    requires f.kind == Readable && RStrip(text) != []
    ensures var r := ReadStep(s, f, Line(text));
      && r.queues == s.queues[f := Pending(s.queues, f) + [RStrip(text)]]
      && r.arrived == s.arrived[f := Pending(s.arrived, f) + [RStrip(text)]]
      && r.registry == s.registry && r.log == s.log && r.stopped == s.stopped
  {
    RStripIdempotent(text);
  }

  /** A readable source whose read is incomplete: nothing changes. */
  lemma ReadStepIncomplete(s: State, f: Source)
    requires f.kind == Readable
    ensures ReadStep(s, f, Incomplete) == s
  {
  }

  /**
   * A readable source whose read is empty or all whitespace: it leaves the registry, its
   * registered `on_remove` is notified once, and its queue stays as it was.
   */
  lemma ReadStepBlankRemoves(s: State, f: Source, text: string)
    requires f.kind == Readable && f in s.registry
    requires forall i :: 0 <= i < |text| ==> IsSpace(text[i])
    ensures var r := ReadStep(s, f, Line(text));
      && r.registry == s.registry - {f} && f !in r.registry
      && r.log == s.log + [Remove(s.registry[f].onRemove, f)]
      && r.queues == s.queues && r.arrived == s.arrived && r.stopped == s.stopped
  {
    RStripEmptyIff(text);
  }

  /** A ready acceptor: its callback is called with the source as both arguments; nothing else changes. */
  lemma ReadStepAcceptor(s: State, f: Source, o: ReadOutcome)
    requires f.kind == Acceptor && f in s.registry
    ensures ReadStep(s, f, o) == s.(log := s.log + [Accept(s.registry[f].callback, f)])
  {
  }

  /** A step queues for `f` exactly what it stores from `f`, and only when `f` is the source read. */
  lemma ReadStepPending(s: State, g: Source, o: ReadOutcome, f: Source)
    ensures Pending(ReadStep(s, g, o).queues, f) == Pending(s.queues, f) + (if f == g then Stored(g, o) else [])
    ensures Pending(ReadStep(s, g, o).arrived, f) == Pending(s.arrived, f) + (if f == g then Stored(g, o) else [])
  {
    if o.Line? && RStrip(o.text) != [] {
      RStripIdempotent(o.text);
    }
  }

  /** After a cycle over distinct sources, each source's queue has gained exactly the line it stored. */
  lemma {:induction false} CycleQueues(s: State, ready: seq<Source>, readline: Source -> ReadOutcome, f: Source)
    requires Distinct(ready)
    ensures Pending(CycleOf(s, ready, readline).queues, f)
         == Pending(s.queues, f) + (if f in ready then Stored(f, readline(f)) else [])
    ensures Pending(CycleOf(s, ready, readline).arrived, f)
         == Pending(s.arrived, f) + (if f in ready then Stored(f, readline(f)) else [])
    decreases |ready|
  {
    if ready != [] {
      var pre, g := ready[..|ready| - 1], ready[|ready| - 1];
      DistinctPrefix(ready);
      assert ready == pre + [g];
      CycleQueues(s, pre, readline, f);
      ReadStepPending(CycleOf(s, pre, readline), g, readline(g), f);
    }
  }

  /** The sources of `ready` whose read ends their stream. */
  function Closed(ready: seq<Source>, readline: Source -> ReadOutcome): set<Source> {
    set g | g in ready && AtEof(g, readline(g))
  }

  /** A cycle removes from the registry exactly the ready sources at end of stream, and changes no other entry. */
  lemma {:induction false} CycleRegistry(s: State, ready: seq<Source>, readline: Source -> ReadOutcome)
    ensures CycleOf(s, ready, readline).registry == s.registry - Closed(ready, readline)
    ensures CycleOf(s, ready, readline).stopped == s.stopped
    decreases |ready|
  {
    if ready != [] {
      var pre, g := ready[..|ready| - 1], ready[|ready| - 1];
      assert ready == pre + [g];
      CycleRegistry(s, pre, readline);
      assert Closed(ready, readline) == Closed(pre, readline) + (if AtEof(g, readline(g)) then {g} else {});
    }
  }

  /** The events one ready source causes, its callbacks looked up in `m`. */
  function SourceEvents(m: Registry, f: Source, o: ReadOutcome): seq<Event> {
    if f.kind == Acceptor then [Accept(GetEntry(m, f).callback, f)]
    else if AtEof(f, o) then [Remove(GetEntry(m, f).onRemove, f)]
    else []
  }

  /** The events of a cycle, source by source. */
  function CycleEvents(m: Registry, ready: seq<Source>, readline: Source -> ReadOutcome): seq<Event>
    decreases |ready|
  {
    if ready == [] then []
    else CycleEvents(m, ready[..|ready| - 1], readline) + SourceEvents(m, ready[|ready| - 1], readline(ready[|ready| - 1]))
  }

  /**
   * A cycle over distinct sources appends, source by source, the accept or removal it causes,
   * with the callbacks registered when the cycle began: removing one source never changes
   * which callbacks a later source of the same cycle gets.
   */
  lemma {:induction false} CycleLog(s: State, ready: seq<Source>, readline: Source -> ReadOutcome)
    requires Distinct(ready)
    ensures CycleOf(s, ready, readline).log == s.log + CycleEvents(s.registry, ready, readline)
    decreases |ready|
  {
    if ready != [] {
      var pre, g := ready[..|ready| - 1], ready[|ready| - 1];
      DistinctPrefix(ready);
      CycleLog(s, pre, readline);
      CycleRegistry(s, pre, readline);
      assert g !in Closed(pre, readline);
      assert GetEntry(CycleOf(s, pre, readline).registry, g) == GetEntry(s.registry, g);
    }
  }

  /** The number of `on_remove` notifications for `f` in a log. */
  function Removals(log: seq<Event>, f: Source): nat
    decreases |log|
  {
    if log == [] then 0
    else Removals(log[..|log| - 1], f) + (if log[|log| - 1].Remove? && log[|log| - 1].src == f then 1 else 0)
  }

  lemma {:induction false} RemovalsAppend(a: seq<Event>, b: seq<Event>, f: Source)
    ensures Removals(a + b, f) == Removals(a, f) + Removals(b, f)
    decreases |b|
  {
    if b != [] {
      assert (a + b)[..|a + b| - 1] == a + b[..|b| - 1];
      assert (a + b)[|a + b| - 1] == b[|b| - 1];
      RemovalsAppend(a, b[..|b| - 1], f);
    } else {
      assert a + b == a;
    }
  }

  /** Within one cycle over distinct sources, `f` is removed at most once: exactly when it was read at end of stream. */
  lemma {:induction false} CycleEventsRemovals(m: Registry, ready: seq<Source>, readline: Source -> ReadOutcome, f: Source)
    requires Distinct(ready)
    ensures Removals(CycleEvents(m, ready, readline), f) == if f in ready && AtEof(f, readline(f)) then 1 else 0
    decreases |ready|
  {
    if ready != [] {
      var pre, g := ready[..|ready| - 1], ready[|ready| - 1];
      DistinctPrefix(ready);
      assert ready == pre + [g];
      CycleEventsRemovals(m, pre, readline, f);
      RemovalsAppend(CycleEvents(m, pre, readline), SourceEvents(m, g, readline(g)), f);
      assert Removals(SourceEvents(m, g, readline(g)), f) == if f == g && AtEof(g, readline(g)) then 1 else 0;
    }
  }

  /**
   * Exactly-once removal over one cycle whose ready sources are distinct and registered: a
   * source leaves the registry exactly when its read ended its stream, and then, and only then,
   * one more `on_remove` notification for it is logged.
   */
  lemma CycleRemovesOnce(s: State, ready: seq<Source>, readline: Source -> ReadOutcome, f: Source)
    requires Distinct(ready) && forall g :: g in ready ==> g in s.registry
    ensures var r := CycleOf(s, ready, readline);
      && (f in s.registry && f !in r.registry <==> f in ready && AtEof(f, readline(f)))
      && Removals(r.log, f) == Removals(s.log, f) + (if f in s.registry && f !in r.registry then 1 else 0)
      && r.registry.Keys <= s.registry.Keys
  {
    CycleRegistry(s, ready, readline);
    CycleLog(s, ready, readline);
    RemovalsAppend(s.log, CycleEvents(s.registry, ready, readline), f);
    CycleEventsRemovals(s.registry, ready, readline, f);
  }

  // ---------------------------------------------------------------------------------------
  // The run loop

  /** One call of `select`: the sources that have input (in an arbitrary fixed order), and what reading each gives. */
  datatype Poll = Poll(signalled: seq<Source>, readline: Source -> ReadOutcome)

  /** What `select` returns when asked about the registry: the signalled sources that are registered. */
  function Select(signalled: seq<Source>, m: Registry): (ready: seq<Source>)
    ensures forall g :: g in ready <==> g in signalled && g in m
    ensures Distinct(signalled) ==> Distinct(ready)
    decreases |signalled|
  {
    if signalled == [] then []
    else
      var rest := Select(signalled[..|signalled| - 1], m);
      var g := signalled[|signalled| - 1];
      assert signalled == signalled[..|signalled| - 1] + [g];
      if g in m then rest + [g] else rest
  }

  /** The background loop: cycles, one poll each, while the loop guard holds and polls remain. */
  function RunOf(s: State, polls: seq<Poll>): State
    decreases |polls|
  {
    if polls == [] || !KeepPolling(s.stopped, s.registry) then s
    else RunOf(CycleOf(s, Select(polls[0].signalled, s.registry), polls[0].readline), polls[1..])
  }

  /**
   * Over any number of cycles a source is notified of its removal at most once: one more
   * notification is logged exactly when it was registered at the start and is gone at the end.
   */
  lemma {:induction false} RunRemovesOnce(s: State, polls: seq<Poll>, f: Source)
    requires forall i :: 0 <= i < |polls| ==> Distinct(polls[i].signalled)
    ensures var r := RunOf(s, polls);
      && Removals(r.log, f) == Removals(s.log, f) + (if f in s.registry && f !in r.registry then 1 else 0)
      && r.registry.Keys <= s.registry.Keys
    decreases |polls|
  {
    if polls != [] && KeepPolling(s.stopped, s.registry) {
      var ready := Select(polls[0].signalled, s.registry);
      var c := CycleOf(s, ready, polls[0].readline);
      CycleRemovesOnce(s, ready, polls[0].readline, f);
      assert forall i :: 0 <= i < |polls[1..]| ==> polls[1..][i] == polls[i + 1];
      RunRemovesOnce(c, polls[1..], f);
    }
  }

  /** Once the loop guard fails, no further cycle runs. */
  lemma RunStopsWhenGuardFails(s: State, polls: seq<Poll>)
    requires !KeepPolling(s.stopped, s.registry)
    ensures RunOf(s, polls) == s
  {
  }

  // ---------------------------------------------------------------------------------------
  // The drain done by process()

  /** A drain's outcome: the new state, and whether a callback asked the reader to stop. */
  datatype Drained = Drained(state: State, terminated: bool)

  /**
   * `process` for one source: pop the front line, if any, and hand it to the source's callback
   * as the registry has it now; `answer(f)` is what a user callback returns.
   */
  function DrainOne(s: State, f: Source, answer: Source -> bool): Drained {
    var q := Pending(s.queues, f);
    if q == [] then Drained(s, false)
    else
      var callback := GetEntry(s.registry, f).callback;
      var t := s.(queues := s.queues[f := q[1..]], log := s.log + [Deliver(callback, f, q[0])]);
      if Reply(callback, answer(f)) then Drained(t.(stopped := true), true) else Drained(t, false)
  }

  /** `process`: the sources of `keys` in order, returning as soon as a callback asks to stop. */
  function DrainOf(s: State, keys: seq<Source>, answer: Source -> bool): Drained
    decreases |keys|
  {
    if keys == [] then Drained(s, false)
    else
      var d := DrainOf(s, keys[..|keys| - 1], answer);
      if d.terminated then d else DrainOne(d.state, keys[|keys| - 1], answer)
  }

  /** Once a callback has asked to stop, the sources after it are not visited: the drain's result is final. */
  lemma {:induction false} DrainAfterTerminate(s: State, keys: seq<Source>, k: nat, answer: Source -> bool)
    requires k <= |keys| && DrainOf(s, keys[..k], answer).terminated
    ensures DrainOf(s, keys, answer) == DrainOf(s, keys[..k], answer)
    decreases |keys|
  {
    if k < |keys| {
      var pre := keys[..|keys| - 1];
      assert pre[..k] == keys[..k];
      DrainAfterTerminate(s, pre, k, answer);
    } else {
      assert keys[..k] == keys;
    }
  }

  /** Until a callback has asked to stop, a drain one source longer is one more `DrainOne`. */
  lemma DrainStep(s: State, keys: seq<Source>, i: nat, answer: Source -> bool)
    requires i < |keys| && !DrainOf(s, keys[..i], answer).terminated
    ensures DrainOf(s, keys[..i + 1], answer) == DrainOne(DrainOf(s, keys[..i], answer).state, keys[i], answer)
  {
    assert keys[..i + 1][..i] == keys[..i];
  }

  /** A drain whose `i`-th source asks to stop ends there, with the FIFO invariant kept. */
  lemma DrainStopsAt(s: State, keys: seq<Source>, i: nat, answer: Source -> bool)
    requires i < |keys| && FifoOk(s)
    requires !DrainOf(s, keys[..i], answer).terminated
    requires DrainOne(DrainOf(s, keys[..i], answer).state, keys[i], answer).terminated
    ensures DrainOf(s, keys, answer) == DrainOne(DrainOf(s, keys[..i], answer).state, keys[i], answer)
    ensures FifoOk(DrainOf(s, keys, answer).state)
  {
    assert keys[..i + 1][..i] == keys[..i];
    DrainAfterTerminate(s, keys, i + 1, answer);
    DrainKeepsFifo(s, keys, answer);
  }

  /** A drain leaves the registry alone, creates no queue, and leaves the stop flag set exactly when a callback asked to stop (or before). */
  lemma {:induction false} DrainFrame(s: State, keys: seq<Source>, answer: Source -> bool)
    ensures var d := DrainOf(s, keys, answer);
      && d.state.registry == s.registry && d.state.arrived == s.arrived
      && d.state.queues.Keys == s.queues.Keys
      && d.state.stopped == (s.stopped || d.terminated)
    decreases |keys|
  {
    if keys != [] {
      DrainFrame(s, keys[..|keys| - 1], answer);
    }
  }

  /**
   * A drain over distinct sources takes at most the front line of each queue; when no callback
   * asked to stop it takes the front of every non-empty queue it visits.
   */
  lemma {:induction false} DrainQueues(s: State, keys: seq<Source>, answer: Source -> bool, f: Source)
    requires Distinct(keys)
    ensures var after := Pending(DrainOf(s, keys, answer).state.queues, f);
      && (after == Pending(s.queues, f) || (f in keys && Pending(s.queues, f) != [] && after == Pending(s.queues, f)[1..]))
      && (!DrainOf(s, keys, answer).terminated ==>
            after == if f in keys && Pending(s.queues, f) != [] then Pending(s.queues, f)[1..] else Pending(s.queues, f))
    decreases |keys|
  {
    if keys != [] {
      var pre, g := keys[..|keys| - 1], keys[|keys| - 1];
      DistinctPrefix(keys);
      assert keys == pre + [g];
      DrainQueues(s, pre, answer, f);
      DrainFrame(s, pre, answer);
    }
  }

  /**
   * The deliveries of a drain over `keys` that no callback stopped: in key order, the front line
   * of each non-empty queue, handed to the callback the registry `m` has for its source.
   */
  function DrainEvents(m: Registry, queues: Queues, keys: seq<Source>): seq<Event>
    decreases |keys|
  {
    if keys == [] then []
    else
      var g := keys[|keys| - 1];
      var q := Pending(queues, g);
      DrainEvents(m, queues, keys[..|keys| - 1]) + (if q == [] then [] else [Deliver(GetEntry(m, g).callback, g, q[0])])
  }

  /**
   * A drain over distinct sources that no callback stopped logs exactly `DrainEvents`: each
   * source's front line goes to that source's registered callback (or the default), in key order.
   */
  lemma {:induction false} DrainLog(s: State, keys: seq<Source>, answer: Source -> bool)
    requires Distinct(keys)
    ensures !DrainOf(s, keys, answer).terminated ==>
      DrainOf(s, keys, answer).state.log == s.log + DrainEvents(s.registry, s.queues, keys)
    decreases |keys|
  {
    if keys != [] {
      var pre, g := keys[..|keys| - 1], keys[|keys| - 1];
      DistinctPrefix(keys);
      assert keys == pre + [g];
      DrainLog(s, pre, answer);
      DrainFrame(s, pre, answer);
      DrainQueues(s, pre, answer, g);
      var d := DrainOf(s, pre, answer);
      if !d.terminated {
        assert g !in pre;
        assert Pending(d.state.queues, g) == Pending(s.queues, g);
        DrainOneDelivers(d.state, g, answer);
      }
    }
  }

  /** The lines delivered to `f`'s callback, in log order. */
  function Delivered(log: seq<Event>, f: Source): seq<string>
    decreases |log|
  {
    if log == [] then []
    else Delivered(log[..|log| - 1], f) + (if log[|log| - 1].Deliver? && log[|log| - 1].src == f then [log[|log| - 1].line] else [])
  }

  lemma {:induction false} DeliveredAppend(a: seq<Event>, b: seq<Event>, f: Source)
    ensures Delivered(a + b, f) == Delivered(a, f) + Delivered(b, f)
    decreases |b|
  {
    if b != [] {
      assert (a + b)[..|a + b| - 1] == a + b[..|b| - 1];
      assert (a + b)[|a + b| - 1] == b[|b| - 1];
      DeliveredAppend(a, b[..|b| - 1], f);
    } else {
      assert a + b == a;
    }
  }

  /**
   * The FIFO invariant: for every source, the lines delivered so far followed by the lines
   * still queued are exactly the lines that arrived, in arrival order.
   */
  ghost predicate FifoOk(s: State) {
    forall f {:trigger Pending(s.arrived, f)} :: Delivered(s.log, f) + Pending(s.queues, f) == Pending(s.arrived, f)
  }

  /** A delivered line is always the one that arrived next for its source. */
  lemma FifoDeliversInOrder(s: State, f: Source)
    requires FifoOk(s)
    ensures Delivered(s.log, f) <= Pending(s.arrived, f)
  {
    assert Delivered(s.log, f) + Pending(s.queues, f) == Pending(s.arrived, f);
  }

  /** A step appends to the log exactly the events its source causes. */
  lemma ReadStepLog(s: State, g: Source, o: ReadOutcome)
    ensures ReadStep(s, g, o).log == s.log + SourceEvents(s.registry, g, o)
  {
  }

  /** Reading delivers no line. */
  lemma SourceEventsDeliverNothing(m: Registry, g: Source, o: ReadOutcome, f: Source)
    ensures Delivered(SourceEvents(m, g, o), f) == []
  {
    var evs := SourceEvents(m, g, o);
    if evs != [] {
      assert evs[..0] == [];
    }
  }

  /** Reading keeps the FIFO invariant: a stored line joins both the queue and the arrivals. */
  lemma ReadStepKeepsFifo(s: State, g: Source, o: ReadOutcome)
    requires FifoOk(s)
    ensures FifoOk(ReadStep(s, g, o))
  {
    var r := ReadStep(s, g, o);
    ReadStepLog(s, g, o);
    forall f ensures Delivered(r.log, f) + Pending(r.queues, f) == Pending(r.arrived, f) {
      assert Delivered(s.log, f) + Pending(s.queues, f) == Pending(s.arrived, f);
      ReadStepPending(s, g, o, f);
      DeliveredAppend(s.log, SourceEvents(s.registry, g, o), f);
      SourceEventsDeliverNothing(s.registry, g, o, f);
    }
  }

  lemma {:induction false} CycleKeepsFifo(s: State, ready: seq<Source>, readline: Source -> ReadOutcome)
    requires FifoOk(s)
    ensures FifoOk(CycleOf(s, ready, readline))
    decreases |ready|
  {
    if ready != [] {
      CycleKeepsFifo(s, ready[..|ready| - 1], readline);
      ReadStepKeepsFifo(CycleOf(s, ready[..|ready| - 1], readline), ready[|ready| - 1], readline(ready[|ready| - 1]));
    }
  }

  /** Draining one source moves its front line from the queue to the delivered lines, and nothing else. */
  lemma DrainOneConserves(s: State, g: Source, answer: Source -> bool, f: Source)
    ensures var t := DrainOne(s, g, answer).state;
      Delivered(t.log, f) + Pending(t.queues, f) == Delivered(s.log, f) + Pending(s.queues, f)
  {
    var q := Pending(s.queues, g);
    if q != [] {
      var t := DrainOne(s, g, answer).state;
      var ev := Deliver(GetEntry(s.registry, g).callback, g, q[0]);
      assert t.log == s.log + [ev];
      DeliveredAppend(s.log, [ev], f);
      assert [ev][..0] == [];
      if f == g {
        assert q == [q[0]] + q[1..];
      }
    }
  }

  /** A drain conserves each source's delivered-then-queued lines, so it keeps the FIFO invariant. */
  lemma {:induction false} DrainConserves(s: State, keys: seq<Source>, answer: Source -> bool, f: Source)
    ensures var t := DrainOf(s, keys, answer).state;
      Delivered(t.log, f) + Pending(t.queues, f) == Delivered(s.log, f) + Pending(s.queues, f)
    decreases |keys|
  {
    if keys != [] {
      var d := DrainOf(s, keys[..|keys| - 1], answer);
      DrainConserves(s, keys[..|keys| - 1], answer, f);
      if !d.terminated {
        DrainOneConserves(d.state, keys[|keys| - 1], answer, f);
      }
    }
  }

  lemma DrainKeepsFifo(s: State, keys: seq<Source>, answer: Source -> bool)
    requires FifoOk(s)
    ensures FifoOk(DrainOf(s, keys, answer).state)
  {
    var t := DrainOf(s, keys, answer).state;
    DrainFrame(s, keys, answer);
    forall f ensures Delivered(t.log, f) + Pending(t.queues, f) == Pending(t.arrived, f) {
      assert Delivered(s.log, f) + Pending(s.queues, f) == Pending(s.arrived, f);
      DrainConserves(s, keys, answer, f);
    }
  }

  /**
   * One source's dispatch on a non-empty queue takes its front line and logs its delivery to the
   * callback the registry has for that source; on an empty queue it changes nothing.
   */
  lemma DrainOneDelivers(s: State, f: Source, answer: Source -> bool)
    ensures var d := DrainOne(s, f, answer); var q := Pending(s.queues, f);
      && (q == [] ==> d == Drained(s, false))
      && (q != [] ==>
            && d.state.log == s.log + [Deliver(GetEntry(s.registry, f).callback, f, q[0])]
            && d.state.queues == s.queues[f := q[1..]]
            && d.state.registry == s.registry && d.state.arrived == s.arrived)
  {
  }

  /** One source's dispatch asks the reader to stop exactly when a registered user callback answers true. */
  lemma DrainOneTerminates(s: State, f: Source, answer: Source -> bool)
    ensures DrainOne(s, f, answer).terminated
        <==> Pending(s.queues, f) != [] && f in s.registry && s.registry[f].callback.User? && answer(f)
  {
  }

  /**
   * A line left in the queue of a source that is no longer registered goes to the default
   * callback, which returns False: the line is dropped and the drain goes on.
   */
  lemma DefaultCallbackNeverStops(s: State, f: Source, answer: Source -> bool)
    requires f !in s.registry && Pending(s.queues, f) != []
    ensures var d := DrainOne(s, f, answer);
      && !d.terminated && d.state.registry == s.registry
      && Pending(d.state.queues, f) == Pending(s.queues, f)[1..]
      && d.state.log == s.log + [Deliver(ReturnsFalse, f, Pending(s.queues, f)[0])]
  {
  }

  // ---------------------------------------------------------------------------------------
  // The broadcast done by send_all()

  /** The events of `send_all` for one source: a write of the message and a newline, then a flush, each if supported. */
  function SendOne(f: Source, msg: string): seq<Event> {
    (if f.canWrite then [Write(f, msg + "\n")] else []) + (if f.canFlush then [Flush(f)] else [])
  }

  /** The events of `send_all` over the enumerated sources. */
  function Broadcast(keys: seq<Source>, msg: string): seq<Event>
    decreases |keys|
  {
    if keys == [] then [] else Broadcast(keys[..|keys| - 1], msg) + SendOne(keys[|keys| - 1], msg)
  }

  /** The texts written to `f`, in log order. */
  function Writes(log: seq<Event>, f: Source): seq<string>
    decreases |log|
  {
    if log == [] then []
    else Writes(log[..|log| - 1], f) + (if log[|log| - 1].Write? && log[|log| - 1].src == f then [log[|log| - 1].text] else [])
  }

  /** The number of flushes of `f` in a log. */
  function Flushes(log: seq<Event>, f: Source): nat
    decreases |log|
  {
    if log == [] then 0
    else Flushes(log[..|log| - 1], f) + (if log[|log| - 1] == Flush(f) then 1 else 0)
  }

  lemma {:induction false} WritesFlushesAppend(a: seq<Event>, b: seq<Event>, f: Source)
    ensures Writes(a + b, f) == Writes(a, f) + Writes(b, f)
    ensures Flushes(a + b, f) == Flushes(a, f) + Flushes(b, f)
    decreases |b|
  {
    if b != [] {
      assert (a + b)[..|a + b| - 1] == a + b[..|b| - 1];
      assert (a + b)[|a + b| - 1] == b[|b| - 1];
      WritesFlushesAppend(a, b[..|b| - 1], f);
    } else {
      assert a + b == a;
    }
  }

  /** What one source's part of the broadcast does to `f`. */
  lemma SendOneTo(g: Source, msg: string, f: Source)
    ensures Writes(SendOne(g, msg), f) == if f == g && g.canWrite then [msg + "\n"] else []
    ensures Flushes(SendOne(g, msg), f) == if f == g && g.canFlush then 1 else 0
    ensures Delivered(SendOne(g, msg), f) == []
  {
    var w: seq<Event> := if g.canWrite then [Write(g, msg + "\n")] else [];
    var l: seq<Event> := if g.canFlush then [Flush(g)] else [];
    assert SendOne(g, msg) == w + l;
    WritesFlushesAppend(w, l, f);
    DeliveredAppend(w, l, f);
    assert w == [] || w[..0] == [];
    assert l == [] || l[..0] == [];
  }

  /**
   * Over distinct sources, `send_all(msg)` writes `msg` and a newline exactly once to every
   * enumerated source that can write and to no other, flushes exactly the enumerated sources
   * that can flush, whether or not they can write, and delivers no line.
   */
  lemma {:induction false} BroadcastReaches(keys: seq<Source>, msg: string, f: Source)
    requires Distinct(keys)
    ensures Writes(Broadcast(keys, msg), f) == if f in keys && f.canWrite then [msg + "\n"] else []
    ensures Flushes(Broadcast(keys, msg), f) == if f in keys && f.canFlush then 1 else 0
    ensures Delivered(Broadcast(keys, msg), f) == []
    decreases |keys|
  {
    if keys != [] {
      var pre, g := keys[..|keys| - 1], keys[|keys| - 1];
      DistinctPrefix(keys);
      assert keys == pre + [g];
      BroadcastReaches(pre, msg, f);
      WritesFlushesAppend(Broadcast(pre, msg), SendOne(g, msg), f);
      DeliveredAppend(Broadcast(pre, msg), SendOne(g, msg), f);
      SendOneTo(g, msg, f);
    }
  }

  /** The events of a log that concern `f`, in log order. */
  function EventsOf(log: seq<Event>, f: Source): seq<Event>
    decreases |log|
  {
    if log == [] then []
    else EventsOf(log[..|log| - 1], f) + (if log[|log| - 1].src == f then [log[|log| - 1]] else [])
  }

  lemma {:induction false} EventsOfAppend(a: seq<Event>, b: seq<Event>, f: Source)
    ensures EventsOf(a + b, f) == EventsOf(a, f) + EventsOf(b, f)
    decreases |b|
  {
    if b != [] {
      assert (a + b)[..|a + b| - 1] == a + b[..|b| - 1];
      assert (a + b)[|a + b| - 1] == b[|b| - 1];
      EventsOfAppend(a, b[..|b| - 1], f);
    } else {
      assert a + b == a;
    }
  }

  /**
   * Over distinct sources, what `send_all(msg)` does to `f`, in order: the write of `msg` and a
   * newline if `f` can write, then the flush if it can flush; nothing for a source not enumerated.
   */
  lemma {:induction false} BroadcastOrder(keys: seq<Source>, msg: string, f: Source)
    requires Distinct(keys)
    ensures EventsOf(Broadcast(keys, msg), f)
      == (if f in keys && f.canWrite then [Write(f, msg + "\n")] else [])
       + (if f in keys && f.canFlush then [Flush(f)] else [])
    decreases |keys|
  {
    if keys != [] {
      var pre, g := keys[..|keys| - 1], keys[|keys| - 1];
      DistinctPrefix(keys);
      assert keys == pre + [g];
      BroadcastOrder(pre, msg, f);
      EventsOfAppend(Broadcast(pre, msg), SendOne(g, msg), f);
      var w: seq<Event> := if g.canWrite then [Write(g, msg + "\n")] else [];
      var l: seq<Event> := if g.canFlush then [Flush(g)] else [];
      EventsOfAppend(w, l, f);
      assert w == [] || w[..0] == [];
      assert l == [] || l[..0] == [];
    }
  }

  /** A broadcast keeps the FIFO invariant: it delivers nothing and touches no queue. */
  lemma BroadcastKeepsFifo(s: State, keys: seq<Source>, msg: string)
    requires FifoOk(s) && Distinct(keys)
    ensures FifoOk(s.(log := s.log + Broadcast(keys, msg)))
  {
    var t := s.(log := s.log + Broadcast(keys, msg));
    forall f ensures Delivered(t.log, f) + Pending(t.queues, f) == Pending(t.arrived, f) {
      assert Delivered(s.log, f) + Pending(s.queues, f) == Pending(s.arrived, f);
      DeliveredAppend(s.log, Broadcast(keys, msg), f);
      BroadcastReaches(keys, msg, f);
    }
  }
}
