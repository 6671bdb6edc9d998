/**
 * The `LineReader` object: a registry of sources, one line queue per source and a stop flag,
 * updated in place by `add`, by each cycle of the background loop, by `process` and by `stop`.
 * Every method is proved to leave the object in the state the Engine functions prescribe.
 */
module Reader {
  import opened Text
  import opened Sources
  import opened Engine

  class LineReader {
    /** `_map`: each source with its (callback, on_remove) pair. */
    var registry: Registry
    /** `_queues`: the line queue of each source that has ever queued a line. */
    var queues: Queues
    /** `_stop_signal`. */
    var stopSignal: bool

    /** Every line ever queued, per source, in arrival order. */
    ghost var arrived: Queues
    /** The callbacks called, and the writes and flushes made, in order. */
    ghost var log: seq<Event>

    ghost function Snapshot(): State
      reads this
    {
      State(registry, queues, arrived, log, stopSignal)
    }

    /** The object invariant: lines come out of each queue in the order they went in. */
    ghost predicate Valid()
      reads this
    {
      FifoOk(Snapshot())
    }

    /** `LineReader(input_map)`: the caller's map, no queues, not stopped. */
    constructor (inputMap: Registry)
      ensures Valid()
      ensures registry == inputMap && queues == map[] && !stopSignal
      ensures arrived == map[] && log == []
    {
      registry := inputMap;
      queues := map[];
      stopSignal := false;
      arrived := map[];
      log := [];
    }

    /** The guard of the background loop. */
    predicate Running()
      reads this
    {
      KeepPolling(stopSignal, registry)
    }

    /** `stop()`: raises the stop flag; the background loop sees it before its next cycle. */
    method Stop()
      modifies this`stopSignal
      ensures stopSignal && !Running()
      ensures Snapshot() == old(Snapshot()).(stopped := true)
      ensures old(Valid()) ==> Valid()
    {
      stopSignal := true;
    }

    /** `add(f, callback, on_remove)`: registers `f`, or replaces its pair. */
    method Add(f: Source, callback: Callback, onRemove: Callback)
      requires Valid()
      modifies this
      ensures Valid()
      ensures registry == old(registry)[f := Entry(callback, onRemove)]
      ensures GetEntry(registry, f) == Entry(callback, onRemove)
      ensures queues == old(queues) && arrived == old(arrived) && log == old(log)
      ensures stopSignal == old(stopSignal)
    {
      registry := registry[f := Entry(callback, onRemove)];
    }

    /**
     * One cycle of the background loop over the sources `select` reported ready, each read
     * with `readline`. An acceptor's callback is called with the source twice; a readable
     * source is skipped on an incomplete line, queues its stripped line, or, when the stripped
     * read is empty, leaves the registry and has its `on_remove` called.
     */
    method Cycle(ready: seq<Source>, readline: Source -> ReadOutcome)
      requires Valid()
      requires Distinct(ready) && forall f :: f in ready ==> f in registry
      modifies this
      ensures Valid()
      ensures Snapshot() == CycleOf(old(Snapshot()), ready, readline)
    {
      var i := 0;
      while i < |ready|
        invariant 0 <= i <= |ready|
        invariant Snapshot() == CycleOf(old(Snapshot()), ready[..i], readline)
      {
        var f := ready[i];
        var callback := GetEntry(registry, f).callback;
        if f.kind == Acceptor {
          log := log + [Accept(callback, f)];
        } else {
          match readline(f)
          case Incomplete =>
          case Line(text) =>
            var line := RStrip(text);
            if line != [] {
              var stored := RStrip(line);
              queues := queues[f := Pending(queues, f) + [stored]];
              arrived := arrived[f := Pending(arrived, f) + [stored]];
            } else {
              var onRemove := GetEntry(registry, f).onRemove;
              registry := registry - {f};
              log := log + [Remove(onRemove, f)];
            }
        }
        assert ready[..i + 1][..i] == ready[..i];
        i := i + 1;
      }
      assert ready[..|ready|] == ready;
      CycleKeepsFifo(old(Snapshot()), ready, readline);
    }

    /**
     * `_run`: while not stopped and more than one source is registered, poll and run a cycle,
     * taking one poll from `polls` per cycle. Returns the number of cycles run.
     */
    method Run(polls: seq<Poll>) returns (cycles: nat)
      requires Valid()
      requires forall i :: 0 <= i < |polls| ==> Distinct(polls[i].signalled)
      modifies this
      ensures Valid()
      ensures Snapshot() == RunOf(old(Snapshot()), polls)
      ensures cycles <= |polls| && (cycles < |polls| ==> !Running())
      ensures !old(Running()) ==> cycles == 0 && Snapshot() == old(Snapshot())
    {
      cycles := 0;
      while cycles < |polls| && Running()
        invariant cycles <= |polls|
        invariant Valid()
        invariant RunOf(Snapshot(), polls[cycles..]) == RunOf(old(Snapshot()), polls)
        invariant cycles == 0 ==> Snapshot() == old(Snapshot())
        invariant !old(Running()) ==> cycles == 0
      {
        var poll := polls[cycles];
        var ready := Select(poll.signalled, registry);
        ghost var before := Snapshot();
        assert polls[cycles..][0] == poll && polls[cycles..][1..] == polls[cycles + 1..];
        assert RunOf(before, polls[cycles..]) == RunOf(CycleOf(before, ready, poll.readline), polls[cycles + 1..]);
        Cycle(ready, poll.readline);
        cycles := cycles + 1;
      }
    }

    /**
     * The body of `process()`'s loop for one source: take the front line of its queue, if any,
     * and hand it to the source's callback; when the callback answers true, stop the reader.
     * Returns whether it did.
     */
    method Dispatch(f: Source, answer: Source -> bool) returns (shouldExit: bool)
      modifies this
      ensures var d := DrainOne(old(Snapshot()), f, answer);
        Snapshot() == d.state && shouldExit == d.terminated
      ensures old(Pending(queues, f)) != [] ==>
        log == old(log) + [Deliver(GetEntry(old(registry), f).callback, f, old(Pending(queues, f))[0])]
    {
      var q := Pending(queues, f);
      shouldExit := false;
      if q != [] {
        var item := q[0];
        queues := queues[f := q[1..]];
        var callback := GetEntry(registry, f).callback;
        log := log + [Deliver(callback, f, item)];
        shouldExit := Reply(callback, answer(f));
        if shouldExit {
          Stop();
        }
      }
    }

    /**
     * `process()`: visits the queues in the enumeration `keys`, takes the front line of each
     * non-empty one and hands it to the source's callback; `answer(f)` is what a user callback
     * returns for `f`. When a callback answers true the reader stops and `process` returns false
     * at once; otherwise it returns whether the background thread is alive (`threadAlive`).
     */
    method Process(keys: seq<Source>, answer: Source -> bool, threadAlive: bool) returns (running: bool)
      requires Valid()
      requires Distinct(keys) && forall f :: f in keys <==> f in queues
      requires stopSignal ==> !threadAlive
      modifies this
      ensures Valid()
      ensures var d := DrainOf(old(Snapshot()), keys, answer);
        Snapshot() == d.state && running == (!d.terminated && threadAlive)
      ensures old(stopSignal) ==> !running
      ensures !DrainOf(old(Snapshot()), keys, answer).terminated ==>
        log == old(log) + DrainEvents(old(registry), old(queues), keys)
    {
      ghost var s0 := Snapshot();
      DrainFrame(s0, keys, answer);
      var i := 0;
      while i < |keys|
        invariant 0 <= i <= |keys|
        invariant !DrainOf(s0, keys[..i], answer).terminated
        invariant Snapshot() == DrainOf(s0, keys[..i], answer).state
      {
        DrainStep(s0, keys, i, answer);
        var shouldExit := Dispatch(keys[i], answer);
        if shouldExit {
          DrainStopsAt(s0, keys, i, answer);
          return false;
        }
        i := i + 1;
      }
      assert keys[..|keys|] == keys;
      DrainKeepsFifo(s0, keys, answer);
      DrainLog(s0, keys, answer);
      running := threadAlive;
    }

    /**
     * `send_all(msg)`: over the enumeration `keys` of the registry, writes `msg` and a newline
     * to each source that can write and flushes each source that can flush.
     */
    method SendAll(msg: string, keys: seq<Source>)
      requires Valid()
      requires Distinct(keys) && forall f :: f in keys <==> f in registry
      modifies this`log
      ensures Valid()
      ensures log == old(log) + Broadcast(keys, msg)
    {
      var i := 0;
      while i < |keys|
        invariant 0 <= i <= |keys|
        invariant log == old(log) + Broadcast(keys[..i], msg)
      {
        var f := keys[i];
        if f.canWrite {
          log := log + [Write(f, msg + "\n")];
        }
        if f.canFlush {
          log := log + [Flush(f)];
        }
        assert keys[..i + 1][..i] == keys[..i];
        i := i + 1;
      }
      assert keys[..|keys|] == keys;
      BroadcastKeepsFifo(old(Snapshot()), keys, msg);
    }
  }
}
