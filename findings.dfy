/**
 * The default pair of the registry lookup, as written: two lambdas of two parameters each.
 * `process` calls the looked-up callback with three arguments, so a line still queued for a
 * source that has since been removed makes that call fail with a TypeError, which escapes
 * `process`. The rest of the model uses `Sources.Reply`, under which the default callback
 * accepts the call and returns False.
 */
module Findings {
  import opened Sources
  import opened Engine

  /** The outcome of calling a callback: what it returned, or a TypeError for a wrong argument count. */
  datatype CallOutcome = Returned(value: bool) | ArityError

  /**
   * Calling `cb` with `argc` positional arguments, as the code defines callbacks: a user
   * callback returns its answer; a default lambda takes exactly two arguments and returns False.
   */
  function CallAsWritten(cb: Callback, argc: nat, answer: bool): (r: CallOutcome)
    ensures cb.ReturnsFalse? ==> (r.ArityError? <==> argc != 2)
    ensures r.Returned? ==> r.value == Reply(cb, answer)
  {
    match cb
    case User(_) => Returned(answer)
    case ReturnsFalse => if argc == 2 then Returned(false) else ArityError
  }

  /** The call `process` makes for `f` once it has taken `f`'s front line: `callback(engine, f, item)`. */
  function ProcessCallAsWritten(s: State, f: Source, answer: Source -> bool): (r: CallOutcome)
    ensures f !in s.registry ==> r.ArityError?
    ensures f in s.registry && s.registry[f].callback.User? ==> r == Returned(answer(f))
  {
    CallAsWritten(GetEntry(s.registry, f).callback, 3, answer(f))
  }

  /**
   * A client that sends one line and then closes its connection before `process` runs: the first
   * cycle queues "hello", the second reads end of stream and removes the source, and the call
   * `process` then makes for the queued line fails as written. Under the corrected default the
   * same drain delivers the line to the default callback and carries on.
   */
  lemma LineAfterCloseBreaksProcess()
    ensures var ctl := Source(0, Acceptor, false, false);
            var a := Source(1, Readable, true, true);
            var s0 := State(map[ctl := Entry(User(0), User(1)), a := Entry(User(2), User(3))], map[], map[], [], false);
            var s1 := CycleOf(s0, [a], (g: Source) => Line("hello\n"));
            var s2 := CycleOf(s1, [a], (g: Source) => Line(""));
            && a in s1.registry && a !in s2.registry
            && Pending(s2.queues, a) == ["hello"]
            && ProcessCallAsWritten(s2, a, (g: Source) => false) == ArityError
            && DrainOf(s2, [a], (g: Source) => false)
               == Drained(s2.(queues := s2.queues[a := []], log := s2.log + [Deliver(ReturnsFalse, a, "hello")]), false)
  {
    var ctl := Source(0, Acceptor, false, false);
    var a := Source(1, Readable, true, true);
    var s0 := State(map[ctl := Entry(User(0), User(1)), a := Entry(User(2), User(3))], map[], map[], [], false);
    assert "hello\n"[..5] == "hello";
    assert Text.RStrip("hello\n") == "hello";
    assert Text.RStrip("") == "";
    assert Text.RStrip("hello") == "hello";
    var s1 := CycleOf(s0, [a], (g: Source) => Line("hello\n"));
    assert [a][..0] == [];
    assert CycleOf(s0, [], (g: Source) => Line("hello\n")) == s0;
    assert s1 == ReadStep(s0, a, Line("hello\n"));
    assert Pending(s1.queues, a) == ["hello"];
    var s2 := CycleOf(s1, [a], (g: Source) => Line(""));
    assert a !in s2.registry;
    assert [a][..0] == [];
  }
}
