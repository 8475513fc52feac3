/** The chat log's batch worker: lines go from a bounded queue into a batch and from there to a file. */
module ChatBatch {

  const QUEUE_SIZE: nat := 50_000
  const BATCH_SIZE: nat := 30

  datatype State = State(queue: seq<string>, batch: seq<string>, file: seq<string>)

  /** What can happen; `opens` says whether opening the file succeeds this time. */
  datatype Event =
    | Push(line: string)
    | Receive(opens: bool)
    | Ticker(opens: bool)

  predicate Enabled(s: State, e: Event) {
    e.Receive? ==> s.queue != []
  }

  function Flush(s: State, opens: bool): State {
    if opens then s.(batch := [], file := s.file + s.batch) else s
  }

  function Step(s: State, e: Event): State
    requires Enabled(s, e)
  {
    match e
    case Push(line) => if |s.queue| < QUEUE_SIZE then s.(queue := s.queue + [line]) else s
    case Receive(opens) =>
      var t := s.(queue := s.queue[1..], batch := s.batch + [s.queue[0]]);
      if |t.batch| >= BATCH_SIZE then Flush(t, opens) else t
    case Ticker(opens) => Flush(s, opens)
  }

  predicate Legal(s: State, run: seq<Event>)
    decreases |run|
  {
    run == [] || (Enabled(s, run[0]) && Legal(Step(s, run[0]), run[1..]))
  }

  function Run(s: State, run: seq<Event>): State
    requires Legal(s, run)
    decreases |run|
  {
    if run == [] then s else Run(Step(s, run[0]), run[1..])
  }

  /** The lines the queue took in during a run, in order; a full queue turns a line away. */
  function Accepted(s: State, run: seq<Event>): seq<string>
    requires Legal(s, run)
    decreases |run|
  {
    if run == [] then []
    else (if run[0].Push? && |s.queue| < QUEUE_SIZE then [run[0].line] else []) + Accepted(Step(s, run[0]), run[1..])
  }

  function Lines(s: State): seq<string> {
    s.file + s.batch + s.queue
  }

  lemma StepConserves(s: State, e: Event)
    requires Enabled(s, e)
    ensures Lines(Step(s, e)) == Lines(s) + if e.Push? && |s.queue| < QUEUE_SIZE then [e.line] else []
  {
  }

  /** File, batch and queue together always hold the accepted lines, in order, none lost or doubled. */
  lemma {:induction false} RunConserves(s: State, run: seq<Event>)
    requires Legal(s, run)
    ensures Lines(Run(s, run)) == Lines(s) + Accepted(s, run)
    decreases |run|
  {
    if run != [] {
      StepConserves(s, run[0]);
      RunConserves(Step(s, run[0]), run[1..]);
    }
  }

  /** While the file can be opened, the batch never reaches its size limit between two steps. */
  lemma {:induction false} BatchStaysSmall(s: State, run: seq<Event>)
    requires Legal(s, run) && |s.batch| < BATCH_SIZE
    requires forall e | e in run :: !e.Push? ==> e.opens
    ensures |Run(s, run).batch| < BATCH_SIZE
    decreases |run|
  {
    if run != [] {
      assert run[0] in run;
      BatchStaysSmall(Step(s, run[0]), run[1..]);
    }
  }

  /** A line is taken in while fewer than 50000 are waiting, behind them, and otherwise dropped. */
  lemma PushRule(s: State, line: string)
    ensures var t := Step(s, Push(line));
            t.file == s.file && t.batch == s.batch && t.queue == s.queue + if |s.queue| < 50_000 then [line] else []
  {
  }

  /** The oldest waiting line joins the batch; the thirtieth line of a batch has all of it written, if the file opens. */
  lemma ReceiveRule(s: State, opens: bool)
    requires s.queue != []
    ensures var t := Step(s, Receive(opens));
            && [s.queue[0]] + t.queue == s.queue
            && (if |s.batch| >= 29 && opens then t.batch == [] else t.batch == s.batch + [s.queue[0]] && t.file == s.file)
            && t.file + t.batch == s.file + s.batch + [s.queue[0]]
  {
  }

  /** A ticker whose open succeeds leaves nothing in the batch, and every received line in the file. */
  lemma TickerRule(s: State, opens: bool)
    ensures var t := Step(s, Ticker(opens));
            t.queue == s.queue && if opens then t.batch == [] && t.file == s.file + s.batch else t == s
  {
  }

  class ChatWorker {
    var chatQueue: seq<string>
    var batch: seq<string>
    var file: seq<string>

    function Snapshot(): State
      reads this
    {
      State(chatQueue, batch, file)
    }

    constructor ()
      ensures Snapshot() == State([], [], [])
    {
      chatQueue, batch, file := [], [], [];
    }

    method PushToBatchQueue(line: string)
      modifies this`chatQueue
      ensures Snapshot() == Step(old(Snapshot()), Push(line))
    {
      if |chatQueue| < QUEUE_SIZE {
        chatQueue := chatQueue + [line];
      }
    }

    method FlushBatch(opens: bool)
      modifies this`batch, this`file
      ensures Snapshot() == Flush(old(Snapshot()), opens)
    {
      if |batch| == 0 || !opens {
        return;
      }
      for i := 0 to |batch|
        invariant batch == old(batch) && i <= |batch| && file == old(file) + batch[..i]
      {
        file := file + [batch[i]];
      }
      batch := [];
    }

    method ReceiveLine(opens: bool)
      requires chatQueue != []
      modifies this
      ensures Snapshot() == Step(old(Snapshot()), Receive(opens))
    {
      batch := batch + [chatQueue[0]];
      chatQueue := chatQueue[1..];
      if |batch| >= BATCH_SIZE {
        FlushBatch(opens);
      }
    }

    method TickerFires(opens: bool)
      modifies this`batch, this`file
      ensures Snapshot() == Step(old(Snapshot()), Ticker(opens))
    {
      FlushBatch(opens);
    }
  }
}
