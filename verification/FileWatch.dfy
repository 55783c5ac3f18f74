/** The file watcher as a step system: the monitor thread reads, filters by change stamp, parses and appends
    batches; the callback thread swaps the shared vector out and hands events to the callback one by one;
    `destroy` may raise its flag at any moment.  Every access to the shared vector is one step, as it happens
    under the callback mutex. */
module FileWatch {
  import opened InotifyBuffer

  // ---------------------------------------------------------------------------------------------
  // Paths

  /** How many trailing characters come after the last '/'. */
  function TailLength(path: string): (k: nat)
    ensures k <= |path| && (k < |path| ==> path[|path| - k - 1] == '/')
    ensures forall i :: |path| - k <= i < |path| ==> path[i] != '/'
  {
    if path == [] || path[|path| - 1] == '/' then 0
    else 1 + TailLength(path[..|path| - 1])
  }

  /** split_directory_and_file: the directory keeps its '/' and is "./" when there is none; the file name
      has no '/' in it; the two together are the path. */
  function Split(path: string): (r: (string, string))
    ensures '/' !in r.1
    ensures '/' in path ==> r.0 + r.1 == path && r.0 != [] && r.0[|r.0| - 1] == '/'
    ensures '/' !in path ==> r == ("./", path)
  {
    var pivot := |path| - TailLength(path);
    var directory := path[..pivot];
    assert directory + path[pivot..] == path;
    assert pivot > 0 ==> path[pivot - 1] == '/' && path[pivot - 1] in path;
    (if directory == [] then "./" else directory, path[pivot..])
  }

  /** The only split with those properties: the file name is what follows the last '/'. */
  lemma SplitUnique(path: string, directory: string, file: string)
    requires directory + file == path && directory != [] && directory[|directory| - 1] == '/'
    requires forall i :: 0 <= i < |file| ==> file[i] != '/'
    ensures Split(path) == (directory, file)
  {
    TailUnique(path, |file|);
    assert path[..|directory|] == directory && path[|directory|..] == file;
  }

  lemma TailUnique(path: string, k: nat)
    requires k < |path| && path[|path| - k - 1] == '/'
    requires forall i :: |path| - k <= i < |path| ==> path[i] != '/'
    ensures TailLength(path) == k
  {
  }

  // ---------------------------------------------------------------------------------------------
  // The state

  type Item = (Name, Event)

  /** Modification time and size of the watched path. */
  datatype Stamp = Stamp(time: int, size: nat)

  /** One return of read() with the stamp seen right after it; no records when read() fails. */
  datatype Read = Read(records: seq<Record>, stamp: Stamp)

  datatype Monitor = AtLoopTest | Reading | Dispatching(batch: seq<Item>) | MonitorDone

  datatype Callback = AtTest | Entering | Handing(rest: seq<Item>) | CallbackDone

  datatype Watch = Watch(
    filter: Name -> bool, destroyed: bool, last: Stamp,
    monitor: Monitor, callback: Callback, shared: seq<Item>,
    /* history: the stamp at construction, all reads, all appended items, all items handed over */
    first: Stamp, readLog: seq<Read>, produced: seq<Item>, delivered: seq<Item>)

  datatype Step =
    | TestLoop
    | ReturnFromRead(read: Read)
    | Append
    | TestCallback
    | Swap
    | Hand
    | FinishBatch
    | Destroy

  ghost predicate Enabled(w: Watch, step: Step) {
    match step
    case TestLoop => w.monitor.AtLoopTest?
    case ReturnFromRead(_) => w.monitor.Reading?
    case Append => w.monitor.Dispatching?
    case TestCallback => w.callback.AtTest?
    case Swap => w.callback.Entering? && (w.shared != [] || w.destroyed)
    case Hand => w.callback.Handing? && w.callback.rest != []
    case FinishBatch => w.callback == Handing([])
    case Destroy => true
  }

  ghost function Parsed(filter: Name -> bool, records: seq<Record>): seq<Item> {
    Report(records, |records|, filter)
  }

  ghost function Apply(w: Watch, step: Step): Watch
    requires Enabled(w, step)
  {
    match step
    case TestLoop => w.(monitor := if w.destroyed then MonitorDone else Reading)
    case ReturnFromRead(read) =>
      if read.records != [] && read.stamp != w.last
      then w.(last := read.stamp, monitor := Dispatching(Parsed(w.filter, read.records)), readLog := w.readLog + [read])
      else w.(monitor := AtLoopTest, readLog := w.readLog + [read])
    case Append =>
      w.(shared := w.shared + w.monitor.batch, monitor := AtLoopTest, produced := w.produced + w.monitor.batch)
    case TestCallback => w.(callback := if w.destroyed then CallbackDone else Entering)
    case Swap => w.(callback := Handing(w.shared), shared := [])
    case Hand =>
      w.(delivered := w.delivered + [w.callback.rest[0]], callback := Handing(w.callback.rest[1..]))
    case FinishBatch => w.(callback := AtTest)
    case Destroy => w.(destroyed := true)
  }

  ghost predicate Init(w: Watch) {
    && !w.destroyed && w.monitor == AtLoopTest && w.callback == AtTest && w.shared == []
    && w.first == w.last && w.readLog == [] && w.produced == [] && w.delivered == []
  }

  ghost predicate Reaches(w: Watch, steps: seq<Step>, v: Watch)
    decreases |steps|
  {
    if steps == [] then w == v
    else Enabled(w, steps[0]) && Reaches(Apply(w, steps[0]), steps[1..], v)
  }

  // ---------------------------------------------------------------------------------------------
  // The stamp filter, on the reads alone

  /** The reads that are acted on: each with a stamp different from that of the one acted on before. */
  ghost function Accepted(first: Stamp, readLog: seq<Read>): seq<Read> {
    if readLog == [] then []
    else
      var before, r := Accepted(first, readLog[..|readLog| - 1]), readLog[|readLog| - 1];
      if r.records != [] && r.stamp != LastStamp(first, before) then before + [r] else before
  }

  ghost function LastStamp(first: Stamp, accepted: seq<Read>): Stamp {
    if accepted == [] then first else accepted[|accepted| - 1].stamp
  }

  /** No two consecutive accepted stamps are equal, counting the initial one. */
  lemma {:induction false} AcceptedStampsDiffer(first: Stamp, readLog: seq<Read>, i: nat)
    requires i < |Accepted(first, readLog)|
    ensures var a := Accepted(first, readLog); a[i].stamp != LastStamp(first, a[..i]) && a[i].records != []
    decreases |readLog|
  {
    var a, before := Accepted(first, readLog), Accepted(first, readLog[..|readLog| - 1]);
    if i < |before| {
      AcceptedStampsDiffer(first, readLog[..|readLog| - 1], i);
      assert a[..i] == before[..i];
    } else {
      assert a[..i] == before;
    }
  }

  ghost function ParsedAll(filter: Name -> bool, readLog: seq<Read>): seq<Item> {
    if readLog == [] then []
    else ParsedAll(filter, readLog[..|readLog| - 1]) + Parsed(filter, readLog[|readLog| - 1].records)
  }

  // ---------------------------------------------------------------------------------------------
  // The invariant and what every interleaving guarantees

  ghost function InHand(c: Callback): seq<Item> {
    if c.Handing? then c.rest else []
  }

  ghost function Undispatched(m: Monitor): seq<Item> {
    if m.Dispatching? then m.batch else []
  }

  ghost predicate Inv(w: Watch) {
    && w.delivered + InHand(w.callback) + w.shared == w.produced
    && w.produced + Undispatched(w.monitor) == ParsedAll(w.filter, Accepted(w.first, w.readLog))
    && w.last == LastStamp(w.first, Accepted(w.first, w.readLog))
  }

  lemma InitEstablishes(w: Watch)
    requires Init(w)
    ensures Inv(w)
  {
  }

  /** One more read: acted on exactly if it has records and a new stamp. */
  lemma AcceptedNext(first: Stamp, readLog: seq<Read>, read: Read)
    ensures var a := Accepted(first, readLog);
            Accepted(first, readLog + [read]) ==
            if read.records != [] && read.stamp != LastStamp(first, a) then a + [read] else a
  {
    assert (readLog + [read])[..|readLog|] == readLog;
  }

  lemma ParsedNext(filter: Name -> bool, accepted: seq<Read>, read: Read)
    ensures ParsedAll(filter, accepted + [read]) == ParsedAll(filter, accepted) + Parsed(filter, read.records)
  {
    hide Parsed;
    assert (accepted + [read])[..|accepted|] == accepted;
  }

  /** A read that returns keeps the invariant, whether it is acted on or passed over. */
  lemma ReadKeeps(w: Watch, read: Read)
    requires Inv(w) && Enabled(w, ReturnFromRead(read))
    ensures Inv(Apply(w, ReturnFromRead(read)))
  {
    hide Accepted, ParsedAll, Parsed;
    AcceptedNext(w.first, w.readLog, read);
    ParsedNext(w.filter, Accepted(w.first, w.readLog), read);
    assert w.produced + [] == w.produced;
  }

  /** The monitor's append under the mutex. */
  lemma AppendKeeps(w: Watch)
    requires Inv(w) && Enabled(w, Append)
    ensures Inv(Apply(w, Append))
  {
    hide Accepted, ParsedAll, Parsed;
    var batch := w.monitor.batch;
    assert w.delivered + InHand(w.callback) + (w.shared + batch) == w.produced + batch;
    assert w.produced + batch + [] == w.produced + batch;
  }

  /** The callback thread's swap under the mutex. */
  lemma SwapKeeps(w: Watch)
    requires Inv(w) && Enabled(w, Swap)
    ensures Inv(Apply(w, Swap))
  {
    hide Accepted, ParsedAll, Parsed;
    assert w.delivered + w.shared + [] == w.delivered + [] + w.shared;
  }

  /** Handing one event over. */
  lemma HandKeeps(w: Watch)
    requires Inv(w) && Enabled(w, Hand)
    ensures Inv(Apply(w, Hand))
  {
    hide Accepted, ParsedAll, Parsed;
    HeadFirst(w.delivered, w.callback.rest);
  }

  lemma HeadFirst<X>(done: seq<X>, rest: seq<X>)
    requires rest != []
    ensures done + [rest[0]] + rest[1..] == done + rest
  {
    assert done + [rest[0]] + rest[1..] == done + ([rest[0]] + rest[1..]);
    assert [rest[0]] + rest[1..] == rest;
  }

  lemma StepKeeps(w: Watch, step: Step)
    requires Inv(w) && Enabled(w, step)
    ensures Inv(Apply(w, step))
  {
    hide Accepted, ParsedAll, Parsed;
    match step
    case ReturnFromRead(read) => ReadKeeps(w, read);
    case Append => AppendKeeps(w);
    case Swap => SwapKeeps(w);
    case Hand => HandKeeps(w);
    case _ =>
  }

  lemma {:induction false} RunKeeps(w: Watch, steps: seq<Step>, v: Watch)
    requires Inv(w) && Reaches(w, steps, v)
    ensures Inv(v)
    decreases |steps|
  {
    if steps != [] {
      StepKeeps(w, steps[0]);
      RunKeeps(Apply(w, steps[0]), steps[1..], v);
    }
  }

  /** The reads that return in a run, in order. */
  ghost function Reads(steps: seq<Step>): seq<Read> {
    if steps == [] then []
    else (if steps[0].ReturnFromRead? then [steps[0].read] else []) + Reads(steps[1..])
  }

  /** The history is that of the run: the reads logged are exactly those that returned, and the filter and the
      stamp taken at construction stay. */
  lemma {:induction false} HistoryIsRun(w: Watch, steps: seq<Step>, v: Watch)
    requires Reaches(w, steps, v)
    ensures v.readLog == w.readLog + Reads(steps) && v.filter == w.filter && v.first == w.first
    decreases |steps|
  {
    hide Parsed;
    if steps != [] {
      HistoryIsRun(Apply(w, steps[0]), steps[1..], v);
      var first := if steps[0].ReturnFromRead? then [steps[0].read] else [];
      assert Apply(w, steps[0]).readLog == w.readLog + first;
      assert w.readLog + first + Reads(steps[1..]) == w.readLog + (first + Reads(steps[1..]));
    }
  }

  /** In every interleaving, before and after destroy: what the callback got, then the rest of the batch in
      hand, then the shared vector, is exactly what was produced; so delivery is in order, without loss or
      repetition, and always a prefix of what was produced. */
  lemma DeliveryInOrder(w: Watch, steps: seq<Step>, v: Watch)
    requires Init(w) && Reaches(w, steps, v)
    ensures v.delivered + InHand(v.callback) + v.shared == v.produced
    ensures v.delivered <= v.produced <= ParsedAll(w.filter, Accepted(w.last, Reads(steps)))
  {
    hide Accepted, ParsedAll, Parsed;
    InitEstablishes(w);
    RunKeeps(w, steps, v);
    ProducedIsParsed(w, steps, v);
  }

  /** In every interleaving what was produced, with the batch about to be appended, is the concatenation of
      the parses of exactly those reads of the run whose stamp differed from the last accepted one. */
  lemma ProducedIsParsed(w: Watch, steps: seq<Step>, v: Watch)
    requires Init(w) && Reaches(w, steps, v)
    ensures v.produced + Undispatched(v.monitor) == ParsedAll(w.filter, Accepted(w.last, Reads(steps)))
    ensures v.last == LastStamp(w.last, Accepted(w.last, Reads(steps)))
  {
    InitEstablishes(w);
    RunKeeps(w, steps, v);
    HistoryIsRun(w, steps, v);
    assert [] + Reads(steps) == Reads(steps);
  }

  // ---------------------------------------------------------------------------------------------
  // What can always happen next

  lemma {:induction false} RunsConcat(w: Watch, a: seq<Step>, mid: Watch, b: seq<Step>, v: Watch)
    requires Reaches(w, a, mid) && Reaches(mid, b, v)
    ensures Reaches(w, a + b, v)
    decreases |a|
  {
    hide Enabled, Apply;
    if a == [] {
      assert a + b == b;
    } else {
      RunsConcat(Apply(w, a[0]), a[1..], mid, b, v);
      assert (a + b)[0] == a[0] && (a + b)[1..] == a[1..] + b;
    }
  }

  lemma OneStep(w: Watch, step: Step)
    requires Enabled(w, step)
    ensures Reaches(w, [step], Apply(w, step))
  {
    hide Enabled, Apply;
    assert Reaches(Apply(w, step), [step][1..], Apply(w, step));
  }

  /** A monitor at its loop test that is not stopped can read; a read with records and a new stamp then adds exactly
      its parse to the shared vector, and any other read adds nothing. */
  lemma ReadProduces(w: Watch, read: Read) returns (steps: seq<Step>, v: Watch)
    requires w.monitor.AtLoopTest? && !w.destroyed
    ensures Reaches(w, steps, v) && Reads(steps) == [read] && v.monitor.AtLoopTest?
    ensures var added := if read.records != [] && read.stamp != w.last then Parsed(w.filter, read.records) else [];
            v.shared == w.shared + added && v.produced == w.produced + added
  {
    hide Parsed;
    var w1 := Apply(w, TestLoop);
    var w2 := Apply(w1, ReturnFromRead(read));
    OneStep(w, TestLoop);
    OneStep(w1, ReturnFromRead(read));
    RunsConcat(w, [TestLoop], w1, [ReturnFromRead(read)], w2);
    steps, v := [TestLoop] + [ReturnFromRead(read)], w2;
    if w2.monitor.Dispatching? {
      v := Apply(w2, Append);
      OneStep(w2, Append);
      RunsConcat(w, steps, w2, [Append], v);
      steps := steps + [Append];
      assert steps == [TestLoop, ReturnFromRead(read), Append];
    } else {
      assert steps == [TestLoop, ReturnFromRead(read)];
      assert w.shared + [] == w.shared && w.produced + [] == w.produced;
    }
    assert steps[1..][0] == ReturnFromRead(read) && Reads(steps[1..][1..]) == [];
  }

  /** A batch in hand can be handed over to the last event. */
  lemma {:induction false} CanHandOver(w: Watch) returns (steps: seq<Step>, v: Watch)
    requires w.callback.Handing?
    ensures Reaches(w, steps, v) && v == w.(delivered := w.delivered + w.callback.rest, callback := Handing([]))
    decreases |InHand(w.callback)|
  {
    if w.callback.rest == [] {
      assert w.delivered + [] == w.delivered;
      steps, v := [], w;
    } else {
      var w1 := Apply(w, Hand);
      OneStep(w, Hand);
      var more;
      more, v := CanHandOver(w1);
      HeadFirst(w.delivered, w.callback.rest);
      RunsConcat(w, [Hand], w1, more, v);
      steps := [Hand] + more;
    }
  }

  /** Nothing is stuck: from a callback thread about to wait, with events in the shared vector, a run of that thread
      alone delivers everything produced so far. */
  lemma CanDeliver(w: Watch) returns (steps: seq<Step>, v: Watch)
    requires Inv(w) && w.callback.Entering? && w.shared != []
    ensures Reaches(w, steps, v) && v.delivered == v.produced == w.produced && v.shared == []
  {
    hide Accepted, ParsedAll, Parsed;
    var w1 := Apply(w, Swap);
    OneStep(w, Swap);
    var more;
    more, v := CanHandOver(w1);
    RunsConcat(w, [Swap], w1, more, v);
    steps := [Swap] + more;
    assert w.delivered + [] + w.shared == w.delivered + w.shared;
  }
}
