/** The lock-free ring buffer of the shared-memory transport as a step system: any number of producers in
    `push` and any number of listeners in `head`/`pop`, interleaved at every shared-memory access.

    Fields below the "history" comments are read by no guard and by no concrete update: they only name
    what happened.  A successful compare-exchange is one step (the new word is computed from the word it
    replaces); a failed one changes nothing and is left out. */
module RingBuffer {
  import opened RingPointer

  datatype Cell<T> = Cell(ref: nat, data: T)

  datatype Producer<T> =
    | NotPushing
    // the compare-exchange succeeded; `item` still to be copied into the cell
    | Reserved(ptr: nat, item: T, /* history */ entry: nat)
    // the item is in the cell; `ref_counter_` still to be stored
    | Written(ptr: nat, /* history */ entry: nat)

  datatype Phase =
    | Resting
    // `head` has read a write pointer different from its read pointer
    | Loaded
    // `head` has returned the cell
    | Seen
    // `fetch_sub` is done; when it returned 1 the free-cell increment is still due
    | Popped(freeDue: bool)

  datatype Listener<T> = Listener(
    readP: nat, phase: Phase,
    /* history: entries reserved before registration, entries popped, items read */
    start: nat, pos: nat, got: seq<T>)

  datatype State<T> = State(
    total: int, writeP: nat, free: nat, cells: seq<Cell<T>>,
    producers: map<int, Producer<T>>, listeners: map<int, Listener<T>>,
    /* history: items in reservation order, entries popped by every listener */
    log: seq<T>, released: nat)

  datatype Step<T> =
    | Reserve(p: int, item: T)
    | Write(p: int)
    | Publish(p: int)
    | Load(l: int)
    | Check(l: int)
    | Take(l: int)
    | Free(l: int)
    | Advance(l: int)
    | Register(l: int)
    | Unregister(l: int)

  function RefAt<T>(cells: seq<Cell<T>>, i: nat): nat {
    if i < |cells| then cells[i].ref else 0
  }

  function DataAt<T>(cells: seq<Cell<T>>, i: nat): seq<T> {
    if i < |cells| then [cells[i].data] else []
  }

  function SetRef<T>(cells: seq<Cell<T>>, i: nat, ref: nat): seq<Cell<T>> {
    if i < |cells| then cells[i := cells[i].(ref := ref)] else cells
  }

  function SetData<T>(cells: seq<Cell<T>>, i: nat, data: T): seq<Cell<T>> {
    if i < |cells| then cells[i := cells[i].(data := data)] else cells
  }

  /** No producer is between its compare-exchange and its `ref_counter_` store.  Registering and
      unregistering happen under the mutex that every `push` of the port holds, so in such states only. */
  ghost predicate NoPushInFlight<T>(s: State<T>) {
    forall p :: p in s.producers ==> s.producers[p].NotPushing?
  }

  ghost predicate Enabled<T>(s: State<T>, step: Step<T>) {
    match step
    case Reserve(p, _) =>
      p in s.producers && s.producers[p].NotPushing? && s.listeners.Keys != {} && s.free > 0
    case Write(p) => p in s.producers && s.producers[p].Reserved?
    case Publish(p) => p in s.producers && s.producers[p].Written?
    case Load(l) => l in s.listeners && s.listeners[l].phase.Resting? && s.listeners[l].readP != s.writeP
    case Check(l) => l in s.listeners && s.listeners[l].phase.Loaded?
    case Take(l) => l in s.listeners && s.listeners[l].phase.Seen?
    case Free(l) => l in s.listeners && s.listeners[l].phase == Popped(true)
    case Advance(l) => l in s.listeners && s.listeners[l].phase == Popped(false)
    case Register(l) => l !in s.listeners && NoPushInFlight(s)
    case Unregister(l) =>
      && l in s.listeners && s.listeners[l].phase.Resting? && s.listeners[l].readP == s.writeP
      && NoPushInFlight(s)
  }

  ghost function Apply<T>(s: State<T>, step: Step<T>): State<T>
    requires Enabled(s, step) && ValidCells(s.total)
  {
    match step
    case Reserve(p, item) =>
      s.(writeP := IncPointer(s.writeP, s.total), free := s.free - 1,
         producers := s.producers[p := Reserved(s.writeP, item, |s.log|)],
         log := s.log + [item])
    case Write(p) =>
      var ptr := s.producers[p].ptr;
      s.(cells := SetData(s.cells, PointerValue(ptr), s.producers[p].item),
         producers := s.producers[p := Written(ptr, s.producers[p].entry)])
    case Publish(p) =>
      s.(cells := SetRef(s.cells, PointerValue(s.producers[p].ptr), |s.listeners|),
         producers := s.producers[p := NotPushing])
    case Load(l) => SetListener(s, l, s.listeners[l].(phase := Loaded))
    case Check(l) =>
      var seen := RefAt(s.cells, PointerValue(s.listeners[l].readP)) != 0;
      SetListener(s, l, s.listeners[l].(phase := if seen then Seen else Resting))
    case Take(l) =>
      var me := s.listeners[l];
      var cell := PointerValue(me.readP);
      var counter := RefAt(s.cells, cell);
      SetListener(s, l, me.(phase := Popped(counter == 1), pos := me.pos + 1, got := me.got + DataAt(s.cells, cell)))
      .(cells := SetRef(s.cells, cell, if counter > 0 then counter - 1 else 0),
        released := if counter == 1 then s.released + 1 else s.released)
    case Free(l) =>
      SetListener(s, l, s.listeners[l].(phase := Popped(false))).(free := s.free + 1)
    case Advance(l) =>
      var me := s.listeners[l];
      SetListener(s, l, me.(phase := Resting, readP := IncPointer(me.readP, s.total)))
    case Register(l) =>
      SetListener(s, l, Listener(s.writeP, Resting, |s.log|, |s.log|, []))
    case Unregister(l) => s.(listeners := s.listeners - {l})
  }

  ghost function SetListener<T>(s: State<T>, l: int, v: Listener<T>): State<T> {
    s.(listeners := s.listeners[l := v])
  }

  /** A freshly constructed buffer: no listener, no push under way, every counter zero, every cell free. */
  ghost predicate Init<T>(s: State<T>) {
    && ValidCells(s.total) && |s.cells| == s.total && s.free == s.total && s.writeP == 0
    && (forall i :: 0 <= i < |s.cells| ==> s.cells[i].ref == 0)
    && NoPushInFlight(s) && s.listeners == map[]
    && s.log == [] && s.released == 0
  }

  /** Every interleaving: any finite sequence of enabled steps from a fresh buffer. */
  ghost predicate Reaches<T>(s: State<T>, steps: seq<Step<T>>, t: State<T>)
    decreases |steps|
  {
    if steps == [] then s == t
    else ValidCells(s.total) && Enabled(s, steps[0]) && Reaches(Apply(s, steps[0]), steps[1..], t)
  }

  // ---------------------------------------------------------------------------------------------
  // The invariant

  ghost predicate InFlight<T>(producers: map<int, Producer<T>>, p: int) {
    p in producers && !producers[p].NotPushing?
  }

  /** Entry k has been reserved and its counter has been stored. */
  ghost predicate Published<T>(log: seq<T>, producers: map<int, Producer<T>>, k: nat) {
    k < |log| && forall p :: InFlight(producers, p) ==> producers[p].entry != k
  }

  /** The listeners that have not popped entry k. */
  ghost function Waiting<T>(listeners: map<int, Listener<T>>, k: nat): set<int> {
    set l | l in listeners && listeners[l].pos <= k
  }

  /** The listeners that owe a free-cell increment. */
  ghost function Freeing<T>(listeners: map<int, Listener<T>>): set<int> {
    set l | l in listeners && listeners[l].phase == Popped(true)
  }

  ghost predicate Counters<T>(s: State<T>) {
    && ValidCells(s.total) && |s.cells| == s.total
    && s.writeP == Encode(|s.log|, s.total)
    && s.released <= |s.log|
    && s.free + (|s.log| - s.released) + |Freeing(s.listeners)| == s.total
  }

  /** The cell of entry k counts exactly the listeners still to pop it, and holds its item; the cell of an
      entry that is not published yet counts nobody. */
  ghost predicate CellOk<T>(s: State<T>, k: nat)
    requires ValidCells(s.total) && |s.cells| == s.total
  {
    && s.cells[Slot(k, s.total)].ref == (if Published(s.log, s.producers, k) then |Waiting(s.listeners, k)| else 0)
    && (Published(s.log, s.producers, k) ==> s.cells[Slot(k, s.total)].data == s.log[k])
  }

  ghost predicate CellsOk<T>(s: State<T>)
    requires ValidCells(s.total) && |s.cells| == s.total
  {
    forall k :: s.released <= k < s.released + s.total ==> CellOk(s, k)
  }

  ghost predicate ListenerOk<T>(s: State<T>, l: int)
    requires l in s.listeners && ValidCells(s.total)
  {
    var me := s.listeners[l];
    && me.start <= me.pos <= |s.log|
    && s.released <= me.pos
    && me.got == s.log[me.start..me.pos]
    && (me.phase.Popped? ==> me.start < me.pos && me.readP == Encode(me.pos - 1, s.total))
    && (!me.phase.Popped? ==> me.readP == Encode(me.pos, s.total))
    && (me.phase.Loaded? ==> me.pos < |s.log|)
    && (me.phase.Seen? ==> Published(s.log, s.producers, me.pos))
  }

  ghost predicate ProducerOk<T>(s: State<T>, p: int)
    requires InFlight(s.producers, p) && ValidCells(s.total) && |s.cells| == s.total
  {
    var me := s.producers[p];
    && s.released <= me.entry < |s.log|
    && me.ptr == Encode(me.entry, s.total)
    && (forall l :: l in s.listeners ==> s.listeners[l].pos <= me.entry)
    && (me.Reserved? ==> me.item == s.log[me.entry])
    && (me.Written? ==> s.cells[Slot(me.entry, s.total)].data == s.log[me.entry])
    && (forall q :: InFlight(s.producers, q) && q != p ==> s.producers[q].entry != me.entry)
  }

  /** `released` is the number of entries popped by the slowest listener. */
  ghost predicate ReleasedOk<T>(s: State<T>) {
    if s.listeners.Keys == {} then s.released == |s.log|
    else exists l :: l in s.listeners && s.listeners[l].pos == s.released
  }

  ghost predicate Inv<T>(s: State<T>) {
    && Counters(s)
    && CellsOk(s)
    && (forall l :: l in s.listeners ==> ListenerOk(s, l))
    && (forall p :: InFlight(s.producers, p) ==> ProducerOk(s, p))
    && ReleasedOk(s)
  }

  lemma InitEstablishes<T>(s: State<T>)
    requires Init(s)
    ensures Inv(s)
  {
    assert Freeing(s.listeners) == {};
    forall k | s.released <= k < s.released + s.total ensures CellOk(s, k) { }
  }

  // ---------------------------------------------------------------------------------------------
  // Producer steps

  lemma ReservePublishesNothing<T>(log: seq<T>, producers: map<int, Producer<T>>, p: int, item: T, ptr: nat, k: nat)
    requires p in producers && producers[p].NotPushing?
    ensures Published(log + [item], producers[p := Reserved(ptr, item, |log|)], k) == Published(log, producers, k)
  {
    var after := producers[p := Reserved(ptr, item, |log|)];
    assert InFlight(after, p) && after[p].entry == |log|;
    assert forall q :: q != p ==> (InFlight(after, q) <==> InFlight(producers, q));
    assert !InFlight(producers, p);
  }

  lemma ReserveKeeps<T>(s: State<T>, p: int, item: T)
    requires Inv(s) && Enabled(s, Reserve(p, item))
    ensures Inv(Apply(s, Reserve(p, item)))
  {
    hide Encode, Slot, PointerValue, IncPointer;
    var t := Apply(s, Reserve(p, item));
    var w := |s.log|;
    IncPointerEncodes(w, s.total);
    assert Freeing(t.listeners) == Freeing(s.listeners);
    forall k: nat ensures Published(t.log, t.producers, k) == Published(s.log, s.producers, k) {
      ReservePublishesNothing(s.log, s.producers, p, item, s.writeP, k);
    }
    forall k | t.released <= k < t.released + t.total ensures CellOk(t, k) {
      assert CellOk(s, k);
      assert Waiting(t.listeners, k) == Waiting(s.listeners, k);
    }
    forall l | l in t.listeners ensures ListenerOk(t, l) { assert ListenerOk(s, l); }
    forall q | InFlight(t.producers, q) ensures ProducerOk(t, q) {
      if q != p { assert ProducerOk(s, q); }
      forall r | InFlight(t.producers, r) && r != q ensures t.producers[r].entry != t.producers[q].entry {
        if q != p { assert ProducerOk(s, q); }
        if r != p { assert ProducerOk(s, r); }
      }
      forall l | l in t.listeners ensures t.listeners[l].pos <= t.producers[q].entry { assert ListenerOk(s, l); }
    }
  }

  lemma WriteKeepsCell<T>(s: State<T>, p: int, k: nat)
    requires Inv(s) && Enabled(s, Write(p)) && s.released <= k < s.released + s.total
    ensures CellOk(Apply(s, Write(p)), k)
  {
    hide Encode, Slot, PointerValue, IncPointer;
    assert InFlight(s.producers, p) && ProducerOk(s, p);
    var e := s.producers[p].entry;
    EncodeParts(e, s.total);
    RewritePublishesNothing(s.log, s.producers, p, k);
    assert CellOk(s, k);
    if Slot(k, s.total) == Slot(e, s.total) { OneEntryPerCell(s, k, e); }
  }

  lemma RewritePublishesNothing<T>(log: seq<T>, producers: map<int, Producer<T>>, p: int, k: nat)
    requires p in producers && producers[p].Reserved?
    ensures Published(log, producers[p := Written(producers[p].ptr, producers[p].entry)], k) ==
            Published(log, producers, k)
  {
    var after := producers[p := Written(producers[p].ptr, producers[p].entry)];
    assert forall q :: InFlight(after, q) <==> InFlight(producers, q);
  }

  lemma WriteKeepsProducer<T>(s: State<T>, p: int, q: int)
    requires Inv(s) && Enabled(s, Write(p)) && InFlight(s.producers, q)
    ensures ProducerOk(Apply(s, Write(p)), q)
  {
    hide Encode, Slot, PointerValue, IncPointer;
    assert InFlight(s.producers, p) && ProducerOk(s, p) && ProducerOk(s, q);
    var e := s.producers[p].entry;
    EncodeParts(e, s.total);
    var f := s.producers[q].entry;
    if q != p && Slot(f, s.total) == Slot(e, s.total) { OneEntryPerCell(s, f, e); }
    assert forall r :: InFlight(Apply(s, Write(p)).producers, r) ==> InFlight(s.producers, r);
  }

  lemma WriteKeeps<T>(s: State<T>, p: int)
    requires Inv(s) && Enabled(s, Write(p))
    ensures Inv(Apply(s, Write(p)))
  {
    hide Encode, Slot, PointerValue, IncPointer;
    var t := Apply(s, Write(p));
    forall k | t.released <= k < t.released + t.total ensures CellOk(t, k) { WriteKeepsCell(s, p, k); }
    forall l | l in t.listeners ensures ListenerOk(t, l) {
      assert ListenerOk(s, l);
      RewritePublishesNothing(s.log, s.producers, p, s.listeners[l].pos);
    }
    forall q | InFlight(t.producers, q) ensures ProducerOk(t, q) {
      assert InFlight(s.producers, q);
      WriteKeepsProducer(s, p, q);
    }
  }

  /** The `ref_counter_` store publishes the producer's own entry and no other. */
  lemma StorePublishes<T>(log: seq<T>, producers: map<int, Producer<T>>, p: int, k: nat)
    requires InFlight(producers, p) && producers[p].entry < |log|
    requires forall q :: InFlight(producers, q) && q != p ==> producers[q].entry != producers[p].entry
    ensures Published(log, producers[p := NotPushing], k) <==> Published(log, producers, k) || k == producers[p].entry
  {
    var after := producers[p := NotPushing];
    assert forall q :: InFlight(after, q) <==> InFlight(producers, q) && q != p;
    if k < |log| && !Published(log, producers, k) && k != producers[p].entry {
      var q :| InFlight(producers, q) && producers[q].entry == k;
      assert InFlight(after, q) && after[q].entry == k;
    }
  }

  /** Nobody can have popped an entry that is not published yet. */
  lemma AllWaiting<T>(s: State<T>, p: int)
    requires Counters(s) && InFlight(s.producers, p) && ProducerOk(s, p)
    ensures Waiting(s.listeners, s.producers[p].entry) == s.listeners.Keys
    ensures |Waiting(s.listeners, s.producers[p].entry)| == |s.listeners|
  {
    forall l ensures l in Waiting(s.listeners, s.producers[p].entry) <==> l in s.listeners.Keys { }
  }

  lemma PublishKeepsCell<T>(s: State<T>, p: int, k: nat)
    requires Inv(s) && Enabled(s, Publish(p)) && s.released <= k < s.released + s.total
    ensures CellOk(Apply(s, Publish(p)), k)
  {
    hide Encode, Slot, PointerValue, IncPointer;
    var t := Apply(s, Publish(p));
    var e := s.producers[p].entry;
    assert InFlight(s.producers, p) && ProducerOk(s, p);
    EncodeParts(e, s.total);
    StorePublishes(s.log, s.producers, p, k);
    assert CellOk(s, k);
    assert Waiting(t.listeners, k) == Waiting(s.listeners, k);
    if k == e {
      AllWaiting(s, p);
    } else if Slot(k, s.total) == Slot(e, s.total) {
      OneEntryPerCell(s, k, e);
    }
  }

  lemma PublishKeeps<T>(s: State<T>, p: int)
    requires Inv(s) && Enabled(s, Publish(p))
    ensures Inv(Apply(s, Publish(p)))
  {
    hide Encode, Slot, PointerValue, IncPointer;
    var t := Apply(s, Publish(p));
    assert InFlight(s.producers, p) && ProducerOk(s, p);
    EncodeParts(s.producers[p].entry, s.total);
    assert Freeing(t.listeners) == Freeing(s.listeners);
    forall k | t.released <= k < t.released + t.total ensures CellOk(t, k) { PublishKeepsCell(s, p, k); }
    forall l | l in t.listeners ensures ListenerOk(t, l) {
      assert ListenerOk(s, l);
      StorePublishes(s.log, s.producers, p, s.listeners[l].pos);
    }
    assert forall q :: InFlight(t.producers, q) <==> InFlight(s.producers, q) && q != p;
    forall q | InFlight(t.producers, q) ensures ProducerOk(t, q) { assert ProducerOk(s, q); }
  }

  /** Inside the window of entries that may be held, a cell belongs to one entry only. */
  lemma OneEntryPerCell<T>(s: State<T>, i: nat, j: int)
    requires Counters(s)
    requires s.released <= i < s.released + s.total && s.released <= j < s.released + s.total
    requires Slot(i, s.total) == Slot(j, s.total)
    ensures i == j
  {
    if i <= j { SlotApart(i, j - i, s.total); } else { SlotApart(j, i - j, s.total); }
  }

  // ---------------------------------------------------------------------------------------------
  // Listener steps

  /** Steps that move only one listener's phase or read pointer keep everything said about cells and producers. */
  lemma PhaseStepKeeps<T>(s: State<T>, l: int, me: Listener<T>, free: nat)
    requires Inv(s) && l in s.listeners && me.pos == s.listeners[l].pos
    requires var t := SetListener(s, l, me).(free := free);
             ListenerOk(t, l) && Counters(t)
    ensures Inv(SetListener(s, l, me).(free := free))
  {
    var t := SetListener(s, l, me).(free := free);
    forall k | t.released <= k < t.released + t.total ensures CellOk(t, k) {
      assert CellOk(s, k);
      assert Waiting(t.listeners, k) == Waiting(s.listeners, k);
    }
    forall j | j in t.listeners ensures ListenerOk(t, j) { if j != l { assert ListenerOk(s, j); } }
    forall q | InFlight(t.producers, q) ensures ProducerOk(t, q) { assert ProducerOk(s, q); }
    var w :| w in s.listeners && s.listeners[w].pos == s.released;
    assert w in t.listeners && t.listeners[w].pos == t.released;
  }

  lemma LoadKeeps<T>(s: State<T>, l: int)
    requires Inv(s) && Enabled(s, Load(l))
    ensures Inv(Apply(s, Load(l)))
  {
    hide Encode, Slot, PointerValue, IncPointer;
    var t := Apply(s, Load(l));
    assert ListenerOk(s, l);
    EncodeInjective(s.listeners[l].pos, |s.log|, s.total);
    assert Freeing(t.listeners) == Freeing(s.listeners);
    PhaseStepKeeps(s, l, s.listeners[l].(phase := Loaded), s.free);
    assert t == SetListener(s, l, s.listeners[l].(phase := Loaded)).(free := s.free);
  }

  lemma CheckKeeps<T>(s: State<T>, l: int)
    requires Inv(s) && Enabled(s, Check(l))
    ensures Inv(Apply(s, Check(l)))
  {
    hide Encode, Slot, PointerValue, IncPointer;
    var t := Apply(s, Check(l));
    var me := s.listeners[l];
    assert ListenerOk(s, l);
    EncodeParts(me.pos, s.total);
    assert CellOk(s, me.pos);
    assert Freeing(t.listeners) == Freeing(s.listeners);
    PhaseStepKeeps(s, l, t.listeners[l], s.free);
    assert t == SetListener(s, l, t.listeners[l]).(free := s.free);
  }

  lemma FreeKeeps<T>(s: State<T>, l: int)
    requires Inv(s) && Enabled(s, Free(l))
    ensures Inv(Apply(s, Free(l)))
  {
    hide Encode, Slot, PointerValue, IncPointer;
    var t := Apply(s, Free(l));
    assert ListenerOk(s, l);
    assert Freeing(t.listeners) == Freeing(s.listeners) - {l};
    PhaseStepKeeps(s, l, t.listeners[l], s.free + 1);
    assert t == SetListener(s, l, t.listeners[l]).(free := s.free + 1);
  }

  lemma AdvanceKeeps<T>(s: State<T>, l: int)
    requires Inv(s) && Enabled(s, Advance(l))
    ensures Inv(Apply(s, Advance(l)))
  {
    hide Encode, Slot, PointerValue, IncPointer;
    var t := Apply(s, Advance(l));
    assert ListenerOk(s, l);
    IncPointerEncodes(s.listeners[l].pos - 1, s.total);
    assert Freeing(t.listeners) == Freeing(s.listeners);
    PhaseStepKeeps(s, l, t.listeners[l], s.free);
    assert t == SetListener(s, l, t.listeners[l]).(free := s.free);
  }

  lemma SomeMember<X>(xs: set<X>) returns (x: X)
    requires |xs| > 0
    ensures x in xs
  {
    x :| x in xs;
  }

  /** At `fetch_sub` the counter is the number of listeners yet to pop the entry, the popping one among
      them, and it is 1 exactly when this listener alone holds the oldest entry. */
  lemma TakeCounter<T>(s: State<T>, l: int)
    requires Inv(s) && Enabled(s, Take(l))
    ensures var me := s.listeners[l]; var counter := RefAt(s.cells, PointerValue(me.readP));
            && PointerValue(me.readP) == Slot(me.pos, s.total)
            && Published(s.log, s.producers, me.pos) && s.released <= me.pos < s.released + s.total
            && l in Waiting(s.listeners, me.pos) && counter == |Waiting(s.listeners, me.pos)| > 0
            && DataAt(s.cells, PointerValue(me.readP)) == [s.log[me.pos]]
            && (counter == 1 ==> Waiting(s.listeners, me.pos) == {l} && me.pos == s.released)
            && (counter > 1 ==> exists o :: o in Waiting(s.listeners, me.pos) && o != l)
  {
    hide Encode, Slot, PointerValue, IncPointer;
    var me := s.listeners[l];
    assert ListenerOk(s, l);
    EncodeParts(me.pos, s.total);
    assert CellOk(s, me.pos);
    var waiting := Waiting(s.listeners, me.pos);
    assert l in waiting;
    var rest := waiting - {l};
    assert |waiting| == |rest| + 1;
    if |waiting| == 1 {
      assert rest == {};
      var w :| w in s.listeners && s.listeners[w].pos == s.released;
      assert w in waiting;
    } else {
      var o := SomeMember(rest);
    }
  }

  lemma WaitingAfterPop<T>(listeners: map<int, Listener<T>>, l: int, after: Listener<T>, k: nat)
    requires l in listeners && after.pos == listeners[l].pos + 1
    ensures Waiting(listeners[l := after], k) ==
            if k == listeners[l].pos then Waiting(listeners, k) - {l} else Waiting(listeners, k)
  {
    forall x ensures x in Waiting(listeners[l := after], k) <==>
                     x in Waiting(listeners, k) && !(x == l && k == listeners[l].pos) { }
  }

  lemma TakeKeepsCell<T>(s: State<T>, l: int, k: nat)
    requires Inv(s) && Enabled(s, Take(l)) && s.released <= k < s.released + s.total
    ensures CellOk(Apply(s, Take(l)), k)
  {
    hide Encode, Slot, PointerValue, IncPointer;
    var t := Apply(s, Take(l));
    var e := s.listeners[l].pos;
    TakeCounter(s, l);
    assert CellOk(s, k);
    WaitingAfterPop(s.listeners, l, t.listeners[l], k);
    if k != e && Slot(k, s.total) == Slot(e, s.total) { OneEntryPerCell(s, k, e); }
  }

  /** When the oldest entry is released, its cell is free for the entry one lap later. */
  lemma TakeFreesCell<T>(s: State<T>, l: int)
    requires Inv(s) && Enabled(s, Take(l)) && Apply(s, Take(l)).released == s.released + 1
    ensures CellOk(Apply(s, Take(l)), s.released + s.total)
  {
    TakeCounter(s, l);
    SlotApart(s.released, s.total, s.total);
  }

  lemma TakeKeepsListener<T>(s: State<T>, l: int, j: int)
    requires Inv(s) && Enabled(s, Take(l)) && j in s.listeners
    ensures ListenerOk(Apply(s, Take(l)), j)
  {
    hide Encode, Slot, PointerValue, IncPointer;
    var t := Apply(s, Take(l));
    TakeCounter(s, l);
    assert ListenerOk(s, j);
    if j != l {
      assert t.released <= s.listeners[j].pos by {
        if s.listeners[j].pos <= s.listeners[l].pos { assert j in Waiting(s.listeners, s.listeners[l].pos); }
      }
    }
  }

  lemma TakeKeepsProducer<T>(s: State<T>, l: int, q: int)
    requires Inv(s) && Enabled(s, Take(l)) && InFlight(s.producers, q)
    ensures InFlight(Apply(s, Take(l)).producers, q) && ProducerOk(Apply(s, Take(l)), q)
  {
    hide Encode, Slot, PointerValue, IncPointer;
    var t := Apply(s, Take(l));
    TakeCounter(s, l);
    assert ProducerOk(s, q);
    assert s.producers[q].entry != s.listeners[l].pos;
    assert forall r :: InFlight(t.producers, r) ==> InFlight(s.producers, r);
    assert forall i :: 0 <= i < |s.cells| ==> t.cells[i].data == s.cells[i].data;
  }

  lemma TakeKeepsReleased<T>(s: State<T>, l: int)
    requires Inv(s) && Enabled(s, Take(l))
    ensures ReleasedOk(Apply(s, Take(l)))
  {
    hide Encode, Slot, PointerValue, IncPointer;
    var t := Apply(s, Take(l));
    TakeCounter(s, l);
    if t.released == s.released + 1 {
      assert l in t.listeners && t.listeners[l].pos == t.released;
    } else {
      var w :| w in s.listeners && s.listeners[w].pos == s.released;
      var o :| o in Waiting(s.listeners, s.listeners[l].pos) && o != l;
      assert ListenerOk(s, o);
      var v := if w != l then w else o;
      assert v in t.listeners && t.listeners[v].pos == t.released;
    }
  }

  lemma TakeKeepsCounters<T>(s: State<T>, l: int)
    requires Inv(s) && Enabled(s, Take(l))
    ensures Counters(Apply(s, Take(l)))
  {
    hide Encode, Slot, PointerValue, IncPointer;
    var t := Apply(s, Take(l));
    TakeCounter(s, l);
    if t.released == s.released + 1 {
      assert Freeing(t.listeners) == Freeing(s.listeners) + {l};
    } else {
      assert Freeing(t.listeners) == Freeing(s.listeners);
    }
  }

  lemma TakeKeeps<T>(s: State<T>, l: int)
    requires Inv(s) && Enabled(s, Take(l))
    ensures Inv(Apply(s, Take(l)))
  {
    hide Encode, Slot, PointerValue, IncPointer;
    var t := Apply(s, Take(l));
    TakeKeepsCounters(s, l);
    TakeKeepsReleased(s, l);
    forall k | t.released <= k < t.released + t.total ensures CellOk(t, k) {
      if k < s.released + s.total { TakeKeepsCell(s, l, k); } else { TakeFreesCell(s, l); }
    }
    forall j | j in t.listeners ensures ListenerOk(t, j) { TakeKeepsListener(s, l, j); }
    forall q | InFlight(t.producers, q) ensures ProducerOk(t, q) {
      assert InFlight(s.producers, q);
      TakeKeepsProducer(s, l, q);
    }
  }

  // ---------------------------------------------------------------------------------------------
  // Registration

  /** Without a push under way, every reserved entry is published. */
  lemma QuietPublished<T>(s: State<T>, k: nat)
    requires NoPushInFlight(s)
    ensures Published(s.log, s.producers, k) <==> k < |s.log|
  {
    assert forall q :: !InFlight(s.producers, q);
  }

  lemma RegisterKeeps<T>(s: State<T>, l: int)
    requires Inv(s) && Enabled(s, Register(l))
    ensures Inv(Apply(s, Register(l)))
  {
    hide Encode, Slot, PointerValue, IncPointer;
    var t := Apply(s, Register(l));
    assert forall q :: !InFlight(t.producers, q);
    assert Freeing(t.listeners) == Freeing(s.listeners);
    forall k | t.released <= k < t.released + t.total ensures CellOk(t, k) {
      QuietPublished(s, k);
      assert CellOk(s, k);
      if k < |s.log| { assert Waiting(t.listeners, k) == Waiting(s.listeners, k); }
    }
    forall j | j in t.listeners ensures ListenerOk(t, j) {
      if j != l { assert ListenerOk(s, j); }
    }
    if s.listeners.Keys == {} {
      assert l in t.listeners && t.listeners[l].pos == t.released;
    } else {
      var w :| w in s.listeners && s.listeners[w].pos == s.released;
      assert w in t.listeners && t.listeners[w].pos == t.released;
    }
  }

  lemma UnregisterKeeps<T>(s: State<T>, l: int)
    requires Inv(s) && Enabled(s, Unregister(l))
    ensures Inv(Apply(s, Unregister(l)))
  {
    hide Encode, Slot, PointerValue, IncPointer;
    var t := Apply(s, Unregister(l));
    assert ListenerOk(s, l);
    EncodeInjective(s.listeners[l].pos, |s.log|, s.total);
    assert forall q :: !InFlight(t.producers, q);
    assert Freeing(t.listeners) == Freeing(s.listeners);
    forall k | t.released <= k < t.released + t.total ensures CellOk(t, k) { UnregisterKeepsCell(s, l, k); }
    forall j | j in t.listeners ensures ListenerOk(t, j) { assert ListenerOk(s, j); }
    UnregisterKeepsReleased(s, l);
  }

  lemma UnregisterKeepsCell<T>(s: State<T>, l: int, k: nat)
    requires Inv(s) && NoPushInFlight(s) && l in s.listeners && s.listeners[l].pos == |s.log|
    requires s.released <= k < s.released + s.total
    ensures CellOk(s.(listeners := s.listeners - {l}), k)
  {
    hide Encode, Slot, PointerValue, IncPointer;
    QuietPublished(s, k);
    assert CellOk(s, k);
    if k < |s.log| {
      forall j ensures j in Waiting(s.listeners - {l}, k) <==> j in Waiting(s.listeners, k) { }
      assert Waiting(s.listeners - {l}, k) == Waiting(s.listeners, k);
    }
  }

  lemma UnregisterKeepsReleased<T>(s: State<T>, l: int)
    requires Inv(s) && l in s.listeners && s.listeners[l].pos == |s.log|
    ensures ReleasedOk(s.(listeners := s.listeners - {l}))
  {
    hide Encode, Slot, PointerValue, IncPointer;
    var rest := s.listeners - {l};
    var w :| w in s.listeners && s.listeners[w].pos == s.released;
    if w in rest {
      assert rest[w].pos == s.released;
    } else if |rest.Keys| > 0 {
      var o := SomeMember(rest.Keys);
      assert ListenerOk(s, o);
      assert o in rest && rest[o].pos == s.released;
    }
  }

  lemma StepKeeps<T>(s: State<T>, step: Step<T>)
    requires Inv(s) && Enabled(s, step)
    ensures Inv(Apply(s, step))
  {
    match step
    case Reserve(p, item) => ReserveKeeps(s, p, item);
    case Write(p) => WriteKeeps(s, p);
    case Publish(p) => PublishKeeps(s, p);
    case Load(l) => LoadKeeps(s, l);
    case Check(l) => CheckKeeps(s, l);
    case Take(l) => TakeKeeps(s, l);
    case Free(l) => FreeKeeps(s, l);
    case Advance(l) => AdvanceKeeps(s, l);
    case Register(l) => RegisterKeeps(s, l);
    case Unregister(l) => UnregisterKeeps(s, l);
  }

  lemma {:induction false} RunKeeps<T>(s: State<T>, steps: seq<Step<T>>, t: State<T>)
    requires Inv(s) && Reaches(s, steps, t)
    ensures Inv(t)
    decreases |steps|
  {
    if steps != [] {
      StepKeeps(s, steps[0]);
      RunKeeps(Apply(s, steps[0]), steps[1..], t);
    }
  }

  // ---------------------------------------------------------------------------------------------
  // What every interleaving guarantees

  /** The items given to push in a run, in the order of the successful compare-exchanges. */
  ghost function Pushed<T>(steps: seq<Step<T>>): seq<T> {
    if steps == [] then []
    else (if steps[0].Reserve? then [steps[0].item] else []) + Pushed(steps[1..])
  }

  /** The history is that of the run: the log grows by exactly the items pushed. */
  lemma {:induction false} LogIsPushed<T>(s: State<T>, steps: seq<Step<T>>, t: State<T>)
    requires Reaches(s, steps, t)
    ensures t.log == s.log + Pushed(steps)
    decreases |steps|
  {
    hide Apply, Enabled;
    if steps != [] {
      LogIsPushed(Apply(s, steps[0]), steps[1..], t);
      LogStep(s, steps[0]);
      var first := if steps[0].Reserve? then [steps[0].item] else [];
      assert s.log + first + Pushed(steps[1..]) == s.log + (first + Pushed(steps[1..]));
    }
  }

  lemma LogStep<T>(s: State<T>, step: Step<T>)
    requires Enabled(s, step) && ValidCells(s.total)
    ensures Apply(s, step).log == s.log + if step.Reserve? then [step.item] else []
  {
    assert s.log + [] == s.log;
  }

  /** The position in a run right behind the last registration of a listener, or 0. */
  ghost function LastRegister<T>(steps: seq<Step<T>>, l: int): (i: nat)
    ensures i <= |steps| && Register(l) !in steps[i..] && (i > 0 ==> steps[i - 1] == Register(l))
  {
    if steps == [] then 0
    else if steps[|steps| - 1] == Register(l) then |steps|
    else
      var i := LastRegister(steps[..|steps| - 1], l);
      assert steps[i..] == steps[..|steps| - 1][i..] + [steps[|steps| - 1]];
      i
  }

  lemma {:induction false} SplitRun<T>(s: State<T>, steps: seq<Step<T>>, k: nat, t: State<T>) returns (mid: State<T>)
    requires Reaches(s, steps, t) && k <= |steps|
    ensures Reaches(s, steps[..k], mid) && Reaches(mid, steps[k..], t)
    decreases k
  {
    if k == 0 {
      mid := s;
      assert steps[0..] == steps;
    } else {
      mid := SplitRun(Apply(s, steps[0]), steps[1..], k - 1, t);
      assert steps[..k][1..] == steps[1..][..k - 1] && steps[k..] == steps[1..][k - 1..];
    }
  }

  /** Without being registered a listener neither appears nor changes where it started. */
  lemma {:induction false} StartKept<T>(s: State<T>, steps: seq<Step<T>>, t: State<T>, l: int)
    requires Reaches(s, steps, t) && Register(l) !in steps && l in t.listeners
    ensures l in s.listeners && s.listeners[l].start == t.listeners[l].start
    decreases |steps|
  {
    if steps != [] {
      assert steps[0] in steps;
      StartKept(Apply(s, steps[0]), steps[1..], t, l);
    }
  }

  /** Where a listener started is the length of the log at its last registration. */
  lemma SinceRegistered<T>(s: State<T>, steps: seq<Step<T>>, t: State<T>, l: int)
    requires Init(s) && Reaches(s, steps, t) && l in t.listeners
    ensures var i := LastRegister(steps, l);
            i > 0 && t.listeners[l].start <= |t.log| && t.log[t.listeners[l].start..] == Pushed(steps[i..])
  {
    hide Init;
    NoListeners(s);
    var i := LastRegister(steps, l);
    if i == 0 {
      assert steps[0..] == steps;
      StartKept(s, steps, t, l);
    } else {
      var mid := SplitRun(s, steps, i - 1, t);
      var rest := steps[i - 1..];
      assert rest[0] == Register(l) && rest[1..] == steps[i..];
      var after := Apply(mid, rest[0]);
      StartKept(after, steps[i..], t, l);
      LogIsPushed(after, steps[i..], t);
    }
  }

  lemma NoListeners<T>(s: State<T>)
    requires Init(s)
    ensures s.listeners == map[]
  {
  }

  /** In-order, exactly-once delivery: whatever the interleaving, the items a listener has read are the first of
      those pushed since it registered, in reservation order, none lost, repeated or overwritten; and they are all
      of those when it finds its read pointer at the write pointer. */
  lemma DeliveryInOrder<T>(s: State<T>, steps: seq<Step<T>>, t: State<T>, l: int)
    requires Init(s) && Reaches(s, steps, t) && l in t.listeners
    ensures var me := t.listeners[l]; me.start <= me.pos <= |t.log| && me.got == t.log[me.start..me.pos]
    ensures var me, i := t.listeners[l], LastRegister(steps, l);
            && i > 0 && me.got <= Pushed(steps[i..])
            && (me.phase.Resting? ==> (me.readP == t.writeP <==> me.got == Pushed(steps[i..])))
  {
    hide Encode, Slot, PointerValue, IncPointer;
    InitEstablishes(s);
    RunKeeps(s, steps, t);
    SinceRegistered(s, steps, t, l);
    assert ListenerOk(t, l);
    EncodeInjective(t.listeners[l].pos, |t.log|, t.total);
  }

  /** The order of the log is never revised. */
  /** A listener at rest goes into a pop exactly when it is behind, and past the counter test exactly when its entry is
      published. */
  lemma PopGoesOn<T>(s: State<T>, l: int)
    requires Inv(s) && l in s.listeners
    ensures s.listeners[l].phase.Resting? ==> (Enabled(s, Load(l)) <==> s.listeners[l].pos < |s.log|)
    ensures s.listeners[l].phase.Loaded? ==>
              (Apply(s, Check(l)).listeners[l].phase.Seen? <==> Published(s.log, s.producers, s.listeners[l].pos))
  {
    hide Encode, Slot, IncPointer;
    var pos := s.listeners[l].pos;
    assert ListenerOk(s, l);
    EncodeParts(pos, s.total);
    EncodeInjective(pos, |s.log|, s.total);
    if s.listeners[l].phase.Loaded? {
      assert CellOk(s, pos);
      if Published(s.log, s.producers, pos) { assert l in Waiting(s.listeners, pos); }
    }
  }

  /** A pop can always complete: a listener at rest whose next entry is published reads exactly its item. */
  lemma PopDelivers<T>(s: State<T>, l: int) returns (t: State<T>)
    requires Inv(s) && l in s.listeners && s.listeners[l].phase.Resting?
    requires Published(s.log, s.producers, s.listeners[l].pos)
    ensures exists free: seq<Step<T>> :: Reaches(s, [Load(l), Check(l), Take(l)] + free + [Advance(l)], t)
    ensures l in t.listeners && t.listeners[l].phase.Resting?
    ensures t.listeners[l].got == s.listeners[l].got + [s.log[s.listeners[l].pos]]
  {
    hide Enabled, Apply, Inv, Published;
    var s1, s2 := PopSees(s, l);
    var s3, s4, free := PopTakes(s2, l);
    t := Apply(s4, Advance(l));
    PopRuns(s, s1, s2, s3, s4, t, l, free);
  }

  /** The first half of a pop. */
  lemma PopSees<T>(s: State<T>, l: int) returns (s1: State<T>, s2: State<T>)
    requires Inv(s) && l in s.listeners && s.listeners[l].phase.Resting?
    requires Published(s.log, s.producers, s.listeners[l].pos)
    ensures s.listeners[l].pos < |s.log| && ValidCells(s.total) && s1.total == s2.total == s.total
    ensures Enabled(s, Load(l)) && s1 == Apply(s, Load(l)) && Enabled(s1, Check(l)) && s2 == Apply(s1, Check(l))
    ensures Inv(s2) && s2.log == s.log && l in s2.listeners && s2.listeners[l] == s.listeners[l].(phase := Seen)
  {
    hide Encode, Slot, PointerValue, IncPointer;
    PopGoesOn(s, l);
    s1 := Apply(s, Load(l));
    LoadKeeps(s, l);
    PopGoesOn(s1, l);
    s2 := Apply(s1, Check(l));
    CheckKeeps(s1, l);
  }

  /** The second half. */
  lemma PopTakes<T>(s2: State<T>, l: int) returns (s3: State<T>, s4: State<T>, free: seq<Step<T>>)
    requires Inv(s2) && l in s2.listeners && s2.listeners[l].phase.Seen? && s2.listeners[l].pos < |s2.log|
    ensures s3.total == s4.total == s2.total && ValidCells(s2.total) && Enabled(s2, Take(l)) && s3 == Apply(s2, Take(l))
    ensures if free == [] then s4 == s3 else free == [Free(l)] && Enabled(s3, Free(l)) && s4 == Apply(s3, Free(l))
    ensures Enabled(s4, Advance(l))
    ensures var t := Apply(s4, Advance(l));
            && l in t.listeners && t.listeners[l].phase.Resting?
            && t.listeners[l].got == s2.listeners[l].got + [s2.log[s2.listeners[l].pos]]
  {
    hide Encode, Slot, PointerValue, IncPointer;
    TakeCounter(s2, l);
    s3 := Apply(s2, Take(l));
    if s3.listeners[l].phase.freeDue {
      s4, free := Apply(s3, Free(l)), [Free(l)];
    } else {
      s4, free := s3, [];
    }
  }

  lemma PopRuns<T>(s: State<T>, s1: State<T>, s2: State<T>, s3: State<T>, s4: State<T>, t: State<T>, l: int,
                   free: seq<Step<T>>)
    requires ValidCells(s.total)
    requires Enabled(s, Load(l)) && s1 == Apply(s, Load(l)) && s1.total == s.total
    requires Enabled(s1, Check(l)) && s2 == Apply(s1, Check(l)) && s2.total == s.total
    requires Enabled(s2, Take(l)) && s3 == Apply(s2, Take(l)) && s3.total == s.total
    requires if free == [] then s4 == s3 else free == [Free(l)] && Enabled(s3, Free(l)) && s4 == Apply(s3, Free(l))
    requires Enabled(s4, Advance(l)) && t == Apply(s4, Advance(l)) && s4.total == s.total
    ensures Reaches(s, [Load(l), Check(l), Take(l)] + free + [Advance(l)], t)
  {
    hide Enabled, Apply;
    var tail := free + [Advance(l)];
    assert Reaches(t, [], t);
    OneMoreStep(s4, Advance(l), [], t);
    if free == [] { assert tail == [Advance(l)] + []; } else { OneMoreStep(s3, Free(l), [Advance(l)] + [], t); }
    assert tail == if free == [] then [Advance(l)] + [] else [Free(l)] + ([Advance(l)] + []);
    OneMoreStep(s2, Take(l), tail, t);
    OneMoreStep(s1, Check(l), [Take(l)] + tail, t);
    OneMoreStep(s, Load(l), [Check(l)] + ([Take(l)] + tail), t);
    assert [Load(l), Check(l), Take(l)] + free + [Advance(l)] == [Load(l)] + ([Check(l)] + ([Take(l)] + tail));
  }

  lemma OneMoreStep<T>(s: State<T>, step: Step<T>, steps: seq<Step<T>>, t: State<T>)
    requires ValidCells(s.total) && Enabled(s, step) && Reaches(Apply(s, step), steps, t)
    ensures Reaches(s, [step] + steps, t)
  {
    hide Enabled, Apply;
    assert ([step] + steps)[1..] == steps;
  }

  /** A push can always complete: with a listener and a free cell an idle producer publishes exactly its item. */
  lemma PushPublishes<T>(s: State<T>, p: int, item: T) returns (t: State<T>)
    requires Inv(s) && p in s.producers && s.producers[p].NotPushing? && s.listeners.Keys != {} && s.free > 0
    ensures Reaches(s, [Reserve(p, item), Write(p), Publish(p)], t)
    ensures t.log == s.log + [item] && Published(t.log, t.producers, |s.log|)
    ensures forall l :: l in t.listeners <==> l in s.listeners
  {
    hide Encode, Slot, PointerValue, IncPointer;
    var s1 := Apply(s, Reserve(p, item));
    ReserveKeeps(s, p, item);
    var s2 := Apply(s1, Write(p));
    t := Apply(s2, Publish(p));
    WriteKeeps(s1, p);
    assert InFlight(s2.producers, p) && ProducerOk(s2, p);
    StorePublishes(s2.log, s2.producers, p, |s.log|);
    assert Reaches(t, [], t);
    OneMoreStep(s2, Publish(p), [], t);
    OneMoreStep(s1, Write(p), [Publish(p)] + [], t);
    OneMoreStep(s, Reserve(p, item), [Write(p)] + ([Publish(p)] + []), t);
    assert [Reserve(p, item), Write(p), Publish(p)] == [Reserve(p, item)] + ([Write(p)] + ([Publish(p)] + []));
  }

  lemma {:induction false} LogOnlyGrows<T>(s: State<T>, steps: seq<Step<T>>, t: State<T>)
    requires Reaches(s, steps, t)
    ensures s.log <= t.log
    decreases |steps|
  {
    if steps != [] { LogOnlyGrows(Apply(s, steps[0]), steps[1..], t); }
  }

  /** No shared access leaves the cell array, no `fetch_sub` underflows, and a cell that some listener has
      yet to pop still holds that listener's item. */
  lemma AccessesSafe<T>(s: State<T>, steps: seq<Step<T>>, t: State<T>, step: Step<T>)
    requires Init(s) && Reaches(s, steps, t) && Enabled(t, step)
    ensures step.Write? || step.Publish? ==> PointerValue(t.producers[step.p].ptr) < |t.cells|
    ensures step.Check? || step.Take? ==> PointerValue(t.listeners[step.l].readP) < |t.cells|
    ensures step.Take? ==>
              var me := t.listeners[step.l]; var cell := PointerValue(me.readP);
              RefAt(t.cells, cell) > 0 && me.pos < |t.log| && DataAt(t.cells, cell) == [t.log[me.pos]]
    ensures step.Write? ==> RefAt(t.cells, PointerValue(t.producers[step.p].ptr)) == 0
  {
    InitEstablishes(s);
    RunKeeps(s, steps, t);
    if step.Write? || step.Publish? {
      assert InFlight(t.producers, step.p) && ProducerOk(t, step.p);
      var e := t.producers[step.p].entry;
      EncodeParts(e, t.total);
      assert !Published(t.log, t.producers, e);
      assert CellOk(t, e);
    } else if step.Check? {
      assert ListenerOk(t, step.l);
      EncodeParts(t.listeners[step.l].pos, t.total);
    } else if step.Take? {
      TakeCounter(t, step.l);
    }
  }

  /** Conservation of cells: free cells, entries some listener still has to pop, and increments still due
      add up to the capacity; so once no increment is due the buffer reads full exactly when the slowest
      listener is a whole lap behind, and empty exactly when every listener has popped everything. */
  lemma CellsConserved<T>(s: State<T>, steps: seq<Step<T>>, t: State<T>)
    requires Init(s) && Reaches(s, steps, t)
    ensures t.free + (|t.log| - t.released) + |Freeing(t.listeners)| == t.total
    ensures forall l :: l in t.listeners ==> t.released <= t.listeners[l].pos <= |t.log|
    ensures t.listeners.Keys != {} ==> exists l :: l in t.listeners && t.listeners[l].pos == t.released
    ensures Freeing(t.listeners) == {} ==>
              && (t.free == 0 <==> exists l :: l in t.listeners && t.listeners[l].pos + t.total == |t.log|)
              && (t.free == t.total <==> forall l :: l in t.listeners ==> t.listeners[l].pos == |t.log|)
  {
    InitEstablishes(s);
    RunKeeps(s, steps, t);
    forall l | l in t.listeners ensures t.released <= t.listeners[l].pos <= |t.log| { assert ListenerOk(t, l); }
    if t.listeners.Keys != {} {
      var w :| w in t.listeners && t.listeners[w].pos == t.released;
    }
  }

  /** copy: with no access under way, the walk from pointer_to_head to the write pointer collects exactly
      the entries that some listener has still to pop. */
  method Copy<T>(s: State<T>) returns (enqueued: seq<T>)
    requires Inv(s) && NoPushInFlight(s) && Freeing(s.listeners) == {}
    ensures enqueued == s.log[s.released..]
  {
    CopyStarts(s);
    hide Encode, Slot, PointerValue, IncPointer, PointerToHead, Inv, NoPushInFlight, Freeing;
    enqueued := [];
    if |s.listeners| > 0 {
      var p := PointerToHead(s.writeP, s.free, s.total);
      PointerToHeadEncodes(|s.log|, s.free, s.total);
      ghost var k := s.released;
      while p != s.writeP
        invariant s.released <= k <= |s.log| && p == Encode(k, s.total)
        invariant enqueued == s.log[s.released..k]
        decreases |s.log| - k
      {
        EncodeInjective(k, |s.log|, s.total);
        HeldCell(s, k);
        if s.cells[PointerValue(p)].ref > 0 {
          enqueued := enqueued + [s.cells[PointerValue(p)].data];
        }
        IncPointerEncodes(k, s.total);
        p := IncPointer(p, s.total);
        k := k + 1;
      }
      EncodeInjective(k, |s.log|, s.total);
    }
  }

  lemma CopyStarts<T>(s: State<T>)
    requires Inv(s) && Freeing(s.listeners) == {}
    ensures ValidCells(s.total) && |s.cells| == s.total && s.writeP == Encode(|s.log|, s.total)
    ensures s.released <= |s.log| <= s.released + s.total && s.free == s.total - (|s.log| - s.released)
    ensures |s.listeners| == 0 ==> s.released == |s.log|
  {
    hide Encode, Slot, PointerValue, IncPointer, PointerToHead, CellsOk;
    if |s.listeners| == 0 { assert s.listeners.Keys == {}; }
  }

  /** A published entry that some listener has still to pop sits in its cell with a non-zero counter. */
  lemma HeldCell<T>(s: State<T>, k: nat)
    requires Inv(s) && NoPushInFlight(s) && s.released <= k < |s.log|
    ensures var c := PointerValue(Encode(k, s.total));
            c < |s.cells| && s.cells[c].ref > 0 && s.cells[c].data == s.log[k]
  {
    EncodeParts(k, s.total);
    QuietPublished(s, k);
    assert CellOk(s, k);
    assert s.listeners.Keys != {};
    var w :| w in s.listeners && s.listeners[w].pos == s.released;
    assert w in Waiting(s.listeners, k);
  }

  /** Why registering needs the mutex: a listener added between a producer's compare-exchange and its
      counter store is counted but starts behind the entry, so that counter can never return to zero. */
  lemma UnguardedRegisterLeaks<T>(s: State<T>, p: int, l: int)
    requires Inv(s) && p in s.producers && s.producers[p].Written? && l !in s.listeners
    ensures var mid := SetListener(s, l, Listener(s.writeP, Resting, |s.log|, |s.log|, []));
            var t := Apply(mid, Publish(p));
            var e := s.producers[p].entry;
            t.cells[Slot(e, s.total)].ref == |Waiting(t.listeners, e)| + 1
  {
    hide Encode, Slot, PointerValue, IncPointer;
    assert InFlight(s.producers, p) && ProducerOk(s, p);
    var e := s.producers[p].entry;
    EncodeParts(e, s.total);
    AllWaiting(s, p);
    var mid := SetListener(s, l, Listener(s.writeP, Resting, |s.log|, |s.log|, []));
    var t := Apply(mid, Publish(p));
    assert Waiting(t.listeners, e) == Waiting(s.listeners, e);
    assert t.listeners.Keys == s.listeners.Keys + {l};
  }
}
