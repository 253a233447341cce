/** The log ring buffer under every interleaving of one producer and one consumer.

  A step reads or writes one shared field.  `accepted` lists the entries whose append returned
  True, `items` what all drains have handed out so far. */
module RingInterleaved {
  import opened Wrappers
  import opened RingBuffer

  datatype Producer =
    | PIdle
    | PHavePos(entry: Entry, pos: nat)   // read write_pos
    | PRoom(entry: Entry, pos: nat)      // saw that the buffer is not full
    | PWrote(entry: Entry, pos: nat)     // wrote the slot

  datatype Consumer =
    | CIdle
    | CLoop(left: nat)                          // may take `left` more entries
    | CHaveRead(left: nat, r: nat)              // read read_pos
    | CMore(left: nat)                          // saw that the buffer is not empty
    | CFetched(left: nat, entry: Option<Entry>) // read the slot
    | CCleared(left: nat)                       // took the entry and cleared the slot

  datatype Ring = Ring(
    buffer: seq<Option<Entry>>,
    writePos: nat,
    readPos: nat,
    producer: Producer,
    consumer: Consumer,
    accepted: seq<Entry>,
    items: seq<Entry>)

  datatype Act =
    | StartAppend(entry: Entry)
    | CheckRoom
    | WriteSlot
    | Publish
    | StartDrain(maxItems: nat)
    | ReadReadPos
    | CompareWritePos
    | Fetch
    | HandOut
    | Advance

  function SlotAt(buffer: seq<Option<Entry>>, i: nat): Option<Entry> {
    if i < |buffer| then buffer[i] else None
  }

  function SetSlot(buffer: seq<Option<Entry>>, i: nat, x: Option<Entry>): seq<Option<Entry>> {
    if i < |buffer| then buffer[i := x] else buffer
  }

  function After(buffer: seq<Option<Entry>>, i: nat): nat {
    if |buffer| == 0 then 0 else Index(i + 1, |buffer|)
  }

  predicate Enabled(s: Ring, a: Act) {
    match a
    case StartAppend(_) => s.producer.PIdle?
    case CheckRoom => s.producer.PHavePos?
    case WriteSlot => s.producer.PRoom?
    case Publish => s.producer.PWrote?
    case StartDrain(_) => s.consumer.CIdle?
    case ReadReadPos => s.consumer.CLoop?
    case CompareWritePos => s.consumer.CHaveRead?
    case Fetch => s.consumer.CMore?
    case HandOut => s.consumer.CFetched?
    case Advance => s.consumer.CCleared?
  }

  function Next(s: Ring, a: Act): Ring
    requires Enabled(s, a)
  {
    var p, c := s.producer, s.consumer;
    match a
    case StartAppend(entry) => s.(producer := PHavePos(entry, s.writePos))
    case CheckRoom =>
      s.(producer := if After(s.buffer, p.pos) == s.readPos then PIdle else PRoom(p.entry, p.pos))
    case WriteSlot => s.(buffer := SetSlot(s.buffer, p.pos, Some(p.entry)), producer := PWrote(p.entry, p.pos))
    case Publish =>
      s.(writePos := After(s.buffer, p.pos), accepted := s.accepted + [p.entry], producer := PIdle)
    case StartDrain(maxItems) => s.(consumer := CLoop(maxItems))
    case ReadReadPos => s.(consumer := if c.left == 0 then CIdle else CHaveRead(c.left - 1, s.readPos))
    case CompareWritePos => s.(consumer := if c.r == s.writePos then CIdle else CMore(c.left))
    case Fetch => s.(consumer := CFetched(c.left, SlotAt(s.buffer, s.readPos)))
    case HandOut =>
      if c.entry.None? then s.(consumer := CCleared(c.left))
      else s.(items := s.items + [c.entry.value], buffer := SetSlot(s.buffer, s.readPos, None),
              consumer := CCleared(c.left))
    case Advance => s.(readPos := After(s.buffer, s.readPos), consumer := CLoop(c.left))
  }

  function Start(size: nat): Ring {
    Ring(seq(size, _ => None), 0, 0, PIdle, CIdle, [], [])
  }

  /** The state an interleaving leads to; a step that is not enabled does not happen. */
  function Run(size: nat, acts: seq<Act>): Ring {
    if acts == [] then Start(size)
    else
      var s := Run(size, acts[..|acts| - 1]);
      var a := acts[|acts| - 1];
      if Enabled(s, a) then Next(s, a) else s
  }

  // ---------- the invariant ----------

  /** How many entries the consumer has moved past. */
  function Retired(s: Ring): int {
    |s.items| - if s.consumer.CCleared? then 1 else 0
  }

  ghost predicate ProducerOk(s: Ring) {
    match s.producer
    case PIdle => true
    case PHavePos(_, pos) => pos == s.writePos
    case PRoom(_, pos) => pos == s.writePos && |s.accepted| + 1 - Retired(s) < |s.buffer|
    case PWrote(entry, pos) =>
      pos == s.writePos && |s.accepted| + 1 - Retired(s) < |s.buffer| && SlotAt(s.buffer, pos) == Some(entry)
  }

  ghost predicate ConsumerOk(s: Ring) {
    match s.consumer
    case CIdle => true
    case CLoop(_) => true
    case CHaveRead(_, r) => r == s.readPos
    case CMore(_) => Retired(s) < |s.accepted|
    case CFetched(_, entry) => 0 <= Retired(s) < |s.accepted| && entry == Some(s.accepted[Retired(s)])
    case CCleared(_) => Retired(s) < |s.accepted|
  }

  ghost predicate Inv(s: Ring) {
    && 0 <= Retired(s) <= |s.accepted| < Retired(s) + |s.buffer|
    && Positions(s.writePos, s.readPos, |s.accepted|, Retired(s), |s.buffer|)
    && s.items <= s.accepted
    && Holds(s.buffer, s.accepted, |s.items|)
    && ProducerOk(s) && ConsumerOk(s)
  }

  lemma AfterPosition(buffer: seq<Option<Entry>>, n: nat)
    requires |buffer| > 0
    ensures After(buffer, Index(n, |buffer|)) == Index(n + 1, |buffer|)
  {
    hide Index;
    IndexNext(n, |buffer|);
  }

  /** A write to the free slot leaves the held entries alone. */
  lemma HoldsElsewhere(b: seq<Option<Entry>>, accepted: seq<Entry>, lo: nat, x: Option<Entry>)
    requires Holds(b, accepted, lo) && lo <= |accepted| < lo + |b|
    ensures Holds(b[Index(|accepted|, |b|) := x], accepted, lo)
  {
    hide Index;
    forall i | lo <= i < |accepted| ensures b[Index(|accepted|, |b|) := x][Index(i, |b|)] == Some(accepted[i]) {
      IndexDistinct(i, |accepted|, |b|);
    }
  }

  lemma {:induction false} ProducerStep(s: Ring, a: Act)
    requires Inv(s) && Enabled(s, a) && (a.StartAppend? || a.CheckRoom? || a.WriteSlot? || a.Publish?)
    ensures Inv(Next(s, a))
  {
    hide Holds, Index;
    var n, lo, size := |s.accepted|, Retired(s), |s.buffer|;
    AfterPosition(s.buffer, n);
    match a
    case StartAppend(_) =>
    case CheckRoom => FullTest(n, lo, size);
    case WriteSlot => HoldsElsewhere(s.buffer, s.accepted, |s.items|, Some(s.producer.entry));
    case Publish =>
      assert s.buffer == s.buffer[Index(n, size) := Some(s.producer.entry)];
      HoldsAppend(s.buffer, s.buffer, s.accepted, |s.items|, s.producer.entry);
  }

  lemma {:induction false} ConsumerStep(s: Ring, a: Act)
    requires Inv(s) && Enabled(s, a) && !(a.StartAppend? || a.CheckRoom? || a.WriteSlot? || a.Publish?)
    ensures Inv(Next(s, a))
  {
    hide Holds, Index;
    var n, lo, size := |s.accepted|, Retired(s), |s.buffer|;
    match a
    case Fetch =>
      AfterPosition(s.buffer, lo);
      HoldsAt(s.buffer, s.accepted, lo);
    case HandOut =>
      AfterPosition(s.buffer, lo);
      HoldsRetire(s.buffer, s.buffer[s.readPos := None], s.accepted, lo);
      WrittenSlotKept(s, lo);
    case Advance =>
      AfterPosition(s.buffer, lo);
    case _ =>
  }

  /** Clearing the oldest slot does not touch the slot the producer has written. */
  lemma WrittenSlotKept(s: Ring, lo: nat)
    requires |s.buffer| > 0 && lo < |s.accepted| < lo + |s.buffer|
    requires Positions(s.writePos, s.readPos, |s.accepted|, lo, |s.buffer|)
    ensures s.writePos != s.readPos
  {
    hide Index;
    IndexDistinct(lo, |s.accepted|, |s.buffer|);
  }

  lemma {:induction false} RunInv(size: nat, acts: seq<Act>)
    requires size > 0
    ensures Inv(Run(size, acts)) && |Run(size, acts).buffer| == size
  {
    if acts != [] {
      hide Inv;
      var s := Run(size, acts[..|acts| - 1]);
      var a := acts[|acts| - 1];
      RunInv(size, acts[..|acts| - 1]);
      if Enabled(s, a) {
        if a.StartAppend? || a.CheckRoom? || a.WriteSlot? || a.Publish? {
          ProducerStep(s, a);
        } else {
          ConsumerStep(s, a);
        }
      }
    }
  }

  // ---------- first in, first out ----------

  /** The slots not handed out yet, in reading order. */
  function Waiting(s: Ring): seq<Option<Entry>>
    requires |s.buffer| > 0
  {
    Pending(s.buffer, if s.consumer.CCleared? then After(s.buffer, s.readPos) else s.readPos, s.writePos, |s.buffer|)
  }

  lemma {:induction false} WrapAppend(a: seq<Entry>, b: seq<Entry>)
    ensures Wrap(a + b) == Wrap(a) + Wrap(b)
  {
    if a == [] {
      assert a + b == b;
    } else {
      WrapAppend(a[1..], b);
      assert (a + b)[1..] == a[1..] + b;
    }
  }

  /** Under every interleaving, what was handed out followed by what waits in the buffer is what
    was accepted, in order: nothing is lost, repeated or reordered, and at most size - 1 wait. */
  lemma {:induction false} FirstInFirstOut(size: nat, acts: seq<Act>)
    requires size > 0
    ensures var s := Run(size, acts);
            |s.buffer| == size && Wrap(s.items) + Waiting(s) == Wrap(s.accepted) && |Waiting(s)| <= size - 1
  {
    hide Run, Holds, Index;
    RunInv(size, acts);
    var s := Run(size, acts);
    var m := |s.items|;
    AfterPosition(s.buffer, Retired(s));
    PendingIs(s.buffer, s.accepted, m, size);
    WrapAppend(s.items, s.accepted[m..]);
    assert s.items + s.accepted[m..] == s.accepted;
  }

  // ---------- calls that run to their end ----------

  lemma RunMore(size: nat, acts: seq<Act>, a: Act)
    ensures Run(size, acts + [a]) == (var s := Run(size, acts); if Enabled(s, a) then Next(s, a) else s)
  {
    hide Next, Enabled;
    assert (acts + [a])[..|acts|] == acts;
  }

  /** An append that no drain interrupts takes its entry exactly when fewer than size - 1 accepted
    entries are still in their slots, and comes to its end either way. */
  lemma {:induction false} AppendIff(size: nat, acts: seq<Act>, entry: Entry)
    requires size > 0 && Run(size, acts).producer.PIdle?
    ensures var s, t := Run(size, acts), Run(size, acts + [StartAppend(entry), CheckRoom, WriteSlot, Publish]);
            && t.producer.PIdle? && t.items == s.items && t.consumer == s.consumer
            && t.accepted == s.accepted + if |s.accepted| - Retired(s) < size - 1 then [entry] else []
  {
    hide Run, Holds, Index;
    RunInv(size, acts);
    var s := Run(size, acts);
    var a1 := acts + [StartAppend(entry)];
    var a2 := a1 + [CheckRoom];
    var a3 := a2 + [WriteSlot];
    RunMore(size, acts, StartAppend(entry));
    RunMore(size, a1, CheckRoom);
    RunMore(size, a2, WriteSlot);
    RunMore(size, a3, Publish);
    assert acts + [StartAppend(entry), CheckRoom, WriteSlot, Publish] == a3 + [Publish];
    AfterPosition(s.buffer, |s.accepted|);
    FullTest(|s.accepted|, Retired(s), size);
  }

  /** The acts of one turn of the drain loop. */
  const TURN: seq<Act> := [ReadReadPos, CompareWritePos, Fetch, HandOut, Advance]

  lemma {:induction false} TurnTakes(size: nat, acts: seq<Act>)
    requires size > 0 && Run(size, acts).consumer.CLoop?
    ensures var s, t := Run(size, acts), Run(size, acts + TURN);
            && t.accepted == s.accepted && t.producer == s.producer
            && (s.consumer.left > 0 && |s.items| < |s.accepted| ==>
                  t.items == s.items + [s.accepted[|s.items|]] && t.consumer == CLoop(s.consumer.left - 1))
            && (s.consumer.left == 0 || |s.items| == |s.accepted| ==> t.items == s.items && t.consumer.CIdle?)
  {
    hide Run, Holds, Index;
    var s := Run(size, acts);
    var a1 := acts + [ReadReadPos];
    var a2 := a1 + [CompareWritePos];
    var a3 := a2 + [Fetch];
    var a4 := a3 + [HandOut];
    RunInv(size, acts);
    RunInv(size, a2);
    RunInv(size, a3);
    RunMore(size, acts, ReadReadPos);
    RunMore(size, a1, CompareWritePos);
    RunMore(size, a2, Fetch);
    RunMore(size, a3, HandOut);
    RunMore(size, a4, Advance);
    assert acts + TURN == a4 + [Advance];
    PositionsMeetIff(s);
  }

  /** The indices meet exactly when every accepted entry has been handed out. */
  lemma PositionsMeetIff(s: Ring)
    requires Inv(s)
    ensures s.readPos == s.writePos <==> Retired(s) == |s.accepted|
  {
    hide Index, Holds;
    if Retired(s) < |s.accepted| { IndexDistinct(Retired(s), |s.accepted|, |s.buffer|); }
  }

  function Turns(n: nat): seq<Act> {
    if n == 0 then [] else TURN + Turns(n - 1)
  }

  /** A drain that no append interrupts hands out the oldest waiting entries, as many as wait or as it
    may, in order. */
  lemma {:induction false} TurnsTake(size: nat, acts: seq<Act>, n: nat)
    requires size > 0 && Run(size, acts).consumer.CLoop? && n == Run(size, acts).consumer.left
    ensures var s, t := Run(size, acts), Run(size, acts + Turns(n + 1));
            && t.consumer.CIdle? && t.accepted == s.accepted && s.items <= s.accepted
            && t.items == s.accepted[..Least(|s.items| + n, |s.accepted|)]
    decreases n
  {
    hide Run, Holds, Index, Positions, ProducerOk, ConsumerOk;
    RunInv(size, acts);
    var s := Run(size, acts);
    TurnTakes(size, acts);
    assert acts + Turns(n + 1) == acts + TURN + Turns(n);
    var next := Run(size, acts + TURN);
    if n > 0 && |s.items| < |s.accepted| {
      TurnsTake(size, acts + TURN, n - 1);
    } else {
      IdleTurns(size, acts + TURN, n);
    }
  }

  function Least(a: int, b: int): int {
    if a < b then a else b
  }

  lemma {:induction false} IdleTurns(size: nat, acts: seq<Act>, n: nat)
    requires Run(size, acts).consumer.CIdle?
    ensures Run(size, acts + Turns(n)) == Run(size, acts)
    decreases n
  {
    hide Run;
    if n == 0 {
      assert acts + [] == acts;
    } else {
      IdleTurn(size, acts);
      IdleTurns(size, acts + TURN, n - 1);
      assert acts + Turns(n) == acts + TURN + Turns(n - 1);
    }
  }

  lemma IdleTurn(size: nat, acts: seq<Act>)
    requires Run(size, acts).consumer.CIdle?
    ensures Run(size, acts + TURN) == Run(size, acts)
  {
    hide Run, Next;
    var a1 := acts + [ReadReadPos];
    var a2 := a1 + [CompareWritePos];
    var a3 := a2 + [Fetch];
    RunMore(size, acts, ReadReadPos);
    RunMore(size, a1, CompareWritePos);
    RunMore(size, a2, Fetch);
    RunMore(size, a3, HandOut);
    RunMore(size, a3 + [HandOut], Advance);
    assert acts + TURN == a3 + [HandOut] + [Advance];
  }

  lemma {:induction false} DrainTakes(size: nat, acts: seq<Act>, maxItems: nat)
    requires size > 0 && Run(size, acts).consumer.CIdle?
    ensures var s, t := Run(size, acts), Run(size, acts + [StartDrain(maxItems)] + Turns(maxItems + 1));
            && t.consumer.CIdle? && t.accepted == s.accepted && s.items <= s.accepted
            && t.items == s.accepted[..Least(|s.items| + maxItems, |s.accepted|)]
  {
    hide Run;
    RunMore(size, acts, StartDrain(maxItems));
    TurnsTake(size, acts + [StartDrain(maxItems)], maxItems);
  }
}
