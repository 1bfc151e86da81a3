/** FileOutput: a receiver that fills batches and a committer that writes them, two
  * goroutines passing two batches back and forth.  Writes and reopens succeed; the
  * file is everything written, across reopens and rotations. */
module FileOutput {
  import opened Bytes

  type Cursor = seq<byte>

  /** A message as the receiver took it in: its encoding and its queue cursor. */
  datatype Entry = Entry(bytes: seq<byte>, cursor: Cursor)

  datatype Batch = Batch(data: seq<byte>, cursor: Cursor)

  /** There are two batches: the receiver makes 0 and the committer makes 1. */
  type BatchId = b: int | 0 <= b < 2

  type Batches = bs: seq<Batch> | |bs| == 2 witness [Batch([], []), Batch([], [])]

  type Counts = ns: seq<nat> | |ns| == 2 witness [0, 0]

  datatype Receiver =
    | Filling(out: BatchId)     // in its select loop
    | Offering(out: BatchId)    // blocked on batchChan <- out
    | Waiting                   // blocked on <-backChan
    | Flushing(out: BatchId)    // offering the last batch, inChan being closed
    | Done(left: Option<BatchId>) // has closed batchChan

  datatype Committer =
    | Starting                  // yet to put its own new batch on backChan
    | Ready                     // in its select loop
    | Got(b: BatchId)           // received, about to write
    | Wrote(b: BatchId)         // written and synced, about to update the cursor
    | Updated(b: BatchId)       // about to clear the batch and hand it back
    | Stopped

  datatype Config = Config(flushCount: nat, flushInterval: nat, opAnd: bool)

  datatype State = State(
    receiver: Receiver,
    committer: Committer,
    batches: Batches,
    backChan: seq<BatchId>,
    msgCounter: nat,
    intervalElapsed: bool,
    file: seq<byte>,
    accepted: seq<Entry>,       // every message taken in, in order
    lasts: Counts,              // how many had been, when a batch last got one
    acked: nat)                 // how many of them the last cursor update covers

  function BytesOf(es: seq<Entry>): seq<byte> {
    if es == [] then [] else BytesOf(es[..|es| - 1]) + es[|es| - 1].bytes
  }

  datatype Step =
    | Accept(e: Entry)          // a message that encodes to something
    | Ignore                    // one that encodes to nothing
    | Timer
    | CloseInput
    | Hand                      // batchChan: offer and receive meet
    | TakeBack
    | Begin
    | WriteOut
    | UpdateCursor
    | HandBack
    | Reopen
    | Stop

  predicate FlushDue(c: Config, counter: nat, elapsed: bool) {
    counter >= c.flushCount && (!c.opAnd || c.flushInterval == 0 || elapsed)
  }

  /** The receiver after a message, flushing if that is due. */
  function AfterMessage(c: Config, s: State, out: BatchId): Receiver {
    if FlushDue(c, s.msgCounter, s.intervalElapsed) then Offering(out) else Filling(out)
  }

  predicate Next(c: Config, s: State, step: Step, s': State) {
    match step
    case Accept(e) =>
      && s.receiver.Filling?
      && var out := s.receiver.out;
      && var s1 := s.(batches := s.batches[out := Batch(s.batches[out].data + e.bytes, e.cursor)],
                      msgCounter := s.msgCounter + 1,
                      accepted := s.accepted + [e],
                      lasts := s.lasts[out := |s.accepted| + 1]);
      s' == s1.(receiver := AfterMessage(c, s1, out))
    case Ignore =>
      && s.receiver.Filling? && s' == s.(receiver := AfterMessage(c, s, s.receiver.out))
    case Timer =>
      && s.receiver.Filling?
      && s' == if (c.opAnd && s.msgCounter >= c.flushCount) || (!c.opAnd && s.msgCounter > 0)
               then s.(receiver := Offering(s.receiver.out)) else s.(intervalElapsed := true)
    case CloseInput =>
      && s.receiver.Filling?
      && s' == s.(receiver := if |s.batches[s.receiver.out].data| > 0 then Flushing(s.receiver.out)
                              else Done(Some(s.receiver.out)))
    case Hand =>
      && (s.receiver.Offering? || s.receiver.Flushing?) && s.committer == Ready
      && s' == s.(committer := Got(s.receiver.out),
                  receiver := if s.receiver.Offering? then Waiting else Done(None))
    case TakeBack =>
      && s.receiver == Waiting && s.backChan != []
      && s' == s.(receiver := Filling(s.backChan[0]), backChan := s.backChan[1..],
                  msgCounter := 0, intervalElapsed := false)
    case Begin =>
      && s.committer == Starting && s' == s.(committer := Ready, backChan := s.backChan + [1])
    case WriteOut =>
      && s.committer.Got?
      && s' == s.(committer := Wrote(s.committer.b), file := s.file + s.batches[s.committer.b].data)
    case UpdateCursor =>
      && s.committer.Wrote?
      && s' == s.(committer := Updated(s.committer.b), acked := s.lasts[s.committer.b])
    case HandBack =>
      && s.committer.Updated?
      && var b := s.committer.b;
      s' == s.(committer := Ready, batches := s.batches[b := s.batches[b].(data := [])],
               backChan := s.backChan + [b])
    case Reopen =>
      && s.committer == Ready && s' == s
    case Stop =>
      && s.committer == Ready && s.receiver.Done? && s' == s.(committer := Stopped)
  }

  /** A batch is offered on a message, or on the timer, exactly when the configured
    * operator says so: with AND when there are enough messages and the interval is over
    * or not used; with OR when there are enough messages, or any at all on the timer. */
  lemma OfferedWhen(c: Config, s: State, step: Step, s': State)
    requires Next(c, s, step, s') && s.receiver.Filling?
    ensures s'.receiver.Offering? <==>
              match step
              case Accept(_) => s.msgCounter + 1 >= c.flushCount && (c.opAnd && c.flushInterval > 0 ==> s.intervalElapsed)
              case Ignore => s.msgCounter >= c.flushCount && (c.opAnd && c.flushInterval > 0 ==> s.intervalElapsed)
              case Timer => s.msgCounter >= if c.opAnd then c.flushCount else 1
              case _ => false
    ensures s'.receiver.Offering? ==> s'.receiver.out == s.receiver.out
    ensures s'.intervalElapsed <==> s.intervalElapsed || (step == Timer && s'.receiver.Filling?)
  {
  }

  /** newOutBatch on both sides, channels empty. */
  predicate Init(s: State) {
    s == State(Filling(0), Starting, [Batch([], []), Batch([], [])], [], 0, false,
               [], [], [0, 0], 0)
  }

  // --------------------------------------------------------------- invariants

  function ReceiverHolds(r: Receiver): multiset<BatchId> {
    match r
    case Waiting => multiset{}
    case Done(left) => if left.Some? then multiset{left.value} else multiset{}
    case Filling(out) => multiset{out}
    case Offering(out) => multiset{out}
    case Flushing(out) => multiset{out}
  }

  function CommitterHolds(k: Committer): multiset<BatchId> {
    match k
    case Starting => multiset{1}
    case Got(b) => multiset{b}
    case Wrote(b) => multiset{b}
    case Updated(b) => multiset{b}
    case _ => multiset{}
  }

  /** Each batch has exactly one owner. */
  predicate Owned(r: Receiver, k: Committer, backChan: seq<BatchId>) {
    ReceiverHolds(r) + CommitterHolds(k) + multiset(backChan) == multiset{0, 1}
  }

  /** What the receiver has gathered and not handed over. */
  function Gathered(r: Receiver, batches: Batches): seq<byte> {
    match r
    case Filling(out) => batches[out].data
    case Offering(out) => batches[out].data
    case Flushing(out) => batches[out].data
    case Done(left) => if left.Some? then batches[left.value].data else []
    case Waiting => []
  }

  /** What the committer has received and not written. */
  function Unwritten(k: Committer, batches: Batches): seq<byte> {
    if k.Got? then batches[k.b].data else []
  }

  /** A batch that has got all there is: it bears the cursor of the latest message. */
  predicate Latest(b: BatchId, batches: Batches, lasts: Counts, accepted: seq<Entry>) {
    0 < lasts[b] == |accepted| && batches[b].cursor == accepted[lasts[b] - 1].cursor
  }

  /** The receiver's own batch: empty until it counts a message. */
  predicate Current(r: Receiver, batches: Batches, lasts: Counts, accepted: seq<Entry>, msgCounter: nat) {
    match r
    case Filling(out) =>
      if msgCounter == 0 then batches[out].data == [] else Latest(out, batches, lasts, accepted)
    case Offering(out) => Latest(out, batches, lasts, accepted)
    case Flushing(out) => Latest(out, batches, lasts, accepted)
    case Done(left) => left.Some? ==> batches[left.value].data == []
    case Waiting => true
  }

  /** The committer's batch: its cursor is that of its last message, and with it
    * written the file ends exactly behind that message. */
  predicate Committing(k: Committer, batches: Batches, lasts: Counts, accepted: seq<Entry>, file: seq<byte>, acked: nat) {
    k.Got? || k.Wrote? || k.Updated? ==>
      && 0 < lasts[k.b] <= |accepted| && batches[k.b].cursor == accepted[lasts[k.b] - 1].cursor
      && file + Unwritten(k, batches) == BytesOf(accepted[..lasts[k.b]])
      && (k.Updated? ==> acked == lasts[k.b])
  }

  /** Batches on their way to the receiver are empty. */
  predicate Emptied(k: Committer, backChan: seq<BatchId>, batches: Batches) {
    && (forall i :: 0 <= i < |backChan| ==> batches[backChan[i]].data == [])
    && (k == Starting ==> batches[1].data == [])
  }

  /** Written, received and gathered make up what was accepted. */
  predicate Complete(r: Receiver, k: Committer, batches: Batches, file: seq<byte>, accepted: seq<Entry>) {
    file + Unwritten(k, batches) + Gathered(r, batches) == BytesOf(accepted)
  }

  /** What is acknowledged is in the file. */
  predicate Acknowledged(accepted: seq<Entry>, acked: nat, file: seq<byte>) {
    acked <= |accepted| && BytesOf(accepted[..acked]) <= file
  }

  ghost predicate Inv(s: State) {
    && Owned(s.receiver, s.committer, s.backChan)
    && Emptied(s.committer, s.backChan, s.batches)
    && Complete(s.receiver, s.committer, s.batches, s.file, s.accepted)
    && Current(s.receiver, s.batches, s.lasts, s.accepted, s.msgCounter)
    && Committing(s.committer, s.batches, s.lasts, s.accepted, s.file, s.acked)
    && Acknowledged(s.accepted, s.acked, s.file)
    && (s.committer == Stopped ==> s.receiver.Done?)
  }

  // -------------------------------------------------------------- preservation

  /** The owner of a batch is its only owner. */
  lemma OneOwner(r: Receiver, k: Committer, backChan: seq<BatchId>)
    requires Owned(r, k, backChan)
    ensures forall b: BatchId :: b in ReceiverHolds(r) ==> b !in CommitterHolds(k) && b !in backChan
    ensures forall b: BatchId :: b in CommitterHolds(k) ==> b !in backChan
    ensures |ReceiverHolds(r)| + |CommitterHolds(k)| + |backChan| == 2
  {
    hide ReceiverHolds, CommitterHolds;
    var mine, yours, back := ReceiverHolds(r), CommitterHolds(k), multiset(backChan);
    var all := mine + yours + back;
    forall b: BatchId ensures mine[b] + yours[b] + back[b] == 1 && (b in backChan <==> b in back) {
      assert all[b] == multiset{0, 1}[b] == 1;
    }
    assert |all| == |mine| + |yours| + |back| && |multiset{0, 1}| == 2 && |back| == |backChan|;
  }

  lemma BytesSnoc(es: seq<Entry>, e: Entry)
    ensures BytesOf(es + [e]) == BytesOf(es) + e.bytes
  {
    assert (es + [e])[..|es|] == es;
  }

  lemma Assoc(a: seq<byte>, b: seq<byte>, c: seq<byte>)
    ensures a + (b + c) == a + b + c
  {
  }

  lemma Prefix(es: seq<Entry>, e: Entry, k: nat)
    requires k <= |es|
    ensures (es + [e])[..k] == es[..k]
  {
  }

  lemma Longer(p: seq<byte>, a: seq<byte>, b: seq<byte>)
    requires p <= a
    ensures p <= a + b
  {
  }

  lemma Empties(a: seq<byte>, b: seq<byte>)
    ensures a + [] + b == a + b == a + b + [] && a + [] == a
  {
  }

  /** A message more in the receiver's batch is nothing to the committer. */
  lemma CommittingOn(k: Committer, out: BatchId, batches: Batches, lasts: Counts, accepted: seq<Entry>, file: seq<byte>,
                     acked: nat, e: Entry, batches': Batches, lasts': Counts)
    requires Committing(k, batches, lasts, accepted, file, acked) && out !in CommitterHolds(k)
    requires forall b: BatchId :: b != out ==> batches'[b] == batches[b] && lasts'[b] == lasts[b]
    ensures Committing(k, batches', lasts', accepted + [e], file, acked)
    ensures Unwritten(k, batches') == Unwritten(k, batches)
  {
    hide BytesOf;
    if k.Got? || k.Wrote? || k.Updated? {
      assert k.b in CommitterHolds(k) && k.b != out;
      Prefix(accepted, e, lasts[k.b]);
    }
  }

  lemma AcceptStep(s: State, out: BatchId, e: Entry, r: Receiver, s': State)
    requires Inv(s) && s.receiver == Filling(out) && (r == Filling(out) || r == Offering(out))
    requires s' == s.(batches := s.batches[out := Batch(s.batches[out].data + e.bytes, e.cursor)],
                      msgCounter := s.msgCounter + 1,
                      accepted := s.accepted + [e],
                      lasts := s.lasts[out := |s.accepted| + 1],
                      receiver := r)
    ensures Inv(s')
  {
    hide BytesOf, Committing, Unwritten;
    OneOwner(s.receiver, s.committer, s.backChan);
    assert out in ReceiverHolds(s.receiver) && ReceiverHolds(r) == ReceiverHolds(s.receiver);
    hide Owned;
    BytesSnoc(s.accepted, e);
    Assoc(s.file + Unwritten(s.committer, s.batches), s.batches[out].data, e.bytes);
    Prefix(s.accepted, e, s.acked);
    CommittingOn(s.committer, out, s.batches, s.lasts, s.accepted, s.file, s.acked, e, s'.batches, s'.lasts);
    assert Owned(s'.receiver, s'.committer, s'.backChan) by { SameHolds(s.receiver, r, s.committer, s.backChan); }
  }

  lemma SameHolds(r: Receiver, r': Receiver, k: Committer, backChan: seq<BatchId>)
    requires Owned(r, k, backChan) && ReceiverHolds(r') == ReceiverHolds(r)
    ensures Owned(r', k, backChan)
  {
  }

  /** Steps of the receiver that change neither batches nor the committer. */
  lemma ReceiverStep(s: State, r: Receiver, s': State)
    requires Inv(s) && s.receiver.Filling? && s'.receiver == r
    requires s' == s.(receiver := r, intervalElapsed := s'.intervalElapsed)
    requires r == s.receiver || (s.msgCounter > 0 && r == Offering(s.receiver.out))
             || r == (if |s.batches[s.receiver.out].data| > 0 then Flushing(s.receiver.out) else Done(Some(s.receiver.out)))
    ensures Inv(s')
  {
    hide BytesOf, Owned, Committing, Emptied, Acknowledged, Unwritten, Latest;
    SameHolds(s.receiver, r, s.committer, s.backChan);
  }

  lemma QuietStep(c: Config, s: State, step: Step, s': State)
    requires Inv(s) && c.flushCount > 0 && Next(c, s, step, s')
    requires step == Ignore || step == Timer || step == CloseInput || step == Reopen || step == Stop
    ensures Inv(s')
  {
    hide BytesOf, Owned, Committing, Emptied, Acknowledged, Complete, Current;
    if step == Stop {
      StopStep(s, s');
    } else if step != Reopen {
      ReceiverStep(s, s'.receiver, s');
    }
  }

  lemma StopStep(s: State, s': State)
    requires Inv(s) && s.committer == Ready && s.receiver.Done? && s' == s.(committer := Stopped)
    ensures Inv(s')
  {
    hide BytesOf, Acknowledged, Current;
  }

  lemma HandStep(s: State, s': State)
    requires Inv(s) && (s.receiver.Offering? || s.receiver.Flushing?) && s.committer == Ready
    requires s' == s.(committer := Got(s.receiver.out), receiver := if s.receiver.Offering? then Waiting else Done(None))
    ensures Inv(s')
  {
    var b := s.receiver.out;
    assert ReceiverHolds(s.receiver) == multiset{b} && ReceiverHolds(s'.receiver) == multiset{};
    hide BytesOf, Acknowledged, Owned, Emptied, Committing, Complete, ReceiverHolds;
    Handed(s.receiver, b, s.backChan, s'.receiver);
    StillEmpty(Ready, Got(b), s.backChan, s.batches);
    HandedBytes(s.receiver, b, s.batches, s.lasts, s.file, s.accepted, s.acked, s'.receiver);
  }

  lemma HandedBytes(r: Receiver, b: BatchId, batches: Batches, lasts: Counts, file: seq<byte>, accepted: seq<Entry>,
                    acked: nat, r': Receiver)
    requires Complete(r, Ready, batches, file, accepted) && Latest(b, batches, lasts, accepted)
    requires Gathered(r, batches) == batches[b].data && Gathered(r', batches) == []
    ensures Complete(r', Got(b), batches, file, accepted)
    ensures Committing(Got(b), batches, lasts, accepted, file, acked)
  {
    hide BytesOf, Gathered;
    Empties(file, batches[b].data);
    assert accepted[..|accepted|] == accepted;
  }

  lemma Handed(r: Receiver, b: BatchId, backChan: seq<BatchId>, r': Receiver)
    requires Owned(r, Ready, backChan) && ReceiverHolds(r) == multiset{b} && ReceiverHolds(r') == multiset{}
    ensures Owned(r', Got(b), backChan)
  {
    assert multiset{} + multiset{b} == multiset{b} + multiset{};
  }

  lemma TakeBackStep(s: State, s': State)
    requires Inv(s) && s.receiver == Waiting && s.backChan != []
    requires s' == s.(receiver := Filling(s.backChan[0]), backChan := s.backChan[1..],
                      msgCounter := 0, intervalElapsed := false)
    ensures Inv(s') && s'.batches[s'.receiver.out].data == []
  {
    hide BytesOf, Acknowledged, Committing, Unwritten;
    TakenBack(s.committer, s.backChan);
    hide Owned;
    assert s'.batches[s.backChan[0]].data == [];
    assert forall i :: 0 <= i < |s'.backChan| ==> s'.backChan[i] == s.backChan[i + 1];
  }

  lemma TakenBack(k: Committer, backChan: seq<BatchId>)
    requires Owned(Waiting, k, backChan) && backChan != []
    ensures Owned(Filling(backChan[0]), k, backChan[1..])
  {
    hide CommitterHolds;
    assert backChan == [backChan[0]] + backChan[1..];
    assert multiset(backChan) == multiset{backChan[0]} + multiset(backChan[1..]);
  }

  lemma BeginStep(s: State, s': State)
    requires Inv(s) && s.committer == Starting
    requires s' == s.(committer := Ready, backChan := s.backChan + [1])
    ensures Inv(s')
  {
    hide BytesOf, Acknowledged, Current;
    GivenBack(s.receiver, Starting, 1, s.backChan);
    hide Owned;
  }

  /** The committer puts its only batch on the channel. */
  lemma GivenBack(r: Receiver, k: Committer, b: BatchId, backChan: seq<BatchId>)
    requires Owned(r, k, backChan) && CommitterHolds(k) == multiset{b}
    ensures Owned(r, Ready, backChan + [b])
  {
    hide ReceiverHolds;
    assert multiset(backChan + [b]) == multiset(backChan) + multiset{b};
  }

  lemma WriteStep(s: State, s': State)
    requires Inv(s) && s.committer.Got?
    requires s' == s.(committer := Wrote(s.committer.b), file := s.file + s.batches[s.committer.b].data)
    ensures Inv(s')
  {
    hide BytesOf, Owned, Current, Gathered;
    Empties(s'.file, Gathered(s.receiver, s.batches));
    Longer(BytesOf(s.accepted[..s.acked]), s.file, s.batches[s.committer.b].data);
    assert Owned(s'.receiver, s'.committer, s'.backChan) by { SameBatch(s.receiver, s.committer, s'.committer, s.backChan); }
  }

  lemma SameBatch(r: Receiver, k: Committer, k': Committer, backChan: seq<BatchId>)
    requires Owned(r, k, backChan) && CommitterHolds(k') == CommitterHolds(k)
    ensures Owned(r, k', backChan)
  {
  }

  lemma CursorStep(s: State, s': State)
    requires Inv(s) && s.committer.Wrote?
    requires s' == s.(committer := Updated(s.committer.b), acked := s.lasts[s.committer.b])
    ensures Inv(s')
  {
    hide BytesOf, Owned, Current, Gathered, Emptied;
    Empties(s.file, []);
    assert Emptied(s'.committer, s.backChan, s.batches) by { StillEmpty(s.committer, s'.committer, s.backChan, s.batches); }
    assert Owned(s'.receiver, s'.committer, s'.backChan) by { SameBatch(s.receiver, s.committer, s'.committer, s.backChan); }
  }

  lemma StillEmpty(k: Committer, k': Committer, backChan: seq<BatchId>, batches: Batches)
    requires Emptied(k, backChan, batches) && k' != Starting
    ensures Emptied(k', backChan, batches)
  {
  }

  lemma HandBackStep(s: State, b: BatchId, s': State)
    requires Inv(s) && s.committer == Updated(b)
    requires s' == s.(committer := Ready, batches := s.batches[b := s.batches[b].(data := [])],
                      backChan := s.backChan + [b])
    ensures Inv(s')
  {
    assert CommitterHolds(s.committer) == multiset{b};
    hide BytesOf, Acknowledged, Owned, Committing, Current, Gathered, Emptied, ReceiverHolds, CommitterHolds;
    OneOwner(s.receiver, s.committer, s.backChan);
    assert b in CommitterHolds(s.committer) && b !in ReceiverHolds(s.receiver);
    GivenBack(s.receiver, s.committer, b, s.backChan);
    Unaffected(s.receiver, b, s.batches, s'.batches, s.lasts, s.accepted, s.msgCounter);
    EmptiedOne(s.committer, b, s.backChan, s.batches);
    NoneCommitting(s'.batches, s.lasts, s.accepted, s.file, s.acked);
  }

  lemma EmptiedOne(k: Committer, b: BatchId, backChan: seq<BatchId>, batches: Batches)
    requires Emptied(k, backChan, batches) && b !in backChan
    ensures Emptied(Ready, backChan + [b], batches[b := batches[b].(data := [])])
  {
  }

  lemma NoneCommitting(batches: Batches, lasts: Counts, accepted: seq<Entry>, file: seq<byte>, acked: nat)
    ensures Committing(Ready, batches, lasts, accepted, file, acked)
  {
  }

  /** The receiver does not see a batch it does not hold. */
  lemma Unaffected(r: Receiver, b: BatchId, batches: Batches, batches': Batches, lasts: Counts, accepted: seq<Entry>,
                   msgCounter: nat)
    requires b !in ReceiverHolds(r) && forall c: BatchId :: c != b ==> batches'[c] == batches[c]
    ensures Gathered(r, batches') == Gathered(r, batches)
    ensures Current(r, batches', lasts, accepted, msgCounter) == Current(r, batches, lasts, accepted, msgCounter)
  {
  }

  /** Every step keeps the invariant. */
  lemma StepKeeps(c: Config, s: State, step: Step, s': State)
    requires Inv(s) && c.flushCount > 0 && Next(c, s, step, s')
    ensures Inv(s')
  {
    hide Inv;
    match step {
      case Accept(e) => AcceptStep(s, s.receiver.out, e, s'.receiver, s');
      case Hand => HandStep(s, s');
      case TakeBack => TakeBackStep(s, s');
      case Begin => BeginStep(s, s');
      case WriteOut => WriteStep(s, s');
      case UpdateCursor => CursorStep(s, s');
      case HandBack => HandBackStep(s, s.committer.b, s');
      case _ => QuietStep(c, s, step, s');
    }
  }

  // ------------------------------------------------------------------ all runs

  ghost predicate Run(c: Config, states: seq<State>, steps: seq<Step>) {
    && |states| == |steps| + 1 && Init(states[0])
    && forall i :: 0 <= i < |steps| ==> Next(c, states[i], steps[i], states[i + 1])
  }

  lemma InitInv(s: State)
    requires Init(s)
    ensures Inv(s)
  {
    assert Owned(s.receiver, s.committer, s.backChan);
  }

  lemma {:induction false} RunInv(c: Config, states: seq<State>, steps: seq<Step>, n: nat)
    requires c.flushCount > 0 && Run(c, states, steps) && n < |states|
    ensures Inv(states[n])
  {
    hide Inv, Next;
    if n == 0 {
      InitInv(states[0]);
    } else {
      RunInv(c, states, steps, n - 1);
      assert Next(c, states[n - 1], steps[n - 1], states[n - 1 + 1]);
      StepKeeps(c, states[n - 1], steps[n - 1], states[n]);
    }
  }

  /** A batch that is still being filled: it has too few messages, or AND also waits for
    * the interval. */
  predicate NotDue(c: Config, s: State) {
    s.receiver.Filling? ==>
      s.msgCounter < c.flushCount || (c.opAnd && c.flushInterval > 0 && !s.intervalElapsed)
  }

  lemma NotDueStep(c: Config, s: State, step: Step, s': State)
    requires c.flushCount > 0 && Next(c, s, step, s') && NotDue(c, s)
    ensures NotDue(c, s')
  {
  }

  /** In no state of any run is a batch overdue: with OR never more than the flush count
    * of messages wait, with AND no longer than the interval either. */
  lemma {:induction false} NeverOverdue(c: Config, states: seq<State>, steps: seq<Step>, n: nat)
    requires c.flushCount > 0 && Run(c, states, steps) && n < |states|
    ensures states[n].receiver.Filling? ==>
              || states[n].msgCounter < c.flushCount
              || (c.opAnd && c.flushInterval > 0 && !states[n].intervalElapsed)
  {
    hide Next;
    if n > 0 {
      NeverOverdue(c, states, steps, n - 1);
      assert Next(c, states[n - 1], steps[n - 1], states[n - 1 + 1]);
      NotDueStep(c, states[n - 1], steps[n - 1], states[n]);
    }
  }

  /** In every state of every run: each batch has one owner, one on its way back is
    * empty, what is in the file is a prefix of what was accepted, in order, a cursor
    * update covers only messages that are in the file, the hand-back finds room on its
    * channel of two, and after a clean shutdown everything accepted has been written. */
  lemma OutputSafety(c: Config, states: seq<State>, steps: seq<Step>, n: nat)
    requires c.flushCount > 0 && Run(c, states, steps) && n < |states|
    ensures var s := states[n];
            && Owned(s.receiver, s.committer, s.backChan)
            && (forall i :: 0 <= i < |s.backChan| ==> s.batches[s.backChan[i]].data == [])
            && s.file <= BytesOf(s.accepted)
            && s.acked <= |s.accepted| && BytesOf(s.accepted[..s.acked]) <= s.file
            && (s.committer.Updated? || s.committer == Starting ==> |s.backChan| < 2)
            && (s.committer == Stopped ==> s.file == BytesOf(s.accepted))
  {
    RunInv(c, states, steps, n);
    var s := states[n];
    OneOwner(s.receiver, s.committer, s.backChan);
    var unwritten, gathered := Unwritten(s.committer, s.batches), Gathered(s.receiver, s.batches);
    assert s.file <= s.file + unwritten <= s.file + unwritten + gathered;
    if s.committer == Stopped {
      assert gathered == [] && s.file + [] + [] == s.file;
    }
  }

  /** The cursor handed to UpdateCursor is that of the last message whose bytes, with
    * all before them, are in the file at that moment. */
  lemma CursorFollowsWrite(c: Config, states: seq<State>, steps: seq<Step>, n: nat)
    requires c.flushCount > 0 && Run(c, states, steps) && n < |steps| && steps[n] == UpdateCursor
    ensures states[n].committer.Wrote?
    ensures var s := states[n]; var k := s.lasts[s.committer.b];
            && 0 < k <= |s.accepted| && s.batches[s.committer.b].cursor == s.accepted[k - 1].cursor
            && s.file == BytesOf(s.accepted[..k])
  {
    RunInv(c, states, steps, n);
    assert Next(c, states[n], steps[n], states[n + 1]);
    assert states[n].file + [] == states[n].file;
  }
}
