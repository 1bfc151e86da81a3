/** Who holds a pack: pools, inputs, decoders, the router's fan-out, matchers and
  * plugins as one system of interleaved steps.
  *
  * A channel is modelled by the packs in it, without their order; what is received
  * next is any of them. */
module PackPool {
  import opened Bytes

  type Pack = nat
  type Matcher = nat
  type Pool = nat

  /** One reference to a pack, by where it is. */
  datatype Place =
    | Input(i: nat)            // in the hands of an input
    | DecoderChan(d: nat)
    | Decoding(d: nat)         // in the hands of a decoder
    | RouterChan
    | Routing                  // the router's own, for the whole fan-out
    | Sending(m: Matcher)      // counted for a matcher, not yet sent to it
    | MatcherChan(m: Matcher)
    | Matching(m: Matcher)
    | PluginChan(m: Matcher)
    | Running(m: Matcher)      // in the hands of a filter or output
    | Lost(m: Matcher)         // dropped by deliver without being recycled

  /** Where `recycle` has got to with a pack whose count reached zero. */
  datatype Phase = Pooled | Live | Dying(zeroed: bool)

  datatype PackState = PackState(
    home: Pool,
    refCount: int,
    phase: Phase,
    holders: multiset<Place>,
    dirty: bool,               // differs from what Zero leaves
    outs: nat,                 // times it left its pool
    backs: nat)                // times it came back

  /** A match runner: whether its plugin is buffered, and which of the two ways of
    * handing on a matching pack it has. */
  datatype MatchRunner = MatchRunner(buffered: bool, matchChan: bool, bufFeeder: bool, started: bool)

  /** NewFORunner: an unbuffered plugin's matcher gets the plugin's channel. */
  function NewRunner(useBuffering: bool): MatchRunner {
    MatchRunner(useBuffering, !useBuffering, false, false)
  }

  /** Start, when it does not fail: a buffered plugin's matcher gets its feeder. */
  function Started(r: MatchRunner): MatchRunner {
    r.(bufFeeder := r.buffered, started := true)
  }

  datatype Router = Idle | FanOut(pack: Pack, todo: seq<Matcher>, sending: Option<Matcher>)

  datatype State = State(
    packs: map<Pack, PackState>,
    router: Router,
    fMatchers: seq<Option<Matcher>>,
    oMatchers: seq<Option<Matcher>>,
    closed: set<Matcher>,
    runners: map<Matcher, MatchRunner>)

  // ----------------------------------------------------- what a step does to a pack

  function Taken(ps: PackState, at: Place): PackState {
    ps.(phase := Live, holders := multiset{at}, outs := ps.outs + 1)
  }

  function Moved(ps: PackState, from: Place, to: Place): PackState {
    ps.(holders := ps.holders - multiset{from} + multiset{to})
  }

  /** atomic.AddInt32(&pack.RefCount, 1), ahead of a send. */
  function Grabbed(ps: PackState, at: Place): PackState {
    ps.(refCount := ps.refCount + 1, holders := ps.holders + multiset{at})
  }

  /** The decrement in recycle; whoever brings the count to zero goes on with it. */
  function Released(ps: PackState, from: Place): PackState {
    var count := ps.refCount - 1;
    ps.(refCount := count, holders := ps.holders - multiset{from},
        phase := if count == 0 then Dying(false) else ps.phase)
  }

  /** Zero. */
  function Zeroed(ps: PackState): PackState {
    ps.(refCount := 1, dirty := false, phase := Dying(true))
  }

  /** The send on the recycle channel. */
  function Returned(ps: PackState): PackState {
    ps.(phase := Pooled, backs := ps.backs + 1)
  }

  /** deliver: to the queue, or else to the plugin's channel, or else dropped. */
  function Delivered(ps: PackState, m: Matcher, r: MatchRunner): PackState {
    if r.bufFeeder then Released(ps, Matching(m))
    else if r.matchChan then Moved(ps, Matching(m), PluginChan(m))
    else Moved(ps, Matching(m), Lost(m))
  }

  // -------------------------------------------------------------------- steps

  datatype Step =
    | Take(p: Pack, at: Place)
    | Write(p: Pack, at: Place)
    | HandOver(p: Pack, at: Place, to: Place)
    | Recycle(p: Pack, at: Place)
    | RouterReceive(p: Pack)
    | RouterCount
    | RouterSend
    | RouterRecycle
    | Deliver(p: Pack, m: Matcher)
    | Zero(p: Pack)
    | Return(p: Pack)
    | NewPlugin(m: Matcher, useBuffering: bool)
    | StartPlugin(m: Matcher)
    | AddMatcher(m: Matcher, slots: seq<Option<Matcher>>)
    | RemoveFilter(m: Matcher, slots: seq<Option<Matcher>>)
    | RemoveOutput(m: Matcher, slots: seq<Option<Matcher>>)

  /** A goroutine that has received a pack and not yet passed it on. */
  predicate InHand(at: Place) {
    at.Input? || at.Decoding? || at.Matching? || at.Running?
  }

  /** Sends and receives on the channels between goroutines: to a decoder, out of
    * its channel, to the router, out of a matcher's and out of a plugin's channel. */
  predicate Passes(from: Place, to: Place) {
    || (from.Input? && to.DecoderChan?)
    || (from.DecoderChan? && to == Decoding(from.d))
    || ((from.Input? || from.Decoding? || from.Running?) && to == RouterChan)
    || (from.MatcherChan? && to == Matching(from.m))
    || (from.PluginChan? && to == Running(from.m))
  }

  predicate Holds(s: State, p: Pack, at: Place) {
    p in s.packs && at in s.packs[p].holders
  }

  /** The non-nil matchers of a slice, in order. */
  function Present(slots: seq<Option<Matcher>>): seq<Matcher> {
    if slots == [] then []
    else (if slots[0].Some? then [slots[0].value] else []) + Present(slots[1..])
  }

  function SetPack(s: State, p: Pack, ps: PackState): State {
    s.(packs := s.packs[p := ps])
  }

  predicate Next(s: State, step: Step, s': State) {
    match step
    case Take(p, at) =>
      && p in s.packs && s.packs[p].phase == Pooled && (at.Input? || at.Decoding? || at.Running?)
      && s' == SetPack(s, p, Taken(s.packs[p], at))
    case Write(p, at) =>
      && Holds(s, p, at) && InHand(at) && s' == SetPack(s, p, s.packs[p].(dirty := true))
    case HandOver(p, at, to) =>
      && Holds(s, p, at) && Passes(at, to) && s' == SetPack(s, p, Moved(s.packs[p], at, to))
    case Recycle(p, at) =>
      && Holds(s, p, at) && InHand(at) && s' == SetPack(s, p, Released(s.packs[p], at))
    case RouterReceive(p) =>
      && s.router == Idle && Holds(s, p, RouterChan)
      && s' == SetPack(s, p, Moved(s.packs[p], RouterChan, Routing)).(
                 router := FanOut(p, Present(s.fMatchers) + Present(s.oMatchers), None))
    case RouterCount =>
      && s.router.FanOut? && s.router.sending == None && s.router.todo != [] && s.router.pack in s.packs
      && var p, m := s.router.pack, s.router.todo[0];
      s' == SetPack(s, p, Grabbed(s.packs[p], Sending(m))).(
              router := FanOut(p, s.router.todo[1..], Some(m)))
    case RouterSend =>
      && s.router.FanOut? && s.router.sending.Some? && s.router.pack in s.packs
      && var p, m := s.router.pack, s.router.sending.value;
      s' == SetPack(s, p, Moved(s.packs[p], Sending(m), MatcherChan(m))).(
              router := s.router.(sending := None))
    case RouterRecycle =>
      && s.router.FanOut? && s.router.sending == None && s.router.todo == [] && s.router.pack in s.packs
      && s' == SetPack(s, s.router.pack, Released(s.packs[s.router.pack], Routing)).(router := Idle)
    case Deliver(p, m) =>
      && Holds(s, p, Matching(m)) && m in s.runners
      && s' == SetPack(s, p, Delivered(s.packs[p], m, s.runners[m]))
    case Zero(p) =>
      && p in s.packs && s.packs[p].phase == Dying(false) && s' == SetPack(s, p, Zeroed(s.packs[p]))
    case Return(p) =>
      && p in s.packs && s.packs[p].phase == Dying(true) && s' == SetPack(s, p, Returned(s.packs[p]))
    case NewPlugin(m, useBuffering) =>
      && m !in s.runners && s' == s.(runners := s.runners[m := NewRunner(useBuffering)])
    case StartPlugin(m) =>
      && m in s.runners && !s.runners[m].started && s' == s.(runners := s.runners[m := Started(s.runners[m])])
    case AddMatcher(m, slots) =>
      && s.router == Idle && m !in s.closed && m in s.runners && s.runners[m].started && Some(m) !in s.oMatchers
      && Added(s.fMatchers, m, slots) && s' == s.(fMatchers := slots)
    case RemoveFilter(m, slots) =>
      && s.router == Idle && Removed(s.fMatchers, m, slots)
      && s' == s.(fMatchers := slots, closed := s.closed + {m})
    case RemoveOutput(m, slots) =>
      && s.router == Idle && Removed(s.oMatchers, m, slots)
      && s' == s.(oMatchers := slots, closed := s.closed + {m})
  }

  /** The slices before and after a matcher is added or removed. */
  predicate Added(slots: seq<Option<Matcher>>, m: Matcher, slots': seq<Option<Matcher>>) {
    if Some(m) in slots then slots' == slots
    else if None in slots then exists i :: 0 <= i < |slots| && slots[i] == None && slots' == slots[i := Some(m)]
    else slots' == slots + [Some(m)]
  }

  predicate Removed(slots: seq<Option<Matcher>>, m: Matcher, slots': seq<Option<Matcher>>) {
    exists i :: 0 <= i < |slots| && slots[i] == Some(m) && slots' == slots[i := None]
  }

  // --------------------------------------------------------------- invariants

  predicate PackOk(ps: PackState) {
    match ps.phase
    case Pooled => ps.holders == multiset{} && ps.refCount == 1 && !ps.dirty && ps.outs == ps.backs
    case Live => ps.refCount == |ps.holders| > 0 && ps.outs == ps.backs + 1
    case Dying(zeroed) =>
      && ps.holders == multiset{} && ps.outs == ps.backs + 1
      && ps.refCount == (if zeroed then 1 else 0) && (zeroed ==> !ps.dirty)
  }

  /** The references the router itself holds to a pack. */
  function RouterHolds(r: Router, p: Pack): multiset<Place> {
    if r.FanOut? && r.pack == p then
      multiset{Routing} + if r.sending.Some? then multiset{Sending(r.sending.value)} else multiset{}
    else multiset{}
  }

  predicate RouterPlace(at: Place) { at.Routing? || at.Sending? }

  /** Between the router's places and the packs: exactly the references it has. */
  ghost predicate RouterOk(r: Router, p: Pack, ps: PackState) {
    forall at: Place :: RouterPlace(at) ==> ps.holders[at] == RouterHolds(r, p)[at]
  }

  predicate Listed(s: State, m: Matcher) { Some(m) in s.fMatchers || Some(m) in s.oMatchers }

  predicate Distinct(slots: seq<Option<Matcher>>) {
    forall i, j :: 0 <= i < j < |slots| && slots[i].Some? ==> slots[i] != slots[j]
  }

  ghost predicate SlotsOk(s: State) {
    && Distinct(s.fMatchers) && Distinct(s.oMatchers)
    && (forall m: Matcher :: Some(m) in s.fMatchers ==> Some(m) !in s.oMatchers)
    && (forall m: Matcher :: m in s.closed ==> !Listed(s, m))
    && (s.router.FanOut? ==>
          && (forall m :: m in s.router.todo ==> Listed(s, m))
          && (s.router.sending.Some? ==> Listed(s, s.router.sending.value)))
  }

  ghost predicate Inv(s: State) {
    && (forall p: Pack :: p in s.packs ==> PackOk(s.packs[p]) && RouterOk(s.router, p, s.packs[p]))
    && (s.router.FanOut? ==> s.router.pack in s.packs)
    && SlotsOk(s)
  }

  predicate RunnerOk(r: MatchRunner) {
    r == NewRunner(r.buffered) || r == Started(NewRunner(r.buffered))
  }

  predicate IsStarted(runners: map<Matcher, MatchRunner>, m: Matcher) {
    m in runners && runners[m].started
  }

  /** Nothing is lost, and whoever may have to deliver has been started. */
  predicate PlaceOk(runners: map<Matcher, MatchRunner>, at: Place) {
    !at.Lost? && (at.Sending? || at.MatcherChan? || at.Matching? ==> IsStarted(runners, at.m))
  }

  predicate HoldersOk(runners: map<Matcher, MatchRunner>, holders: multiset<Place>) {
    forall at :: at in holders ==> PlaceOk(runners, at)
  }

  /** Only started matchers are listed or sent to. */
  ghost predicate Served(s: State) {
    && (forall m :: m in s.runners ==> RunnerOk(s.runners[m]))
    && (forall m: Matcher :: Listed(s, m) ==> IsStarted(s.runners, m))
    && (forall p: Pack :: p in s.packs ==> HoldersOk(s.runners, s.packs[p].holders))
  }

  /** Freshly made packs in their pools, an idle router, and distinct matchers of
    * started plugins in its slices (initMatchSlices lists what Start registered). */
  ghost predicate Init(s: State) {
    && (forall m :: m in s.runners ==> RunnerOk(s.runners[m]))
    && (forall m: Matcher :: Listed(s, m) ==> IsStarted(s.runners, m))
    && (forall p: Pack :: p in s.packs ==>
          s.packs[p] == PackState(s.packs[p].home, 1, Pooled, multiset{}, false, 0, 0))
    && s.router == Idle && s.closed == {} && SlotsOk(s)
  }

  lemma InitInv(s: State)
    requires Init(s)
    ensures Inv(s) && Served(s)
  {
  }

  /** Nobody holds a pack that is in its pool or on its way there. */
  lemma HolderIsLive(ps: PackState, at: Place)
    requires PackOk(ps) && at in ps.holders
    ensures ps.phase == Live
  {
  }

  // -------------------------------------------------------------- preservation

  lemma MovedOk(r: Router, p: Pack, ps: PackState, from: Place, to: Place)
    requires PackOk(ps) && ps.phase == Live && from in ps.holders
    ensures PackOk(Moved(ps, from, to))
    ensures RouterOk(r, p, ps) && !RouterPlace(from) && !RouterPlace(to) ==> RouterOk(r, p, Moved(ps, from, to))
  {
  }

  /** A recycle leaves the count equal to the references left; only the last one
    * out finds it at zero. */
  lemma ReleasedOk(r: Router, p: Pack, ps: PackState, from: Place)
    requires PackOk(ps) && ps.phase == Live && from in ps.holders
    ensures PackOk(Released(ps, from))
    ensures Released(ps, from).phase == Dying(false) <==> ps.holders == multiset{from}
    ensures RouterOk(r, p, ps) && !RouterPlace(from) ==> RouterOk(r, p, Released(ps, from))
  {
    hide RouterHolds;
    OneLess(ps.holders, from);
  }

  lemma OneLess(holders: multiset<Place>, from: Place)
    requires from in holders
    ensures var left := holders - multiset{from};
            && |left| == |holders| - 1 && (|left| == 0 <==> left == multiset{}) && (left == multiset{} <==> holders == multiset{from})
            && forall at :: at != from ==> left[at] == holders[at]
  {
    var left := holders - multiset{from};
    assert holders == left + multiset{from};
  }

  lemma GrabbedOk(ps: PackState, at: Place)
    requires PackOk(ps) && ps.phase == Live
    ensures PackOk(Grabbed(ps, at))
  {
  }

  /** The router's own reference keeps its pack alive throughout the fan-out. */
  lemma RoutedIsLive(s: State)
    requires Inv(s) && s.router.FanOut?
    ensures s.router.pack in s.packs && s.packs[s.router.pack].phase == Live
    ensures s.packs[s.router.pack].holders[Routing] == 1 && s.packs[s.router.pack].refCount >= 1
    ensures s.router.sending.Some? ==> s.packs[s.router.pack].holders[Sending(s.router.sending.value)] == 1
  {
    var ps := s.packs[s.router.pack];
    assert RouterPlace(Routing) && ps.holders[Routing] == RouterHolds(s.router, s.router.pack)[Routing] == 1;
    assert Routing in ps.holders;
    if s.router.sending.Some? {
      assert RouterPlace(Sending(s.router.sending.value));
    }
  }

  /** A step of anyone but the router touches one pack, outside its places. */
  predicate Local(s: State, p: Pack, ps: PackState, s': State) {
    p in s.packs && s' == SetPack(s, p, ps)
  }

  lemma LocalKeeps(s: State, p: Pack, ps: PackState, s': State)
    requires Inv(s) && Local(s, p, ps, s') && PackOk(ps) && RouterOk(s.router, p, ps)
    ensures Inv(s')
  {
    assert SlotsOk(s');
  }

  lemma LocalEffect(s: State, step: Step, s': State)
    requires Inv(s) && Next(s, step, s')
    requires step.Take? || step.Write? || step.HandOver? || step.Recycle? || step.Deliver? || step.Zero? || step.Return?
    ensures step.p in s.packs && step.p in s'.packs && Local(s, step.p, s'.packs[step.p], s')
    ensures PackOk(s'.packs[step.p]) && RouterOk(s.router, step.p, s'.packs[step.p])
  {
    hide SlotsOk, Added, Removed, Present, Moved, Released, Grabbed, Taken, Zeroed, Returned, Delivered, PackOk, RouterOk;
    var p := step.p;
    var ps := s.packs[p];
    match step {
      case Take(_, at) => TakenOk(s.router, p, ps, at);
      case Write(_, at) => HolderIsLive(ps, at); WrittenOk(s.router, p, ps);
      case Zero(_) => ZeroedOk(s.router, p, ps);
      case Return(_) => ReturnedOk(s.router, p, ps);
      case HandOver(_, at, to) => HolderIsLive(ps, at); MovedOk(s.router, p, ps, at, to);
      case Recycle(_, at) => HolderIsLive(ps, at); ReleasedOk(s.router, p, ps, at);
      case Deliver(_, m) => HolderIsLive(ps, Matching(m)); DeliveredOk(s.router, p, ps, m, s.runners[m]);
    }
  }

  lemma TakenOk(r: Router, p: Pack, ps: PackState, at: Place)
    requires PackOk(ps) && ps.phase == Pooled && RouterOk(r, p, ps) && !RouterPlace(at)
    ensures PackOk(Taken(ps, at)) && RouterOk(r, p, Taken(ps, at))
  {
    forall x: Place | RouterPlace(x) ensures Taken(ps, at).holders[x] == RouterHolds(r, p)[x] {
      assert ps.holders[x] == RouterHolds(r, p)[x];
    }
  }

  lemma WrittenOk(r: Router, p: Pack, ps: PackState)
    requires PackOk(ps) && ps.phase == Live && RouterOk(r, p, ps)
    ensures PackOk(ps.(dirty := true)) && RouterOk(r, p, ps.(dirty := true))
  {
  }

  lemma ZeroedOk(r: Router, p: Pack, ps: PackState)
    requires PackOk(ps) && ps.phase == Dying(false) && RouterOk(r, p, ps)
    ensures PackOk(Zeroed(ps)) && RouterOk(r, p, Zeroed(ps))
  {
  }

  lemma ReturnedOk(r: Router, p: Pack, ps: PackState)
    requires PackOk(ps) && ps.phase == Dying(true) && RouterOk(r, p, ps)
    ensures PackOk(Returned(ps)) && RouterOk(r, p, Returned(ps))
  {
  }

  lemma DeliveredOk(r: Router, p: Pack, ps: PackState, m: Matcher, runner: MatchRunner)
    requires PackOk(ps) && ps.phase == Live && Matching(m) in ps.holders && RouterOk(r, p, ps)
    ensures PackOk(Delivered(ps, m, runner)) && RouterOk(r, p, Delivered(ps, m, runner))
  {
    hide PackOk, RouterOk, Moved, Released;
    MovedOk(r, p, ps, Matching(m), PluginChan(m));
    MovedOk(r, p, ps, Matching(m), Lost(m));
    ReleasedOk(r, p, ps, Matching(m));
  }

  lemma LocalStep(s: State, step: Step, s': State)
    requires Inv(s) && Next(s, step, s')
    requires step.Take? || step.Write? || step.HandOver? || step.Recycle? || step.Deliver? || step.Zero? || step.Return?
    ensures Inv(s')
  {
    hide Inv;
    hide Next;
    LocalEffect(s, step, s');
    LocalKeeps(s, step.p, s'.packs[step.p], s');
  }

  /** A step of the router changes its own references and nobody else's. */
  lemma RouterKeeps(s: State, ps: PackState, r: Router, s': State, p: Pack)
    requires Inv(s) && p in s.packs && PackOk(ps) && RouterOk(r, p, ps)
    requires s' == SetPack(s, p, ps).(router := r)
    requires (s.router.FanOut? ==> s.router.pack == p) && (r.FanOut? ==> r.pack == p)
    requires SlotsOk(s')
    ensures Inv(s')
  {
    forall q: Pack | q in s'.packs && q != p ensures PackOk(s'.packs[q]) && RouterOk(r, q, s'.packs[q]) {
      assert RouterOk(s.router, q, s.packs[q]);
    }
  }

  lemma {:induction false} PresentListed(slots: seq<Option<Matcher>>)
    ensures forall m :: m in Present(slots) <==> Some(m) in slots
  {
    if slots != [] {
      PresentListed(slots[1..]);
      assert slots == [slots[0]] + slots[1..];
    }
  }

  lemma ReceiveStep(s: State, p: Pack, s': State)
    requires Inv(s) && Next(s, RouterReceive(p), s')
    ensures Inv(s')
  {
    hide Present, Distinct, PackOk, RouterOk, Moved;
    HolderIsLive(s.packs[p], RouterChan);
    ReceivedOk(p, s.packs[p], Present(s.fMatchers) + Present(s.oMatchers));
    FanOutListed(s, s');
    RouterKeeps(s, s'.packs[p], s'.router, s', p);
  }

  lemma ReceivedOk(p: Pack, ps: PackState, todo: seq<Matcher>)
    requires PackOk(ps) && ps.phase == Live && RouterChan in ps.holders && RouterOk(Idle, p, ps)
    ensures var ps' := Moved(ps, RouterChan, Routing); PackOk(ps') && RouterOk(FanOut(p, todo, None), p, ps')
  {
    MovedOk(Idle, p, ps, RouterChan, Routing);
  }

  lemma FanOutListed(s: State, s': State)
    requires SlotsOk(s) && s'.fMatchers == s.fMatchers && s'.oMatchers == s.oMatchers && s'.closed == s.closed
    requires s'.router.FanOut? && s'.router.todo == Present(s.fMatchers) + Present(s.oMatchers) && s'.router.sending == None
    ensures SlotsOk(s')
  {
    PresentListed(s.fMatchers);
    PresentListed(s.oMatchers);
  }

  lemma CountOk(r: Router, p: Pack, ps: PackState)
    requires r.FanOut? && r.pack == p && r.sending == None && r.todo != []
    requires PackOk(ps) && ps.phase == Live && RouterOk(r, p, ps)
    ensures var ps' := Grabbed(ps, Sending(r.todo[0]));
            PackOk(ps') && RouterOk(FanOut(p, r.todo[1..], Some(r.todo[0])), p, ps')
  {
    GrabbedOk(ps, Sending(r.todo[0]));
  }

  lemma SendOk(r: Router, p: Pack, ps: PackState)
    requires r.FanOut? && r.pack == p && r.sending.Some?
    requires PackOk(ps) && ps.phase == Live && RouterOk(r, p, ps) && Sending(r.sending.value) in ps.holders
    ensures var ps' := Moved(ps, Sending(r.sending.value), MatcherChan(r.sending.value));
            PackOk(ps') && RouterOk(r.(sending := None), p, ps')
  {
    MovedOk(r, p, ps, Sending(r.sending.value), MatcherChan(r.sending.value));
  }

  lemma LastRecycleOk(r: Router, p: Pack, ps: PackState)
    requires r.FanOut? && r.pack == p && r.sending == None
    requires PackOk(ps) && ps.phase == Live && RouterOk(r, p, ps) && Routing in ps.holders
    ensures PackOk(Released(ps, Routing)) && RouterOk(Idle, p, Released(ps, Routing))
  {
    ReleasedOk(r, p, ps, Routing);
  }

  lemma RouterStep(s: State, step: Step, s': State)
    requires Inv(s) && Next(s, step, s')
    requires step.RouterCount? || step.RouterSend? || step.RouterRecycle?
    ensures Inv(s')
  {
    hide Present, Distinct, Added, Removed, Moved, Released, Grabbed, PackOk, RouterOk;
    RoutedIsLive(s);
    var p := s.router.pack;
    var ps := s.packs[p];
    if step.RouterCount? {
      assert s.router.todo[0] in s.router.todo;
      assert forall m :: m in s.router.todo[1..] ==> m in s.router.todo;
      CountOk(s.router, p, ps);
    } else if step.RouterSend? {
      SendOk(s.router, p, ps);
    } else {
      LastRecycleOk(s.router, p, ps);
    }
    RouterKeeps(s, s'.packs[p], s'.router, s', p);
  }

  lemma AddedDistinct(slots: seq<Option<Matcher>>, m: Matcher, slots': seq<Option<Matcher>>)
    requires Distinct(slots) && Added(slots, m, slots')
    ensures Distinct(slots') && forall x: Matcher :: Some(x) in slots' <==> x == m || Some(x) in slots
  {
    if Some(m) !in slots && None in slots {
      var i :| 0 <= i < |slots| && slots[i] == None && slots' == slots[i := Some(m)];
      Replaced(slots, i, Some(m));
    }
  }

  lemma RemovedDistinct(slots: seq<Option<Matcher>>, m: Matcher, slots': seq<Option<Matcher>>)
    requires Distinct(slots) && Removed(slots, m, slots')
    ensures Distinct(slots') && forall x: Matcher :: Some(x) in slots' <==> x != m && Some(x) in slots
    ensures Some(m) in slots
  {
    var i :| 0 <= i < |slots| && slots[i] == Some(m) && slots' == slots[i := None];
    Replaced(slots, i, None);
    assert forall j :: 0 <= j < |slots| && j != i ==> slots[j] != Some(m);
  }

  lemma Replaced(slots: seq<Option<Matcher>>, i: nat, o: Option<Matcher>)
    requires i < |slots|
    ensures forall x :: x in slots && x != slots[i] ==> x in slots[i := o]
    ensures o in slots[i := o]
  {
    var slots' := slots[i := o];
    assert slots'[i] == o;
    forall x | x in slots && x != slots[i] ensures x in slots' {
      var j :| 0 <= j < |slots| && slots[j] == x;
      assert slots'[j] == x;
    }
  }

  lemma SlotStep(s: State, step: Step, s': State)
    requires Inv(s) && Next(s, step, s')
    requires step.AddMatcher? || step.RemoveFilter? || step.RemoveOutput? || step.NewPlugin? || step.StartPlugin?
    ensures Inv(s')
  {
    hide Added, Removed, Distinct, PackOk, RouterOk, Present;
    match step {
      case AddMatcher(m, slots) => AddedDistinct(s.fMatchers, m, slots);
      case RemoveFilter(m, slots) => RemovedDistinct(s.fMatchers, m, slots);
      case RemoveOutput(m, slots) => RemovedDistinct(s.oMatchers, m, slots);
      case _ =>
    }
    assert SlotsOk(s');
  }

  lemma CountKeeps(s: State, step: Step, s': State)
    requires Inv(s) && Next(s, step, s')
    ensures Inv(s')
  {
    hide Inv;
    hide Next;
    if step.RouterReceive? {
      ReceiveStep(s, step.p, s');
    } else if step.RouterCount? || step.RouterSend? || step.RouterRecycle? {
      RouterStep(s, step, s');
    } else if step.AddMatcher? || step.RemoveFilter? || step.RemoveOutput? || step.NewPlugin? || step.StartPlugin? {
      SlotStep(s, step, s');
    } else {
      LocalStep(s, step, s');
    }
  }

  // ------------------------------------------------------------ nothing is lost

  lemma MovesOk(runners: map<Matcher, MatchRunner>, ps: PackState, from: Place, to: Place)
    requires HoldersOk(runners, ps.holders)
    ensures HoldersOk(runners, Released(ps, from).holders)
    ensures PlaceOk(runners, to) ==> HoldersOk(runners, Moved(ps, from, to).holders)
    ensures PlaceOk(runners, to) ==> HoldersOk(runners, Grabbed(ps, to).holders)
    ensures PlaceOk(runners, to) ==> HoldersOk(runners, Taken(ps, to).holders)
  {
  }

  /** A started matcher has a way to deliver. */
  lemma CanDeliver(runners: map<Matcher, MatchRunner>, ps: PackState, m: Matcher)
    requires HoldersOk(runners, ps.holders) && IsStarted(runners, m) && RunnerOk(runners[m])
    ensures runners[m].bufFeeder || runners[m].matchChan
    ensures HoldersOk(runners, Delivered(ps, m, runners[m]).holders)
  {
    MovesOk(runners, ps, Matching(m), PluginChan(m));
  }

  lemma ServedPack(s: State, p: Pack, ps: PackState, s': State)
    requires Served(s) && p in s.packs && HoldersOk(s.runners, ps.holders)
    requires s'.packs == s.packs[p := ps] && s'.runners == s.runners
    requires s'.fMatchers == s.fMatchers && s'.oMatchers == s.oMatchers
    ensures Served(s')
  {
    hide HoldersOk, RunnerOk, IsStarted;
  }

  lemma ServeLocal(s: State, step: Step, s': State)
    requires Served(s) && Next(s, step, s')
    requires step.Take? || step.Write? || step.HandOver? || step.Recycle? || step.Deliver? || step.Zero? || step.Return?
    ensures Served(s')
  {
    hide Added, Removed, Present, Moved, Released, Grabbed, Taken, Delivered, RunnerOk, HoldersOk;
    var p := step.p;
    var ps := s.packs[p];
    match step {
      case Take(_, at) => MovesOk(s.runners, ps, at, at);
      case HandOver(_, at, to) => HolderServed(s, p, at); MovesOk(s.runners, ps, at, to);
      case Recycle(_, at) => MovesOk(s.runners, ps, at, RouterChan);
      case Deliver(_, m) => HolderServed(s, p, Matching(m)); CanDeliver(s.runners, ps, m);
      case _ =>
    }
    ServedPack(s, p, s'.packs[p], s');
  }

  lemma HolderServed(s: State, p: Pack, at: Place)
    requires Served(s) && Holds(s, p, at)
    ensures PlaceOk(s.runners, at)
  {
  }

  lemma ServeRouter(s: State, step: Step, s': State)
    requires Inv(s) && Served(s) && Next(s, step, s')
    requires step.RouterReceive? || step.RouterCount? || step.RouterSend? || step.RouterRecycle?
    ensures Served(s')
  {
    hide Added, Removed, Present, Moved, Released, Grabbed, RunnerOk, HoldersOk, PackOk, RouterOk;
    if step.RouterReceive? {
      MovesOk(s.runners, s.packs[step.p], RouterChan, Routing);
      ServedPack(s, step.p, s'.packs[step.p], s');
    } else {
      var p := s.router.pack;
      if step.RouterCount? {
        assert s.router.todo[0] in s.router.todo;
        MovesOk(s.runners, s.packs[p], Routing, Sending(s.router.todo[0]));
      } else if step.RouterSend? {
        var m := s.router.sending.value;
        MovesOk(s.runners, s.packs[p], Sending(m), MatcherChan(m));
      } else {
        MovesOk(s.runners, s.packs[p], Routing, Routing);
      }
      ServedPack(s, p, s'.packs[p], s');
    }
  }

  lemma AddedIn(slots: seq<Option<Matcher>>, m: Matcher, slots': seq<Option<Matcher>>)
    requires Added(slots, m, slots')
    ensures forall x: Matcher :: Some(x) in slots' ==> x == m || Some(x) in slots
  {
  }

  lemma RemovedIn(slots: seq<Option<Matcher>>, m: Matcher, slots': seq<Option<Matcher>>)
    requires Removed(slots, m, slots')
    ensures forall x: Matcher :: Some(x) in slots' ==> Some(x) in slots
  {
  }

  /** Only started matchers are ever listed. */
  lemma ServeSlots(s: State, step: Step, s': State)
    requires Served(s) && Next(s, step, s')
    requires step.AddMatcher? || step.RemoveFilter? || step.RemoveOutput?
    ensures Served(s')
  {
    hide Added, Removed, Present, RunnerOk, HoldersOk, IsStarted;
    match step {
      case AddMatcher(m, slots) => AddedIn(s.fMatchers, m, slots); assert IsStarted(s.runners, m) by { StartedNow(s.runners, m); }
      case RemoveFilter(m, slots) => RemovedIn(s.fMatchers, m, slots);
      case RemoveOutput(m, slots) => RemovedIn(s.oMatchers, m, slots);
    }
  }

  lemma StartedNow(runners: map<Matcher, MatchRunner>, m: Matcher)
    requires m in runners && runners[m].started
    ensures IsStarted(runners, m)
  {
  }

  /** A plugin is made and started once; one started stays so. */
  lemma ServePlugins(s: State, step: Step, s': State)
    requires Served(s) && Next(s, step, s') && (step.NewPlugin? || step.StartPlugin?)
    ensures Served(s')
  {
    hide Added, Removed, Present;
    var r := s'.runners[step.m];
    assert RunnerOk(r) && s'.runners == s.runners[step.m := r] && (step.m in s.runners ==> !s.runners[step.m].started);
    hide RunnerOk;
    forall m: Matcher | Listed(s', m) ensures IsStarted(s'.runners, m) {
      assert Listed(s, m);
    }
    forall p: Pack | p in s'.packs ensures HoldersOk(s'.runners, s'.packs[p].holders) {
      HoldersLater(s.runners, step.m, r, s.packs[p].holders);
    }
  }

  lemma HoldersLater(runners: map<Matcher, MatchRunner>, m: Matcher, r: MatchRunner, holders: multiset<Place>)
    requires HoldersOk(runners, holders) && (m in runners ==> !runners[m].started)
    ensures HoldersOk(runners[m := r], holders)
  {
  }

  /** Every step keeps both invariants. */
  lemma StepKeeps(s: State, step: Step, s': State)
    requires Inv(s) && Served(s) && Next(s, step, s')
    ensures Inv(s') && Served(s')
  {
    hide Inv, Next, Served;
    CountKeeps(s, step, s');
    if step.RouterReceive? || step.RouterCount? || step.RouterSend? || step.RouterRecycle? {
      ServeRouter(s, step, s');
    } else if step.NewPlugin? || step.StartPlugin? {
      ServePlugins(s, step, s');
    } else if step.AddMatcher? || step.RemoveFilter? || step.RemoveOutput? {
      ServeSlots(s, step, s');
    } else {
      ServeLocal(s, step, s');
    }
  }

  // ------------------------------------------------------------------ all runs

  ghost predicate Run(states: seq<State>, steps: seq<Step>) {
    && |states| == |steps| + 1 && Init(states[0])
    && forall i :: 0 <= i < |steps| ==> Next(states[i], steps[i], states[i + 1])
  }

  lemma {:induction false} RunInv(states: seq<State>, steps: seq<Step>, n: nat)
    requires Run(states, steps) && n < |states|
    ensures Inv(states[n]) && Served(states[n])
  {
    hide Inv, Next, Served;
    if n == 0 {
      InitInv(states[0]);
    } else {
      RunInv(states, steps, n - 1);
      assert Next(states[n - 1], steps[n - 1], states[n - 1 + 1]);
      StepKeeps(states[n - 1], steps[n - 1], states[n]);
    }
  }

  // --------------------------------------------------------------- the fan-out

  /** The router sends its pack to this matcher. */
  predicate Sends(s: State, step: Step, m: Matcher) {
    step == RouterSend && s.router.FanOut? && s.router.sending == Some(m)
  }

  /** How often a matcher is still to be sent to. */
  function Owed(r: Router, m: Matcher): nat
    requires r.FanOut?
  {
    multiset(r.todo)[m] + if r.sending == Some(m) then 1 else 0
  }

  lemma OwedStep(s: State, step: Step, s': State, m: Matcher)
    requires Next(s, step, s') && s.router.FanOut? && step != RouterRecycle
    ensures s'.router.FanOut? && s'.router.pack == s.router.pack
    ensures Owed(s'.router, m) + (if Sends(s, step, m) then 1 else 0) == Owed(s.router, m)
  {
    hide Added, Removed, Present, Passes, InHand, Holds;
    if step == RouterCount {
      assert s.router.todo == [s.router.todo[0]] + s.router.todo[1..];
    }
  }

  /** How often a matcher is sent to in steps `i` up to `n`. */
  function Sendings(states: seq<State>, steps: seq<Step>, i: nat, n: nat, m: Matcher): nat
    requires i <= n <= |steps| <= |states|
  {
    if n == i then 0 else Sendings(states, steps, i, n - 1, m) + if Sends(states[n - 1], steps[n - 1], m) then 1 else 0
  }

  lemma {:induction false} OwedOverRun(states: seq<State>, steps: seq<Step>, i: nat, n: nat, m: Matcher)
    requires Run(states, steps) && i <= n <= |steps| && states[i].router.FanOut?
    requires forall k :: i <= k < n ==> steps[k] != RouterRecycle
    ensures states[n].router.FanOut? && states[n].router.pack == states[i].router.pack
    ensures Owed(states[n].router, m) + Sendings(states, steps, i, n, m) == Owed(states[i].router, m)
  {
    hide Next, Init, Owed, Sends;
    if i < n {
      OwedOverRun(states, steps, i, n - 1, m);
      assert Next(states[n - 1], steps[n - 1], states[n - 1 + 1]);
      OwedStep(states[n - 1], steps[n - 1], states[n], m);
    }
  }

  lemma {:induction false} PresentOnce(slots: seq<Option<Matcher>>, m: Matcher)
    requires Distinct(slots)
    ensures multiset(Present(slots))[m] == if Some(m) in slots then 1 else 0
  {
    if slots != [] {
      PresentOnce(slots[1..], m);
      assert slots == [slots[0]] + slots[1..];
    }
  }

  /** What is counted once happens at exactly one step. */
  lemma {:induction false} CountedOnce(states: seq<State>, steps: seq<Step>, i: nat, n: nat, m: Matcher) returns (k: nat)
    requires i <= n <= |steps| <= |states| && Sendings(states, steps, i, n, m) <= 1
    ensures Sendings(states, steps, i, n, m) == 1 ==> i <= k < n && Sends(states[k], steps[k], m)
    ensures forall k' :: i <= k' < n && Sends(states[k'], steps[k'], m) ==> k' == k && Sendings(states, steps, i, n, m) == 1
  {
    hide Sends;
    k := i;
    if i < n {
      k := CountedOnce(states, steps, i, n - 1, m);
      if Sends(states[n - 1], steps[n - 1], m) {
        k := n - 1;
      }
    }
  }

  /** Between the router's receiving a pack and its recycling it, every matcher then
    * listed is sent that pack exactly once, and no other is sent anything. */
  lemma EveryMatcherOnce(states: seq<State>, steps: seq<Step>, i: nat, j: nat, p: Pack, m: Matcher) returns (k: nat)
    requires Run(states, steps) && i < j < |steps| && steps[i] == RouterReceive(p) && steps[j] == RouterRecycle
    requires forall n :: i < n < j ==> steps[n] != RouterRecycle
    ensures Some(m) in states[i].fMatchers || Some(m) in states[i].oMatchers ==>
              i < k < j && Sends(states[k], steps[k], m) && states[k].router.pack == p
    ensures forall n :: i < n < j && Sends(states[n], steps[n], m) ==>
              n == k && (Some(m) in states[i].fMatchers || Some(m) in states[i].oMatchers)
  {
    hide Inv, Served, Init, Sends, Owed, Sendings;
    RunInv(states, steps, i);
    assert Next(states[i], steps[i], states[i + 1]);
    assert Next(states[j], steps[j], states[j + 1]);
    AllOwed(states[i], p, states[i + 1], m);
    OwedOverRun(states, steps, i + 1, j, m);
    NothingOwed(states[j], states[j + 1], m);
    k := CountedOnce(states, steps, i + 1, j, m);
    if Some(m) in states[i].fMatchers || Some(m) in states[i].oMatchers {
      OwedOverRun(states, steps, i + 1, k, m);
    }
  }

  lemma AllOwed(s: State, p: Pack, s': State, m: Matcher)
    requires Inv(s) && Next(s, RouterReceive(p), s')
    ensures s'.router.FanOut? && s'.router.pack == p
    ensures Owed(s'.router, m) == if Some(m) in s.fMatchers || Some(m) in s.oMatchers then 1 else 0
  {
    hide Present, PackOk, RouterOk;
    PresentOnce(s.fMatchers, m);
    PresentOnce(s.oMatchers, m);
  }

  lemma NothingOwed(s: State, s': State, m: Matcher)
    requires Next(s, RouterRecycle, s')
    ensures s.router.FanOut? && Owed(s.router, m) == 0
  {
  }

  /** A matching pack goes to the queue of a plugin that is buffered, which ends that
    * reference, and into the channel of one that is not. */
  lemma DeliveredWhere(states: seq<State>, steps: seq<Step>, n: nat, p: Pack, m: Matcher)
    requires Run(states, steps) && n < |steps| && steps[n] == Deliver(p, m)
    ensures m in states[n].runners && p in states[n].packs && p in states[n + 1].packs
    ensures var before, after := states[n].packs[p].holders, states[n + 1].packs[p].holders;
            && Matching(m) in before
            && after == before - multiset{Matching(m)}
                        + if states[n].runners[m].buffered then multiset{} else multiset{PluginChan(m)}
  {
    hide Inv, Served, Init, RunnerOk;
    RunInv(states, steps, n);
    assert Next(states[n], steps[n], states[n + 1]);
    HolderServed(states[n], p, Matching(m));
    WayOf(states[n], m);
  }

  lemma WayOf(s: State, m: Matcher)
    requires Served(s) && IsStarted(s.runners, m)
    ensures s.runners[m].bufFeeder == s.runners[m].buffered && s.runners[m].matchChan == !s.runners[m].buffered
  {
  }

  /** What the router can do next while it has a pack. */
  lemma RouterGoesOn(s: State) returns (step: Step, s': State)
    requires Inv(s) && s.router.FanOut?
    ensures Next(s, step, s') && (step == RouterCount || step == RouterSend || step == RouterRecycle)
    ensures s.router.sending.Some? ==> step == RouterSend
  {
    hide PackOk, RouterOk, SlotsOk;
    var p := s.router.pack;
    var ps := s.packs[p];
    if s.router.sending.Some? {
      var m := s.router.sending.value;
      step := RouterSend;
      s' := SetPack(s, p, Moved(ps, Sending(m), MatcherChan(m))).(router := s.router.(sending := None));
    } else if s.router.todo != [] {
      var m := s.router.todo[0];
      step := RouterCount;
      s' := SetPack(s, p, Grabbed(ps, Sending(m))).(router := FanOut(p, s.router.todo[1..], Some(m)));
    } else {
      step := RouterRecycle;
      s' := SetPack(s, p, Released(ps, Routing)).(router := Idle);
    }
  }

  /** Where a reference that is not in the router's hands can go. */
  function Onward(at: Place): Place {
    match at
    case DecoderChan(d) => Decoding(d)
    case MatcherChan(m) => Matching(m)
    case PluginChan(m) => Running(m)
    case _ => RouterChan
  }

  /** In no run does a reference get stuck: wherever it is, there is a step that takes it
    * further, or the router is at work and has a step to take. */
  lemma NeverStuck(states: seq<State>, steps: seq<Step>, n: nat, p: Pack, at: Place) returns (step: Step, s': State)
    requires Run(states, steps) && n < |states| && Holds(states[n], p, at)
    ensures Next(states[n], step, s') && p in s'.packs
    ensures || s'.packs[p].holders[at] < states[n].packs[p].holders[at]
            || ((at == RouterChan || at == Routing) && states[n].router.FanOut? && step in {RouterCount, RouterSend, RouterRecycle})
  {
    hide Inv, Served, Init;
    var s := states[n];
    RunInv(states, steps, n);
    HolderServed(s, p, at);
    RouterPlaces(s, p, at);
    if InHand(at) {
      step, s' := Recycle(p, at), SetPack(s, p, Released(s.packs[p], at));
    } else if at == RouterChan && s.router == Idle {
      step := RouterReceive(p);
      s' := SetPack(s, p, Moved(s.packs[p], RouterChan, Routing)).(
              router := FanOut(p, Present(s.fMatchers) + Present(s.oMatchers), None));
    } else if at == RouterChan || at == Routing || at.Sending? {
      step, s' := RouterGoesOn(s);
      SamePack(s, step, s', p);
    } else {
      step, s' := HandOver(p, at, Onward(at)), SetPack(s, p, Moved(s.packs[p], at, Onward(at)));
    }
  }

  /** A reference in the router's hands is one of those it knows of. */
  lemma RouterPlaces(s: State, p: Pack, at: Place)
    requires Inv(s) && Holds(s, p, at)
    ensures at == Routing || at.Sending? ==> s.router.FanOut? && s.router.pack == p
    ensures at.Sending? ==> s.router.sending == Some(at.m)
  {
    hide PackOk, SlotsOk;
    if at == Routing || at.Sending? {
      assert RouterPlace(at) && s.packs[p].holders[at] == RouterHolds(s.router, p)[at];
    }
  }

  /** A pack whose last reference is gone is on its way back. */
  lemma DyingReturns(s: State, p: Pack) returns (step: Step, s': State)
    requires p in s.packs && s.packs[p].phase.Dying?
    ensures Next(s, step, s') && p in s'.packs && s'.packs[p].phase == if s.packs[p].phase.zeroed then Pooled else Dying(true)
  {
    if s.packs[p].phase.zeroed {
      step, s' := Return(p), SetPack(s, p, Returned(s.packs[p]));
    } else {
      step, s' := Zero(p), SetPack(s, p, Zeroed(s.packs[p]));
    }
  }

  /** The packs made for a pool, and those of them that are in it. */
  function Owned(s: State, h: Pool): set<Pack> {
    set p | p in s.packs && s.packs[p].home == h
  }

  function InPool(s: State, h: Pool): set<Pack> {
    set p | p in s.packs && s.packs[p].home == h && s.packs[p].phase == Pooled
  }

  function InFlight(s: State, h: Pool): set<Pack> {
    set p | p in s.packs && s.packs[p].home == h && s.packs[p].phase != Pooled
  }

  lemma SamePack(s: State, step: Step, s': State, p: Pack)
    requires Next(s, step, s')
    ensures p in s'.packs <==> p in s.packs
    ensures p in s.packs ==> s'.packs[p].home == s.packs[p].home
  {
    hide Added, Removed, Present, Passes, InHand;
  }

  lemma OwnedFixed(s: State, step: Step, s': State, h: Pool)
    requires Next(s, step, s')
    ensures Owned(s', h) == Owned(s, h)
  {
    hide Next;
    forall p: Pack ensures p in Owned(s', h) <==> p in Owned(s, h) {
      SamePack(s, step, s', p);
    }
  }

  lemma {:induction false} OwnedOverRun(states: seq<State>, steps: seq<Step>, n: nat, h: Pool)
    requires Run(states, steps) && n < |states|
    ensures Owned(states[n], h) == Owned(states[0], h)
  {
    hide Inv;
    hide Next;
    if n > 0 {
      RunInv(states, steps, n - 1);
      assert Next(states[n - 1], steps[n - 1], states[n - 1 + 1]);
      OwnedFixed(states[n - 1], steps[n - 1], states[n], h);
      OwnedOverRun(states, steps, n - 1, h);
    }
  }

  /** In every state of every run: a pack's count is the number of its references
    * while it is out, it is in its pool only when nobody refers to it and then it is
    * clean, it has come back exactly as often as it went out, and pool and packs in
    * flight add up to the packs made. */
  lemma PackSafety(states: seq<State>, steps: seq<Step>, n: nat, p: Pack, h: Pool)
    requires Run(states, steps) && n < |states| && p in states[n].packs
    ensures var ps := states[n].packs[p];
            && (ps.phase == Live ==> ps.refCount == |ps.holders| > 0 && ps.outs == ps.backs + 1)
            && (ps.phase != Live ==> ps.holders == multiset{})
            && (ps.phase == Pooled ==> ps.refCount == 1 && !ps.dirty && ps.outs == ps.backs)
    ensures |InPool(states[n], h)| + |InFlight(states[n], h)| == |Owned(states[0], h)|
  {
    RunInv(states, steps, n);
    OwnedOverRun(states, steps, n, h);
    var s := states[n];
    assert Owned(s, h) == InPool(s, h) + InFlight(s, h);
    assert InPool(s, h) !! InFlight(s, h);
  }

  /** The send on the recycle channel, whose capacity is the number of packs made
    * for the pool, always finds room. */
  lemma ReturnNeverBlocks(states: seq<State>, steps: seq<Step>, n: nat, p: Pack)
    requires Run(states, steps) && n < |states| && p in states[n].packs && states[n].packs[p].phase.Dying?
    ensures var h := states[n].packs[p].home; |InPool(states[n], h)| < |Owned(states[0], h)|
  {
    var s, h := states[n], states[n].packs[p].home;
    OwnedOverRun(states, steps, n, h);
    assert InPool(s, h) <= Owned(s, h) - {p};
    SubsetSize(InPool(s, h), Owned(s, h) - {p});
  }

  lemma {:induction false} SubsetSize(a: set<Pack>, b: set<Pack>)
    requires a <= b
    ensures |a| <= |b|
  {
    assert b == a + (b - a);
  }

  /** The router never sends to a matcher it has closed, and a pack it fans out
    * cannot be recycled under it by a quick matcher. */
  lemma FanOutSafe(states: seq<State>, steps: seq<Step>, n: nat)
    requires Run(states, steps) && n < |states| && states[n].router.FanOut?
    ensures var s := states[n]; var p := s.router.pack;
            && p in s.packs && s.packs[p].phase == Live && s.packs[p].refCount >= 1
            && (s.router.sending.Some? ==> s.router.sending.value !in s.closed && s.packs[p].refCount >= 2)
  {
    RunInv(states, steps, n);
    RoutedIsLive(states[n]);
    var s := states[n];
    var ps := s.packs[s.router.pack];
    if s.router.sending.Some? {
      var two := multiset{Routing, Sending(s.router.sending.value)};
      assert two <= ps.holders;
      assert ps.holders == two + (ps.holders - two);
    }
  }

  /** No reference is ever lost, and the branch of deliver that would lose one, for a
    * matcher with neither a queue nor a channel, is never taken. */
  lemma NoneLost(states: seq<State>, steps: seq<Step>, n: nat, p: Pack, m: Matcher)
    requires Run(states, steps) && n < |states| && p in states[n].packs
    ensures states[n].packs[p].holders[Lost(m)] == 0
    ensures n < |steps| && steps[n] == Deliver(p, m) ==>
              m in states[n].runners && (states[n].runners[m].bufFeeder || states[n].runners[m].matchChan)
  {
    RunInv(states, steps, n);
    var s := states[n];
    assert Lost(m) in s.packs[p].holders ==> PlaceOk(s.runners, Lost(m));
    if n < |steps| && steps[n] == Deliver(p, m) {
      assert Next(s, steps[n], states[n + 1]);
      HolderServed(s, p, Matching(m));
      CanDeliver(s.runners, s.packs[p], m);
    }
  }

  // ---------------------------------------------------------- the router's slices

  /** Adding a filter's matcher: nothing if it is there already, else the last free
    * slot, else a new one. */
  method AddFilterMatcher(fMatchers: seq<Option<Matcher>>, matcher: Matcher) returns (slots: seq<Option<Matcher>>)
    ensures Added(fMatchers, matcher, slots)
  {
    var known, available, i := false, -1, 0;
    while i < |fMatchers| && !known
      invariant 0 <= i <= |fMatchers|
      invariant known <==> Some(matcher) in fMatchers[..i]
      invariant -1 <= available < i
      invariant available != -1 ==> fMatchers[available] == None
      invariant available == -1 ==> None !in fMatchers[..i]
    {
      if fMatchers[i].None? {
        available := i;
      }
      if fMatchers[i] == Some(matcher) {
        known := true;
      }
      i := i + 1;
    }
    if known {
      return fMatchers;
    }
    assert fMatchers[..i] == fMatchers;
    return if available != -1 then fMatchers[available := Some(matcher)] else fMatchers + [Some(matcher)];
  }

  /** Removing a matcher clears its slot and closes it; an unknown one is ignored. */
  method RemoveMatcher(matchers: seq<Option<Matcher>>, matcher: Matcher)
    returns (slots: seq<Option<Matcher>>, close: bool)
    ensures close <==> Some(matcher) in matchers
    ensures if close then Removed(matchers, matcher, slots) else slots == matchers
  {
    for i := 0 to |matchers|
      invariant Some(matcher) !in matchers[..i]
    {
      if matchers[i] == Some(matcher) {
        return matchers[i := None], true;
      }
    }
    return matchers, false;
  }
}

/** A pack as an object, and the recycle channel it goes back to. */
module PipelinePacks {
  import opened Bytes
  import opened Wire

  class RecycleChan {
    var queue: seq<PipelinePack>
    const capacity: nat

    constructor (capacity: nat)
      ensures queue == [] && this.capacity == capacity
    {
      queue, this.capacity := [], capacity;
    }
  }

  class PipelinePack {
    var msgBytes: seq<byte>
    var message: Message
    var refCount: int
    var msgLoopCount: nat
    var signer: seq<byte>
    var trustMsgBytes: bool
    var queueCursor: seq<byte>
    const bufferedPack: bool
    const recycleChan: RecycleChan

    constructor (recycleChan: RecycleChan, bufferedPack: bool)
      ensures Clean() && this.recycleChan == recycleChan && this.bufferedPack == bufferedPack
      ensures message == EmptyMessage.(severity := Some(7)) && queueCursor == []
    {
      message := EmptyMessage.(severity := Some(7));
      msgBytes, refCount, msgLoopCount, signer, trustMsgBytes, queueCursor := [], 1, 0, [], false, [];
      this.recycleChan, this.bufferedPack := recycleChan, bufferedPack;
    }

    /** Ready for its next use: one reference, and nothing of the last one but, on a
      * pack not owned by a buffered plugin, its queue cursor.  A message without a
      * severity reads as one of severity 7. */
    ghost predicate Clean()
      reads this
    {
      && message.(severity := None) == EmptyMessage && message.severity in {None, Some(7)}
      && refCount == 1 && msgBytes == [] && msgLoopCount == 0 && signer == [] && !trustMsgBytes
      && (bufferedPack ==> queueCursor == [])
    }

    method Zero()
      modifies this
      ensures Clean() && message == EmptyMessage
      ensures !bufferedPack ==> queueCursor == old(queueCursor)
    {
      msgBytes := [];
      refCount := 1;
      msgLoopCount := 0;
      signer := [];
      trustMsgBytes := false;
      if bufferedPack {
        queueCursor := [];
      }
      message := EmptyMessage;
    }

    /** recycle: only the last reference sends its pack back, and sends it clean. */
    method Recycle()
      requires refCount == 1 ==> |recycleChan.queue| < recycleChan.capacity
      modifies this, recycleChan
      ensures old(refCount) == 1 ==> Clean() && recycleChan.queue == old(recycleChan.queue) + [this]
      ensures old(refCount) != 1 ==>
                && refCount == old(refCount) - 1 && recycleChan.queue == old(recycleChan.queue)
                && msgBytes == old(msgBytes) && message == old(message) && signer == old(signer) && msgLoopCount == old(msgLoopCount)
    {
      refCount := refCount - 1;
      if refCount == 0 {
        Zero();
        recycleChan.queue := recycleChan.queue + [this];
      }
    }
  }
}
