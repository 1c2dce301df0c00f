/**
 The multitouch observer (Linux multitouch protocol, type B): it starts without knowing the device's
 slot or contacts and must never count more contacts than there are.
 */
module Touch {
  import opened Outcomes

  datatype Event =
    | BtnTouch(value: int)
    | SynReport
    | MtSlot(value: int)
    | MtId(value: int)
    | Other            // other axes and keys, and events of other devices

  /** The tracker's fields. */
  datatype Tracker = Tracker(minSlot: int, maxSlot: int, active: map<int, int>, slot: int, slotKnown: bool,
                             synced: bool, touchKnown: bool, touchDown: bool, invalid: bool, peak: nat, unknownIds: nat)

  ghost predicate Duplicate(active: map<int, int>) {
    exists a, b :: a in active && b in active && a != b && active[a] == active[b]
  }

  function Max(a: nat, b: nat): nat {
    if a < b then b else a
  }

  /** `observe`, as a function of the fields. */
  ghost function Observed(t: Tracker, e: Event): Tracker {
    match e
    case Other => t
    case BtnTouch(v) =>
      if v != 0 && v != 1 then t.(invalid := true) else t.(touchKnown := true, touchDown := v == 1)
    case SynReport =>
      if t.touchKnown && !t.touchDown then t.(synced := true, active := map[], slotKnown := false)
      else if t.synced && t.touchKnown && t.touchDown then
        if Duplicate(t.active) then t.(invalid := true) else t.(peak := Max(t.peak, |t.active|))
      else t
    case MtSlot(v) =>
      if !t.synced then t
      else
        var known := t.minSlot <= v <= t.maxSlot;
        t.(slot := v, slotKnown := known, invalid := t.invalid || !known)
    case MtId(v) =>
      if !t.synced then t
      else if v < -1 then t.(invalid := true)
      else if !t.slotKnown then t.(unknownIds := t.unknownIds + 1)
      else if v == -1 then t.(active := t.active - {t.slot})
      else t.(active := t.active[t.slot := v])
  }

  class TouchTracker {
    const minSlot: int
    const maxSlot: int
    var active: map<int, int>
    var slot: int
    var slotKnown: bool
    var synced: bool
    var touchKnown: bool
    var touchDown: bool
    var invalid: bool
    var peak: nat
    var unknownIds: nat

    constructor (minSlot: int, maxSlot: int)
      ensures State() == Fresh(minSlot, maxSlot)
    {
      this.minSlot, this.maxSlot := minSlot, maxSlot;
      active, slot, slotKnown, synced := map[], 0, false, false;
      touchKnown, touchDown, invalid, peak, unknownIds := false, false, false, 0, 0;
    }

    function State(): Tracker
      reads this
    {
      Tracker(minSlot, maxSlot, active, slot, slotKnown, synced, touchKnown, touchDown, invalid, peak, unknownIds)
    }

    /** The scan of one completed frame for a tracking ID that two slots share. */
    method SharesId() returns (shared: bool)
      ensures shared <==> Duplicate(active)
    {
      var seen: set<int> := {};
      var todo := active.Keys;
      while exists s :: s in todo
        invariant todo <= active.Keys
        invariant forall id :: id in seen <==> exists a :: a in active.Keys - todo && active[a] == id
        invariant forall a, b :: a in active.Keys - todo && b in active.Keys - todo && a != b ==> active[a] != active[b]
        decreases todo
      {
        var s :| s in todo;
        if active[s] in seen {
          return true;
        }
        ghost var done := active.Keys - todo;
        todo := todo - {s};
        assert active.Keys - todo == done + {s};
        seen := seen + {active[s]};
      }
      return false;
    }

    method Observe(e: Event)
      modifies this
      ensures State() == Observed(old(State()), e)
    {
      match e
      case Other =>
      case BtnTouch(v) =>
        if v != 0 && v != 1 {
          invalid := true;
          return;
        }
        touchKnown, touchDown := true, v == 1;
      case SynReport =>
        if touchKnown && !touchDown {
          synced, active, slotKnown := true, map[], false;
          return;
        }
        if synced && touchKnown && touchDown {
          var shared := SharesId();
          if shared {
            invalid := true;
            return;
          }
          peak := if peak < |active| then |active| else peak;
        }
      case MtSlot(v) =>
        if !synced {
          return;
        }
        slot := v;
        slotKnown := minSlot <= v <= maxSlot;
        invalid := invalid || !slotKnown;
      case MtId(v) =>
        if !synced {
          return;
        }
        if v < -1 {
          invalid := true;
          return;
        }
        if !slotKnown {
          unknownIds := unknownIds + 1;
          return;
        }
        if v == -1 {
          active := active - {slot};
        } else {
          active := active[slot := v];
        }
    }
  }

  // ----- the device behind the events

  /** The device's own slot and contacts, which the tracker cannot see; the largest number of
      contacts at a completed frame, over all frames (`best`) and over those the tracker is
      synchronized for (`since`). `exact` holds while no tracking ID went unused since the last
      neutral frame, `always` while that was so at every frame. */
  datatype World = World(t: Tracker, slot: int, contacts: map<int, int>, best: nat, since: nat,
                         exact: bool, always: bool)

  function Fresh(minSlot: int, maxSlot: int): Tracker {
    Tracker(minSlot, maxSlot, map[], 0, false, false, false, false, false, 0, 0)
  }

  /** Any slot, any contacts. */
  function Unknown(minSlot: int, maxSlot: int, slot: int, contacts: map<int, int>): World {
    World(Fresh(minSlot, maxSlot), slot, contacts, 0, 0, true, true)
  }

  ghost function Next(w: World, e: Event): World {
    var t := Observed(w.t, e);
    match e
    case Other => w.(t := t)
    case BtnTouch(_) => w.(t := t)
    case MtSlot(v) => w.(t := t, slot := v)
    case MtId(v) =>
      var missed := w.t.synced && !w.t.slotKnown && v >= -1;
      var c := if v == -1 then w.contacts - {w.slot} else if v >= 0 then w.contacts[w.slot := v] else w.contacts;
      w.(t := t, contacts := c, exact := w.exact && !missed)
    case SynReport =>
      var neutral := w.t.touchKnown && !w.t.touchDown;
      var exact := w.exact || neutral;
      w.(t := t, best := Max(w.best, |w.contacts|), since := if t.synced then Max(w.since, |w.contacts|) else w.since,
         exact := exact, always := w.always && (exact || !t.synced))
  }

  ghost function After(w: World, es: seq<Event>): World
    decreases |es|
  {
    if es == [] then w else After(Next(w, es[0]), es[1..])
  }

  predicate SubMap(a: map<int, int>, b: map<int, int>) {
    forall s :: s in a ==> s in b && b[s] == a[s]
  }

  /** What holds of a tracker that has not flagged itself, whatever the device did. */
  predicate Sound(w: World) {
    w.t.invalid ||
    (&& SubMap(w.t.active, w.contacts)
     && (w.t.slotKnown ==> w.t.synced && w.t.slot == w.slot)
     && (!w.t.slotKnown ==> w.t.active == map[])
     && w.t.peak <= w.best)
  }

  lemma SubsetSize(a: set<int>, b: set<int>)
    requires a <= b
    ensures |a| <= |b|
  {
    assert b == a + (b - a);
  }

  lemma SubMapSize(a: map<int, int>, b: map<int, int>)
    requires SubMap(a, b)
    ensures |a| <= |b|
  {
    assert forall s :: s in a.Keys ==> s in b.Keys;
    SubsetSize(a.Keys, b.Keys);
    assert |a| == |a.Keys| && |b| == |b.Keys|;
  }

  lemma SoundFrame(w: World)
    requires Sound(w)
    ensures Sound(Next(w, SynReport))
  {
    hide Duplicate;
    if !w.t.invalid {
      SubMapSize(w.t.active, w.contacts);
    }
  }

  lemma SoundStep(w: World, e: Event)
    requires Sound(w)
    ensures Sound(Next(w, e))
  {
    hide Duplicate, Max;
    if e == SynReport {
      SoundFrame(w);
    }
  }

  lemma {:induction false} SoundRun(w: World, es: seq<Event>)
    requires Sound(w)
    ensures Sound(After(w, es))
    decreases |es|
  {
    if es != [] {
      hide Sound, Next;
      SoundStep(w, es[0]);
      SoundRun(Next(w, es[0]), es[1..]);
    }
  }

  /** For every unknown initial device state and every event sequence: while the tracker has not
      flagged itself, its contacts are contacts the device has, and its peak never exceeds the
      largest number of contacts at a completed frame. */
  lemma NeverOverCounts(minSlot: int, maxSlot: int, slot: int, contacts: map<int, int>, es: seq<Event>)
    ensures var w := After(Unknown(minSlot, maxSlot, slot, contacts), es);
            !w.t.invalid ==> SubMap(w.t.active, w.contacts) && w.t.peak <= w.best
  {
    SoundRun(Unknown(minSlot, maxSlot, slot, contacts), es);
  }

  // ----- when the count is exact

  /** The device's promise: at a frame, BTN_TOUCH is released only when no contact is left. */
  ghost predicate Honest(w: World, es: seq<Event>)
    decreases |es|
  {
    es == [] ||
    (&& (es[0] == SynReport && w.t.touchKnown && !w.t.touchDown ==> w.contacts == map[])
     && Honest(Next(w, es[0]), es[1..]))
  }

  predicate Exact(w: World) {
    && (w.t.unknownIds == 0 ==> w.exact && w.always)
    && (w.t.invalid || Matching(w))
  }

  /** The tracker and the device agree as far as no tracking ID was missed. */
  predicate Matching(w: World) {
    (&& (w.t.synced ==> w.t.touchKnown)
     && (w.t.slotKnown ==> w.t.synced && w.t.slot == w.slot)
     && (w.exact && w.t.synced ==> w.t.active == w.contacts)
     && (!w.t.synced ==> w.t.peak == w.since == 0)
     && (w.always ==> w.t.peak == w.since))
  }

  lemma ExactStep(w: World, e: Event)
    requires Exact(w) && Honest(w, [e])
    ensures Exact(Next(w, e))
  {
  }

  lemma {:induction false} ExactRun(w: World, es: seq<Event>)
    requires Exact(w) && Honest(w, es)
    ensures Exact(After(w, es))
    decreases |es|
  {
    if es != [] {
      hide Exact, Next;
      assert Honest(w, [es[0]]);
      ExactStep(w, es[0]);
      ExactRun(Next(w, es[0]), es[1..]);
    }
  }

  /** With an honest device and no tracking ID left unused, the tracker is exact: its contacts are
      the device's, and its peak is the largest number at a frame since it synchronized. When it
      counted no unknown ID, none was left unused. */
  lemma ExactWhenNothingMissed(minSlot: int, maxSlot: int, slot: int, contacts: map<int, int>, es: seq<Event>)
    requires Honest(Unknown(minSlot, maxSlot, slot, contacts), es)
    ensures var w := After(Unknown(minSlot, maxSlot, slot, contacts), es);
            && (!w.t.invalid && w.t.synced && w.exact ==> w.t.active == w.contacts)
            && (!w.t.invalid && w.always ==> w.t.peak == w.since)
            && (w.t.unknownIds == 0 ==> w.exact && w.always)
  {
    ExactRun(Unknown(minSlot, maxSlot, slot, contacts), es);
  }

  // ----- when the tracker flags itself, on the events alone

  datatype Range = Range(min: int, max: int)

  /** The last touch state that was reported. */
  function Down(es: seq<Event>): Option<bool> {
    if es == [] then None
    else
      match es[|es| - 1]
      case BtnTouch(0) => Some(false)
      case BtnTouch(1) => Some(true)
      case _ => Down(es[..|es| - 1])
  }

  /** The event at `i` closes a frame without touch. */
  predicate Neutral(es: seq<Event>, i: nat) {
    i < |es| && es[i] == SynReport && Down(es[..i]) == Some(false)
  }

  predicate Synced(es: seq<Event>) {
    exists i: nat | i < |es| :: Neutral(es, i)
  }

  /** The slot selected since the last neutral frame, if it is one of the device's. */
  function SlotNow(es: seq<Event>, g: Range): Option<int> {
    if es == [] then None
    else
      var (before, e) := (es[..|es| - 1], es[|es| - 1]);
      match e
      case MtSlot(v) => if Synced(before) && g.min <= v <= g.max then Some(v) else None
      case _ => if Neutral(es, |es| - 1) then None else SlotNow(before, g)
  }

  /** The contact last reported for slot `k` since the last neutral frame. */
  function IdNow(es: seq<Event>, g: Range, k: int): Option<int> {
    if es == [] || Neutral(es, |es| - 1) then None
    else
      var (before, e) := (es[..|es| - 1], es[|es| - 1]);
      if e.MtId? && e.value >= -1 && Synced(before) && SlotNow(before, g) == Some(k) then
        if e.value == -1 then None else Some(e.value)
      else IdNow(before, g, k)
  }

  /** How many IDs came while no slot was selected, since there was a neutral frame. */
  function Unplaced(es: seq<Event>, g: Range): nat {
    if es == [] then 0
    else
      var (before, e) := (es[..|es| - 1], es[|es| - 1]);
      Unplaced(before, g) + if e.MtId? && e.value >= -1 && Synced(before) && SlotNow(before, g).None? then 1 else 0
  }

  ghost predicate Shared(es: seq<Event>, g: Range) {
    exists a, b :: a != b && IdNow(es, g, a).Some? && IdNow(es, g, a) == IdNow(es, g, b)
  }

  /** The event at `i` is one that no device should send: a touch value other than 0 and 1; once there was a neutral
      frame, a slot outside the range or an ID below -1; or the end of a touched frame with an ID in two slots. */
  ghost predicate Fault(es: seq<Event>, g: Range, i: nat) {
    && i < |es|
    && var before := es[..i];
    match es[i]
    case BtnTouch(v) => v != 0 && v != 1
    case MtSlot(v) => Synced(before) && !(g.min <= v <= g.max)
    case MtId(v) => Synced(before) && v < -1
    case SynReport => Synced(before) && Down(before) == Some(true) && Shared(before, g)
    case Other => false
  }

  ghost predicate Faulty(es: seq<Event>, g: Range) {
    exists i: nat :: Fault(es, g, i)
  }

  /** The tracker after the events, on its own. */
  ghost function Watched(es: seq<Event>, g: Range): Tracker {
    if es == [] then Fresh(g.min, g.max) else Observed(Watched(es[..|es| - 1], g), es[|es| - 1])
  }

  /** The tracker's fields say what the events say. */
  ghost predicate Tracks(t: Tracker, es: seq<Event>, g: Range) {
    && t.minSlot == g.min && t.maxSlot == g.max
    && (t.touchKnown <==> Down(es).Some?) && (t.touchKnown ==> t.touchDown == Down(es).value)
    && (t.synced <==> Synced(es)) && (t.slotKnown ==> t.synced)
    && (t.slotKnown <==> SlotNow(es, g).Some?) && (t.slotKnown ==> t.slot == SlotNow(es, g).value)
    && (forall k :: k in t.active <==> IdNow(es, g, k).Some?)
    && (forall k :: k in t.active ==> t.active[k] == IdNow(es, g, k).value)
    && t.unknownIds == Unplaced(es, g)
    && (t.invalid <==> Faulty(es, g))
  }

  lemma SyncedStep(es: seq<Event>)
    requires es != []
    ensures Synced(es) <==> Synced(es[..|es| - 1]) || Neutral(es, |es| - 1)
  {
    var before := es[..|es| - 1];
    forall i: nat | i < |before| ensures Neutral(es, i) <==> Neutral(before, i) {
      assert es[..i] == before[..i];
    }
    if Synced(es) {
      var i: nat :| i < |es| && Neutral(es, i);
      assert i < |before| ==> Neutral(before, i);
    }
    if Synced(before) {
      var i: nat :| i < |before| && Neutral(before, i);
      assert Neutral(es, i);
    }
  }

  lemma FaultyStep(es: seq<Event>, g: Range)
    requires es != []
    ensures Faulty(es, g) <==> Faulty(es[..|es| - 1], g) || Fault(es, g, |es| - 1)
  {
    hide Synced, Shared, Down;
    var before := es[..|es| - 1];
    forall i: nat | i < |before| ensures Fault(es, g, i) <==> Fault(before, g, i) {
      assert es[..i] == before[..i] && es[i] == before[i];
    }
    if Faulty(es, g) {
      var i: nat :| Fault(es, g, i);
      assert i < |before| ==> Fault(before, g, i);
    }
    if Faulty(before, g) {
      var i: nat :| Fault(before, g, i);
      assert Fault(es, g, i);
    }
  }

  lemma SharedIsDuplicate(t: Tracker, es: seq<Event>, g: Range)
    requires Tracks(t, es, g)
    ensures Duplicate(t.active) <==> Shared(es, g)
  {
    hide Faulty, Synced, IdNow, SlotNow, Down, Unplaced;
    if Duplicate(t.active) {
      var a, b :| a in t.active && b in t.active && a != b && t.active[a] == t.active[b];
      assert IdNow(es, g, a).Some? && IdNow(es, g, a) == IdNow(es, g, b);
    }
    if Shared(es, g) {
      var a, b :| a != b && IdNow(es, g, a).Some? && IdNow(es, g, a) == IdNow(es, g, b);
      assert a in t.active && b in t.active && t.active[a] == t.active[b];
    }
  }

  lemma TracksTouch(t: Tracker, es: seq<Event>, g: Range)
    requires es != [] && Tracks(t, es[..|es| - 1], g) && (es[|es| - 1].BtnTouch? || es[|es| - 1].Other?)
    ensures Tracks(Observed(t, es[|es| - 1]), es, g)
  {
    hide Synced, Shared, Faulty, Duplicate, Max;
    SyncedStep(es);
    FaultyStep(es, g);
    SharedIsDuplicate(t, es[..|es| - 1], g);
  }

  lemma TracksFrame(t: Tracker, es: seq<Event>, g: Range)
    requires es != [] && Tracks(t, es[..|es| - 1], g) && es[|es| - 1].SynReport?
    ensures Tracks(Observed(t, es[|es| - 1]), es, g)
  {
    hide Synced, Shared, Faulty, Duplicate, Max;
    SyncedStep(es);
    FaultyStep(es, g);
    SharedIsDuplicate(t, es[..|es| - 1], g);
  }

  lemma TracksSlot(t: Tracker, es: seq<Event>, g: Range)
    requires es != [] && Tracks(t, es[..|es| - 1], g) && es[|es| - 1].MtSlot?
    ensures Tracks(Observed(t, es[|es| - 1]), es, g)
  {
    hide Synced, Shared, Faulty, Duplicate, Max;
    SyncedStep(es);
    FaultyStep(es, g);
    SharedIsDuplicate(t, es[..|es| - 1], g);
  }

  lemma TracksId(t: Tracker, es: seq<Event>, g: Range)
    requires es != [] && Tracks(t, es[..|es| - 1], g) && es[|es| - 1].MtId?
    ensures Tracks(Observed(t, es[|es| - 1]), es, g)
  {
    hide Synced, Shared, Faulty, Duplicate, Max;
    SyncedStep(es);
    FaultyStep(es, g);
    SharedIsDuplicate(t, es[..|es| - 1], g);
  }

  lemma TracksStep(t: Tracker, es: seq<Event>, g: Range)
    requires es != [] && Tracks(t, es[..|es| - 1], g)
    ensures Tracks(Observed(t, es[|es| - 1]), es, g)
  {
    hide Tracks, Observed;
    match es[|es| - 1]
    case Other => TracksTouch(t, es, g);
    case BtnTouch(_) => TracksTouch(t, es, g);
    case SynReport => TracksFrame(t, es, g);
    case MtSlot(_) => TracksSlot(t, es, g);
    case MtId(_) => TracksId(t, es, g);
  }

  lemma {:induction false} TracksAll(es: seq<Event>, g: Range)
    ensures Tracks(Watched(es, g), es, g)
  {
    if es != [] {
      hide Tracks, Observed;
      TracksAll(es[..|es| - 1], g);
      TracksStep(Watched(es[..|es| - 1], g), es, g);
    }
  }

  lemma {:induction false} AfterSnoc(w: World, es: seq<Event>, e: Event)
    ensures After(w, es + [e]) == Next(After(w, es), e)
    decreases |es|
  {
    if es == [] {
      assert es + [e] == [e] && [e][1..] == [];
    } else {
      hide Next;
      assert (es + [e])[1..] == es[1..] + [e];
      AfterSnoc(Next(w, es[0]), es[1..], e);
    }
  }

  /** The device behind the events does not matter to the tracker. */
  lemma {:induction false} WatchedIsAfter(g: Range, slot: int, contacts: map<int, int>, es: seq<Event>)
    ensures After(Unknown(g.min, g.max, slot, contacts), es).t == Watched(es, g)
  {
    if es != [] {
      var (w, before, e) := (Unknown(g.min, g.max, slot, contacts), es[..|es| - 1], es[|es| - 1]);
      WatchedIsAfter(g, slot, contacts, before);
      AfterSnoc(w, before, e);
      assert es == before + [e];
      NextTracks(After(w, before), e);
    }
  }

  lemma NextTracks(w: World, e: Event)
    ensures Next(w, e).t == Observed(w.t, e)
  {
    hide Observed;
  }

  /** Exactly when the tracker flags itself: for every unknown start and every event sequence, if and only if one of
      the events was a fault. The other fields are what the events say, too. */
  lemma FlaggedExactly(g: Range, slot: int, contacts: map<int, int>, es: seq<Event>)
    ensures var t := After(Unknown(g.min, g.max, slot, contacts), es).t;
            && (t.invalid <==> exists i: nat :: Fault(es, g, i))
            && t.unknownIds == Unplaced(es, g)
            && (t.synced <==> Synced(es)) && (t.touchKnown && t.touchDown <==> Down(es) == Some(true))
            && (forall k :: k in t.active <==> IdNow(es, g, k).Some?)
            && (forall k :: k in t.active ==> t.active[k] == IdNow(es, g, k).value)
  {
    hide Fault, IdNow, SlotNow, Down, Watched, Synced, Unplaced;
    WatchedIsAfter(g, slot, contacts, es);
    TracksAll(es, g);
  }

  // ----- a well-behaved device

  /** Touch values, slots and IDs in range, and at a frame no ID in two slots of the device. */
  ghost predicate Proper(w: World, es: seq<Event>)
    decreases |es|
  {
    es == [] ||
    (&& (match es[0]
         case BtnTouch(v) => v == 0 || v == 1
         case MtSlot(v) => w.t.minSlot <= v <= w.t.maxSlot
         case MtId(v) => v >= -1
         case SynReport => !Duplicate(w.contacts)
         case Other => true)
     && Proper(Next(w, es[0]), es[1..]))
  }

  lemma ProperStep(w: World, e: Event)
    requires Sound(w) && !w.t.invalid && Proper(w, [e])
    ensures !Next(w, e).t.invalid
  {
    hide Max, Duplicate, SubMap;
    DuplicatePart(w.t.active, w.contacts);
  }

  lemma DuplicatePart(a: map<int, int>, b: map<int, int>)
    requires SubMap(a, b)
    ensures Duplicate(a) ==> Duplicate(b)
  {
    if Duplicate(a) {
      var i, j :| i in a && j in a && i != j && a[i] == a[j];
      assert i in b && j in b && b[i] == b[j];
    }
  }

  lemma {:induction false} ProperNeverFlagged(w: World, es: seq<Event>)
    requires Sound(w) && !w.t.invalid && Proper(w, es)
    ensures !After(w, es).t.invalid
    decreases |es|
  {
    if es != [] {
      hide Sound, Next;
      assert Proper(w, [es[0]]);
      ProperStep(w, es[0]);
      SoundStep(w, es[0]);
      ProperNeverFlagged(Next(w, es[0]), es[1..]);
    }
  }

  /** On a well-behaved device the count is exact, with no way out: while no ID was unknown, the peak is the largest
      number of contacts at a frame since the tracker synchronized, and the contacts are the device's. */
  lemma ExactOnProperDevice(minSlot: int, maxSlot: int, slot: int, contacts: map<int, int>, es: seq<Event>)
    requires var w := Unknown(minSlot, maxSlot, slot, contacts); Honest(w, es) && Proper(w, es)
    ensures var w := After(Unknown(minSlot, maxSlot, slot, contacts), es);
            && !w.t.invalid && w.t.peak <= w.best
            && (w.t.unknownIds == 0 ==> w.t.peak == w.since)
            && (w.t.unknownIds == 0 && w.t.synced ==> w.t.active == w.contacts)
  {
    hide Honest, Proper, After;
    var w := Unknown(minSlot, maxSlot, slot, contacts);
    ProperNeverFlagged(w, es);
    NeverOverCounts(minSlot, maxSlot, slot, contacts, es);
    ExactWhenNothingMissed(minSlot, maxSlot, slot, contacts, es);
  }
}
