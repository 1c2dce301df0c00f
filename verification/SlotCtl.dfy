/**
 The A/B slot block at byte 2048 of the misc partition and the guarded commands that change it:
 prefer, arm and mark-successful.
 */
module SlotCtl {
  import opened Outcomes
  import Crc32

  type Block = b: seq<bv8> | |b| == 32 witness seq(32, _ => 0)

  datatype Slot = A | B {
    function Other(): Slot {
      if A? then B else A
    }

    function Off(): nat {
      if A? then 12 else 14
    }
  }

  datatype SlotState = SlotState(priority: bv8, tries: bv8, successful: bv8) {
    predicate Bootable() {
      priority > 0 && (successful == 1 || tries > 0)
    }

    predicate Proven() {
      priority > 0 && successful == 1
    }

    predicate InRange() {
      priority <= 15 && tries <= 7 && successful <= 1
    }
  }

  function Word(a: bv8, b: bv8, c: bv8, d: bv8): bv32 {
    (a as bv32) | ((b as bv32) << 8) | ((c as bv32) << 16) | ((d as bv32) << 24)
  }

  function Le32(b: seq<bv8>, i: nat): bv32
    requires i + 4 <= |b|
  {
    Word(b[i], b[i + 1], b[i + 2], b[i + 3])
  }

  function PutLe32(v: bv32): (s: seq<bv8>)
    ensures |s| == 4
  {
    [(v & 0xff) as bv8, ((v >> 8) & 0xff) as bv8, ((v >> 16) & 0xff) as bv8, ((v >> 24) & 0xff) as bv8]
  }

  lemma Le32RoundTrip(v: bv32)
    ensures Le32(PutLe32(v), 0) == v
  {
  }

  /** The low byte comes first. */
  lemma LowByteFirst()
    ensures PutLe32(0x0403_0201) == [1, 2, 3, 4] && Le32([1, 2, 3, 4], 0) == 0x0403_0201
  {
  }

  lemma Le32Injective(a: seq<bv8>, b: seq<bv8>)
    requires |a| == |b| == 4 && Le32(a, 0) == Le32(b, 0)
    ensures a == b
  {
    hide Word;
    BytesInjective(a[0], a[1], a[2], a[3], b[0], b[1], b[2], b[3]);
  }

  lemma BytesInjective(a: bv8, b: bv8, c: bv8, d: bv8, a': bv8, b': bv8, c': bv8, d': bv8)
    requires Word(a, b, c, d) == Word(a', b', c', d')
    ensures a == a' && b == b' && c == c' && d == d'
  {
  }

  // ----- decoding

  function Unpack(v: bv8): SlotState {
    SlotState(v & 0x0f, (v >> 4) & 0x07, (v >> 7) & 0x01)
  }

  function Pack(s: SlotState): bv8 {
    s.priority | (s.tries << 4) | (s.successful << 7)
  }

  lemma UnpackPack(s: SlotState)
    requires s.InRange()
    ensures Unpack(Pack(s)) == s
  {
  }

  lemma UnpackInRange(v: bv8)
    ensures Unpack(v).InRange()
  {
  }

  function Decode(b: Block, s: Slot): SlotState {
    Unpack(b[s.Off()])
  }

  /** The slot the bootloaders select. */
  function Active(b: Block): Slot {
    if Decode(b, A).priority < Decode(b, B).priority then B else A
  }

  predicate Shape(b: Block) {
    && b[4..8] == [0x42, 0x43, 0x41, 0x42]
    && (b[..4] == [0x5f, 0x61, 0, 0] || b[..4] == [0x5f, 0x62, 0, 0])
    && b[8] == 1
    && b[9] & 0x07 == 2
  }

  predicate Sealed(b: Block) {
    Le32(b, 28) == Crc32.Crc(b[..28])
  }

  /** `validate`. */
  predicate Valid(b: Block) {
    Shape(b) && Sealed(b)
  }

  predicate Survivable(b: Block) {
    Decode(b, A).Bootable() || Decode(b, B).Bootable()
  }

  // ----- the commands, on values

  datatype Command = Prefer(slot: Slot) | Arm(slot: Slot, tries: bv8) | MarkSuccessful(slot: Slot) {
    /** The command line accepts 1 to 7 tries. */
    predicate Ok() {
      Arm? ==> 1 <= tries <= 7
    }
  }

  function SetSlot(b: Block, s: Slot, st: SlotState): Block {
    b[s.Off() := Pack(st)]
  }

  function Reseal(b: Block): Block {
    b[..28] + PutLe32(Crc32.Crc(b[..28]))
  }

  /** The guard of the command. */
  predicate Allowed(b: Block, c: Command) {
    match c
    case Prefer(s) => Decode(b, s).Bootable()
    case Arm(s, _) => s != Active(b) && Decode(b, s.Other()).Proven()
    case MarkSuccessful(s) => s == Active(b)
  }

  /** The block with the slot bytes the command writes, before it is sealed again. */
  function Edited(b: Block, c: Command): Block {
    match c
    case Prefer(s) =>
      var st, ot := Decode(b, s), Decode(b, s.Other());
      SetSlot(SetSlot(b, s, st.(priority := 15)), s.Other(), ot.(priority := 14))
    case Arm(s, tries) =>
      var ot := Decode(b, s.Other());
      SetSlot(SetSlot(b, s, SlotState(15, tries, 0)), s.Other(), ot.(priority := 14))
    case MarkSuccessful(s) =>
      SetSlot(b, s, Decode(b, s).(tries := 0, successful := 1))
  }

  /** What an accepted command writes, or nothing when the command is refused. */
  function Exec(b: Block, c: Command): Option<Block> {
    if Valid(b) && Allowed(b, c) && Survivable(Edited(b, c)) then Some(Reseal(Edited(b, c))) else None
  }

  // ----- one command

  lemma SetSlotDecode(b: Block, s: Slot, st: SlotState)
    requires st.InRange()
    ensures Decode(SetSlot(b, s, st), s) == st
    ensures Decode(SetSlot(b, s, st), s.Other()) == Decode(b, s.Other())
  {
    hide Pack, Unpack;
    UnpackPack(st);
  }

  lemma ResealDecode(b: Block, s: Slot)
    ensures Decode(Reseal(b), s) == Decode(b, s)
  {
  }

  lemma ResealSeals(b: Block)
    ensures Sealed(Reseal(b))
  {
    hide Crc32.Crc, Le32, PutLe32;
    var r := Reseal(b);
    var crc := Crc32.Crc(b[..28]);
    assert r[..28] == b[..28];
    assert r[28..32] == PutLe32(crc);
    Le32RoundTrip(crc);
    Le32Within(r, 28);
  }

  lemma Le32Within(b: seq<bv8>, i: nat)
    requires i + 4 <= |b|
    ensures Le32(b, i) == Le32(b[i..i + 4], 0)
  {
  }

  /** The slots after the edit of each command, in full. */
  lemma EditedSlots(b: Block, c: Command)
    requires c.Ok()
    ensures var e := Edited(b, c);
            match c
            case Prefer(s) =>
              && Decode(e, s) == Decode(b, s).(priority := 15)
              && Decode(e, s.Other()) == Decode(b, s.Other()).(priority := 14)
            case Arm(s, tries) =>
              && Decode(e, s) == SlotState(15, tries, 0)
              && Decode(e, s.Other()) == Decode(b, s.Other()).(priority := 14)
            case MarkSuccessful(s) =>
              && Decode(e, s) == Decode(b, s).(tries := 0, successful := 1)
              && Decode(e, s.Other()) == Decode(b, s.Other())
  {
    hide Decode, SetSlot;
    DecodeInRange(b, c.slot);
    DecodeInRange(b, c.slot.Other());
    var (st, ot, s) := (Decode(b, c.slot), Decode(b, c.slot.Other()), c.slot);
    match c
    case Prefer(_) =>
      SetSlotDecode(b, s, st.(priority := 15));
      SetSlotDecode(SetSlot(b, s, st.(priority := 15)), s.Other(), ot.(priority := 14));
    case Arm(_, tries) =>
      SetSlotDecode(b, s, SlotState(15, tries, 0));
      SetSlotDecode(SetSlot(b, s, SlotState(15, tries, 0)), s.Other(), ot.(priority := 14));
    case MarkSuccessful(_) =>
      SetSlotDecode(b, s, st.(tries := 0, successful := 1));
  }

  lemma DecodeInRange(b: Block, s: Slot)
    ensures Decode(b, s).InRange()
  {
    UnpackInRange(b[s.Off()]);
  }

  /** An accepted command turns a valid block into a valid block and changes at most the two slot
      bytes and the checksum. */
  lemma ExecKeepsValid(b: Block, c: Command)
    requires Exec(b, c).Some?
    ensures Valid(Exec(b, c).value)
    ensures forall i :: 0 <= i < 28 && i != 12 && i != 14 ==> Exec(b, c).value[i] == b[i]
  {
    hide Crc32.Crc, Pack, Unpack, Survivable, PutLe32;
    var e := Edited(b, c);
    ResealSeals(e);
    assert forall i :: 0 <= i < 28 && i != 12 && i != 14 ==> Reseal(e)[i] == e[i] == b[i];
    assert Reseal(e)[4..8] == b[4..8] && Reseal(e)[..4] == b[..4];
  }

  /** The survivability check never stops a `prefer` or `arm` that its guard let through, and stops
      a `mark-successful` exactly when both priorities are zero. */
  lemma SurvivabilityExact(b: Block, c: Command)
    requires c.Ok() && Valid(b) && Allowed(b, c)
    ensures !c.MarkSuccessful? ==> Survivable(Edited(b, c))
    ensures c.MarkSuccessful? ==>
              (!Survivable(Edited(b, c)) <==> Decode(b, A).priority == 0 && Decode(b, B).priority == 0)
  {
    hide Edited, Decode, Valid;
    EditedSlots(b, c);
  }

  // ----- when a command is accepted, read off the two slot bytes

  /** A slot byte holds the priority in its low four bits, the tries above and the proven flag on top. */
  lemma SlotByte(v: bv8)
    ensures Unpack(v) == SlotState(v % 16, v / 16 % 8, v / 128) && v / 128 <= 1
  {
  }

  /** Every block with the right marks is valid once it is sealed, whatever else it holds, and no other is. */
  lemma SealMakesValid(b: Block)
    ensures Valid(Reseal(b)) <==>
              && b[0] == 0x5f && (b[1] == 0x61 || b[1] == 0x62) && b[2] == 0 && b[3] == 0
              && b[4] == 0x42 && b[5] == 0x43 && b[6] == 0x41 && b[7] == 0x42
              && b[8] == 1 && b[9] % 8 == 2
  {
    hide Crc32.Crc, Le32, PutLe32, Sealed;
    var r := Reseal(b);
    ResealSeals(b);
    assert forall i :: 0 <= i < 28 ==> r[i] == b[i];
    assert r[4..8] == [b[4], b[5], b[6], b[7]] && r[..4] == [b[0], b[1], b[2], b[3]];
    LowBits(b[9]);
  }

  lemma LowBits(v: bv8)
    ensures v & 0x07 == v % 8
  {
  }

  /** Acceptance, for every valid block, on the bytes 12 (slot a) and 14 (slot b). `arm` needs the other slot
      selected and proven and does not care what the armed slot holds; a tie in priority selects slot a. */
  lemma AcceptedExactly(b: Block, c: Command)
    requires Valid(b) && c.Ok()
    ensures var (x, y) := (b[12], b[14]);
            Exec(b, c).Some? <==>
              match c
              case Prefer(A) => x % 16 > 0 && (x / 128 == 1 || x / 16 % 8 > 0)
              case Prefer(B) => y % 16 > 0 && (y / 128 == 1 || y / 16 % 8 > 0)
              case Arm(A, _) => y / 128 == 1 && x % 16 < y % 16
              case Arm(B, _) => x / 128 == 1 && x % 16 > 0 && y % 16 <= x % 16
              case MarkSuccessful(A) => x % 16 > 0 && y % 16 <= x % 16
              case MarkSuccessful(B) => x % 16 < y % 16
  {
    hide Unpack, Edited, Valid, Reseal, Survivable;
    SlotByte(b[12]);
    SlotByte(b[14]);
    if Allowed(b, c) {
      SurvivabilityExact(b, c);
    }
  }

  /** What an accepted command writes, on the same bytes. */
  lemma WrittenExactly(b: Block, c: Command)
    requires Exec(b, c).Some? && c.Ok()
    ensures var (x, y, n) := (b[12], b[14], Exec(b, c).value);
            match c
            case Prefer(A) => n[12] == 15 + x / 16 * 16 && n[14] == 14 + y / 16 * 16
            case Prefer(B) => n[12] == 14 + x / 16 * 16 && n[14] == 15 + y / 16 * 16
            case Arm(A, t) => n[12] == 15 + 16 * t && n[14] == 14 + y / 16 * 16
            case Arm(B, t) => n[12] == 14 + x / 16 * 16 && n[14] == 15 + 16 * t
            case MarkSuccessful(A) => n[12] == x % 16 + 128 && n[14] == y
            case MarkSuccessful(B) => n[12] == x && n[14] == y % 16 + 128
  {
    hide Edited, Valid, Survivable, Allowed, Reseal;
    var (x, y) := (b[12], b[14]);
    KeptBySeal(Edited(b, c));
    match c
    case Prefer(s) => PreferBytes(b, s);
    case Arm(s, t) => ArmBytes(b, s, t);
    case MarkSuccessful(s) => MarkBytes(b, s);
  }

  lemma KeptBySeal(b: Block)
    ensures Reseal(b)[12] == b[12] && Reseal(b)[14] == b[14]
  {
    hide Crc32.Crc, PutLe32;
  }

  lemma PreferBytes(b: Block, s: Slot)
    ensures var e := Edited(b, Prefer(s));
            e[s.Off()] == 15 + b[s.Off()] / 16 * 16 && e[s.Other().Off()] == 14 + b[s.Other().Off()] / 16 * 16
  {
    hide Unpack, Pack;
    SlotByte(b[s.Off()]);
    SlotByte(b[s.Other().Off()]);
    Repacked(b[s.Off()]);
    Repacked(b[s.Other().Off()]);
  }

  lemma ArmBytes(b: Block, s: Slot, t: bv8)
    requires 1 <= t <= 7
    ensures var e := Edited(b, Arm(s, t));
            e[s.Off()] == 15 + 16 * t && e[s.Other().Off()] == 14 + b[s.Other().Off()] / 16 * 16
  {
    hide Unpack, Pack;
    SlotByte(b[s.Other().Off()]);
    Repacked(b[s.Other().Off()]);
    FreshSlot(t);
  }

  lemma MarkBytes(b: Block, s: Slot)
    ensures var e := Edited(b, MarkSuccessful(s));
            e[s.Off()] == b[s.Off()] % 16 + 128 && e[s.Other().Off()] == b[s.Other().Off()]
  {
    hide Unpack, Pack;
    SlotByte(b[s.Off()]);
    Repacked(b[s.Off()]);
  }

  lemma Repacked(v: bv8)
    ensures Pack(SlotState(15, v / 16 % 8, v / 128)) == 15 + v / 16 * 16
    ensures Pack(SlotState(14, v / 16 % 8, v / 128)) == 14 + v / 16 * 16
    ensures Pack(SlotState(v % 16, 0, 1)) == v % 16 + 128
  {
  }

  lemma FreshSlot(tries: bv8)
    requires 1 <= tries <= 7
    ensures Pack(SlotState(15, tries, 0)) == 15 + 16 * tries
  {
  }

  // ----- whole runs

  /** What can happen to the block: a command, or an attempt of the bootloader to start the
      selected slot. The latter is an assumption about the bootloader: it takes one try from the
      slot it selects while that slot is unproven, and seals the block again. */
  datatype Event = Run(command: Command) | BootAttempt {
    predicate Ok() {
      Run? ==> command.Ok()
    }
  }

  function Attempted(b: Block): Block {
    var s := Active(b);
    var st := Decode(b, s);
    if st.successful == 0 && st.tries > 0 then Reseal(SetSlot(b, s, st.(tries := st.tries - 1))) else b
  }

  /** The block after the event; a refused command leaves it alone. */
  function Next(b: Block, e: Event): Block {
    match e
    case BootAttempt => Attempted(b)
    case Run(c) => var r := Exec(b, c); if r.Some? then r.value else b
  }

  function After(b: Block, es: seq<Event>): Block
    decreases |es|
  {
    if es == [] then b else After(Next(b, es[0]), es[1..])
  }

  predicate HasProven(b: Block) {
    Decode(b, A).Proven() || Decode(b, B).Proven()
  }

  /** `s` is on trial: selected, unproven, with the other slot proven behind it. */
  predicate OnTrial(b: Block, s: Slot) {
    && Decode(b, s).priority == 15 && Decode(b, s).successful == 0
    && Decode(b, s.Other()).priority == 14 && Decode(b, s.Other()).successful == 1
  }

  lemma ExecSlots(b: Block, c: Command, s: Slot)
    requires Exec(b, c).Some?
    ensures Decode(Exec(b, c).value, s) == Decode(Edited(b, c), s)
  {
    hide Edited, Decode, Reseal, Survivable, Allowed, Valid;
    ResealDecode(Edited(b, c), s);
  }

  lemma AttemptedSlots(b: Block)
    ensures forall s: Slot :: Decode(Attempted(b), s) == Decode(b, s)
              || (s == Active(b) && Decode(b, s).successful == 0
                  && Decode(Attempted(b), s) == Decode(b, s).(tries := Decode(b, s).tries - 1))
  {
    hide Decode, Reseal, SetSlot;
    var a := Active(b);
    var st := Decode(b, a);
    DecodeInRange(b, a);
    if st.successful == 0 && st.tries > 0 {
      var st' := st.(tries := st.tries - 1);
      SetSlotDecode(b, a, st');
      ResealDecode(SetSlot(b, a, st'), A);
      ResealDecode(SetSlot(b, a, st'), B);
    }
  }

  lemma NextKeepsProven(b: Block, e: Event)
    requires HasProven(b) && e.Ok()
    ensures HasProven(Next(b, e))
  {
    hide Edited, Decode, Valid, Attempted, Survivable;
    match e
    case BootAttempt => AttemptedSlots(b);
    case Run(c) =>
      if Exec(b, c).Some? {
        ExecSlots(b, c, c.slot);
        ExecSlots(b, c, c.slot.Other());
        EditKeepsProven(b, c);
      }
  }

  lemma EditKeepsProven(b: Block, c: Command)
    requires HasProven(b) && c.Ok() && Allowed(b, c)
    ensures HasProven(Edited(b, c))
  {
    hide Edited, Decode;
    EditedSlots(b, c);
  }

  /** A block with a proven slot keeps one, over every run. */
  lemma {:induction false} RunKeepsProven(b: Block, es: seq<Event>)
    requires HasProven(b) && forall e :: e in es ==> e.Ok()
    ensures HasProven(After(b, es))
    decreases |es|
  {
    hide HasProven, Next;
    if es != [] {
      NextKeepsProven(b, es[0]);
      RunKeepsProven(Next(b, es[0]), es[1..]);
    }
  }

  lemma {:induction false} RunKeepsValid(b: Block, es: seq<Event>)
    requires Valid(b)
    ensures Valid(After(b, es))
    decreases |es|
  {
    hide Valid, Exec;
    if es != [] {
      match es[0] {
        case Run(c) => if Exec(b, c).Some? { ExecKeepsValid(b, c); }
        case BootAttempt => AttemptedValid(b);
      }
      RunKeepsValid(Next(b, es[0]), es[1..]);
    }
  }

  lemma AttemptedValid(b: Block)
    requires Valid(b)
    ensures Valid(Attempted(b))
  {
    hide Crc32.Crc, Pack, Unpack, PutLe32;
    var s := Active(b);
    var e := SetSlot(b, s, Decode(b, s).(tries := Decode(b, s).tries - 1));
    ResealSeals(e);
    assert forall i :: 0 <= i < 12 ==> Reseal(e)[i] == e[i] == b[i];
    assert Reseal(e)[4..8] == b[4..8] && Reseal(e)[..4] == b[..4];
  }

  /** The two commands that end a trial of `s`. */
  predicate EndsTrial(e: Event, s: Slot) {
    e == Run(MarkSuccessful(s)) || e == Run(Prefer(s.Other()))
  }

  lemma ArmStartsTrial(b: Block, s: Slot, tries: bv8)
    requires 1 <= tries <= 7 && Exec(b, Arm(s, tries)).Some?
    ensures OnTrial(Exec(b, Arm(s, tries)).value, s)
  {
    hide Edited, Decode, Valid, Survivable;
    EditedSlots(b, Arm(s, tries));
    ExecSlots(b, Arm(s, tries), s);
    ExecSlots(b, Arm(s, tries), s.Other());
  }

  /** During a trial no slot can be armed, and only the two ending commands end it. */
  lemma TrialStep(b: Block, s: Slot, e: Event)
    requires OnTrial(b, s) && e.Ok()
    ensures e.Run? && e.command.Arm? ==> Exec(b, e.command).None?
    ensures EndsTrial(e, s) || OnTrial(Next(b, e), s)
  {
    hide Edited, Decode, Valid, Attempted, Survivable;
    match e
    case BootAttempt => AttemptedSlots(b);
    case Run(c) =>
      EditedSlots(b, c);
      if Exec(b, c).Some? {
        ExecSlots(b, c, s);
        ExecSlots(b, c, s.Other());
      }
  }

  /** After an accepted `arm s`, whatever happens short of `mark-successful s` and `prefer other`,
      every further `arm` of either slot is refused. */
  lemma {:induction false} ArmRefusedDuringTrial(b: Block, s: Slot, es: seq<Event>, again: Slot, tries: bv8)
    requires OnTrial(b, s) && 1 <= tries <= 7
    requires forall e :: e in es ==> e.Ok() && !EndsTrial(e, s)
    ensures OnTrial(After(b, es), s)
    ensures Exec(After(b, es), Arm(again, tries)).None?
    decreases |es|
  {
    hide OnTrial, Next, Exec;
    if es == [] {
      TrialStep(b, s, Run(Arm(again, tries)));
    } else {
      TrialStep(b, s, es[0]);
      ArmRefusedDuringTrial(Next(b, es[0]), s, es[1..], again, tries);
    }
  }

  /** `arm s` and then `mark-successful s`: the second is accepted and both slots end up proven. */
  lemma ArmThenMark(b: Block, s: Slot, tries: bv8)
    requires 1 <= tries <= 7 && Exec(b, Arm(s, tries)).Some?
    ensures var armed := Exec(b, Arm(s, tries)).value;
            var marked := Exec(armed, MarkSuccessful(s));
            marked.Some? && Decode(marked.value, A).Proven() && Decode(marked.value, B).Proven()
  {
    hide Edited, Decode, Valid;
    var armed := Exec(b, Arm(s, tries)).value;
    ArmStartsTrial(b, s, tries);
    ExecKeepsValid(b, Arm(s, tries));
    EditedSlots(armed, MarkSuccessful(s));
    ExecSlots(armed, MarkSuccessful(s), s);
    ExecSlots(armed, MarkSuccessful(s), s.Other());
  }

  /** The update cycle goes on: once the new slot is proven, the other one can be armed. */
  lemma CycleContinues(b: Block, s: Slot, tries: bv8, again: bv8)
    requires 1 <= tries <= 7 && 1 <= again <= 7 && Exec(b, Arm(s, tries)).Some?
    ensures var marked := Exec(Exec(b, Arm(s, tries)).value, MarkSuccessful(s));
            marked.Some? && Exec(marked.value, Arm(s.Other(), again)).Some?
  {
    hide Edited, Decode, Valid, Survivable, Exec;
    var armed := Exec(b, Arm(s, tries)).value;
    ArmThenMark(b, s, tries);
    var marked := Exec(armed, MarkSuccessful(s)).value;
    MarkedSlots(b, s, tries);
    GuardAccepts(marked, Arm(s.Other(), again));
  }

  lemma MarkedSlots(b: Block, s: Slot, tries: bv8)
    requires 1 <= tries <= 7 && Exec(b, Arm(s, tries)).Some?
    requires Exec(Exec(b, Arm(s, tries)).value, MarkSuccessful(s)).Some?
    ensures var m := Exec(Exec(b, Arm(s, tries)).value, MarkSuccessful(s)).value;
            Valid(m) && Decode(m, s) == SlotState(15, 0, 1) && Decode(m, s.Other()).priority == 14
  {
    hide Edited, Decode, Valid;
    var armed := Exec(b, Arm(s, tries)).value;
    ArmStartsTrial(b, s, tries);
    EditedSlots(armed, MarkSuccessful(s));
    ExecSlots(armed, MarkSuccessful(s), s);
    ExecSlots(armed, MarkSuccessful(s), s.Other());
    ExecKeepsValid(armed, MarkSuccessful(s));
  }

  lemma GuardAccepts(b: Block, c: Command)
    requires Valid(b) && c.Ok() && c.Arm? && Allowed(b, c)
    ensures Exec(b, c).Some?
  {
    hide Valid, Edited, Decode;
    SurvivabilityExact(b, c);
  }

  // ----- the seal against damage

  /** Of two blocks with the same stored checksum that differ only within four consecutive bytes
      of the sealed part, at most one is valid. */
  lemma SealDetectsBurst(x: Block, y: Block, w: nat)
    requires w + 4 <= 28 && x[28..] == y[28..]
    requires forall i :: 0 <= i < 28 && !(w <= i < w + 4) ==> x[i] == y[i]
    requires Valid(x) && Valid(y)
    ensures x == y
  {
    hide Crc32.Crc, Le32, Shape;
    assert x[28..32] == x[28..] == y[28..] == y[28..32];
    Le32Within(x, 28);
    Le32Within(y, 28);
    Crc32.BurstDetected(x[..28], y[..28], w);
    assert x == x[..28] + x[28..] && y == y[..28] + y[28..];
  }

  /** A write of the new block that stopped after `k` bytes. */
  function Torn(old': Block, new': Block, k: nat): Block
    requires k <= 32
  {
    new'[..k] + old'[k..]
  }

  /** A torn write never goes unnoticed: the block it leaves is valid only when it is the old
      block or the new one. */
  lemma TornWriteDetected(b: Block, c: Command, k: nat)
    requires Exec(b, c).Some? && k <= 32
    ensures var new' := Exec(b, c).value;
            Valid(Torn(b, new', k)) ==> Torn(b, new', k) == b || Torn(b, new', k) == new'
  {
    hide Shape, Exec;
    var n := Exec(b, c).value;
    var t := Torn(b, n, k);
    ExecValidBefore(b, c);
    ExecKeepsValid(b, c);
    if Valid(t) {
      if k <= 28 {
        assert t[28..] == b[28..];
        SealDetectsBurst(t, b, 12);
      } else {
        assert t[..28] == n[..28];
        SameDataSameSeal(t, n);
      }
    }
  }

  lemma ExecValidBefore(b: Block, c: Command)
    requires Exec(b, c).Some?
    ensures Valid(b)
  {
  }

  lemma SameDataSameSeal(x: Block, y: Block)
    requires x[..28] == y[..28] && Sealed(x) && Sealed(y)
    ensures x == y
  {
    hide Crc32.Crc, Le32;
    Le32Within(x, 28);
    Le32Within(y, 28);
    Le32Injective(x[28..32], y[28..32]);
    assert x == x[..28] + x[28..32] && y == y[..28] + y[28..32];
  }

  // ----- the tool on the partition

  const BCB_OFFSET := 2048

  /** `set_slot`, in the buffer. */
  method SetSlotIn(b: array<bv8>, s: Slot, st: SlotState)
    requires b.Length == 32
    modifies b
    ensures b[..] == SetSlot(old(b[..]), s, st)
  {
    b[s.Off()] := Pack(st);
  }

  method ResealIn(b: array<bv8>)
    requires b.Length == 32
    modifies b
    ensures b[..] == Reseal(old(b[..]))
  {
    hide Crc32.Crc, PutLe32;
    ghost var was: Block := b[..];
    var crc := Crc32.Compute(b[..28]);
    var sum := PutLe32(crc);
    assert b[..28] == was[..28];
    b[28], b[29], b[30], b[31] := sum[0], sum[1], sum[2], sum[3];
    assert b[..28] == was[..28];
    assert b[..] == b[..28] + sum;
  }

  /** The guard, the edit, the survivability check and the new seal, in the buffer `b`. */
  method Mutate(b: array<bv8>, c: Command) returns (ok: bool)
    requires b.Length == 32 && Valid(b[..]) && c.Ok()
    modifies b
    ensures ok <==> Exec(old(b[..]), c).Some?
    ensures ok ==> b[..] == Exec(old(b[..]), c).value
  {
    hide Decode, Reseal, SetSlot, Valid, SlotState.Bootable, SlotState.Proven;
    ghost var was: Block := b[..];
    var (s, o) := (c.slot, c.slot.Other());
    var st, ot, active := Decode(b[..], s), Decode(b[..], o), Active(b[..]);
    match c {
      case Prefer(_) =>
        if !st.Bootable() {
          return false;
        }
        SetSlotIn(b, s, st.(priority := 15));
        SetSlotIn(b, o, ot.(priority := 14));
      case Arm(_, tries) =>
        if s == active || !ot.Proven() {
          return false;
        }
        SetSlotIn(b, s, SlotState(15, tries, 0));
        SetSlotIn(b, o, ot.(priority := 14));
      case MarkSuccessful(_) =>
        if s != active {
          return false;
        }
        SetSlotIn(b, s, st.(tries := 0, successful := 1));
    }
    if !Survivable(b[..]) {
      return false;
    }
    ResealIn(b);
    return true;
  }

  /** The partition; a `reliable` one lands every write whole and reports it. */
  class Misc {
    const disk: array<bv8>
    const reliable: bool

    constructor (disk: array<bv8>, reliable: bool)
      ensures this.disk == disk && this.reliable == reliable
    {
      this.disk, this.reliable := disk, reliable;
    }

    ghost function Bcb(): Block
      requires disk.Length >= BCB_OFFSET + 32
      reads this, disk
    {
      disk[BCB_OFFSET..BCB_OFFSET + 32]
    }

    /** A write of 32 bytes of which any number may land, whatever the call then reports. */
    method Pwrite(b: Block) returns (reported: bool, ghost landed: nat)
      requires disk.Length >= BCB_OFFSET + 32
      modifies disk
      ensures landed <= 32 && Bcb() == Torn(old(Bcb()), b, landed)
      ensures reliable ==> reported && landed == 32
      ensures forall i :: 0 <= i < disk.Length && !(BCB_OFFSET <= i < BCB_OFFSET + 32) ==> disk[i] == old(disk[i])
    {
      var n: int := *;
      n := if n < 0 || n > 32 || reliable then 32 else n;
      landed := n;
      ghost var was := disk[..];
      for i := 0 to n
        invariant forall j :: 0 <= j < disk.Length ==>
                    disk[j] == if BCB_OFFSET <= j < BCB_OFFSET + i then b[j - BCB_OFFSET] else was[j]
      {
        disk[BCB_OFFSET + i] := b[i];
      }
      assert Bcb() == b[..n] + was[BCB_OFFSET + n..BCB_OFFSET + 32];
      reported := *;
      reported := reported || reliable;
    }

    /** One command: it succeeds only when the block on the partition is what the command computes,
        a refused command and a dry run write nothing, and a failed write leaves a torn block. An
        accepted command succeeds on a dry run, and whenever its write lands. */
    method RunCommand(c: Command, dryRun: bool) returns (code: int)
      requires c.Ok()
      modifies disk
      ensures disk.Length < BCB_OFFSET + 32 ==> code == 1 && disk[..] == old(disk[..])
      ensures dryRun ==> disk[..] == old(disk[..])
      ensures disk.Length >= BCB_OFFSET + 32 ==>
                var (before, new') := (old(Bcb()), Exec(old(Bcb()), c));
                && (new'.None? ==> code == 1 && disk[..] == old(disk[..]))
                && (code == 0 ==> new'.Some? && (!dryRun ==> Bcb() == new'.value))
                && (new'.Some? && (dryRun || reliable) ==> code == 0)
                && (code == 0 || disk[..] == old(disk[..])
                    || (new'.Some? && exists k: nat | k <= 32 :: Bcb() == Torn(before, new'.value, k)))
      ensures forall i :: 0 <= i < disk.Length && !(BCB_OFFSET <= i < BCB_OFFSET + 32) ==> disk[i] == old(disk[i])
    {
      hide Exec, Shape, Sealed, Torn;
      if disk.Length < BCB_OFFSET + 32 {
        return 1;
      }
      var b := new bv8[32](i requires 0 <= i < 32 reads this, disk => disk[BCB_OFFSET + i]);
      ghost var was: Block := Bcb();
      assert b[..] == was;
      var valid := CheckBlock(b[..]);
      if !valid {
        NotValidNotExec(was, c);
        return 1;
      }
      var ok := Mutate(b, c);
      if !ok {
        return 1;
      }
      if dryRun {
        return 0;
      }
      var reported, landed := Pwrite(b[..]);
      TornWhole(was, b[..]);
      SurvivesExec(was, c);
      if !reported {
        return 1;
      }
      var back := disk[BCB_OFFSET..BCB_OFFSET + 32];
      if back != b[..] {
        return 1;
      }
      return if Survivable(back) then 0 else 1;
    }
  }

  lemma TornWhole(old': Block, new': Block)
    ensures Torn(old', new', 32) == new'
  {
  }

  lemma SurvivesExec(b: Block, c: Command)
    ensures Exec(b, c).Some? ==> Survivable(Exec(b, c).value)
  {
    hide Decode, Reseal, Edited;
    if Exec(b, c).Some? {
      ResealDecode(Edited(b, c), A);
      ResealDecode(Edited(b, c), B);
    }
  }

  /** `validate`, as the tool runs it. */
  method CheckBlock(b: Block) returns (ok: bool)
    ensures ok == Valid(b)
  {
    hide Crc32.Crc;
    var crc := Crc32.Compute(b[..28]);
    ok := Shape(b) && Le32(b, 28) == crc;
  }

  lemma NotValidNotExec(b: Block, c: Command)
    requires !Valid(b)
    ensures Exec(b, c).None?
  {
  }

  // ----- validate-hex

  function HexValue(c: char): Option<bv8> {
    if '0' <= c <= '9' then Some((c as int - '0' as int) as bv8)
    else if 'a' <= c <= 'f' then Some((c as int - 'a' as int + 10) as bv8)
    else if 'A' <= c <= 'F' then Some((c as int - 'A' as int + 10) as bv8)
    else None
  }

  predicate Blank(c: char) {
    c == ' ' || c == '\t' || c == '\n' || c == '\r'
  }

  /** The nibbles of the text, blanks left out; nothing when another character occurs. */
  function Nibbles(text: string): Option<seq<bv8>> {
    if text == "" then Some([])
    else if Blank(text[0]) then Nibbles(text[1..])
    else
      var (n, rest) := (HexValue(text[0]), Nibbles(text[1..]));
      if n.Some? && rest.Some? then Some([n.value] + rest.value) else None
  }

  function FromNibbles(hi: bv8, lo: bv8): bv8 {
    (hi << 4) | lo
  }

  function Joined(ns: seq<bv8>): seq<bv8> {
    if |ns| < 2 then [] else [FromNibbles(ns[0], ns[1])] + Joined(ns[2..])
  }

  /** The text is exactly 64 hex digits, with blanks allowed anywhere. */
  function HexBlock(text: string): Option<seq<bv8>> {
    var ns := Nibbles(text);
    if ns.Some? && |ns.value| == 64 then Some(Joined(ns.value)) else None
  }

  lemma {:induction false} NibblesAppend(s: string, t: string)
    ensures Nibbles(s + t)
         == if Nibbles(s).Some? && Nibbles(t).Some? then Some(Nibbles(s).value + Nibbles(t).value) else None
  {
    if s == "" {
      assert s + t == t;
      assert Nibbles(t).Some? ==> [] + Nibbles(t).value == Nibbles(t).value;
    } else {
      hide HexValue, Blank;
      assert (s + t)[1..] == s[1..] + t;
      NibblesAppend(s[1..], t);
      if Nibbles(s).Some? && Nibbles(t).Some? && !Blank(s[0]) {
        var (n, a, b) := (HexValue(s[0]).value, Nibbles(s[1..]).value, Nibbles(t).value);
        assert [n] + (a + b) == ([n] + a) + b;
      }
    }
  }

  /** Blanks are ignored wherever they stand, not only around the block. */
  lemma BlanksIgnored(s: string, blank: char, t: string)
    requires Blank(blank)
    ensures HexBlock(s + [blank] + t) == HexBlock(s + t)
  {
    NibblesAppend(s + [blank], t);
    NibblesAppend(s, [blank]);
    NibblesAppend(s, t);
    assert [blank][1..] == "";
    if Nibbles(s).Some? {
      assert Nibbles(s).value + [] == Nibbles(s).value;
    }
  }

  /** A hex digit in either case. */
  predicate IsHexDigit(c: char) {
    c in "0123456789abcdefABCDEF"
  }

  /** How many characters of the text are not blanks. */
  function Marks(text: string): nat {
    if text == "" then 0 else (if text[0] in " \t\n\r" then 0 else 1) + Marks(text[1..])
  }

  lemma HexDigits(c: char)
    ensures HexValue(c).Some? <==> IsHexDigit(c)
    ensures Blank(c) <==> c in " \t\n\r"
    ensures Blank(c) ==> !IsHexDigit(c)
  {
    hide HexValue, Blank, IsHexDigit;
    DigitsListed(c);
    DigitsOnly(c);
    BlanksListed(c);
  }

  lemma DigitsListed(c: char)
    ensures HexValue(c).Some? ==> IsHexDigit(c)
  {
    var digits := "0123456789abcdefABCDEF";
    if '0' <= c <= '9' {
      assert digits[c as int - '0' as int] == c;
    } else if 'a' <= c <= 'f' {
      assert digits[c as int - 'a' as int + 10] == c;
    } else if 'A' <= c <= 'F' {
      assert digits[c as int - 'A' as int + 16] == c;
    }
  }

  lemma DigitsOnly(c: char)
    ensures IsHexDigit(c) ==> HexValue(c).Some?
  {
  }

  lemma BlanksListed(c: char)
    ensures Blank(c) <==> c in " \t\n\r"
    ensures Blank(c) ==> HexValue(c).None?
  {
  }

  lemma {:induction false} NibblesExactly(text: string)
    ensures Nibbles(text).Some? <==> forall c :: c in text ==> Blank(c) || IsHexDigit(c)
    ensures Nibbles(text).Some? ==> |Nibbles(text).value| == Marks(text)
  {
    if text != "" {
      hide HexValue, Blank, IsHexDigit;
      HexDigits(text[0]);
      NibblesExactly(text[1..]);
      assert forall c :: c in text <==> c == text[0] || c in text[1..];
    }
  }

  /** A text is accepted exactly when it holds hex digits and blanks only, and 64 digits. */
  lemma HexAcceptedExactly(text: string)
    ensures HexBlock(text).Some? <==>
              (forall c :: c in text ==> c in " \t\n\r" || IsHexDigit(c)) && Marks(text) == 64
  {
    hide Nibbles, Joined, IsHexDigit, Blank;
    NibblesExactly(text);
    forall c | c in text ensures Blank(c) <==> c in " \t\n\r" {
      HexDigits(c);
    }
  }

  /** The case of a digit makes no difference. */
  lemma CaseIgnored(s: string, n: nat, t: string)
    requires n < 6
    ensures HexBlock(s + ["ABCDEF"[n]] + t) == HexBlock(s + ["abcdef"[n]] + t)
  {
    hide HexBlock;
    var (u, l) := (["ABCDEF"[n]], ["abcdef"[n]]);
    SameNibble(n);
    NibblesAppend(s + u, t);
    NibblesAppend(s, u);
    NibblesAppend(s + l, t);
    NibblesAppend(s, l);
    SameBlock(s + u + t, s + l + t);
  }

  lemma SameNibble(n: nat)
    requires n < 6
    ensures Nibbles(["ABCDEF"[n]]) == Nibbles(["abcdef"[n]])
  {
    var (u, l) := (["ABCDEF"[n]], ["abcdef"[n]]);
    assert u[1..] == "" && l[1..] == "";
    assert HexValue(u[0]) == HexValue(l[0]);
  }

  lemma SameBlock(a: string, b: string)
    requires Nibbles(a) == Nibbles(b)
    ensures HexBlock(a) == HexBlock(b)
  {
  }

  lemma {:induction false} JoinedSnoc(ns: seq<bv8>, hi: bv8, lo: bv8)
    requires |ns| % 2 == 0
    ensures Joined(ns + [hi, lo]) == Joined(ns) + [FromNibbles(hi, lo)]
  {
    if ns == [] {
      assert Joined([hi, lo][2..]) == [];
    } else {
      assert (ns + [hi, lo])[2..] == ns[2..] + [hi, lo];
      JoinedSnoc(ns[2..], hi, lo);
    }
  }

  lemma {:induction false} JoinedLength(ns: seq<bv8>)
    ensures |Joined(ns)| == |ns| / 2
  {
    if |ns| >= 2 {
      JoinedLength(ns[2..]);
    }
  }

  lemma NibblesSnoc(text: string, i: nat)
    requires i < |text|
    ensures text[..i + 1] == text[..i] + [text[i]]
    ensures Nibbles(text[..i + 1])
         == if Nibbles(text[..i]).None? then None
            else if Blank(text[i]) then Nibbles(text[..i])
            else if HexValue(text[i]).None? then None
            else Some(Nibbles(text[..i]).value + [HexValue(text[i]).value])
  {
    hide HexValue, Blank;
    NibblesAppend(text[..i], [text[i]]);
    assert text[..i + 1] == text[..i] + [text[i]];
    assert [text[i]][1..] == "";
    if Nibbles(text[..i]).Some? {
      assert Nibbles(text[..i]).value + [] == Nibbles(text[..i]).value;
      assert Nibbles([text[i]]) == if Blank(text[i]) then Some([])
                                   else if HexValue(text[i]).None? then None else Some([HexValue(text[i]).value] + []);
      assert HexValue(text[i]).Some? ==> [HexValue(text[i]).value] + [] == [HexValue(text[i]).value];
    }
  }

  /** A prefix of nibbles bounds what the whole text gives. */
  lemma NibblesPrefix(text: string, i: nat)
    requires i <= |text|
    ensures Nibbles(text).Some? ==> Nibbles(text[..i]).Some? && |Nibbles(text[..i]).value| <= |Nibbles(text).value|
  {
    NibblesAppend(text[..i], text[i..]);
    assert text == text[..i] + text[i..];
  }

  lemma ParseStarts(text: string)
    ensures Nibbles(text[..0]) == Some([]) && Joined([]) == [] && text[..|text|] == text
  {
  }

  /** `parse_hex`. */
  method ParseHex(text: string) returns (r: Option<seq<bv8>>)
    ensures r == HexBlock(text)
    ensures r.Some? ==> |r.value| == 32
  {
    hide HexValue, Blank, Nibbles, Joined, FromNibbles;
    ParseStarts(text);
    var b: seq<bv8> := [];
    var hi: Option<bv8> := None;
    for i := 0 to |text|
      invariant Nibbles(text[..i]).Some? && |b| <= 32
      invariant var ns := Nibbles(text[..i]).value;
                && (hi.None? ==> |ns| == 2 * |b| && Joined(ns) == b)
                && (hi.Some? ==> |ns| == 2 * |b| + 1 && ns[2 * |b|] == hi.value && Joined(ns[..2 * |b|]) == b)
    {
      NibblesSnoc(text, i);
      NibblesPrefix(text, i + 1);
      ghost var ns := Nibbles(text[..i]).value;
      if Blank(text[i]) {
        continue;
      }
      var nib := HexValue(text[i]);
      if nib.None? {
        return None;
      }
      if hi.None? {
        hi := nib;
        assert (ns + [nib.value])[..2 * |b|] == ns;
      } else {
        if |b| >= 32 {
          return None;
        }
        JoinedSnoc(ns[..2 * |b|], hi.value, nib.value);
        assert ns + [nib.value] == ns[..2 * |b|] + [hi.value, nib.value];
        b := b + [FromNibbles(hi.value, nib.value)];
        hi := None;
      }
    }
    if hi.Some? || |b| != 32 {
      return None;
    }
    return Some(b);
  }

  function HexChar(n: bv8): char
    requires n < 16
  {
    if n < 10 then ('0' as int + n as int) as char else ('a' as int + n as int - 10) as char
  }

  function High(v: bv8): (n: bv8)
    ensures n < 16
  {
    v >> 4
  }

  function Low(v: bv8): (n: bv8)
    ensures n < 16
  {
    v & 0x0f
  }

  function HexText(b: seq<bv8>): string {
    if b == [] then "" else [HexChar(High(b[0])), HexChar(Low(b[0]))] + HexText(b[1..])
  }

  lemma HexCharValue(n: bv8)
    requires n < 16
    ensures HexValue(HexChar(n)) == Some(n) && !Blank(HexChar(n))
  {
  }

  lemma SplitJoin(v: bv8)
    ensures FromNibbles(High(v), Low(v)) == v
  {
  }

  lemma NibblesTwo(hi: bv8, lo: bv8, tail: string)
    requires hi < 16 && lo < 16 && Nibbles(tail).Some?
    ensures Nibbles([HexChar(hi), HexChar(lo)] + tail) == Some([hi, lo] + Nibbles(tail).value)
  {
    hide HexValue, HexChar, Blank;
    HexCharValue(hi);
    HexCharValue(lo);
    assert ([HexChar(hi), HexChar(lo)] + tail)[1..] == [HexChar(lo)] + tail;
    assert ([HexChar(lo)] + tail)[1..] == tail;
    assert [hi] + ([lo] + Nibbles(tail).value) == [hi, lo] + Nibbles(tail).value;
  }

  lemma {:induction false} HexTextNibbles(b: seq<bv8>)
    ensures Nibbles(HexText(b)).Some?
    ensures var ns := Nibbles(HexText(b)).value; |ns| == 2 * |b| && Joined(ns) == b
  {
    if b != [] {
      hide HexChar, Nibbles, High, Low, FromNibbles;
      SplitJoin(b[0]);
      HexTextNibbles(b[1..]);
      var rest := Nibbles(HexText(b[1..])).value;
      NibblesTwo(High(b[0]), Low(b[0]), HexText(b[1..]));
      assert ([High(b[0]), Low(b[0])] + rest)[2..] == rest;
    }
  }

  /** Printing a block in hex and reading it back gives the block. */
  lemma HexRoundTrip(b: Block)
    ensures HexBlock(HexText(b)) == Some(b)
  {
    HexTextNibbles(b);
  }
}
