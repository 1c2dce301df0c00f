/**
 The rescue lease: a watchdog petter, the rescue path that arms the deadman, and an operator who
 renews the lease, as one machine whose steps interleave in any way. Times are in nanoseconds.
 */
module Lease {
  import opened Outcomes

  const LEASE := 1800 * 1_000_000_000
  const PET_INTERVAL := 10 * 1_000_000_000

  /** `LeaseFresh`; `now` is nothing when there is no usable clock. */
  predicate LeaseFresh(haveLease: bool, mtime: int, now: Option<int>): (holds: bool)
    ensures holds <==> haveLease && (now.Some? ==> now.value - mtime <= LEASE)
  {
    if !haveLease then false
    else if now.None? then true
    else if now.value < mtime then true
    else now.value - mtime <= LEASE
  }

  /** What the petter knew when it decided: the lease time it had read, and the clock after that. */
  datatype Check = Check(mtime: Option<int>, at: int)

  /** Where the petter is in its loop. Between any two of these other processes act. */
  datatype Petter =
    | Looking                      // about to look for the deadman file
    | SawDeadman                   // about to look at the lease file
    | SawLease(mtime: Option<int>) // about to read the clock and decide
    | Petting(seen: Option<Check>) // about to pet; `seen` when the deadman was armed
    | Sleeping(until: int)
    | Arming(check: Check)         // about to arm fastboot
    | Stopping(check: Check)       // about to park
    | Parked

  /** What the outside can observe. `latest` is the latest renewal at that moment, `armed` says whether the
      deadman was armed by then. */
  datatype Act =
    | Pet(at: int, seen: Option<Check>, latest: Option<int>, armed: bool)
    | ArmFastboot(at: int)
    | Park(at: int, check: Check, latest: Option<int>)

  datatype Rescue = NotYet | LeaseSeeded | DeadmanArmed

  /** `looked` and `read` are the times of the petter's last look at the deadman and at the lease; no code
      uses them. */
  datatype System = System(now: int, lease: Option<int>, deadman: bool, rescue: Rescue, petter: Petter,
                           log: seq<Act>, looked: int, read: int)

  datatype Step = Tick(d: nat) | PetterStep | RescueStep | Renew

  function Init(now: int): System {
    System(now, None, false, NotYet, Looking, [], now, now)
  }

  function PetterNext(s: System): System {
    match s.petter
    case Looking => s.(petter := if s.deadman then SawDeadman else Petting(None), looked := s.now)
    case SawDeadman => s.(petter := SawLease(s.lease), read := s.now)
    case SawLease(mtime) =>
      var check := Check(mtime, s.now);
      var holds := LeaseFresh(mtime.Some?, if mtime.Some? then mtime.value else 0, Some(s.now));
      s.(petter := if holds then Petting(Some(check)) else Arming(check))
    case Petting(seen) =>
      s.(petter := Sleeping(s.now + PET_INTERVAL), log := s.log + [Pet(s.now, seen, s.lease, s.deadman)])
    case Sleeping(until) => if s.now >= until then s.(petter := Looking) else s
    case Arming(check) => s.(petter := Stopping(check), log := s.log + [ArmFastboot(s.now)])
    case Stopping(check) => s.(petter := Parked, log := s.log + [Park(s.now, check, s.lease)])
    case Parked => s
  }

  /** The rescue path seeds the lease first and arms the deadman second. */
  function RescueNext(s: System): System {
    match s.rescue
    case NotYet => s.(lease := Some(s.now), rescue := LeaseSeeded)
    case LeaseSeeded => s.(deadman := true, rescue := DeadmanArmed)
    case DeadmanArmed => s
  }

  function Next(s: System, step: Step): System {
    match step
    case Tick(d) => s.(now := s.now + d)
    case PetterStep => PetterNext(s)
    case RescueStep => RescueNext(s)
    case Renew => s.(lease := Some(s.now))
  }

  function Run(s: System, steps: seq<Step>): System
    decreases |steps|
  {
    if steps == [] then s else Run(Next(s, steps[0]), steps[1..])
  }

  // ----- what every run keeps

  predicate Fresh(c: Check) {
    c.mtime.Some? && c.at - c.mtime.value <= LEASE
  }

  predicate Expired(c: Check) {
    c.mtime.Some? && c.at - c.mtime.value > LEASE
  }

  /** The lease time a check saw is no later than `latest`. */
  predicate NoLater(c: Check, latest: Option<int>) {
    c.mtime.Some? ==> latest.Some? && c.mtime.value <= latest.value
  }

  predicate ActOk(a: Act) {
    match a
    case Pet(at, seen, latest, _) =>
      seen.Some? ==> Fresh(seen.value) && seen.value.at <= at && NoLater(seen.value, latest)
    case ArmFastboot(_) => true
    case Park(at, seen, latest) => Expired(seen) && seen.at <= at && NoLater(seen, latest)
  }

  /** The log obeys every rule, and ends as the petter's place in its loop says. */
  ghost predicate LogOk(log: seq<Act>, p: Petter) {
    && (forall i :: 0 <= i < |log| ==> ActOk(log[i]))
    && (match p
        case Parked => |log| >= 2 && log[|log| - 1].Park? && log[|log| - 2].ArmFastboot? && OnlyPets(log[..|log| - 2])
        case Stopping(_) => |log| >= 1 && log[|log| - 1].ArmFastboot? && OnlyPets(log[..|log| - 1])
        case _ => OnlyPets(log))
  }

  predicate OnlyPets(log: seq<Act>) {
    forall i :: 0 <= i < |log| ==> log[i].Pet?
  }

  /** What the petter has in hand is true of the system. */
  predicate InHand(s: System) {
    match s.petter
    case SawDeadman => s.deadman
    case SawLease(mtime) => mtime.Some? && s.lease.Some? && mtime.value <= s.lease.value
    case Petting(Some(c)) => Fresh(c) && c.at <= s.now && NoLater(c, s.lease)
    case Arming(c) => Expired(c) && c.at <= s.now && NoLater(c, s.lease)
    case Stopping(c) => Expired(c) && c.at <= s.now && NoLater(c, s.lease)
    case _ => true
  }

  ghost predicate Inv(s: System) {
    && (s.lease.Some? ==> s.lease.value <= s.now)
    && (s.rescue != NotYet ==> s.lease.Some?)
    && (s.deadman ==> s.rescue == DeadmanArmed)
    && InHand(s)
    && LogOk(s.log, s.petter)
  }

  lemma LogPet(log: seq<Act>, p: Petter, a: Act, until: int)
    requires LogOk(log, p) && p.Petting? && a.Pet? && ActOk(a)
    ensures LogOk(log + [a], Sleeping(until))
  {
    hide ActOk;
  }

  lemma LogArm(log: seq<Act>, c: Check, at: int)
    requires LogOk(log, Arming(c))
    ensures LogOk(log + [ArmFastboot(at)], Stopping(c))
  {
    hide ActOk, OnlyPets;
    assert (log + [ArmFastboot(at)])[..|log|] == log;
    assert ActOk(ArmFastboot(at)) by { PlainAct(at); }
  }

  lemma PlainAct(at: int)
    ensures ActOk(ArmFastboot(at))
  {
  }

  lemma LogPark(log: seq<Act>, c: Check, a: Act)
    requires LogOk(log, Stopping(c)) && a.Park? && ActOk(a)
    ensures LogOk(log + [a], Parked)
  {
    hide ActOk, OnlyPets;
    assert (log + [a])[..|log| - 1] == log[..|log| - 1];
  }

  lemma PetterKeeps(s: System)
    requires Inv(s)
    ensures Inv(PetterNext(s))
  {
    match s.petter
    case Petting(seen) =>
      hide LogOk;
      LogPet(s.log, s.petter, Pet(s.now, seen, s.lease, s.deadman), s.now + PET_INTERVAL);
    case Arming(c) =>
      hide LogOk;
      LogArm(s.log, c, s.now);
    case Stopping(c) =>
      hide LogOk;
      LogPark(s.log, c, Park(s.now, c, s.lease));
    case _ =>
  }

  lemma StepKeeps(s: System, step: Step)
    requires Inv(s)
    ensures Inv(Next(s, step))
  {
    if step.PetterStep? {
      PetterKeeps(s);
    } else {
      hide LogOk;
    }
  }

  lemma {:induction false} RunKeeps(s: System, steps: seq<Step>)
    requires Inv(s)
    ensures Inv(Run(s, steps))
    decreases |steps|
  {
    if steps != [] {
      hide Inv, Next;
      StepKeeps(s, steps[0]);
      RunKeeps(Next(s, steps[0]), steps[1..]);
    }
  }

  // ----- the promises, over every run

  /** The petter stops only on a lease that had expired by the clock it read: it stops within 1800
      seconds of the latest renewal only when that renewal came after its look at the lease. It
      arms fastboot first, and neither pets nor does anything else afterwards. */
  lemma StopsOnlyWhenExpired(now: int, steps: seq<Step>, i: nat)
    requires var log := Run(Init(now), steps).log; i < |log| && log[i].Park?
    ensures var log := Run(Init(now), steps).log;
            var Park(at, seen, latest) := log[i];
            && seen.mtime.Some? && latest.Some? && seen.mtime.value <= latest.value
            && (latest == seen.mtime ==> at - latest.value > LEASE)
            && (at - latest.value <= LEASE ==> seen.mtime.value < latest.value)
            && i == |log| - 1 && i >= 1 && log[i - 1].ArmFastboot? && OnlyPets(log[..i - 1])
  {
    RunKeeps(Init(now), steps);
    var s := Run(Init(now), steps);
    assert ActOk(s.log[i]);
  }

  /** Once the deadman was seen armed, a pet comes no later than 1800 seconds after the latest
      renewal, give or take the time between the clock reading and the pet itself. */
  lemma PetsOnlyWhileFresh(now: int, steps: seq<Step>, i: nat)
    requires var log := Run(Init(now), steps).log; i < |log| && log[i].Pet? && log[i].seen.Some?
    ensures var Pet(at, seen, latest, _) := Run(Init(now), steps).log[i];
            && latest.Some? && seen.value.at <= at
            && at - latest.value <= LEASE + (at - seen.value.at)
  {
    RunKeeps(Init(now), steps);
    assert ActOk(Run(Init(now), steps).log[i]);
  }

  /** The deadman is never armed without a lease, so arming it cannot by itself stop the petting. */
  lemma DeadmanImpliesLease(now: int, steps: seq<Step>)
    ensures var s := Run(Init(now), steps); s.deadman ==> s.lease.Some?
  {
    RunKeeps(Init(now), steps);
  }

  /** One uninterrupted turn of the petter's loop on an armed deadman: look, look at the lease, read
      the clock, act. */
  function Turn(s: System): System {
    PetterNext(PetterNext(PetterNext(PetterNext(s))))
  }

  /** Without a step of anybody else in between, the decision is exact: the petter pets when at most
      1800 seconds have passed since the latest renewal, and goes on to stop when more have. */
  lemma TurnIsExact(now: int, steps: seq<Step>)
    requires var s := Run(Init(now), steps); s.deadman && s.petter == Looking
    ensures var s := Run(Init(now), steps);
            var t := Turn(s);
            && s.lease.Some?
            && (s.now - s.lease.value <= LEASE ==>
                  t.petter.Sleeping? && t.log == s.log + [Pet(s.now, Some(Check(s.lease, s.now)), s.lease, true)])
            && (s.now - s.lease.value > LEASE ==> t.petter.Stopping? && t.log == s.log + [ArmFastboot(s.now)])
  {
    RunKeeps(Init(now), steps);
  }

  // ----- composing runs

  lemma RunStep(s: System, step: Step, rest: seq<Step>)
    ensures Run(s, [step] + rest) == Run(Next(s, step), rest)
  {
    assert ([step] + rest)[1..] == rest;
  }

  lemma {:induction false} RunConcat(s: System, a: seq<Step>, b: seq<Step>)
    ensures Run(s, a + b) == Run(Run(s, a), b)
    decreases |a|
  {
    if a == [] {
      assert a + b == b;
    } else {
      hide Next;
      assert (a + b)[1..] == a[1..] + b;
      RunConcat(Next(s, a[0]), a[1..], b);
    }
  }

  // ----- how to keep the board alive

  /** While the deadman is armed, the lease is at most `age` old. This is what the operator sees to. */
  predicate InLease(s: System, age: nat) {
    s.deadman ==> s.lease.Some? && s.now - s.lease.value <= age
  }

  /** The petter reads the clock at most `gap` after it read the lease. */
  predicate QuickRead(s: System, step: Step, gap: nat) {
    step.PetterStep? && s.petter.SawLease? ==> s.now - s.read <= gap
  }

  /** Both hold all along the run. */
  predicate Kept(s: System, steps: seq<Step>, age: nat, gap: nat)
    decreases |steps|
  {
    && InLease(s, age)
    && (steps == [] || (QuickRead(s, steps[0], gap) && Kept(Next(s, steps[0]), steps[1..], age, gap)))
  }

  /** The petter neither has stopped nor is about to. */
  predicate Alive(s: System) {
    !s.petter.Arming? && !s.petter.Stopping? && !s.petter.Parked? && OnlyPets(s.log)
  }

  /** What the petter has read was in the lease when it read it. */
  predicate ReadInLease(s: System, age: nat) {
    s.petter.SawLease? ==>
      && s.deadman && s.petter.mtime.Some? && s.read - s.petter.mtime.value <= age && s.read <= s.now
      && (age == 0 ==> s.read == s.now)
  }

  lemma AliveStep(s: System, step: Step, age: nat, gap: nat)
    requires Inv(s) && Alive(s) && ReadInLease(s, age) && (age == 0 || age + gap <= LEASE)
    requires InLease(s, age) && QuickRead(s, step, gap) && InLease(Next(s, step), age)
    ensures Alive(Next(s, step)) && ReadInLease(Next(s, step), age)
  {
    hide LogOk;
  }

  lemma {:induction false} AliveRun(s: System, steps: seq<Step>, age: nat, gap: nat)
    requires Inv(s) && Alive(s) && ReadInLease(s, age) && (age == 0 || age + gap <= LEASE)
    requires Kept(s, steps, age, gap)
    ensures Alive(Run(s, steps))
    decreases |steps|
  {
    if steps != [] {
      hide Inv, Next, Alive, ReadInLease, InLease, QuickRead;
      var t := Next(s, steps[0]);
      KeptStart(t, steps[1..], age, gap);
      AliveStep(s, steps[0], age, gap);
      StepKeeps(s, steps[0]);
      AliveRun(t, steps[1..], age, gap);
    }
  }

  lemma KeptStart(s: System, steps: seq<Step>, age: nat, gap: nat)
    requires Kept(s, steps, age, gap)
    ensures InLease(s, age)
  {
  }

  lemma {:induction false} KeptConcat(s: System, a: seq<Step>, b: seq<Step>, age: nat, gap: nat)
    requires Kept(s, a, age, gap) && Kept(Run(s, a), b, age, gap)
    ensures Kept(s, a + b, age, gap)
    decreases |a|
  {
    if a == [] {
      assert a + b == b;
    } else {
      hide Next, InLease, QuickRead;
      assert (a + b)[1..] == a[1..] + b;
      KeptConcat(Next(s, a[0]), a[1..], b, age, gap);
    }
  }

  lemma KeptStep(s: System, step: Step, rest: seq<Step>, age: nat, gap: nat)
    requires InLease(s, age) && QuickRead(s, step, gap) && Kept(Next(s, step), rest, age, gap)
    ensures Kept(s, [step] + rest, age, gap)
  {
    assert ([step] + rest)[1..] == rest;
  }

  /** An operator who renews all the time, for `n` nanoseconds. */
  function Renewing(n: nat): seq<Step> {
    if n == 0 then [] else [Renew] + ([Tick(1)] + Renewing(n - 1))
  }

  /** The petter's reading survives any number of renewals. */
  lemma {:induction false} RenewingRun(s: System, n: nat, age: nat, gap: nat)
    requires s.deadman && s.petter.SawLease? && age >= 1 && InLease(s, age)
    ensures Kept(s, Renewing(n), age, gap)
    ensures Run(s, Renewing(n)) == s.(now := s.now + n, lease := if n == 0 then s.lease else Some(s.now + n - 1))
    decreases n
  {
    if n > 0 {
      var s1 := s.(lease := Some(s.now));
      var s2 := s1.(now := s.now + 1);
      RenewingRun(s2, n - 1, age, gap);
      KeptStep(s1, Tick(1), Renewing(n - 1), age, gap);
      KeptStep(s, Renew, [Tick(1)] + Renewing(n - 1), age, gap);
      RunStep(s, Renew, [Tick(1)] + Renewing(n - 1));
      RunStep(s1, Tick(1), Renewing(n - 1));
    }
  }

  /** The age at which the petter reads the lease in the race below. */
  function ReadAge(age: nat): nat {
    if age <= LEASE then age else LEASE + 1
  }

  function RaceStart(age: nat): seq<Step> {
    [RescueStep] + ([RescueStep] + ([Tick(ReadAge(age))] + ([PetterStep] + ([PetterStep] + []))))
  }

  function RaceEnd(): seq<Step> {
    [PetterStep] + ([PetterStep] + ([PetterStep] + []))
  }

  /** The petter reads a lease of that age, and reads the clock when 1800 seconds and one nanosecond have passed
      since; in between the operator renews all the time. */
  function Race(age: nat): seq<Step> {
    RaceStart(age) + (Renewing(LEASE + 1 - ReadAge(age)) + RaceEnd())
  }

  lemma RaceStarts(now: int, age: nat, gap: nat)
    requires age >= 1
    ensures Kept(Init(now), RaceStart(age), age, gap)
    ensures var t := now + ReadAge(age);
            Run(Init(now), RaceStart(age)) == System(t, Some(now), true, DeadmanArmed, SawLease(Some(now)), [], t, t)
  {
    hide Kept, Run;
    var t := now + ReadAge(age);
    var s0 := Init(now);
    var s1 := s0.(lease := Some(now), rescue := LeaseSeeded);
    var s2 := s1.(deadman := true, rescue := DeadmanArmed);
    var s3 := s2.(now := t);
    var s4 := s3.(petter := SawDeadman, looked := t);
    var s5 := s4.(petter := SawLease(Some(now)), read := t);
    Stays(s5, age, gap);
    KeptStep(s4, PetterStep, [], age, gap);
    KeptStep(s3, PetterStep, [PetterStep] + [], age, gap);
    KeptStep(s2, Tick(ReadAge(age)), [PetterStep] + ([PetterStep] + []), age, gap);
    KeptStep(s1, RescueStep, [Tick(ReadAge(age))] + ([PetterStep] + ([PetterStep] + [])), age, gap);
    KeptStep(s0, RescueStep, [RescueStep] + ([Tick(ReadAge(age))] + ([PetterStep] + ([PetterStep] + []))), age, gap);
    RunStep(s0, RescueStep, [RescueStep] + ([Tick(ReadAge(age))] + ([PetterStep] + ([PetterStep] + []))));
    RunStep(s1, RescueStep, [Tick(ReadAge(age))] + ([PetterStep] + ([PetterStep] + [])));
    RunStep(s2, Tick(ReadAge(age)), [PetterStep] + ([PetterStep] + []));
    RunStep(s3, PetterStep, [PetterStep] + []);
    RunStep(s4, PetterStep, []);
  }

  lemma Stays(s: System, age: nat, gap: nat)
    requires InLease(s, age)
    ensures Run(s, []) == s && Kept(s, [], age, gap)
  {
  }

  /** An expired reading, once the clock is read, takes the petter all the way down. */
  lemma RaceEnds(s: System, age: nat, gap: nat)
    requires s.petter.SawLease? && s.petter.mtime.Some? && s.now - s.petter.mtime.value > LEASE
    requires InLease(s, age) && s.now - s.read <= gap
    ensures Kept(s, RaceEnd(), age, gap)
    ensures var c := Check(s.petter.mtime, s.now);
            Run(s, RaceEnd()) == s.(petter := Parked, log := s.log + [ArmFastboot(s.now)] + [Park(s.now, c, s.lease)])
  {
    hide Kept, Run;
    var c := Check(s.petter.mtime, s.now);
    var s1 := s.(petter := Arming(c));
    var s2 := s1.(petter := Stopping(c), log := s.log + [ArmFastboot(s.now)]);
    var s3 := s2.(petter := Parked, log := s2.log + [Park(s.now, c, s.lease)]);
    Stays(s3, age, gap);
    KeptStep(s2, PetterStep, [], age, gap);
    KeptStep(s1, PetterStep, [PetterStep] + [], age, gap);
    KeptStep(s, PetterStep, [PetterStep] + ([PetterStep] + []), age, gap);
    RunStep(s, PetterStep, [PetterStep] + ([PetterStep] + []));
    RunStep(s1, PetterStep, [PetterStep] + []);
    RunStep(s2, PetterStep, []);
  }

  /** A renewal in time can be lost: when age and gap together exceed 1800 seconds, there is a run within both in
      which the board is parked, although (for an age within the lease) it was renewed one nanosecond before. */
  lemma RenewalCanBeLost(now: int, age: nat, gap: nat)
    requires age >= 1 && age + gap > LEASE
    ensures Kept(Init(now), Race(age), age, gap)
    ensures var s := Run(Init(now), Race(age));
            && s.petter == Parked && s.log != [] && s.log[|s.log| - 1].Park?
            && (age <= LEASE ==> s.log[|s.log| - 1].latest == Some(s.log[|s.log| - 1].at - 1))
  {
    hide Kept, Run, RaceStart, Renewing, RaceEnd;
    var g := LEASE + 1 - ReadAge(age);
    var t := now + ReadAge(age);
    var s1 := System(t, Some(now), true, DeadmanArmed, SawLease(Some(now)), [], t, t);
    RaceStarts(now, age, gap);
    RenewingRun(s1, g, age, gap);
    var s2 := Run(s1, Renewing(g));
    RaceEnds(s2, age, gap);
    KeptConcat(s1, Renewing(g), RaceEnd(), age, gap);
    KeptConcat(Init(now), RaceStart(age), Renewing(g) + RaceEnd(), age, gap);
    RunConcat(s1, Renewing(g), RaceEnd());
    RunConcat(Init(now), RaceStart(age), Renewing(g) + RaceEnd());
  }

  /** Exactly which discipline keeps the board alive. Renew so that the lease is never older than `age` while the
      deadman is armed, with a petter that takes at most `gap` from reading the lease to reading the clock: then
      no run whatever stops, if and only if age and gap together stay within 1800 seconds. (An age of zero allows
      no time to pass at all.) */
  lemma KeptAliveExactly(age: nat, gap: nat)
    ensures (forall now: int, steps: seq<Step> ::
               Kept(Init(now), steps, age, gap) ==> Alive(Run(Init(now), steps)))
            <==> age == 0 || age + gap <= 1800 * 1_000_000_000
  {
    if age == 0 || age + gap <= LEASE {
      forall now: int, steps: seq<Step> | Kept(Init(now), steps, age, gap)
        ensures Alive(Run(Init(now), steps))
      {
        AliveRun(Init(now), steps, age, gap);
      }
    } else {
      hide Kept, Run, Race;
      RenewalCanBeLost(0, age, gap);
      assert !Alive(Run(Init(0), Race(age)));
    }
  }

  // ----- how late a pet can be

  /** A turn takes at most `d` from the look at the deadman to the pet, and the deadman is armed while the lease it
      was seeded with holds. */
  predicate Swift(s: System, step: Step, d: nat) {
    && (step.PetterStep? && s.petter.Petting? ==> s.now - s.looked <= d)
    && (step.RescueStep? && s.rescue.LeaseSeeded? ==> s.lease.Some? && s.now - s.lease.value <= LEASE)
  }

  predicate SwiftRun(s: System, steps: seq<Step>, d: nat)
    decreases |steps|
  {
    steps == [] || (Swift(s, steps[0], d) && SwiftRun(Next(s, steps[0]), steps[1..], d))
  }

  /** Every pet under an armed deadman comes within `b` of the latest renewal, whether or not the petter had seen
      the deadman. */
  predicate PetsWithin(log: seq<Act>, b: int) {
    forall i | 0 <= i < |log| ::
      log[i].Pet? && log[i].armed ==> log[i].latest.Some? && log[i].at - log[i].latest.value <= b
  }

  /** The pet the petter is about to make will be in time. */
  predicate PetDue(s: System) {
    match s.petter
    case SawDeadman => s.looked <= s.now
    case SawLease(_) => s.looked <= s.now
    case Petting(Some(c)) => s.looked <= c.at
    case Petting(None) => s.looked <= s.now && (s.deadman ==> s.lease.Some? && s.looked - s.lease.value <= LEASE)
    case _ => true
  }

  lemma SwiftStep(s: System, step: Step, d: nat)
    requires Inv(s) && PetDue(s) && Swift(s, step, d) && PetsWithin(s.log, LEASE + d)
    ensures PetDue(Next(s, step)) && PetsWithin(Next(s, step).log, LEASE + d)
  {
    hide LogOk;
    var t := Next(s, step);
    assert forall i :: 0 <= i < |s.log| ==> t.log[i] == s.log[i];
  }

  lemma {:induction false} SwiftKeeps(s: System, steps: seq<Step>, d: nat)
    requires Inv(s) && PetDue(s) && SwiftRun(s, steps, d) && PetsWithin(s.log, LEASE + d)
    ensures PetsWithin(Run(s, steps).log, LEASE + d)
    decreases |steps|
  {
    if steps != [] {
      hide Inv, Next, PetDue, Swift, PetsWithin;
      SwiftStep(s, steps[0], d);
      StepKeeps(s, steps[0]);
      SwiftKeeps(Next(s, steps[0]), steps[1..], d);
    }
  }

  lemma SwiftFirst(s: System, step: Step, rest: seq<Step>, d: nat)
    requires Swift(s, step, d) && SwiftRun(Next(s, step), rest, d)
    ensures SwiftRun(s, [step] + rest, d)
  {
    assert ([step] + rest)[1..] == rest;
  }

  lemma Ends(s: System, d: nat)
    ensures Run(s, []) == s && SwiftRun(s, [], d)
  {
  }

  /** A petter that reads the clock at the last moment of the lease and is then held up for `d`. */
  function LateSeen(d: nat): seq<Step> {
    [RescueStep] + ([RescueStep] + ([Tick(LEASE)] + ([PetterStep] + ([PetterStep] + LateTail(d)))))
  }

  function LateTail(d: nat): seq<Step> {
    [PetterStep] + ([Tick(d)] + ([PetterStep] + []))
  }

  /** A petter that looks for the deadman just before it is armed, at the last moment of the lease. */
  function LateUnseen(d: nat): seq<Step> {
    [RescueStep] + ([Tick(LEASE)] + ([PetterStep] + ([RescueStep] + ([Tick(d)] + ([PetterStep] + [])))))
  }

  lemma LateSeenPets(now: int, d: nat)
    ensures SwiftRun(Init(now), LateSeen(d), d)
    ensures var t := now + LEASE;
            Run(Init(now), LateSeen(d)).log == [Pet(t + d, Some(Check(Some(now), t)), Some(now), true)]
  {
    hide Run, SwiftRun, LateTail;
    var t := now + LEASE;
    var s0 := Init(now);
    var s1 := s0.(lease := Some(now), rescue := LeaseSeeded);
    var s2 := s1.(deadman := true, rescue := DeadmanArmed);
    var s3 := s2.(now := t);
    var s4 := s3.(petter := SawDeadman, looked := t);
    var s5 := s4.(petter := SawLease(Some(now)), read := t);
    LateTailPets(s5, now, d);
    var r4 := [PetterStep] + LateTail(d);
    SwiftFirst(s4, PetterStep, LateTail(d), d);
    SwiftFirst(s3, PetterStep, r4, d);
    SwiftFirst(s2, Tick(LEASE), [PetterStep] + r4, d);
    SwiftFirst(s1, RescueStep, [Tick(LEASE)] + ([PetterStep] + r4), d);
    SwiftFirst(s0, RescueStep, [RescueStep] + ([Tick(LEASE)] + ([PetterStep] + r4)), d);
    RunStep(s0, RescueStep, [RescueStep] + ([Tick(LEASE)] + ([PetterStep] + r4)));
    RunStep(s1, RescueStep, [Tick(LEASE)] + ([PetterStep] + r4));
    RunStep(s2, Tick(LEASE), [PetterStep] + r4);
    RunStep(s3, PetterStep, r4);
    RunStep(s4, PetterStep, LateTail(d));
  }

  lemma LateTailPets(s: System, seen: int, d: nat)
    requires s.petter == SawLease(Some(seen)) && s.now - seen <= LEASE && s.looked == s.now && s.log == []
    ensures SwiftRun(s, LateTail(d), d)
    ensures Run(s, LateTail(d)).log == [Pet(s.now + d, Some(Check(Some(seen), s.now)), s.lease, s.deadman)]
  {
    hide Run, SwiftRun;
    var c := Check(Some(seen), s.now);
    var s1 := s.(petter := Petting(Some(c)));
    var s2 := s1.(now := s.now + d);
    var s3 := Next(s2, PetterStep);
    Ends(s3, d);
    SwiftFirst(s2, PetterStep, [], d);
    SwiftFirst(s1, Tick(d), [PetterStep] + [], d);
    SwiftFirst(s, PetterStep, [Tick(d)] + ([PetterStep] + []), d);
    RunStep(s, PetterStep, [Tick(d)] + ([PetterStep] + []));
    RunStep(s1, Tick(d), [PetterStep] + []);
    RunStep(s2, PetterStep, []);
  }

  lemma LateUnseenPets(now: int, d: nat)
    ensures SwiftRun(Init(now), LateUnseen(d), d)
    ensures Run(Init(now), LateUnseen(d)).log == [Pet(now + LEASE + d, None, Some(now), true)]
  {
    hide Run, SwiftRun;
    var t := now + LEASE;
    var s0 := Init(now);
    var s1 := s0.(lease := Some(now), rescue := LeaseSeeded);
    var s2 := s1.(now := t);
    var s3 := s2.(petter := Petting(None), looked := t);
    var s4 := s3.(deadman := true, rescue := DeadmanArmed);
    var s5 := s4.(now := t + d);
    var s6 := Next(s5, PetterStep);
    Ends(s6, d);
    SwiftFirst(s5, PetterStep, [], d);
    SwiftFirst(s4, Tick(d), [PetterStep] + [], d);
    SwiftFirst(s3, RescueStep, [Tick(d)] + ([PetterStep] + []), d);
    SwiftFirst(s2, PetterStep, [RescueStep] + ([Tick(d)] + ([PetterStep] + [])), d);
    SwiftFirst(s1, Tick(LEASE), [PetterStep] + ([RescueStep] + ([Tick(d)] + ([PetterStep] + []))), d);
    SwiftFirst(s0, RescueStep, [Tick(LEASE)] + ([PetterStep] + ([RescueStep] + ([Tick(d)] + ([PetterStep] + [])))), d);
    RunStep(s0, RescueStep, [Tick(LEASE)] + ([PetterStep] + ([RescueStep] + ([Tick(d)] + ([PetterStep] + [])))));
    RunStep(s1, Tick(LEASE), [PetterStep] + ([RescueStep] + ([Tick(d)] + ([PetterStep] + []))));
    RunStep(s2, PetterStep, [RescueStep] + ([Tick(d)] + ([PetterStep] + [])));
    RunStep(s3, RescueStep, [Tick(d)] + ([PetterStep] + []));
    RunStep(s4, Tick(d), [PetterStep] + []);
    RunStep(s5, PetterStep, []);
  }

  /** Exactly how late a pet can be: with turns of at most `d`, every pet under an armed deadman comes within `b` of
      the latest renewal in every run, if and only if `b` is at least 1800 seconds and `d`. */
  lemma PetsInTimeExactly(d: nat, b: int)
    ensures (forall now: int, steps: seq<Step> ::
               SwiftRun(Init(now), steps, d) ==> PetsWithin(Run(Init(now), steps).log, b))
            <==> b >= 1800 * 1_000_000_000 + d
  {
    hide Run, SwiftRun, LateSeen;
    if b >= LEASE + d {
      forall now: int, steps: seq<Step> | SwiftRun(Init(now), steps, d)
        ensures PetsWithin(Run(Init(now), steps).log, b)
      {
        SwiftKeeps(Init(now), steps, d);
      }
    } else {
      LateSeenPets(0, d);
      var log := Run(Init(0), LateSeen(d)).log;
      assert log[0].Pet? && log[0].armed && log[0].at - log[0].latest.value > b;
    }
  }

  // ----- the petter keeps petting

  /** Pets are at least ten seconds apart, and a sleeping petter wakes ten seconds after its last one. */
  predicate Spaced(s: System) {
    && Gaps(s.log)
    && (match s.petter
        case Sleeping(until) => s.log != [] && LastPet(s.log) && s.log[|s.log| - 1].at + PET_INTERVAL == until
        case Arming(_) => true
        case Stopping(_) => true
        case Parked => true
        case _ => s.log != [] ==> LastPet(s.log) && s.log[|s.log| - 1].at + PET_INTERVAL <= s.now)
  }

  predicate Gaps(log: seq<Act>) {
    forall i, j | 0 <= i < |log| - 1 && j == i + 1 ::
      log[i].Pet? && log[j].Pet? ==> log[i].at + PET_INTERVAL <= log[j].at
  }

  lemma GapsMore(log: seq<Act>, a: Act)
    requires Gaps(log)
    requires log != [] && log[|log| - 1].Pet? && a.Pet? ==> log[|log| - 1].at + PET_INTERVAL <= a.at
    ensures Gaps(log + [a])
  {
  }

  predicate LastPet(log: seq<Act>)
    requires log != []
  {
    log[|log| - 1].Pet?
  }

  lemma SpacedStep(s: System, step: Step)
    requires Spaced(s)
    ensures Spaced(Next(s, step))
  {
    hide Gaps;
    if step.PetterStep? {
      match s.petter
      case Petting(seen) => GapsMore(s.log, Pet(s.now, seen, s.lease, s.deadman));
      case Arming(_) => GapsMore(s.log, ArmFastboot(s.now));
      case Stopping(c) => GapsMore(s.log, Park(s.now, c, s.lease));
      case _ =>
    }
  }

  lemma {:induction false} SpacedRun(s: System, steps: seq<Step>)
    requires Spaced(s)
    ensures Spaced(Run(s, steps))
    decreases |steps|
  {
    if steps != [] {
      hide Spaced, Next;
      SpacedStep(s, steps[0]);
      SpacedRun(Next(s, steps[0]), steps[1..]);
    }
  }

  /** In every run, a pet comes at least ten seconds after the one before it. */
  lemma PetsApart(now: int, steps: seq<Step>, i: nat)
    requires var log := Run(Init(now), steps).log; i + 1 < |log| && log[i].Pet? && log[i + 1].Pet?
    ensures var log := Run(Init(now), steps).log; log[i].at + 10 * 1_000_000_000 <= log[i + 1].at
  {
    SpacedRun(Init(now), steps);
  }

  /** How many of its own steps the petter is away from a pet; a sleeper has to be due. */
  function Away(p: Petter): nat {
    match p
    case Sleeping(_) => 5
    case Looking => 4
    case SawDeadman => 3
    case SawLease(_) => 2
    case Petting(_) => 1
    case _ => 0
  }

  predicate Due(s: System) {
    s.petter.Sleeping? ==> s.now >= s.petter.until
  }

  /** How often it is the petter's turn. */
  function Turns(steps: seq<Step>): nat {
    if steps == [] then 0 else (if steps[0].PetterStep? then 1 else 0) + Turns(steps[1..])
  }

  lemma {:induction false} LogGrows(s: System, steps: seq<Step>)
    ensures |Run(s, steps).log| >= |s.log|
    decreases |steps|
  {
    if steps != [] {
      assert |Next(s, steps[0]).log| >= |s.log|;
      hide Next;
      LogGrows(Next(s, steps[0]), steps[1..]);
    }
  }

  lemma CloserStep(s: System, step: Step)
    requires Due(s) && Alive(s) && Alive(Next(s, step))
    ensures step.PetterStep? && !s.petter.Petting? ==> Away(Next(s, step).petter) < Away(s.petter)
    ensures !step.PetterStep? ==> Next(s, step).petter == s.petter
    ensures step.PetterStep? && s.petter.Petting? ==> |Next(s, step).log| == |s.log| + 1
    ensures !(step.PetterStep? && s.petter.Petting?) ==> Due(Next(s, step)) && Next(s, step).log == s.log
  {
  }

  /** However the others' steps fall in between: a petter that is due to wake, on a board that is kept alive, has
      petted again after five turns of its own. */
  lemma {:induction false} PetsAgain(s: System, steps: seq<Step>, age: nat, gap: nat)
    requires Inv(s) && Alive(s) && ReadInLease(s, age) && (age == 0 || age + gap <= LEASE) && Due(s)
    requires Kept(s, steps, age, gap) && Turns(steps) >= Away(s.petter)
    ensures |Run(s, steps).log| > |s.log|
    decreases |steps|
  {
    AwayAlive(s);
    if steps != [] {
      hide Inv, Next, Alive, ReadInLease, InLease, QuickRead, Away, Due;
      var t := Next(s, steps[0]);
      KeptStart(t, steps[1..], age, gap);
      AliveStep(s, steps[0], age, gap);
      StepKeeps(s, steps[0]);
      CloserStep(s, steps[0]);
      if steps[0].PetterStep? && s.petter.Petting? {
        LogGrows(t, steps[1..]);
      } else {
        PetsAgain(t, steps[1..], age, gap);
      }
    }
  }

  lemma AwayAlive(s: System)
    requires Alive(s)
    ensures Away(s.petter) >= 1
  {
  }

  /** Undisturbed, the next pet comes exactly ten seconds after the last, or at once when that is past. */
  lemma NextPetOnTime(now: int, steps: seq<Step>)
    requires var s := Run(Init(now), steps); s.petter.Sleeping? && !s.deadman
    ensures var s := Run(Init(now), steps);
            && s.log != []
            && var due := s.log[|s.log| - 1].at + PET_INTERVAL;
            var wake := if s.now < due then due else s.now;
            PetterNext(PetterNext(PetterNext(s.(now := wake)))).log == s.log + [Pet(wake, None, s.lease, false)]
  {
    SpacedRun(Init(now), steps);
  }
}
