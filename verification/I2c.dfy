/**
 The bit-banged I2C master (NXP UM10204, sections 3.1.3 to 3.1.6) on a wired-AND bus, against a slave
 that follows the protocol and a monitor that decodes the levels of the two lines.
 */
module I2c {
  import opened Bytes

  // ----- bits and bytes

  const POW: seq<nat> := [1, 2, 4, 8, 16, 32, 64, 128]

  /** `b >> i`. */
  function Shr(b: nat, i: nat): nat {
    if i == 0 then b else Shr(b, i - 1) / 2
  }

  /** The bits of a byte, most significant first. */
  function BitsOf(b: byte): (s: seq<bool>)
    ensures |s| == 8
  {
    seq(8, k requires 0 <= k < 8 => Shr(b, 7 - k) % 2 == 1)
  }

  /** The value of the first `k` bits, at their places in the byte. */
  function Partial(bits: seq<bool>, k: nat): nat
    requires k <= |bits| == 8
  {
    if k == 0 then 0 else Partial(bits, k - 1) + if bits[k - 1] then POW[8 - k] else 0
  }

  function ByteOf(bits: seq<bool>): nat
    requires |bits| == 8
  {
    Partial(bits, 8)
  }

  lemma ShrStep(b: nat, i: nat)
    ensures Shr(b, i) == 2 * Shr(b, i + 1) + Shr(b, i) % 2
  {
  }

  lemma ShrByte(b: byte)
    ensures Shr(b, 7) <= 1
  {
    assert Shr(b, 1) <= 127 && Shr(b, 2) <= 63 && Shr(b, 3) <= 31;
    assert Shr(b, 4) <= 15 && Shr(b, 5) <= 7 && Shr(b, 6) <= 3;
  }

  lemma PartialStep(b: byte, k: nat, below: nat)
    requires 1 <= k <= 8 && Partial(BitsOf(b), k - 1) == 2 * POW[8 - k] * below
    requires Shr(b, 8 - k) == 2 * below + Shr(b, 8 - k) % 2
    ensures Partial(BitsOf(b), k) == POW[8 - k] * Shr(b, 8 - k)
  {
    hide Shr;
    var bit := Shr(b, 8 - k) % 2;
    assert BitsOf(b)[k - 1] <==> bit == 1;
    assert POW[8 - k] * (2 * below + bit) == 2 * POW[8 - k] * below + POW[8 - k] * bit;
  }

  lemma {:induction false} PartialShr(b: byte, k: nat)
    requires 1 <= k <= 8
    ensures Partial(BitsOf(b), k) == POW[8 - k] * Shr(b, 8 - k)
  {
    hide Shr, Partial;
    if k == 1 {
      ShrByte(b);
      PartialNone(BitsOf(b));
      PartialStep(b, 1, 0);
    } else {
      PartialShr(b, k - 1);
      ShrStep(b, 8 - k);
      assert POW[9 - k] == 2 * POW[8 - k];
      PartialStep(b, k, Shr(b, 9 - k));
    }
  }

  lemma PartialNone(bits: seq<bool>)
    requires |bits| == 8
    ensures Partial(bits, 0) == 0
  {
  }

  /** The most significant bit comes first and the least significant last. */
  lemma MsbFirst(b: byte)
    ensures BitsOf(b)[0] <==> b >= 128
    ensures BitsOf(b)[7] <==> b % 2 == 1
  {
    hide Shr;
    var (n, bits) := (b as nat, BitsOf(b));
    assert Shr(n, 0) == n by { ShrNone(n); }
    ShrStep(n, 0);
    ShrStep(n, 1);
    ShrStep(n, 2);
    ShrStep(n, 3);
    ShrStep(n, 4);
    ShrStep(n, 5);
    ShrStep(n, 6);
    assert n == 128 * Shr(n, 7) + n - 128 * Shr(n, 7) && 0 <= n - 128 * Shr(n, 7) < 128;
    assert bits[0] == (Shr(n, 7) % 2 == 1) && bits[7] == (Shr(n, 0) % 2 == 1);
  }

  lemma ShrNone(n: nat)
    ensures Shr(n, 0) == n
  {
  }

  /** The bits of a byte give the byte back. */
  lemma ByteRoundTrip(b: byte)
    ensures ByteOf(BitsOf(b)) == b
  {
    hide Partial;
    PartialShr(b, 8);
  }

  // ----- the monitor: what the levels of the two lines say

  datatype Level = Level(scl: bool, sda: bool)

  datatype Event = StartEv | StopEv | ByteEv(bits: seq<bool>, ack: bool)

  /** `bits` are those clocked since the last START or whole byte. */
  datatype Monitor = Monitor(last: Level, open: bool, bits: seq<bool>, events: seq<Event>)

  /** A change of SDA while SCL is high is a START or a STOP and nothing else; a rising SCL clocks a
      bit; nine bits are a byte and its acknowledge. */
  function Watch(m: Monitor, l: Level): Monitor {
    var n := m.(last := l);
    if m.last.scl && l.scl && m.last.sda && !l.sda then n.(open := true, bits := [], events := m.events + [StartEv])
    else if m.last.scl && l.scl && !m.last.sda && l.sda then
      n.(open := false, bits := [], events := m.events + [StopEv])
    else if !m.last.scl && l.scl && m.open then
      if |m.bits| == 8 then n.(bits := [], events := m.events + [ByteEv(m.bits, !l.sda)])
      else n.(bits := m.bits + [l.sda])
    else n
  }

  /** The monitor after a whole trace that starts on an idle bus. */
  function Decode(trace: seq<Level>): Monitor {
    if trace == [] then Monitor(Level(true, true), false, [], [])
    else Watch(Decode(trace[..|trace| - 1]), trace[|trace| - 1])
  }

  // ----- the slave

  datatype Mode =
    | Off                                 // not addressed: waits for a START
    | Recv(got: seq<bool>, addr: bool)    // receives a byte; the first one after START is the address
    | Acking(send: bool)                  // holds SDA low for the acknowledge
    | Sending(left: seq<bool>)            // drives a bit, `left` still to come
    | Listening                           // released for the master's acknowledge
    | Answered(more: bool)

  /** `sda` is false while the slave pulls SDA low; `rx` and `tx` count bytes received and sent;
      `heard` are the bytes received. */
  datatype Slave = Slave(mode: Mode, sda: bool, rx: nat, tx: nat, heard: seq<seq<bool>>)

  /** How a slave behaves where the protocol leaves it a choice: which bytes it acknowledges, what
      it sends, and for how many polls it stretches each clock. */
  datatype Script = Script(acks: nat -> bool, data: nat -> seq<bool>, stretch: nat -> nat)

  ghost predicate Bytewise(p: Script) {
    forall k: nat :: |p.data(k)| == 8
  }

  function SendNext(p: Script, s: Slave): Slave {
    var d := p.data(s.tx);
    if d == [] then s.(mode := Off, sda := true) else s.(mode := Sending(d[1..]), sda := d[0])
  }

  function OnRise(s: Slave, sda: bool): Slave {
    match s.mode
    case Recv(got, addr) => s.(mode := Recv(got + [sda], addr))
    case Listening => s.(mode := Answered(!sda))
    case _ => s
  }

  function OnFall(p: Script, s: Slave): Slave {
    match s.mode
    case Off => s.(sda := true)
    case Recv(got, addr) =>
      if |got| != 8 then s.(sda := true)
      else
        var t := s.(rx := s.rx + 1, heard := s.heard + [got]);
        if p.acks(s.rx) then t.(mode := Acking(addr && got[7]), sda := false) else t.(mode := Off, sda := true)
    case Acking(send) => if send then SendNext(p, s) else s.(mode := Recv([], false), sda := true)
    case Sending(left) =>
      if left == [] then s.(mode := Listening, sda := true) else s.(mode := Sending(left[1..]), sda := left[0])
    case Listening => s.(mode := Off, sda := true)
    case Answered(more) =>
      var t := s.(tx := s.tx + 1);
      if more then SendNext(p, t) else t.(mode := Off, sda := true)
  }

  // ----- the bus

  /** `mSda` is false while the master pulls SDA low; `scl` is the level of the clock line. */
  datatype Bus = Bus(mSda: bool, scl: bool, slave: Slave, trace: seq<Level>) {
    function Now(): Level {
      Level(scl, mSda && slave.sda)
    }
  }

  function Sda(b: Bus): bool {
    b.mSda && b.slave.sda
  }

  function Log(b: Bus): Bus {
    b.(trace := b.trace + [Level(b.scl, Sda(b))])
  }

  /** The master drives or releases SDA; with the clock high the slave sees a START or a STOP. */
  function SetSda(b: Bus, high: bool): Bus {
    var c := Log(b.(mSda := high));
    if b.scl && Sda(b) && !Sda(c) then c.(slave := c.slave.(mode := Recv([], true), sda := true))
    else if b.scl && !Sda(b) && Sda(c) then c.(slave := c.slave.(mode := Off, sda := true))
    else c
  }

  /** The clock falls, and the slave moves SDA for the next bit. */
  function Fall(p: Script, b: Bus): Bus {
    var c := Log(b.(scl := false));
    Log(c.(slave := OnFall(p, c.slave)))
  }

  /** The clock rises, and the slave samples SDA; a clock that is up already does not rise. */
  function Rise(b: Bus): Bus {
    if b.scl then b else
    var c := Log(b.(scl := true));
    c.(slave := OnRise(c.slave, Sda(c)))
  }

  // ----- one clock

  /** The monitor has seen the lines as they are. */
  ghost predicate InStep(b: Bus) {
    Decode(b.trace).last == Level(b.scl, Sda(b))
  }

  /** A bus on which nothing happens. */
  ghost predicate Idle(b: Bus) {
    b.scl && b.mSda && b.slave.sda && b.slave.mode == Off && InStep(b) && !Decode(b.trace).open
  }

  /** Inside a transaction, at the end of a byte: the clock is low and no bit is pending. */
  ghost predicate Between(b: Bus) {
    !b.scl && InStep(b) && Decode(b.trace).open && Decode(b.trace).bits == []
  }

  /** The slave leaves SDA to the master. */
  ghost predicate Released(s: Slave) {
    s.sda && (s.mode == Off || (s.mode.Recv? && s.mode.got == []))
  }

  lemma DecodeLog(b: Bus)
    ensures Decode(Log(b).trace) == Watch(Decode(b.trace), Level(b.scl, Sda(b)))
    ensures InStep(Log(b))
  {
    hide Watch;
    var t := b.trace + [Level(b.scl, Sda(b))];
    assert t[..|t| - 1] == b.trace;
    WatchLast(Decode(b.trace), Level(b.scl, Sda(b)));
  }

  lemma WatchLast(m: Monitor, l: Level)
    ensures Watch(m, l).last == l
  {
  }

  /** Moving SDA while the clock is low is no event. */
  lemma SetSdaLow(b: Bus, high: bool)
    requires InStep(b) && !b.scl
    ensures var c := SetSda(b, high);
            && InStep(c) && c == b.(mSda := high, trace := c.trace)
            && Decode(c.trace) == Decode(b.trace).(last := c.Now())
  {
    DecodeLog(b.(mSda := high));
  }

  /** A rising clock is one bit for the monitor and one sample for the slave. */
  lemma RiseBit(b: Bus)
    requires InStep(b) && !b.scl && Decode(b.trace).open
    ensures var (c, m) := (Rise(b), Decode(b.trace));
            && InStep(c) && c == b.(scl := true, slave := OnRise(b.slave, Sda(b)), trace := c.trace)
            && Sda(c) == Sda(b)
            && Decode(c.trace) == Clocked(m, Sda(b))
  {
    DecodeLog(b.(scl := true));
  }

  /** The monitor after one more clocked bit. */
  function Clocked(m: Monitor, bit: bool): Monitor {
    if |m.bits| == 8 then m.(last := Level(true, bit), bits := [], events := m.events + [ByteEv(m.bits, !bit)])
    else m.(last := Level(true, bit), bits := m.bits + [bit])
  }

  /** A falling clock is no event, however the slave moves SDA after it. */
  lemma FallQuiet(p: Script, b: Bus)
    requires InStep(b) && b.scl
    ensures var c := Fall(p, b);
            && InStep(c) && c == b.(scl := false, slave := OnFall(p, b.slave), trace := c.trace)
            && Decode(c.trace) == Decode(b.trace).(last := c.Now())
  {
    var c1 := Log(b.(scl := false));
    DecodeLog(b.(scl := false));
    DecodeLog(c1.(slave := OnFall(p, c1.slave)));
  }

  const MAX_POLLS := 1000

  class Master {
    const script: Script
    var bus: Bus
    /** Released clocks that still have polls to wait, and how many clocks there were. */
    var waiting: nat
    var clocks: nat

    constructor (script: Script)
      ensures this.script == script && Quiet()
      ensures bus == Bus(true, true, Slave(Off, true, 0, 0, []), [])
    {
      this.script := script;
      bus, waiting, clocks := Bus(true, true, Slave(Off, true, 0, 0, []), []), 0, 0;
    }

    ghost predicate Quiet()
      reads this
    {
      waiting == 0
    }

    /** Every stretch is short enough for the master to see it out. */
    ghost predicate Patient() {
      forall k: nat :: script.stretch(k) <= MAX_POLLS + 1
    }

    method DriveSda(high: bool)
      modifies this`bus
      ensures bus == SetSda(old(bus), high)
    {
      bus := SetSda(bus, high);
    }

    /** Time passes: a stretched clock comes one poll closer to rising. */
    method Tick()
      modifies this
      ensures clocks == old(clocks)
      ensures waiting == if old(waiting) > 0 then old(waiting) - 1 else 0
      ensures bus == if old(waiting) == 1 then Rise(old(bus)) else old(bus)
    {
      if waiting > 0 {
        waiting := waiting - 1;
        if waiting == 0 {
          bus := Rise(bus);
        }
      }
    }

    /** `scl_high`: release the clock and poll until it is up, at most 1000 times, then one tick
        more. The clock has risen exactly when the stretch was at most 1001 polls. */
    method SclHigh()
      requires Quiet()
      modifies this
      ensures clocks == old(clocks) + 1
      ensures Quiet() <==> old(bus).scl || script.stretch(old(clocks)) <= MAX_POLLS + 1
      ensures Quiet() ==> bus == Rise(old(bus))
      ensures !Quiet() ==> bus == old(bus)
    {
      waiting := if bus.scl then 0 else script.stretch(clocks);
      ghost var s := waiting;
      clocks := clocks + 1;
      if waiting == 0 {
        bus := Rise(bus);
      }
      var i := 0;
      while i < MAX_POLLS && waiting > 0
        invariant i <= MAX_POLLS && clocks == old(clocks) + 1
        invariant waiting == if s >= i then s - i else 0
        invariant bus == if waiting == 0 then Rise(old(bus)) else old(bus)
      {
        Tick();
        i := i + 1;
      }
      Tick();
    }

    method SclLow()
      modifies this`bus
      ensures bus == Fall(script, old(bus))
    {
      bus := Fall(script, bus);
    }

    /** A method of the transaction level runs on a quiet, patient bus and leaves it so. */
    ghost predicate Works()
      reads this
    {
      Quiet() && Patient() && Bytewise(script)
    }

    /** One clock of the byte level: the clock goes up, the lines are sampled, and it goes down. */
    method ClockBit() returns (sample: bool)
      requires Works() && InStep(bus) && !bus.scl && Decode(bus.trace).open
      modifies this
      ensures Works() && InStep(bus) && !bus.scl && bus.mSda == old(bus.mSda)
      ensures sample == old(Sda(bus))
      ensures bus.slave == OnFall(script, OnRise(old(bus.slave), sample))
      ensures Decode(bus.trace) == Clocked(Decode(old(bus.trace)), sample).(last := bus.Now())
    {
      hide Decode, Rise, Fall, OnRise, OnFall, Clocked;
      RiseBit(bus);
      SclHigh();
      sample := Sda(bus);
      FallQuiet(script, bus);
      SclLow();
    }

    /** `bb_start`, from an idle bus or as a repeated START. */
    method BbStart()
      requires Works() && (Idle(bus) || (Between(bus) && Released(bus.slave)))
      modifies this
      ensures Works() && Between(bus) && Released(bus.slave)
      ensures bus.slave == old(bus.slave).(mode := Recv([], true))
      ensures Decode(bus.trace).events == old(Decode(bus.trace)).events + [StartEv]
    {
      hide Decode, Fall;
      if bus.scl {
        SetSdaHigh(bus);
        DriveSda(true);
        SclHigh();
      } else {
        SetSdaLow(bus, true);
        DriveSda(true);
        RiseBit(bus);
        SclHigh();
      }
      StartEdge(bus);
      DriveSda(false);
      FallQuiet(script, bus);
      SclLow();
    }

    /** `bb_stop`: the transaction ends on an idle bus, provided the slave lets SDA go. */
    method BbStop()
      requires Works() && Between(bus) && (Released(bus.slave) || bus.slave.mode.Sending?)
      modifies this
      ensures Works()
      ensures Idle(bus) <==> old(bus.slave.sda)
      ensures bus.slave.rx == old(bus.slave.rx) && bus.slave.tx == old(bus.slave.tx)
      ensures bus.slave.heard == old(bus.slave.heard)
      ensures Decode(bus.trace).events == old(Decode(bus.trace)).events + if old(bus.slave.sda) then [StopEv] else []
    {
      hide Decode;
      SetSdaLow(bus, false);
      DriveSda(false);
      RiseBit(bus);
      SclHigh();
      StopEdge(bus);
      DriveSda(true);
    }

    /** `bb_write_byte`: the monitor decodes exactly the byte written and the slave's answer, which
        is what the caller gets; a listening slave has heard exactly that byte. */
    method BbWriteByte(b: byte) returns (ack: bool)
      requires Works() && Between(bus) && Released(bus.slave)
      modifies this
      ensures Works() && Between(bus)
      ensures Decode(bus.trace).events == old(Decode(bus.trace)).events + [ByteEv(BitsOf(b), ack)]
      ensures ack <==> old(bus.slave.mode).Recv? && script.acks(old(bus.slave.rx))
      ensures bus.slave == AfterByte(script, old(bus.slave), BitsOf(b))
    {
      hide Decode, BitsOf, OnRise, OnFall;
      ghost var s0, m0 := bus.slave, Decode(bus.trace);
      ghost var bits := BitsOf(b);
      for i := 8 downto 0
        invariant Works() && InStep(bus) && !bus.scl
        invariant Decode(bus.trace) == m0.(bits := bits[..8 - i], last := bus.Now())
        invariant bus.slave == Hearing(script, s0, bits, 8 - i)
        invariant i > 0 ==> bus.slave.sda
      {
        HearingStep(script, s0, bits, 8 - i);
        SetSdaLow(bus, Shr(b, i) % 2 == 1);
        assert bits[7 - i] == (Shr(b, i) % 2 == 1) by { BitAt(b, 7 - i); }
        DriveSda(Shr(b, i) % 2 == 1);
        var sample := ClockBit();
        assert bits[..8 - i] == bits[..7 - i] + [sample];
      }
      SetSdaLow(bus, true);
      DriveSda(true);
      AckStep(script, s0, bits);
      var sample := ClockBit();
      ack := !sample;
      assert bits[..8] == bits;
    }

    /** The eight data clocks of a byte read. */
    method ReadBits() returns (v: nat)
      requires Works() && Between(bus) && SendsNow(script, bus.slave) && bus.mSda
      modifies this
      ensures Works() && InStep(bus) && !bus.scl && bus.mSda
      ensures v == ByteOf(script.data(old(bus.slave.tx)))
      ensures Decode(bus.trace) == Decode(old(bus.trace)).(bits := script.data(old(bus.slave.tx)), last := bus.Now())
      ensures bus.slave == Telling(old(bus.slave), script.data(old(bus.slave.tx)), 8)
    {
      hide Decode, OnRise, OnFall, SendNext, Telling;
      ghost var s0, m0 := bus.slave, Decode(bus.trace);
      ghost var bits := script.data(s0.tx);
      TellingStep(script, s0, bits, 0);
      v := 0;
      for i := 8 downto 0
        invariant Works() && InStep(bus) && !bus.scl && bus.mSda
        invariant Decode(bus.trace) == m0.(bits := bits[..8 - i], last := bus.Now())
        invariant bus.slave == Telling(s0, bits, 8 - i)
        invariant v == Partial(bits, 8 - i)
      {
        TellingStep(script, s0, bits, 8 - i);
        var sample := ClockBit();
        assert bits[..8 - i] == bits[..7 - i] + [sample];
        v := v + if sample then POW[i] else 0;
      }
      assert bits[..8] == bits;
    }

    /** `bb_read_byte`: the caller gets exactly the byte the slave drives, and the monitor decodes it
        with the master's answer. */
    method BbReadByte(ack: bool) returns (v: nat)
      requires Works() && Between(bus) && SendsNow(script, bus.slave)
      modifies this
      ensures Works() && Between(bus)
      ensures v == ByteOf(script.data(old(bus.slave.tx)))
      ensures Decode(bus.trace).events == old(Decode(bus.trace)).events + [ByteEv(script.data(old(bus.slave.tx)), ack)]
      ensures var t := old(bus.slave).(tx := old(bus.slave.tx) + 1);
              bus.slave == if ack then SendNext(script, t) else t.(mode := Off, sda := true)
    {
      hide Decode, OnRise, OnFall, SendNext, ByteOf;
      ghost var s0 := bus.slave;
      ghost var bits := script.data(s0.tx);
      SetSdaLow(bus, true);
      DriveSda(true);
      v := ReadBits();
      SetSdaLow(bus, !ack);
      DriveSda(!ack);
      AnswerStep(script, s0, bits, ack);
      var sample := ClockBit();
      SetSdaLow(bus, true);
      DriveSda(true);
    }

    /** `probe`. */
    method Probe(addr: byte) returns (ack: bool)
      requires Works() && Idle(bus)
      modifies this
      ensures Works() && Idle(bus)
      ensures ack <==> script.acks(old(bus.slave.rx))
      ensures Heard(old(bus), bus, [BitsOf(addr * 2 % 256)],
                    [StartEv] + Sent(script, old(bus.slave.rx), [BitsOf(addr * 2 % 256)]) + [StopEv])
    {
      hide Decode, BitsOf;
      WriteAddress(addr);
      BbStart();
      ack := BbWriteByte(addr * 2 % 256);
      BbStop();
      SentOne(script, bus.slave.rx - 1, BitsOf(addr * 2 % 256));
    }

    /** `reg_write`: address, register and value, each only after the one before was acknowledged. */
    method RegWrite(addr: byte, reg: byte, val: byte) returns (ok: bool)
      requires Works() && Idle(bus)
      modifies this
      ensures Works() && Idle(bus)
      ensures ok <==> AllAcked(script, old(bus.slave.rx))
      ensures var sent := [BitsOf(addr * 2 % 256), BitsOf(reg), BitsOf(val)];
              var rx := old(bus.slave.rx);
              Heard(old(bus), bus, sent[..Answered3(script, rx)], [StartEv] + Sent(script, rx, sent) + [StopEv])
    {
      hide Decode, BitsOf;
      ghost var rx := bus.slave.rx;
      ghost var (x, y, z) := (BitsOf(addr * 2 % 256), BitsOf(reg), BitsOf(val));
      WriteAddress(addr);
      SentThree(script, rx, x, y, z);
      BbStart();
      ok := BbWriteByte(addr * 2 % 256);
      if ok {
        ok := BbWriteByte(reg);
        if ok {
          ok := BbWriteByte(val);
        }
      }
      BbStop();
      assert [x, y, z][..1] == [x] && [x, y, z][..2] == [x, y] && [x, y, z][..3] == [x, y, z];
    }

    /** The `n` data bytes of a read: all acknowledged but the last. */
    method ReadBytes(n: nat) returns (out: seq<nat>)
      requires Works() && Between(bus) && bus.slave == SendNext(script, bus.slave)
      modifies this
      ensures Works() && Between(bus) && |out| == n
      ensures forall i :: 0 <= i < n ==> out[i] == ByteOf(script.data(old(bus.slave.tx) + i))
      ensures Heard(old(bus), bus, [], Told(script, old(bus.slave.tx), n, n))
      ensures bus.slave.rx == old(bus.slave.rx)
      ensures n > 0 ==> Released(bus.slave)
      ensures n == 0 ==> bus.slave == old(bus.slave)
    {
      hide Decode;
      out := [];
      ghost var (tx, ev) := (bus.slave.tx, Decode(bus.trace).events);
      ghost var heard := bus.slave.heard;
      for i := 0 to n
        invariant Works() && Between(bus) && |out| == i && bus.slave.rx == old(bus.slave.rx)
        invariant forall j :: 0 <= j < i ==> out[j] == ByteOf(script.data(tx + j))
        invariant Decode(bus.trace).events == ev + Told(script, tx, n, i) && bus.slave.heard == heard
        invariant i == 0 ==> bus.slave == old(bus.slave)
        invariant i < n ==> bus.slave.tx == tx + i && bus.slave == SendNext(script, bus.slave)
        invariant 0 < i == n ==> Released(bus.slave)
      {
        SendNextSends(script, bus.slave);
        var v := BbReadByte(i != n - 1);
        out := out + [v];
        assert Told(script, tx, n, i + 1) == Told(script, tx, n, i) + [ByteEv(script.data(tx + i), i != n - 1)];
      }
    }

    /** The first half of a register read: START, the address for writing, the register. */
    method SelectRegister(w: byte, reg: byte) returns (ok: bool)
      requires Works() && Idle(bus) && !BitsOf(w)[7]
      modifies this
      ensures Works() && Between(bus) && Released(bus.slave) && bus.slave.tx == old(bus.slave.tx)
      ensures ok <==> script.acks(old(bus.slave.rx)) && script.acks(old(bus.slave.rx) + 1)
      ensures ok ==> bus.slave.rx == old(bus.slave.rx) + 2
      ensures Heard(old(bus), bus, [BitsOf(w), BitsOf(reg)][..if script.acks(old(bus.slave.rx)) then 2 else 1],
                    [StartEv] + Sent(script, old(bus.slave.rx), [BitsOf(w), BitsOf(reg)]))
    {
      hide Decode, BitsOf;
      ghost var (x, y) := (BitsOf(w), BitsOf(reg));
      SentTwo(script, bus.slave.rx, x, y);
      assert [x, y][..1] == [x] && [x, y][..2] == [x, y];
      BbStart();
      ok := BbWriteByte(w);
      if ok {
        ok := BbWriteByte(reg);
      }
    }

    /** The second half: repeated START, the address for reading, and the data when it is answered. */
    method ReadSelected(r: byte, n: nat) returns (ok: bool, out: seq<nat>)
      requires Works() && Between(bus) && Released(bus.slave) && BitsOf(r)[7]
      modifies this
      ensures Works() && Between(bus) && (ok <==> script.acks(old(bus.slave.rx)))
      ensures !ok || n > 0 ==> Released(bus.slave)
      ensures ok && n == 0 ==> bus.slave.mode.Sending? && bus.slave.sda == script.data(old(bus.slave.tx))[0]
      ensures ok ==> |out| == n && forall i :: 0 <= i < n ==> out[i] == ByteOf(script.data(old(bus.slave.tx) + i))
      ensures Heard(old(bus), bus, [BitsOf(r)], [StartEv] + Sent(script, old(bus.slave.rx), [BitsOf(r)])
                    + if ok then Told(script, old(bus.slave.tx), n, n) else [])
    {
      hide Decode, BitsOf, Told;
      SentOne(script, bus.slave.rx, BitsOf(r));
      out := [];
      BbStart();
      ok := BbWriteByte(r);
      if ok {
        out := ReadBytes(n);
      }
    }

    /** `reg_read`: on success the caller has exactly the bytes the slave drove. The transaction is
        closed by a STOP on an idle bus on every path, except when no byte is asked for and the
        slave, addressed for reading, holds SDA low for its first bit. */
    method RegRead(addr: byte, reg: byte, n: nat) returns (rc: int, out: seq<nat>)
      requires Works() && Idle(bus)
      modifies this
      ensures Works()
      ensures rc == if AllAcked(script, old(bus.slave.rx)) then 0 else -1
      ensures rc == 0 ==> |out| == n && forall i :: 0 <= i < n ==> out[i] == ByteOf(script.data(old(bus.slave.tx) + i))
      ensures Idle(bus) <==> n >= 1 || rc != 0 || script.data(old(bus.slave.tx))[0]
      ensures Idle(bus) ==>
                var (rx, w) := (old(bus.slave.rx), addr * 2 % 256);
                Heard(old(bus), bus, [BitsOf(w), BitsOf(reg), BitsOf(w + 1)][..Answered3(script, rx)],
                      ReadTranscript(script, rx, old(bus.slave.tx), BitsOf(w), BitsOf(reg), BitsOf(w + 1), n))
    {
      hide Decode, BitsOf, Told, Sent;
      ghost var b0 := bus;
      var w: byte := addr * 2 % 256;
      WriteAddress(addr);
      ghost var (x, y, z) := (BitsOf(w), BitsOf(reg), BitsOf(w + 1));
      assert [x, y, z][..1] == [x, y][..1] && [x, y, z][..2] == [x, y][..2] && [x, y, z][..3] == [x, y] + [z];
      assert [x, y][..2] == [x, y];
      rc, out := -1, [];
      var ok := SelectRegister(w, reg);
      if ok {
        var read;
        read, out := ReadSelected(w + 1, n);
        rc := if read then 0 else -1;
      }
      BbStop();
    }
  }

  /** The slave acknowledges the next three bytes. */
  predicate AllAcked(p: Script, rx: nat) {
    p.acks(rx) && p.acks(rx + 1) && p.acks(rx + 2)
  }

  /** The first `k` of `n` data bytes as the monitor decodes them. */
  function Told(p: Script, tx: nat, n: nat, k: nat): seq<Event> {
    seq(k, i requires 0 <= i < k => ByteEv(p.data(tx + i), i != n - 1))
  }

  lemma SendNextSends(p: Script, s: Slave)
    requires Bytewise(p) && s == SendNext(p, s)
    ensures SendsNow(p, s)
  {
    var d := p.data(s.tx);
    assert [d[0]] + d[1..] == d;
  }

  /** All that a register read puts on the wire. */
  function ReadTranscript(p: Script, rx: nat, tx: nat, w: seq<bool>, reg: seq<bool>, r: seq<bool>, n: nat): seq<Event> {
    [StartEv] + Sent(p, rx, [w, reg])
    + (if !p.acks(rx) || !p.acks(rx + 1) then []
       else [StartEv] + Sent(p, rx + 2, [r]) + if p.acks(rx + 2) then Told(p, tx, n, n) else [])
    + [StopEv]
  }

  /** Between the two states the monitor saw `events` more, and the slave heard `bytes` more. */
  ghost predicate Heard(b: Bus, c: Bus, bytes: seq<seq<bool>>, events: seq<Event>) {
    && Decode(c.trace).events == Decode(b.trace).events + events
    && c.slave.heard == b.slave.heard + bytes
  }

  /** The bytes of a transfer on the wire, each with its acknowledge, up to the first refusal; the
      slave has received `rx` bytes before. */
  function Sent(p: Script, rx: nat, bytes: seq<seq<bool>>): seq<Event>
    decreases |bytes|
  {
    if bytes == [] then []
    else [ByteEv(bytes[0], p.acks(rx))] + if p.acks(rx) then Sent(p, rx + 1, bytes[1..]) else []
  }

  /** How many of three bytes are put on the wire. */
  function Answered3(p: Script, rx: nat): (n: nat)
    ensures 1 <= n <= 3
  {
    if !p.acks(rx) then 1 else if !p.acks(rx + 1) then 2 else 3
  }

  lemma SentOne(p: Script, rx: nat, x: seq<bool>)
    ensures Sent(p, rx, [x]) == [ByteEv(x, p.acks(rx))]
  {
    assert [x][1..] == [];
  }

  lemma SentTwo(p: Script, rx: nat, x: seq<bool>, y: seq<bool>)
    ensures Sent(p, rx, [x, y])
         == [ByteEv(x, p.acks(rx))] + if p.acks(rx) then [ByteEv(y, p.acks(rx + 1))] else []
  {
    assert [x, y][1..] == [y];
    SentOne(p, rx + 1, y);
  }

  lemma SentThree(p: Script, rx: nat, x: seq<bool>, y: seq<bool>, z: seq<bool>)
    ensures Sent(p, rx, [x, y, z])
         == [ByteEv(x, p.acks(rx))] + if !p.acks(rx) then []
            else [ByteEv(y, p.acks(rx + 1))] + if p.acks(rx + 1) then [ByteEv(z, p.acks(rx + 2))] else []
  {
    assert [x, y, z][1..] == [y, z];
    SentTwo(p, rx + 1, y, z);
  }

  /** The address byte of a write has its low bit clear, that of a read has it set. */
  lemma WriteAddress(addr: byte)
    ensures !BitsOf(addr * 2 % 256)[7] && addr * 2 % 256 + 1 < 256 && BitsOf(addr * 2 % 256 + 1)[7]
  {
  }

  lemma BitAt(b: byte, k: nat)
    requires k < 8
    ensures BitsOf(b)[k] == (Shr(b, 7 - k) % 2 == 1)
  {
  }

  /** The slave once a byte sent to it is complete, its acknowledge included. */
  function AfterByte(p: Script, s: Slave, bits: seq<bool>): Slave
    requires |bits| == 8
  {
    if !s.mode.Recv? then s
    else
      var t := s.(rx := s.rx + 1, heard := s.heard + [bits]);
      if !p.acks(s.rx) then t.(mode := Off, sda := true)
      else if s.mode.addr && bits[7] then SendNext(p, t)
      else t.(mode := Recv([], false), sda := true)
  }

  /** The slave after `k` bits of the byte. */
  function Hearing(p: Script, s: Slave, bits: seq<bool>, k: nat): Slave
    requires k <= |bits| == 8
  {
    if !s.mode.Recv? then s
    else if k < 8 then s.(mode := Recv(bits[..k], s.mode.addr))
    else
      var t := s.(rx := s.rx + 1, heard := s.heard + [bits]);
      if p.acks(s.rx) then t.(mode := Acking(s.mode.addr && bits[7]), sda := false) else t.(mode := Off, sda := true)
  }

  lemma HearingStep(p: Script, s: Slave, bits: seq<bool>, k: nat)
    requires |bits| == 8 && k <= 8 && Released(s)
    ensures Hearing(p, s, bits, 0) == s
    ensures k < 8 ==> Hearing(p, s, bits, k).sda
    ensures k < 8 ==> OnFall(p, OnRise(Hearing(p, s, bits, k), bits[k])) == Hearing(p, s, bits, k + 1)
    ensures k > 0 ==> OnFall(p, OnRise(Hearing(p, s, bits, k - 1), bits[k - 1])) == Hearing(p, s, bits, k)
  {
    assert bits[..8] == bits;
    if k < 8 { assert bits[..k] + [bits[k]] == bits[..k + 1]; }
    if k > 0 { assert bits[..k - 1] + [bits[k - 1]] == bits[..k]; }
  }

  lemma AckStep(p: Script, s: Slave, bits: seq<bool>)
    requires |bits| == 8 && Released(s)
    ensures var t := Hearing(p, s, bits, 8);
            && OnFall(p, OnRise(t, t.sda)) == AfterByte(p, s, bits)
            && (t.sda <==> !(s.mode.Recv? && p.acks(s.rx)))
  {
  }

  /** The slave is about to send its next byte: the first bit is on the line. */
  ghost predicate SendsNow(p: Script, s: Slave) {
    s.mode.Sending? && [s.sda] + s.mode.left == p.data(s.tx)
  }

  /** The slave after `k` bits of the byte it sends. */
  function Telling(s: Slave, bits: seq<bool>, k: nat): Slave
    requires k <= |bits| == 8
  {
    if k < 8 then s.(mode := Sending(bits[k + 1..]), sda := bits[k]) else s.(mode := Listening, sda := true)
  }

  lemma TellingStep(p: Script, s: Slave, bits: seq<bool>, k: nat)
    requires |bits| == 8 && k <= 8 && SendsNow(p, s) && bits == p.data(s.tx)
    ensures Telling(s, bits, 0) == s
    ensures k > 0 ==> Telling(s, bits, k - 1).sda == bits[k - 1]
    ensures k > 0 ==> OnFall(p, OnRise(Telling(s, bits, k - 1), bits[k - 1])) == Telling(s, bits, k)
  {
    assert bits[1..] == s.mode.left;
    if 0 < k < 8 { assert bits[k..][1..] == bits[k + 1..] && bits[k..][0] == bits[k]; }
  }

  lemma AnswerStep(p: Script, s: Slave, bits: seq<bool>, ack: bool)
    requires |bits| == 8
    ensures var t := s.(tx := s.tx + 1);
            OnFall(p, OnRise(Telling(s, bits, 8), !ack)) == if ack then SendNext(p, t) else t.(mode := Off, sda := true)
  {
  }

  lemma SetSdaHigh(b: Bus)
    requires Idle(b)
    ensures var c := SetSda(b, true);
            && Idle(c) && c == b.(trace := c.trace) && Decode(c.trace) == Decode(b.trace)
  {
    DecodeLog(b.(mSda := true));
  }

  /** Pulling SDA low under a high clock is a START, and the slave takes it as one. */
  lemma StartEdge(b: Bus)
    requires InStep(b) && b.scl && Sda(b)
    ensures var (c, m) := (SetSda(b, false), Decode(b.trace));
            && InStep(c)
            && c == b.(mSda := false, slave := b.slave.(mode := Recv([], true), sda := true), trace := c.trace)
            && Decode(c.trace) == Monitor(c.Now(), true, [], m.events + [StartEv])
  {
    DecodeLog(b.(mSda := false));
  }

  /** Releasing SDA under a high clock is a STOP, unless the slave still holds the line. */
  lemma StopEdge(b: Bus)
    requires InStep(b) && b.scl && !b.mSda
    ensures var (c, m) := (SetSda(b, true), Decode(b.trace));
            && InStep(c) && c.mSda && c.scl
            && (b.slave.sda ==> c.slave == b.slave.(mode := Off))
            && (b.slave.sda ==> Decode(c.trace) == Monitor(c.Now(), false, [], m.events + [StopEv]))
            && (!b.slave.sda ==> c.slave == b.slave && Decode(c.trace) == m)
  {
    DecodeLog(b.(mSda := true));
  }
}
