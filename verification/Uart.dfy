/**
 The UART driver against a transmitter that drains its FIFO on its own
 (sw/device/lib/drivers/uart/uart.c, sw/device/lib/runtime/syscalls.c:219-276,
 hw/vendor/lowrisc/opentitan/hw/ip/uart/rtl/uart_core.sv, uart_tx.sv).
 */
module Uart {
  import opened Text
  import opened Bitfield
  import Digits
  import opened Directives
  import opened Rendering
  import Printf

  const INTR_STATE := 0x0
  const INTR_ENABLE := 0x4
  const CTRL := 0xc
  const WDATA := 0x18
  const FIFO_CTRL := 0x1c
  const OVRD := 0x24
  const TIMEOUT_CTRL := 0x2c

  const CTRL_TX_BIT: bitindex := 0
  const CTRL_RX_BIT: bitindex := 1
  const CTRL_PARITY_EN_BIT: bitindex := 6
  const CTRL_NCO_FIELD := Field32(0xffff, 16)
  const STATUS_TXFULL_BIT: bitindex := 0
  const STATUS_TXIDLE_BIT: bitindex := 3
  const WDATA_FIELD := Field32(0xff, 0)
  const FIFO_CTRL_RXRST_BIT: bitindex := 0
  const FIFO_CTRL_TXRST_BIT: bitindex := 1

  // ---------- the transmitter

  /**
   Bytes wait in a bounded FIFO, pass through a shift register and reach the wire; `lost` are
   the bytes written while the FIFO was full, and `enabled` is the TX bit of CTRL.
   */
  datatype Transmitter = Transmitter(fifo: seq<bv8>, shifter: seq<bv8>, wire: seq<bv8>, lost: seq<bv8>, enabled: bool)

  predicate Busy(t: Transmitter) { t.fifo != [] || t.shifter != [] }

  /** Everything accepted so far, in order. */
  function Accepted(t: Transmitter): seq<bv8> { t.wire + t.shifter + t.fifo }

  /** Bytes still to move, counted by the moves they need. */
  function Pending(t: Transmitter): nat { 2 * |t.fifo| + |t.shifter| }

  /** The shift register finishes its byte and takes the next one; nothing moves without TX (uart_core.sv:170, uart_tx.sv:57-73). */
  function Shift(t: Transmitter): Transmitter {
    if !t.enabled then t
    else
      var t' := t.(wire := t.wire + t.shifter, shifter := []);
      if t.fifo == [] then t' else t'.(shifter := [t.fifo[0]], fifo := t.fifo[1..])
  }

  /** A write of the TX bit: while it is off, the shift register is held in reset (uart_tx.sv:58-61). */
  function SetEnable(t: Transmitter, on: bool): Transmitter {
    if on then t.(enabled := true) else t.(enabled := false, shifter := [])
  }

  /** Draining on its own neither loses, repeats nor reorders a byte, and makes progress. */
  lemma ShiftDrains(t: Transmitter)
    ensures Accepted(Shift(t)) == Accepted(t) && Shift(t).lost == t.lost && Shift(t).enabled == t.enabled
    ensures t.enabled && Busy(t) ==> Pending(Shift(t)) < Pending(t)
    ensures t.enabled ==> |Shift(t).fifo| == if t.fifo == [] then 0 else |t.fifo| - 1
    ensures |t.shifter| <= 1 ==> |Shift(t).shifter| <= 1
    ensures t.wire <= Shift(t).wire
  {
    if t.fifo != [] {
      assert t.fifo == [t.fifo[0]] + t.fifo[1..];
    }
  }

  function Drain(t: Transmitter, n: nat): Transmitter
    decreases n
  {
    if n == 0 then t else Drain(Shift(t), n - 1)
  }

  lemma {:induction false} DrainLaws(t: Transmitter, n: nat)
    requires |t.shifter| <= 1
    ensures var t' := Drain(t, n);
      && Accepted(t') == Accepted(t) && t'.lost == t.lost && t'.enabled == t.enabled && |t'.shifter| <= 1
      && Pending(t') <= Pending(t) && |t'.fifo| <= |t.fifo| && t.wire <= t'.wire
      && (0 < n && t.enabled && Busy(t) ==> Pending(t') < Pending(t))
      && (0 < n && t.enabled && t.fifo != [] ==> |t'.fifo| < |t.fifo|)
    decreases n
  {
    if n != 0 {
      ShiftDrains(t);
      DrainLaws(Shift(t), n - 1);
    }
  }

  /** Nothing moves without TX, and nothing without work. */
  predicate StandsStill(t: Transmitter) { t.shifter == [] && (t.enabled ==> t.fifo == []) }

  lemma {:induction false} StillAfter(t: Transmitter, n: nat)
    requires StandsStill(t)
    ensures Drain(t, n) == t
    decreases n
  {
    if n != 0 {
      assert Shift(t) == t;
      StillAfter(t, n - 1);
    }
  }

  // ---------- what a set-up does to bytes in flight

  /** CTRL without TX aborts the frame, the TX reset empties the FIFO: only whole frames are left. */
  function SetUp(t: Transmitter, on: bool): Transmitter { t.(fifo := [], shifter := [], enabled := on) }

  /** A set-up after `n` moves keeps a part of what was accepted, at least what was on the wire before. */
  lemma SetUpCuts(t: Transmitter, n: nat, on: bool)
    requires |t.shifter| <= 1
    ensures var kept := Accepted(SetUp(Drain(t, n), on)); t.wire <= kept <= Accepted(t)
  {
    DrainLaws(t, n);
    var t' := Drain(t, n);
    assert Accepted(SetUp(t', on)) == t'.wire;
    assert Accepted(t') == t'.wire + (t'.shifter + t'.fifo);
  }

  /** It drops nothing exactly when the moves were enough to finish. */
  lemma SetUpKeeps(t: Transmitter, n: nat, on: bool)
    requires |t.shifter| <= 1
    ensures Accepted(SetUp(Drain(t, n), on)) == Accepted(t) <==> !Busy(Drain(t, n))
  {
    DrainLaws(t, n);
    var t' := Drain(t, n);
    assert Accepted(SetUp(t', on)) == t'.wire;
    assert |Accepted(t')| == |t'.wire| + |t'.shifter| + |t'.fifo|;
  }

  /** A set-up drops nothing, however the transmitter moves, if and only if it is idle at entry. */
  lemma SetUpNeedsIdle(t: Transmitter, on: bool)
    requires |t.shifter| <= 1
    ensures (forall n: nat :: Accepted(SetUp(Drain(t, n), on)) == Accepted(t)) <==> !Busy(t)
  {
    if Busy(t) {
      SetUpKeeps(t, 0, on);
      assert Drain(t, 0) == t;
    } else {
      forall n: nat ensures Accepted(SetUp(Drain(t, n), on)) == Accepted(t) {
        StillAfter(t, n);
        SetUpKeeps(t, n, on);
      }
    }
  }

  /** For example, a set-up at once after a byte has entered the shift register loses this byte. */
  lemma FrameAborted()
    ensures var t := Transmitter([], [0x41], [], [], true);
      Accepted(t) == [0x41] && Accepted(SetUp(Drain(t, 0), true)) == []
  {}

  /** A UART as the driver sees it. Time passes with every register access. */
  class Device {
    const depth: nat
    /** How many moves the shift register completes before access number `t`. */
    const moves: nat -> nat
    /** Status bits that do not concern the transmitter. */
    const otherStatus: nat -> bv32
    var now: nat
    var tx: Transmitter
    /** Writes to registers other than WDATA. */
    var writes: seq<(nat, bv32)>

    ghost predicate MovesFrom(t: nat) { exists u: nat :: t <= u && 0 < moves(u) }

    /** The FIFO has room for something, and an enabled transmitter always moves again. */
    ghost predicate Fair() {
      0 < depth && forall t: nat :: MovesFrom(t)
    }

    ghost predicate Valid()
      reads this
    {
      Fair() && |tx.fifo| <= depth && |tx.shifter| <= 1 && (!tx.enabled ==> tx.shifter == [])
    }

    constructor (depth: nat, moves: nat -> nat, otherStatus: nat -> bv32)
      ensures this.depth == depth && this.moves == moves && this.otherStatus == otherStatus
      ensures now == 0 && tx == Transmitter([], [], [], [], false) && writes == []
    {
      this.depth, this.moves, this.otherStatus := depth, moves, otherStatus;
      now, tx, writes := 0, Transmitter([], [], [], [], false), [];
    }

    /** The transmitter's part of the time between two accesses. */
    method Tick()
      requires Valid()
      modifies this`now, this`tx
      ensures Valid() && now == old(now) + 1
      ensures tx == Drain(old(tx), moves(old(now)))
    {
      DrainLaws(tx, moves(now));
      if !tx.enabled { StillAfter(tx, moves(now)); }
      tx := Drain(tx, moves(now));
      now := now + 1;
    }

    /** `mmio_region_read32` of STATUS. */
    method ReadStatus() returns (status: bv32)
      requires Valid()
      modifies this`now, this`tx
      ensures Valid() && now == old(now) + 1
      ensures tx == Drain(old(tx), moves(old(now)))
      ensures BitRead(status, STATUS_TXFULL_BIT) == (|tx.fifo| == depth)
      ensures BitRead(status, STATUS_TXIDLE_BIT) == !Busy(tx)
    {
      Tick();
      status := (otherStatus(now) & 0x32) | (if |tx.fifo| == depth then 1 else 0) | (if tx.fifo == [] then 4 else 0)
        | (if Busy(tx) then 0 else 8);
    }

    /** `mmio_region_write32` of WDATA: a byte that finds the FIFO full is dropped. */
    method WriteData(value: bv32)
      requires Valid()
      modifies this`now, this`tx
      ensures Valid() && now == old(now) + 1
      ensures var t := Drain(old(tx), moves(old(now)));
        var b := DataByte(value);
        tx == if |t.fifo| < depth then t.(fifo := t.fifo + [b]) else t.(lost := t.lost + [b])
    {
      Tick();
      if |tx.fifo| < depth {
        tx := tx.(fifo := tx.fifo + [DataByte(value)]);
      } else {
        tx := tx.(lost := tx.lost + [DataByte(value)]);
      }
    }

    /** A write to any other register. */
    method Write32(offset: nat, value: bv32)
      requires Valid() && offset != WDATA
      modifies this`now, this`tx, this`writes
      ensures Valid() && now == old(now) + 1 && writes == old(writes) + [(offset, value)]
      ensures tx == Written(Drain(old(tx), moves(old(now))), offset, value)
    {
      Tick();
      if offset == CTRL { tx := SetEnable(tx, BitRead(value, CTRL_TX_BIT)); }
      if offset == FIFO_CTRL && BitRead(value, FIFO_CTRL_TXRST_BIT) { tx := tx.(fifo := []); }
      writes := writes + [(offset, value)];
    }
  }

  /** What a register write does to the transmitter: CTRL has the TX bit, FIFO_CTRL the bit that empties the FIFO. */
  function Written(t: Transmitter, offset: nat, value: bv32): Transmitter {
    if offset == CTRL then SetEnable(t, BitRead(value, CTRL_TX_BIT))
    else if offset == FIFO_CTRL && BitRead(value, FIFO_CTRL_TXRST_BIT) then t.(fifo := [])
    else t
  }

  function DataByte(value: bv32): bv8 { (value & 0xff) as bv8 }

  // ---------- the driver

  /** `uart_tx_full` */
  method TxFull(uart: Device) returns (full: bool)
    requires uart.Valid()
    modifies uart`now, uart`tx
    ensures uart.Valid() && uart.now == old(uart.now) + 1
    ensures uart.tx == Drain(old(uart.tx), uart.moves(old(uart.now)))
    ensures full == (|uart.tx.fifo| == uart.depth)
  {
    var reg := uart.ReadStatus();
    full := BitRead(reg, STATUS_TXFULL_BIT);
  }

  /** `uart_tx_idle` */
  method TxIdle(uart: Device) returns (idle: bool)
    requires uart.Valid()
    modifies uart`now, uart`tx
    ensures uart.Valid() && uart.now == old(uart.now) + 1
    ensures uart.tx == Drain(old(uart.tx), uart.moves(old(uart.now)))
    ensures idle == !Busy(uart.tx)
  {
    var reg := uart.ReadStatus();
    idle := BitRead(reg, STATUS_TXIDLE_BIT);
  }

  /** A time from `t` on at which the transmitter moves. */
  ghost function NextMove(uart: Device, t: nat): (u: nat)
    requires uart.Fair()
    ensures t <= u && 0 < uart.moves(u)
  {
    assert uart.MovesFrom(t);
    var u: nat :| t <= u && 0 < uart.moves(u);
    u
  }

  /** `while (uart_tx_full(uart)) {}` */
  method WaitWhileFull(uart: Device)
    requires uart.Valid() && uart.tx.enabled
    modifies uart`now, uart`tx
    ensures uart.Valid() && uart.tx.enabled && |uart.tx.fifo| < uart.depth
    ensures Accepted(uart.tx) == Accepted(old(uart.tx)) && uart.tx.lost == old(uart.tx.lost)
  {
    ghost var deadline := NextMove(uart, uart.now);
    DrainLaws(uart.tx, uart.moves(uart.now));
    var full := TxFull(uart);
    while full
      invariant uart.Valid() && uart.tx.enabled && full == (|uart.tx.fifo| == uart.depth)
      invariant full ==> uart.now <= deadline && 0 < uart.moves(deadline)
      invariant Accepted(uart.tx) == Accepted(old(uart.tx)) && uart.tx.lost == old(uart.tx.lost)
      decreases full, deadline - uart.now
    {
      DrainLaws(uart.tx, uart.moves(uart.now));
      full := TxFull(uart);
    }
  }

  /** `while (!uart_tx_idle(uart)) {}` */
  method WaitUntilIdle(uart: Device)
    requires uart.Valid() && uart.tx.enabled
    modifies uart`now, uart`tx
    ensures uart.Valid() && uart.tx.enabled && !Busy(uart.tx)
    ensures Accepted(uart.tx) == Accepted(old(uart.tx)) && uart.tx.lost == old(uart.tx.lost)
  {
    DrainLaws(uart.tx, uart.moves(uart.now));
    var idle := TxIdle(uart);
    ghost var deadline := NextMove(uart, uart.now);
    while !idle
      invariant uart.Valid() && uart.tx.enabled && idle == !Busy(uart.tx)
      invariant uart.now <= deadline && 0 < uart.moves(deadline)
      invariant Accepted(uart.tx) == Accepted(old(uart.tx)) && uart.tx.lost == old(uart.tx.lost)
      decreases Pending(uart.tx), deadline - uart.now
    {
      DrainLaws(uart.tx, uart.moves(uart.now));
      idle := TxIdle(uart);
      if deadline < uart.now { deadline := NextMove(uart, uart.now); }
    }
  }

  /** This is why the driver may only poll an enabled transmitter: without TX, a waiting byte waits forever. */
  lemma WaitsForever(t: Transmitter)
    requires !t.enabled && t.shifter == [] && t.fifo != []
    ensures forall n: nat :: Drain(t, n) == t && Busy(Drain(t, n))
  {
    forall n: nat ensures Drain(t, n) == t { StillAfter(t, n); }
  }

  lemma IdleIsOnWire(t: Transmitter)
    requires !Busy(t)
    ensures t.wire == Accepted(t)
  {}

  /** `uart_putchar` */
  method PutcharUart(uart: Device, b: bv8)
    requires uart.Valid() && uart.tx.enabled
    modifies uart`now, uart`tx
    ensures uart.Valid() && uart.tx.enabled && !Busy(uart.tx)
    ensures uart.tx.wire == Accepted(uart.tx) == Accepted(old(uart.tx)) + [b] && uart.tx.lost == old(uart.tx.lost)
  {
    // a byte written to a full FIFO would be lost
    WaitWhileFull(uart);
    var reg := FieldWrite(0, WDATA_FIELD, b as bv32);
    DataByteInverts(b);
    DrainLaws(uart.tx, uart.moves(uart.now));
    uart.WriteData(reg);
    // the byte is on the wire when the transmitter is idle again
    WaitUntilIdle(uart);
    IdleIsOnWire(uart.tx);
  }

  lemma DataByteInverts(b: bv8)
    ensures DataByte(FieldWrite(0, WDATA_FIELD, b as bv32)) == b
  {}

  /** `uart_write`: the wire grows by exactly the given bytes, and none is written to a full FIFO. */
  method WriteUart(uart: Device, data: array<bv8>, len0: nat) returns (total: nat)
    requires uart.Valid() && (0 < len0 ==> uart.tx.enabled) && len0 <= data.Length
    modifies uart`now, uart`tx
    ensures uart.Valid() && total == len0 && uart.tx.lost == old(uart.tx.lost) && uart.tx.enabled == old(uart.tx.enabled)
    ensures 0 < len0 ==> !Busy(uart.tx) && uart.tx.wire == Accepted(old(uart.tx)) + data[..len0]
    ensures len0 == 0 ==> uart.tx == old(uart.tx) && uart.now == old(uart.now)
  {
    total := len0;
    var p, len := 0, len0;
    while len > 0
      invariant p + len == len0 && uart.Valid() && uart.tx.lost == old(uart.tx.lost)
      invariant uart.tx.enabled == old(uart.tx.enabled)
      invariant Accepted(uart.tx) == Accepted(old(uart.tx)) + data[..p]
      invariant 0 < p ==> !Busy(uart.tx)
      invariant p == 0 ==> uart.tx == old(uart.tx) && uart.now == old(uart.now)
    {
      PutcharUart(uart, data[p]);
      p, len := p + 1, len - 1;
    }
    if 0 < len0 { IdleIsOnWire(uart.tx); }
  }

  // ---------- initialisation

  datatype UartConfig = UartConfig(baudrate: uint32, nco: uint64, clkFreqHz: uint32)

  datatype InitResult = InitOk | InvalidArgument | BadBaudRate

  /**
   `uart_reset`: the control registers, both FIFO resets, and all interrupts acknowledged. What is
   on the wire when CTRL is cleared stays, and everything behind it is dropped.
   */
  method Reset(uart: Device)
    requires uart.Valid()
    modifies uart`now, uart`tx, uart`writes
    ensures uart.Valid() && uart.writes == old(uart.writes) + ResetWrites()
    ensures uart.writes == old(uart.writes)
      + [(0xc, 0 as bv32), (0x1c, 3), (0x24, 0), (0x2c, 0), (0x4, 0), (0x0, 0xffff_ffff)]
    ensures uart.tx == SetUp(Drain(old(uart.tx), uart.moves(old(uart.now))), false)
  {
    hide Drain, BitRead, BitWrite, Device.Fair, Device.Valid;
    TxOff();
    uart.Write32(CTRL, 0);
    var reg: bv32 := 0;
    reg := BitWrite(reg, FIFO_CTRL_RXRST_BIT, true);
    reg := BitWrite(reg, FIFO_CTRL_TXRST_BIT, true);
    BothFifoResets();
    WriteStill(uart, FIFO_CTRL, reg);
    WriteStill(uart, OVRD, 0);
    WriteStill(uart, TIMEOUT_CTRL, 0);
    WriteStill(uart, INTR_ENABLE, 0);
    WriteStill(uart, INTR_STATE, 0xffff_ffff);
  }

  /** A register write while nothing moves. */
  method WriteStill(uart: Device, offset: nat, value: bv32)
    requires uart.Valid() && offset != WDATA && StandsStill(uart.tx)
    modifies uart`now, uart`tx, uart`writes
    ensures uart.Valid() && uart.writes == old(uart.writes) + [(offset, value)]
    ensures uart.tx == Written(old(uart.tx), offset, value)
  {
    hide Drain, Written;
    StillAfter(uart.tx, uart.moves(uart.now));
    uart.Write32(offset, value);
  }

  lemma TxOff()
    ensures !BitRead(0, CTRL_TX_BIT)
  {}

  lemma TxOn(nco: uint64)
    ensures BitRead(ControlWord(Divisor(nco)), CTRL_TX_BIT)
  {
    hide ControlWord, FieldRead, BitRead, Word16;
    ControlWordReadsBack(Word16(nco % TWO_16));
  }

  lemma BothFifoResets()
    ensures BitWrite(BitWrite(0, FIFO_CTRL_RXRST_BIT, true), FIFO_CTRL_TXRST_BIT, true) == 3
    ensures BitRead(3, FIFO_CTRL_TXRST_BIT)
  {}

  function ResetWrites(): seq<(nat, bv32)> {
    [(CTRL, 0 as bv32), (FIFO_CTRL, 3), (OVRD, 0), (TIMEOUT_CTRL, 0), (INTR_ENABLE, 0), (INTR_STATE, 0xffff_ffff)]
  }

  /** The word written to CTRL. */
  function ControlWord(nco: bv32): bv32 {
    var reg := FieldWrite(0, CTRL_NCO_FIELD, nco);
    var reg := BitWrite(reg, CTRL_TX_BIT, true);
    var reg := BitWrite(reg, CTRL_PARITY_EN_BIT, false);
    BitWrite(reg, CTRL_RX_BIT, true)
  }

  /** The CTRL word reads back the divisor, has transmitter and receiver on, and nothing else. */
  lemma ControlWordReadsBack(nco: bv16)
    ensures var word := ControlWord(nco as bv32);
      && FieldRead(word, CTRL_NCO_FIELD) == nco as bv32
      && BitRead(word, CTRL_TX_BIT) && BitRead(word, CTRL_RX_BIT)
      && word & 0x0000_fffc == 0
  {}

  /** `nco & UART_CTRL_NCO_MASK`, as a register value. */
  function Divisor(nco: uint64): bv32 { Word16(nco % TWO_16) as bv32 }

  /** The conversion has a name, so that proofs can hide it. */
  function Word16(n: nat): bv16
    requires n < TWO_16
  {
    n as bv16
  }

  /** `uart_init` */
  method Init(uart: Device, config: UartConfig) returns (r: InitResult)
    requires uart.Valid()
    modifies uart`now, uart`tx, uart`writes
    ensures uart.Valid() && r == InitOutcome(config)
    ensures r.InitOk? <==> config.baudrate != 0 && config.clkFreqHz != 0 && config.nco < 0x1_0000
    ensures r.InvalidArgument? <==> config.baudrate == 0 || config.clkFreqHz == 0
    ensures uart.writes == old(uart.writes) + if r.InitOk? then InitWrites(config) else []
    ensures !r.InitOk? ==> uart.tx == old(uart.tx) && uart.now == old(uart.now)
    ensures r.InitOk? ==> uart.tx == SetUp(Drain(old(uart.tx), uart.moves(old(uart.now))), true)
  {
    hide ControlWord, ResetWrites, BitRead, Divisor, Drain, Device.Fair, Device.Valid;
    if config.baudrate == 0 || config.clkFreqHz == 0 { return InvalidArgument; }
    var nco_masked := config.nco % TWO_16;
    // the divisor has more than 16 bits
    if config.nco != nco_masked { return BadBaudRate; }
    Reset(uart);
    TxOn(config.nco);
    WriteStill(uart, CTRL, ControlWord(Divisor(config.nco)));
    WriteStill(uart, INTR_ENABLE, 0);
    r := InitOk;
  }

  function InitOutcome(config: UartConfig): InitResult {
    if config.baudrate == 0 || config.clkFreqHz == 0 then InvalidArgument
    else if TWO_16 <= config.nco then BadBaudRate
    else InitOk
  }

  function InitWrites(config: UartConfig): seq<(nat, bv32)> {
    ResetWrites() + [(CTRL, ControlWord(Divisor(config.nco))), (INTR_ENABLE, 0)]
  }

  /** The register writes of a successful set-up: those of the reset, the divisor with TX and RX on, no interrupts. */
  lemma InitWritesMeaning(config: UartConfig)
    requires config.nco < 0x1_0000
    ensures InitWrites(config)[..6] == [(0xc, 0 as bv32), (0x1c, 3), (0x24, 0), (0x2c, 0), (0x4, 0), (0x0, 0xffff_ffff)]
    ensures |InitWrites(config)| == 8 && InitWrites(config)[6].0 == 0xc && InitWrites(config)[7] == (0x4, 0 as bv32)
    ensures var word := InitWrites(config)[6].1; (word >> 16) as nat == config.nco && word & 0xffff == 3
  {
    hide ControlWord, Divisor;
    assert InitWrites(config)[..6] == ResetWrites();
    DivisorSmall(config.nco);
    ControlWordIs(Divisor(config.nco));
    DivisorKeeps(config.nco);
  }

  lemma ControlWordIs(nco: bv32)
    requires nco <= 0xffff
    ensures ControlWord(nco) >> 16 == nco && ControlWord(nco) & 0xffff == 3
  {}

  lemma DivisorSmall(nco: uint64)
    ensures Divisor(nco) <= 0xffff
  {
    hide Word16;
  }

  // ---------- the baud rate

  const TWO_20 := 0x10_0000

  /** The divisor of `_write` and `_putchar`; the 64-bit shift cannot overflow. */
  function Nco(baudrate: uint32, clk: uint32): (nco: uint64)
    requires clk != 0
  {
    baudrate * TWO_20 / clk
  }

  lemma QuotientRange(n: nat, d: nat)
    requires 0 < d
    ensures n / d * d <= n < n / d * d + d
  {}

  /**
   The computed divisor is accepted exactly when the clock is more than 16 times the baud rate,
   and then the rate it produces, `nco * clk / 2^20`, is at most the requested one and less than
   `clk / 2^20` below it. Below one baud per 2^20 clocks the divisor is accepted, too, but it is 0.
   */
  lemma NcoAccepted(baudrate: uint32, clk: uint32)
    requires baudrate != 0 && clk != 0
    ensures baudrate * TWO_20 < TWO_64
    ensures InitOutcome(UartConfig(baudrate, Nco(baudrate, clk), clk)).InitOk? <==> 16 * baudrate < clk
    ensures Nco(baudrate, clk) == 0 <==> baudrate * TWO_20 < clk
    ensures Nco(baudrate, clk) * clk <= baudrate * TWO_20 < Nco(baudrate, clk) * clk + clk
    ensures var rate := (Nco(baudrate, clk) * clk) as real / TWO_20 as real;
      baudrate as real - clk as real / TWO_20 as real < rate <= baudrate as real
  {
    QuotientRange(baudrate * TWO_20, clk);
    var nco := Nco(baudrate, clk);
    if nco != 0 { Digits.MulMonotone(1, nco, clk); }
    if 16 * baudrate < clk && TWO_16 <= nco {
      Digits.MulMonotone(TWO_16, nco, clk);
    }
    if clk <= 16 * baudrate && nco + 1 <= TWO_16 {
      Digits.MulMonotone(nco + 1, TWO_16, clk);
    }
  }

  lemma WordDoubles(x: bv16)
    requires x as nat < 0x8000
    ensures (x << 1) as nat == 2 * (x as nat) && ((x << 1) | 1) as nat == 2 * (x as nat) + 1
  {}

  lemma WordConverts(x: bv16)
    ensures Word16(x as nat) == x && (x as bv32) as nat == x as nat
  {}

  /** Every number below 2^16 is a 16-bit word; by its binary digits. */
  lemma {:induction false} WordExists(n: nat) returns (x: bv16)
    requires n < TWO_16
    ensures x as nat == n
  {
    if n == 0 {
      x := 0;
    } else {
      var half := WordExists(n / 2);
      WordDoubles(half);
      x := if n % 2 == 0 then half << 1 else (half << 1) | 1;
    }
  }

  lemma DivisorKeeps(n: nat)
    requires n < TWO_16
    ensures Divisor(n) as nat == n
  {
    hide Word16, Divisor;
    DivisorIs(n);
    var x := WordExists(n);
    WordConverts(x);
  }

  lemma DivisorIs(n: nat)
    requires n < TWO_16
    ensures Divisor(n) == Word16(n) as bv32
  {
    hide Word16;
  }

  /** A baud rate that can be reached ends up in the NCO field of CTRL, rounded down. */
  lemma DivisorProgrammed(baudrate: uint32, clk: uint32)
    requires baudrate != 0 && 16 * baudrate < clk
    ensures var word := ControlWord(Divisor(Nco(baudrate, clk)));
      && FieldRead(word, CTRL_NCO_FIELD) as nat == baudrate * TWO_20 / clk
      && BitRead(word, CTRL_TX_BIT) && BitRead(word, CTRL_RX_BIT) && word & 0x0000_fffc == 0
  {
    hide ControlWord, FieldRead, BitRead, Word16, Divisor;
    NcoAccepted(baudrate, clk);
    var nco := Nco(baudrate, clk);
    DivisorIs(nco);
    ControlWordReadsBack(Word16(nco));
    DivisorKeeps(nco);
  }

  // ---------- the console

  /** `_write`, `_putchar` and the state of the latter: the UART is set up by the first character. */
  class Console {
    const uart: Device
    const config: UartConfig
    var initialized: bool

    /** A console that has set the UART up finds it enabled. */
    ghost predicate Valid()
      reads this, uart
    {
      uart.Valid() && (initialized ==> uart.tx.enabled)
    }

    predicate Ready()
      reads this
    {
      initialized || InitOutcome(config).InitOk?
    }

    constructor (uart: Device, config: UartConfig)
      ensures this.uart == uart && this.config == config && !initialized
    {
      this.uart, this.config, this.initialized := uart, config, false;
    }

    /** `_write`: every call sets the UART up again, and the bytes follow what is on the wire at that moment. */
    method WriteSyscall(file: int, data: array<bv8>, len: nat) returns (r: int)
      requires Valid() && len <= data.Length
      modifies uart`now, uart`tx, uart`writes
      ensures Valid() && uart.tx.lost == old(uart.tx.lost)
      ensures r == if file != 1 || !InitOutcome(config).InitOk? then -1 else len
      ensures r == -1 <==> file != 1 || config.baudrate == 0 || config.clkFreqHz == 0 || 0x1_0000 <= config.nco
      ensures r == -1 ==> uart.tx == old(uart.tx)
      ensures r == len ==>
        !Busy(uart.tx) && uart.tx.wire == Drain(old(uart.tx), uart.moves(old(uart.now))).wire + data[..len]
      ensures r == len && !Busy(old(uart.tx)) ==> uart.tx.wire == old(uart.tx.wire) + data[..len]
    {
      OutcomeMeaning(config);
      DrainLaws(uart.tx, uart.moves(uart.now));
      if !Busy(uart.tx) { StillAfter(uart.tx, uart.moves(uart.now)); }
      hide Device.Fair, Device.Valid, InitOutcome, Drain;
      if file != 1 { return -1; }
      var init := Init(uart, config);
      if init != InitOk { return -1; }
      IdleIsOnWire(uart.tx);
      r := WriteUart(uart, data, len);
    }

    /** What the next byte of this console will follow. */
    ghost function Before(): seq<bv8>
      reads this, uart
    {
      if initialized then Accepted(uart.tx) else Drain(uart.tx, uart.moves(uart.now)).wire
    }

    /** `_putchar`; only the first character sets the UART up. */
    method Putchar(character: char)
      requires Valid()
      modifies this`initialized, uart`now, uart`tx, uart`writes
      ensures Valid() && Ready() == old(Ready()) && initialized == Ready() && uart.tx.lost == old(uart.tx.lost)
      ensures !Ready() ==> uart.tx == old(uart.tx) && uart.now == old(uart.now)
      ensures Ready() ==> !Busy(uart.tx) && uart.tx.wire == Accepted(uart.tx) == old(Before()) + [CharByte(character)]
      ensures Ready() ==> uart.tx.wire[|old(Before())|] as nat == character as nat % 256
    {
      CharByteIs(character);
      DrainLaws(uart.tx, uart.moves(uart.now));
      hide Device.Fair, Device.Valid, InitOutcome, Drain, CharByte;
      if !initialized {
        var init := Init(uart, config);
        if init == InitOk {
          initialized := true;
          IdleIsOnWire(uart.tx);
        }
      }
      if initialized { PutcharUart(uart, CharByte(character)); }
    }

    /** An idle transmitter has nothing to lose. */
    lemma IdleBefore()
      requires Valid() && !Busy(uart.tx)
      ensures Before() == uart.tx.wire
    {
      StillAfter(uart.tx, uart.moves(uart.now));
    }

    /**
     `printf_` with this console behind `_putchar`: the text, without its NULs, goes out on the
     wire byte by byte, provided that the baud rate can be reached. Only the set-up before the first
     character can drop bytes that are not on the wire yet.
     */
    method Print(fmt: cstring, args: seq<Argument>) returns (ret: int)
      requires Valid() && Printable(fmt, args)
      modifies this`initialized, uart`now, uart`tx, uart`writes
      ensures Valid() && uart.tx.lost == old(uart.tx.lost) && Ready() == old(Ready())
      ensures ret == AsInt32(|Render(Pieces(fmt), args)|)
      ensures var text := CharBytes(Printf.NonNul(Render(Pieces(fmt), args)));
        && (!Ready() || text == [] ==> uart.tx == old(uart.tx))
        && (Ready() && text != [] ==> !Busy(uart.tx) && uart.tx.wire == old(Before()) + text)
        && (Ready() && !Busy(old(uart.tx)) ==> !Busy(uart.tx) && uart.tx.wire == old(uart.tx.wire) + text)
      ensures var text := Printf.NonNul(Render(Pieces(fmt), args));
        var n := |old(Before())|;
        Ready() && text != "" ==>
          && |uart.tx.wire| == n + |text| && uart.tx.wire[..n] == old(Before())
          && forall i :: 0 <= i < |text| ==> uart.tx.wire[n + i] as nat == text[i] as nat % 256
    {
      hide Pieces, AllComplete, Kinds, Supplies, AllInRange, Render, Printf.NonNul, Device.Fair, Device.Valid,
        InitOutcome, Busy, Drain, CharByte;
      var delivered;
      ret, delivered := Printf.Printf(fmt, args);
      ghost var start, before := uart.tx, Before();
      if !Busy(start) { IdleBefore(); }
      assert CharBytes(delivered[..0]) == [];
      for i := 0 to |delivered|
        invariant Valid() && Ready() == old(Ready()) && uart.tx.lost == start.lost
        invariant i == 0 ==> initialized == old(initialized)
        invariant i == 0 || !Ready() ==> uart.tx == start && uart.now == old(uart.now)
        invariant i != 0 && Ready() ==>
          initialized && !Busy(uart.tx) && uart.tx.wire == Accepted(uart.tx) == before + CharBytes(delivered[..i])
      {
        assert CharBytes(delivered[..i + 1]) == CharBytes(delivered[..i]) + [CharByte(delivered[i])];
        Putchar(delivered[i]);
        if Ready() {
          assert before + CharBytes(delivered[..i]) + [CharByte(delivered[i])] == before + CharBytes(delivered[..i + 1]);
        }
      }
      assert delivered[..|delivered|] == delivered;
      CharBytesAre(delivered);
    }
  }

  lemma OutcomeMeaning(config: UartConfig)
    ensures InitOutcome(config).InitOk? <==> config.baudrate != 0 && config.clkFreqHz != 0 && config.nco < 0x1_0000
  {}

  lemma CharByteIs(c: char)
    ensures CharByte(c) as nat == c as nat % 256
  {
    hide Byte8;
    ByteConverts(c as nat % 256);
  }

  lemma ByteConverts(n: nat)
    requires n < 256
    ensures Byte8(n) as nat == n
  {
    hide Byte8;
    var x := ByteExists(n);
    ByteReturns(x);
  }

  lemma ByteReturns(x: bv8)
    ensures Byte8(x as nat) == x
  {}

  lemma ByteDoubles(x: bv8)
    requires x as nat < 0x80
    ensures (x << 1) as nat == 2 * (x as nat) && ((x << 1) | 1) as nat == 2 * (x as nat) + 1
  {}

  lemma {:induction false} ByteExists(n: nat) returns (x: bv8)
    requires n < 256
    ensures x as nat == n
  {
    if n == 0 {
      x := 0;
    } else {
      var half := ByteExists(n / 2);
      ByteDoubles(half);
      x := if n % 2 == 0 then half << 1 else (half << 1) | 1;
    }
  }

  lemma CharBytesAre(s: string)
    ensures |CharBytes(s)| == |s|
    ensures forall i :: 0 <= i < |s| ==> CharBytes(s)[i] as nat == s[i] as nat % 256
  {
    hide CharByte;
    forall i | 0 <= i < |s| ensures CharBytes(s)[i] as nat == s[i] as nat % 256 { CharByteIs(s[i]); }
  }

  /** `(uint8_t)character` */
  function CharByte(c: char): bv8 { Byte8(c as nat % TWO_8) }

  function Byte8(n: nat): bv8
    requires n < TWO_8
  {
    n as bv8
  }

  function CharBytes(s: string): seq<bv8> { seq(|s|, i requires 0 <= i < |s| => CharByte(s[i])) }
}
