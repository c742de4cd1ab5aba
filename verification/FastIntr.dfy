/**
 The fast interrupt controller as a clocked state machine
 (hw/ip/fast_intr_ctrl/rtl/fast_intr_ctrl.sv, fast_intr_ctrl_reg_top.sv), with the register
 primitive `prim_subreg` that holds its state (hw/vendor/pulp_platform/register_interface/vendor/
 lowrisc_opentitan/src/prim_subreg.sv, prim_subreg_arb.sv).
 */
module FastIntr {
  const LINES := 16

  /** `logic [15:0]` */
  type vec16 = v: seq<bool> | |v| == LINES witness seq(LINES, _ => false)

  /** `logic [31:0]` */
  type vec32 = v: seq<bool> | |v| == 32 witness seq(32, _ => false)

  /** Byte enables. */
  type strobe = v: seq<bool> | |v| == 4 witness seq(4, _ => false)

  function Zero(): (v: vec16)
    ensures forall i :: 0 <= i < LINES ==> !v[i]
  {
    seq(LINES, _ => false)
  }

  const PENDING_OFFSET := 0x0
  const CLEAR_OFFSET := 0x4
  const ENABLE_OFFSET := 0x8

  datatype Request = NoRequest | ReadRequest(addr: nat) | WriteRequest(addr: nat, wdata: vec32, wstrb: strobe)

  datatype Registers = Registers(pending: vec16, clear: vec16, enable: vec16)

  /** Every line but the last. */
  function EnableReset(): vec16 { seq(LINES, i => i != 15) }

  function Reset(): Registers { Registers(Zero(), Zero(), EnableReset()) }

  // ---------- the bus side

  function RegAddr(addr: nat): nat { addr % 16 }

  predicate AddrHit(addr: nat) {
    RegAddr(addr) == PENDING_OFFSET || RegAddr(addr) == CLEAR_OFFSET || RegAddr(addr) == ENABLE_OFFSET
  }

  /** An unmapped address, or a write that does not enable both implemented bytes. */
  predicate RegError(req: Request) {
    match req
    case NoRequest => false
    case ReadRequest(addr) => !AddrHit(addr)
    case WriteRequest(addr, _, be) => !AddrHit(addr) || !(be[0] && be[1])
  }

  predicate Writes(req: Request, offset: nat) {
    req.WriteRequest? && RegAddr(req.addr) == offset && !RegError(req)
  }

  /** The written word; what it is without a write does not matter. */
  function WriteData(req: Request): vec16 {
    if req.WriteRequest? then req.wdata[..LINES] else Zero()
  }

  // ---------- the register primitive

  /** The `SWACCESS` parameters that the controller uses. */
  datatype Access = RW | RO

  /** `prim_subreg_arb`: whether the register is written, and with what. */
  function Arbitrate(access: Access, we: bool, wd: vec16, de: bool, d: vec16): (bool, vec16) {
    match access
    case RW => (we || de, if we then wd else d)
    case RO => (de, d)
  }

  /** `prim_subreg` at a clock edge. */
  function SubregNext(access: Access, q: vec16, we: bool, wd: vec16, de: bool, d: vec16): vec16 {
    var (wrEn, wrData) := Arbitrate(access, we, wd, de, d);
    if wrEn then wrData else q
  }

  // ---------- the hardware side

  predicate Any(v: vec16) { exists i :: 0 <= i < LINES && v[i] }

  /** `fast_intr_pending_de` is set for some line. */
  predicate PendingUpdates(r: Registers, source: vec16) {
    exists i :: 0 <= i < LINES && (r.clear[i] || source[i])
  }

  /** The next value of one pending bit when the register is updated. */
  predicate Asserts(r: Registers, source: vec16, i: nat)
    requires i < LINES
  {
    source[i] && r.enable[i] && !r.clear[i]
  }

  function PendingNext(r: Registers, source: vec16): vec16 {
    seq(LINES, i requires 0 <= i < LINES => if r.clear[i] then false else if source[i] then r.enable[i] else false)
  }

  /** One clock edge: software can write the clear and enable registers, hardware the pending and clear registers. */
  function Next(r: Registers, source: vec16, req: Request): Registers {
    Registers(
      SubregNext(RO, r.pending, false, Zero(), PendingUpdates(r, source), PendingNext(r, source)),
      SubregNext(RW, r.clear, Writes(req, CLEAR_OFFSET), WriteData(req), Any(r.clear), Zero()),
      SubregNext(RW, r.enable, Writes(req, ENABLE_OFFSET), WriteData(req), false, Zero()))
  }

  /** The controller; `Clock` is one period, with the outputs seen before the edge. */
  class Controller {
    var pending: vec16
    var clear: vec16
    var enable: vec16

    ghost function State(): Registers
      reads this
    {
      Registers(pending, clear, enable)
    }

    constructor ()
      ensures State() == Reset()
    {
      pending, clear, enable := Zero(), Zero(), EnableReset();
    }

    method Clock(source: vec16, req: Request) returns (fastIntr: vec16, error: bool)
      modifies this
      ensures State() == Next(old(State()), source, req)
      ensures fastIntr == old(pending) && error == RegError(req)
    {
      fastIntr, error := pending, RegError(req);
      var pendingDe: seq<bool>, pendingD: seq<bool>, clearDe: seq<bool> := [], [], [];
      for i := 0 to LINES
        invariant |pendingDe| == |pendingD| == |clearDe| == i
        invariant forall k :: 0 <= k < i ==> pendingDe[k] == (clear[k] || source[k]) && clearDe[k] == clear[k]
        invariant forall k :: 0 <= k < i ==> pendingD[k] == PendingNext(State(), source)[k]
        invariant State() == old(State())
      {
        if clear[i] {
          pendingDe, pendingD, clearDe := pendingDe + [true], pendingD + [false], clearDe + [true];
        } else if source[i] {
          pendingDe, pendingD, clearDe := pendingDe + [true], pendingD + [enable[i]], clearDe + [false];
        } else {
          pendingDe, pendingD, clearDe := pendingDe + [false], pendingD + [false], clearDe + [false];
        }
      }
      assert clearDe == clear && pendingD == PendingNext(State(), source);
      assert Any(pendingDe) <==> PendingUpdates(State(), source);
      pending := SubregNext(RO, pending, false, Zero(), Any(pendingDe), pendingD);
      enable := SubregNext(RW, enable, Writes(req, ENABLE_OFFSET), WriteData(req), false, Zero());
      clear := SubregNext(RW, clear, Writes(req, CLEAR_OFFSET), WriteData(req), Any(clearDe), Zero());
    }
  }

  // ---------- one clock

  /** A write to a register of the block that the bus accepts: both implemented bytes are enabled. */
  predicate Accepted(req: Request, offset: nat) {
    req.WriteRequest? && req.addr % 16 == offset && req.wstrb[0] && req.wstrb[1]
  }

  /**
   One clock, line by line: pending bits change when any line is high or being cleared, the word
   written to offset 4 clears for one clock, and the word written to offset 8 enables.
   */
  lemma ClockMeaning(r: Registers, source: vec16, req: Request, i: nat)
    requires i < 16
    ensures var next := Next(r, source, req);
      && next.pending[i] == (if exists j :: 0 <= j < 16 && (r.clear[j] || source[j])
                             then source[i] && r.enable[i] && !r.clear[i] else r.pending[i])
      && next.clear[i] == (Accepted(req, 4) && req.wdata[i])
      && next.enable[i] == if Accepted(req, 8) then req.wdata[i] else r.enable[i]
  {
    WritesMeaning(req);
    hide Writes;
    PendingBit(r, source, req, i);
    ClearWord(r, source, req);
    assert WriteData(req) == if req.WriteRequest? then req.wdata[..16] else Zero();
  }

  lemma WritesMeaning(req: Request)
    ensures Writes(req, CLEAR_OFFSET) == Accepted(req, 4) && Writes(req, ENABLE_OFFSET) == Accepted(req, 8)
  {}

  /** The bus reports an error for every other offset, and for a write that does not enable both bytes. */
  lemma ErrorMeaning(req: Request)
    ensures RegError(req) <==>
      match req
      case NoRequest => false
      case ReadRequest(addr) => addr % 16 !in {0, 4, 8}
      case WriteRequest(addr, _, be) => addr % 16 !in {0, 4, 8} || !be[0] || !be[1]
  {}

  /** After reset nothing is pending or being cleared, and all lines but the last are enabled. */
  lemma ResetMeaning(i: nat)
    requires i < 16
    ensures !Reset().pending[i] && !Reset().clear[i] && Reset().enable[i] == (i < 15)
  {}

  /** A pending bit after the edge: set by its own source if the register is updated, kept otherwise. */
  lemma PendingBit(r: Registers, source: vec16, req: Request, i: nat)
    requires i < LINES
    ensures Next(r, source, req).pending[i]
       <==> if PendingUpdates(r, source) then Asserts(r, source, i) else r.pending[i]
    ensures Asserts(r, source, i) ==> PendingUpdates(r, source)
  {}

  /** The clear word after the edge is the word just written, or zero. */
  lemma ClearWord(r: Registers, source: vec16, req: Request)
    ensures Next(r, source, req).clear == if Writes(req, CLEAR_OFFSET) then WriteData(req) else Zero()
  {
    if !Any(r.clear) {
      assert r.clear == Zero();
    }
  }

  /**
   An update replaces all 16 bits: a pending interrupt is forgotten exactly when some line
   causes an update while its own source is low, disabled or being cleared.
   */
  lemma PendingLost(r: Registers, source: vec16, req: Request, i: nat)
    requires i < LINES && r.pending[i]
    ensures !Next(r, source, req).pending[i] <==>
      !Asserts(r, source, i) && exists j :: 0 <= j < LINES && (r.clear[j] || source[j])
  {
    PendingBit(r, source, req, i);
  }

  /** For example, line 1 going high makes the controller forget line 0. */
  lemma OtherLineForgets()
    ensures var r := Registers(seq(LINES, i => i == 0), Zero(), EnableReset());
      var source := seq(LINES, i => i == 1);
      r.pending[0] && r.enable[0] && !Next(r, source, NoRequest).pending[0] && Next(r, source, NoRequest).pending[1]
  {
    var r := Registers(seq(LINES, i => i == 0), Zero(), EnableReset());
    var source := seq(LINES, i => i == 1);
    PendingBit(r, source, NoRequest, 0);
    PendingBit(r, source, NoRequest, 1);
  }

  // ---------- runs

  datatype Input = Input(source: vec16, req: Request)

  /** The registers after the first `t` clocks. */
  function StateAt(inputs: seq<Input>, t: nat): Registers
    requires t <= |inputs|
  {
    if t == 0 then Reset() else Next(StateAt(inputs, t - 1), inputs[t - 1].source, inputs[t - 1].req)
  }

  predicate UpdatesAt(inputs: seq<Input>, t: nat)
    requires t < |inputs|
  {
    PendingUpdates(StateAt(inputs, t), inputs[t].source)
  }

  predicate AssertsAt(inputs: seq<Input>, t: nat, i: nat)
    requires t < |inputs| && i < LINES
  {
    Asserts(StateAt(inputs, t), inputs[t].source, i)
  }

  /** `u` is the latest clock before `t` in which the pending register was updated. */
  predicate LatestUpdate(inputs: seq<Input>, t: nat, u: nat)
    requires t <= |inputs|
  {
    u < t && UpdatesAt(inputs, u) && forall v :: u < v < t ==> !UpdatesAt(inputs, v)
  }

  /**
   In every run, a line is pending exactly when, at the latest update of the pending register,
   its source was high, enabled and not being cleared.
   */
  lemma {:induction false} PendingOrigin(inputs: seq<Input>, t: nat, i: nat)
    requires t <= |inputs| && i < LINES
    ensures StateAt(inputs, t).pending[i] <==> exists u: nat :: LatestUpdate(inputs, t, u) && AssertsAt(inputs, u, i)
  {
    hide Next, PendingUpdates, Asserts;
    if t != 0 {
      var s := t - 1;
      PendingOrigin(inputs, s, i);
      PendingBit(StateAt(inputs, s), inputs[s].source, inputs[s].req, i);
      if UpdatesAt(inputs, s) {
        assert LatestUpdate(inputs, t, s);
        assert forall u: nat :: LatestUpdate(inputs, t, u) ==> u == s;
      } else {
        assert forall u: nat :: LatestUpdate(inputs, t, u) <==> LatestUpdate(inputs, s, u);
      }
    }
  }

  /** A source that is held high, enabled and not cleared is pending from the next clock on, whatever the others do. */
  lemma HeldStaysPending(inputs: seq<Input>, start: nat, t: nat, i: nat)
    requires start < t <= |inputs| && i < LINES
    requires forall u :: start <= u < t ==> AssertsAt(inputs, u, i)
    ensures forall u :: start < u <= t ==> StateAt(inputs, u).pending[i]
  {
    hide Next, PendingUpdates, Asserts;
    forall u | start < u <= t ensures StateAt(inputs, u).pending[i] {
      assert AssertsAt(inputs, u - 1, i);
      PendingBit(StateAt(inputs, u - 1), inputs[u - 1].source, inputs[u - 1].req, i);
    }
  }

  /** The clear word lives for one clock: in every state it is what was written in the clock before, or zero. */
  lemma ClearReturnsToZero(inputs: seq<Input>, t: nat)
    requires t <= |inputs|
    ensures StateAt(inputs, t).clear ==
      if t != 0 && Writes(inputs[t - 1].req, CLEAR_OFFSET) then WriteData(inputs[t - 1].req) else Zero()
  {
    if t != 0 {
      ClearWord(StateAt(inputs, t - 1), inputs[t - 1].source, inputs[t - 1].req);
    }
  }

  /** `u` is the latest clock before `t` with an accepted write to the enable register. */
  predicate LatestEnableWrite(inputs: seq<Input>, t: nat, u: nat)
    requires t <= |inputs|
  {
    u < t && Writes(inputs[u].req, ENABLE_OFFSET) && forall v :: u < v < t ==> !Writes(inputs[v].req, ENABLE_OFFSET)
  }

  /** The enable word is the latest one written without error, or the reset value. */
  lemma {:induction false} EnableIsLastWritten(inputs: seq<Input>, t: nat)
    requires t <= |inputs|
    ensures forall u: nat :: LatestEnableWrite(inputs, t, u) ==> StateAt(inputs, t).enable == WriteData(inputs[u].req)
    ensures (forall u: nat :: !LatestEnableWrite(inputs, t, u)) ==> StateAt(inputs, t).enable == EnableReset()
  {
    hide Writes;
    if t != 0 {
      var s := t - 1;
      EnableIsLastWritten(inputs, s);
      if Writes(inputs[s].req, ENABLE_OFFSET) {
        assert LatestEnableWrite(inputs, t, s);
        assert forall u: nat :: LatestEnableWrite(inputs, t, u) ==> u == s;
      } else {
        assert forall u: nat :: LatestEnableWrite(inputs, t, u) <==> LatestEnableWrite(inputs, s, u);
      }
    }
  }
}
