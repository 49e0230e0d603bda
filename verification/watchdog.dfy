/** The watchdog driver as transitions over its two memory-mapped registers:
    the control register (timeout field and enable bit) and the service
    register (written with a magic value to pet the dog). Registers are
    modelled 32 bits wide. */
module Watchdog {

  const DEFAULT_WATCHDOG_TIMEOUT: bv32 := 10
  const TIMEOUT_SHIFT: bv32 := 5
  const WENABLE_SHIFT: bv32 := 3

  /** The sequence written to the service register to pet the dog. */
  const SERVICE_MAGIC: bv32 := 0xABCD

  const ENOTTY: int := 25

  datatype Regs = Regs(control: bv32, service: bv32)

  /** The ioctl commands the driver distinguishes. `SetTimeout` carries the
      integer the driver copies in from the caller's argument. */
  datatype Cmd = Keepalive | SetTimeout(timeout: bv32) | GetTimeout | Unrecognised

  /** What a driver method hands back to its caller. Several methods of the
      driver reach their end without a `return`, so their value is not
      determined by the code. */
  datatype Ret = Unspecified | Code(value: int)

  datatype Outcome = Outcome(regs: Regs, ret: Ret)

  /** Bit `k` of a register value is set. */
  predicate Bit(x: bv32, k: bv32)
    requires k < 32
  {
    (x >> k) & 1 == 1
  }

  /** The per-bit effect of `open` on the control register. */
  lemma OpenBits(c: bv32, x: bv32)
    requires x == (c | (DEFAULT_WATCHDOG_TIMEOUT << TIMEOUT_SHIFT)) | (1 << WENABLE_SHIFT)
    ensures forall k: bv32 | k < 32 :: Bit(x, k) <==> (Bit(c, k) || k == 3 || k == 6 || k == 8)
  {
    forall k: bv32 | k < 32
      ensures Bit(x, k) <==> (Bit(c, k) || k == 3 || k == 6 || k == 8)
    {
    }
  }

  /** `x` is `c` with the enable bit clear and every other bit kept. */
  ghost predicate EnableCleared(x: bv32, c: bv32)
  {
    && !Bit(x, WENABLE_SHIFT)
    && forall k: bv32 | k < 32 && k != WENABLE_SHIFT :: Bit(x, k) == Bit(c, k)
  }

  /** `c & ~(1 << WENABLE_SHIFT)`. */
  function ClearEnable(c: bv32): (x: bv32)
    ensures EnableCleared(x, c)
  {
    ClearEnableBits(c);
    c & !(1 << WENABLE_SHIFT)
  }

  lemma ClearEnableBits(c: bv32)
    ensures EnableCleared(c & !(1 << WENABLE_SHIFT), c)
  {
    var x := c & !(1 << WENABLE_SHIFT);
    assert !Bit(x, WENABLE_SHIFT);
    forall k: bv32 | k < 32 && k != WENABLE_SHIFT
      ensures Bit(x, k) == Bit(c, k)
    {
      ClearBit(c, k);
    }
  }

  lemma ClearBit(c: bv32, k: bv32)
    requires k < 32 && k != WENABLE_SHIFT
    ensures Bit(c & !(1 << WENABLE_SHIFT), k) == Bit(c, k)
  {
  }

  /** Register value `x` holds `t` moved up by `n` bit positions, with the
      low `n` bits clear. */
  ghost predicate HoldsShifted(x: bv32, t: bv32, n: bv32)
    requires n < 32
  {
    forall k: bv32 | k < 32 :: Bit(x, k) <==> (k >= n && Bit(t, k - n))
  }

  /** Bit `k` of `t << n` is bit `k - n` of `t`, and the low `n` bits are
      clear. */
  lemma ShiftBits(t: bv32, n: bv32, x: bv32)
    requires n < 32 && x == t << n
    ensures HoldsShifted(x, t, n)
  {
    forall k: bv32 | k < 32
      ensures Bit(x, k) <==> (k >= n && Bit(t, k - n))
    {
      ShiftBit(t, n, k);
    }
  }

  lemma ShiftBit(t: bv32, n: bv32, k: bv32)
    requires n < 32 && k < 32
    ensures Bit(t << n, k) <==> (k >= n && Bit(t, k - n))
  {
  }

  /** `open`: program the default timeout and set the enable bit. The
      default timeout 10 shifted by 5 occupies bits 6 and 8, so the
      register gains exactly bits 3, 6 and 8. */
  function Open(r: Regs): (r': Regs)
    ensures Bit(r'.control, WENABLE_SHIFT)
    ensures forall k: bv32 | k < 32 ::
      Bit(r'.control, k) <==> (Bit(r.control, k) || k == 3 || k == 6 || k == 8)
    ensures r'.service == r.service
  {
    var c := r.control | (DEFAULT_WATCHDOG_TIMEOUT << TIMEOUT_SHIFT);
    var c' := c | (1 << WENABLE_SHIFT);
    OpenBits(r.control, c');
    r.(control := c')
  }

  /** `release`: unless the kernel is configured NOWAYOUT, clear the enable
      bit; always succeed. */
  function Close(r: Regs, nowayout: bool): (o: Outcome)
    ensures o.ret == Code(0)
    ensures o.regs.service == r.service
    ensures nowayout ==> o.regs == r
    ensures !nowayout ==> EnableCleared(o.regs.control, r.control)
  {
    if nowayout then Outcome(r, Code(0))
    else Outcome(r.(control := ClearEnable(r.control)), Code(0))
  }

  /** `write`: pet the dog whatever the data written. */
  function Write(r: Regs): (o: Outcome)
    ensures o.regs.service == SERVICE_MAGIC
    ensures o.regs.control == r.control
    ensures o.ret == Unspecified
  {
    Outcome(r.(service := SERVICE_MAGIC), Unspecified)
  }

  /** `ioctl`. `timeoutBits` stands for TIMEOUT_BITS, which the driver uses
      but does not define; a shift by the register width or more is
      undefined in C, hence the bound. The timeout is taken as 32 bits and
      shifted with wrap-around, where C leaves a negative or overflowing
      `int` shift undefined. */
  function Ioctl(r: Regs, cmd: Cmd, timeoutBits: bv32): (o: Outcome)
    requires timeoutBits < 32
    ensures cmd == Keepalive ==>
      o.regs.service == SERVICE_MAGIC && o.regs.control == r.control
    ensures cmd.SetTimeout? ==>
      o.regs.service == r.service && HoldsShifted(o.regs.control, cmd.timeout, timeoutBits)
    ensures cmd == GetTimeout ==> o.regs == r
    ensures cmd == Unrecognised <==> o.ret == Code(-ENOTTY)
    ensures cmd != Unrecognised ==> o.ret == Unspecified
    ensures cmd == Unrecognised ==> o.regs == r
  {
    match cmd
    case Keepalive => Outcome(r.(service := SERVICE_MAGIC), Unspecified)
    case SetTimeout(t) =>
      var c := t << timeoutBits;
      ShiftBits(t, timeoutBits, c);
      Outcome(r.(control := c), Unspecified)
    case GetTimeout => Outcome(r, Unspecified)
    case Unrecognised => Outcome(r, Code(-ENOTTY))
  }

  /** Opening twice programs the same register value as opening once. */
  lemma OpenIdempotent(r: Regs)
    ensures Open(Open(r)) == Open(r)
  {
  }

  /** Without NOWAYOUT, closing and reopening restores the register state
      of the first open: close touches nothing but the enable bit. */
  lemma ReopenRestores(r: Regs)
    ensures Open(Close(Open(r), false).regs) == Open(r)
  {
  }

  /** With NOWAYOUT, once opened the watchdog stays enabled after close. */
  lemma NoWayOutStaysEnabled(r: Regs)
    ensures Bit(Close(Open(r), true).regs.control, WENABLE_SHIFT)
  {
  }

  /** Writing to the device and the KEEPALIVE ioctl have the same effect on
      the registers. */
  lemma WriteIsKeepalive(r: Regs, timeoutBits: bv32)
    requires timeoutBits < 32
    ensures Write(r).regs == Ioctl(r, Keepalive, timeoutBits).regs
  {
  }

  /** SETTIMEOUT replaces the control register outright: the result does
      not depend on what was there before, and when the timeout field sits
      above the enable bit the watchdog ends up disabled even if it was
      open. */
  lemma SetTimeoutDiscardsControl(r1: Regs, r2: Regs, t: bv32, timeoutBits: bv32)
    requires timeoutBits < 32
    ensures Ioctl(r1, SetTimeout(t), timeoutBits).regs.control
         == Ioctl(r2, SetTimeout(t), timeoutBits).regs.control
    ensures timeoutBits > WENABLE_SHIFT ==>
      !Bit(Ioctl(Open(r1), SetTimeout(t), timeoutBits).regs.control, WENABLE_SHIFT)
  {
  }
}
