/** The dispatcher's policy as pure functions: which access class a sensor
    belongs to, how the register address is encoded, and how one request is
    split into transactions. */
module Dispatch {
  import opened Hal
  import opened Registers

  /** The who_am_i tags the dispatcher tests for; `OtherDevice` stands for any
      who_am_i value none of the case labels matches. The label constants
      themselves are not modelled, so an `OtherDevice` value is taken to differ
      from every listed sensor's WHO_AM_I value: one that equals, say,
      LPS22HB's would be classified by its constructor here, not by its value
      as the C switch does. */
  datatype Tag =
    | Lsm303agrAcc | Lsm303agrMag | Hts221 | Lps22hb | Lsm6dsl
    | Lps25hb | Lis3mdl | Lsm6ds0 | Lsm6ds3
    | OtherDevice(whoAmI: Byte)

  /** Whether the IKS01A1 case labels are compiled in (the `#ifndef IKS01A2` blocks). */
  datatype Build = Iks01a2Only | WithIks01a1

  /** DrvContextTypeDef as far as the dispatcher uses it. */
  datatype Context = Context(whoAmI: Tag, address: Byte)

  datatype AccessClass =
    | FlagBurst   // multi-byte access needs bit 7 of the register address
    | ByteOnly    // no multi-byte access: one transaction per byte
    | PlainBurst  // multi-byte access with the register address as given

  /** The `switch (ctx->who_am_i)` of Sensor_IO_Write and Sensor_IO_Read. */
  function Classify(tag: Tag, build: Build): (c: AccessClass)
    ensures c == ByteOnly <==> tag == Lps22hb
    ensures c == FlagBurst ==> tag in {Lsm303agrAcc, Lsm303agrMag, Hts221, Lps25hb, Lis3mdl}
    ensures tag in {Lsm303agrAcc, Lsm303agrMag, Hts221} ==> c == FlagBurst
    ensures tag in {Lps25hb, Lis3mdl} ==> (c == FlagBurst <==> build == WithIks01a1)
  {
    match tag
    case Lsm303agrAcc | Lsm303agrMag | Hts221 => FlagBurst
    case Lps25hb | Lis3mdl => if build == WithIks01a1 then FlagBurst else PlainBurst
    case Lps22hb => ByteOnly
    case _ => PlainBurst
  }

  /** One planned transaction: register address, offset into the caller's
      buffer and number of bytes. */
  datatype Step = Step(reg: Byte, offset: nat, len: nat)

  /** Every step stays inside a buffer of `size` bytes. */
  ghost predicate Fits(plan: seq<Step>, size: nat)
  {
    forall i :: 0 <= i < |plan| ==> plan[i].offset + plan[i].len <= size
  }

  /** The steps cover [from, to) exactly, in ascending order, without overlap. */
  ghost predicate Tiles(plan: seq<Step>, from: nat, to: nat)
    decreases |plan|
  {
    if plan == [] then from == to
    else plan[0].offset == from && Tiles(plan[1..], from + plan[0].len, to)
  }

  /** The byte-only split of a `count`-byte access: step k moves byte k on
      its own, at register reg + k taken mod 256 (the register argument of the
      transaction primitive is 8 bits wide). */
  function ByteSteps(reg: Byte, count: nat): seq<Step>
  {
    seq(count, k requires 0 <= k => Step((reg + k) % 0x100, k, 1))
  }

  /** The transactions one Sensor_IO_Write / Sensor_IO_Read of `count` bytes at
      register `reg` issues, in order, when every one of them succeeds. */
  function Plan(c: AccessClass, reg: Byte, count: nat): (plan: seq<Step>)
    ensures Fits(plan, count)
    ensures c == ByteOnly ==> |plan| == count
    ensures c != ByteOnly ==> |plan| == 1 && plan[0].offset == 0 && plan[0].len == count
  {
    match c
    case FlagBurst => [Step(if count > 1 then SetMultiByteBit(reg) else reg, 0, count)]
    case ByteOnly => ByteSteps(reg, count)
    case PlainBurst => [Step(reg, 0, count)]
  }

  /** The byte-only steps from position `from` on tile [from, count). */
  lemma {:induction false} ByteStepsTile(reg: Byte, count: nat, from: nat)
    requires from <= count
    ensures Tiles(ByteSteps(reg, count)[from..], from, count)
    decreases count - from
  {
    var steps := ByteSteps(reg, count);
    if from < count {
      assert steps[from..][1..] == steps[from + 1..];
      ByteStepsTile(reg, count, from + 1);
    }
  }

  /** Whatever the class, the planned transactions together touch exactly the
      caller's buffer[0..count), in ascending order and each byte once. */
  lemma PlanTiles(c: AccessClass, reg: Byte, count: nat)
    ensures Tiles(Plan(c, reg, count), 0, count)
  {
    if c == ByteOnly {
      ByteStepsTile(reg, count, 0);
      assert ByteSteps(reg, count)[0..] == ByteSteps(reg, count);
    } else {
      assert Plan(c, reg, count)[1..] == [];
    }
  }

  /** The device recovers a caller's register address (bit 7 clear) from the
      flagged one by dropping bit 7; a count of 0 or 1 leaves it untouched. */
  lemma FlagBurstRegister(reg: Byte, count: nat)
    requires reg < 0x80
    ensures var r := Plan(FlagBurst, reg, count)[0].reg;
            (r >= 0x80 <==> count > 1) && r % 0x80 == reg
  {
  }
}
