/** Sensor_IO_Write and Sensor_IO_Read: the register-access link functions
    the sensor drivers call, proved against the plan of Dispatch and the trace
    of Transactions, and the per-class properties of that specification. */
module SensorIO {
  import opened Hal
  import opened Dispatch
  import opened Transactions
  import opened Registers

  /** DrvStatusTypeDef. */
  datatype DrvStatus = ComponentOk | ComponentError | ComponentTimeout | ComponentNotImplemented

  /** Sensor_IO_Init: the status reported for the return value of the board's
      bus initialisation (I2C_Global_Init). */
  function Init(globalInitResult: Byte): (s: DrvStatus)
    ensures s == ComponentOk <==> globalInitResult == 0
    ensures s != ComponentOk ==> s == ComponentError
  {
    if globalInitResult != 0 then ComponentError else ComponentOk
  }

  /** Sensor_IO_Write: write buf[0..count) to register `reg` of the sensor
      `ctx`. The calls it issues are the trace of its plan, each sending the
      part of `buf` its request names; it returns 1 as soon as one fails and
      0 when all succeed, and the error hook has run once for a failure. */
  method Write(bus: ExpansionBus, build: Build, ctx: Context, reg: Byte, buf: array<Byte>, count: nat)
    returns (r: Byte)
    requires count <= buf.Length
    requires count < SizeLimit
    modifies bus`log, bus`sent, bus`errorHookCalls
    ensures var calls := Trace(bus.env, |old(bus.log)|, Direction.Write, ctx.address, bus.timeout,
                               Plan(Classify(ctx.whoAmI, build), reg, count));
            bus.log == old(bus.log) + calls && r == Outcome(calls) &&
            bus.sent == old(bus.sent) + Payloads(buf[..], calls)
    ensures bus.errorHookCalls == old(bus.errorHookCalls) + r
  {
    var c := Classify(ctx.whoAmI, build);
    if c == ByteOnly {
      ghost var n0 := |bus.log|;
      ghost var calls;
      r, calls := WriteBytewise(bus, ctx.address, reg, buf, count);
      ByteOnlyTrace(bus.env, n0, Direction.Write, ctx.address, bus.timeout, reg, count, calls);
    } else {
      var a := reg;
      if c == FlagBurst && count > 1 {
        a := SetMultiByteBit(a);
      }
      var rc := bus.WriteData(ctx.address, a, buf, 0, count);
      if rc != 0 {
        r := 1;
      } else {
        r := 0;
      }
    }
  }

  /** The LPS22HB branch of Sensor_IO_Write: one one-byte write per position i,
      from buf[i] to register reg + i, stopping at the first failure. */
  method WriteBytewise(bus: ExpansionBus, addr: Byte, reg: Byte, buf: array<Byte>, count: nat)
    returns (r: Byte, ghost calls: seq<Call>)
    requires count <= buf.Length
    modifies bus`log, bus`sent, bus`errorHookCalls
    ensures bus.log == old(bus.log) + calls
    ensures bus.sent == old(bus.sent) + Payloads(buf[..], calls)
    ensures IsByteOnlyRun(bus.env, |old(bus.log)|, Direction.Write, addr, bus.timeout, reg, count, calls)
    ensures r == Outcome(calls)
    ensures bus.errorHookCalls == old(bus.errorHookCalls) + r
  {
    ghost var n0 := |bus.log|;
    ghost var b := buf[..];
    calls := [];
    var i := 0;
    while i < count
      invariant 0 <= i <= count
      invariant bus.log == old(bus.log) + calls
      invariant bus.sent == old(bus.sent) + Payloads(b, calls)
      invariant buf[..] == b
      invariant calls == ByteCalls(bus.env, n0, Direction.Write, addr, bus.timeout, reg, i)
      invariant forall k :: 0 <= k < i ==> ByteCall(bus.env, n0, Direction.Write, addr, bus.timeout, reg, k).status == HalOk
      invariant bus.errorHookCalls == old(bus.errorHookCalls)
    {
      ghost var before := bus.log;
      ghost var sentBefore := bus.sent;
      var rc := bus.WriteData(addr, (reg + i) % 0x100, buf, i, 1);
      ghost var c := ByteCall(bus.env, n0, Direction.Write, addr, bus.timeout, reg, i);
      assert bus.log == before + [c];
      assert (old(bus.log) + calls) + [c] == old(bus.log) + (calls + [c]);
      PayloadsByteStep(old(bus.sent), sentBefore, b, calls, c, i);
      calls := calls + [c];
      if rc != 0 {
        ByteRunFails(bus.env, n0, Direction.Write, addr, bus.timeout, reg, count, i);
        r := 1;
        return;
      }
      i := i + 1;
    }
    ByteRunCompletes(bus.env, n0, Direction.Write, addr, bus.timeout, reg, count);
    r := 0;
  }

  /** Sensor_IO_Read: read `count` bytes from register `reg` of the sensor
      `ctx` into buf[0..count). The calls it issues are the trace of its
      plan, the buffer ends as those calls leave it, and it returns 1 as soon
      as one fails and 0 when all succeed, and the error hook has run once for
      a failure. */
  method Read(bus: ExpansionBus, build: Build, ctx: Context, reg: Byte, buf: array<Byte>, count: nat)
    returns (r: Byte)
    requires count <= buf.Length
    requires count < SizeLimit
    modifies bus`log, bus`errorHookCalls, buf
    ensures var calls := Trace(bus.env, |old(bus.log)|, Direction.Read, ctx.address, bus.timeout,
                               Plan(Classify(ctx.whoAmI, build), reg, count));
            bus.log == old(bus.log) + calls && r == Outcome(calls) &&
            buf[..] == Stored(bus.env, |old(bus.log)|, old(buf[..]), calls)
    ensures bus.errorHookCalls == old(bus.errorHookCalls) + r
  {
    var c := Classify(ctx.whoAmI, build);
    if c == ByteOnly {
      ghost var n0 := |bus.log|;
      ghost var calls;
      r, calls := ReadBytewise(bus, ctx.address, reg, buf, count);
      ByteOnlyTrace(bus.env, n0, Direction.Read, ctx.address, bus.timeout, reg, count, calls);
    } else {
      var a := reg;
      if c == FlagBurst && count > 1 {
        a := SetMultiByteBit(a);
      }
      var rc := bus.ReadData(ctx.address, a, buf, 0, count);
      if rc != 0 {
        r := 1;
      } else {
        r := 0;
      }
      assert [bus.log[|bus.log| - 1]][..0] == [];
    }
  }

  /** The LPS22HB branch of Sensor_IO_Read: one one-byte read per position i,
      from register reg + i into buf[i], stopping at the first failure. */
  method ReadBytewise(bus: ExpansionBus, addr: Byte, reg: Byte, buf: array<Byte>, count: nat)
    returns (r: Byte, ghost calls: seq<Call>)
    requires count <= buf.Length
    modifies bus`log, bus`errorHookCalls, buf
    ensures bus.log == old(bus.log) + calls
    ensures IsByteOnlyRun(bus.env, |old(bus.log)|, Direction.Read, addr, bus.timeout, reg, count, calls)
    ensures r == Outcome(calls)
    ensures bus.errorHookCalls == old(bus.errorHookCalls) + r
    ensures buf[..] == Stored(bus.env, |old(bus.log)|, old(buf[..]), calls)
  {
    ghost var n0 := |bus.log|;
    ghost var b := buf[..];
    calls := [];
    var i := 0;
    while i < count
      invariant 0 <= i <= count
      invariant bus.log == old(bus.log) + calls
      invariant calls == ByteCalls(bus.env, n0, Direction.Read, addr, bus.timeout, reg, i)
      invariant forall k :: 0 <= k < i ==> ByteCall(bus.env, n0, Direction.Read, addr, bus.timeout, reg, k).status == HalOk
      invariant bus.errorHookCalls == old(bus.errorHookCalls)
      invariant buf[..] == Stored(bus.env, n0, b, calls)
    {
      ghost var before := bus.log;
      ghost var bufBefore := buf[..];
      assert |before| == n0 + |calls|;
      var rc := bus.ReadData(addr, (reg + i) % 0x100, buf, i, 1);
      ghost var c := ByteCall(bus.env, n0, Direction.Read, addr, bus.timeout, reg, i);
      assert bus.log == before + [c];
      assert bus.log[|bus.log| - 1] == c;
      assert buf[..] == Store(bus.env, n0 + |calls|, bufBefore, c);
      assert (old(bus.log) + calls) + [c] == old(bus.log) + (calls + [c]);
      StoredSnoc(bus.env, n0, b, calls, c);
      calls := calls + [c];
      if rc != 0 {
        ByteRunFails(bus.env, n0, Direction.Read, addr, bus.timeout, reg, count, i);
        r := 1;
        return;
      }
      i := i + 1;
    }
    ByteRunCompletes(bus.env, n0, Direction.Read, addr, bus.timeout, reg, count);
    r := 0;
  }

  /** LSM303AGR, HTS221 (and LPS25HB, LIS3MDL with the IKS01A1 labels): a
      single transaction over buf[0..count), to a register address that is
      `reg` for a count of 0 or 1 and `reg` with bit 7 set otherwise; its
      status alone decides the result. */
  lemma FlagBurstTransaction(env: Env, n: nat, dir: Direction, addr: Byte, timeout: nat, reg: Byte, count: nat)
    ensures var calls := Trace(env, n, dir, addr, timeout, Plan(FlagBurst, reg, count));
            var a := calls[0].req.memAddr;
            |calls| == 1 &&
            calls[0].req == MemRequest(dir, addr, a, 0, count, timeout) &&
            calls[0].status == env.status(n, calls[0].req) &&
            (count <= 1 ==> a == reg) &&
            (count > 1 ==> a >= 0x80 && a % 0x80 == reg % 0x80) &&
            Outcome(calls) == ReturnCode(calls[0].status)
  {
    var plan := Plan(FlagBurst, reg, count);
    SingleStepTrace(env, n, dir, addr, timeout, plan);
    var calls := Trace(env, n, dir, addr, timeout, plan);
    assert AllOk(calls) <==> calls[0].status == HalOk;
  }

  /** LSM6DSL and every other sensor: a single transaction over
      buf[0..count) to register `reg` as given; its status alone decides the
      result. */
  lemma PlainBurstTransaction(env: Env, n: nat, dir: Direction, addr: Byte, timeout: nat, reg: Byte, count: nat)
    ensures var calls := Trace(env, n, dir, addr, timeout, Plan(PlainBurst, reg, count));
            |calls| == 1 &&
            calls[0].req == MemRequest(dir, addr, reg, 0, count, timeout) &&
            calls[0].status == env.status(n, calls[0].req) &&
            Outcome(calls) == ReturnCode(calls[0].status)
  {
    var plan := Plan(PlainBurst, reg, count);
    SingleStepTrace(env, n, dir, addr, timeout, plan);
    var calls := Trace(env, n, dir, addr, timeout, plan);
    assert AllOk(calls) <==> calls[0].status == HalOk;
  }

  /** LPS22HB: the i-th transaction issued moves buf[i] alone, at register
      reg + i (mod 256), as the i-th call on the bus from the start of the
      access; transactions stop at the first failure (TraceOkBeforeLast,
      TraceLength). */
  lemma ByteOnlyTransaction(env: Env, n: nat, dir: Direction, addr: Byte, timeout: nat, reg: Byte, count: nat, i: nat)
    requires i < |Trace(env, n, dir, addr, timeout, Plan(ByteOnly, reg, count))|
    ensures var c := Trace(env, n, dir, addr, timeout, Plan(ByteOnly, reg, count))[i];
            i < count &&
            c.req == MemRequest(dir, addr, (reg + i) % 0x100, i, 1, timeout) &&
            c.status == env.status(n + i, c.req)
  {
    TraceAt(env, n, dir, addr, timeout, Plan(ByteOnly, reg, count), i);
  }

  /** A zero-byte access: the LPS22HB path issues no transaction and reports
      success; every other path still issues one transaction of size 0 to
      `reg` unchanged. */
  lemma ZeroCount(env: Env, n: nat, dir: Direction, addr: Byte, timeout: nat, c: AccessClass, reg: Byte)
    ensures var calls := Trace(env, n, dir, addr, timeout, Plan(c, reg, 0));
            (c == ByteOnly ==> calls == [] && Outcome(calls) == 0) &&
            (c != ByteOnly ==> |calls| == 1 && calls[0].req == MemRequest(dir, addr, reg, 0, 0, timeout))
  {
    if c != ByteOnly {
      SingleStepTrace(env, n, dir, addr, timeout, Plan(c, reg, 0));
    }
  }

  /** A single-transaction write sends buf[0..count) in one go, whatever its
      status. */
  lemma BurstWriteSends(env: Env, n: nat, addr: Byte, timeout: nat, c: AccessClass, reg: Byte, count: nat, b: seq<Byte>)
    requires c != ByteOnly
    requires count <= |b|
    ensures Payloads(b, Trace(env, n, Direction.Write, addr, timeout, Plan(c, reg, count))) == [b[..count]]
  {
    SingleStepTrace(env, n, Direction.Write, addr, timeout, Plan(c, reg, count));
  }

  /** LPS22HB: the i-th write sends buf[i] alone. */
  lemma ByteOnlyWriteSends(env: Env, n: nat, addr: Byte, timeout: nat, reg: Byte, count: nat, b: seq<Byte>, i: nat)
    requires count <= |b|
    requires i < |Trace(env, n, Direction.Write, addr, timeout, Plan(ByteOnly, reg, count))|
    ensures i < count && Payloads(b, Trace(env, n, Direction.Write, addr, timeout, Plan(ByteOnly, reg, count)))[i] == [b[i]]
  {
    TraceAt(env, n, Direction.Write, addr, timeout, Plan(ByteOnly, reg, count), i);
  }

  /** After an LPS22HB read, buf[j] holds the byte delivered to the j-th read
      when that read was issued and stored its byte, which every successful
      read does; every other byte, in particular those after a failed read,
      keeps its old value. */
  lemma ByteOnlyReadFills(env: Env, n: nat, addr: Byte, timeout: nat, reg: Byte, count: nat, b: seq<Byte>, j: nat)
    requires j < |b|
    ensures var calls := Trace(env, n, Direction.Read, addr, timeout, Plan(ByteOnly, reg, count));
            var after := Stored(env, n, b, calls);
            (j < |calls| && calls[j].status == HalOk ==> Received(env, n + j, calls[j]) == 1) &&
            after[j] == if j < |calls| && Received(env, n + j, calls[j]) == 1 then env.incoming(n + j, calls[j].req, 0) else b[j]
  {
    ByteOnlyTraceIsRun(env, n, Direction.Read, addr, timeout, reg, count);
    var calls := Trace(env, n, Direction.Read, addr, timeout, Plan(ByteOnly, reg, count));
    ByteOnlyStored(env, n, addr, timeout, reg, b, |calls|, j);
    if j < |calls| {
      ByteCallsAt(env, n, Direction.Read, addr, timeout, reg, |calls|, j);
      assert calls[j].req.dir == Direction.Read && calls[j].req.size == 1;
    }
  }

  /** After a single-transaction read, buf[0..count) holds the device's bytes
      when the transaction succeeded; a failed one has filled only the prefix
      that arrived. Beyond what was received the buffer keeps its old
      contents. */
  lemma BurstReadFills(env: Env, n: nat, addr: Byte, timeout: nat, c: AccessClass, reg: Byte, count: nat, b: seq<Byte>, j: nat)
    requires c != ByteOnly
    requires j < |b|
    ensures var calls := Trace(env, n, Direction.Read, addr, timeout, Plan(c, reg, count));
            var after := Stored(env, n, b, calls);
            var k := Received(env, n, calls[0]);
            k <= count && (calls[0].status == HalOk ==> k == count) &&
            after[j] == if j < k then env.incoming(n, calls[0].req, j) else b[j]
  {
    var plan := Plan(c, reg, count);
    SingleStepTrace(env, n, Direction.Read, addr, timeout, plan);
    var calls := Trace(env, n, Direction.Read, addr, timeout, plan);
    assert calls[..0] == [];
    assert Stored(env, n, b, calls) == Store(env, n, b, calls[0]);
  }
}
