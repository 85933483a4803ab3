/** The I2C side of the expansion board: the HAL memory-style transfer calls
    (foreign, answered by an environment oracle), the error hook, and the two
    transaction primitives I2C_EXPBD_WriteData / I2C_EXPBD_ReadData. */
module Hal {

  /** An unsigned 8-bit value: device addresses, register addresses, data bytes. */
  type Byte = x: int | 0 <= x < 0x100

  /** Transfer sizes are `uint16_t`. */
  const SizeLimit: nat := 0x1_0000

  /** HAL_StatusTypeDef. */
  datatype HalStatus = HalOk | HalError | HalBusy | HalTimeout

  datatype Direction = Write | Read

  /** Width of the register address sent on the bus (I2C_MEMADD_SIZE_8BIT / _16BIT). */
  datatype MemAddSize = MemAdd8Bit | MemAdd16Bit

  /** The arguments of one HAL_I2C_Mem_Write / HAL_I2C_Mem_Read call; `offset` is
      where the data pointer points into the caller's buffer, so a write sends
      buf[offset..offset + size) and a read fills that range. */
  datatype Request = Request(dir: Direction, devAddr: Byte, memAddr: Byte, memAddSize: MemAddSize,
                             offset: nat, size: nat, timeout: nat)

  /** One issued HAL call: its request and the status the HAL returned. */
  datatype Call = Call(req: Request, status: HalStatus)

  /** The world outside the core: the status the HAL returns to the n-th call
      on the bus, byte j a device delivers to the n-th call when it is a read,
      and how many leading bytes a failing read had already stored when the
      HAL gave up (a blocking transfer that times out part-way). */
  datatype Env = Env(status: (nat, Request) -> HalStatus, incoming: (nat, Request, nat) -> Byte,
                     partial: (nat, Request) -> nat)

  /** The request a transaction primitive hands to the HAL: 8-bit register
      address and the shared timeout. */
  function MemRequest(dir: Direction, addr: Byte, reg: Byte, offset: nat, size: nat, timeout: nat): Request
  {
    Request(dir, addr, reg, MemAdd8Bit, offset, size, timeout)
  }

  /** The n-th HAL call with request `req` in environment `env`. */
  function Perform(env: Env, n: nat, req: Request): Call
  {
    Call(req, env.status(n, req))
  }

  /** How many leading bytes of its range `c`, the n-th call, stored in the
      caller's buffer: a write stores none, a successful read all of them, a
      failing read the prefix the environment says arrived. */
  function Received(env: Env, n: nat, c: Call): (k: nat)
    ensures k <= c.req.size
    ensures c.req.dir == Read && c.status == HalOk ==> k == c.req.size
    ensures c.req.dir == Write ==> k == 0
  {
    if c.req.dir == Write then 0
    else if c.status == HalOk then c.req.size
    else if env.partial(n, c.req) < c.req.size then env.partial(n, c.req)
    else c.req.size
  }

  /** The bytes a write request takes from the caller's buffer `b`: the range
      buf[offset..offset + size) it names (a range outside the buffer, which no
      planned step has, is taken as empty). */
  function Payload(b: seq<Byte>, req: Request): seq<Byte>
  {
    if req.offset + req.size <= |b| then b[req.offset..req.offset + req.size] else []
  }

  /** The caller's buffer after `c`, the n-th call: a read overwrites the
      first Received bytes of buf[offset..offset + size) with the bytes the
      device sent; every other byte keeps its value. */
  function Store(env: Env, n: nat, b: seq<Byte>, c: Call): (after: seq<Byte>)
    ensures |after| == |b|
  {
    seq(|b|, j requires 0 <= j < |b| => StoreAt(env, n, b[j], c, j))
  }

  /** A call changes no byte outside the range its request names. */
  lemma StoreKeepsOutside(env: Env, n: nat, b: seq<Byte>, c: Call, j: nat)
    requires j < |b|
    requires !(c.req.offset <= j < c.req.offset + c.req.size)
    ensures Store(env, n, b, c)[j] == b[j]
  {
  }

  /** Byte j of the buffer after `c`, the n-th call, when it held `prior`. */
  function StoreAt(env: Env, n: nat, prior: Byte, c: Call, j: nat): Byte
  {
    if c.req.offset <= j < c.req.offset + Received(env, n, c) then env.incoming(n, c.req, j - c.req.offset)
    else prior
  }

  /** The value a primitive returns for a HAL status. */
  function ReturnCode(s: HalStatus): (r: Byte)
    ensures r <= 1
    ensures r == 0 <==> s == HalOk
  {
    if s != HalOk then 1 else 0
  }

  /** The bus handle I2C_EXPBD_Handle together with the shared timeout and the
      error hook. `log` records every HAL call in order, `sent` the bytes each
      HAL write took from its caller's buffer, in order, and `errorHookCalls`
      counts the invocations of I2C_EXPBD_Error. */
  class ExpansionBus {
    const env: Env
    const timeout: nat
    var log: seq<Call>
    ghost var sent: seq<seq<Byte>>
    var errorHookCalls: nat

    constructor (env: Env, timeout: nat)
      ensures this.env == env && this.timeout == timeout
      ensures log == [] && sent == [] && errorHookCalls == 0
    {
      this.env := env;
      this.timeout := timeout;
      log := [];
      sent := [];
      errorHookCalls := 0;
    }

    /** HAL_I2C_Mem_Write: a foreign call, answered by the environment. */
    method MemWrite(devAddr: Byte, memAddr: Byte, memAddSize: MemAddSize,
                    buf: array<Byte>, off: nat, size: nat, timeout: nat) returns (st: HalStatus)
      requires off + size <= buf.Length
      modifies this`log, this`sent
      ensures log == old(log) + [Perform(env, |old(log)|,
                                         Request(Write, devAddr, memAddr, memAddSize, off, size, timeout))]
      ensures sent == old(sent) + [buf[off..off + size]]
      ensures st == log[|log| - 1].status
    {
      var c := Perform(env, |log|, Request(Write, devAddr, memAddr, memAddSize, off, size, timeout));
      log := log + [c];
      sent := sent + [buf[off..off + size]];
      st := c.status;
    }

    /** HAL_I2C_Mem_Read: a foreign call; the device's bytes land in
        buf[off..off + size), all of them on success and a prefix on failure. */
    method MemRead(devAddr: Byte, memAddr: Byte, memAddSize: MemAddSize,
                   buf: array<Byte>, off: nat, size: nat, timeout: nat) returns (st: HalStatus)
      requires off + size <= buf.Length
      modifies this`log, buf
      ensures log == old(log) + [Perform(env, |old(log)|,
                                         Request(Read, devAddr, memAddr, memAddSize, off, size, timeout))]
      ensures st == log[|log| - 1].status
      ensures buf[..] == Store(env, |old(log)|, old(buf[..]), log[|log| - 1])
    {
      var req := Request(Read, devAddr, memAddr, memAddSize, off, size, timeout);
      var n := |log|;
      st := env.status(n, req);
      var k := Received(env, n, Perform(env, n, req));
      forall j | off <= j < off + k {
        buf[j] := env.incoming(n, req, j - off);
      }
      log := log + [Perform(env, n, req)];
    }

    /** I2C_EXPBD_Error (I2C_Global_Error): the externally supplied error hook. */
    method ErrorHook()
      modifies this`errorHookCalls
      ensures errorHookCalls == old(errorHookCalls) + 1
    {
      errorHookCalls := errorHookCalls + 1;
    }

    /** I2C_EXPBD_WriteData: one HAL write of `size` bytes from buf[off..] to
        register `reg` of device `addr`; a failing status runs the error hook once
        and returns 1, success returns 0. */
    method WriteData(addr: Byte, reg: Byte, buf: array<Byte>, off: nat, size: nat) returns (r: Byte)
      requires off + size <= buf.Length
      requires size < SizeLimit
      modifies this`log, this`sent, this`errorHookCalls
      ensures log == old(log) + [Perform(env, |old(log)|, MemRequest(Write, addr, reg, off, size, timeout))]
      ensures sent == old(sent) + [buf[off..off + size]]
      ensures r == ReturnCode(log[|log| - 1].status)
      ensures errorHookCalls == old(errorHookCalls) + r
    {
      var status := MemWrite(addr, reg, MemAdd8Bit, buf, off, size, timeout);
      if status != HalOk {
        ErrorHook();
        return 1;
      } else {
        return 0;
      }
    }

    /** I2C_EXPBD_ReadData: one HAL read of `size` bytes from register `reg` of
        device `addr` into buf[off..]; a failing status runs the error hook once
        and returns 1, success returns 0. */
    method ReadData(addr: Byte, reg: Byte, buf: array<Byte>, off: nat, size: nat) returns (r: Byte)
      requires off + size <= buf.Length
      requires size < SizeLimit
      modifies this`log, this`errorHookCalls, buf
      ensures log == old(log) + [Perform(env, |old(log)|, MemRequest(Read, addr, reg, off, size, timeout))]
      ensures buf[..] == Store(env, |old(log)|, old(buf[..]), log[|log| - 1])
      ensures r == ReturnCode(log[|log| - 1].status)
      ensures errorHookCalls == old(errorHookCalls) + r
    {
      var status := MemRead(addr, reg, MemAdd8Bit, buf, off, size, timeout);
      if status != HalOk {
        ErrorHook();
        return 1;
      } else {
        return 0;
      }
    }
  }
}
