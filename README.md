# X-NUCLEO-IKS01A2 sensor register access, modelled in Dafny

This project models the register-access layer of the X-NUCLEO-IKS01A2
motion/environmental sensor expansion board (`x_nucleo_iks01a2.c`). The sensor
drivers call `Sensor_IO_Write` and `Sensor_IO_Read` to move `count` bytes to or
from register `reg` of one sensor. The dispatcher looks at the sensor's
`who_am_i` tag and picks one of three access classes:

- **flag-burst** (LSM303AGR accelerometer and magnetometer, HTS221, and LPS25HB and LIS3MDL
  when the IKS01A1 case labels are compiled in): one transaction, with bit 7 of the
  register address set when more than one byte moves;
- **byte-only** (LPS22HB): one one-byte transaction per byte, to register `reg + i`
  wrapping at 256, stopping at the first failure;
- **plain-burst** (LSM6DSL and every other tag): one transaction, register as given.

Every transaction goes through `I2C_EXPBD_WriteData` / `I2C_EXPBD_ReadData`. Each
makes exactly one HAL memory-style I2C call with an 8-bit register address and the
shared timeout. When the HAL status is not `HAL_OK`, it calls the error hook once and
returns 1; otherwise it returns 0.

The model has five modules:

- `Hal` (`hal.dfy`) holds the shared datatypes: bytes, HAL statuses, requests and issued
  calls. It also holds the class `ExpansionBus`, which stands for the I2C handle with the
  shared timeout:
  - `log` records every HAL call in order;
  - `sent` (ghost) records, in order, the bytes each HAL write took from its caller's buffer;
  - `errorHookCalls` counts the invocations of the error hook.

  The HAL calls are foreign, so an environment oracle `Env` answers them. It gives the
  status of the n-th call, the bytes a device delivers, and how many leading bytes a
  failing read had already stored when the HAL gave up. The two primitives are methods
  of this class.
- `Registers` (`registers.dfy`) holds the `|= 0x80` register encoding. On a byte this is
  `0x80 + reg % 0x80`, which keeps bits 0-6 and sets bit 7.
- `Dispatch` (`dispatch.dfy`) holds the class selection (`Classify`) and the plan that
  splits one request into transaction steps (`Plan`): register, buffer offset and length
  per step.
- `Transactions` (`transactions.dfy`) holds `Trace`, the calls a plan actually issues
  against the oracle, up to and including the first failure. It also holds `Outcome`, the
  0/1 result, and `Stored`, the caller's buffer after a sequence of calls. The lemmas in
  this module relate these functions to the loops.
- `SensorIO` (`sensor_io.dfy`) holds `Sensor_IO_Write` and `Sensor_IO_Read` as methods on
  the bus. Their contracts say that the log grows by exactly `Trace(Plan(Classify(..)))`,
  that the result is `Outcome` of those calls, that a write sends `Payloads` of those calls
  (for each call, the part of the caller's buffer its request names), and that a read
  leaves the buffer as `Stored`. The module also holds the per-class lemmas.

  Each LPS22HB `for` loop is its own method, `WriteBytewise` / `ReadBytewise`. Each has
  loop invariants, and its early return happens on the first failure.

A request records the pointer handed to the HAL (`&pBuffer[i]`, or `pBuffer`) as an
`offset` into the caller's buffer, together with the `size`. A HAL write appends the
bytes `buf[offset..offset + size)` it took to the bus's `sent` record, so the write
contracts say which bytes went out: a burst write sends `buf[0..count)` in one call
(`BurstWriteSends`), and the i-th LPS22HB write sends `buf[i]` alone
(`ByteOnlyWriteSends`).

## Model

| member | source | states |
|---|---|---|
| Hal.ReturnCode | Drivers/BSP/X_NUCLEO_IKS01A2/x_nucleo_iks01a2.c:391-402 | a primitive returns 0 exactly for `HAL_OK` and 1 for any other status |
| Hal.ExpansionBus.MemWrite | Drivers/BSP/X_NUCLEO_IKS01A2/x_nucleo_iks01a2.c:388-389 | the HAL write appends exactly one call with its arguments to the log and the bytes buf[off..off+size) to the sent record; its status is the oracle's answer for that call number |
| Hal.ExpansionBus.MemRead | Drivers/BSP/X_NUCLEO_IKS01A2/x_nucleo_iks01a2.c:421-422 | the HAL read appends exactly one call to the log; the first `Received` bytes of buf[off..off+size) (all of them on success) receive the device's bytes, and every other byte keeps its value |
| Hal.Received | Drivers/BSP/X_NUCLEO_IKS01A2/x_nucleo_iks01a2.c:421-422 | how many bytes of its range a call stored: none for a write, all of them for a successful read, at most all of them for a failing read |
| Hal.Store | Drivers/BSP/X_NUCLEO_IKS01A2/x_nucleo_iks01a2.c:421-422 | the caller's buffer after one call: same length, with the received prefix of a read's range replaced by the device's bytes |
| Hal.StoreKeepsOutside | Drivers/BSP/X_NUCLEO_IKS01A2/x_nucleo_iks01a2.c:421-422 | a call changes no byte outside the range buf[offset..offset+size) its request names |
| Hal.Payload | Drivers/BSP/X_NUCLEO_IKS01A2/x_nucleo_iks01a2.c:388-389 | the bytes a write request takes from the caller's buffer: buf[offset..offset+size) |
| Hal.ExpansionBus.ErrorHook | Drivers/BSP/X_NUCLEO_IKS01A2/x_nucleo_iks01a2.c:396 | each invocation of the error hook is counted once |
| Hal.ExpansionBus.WriteData | Drivers/BSP/X_NUCLEO_IKS01A2/x_nucleo_iks01a2.c:383-403 | exactly one HAL write to (addr, reg) with 8-bit address size, the given offset and size and the shared timeout, sending pBuffer's `size` bytes buf[off..off+size); the result is 0 iff the status is `HAL_OK`; the error hook runs once on failure and not at all on success |
| Hal.ExpansionBus.ReadData | Drivers/BSP/X_NUCLEO_IKS01A2/x_nucleo_iks01a2.c:416-436 | the same for one HAL read, and the buffer afterwards is as that single read leaves it |
| Registers.SetMultiByteBit | Drivers/BSP/X_NUCLEO_IKS01A2/x_nucleo_iks01a2.c:242 | `WriteAddr \|= 0x80` sets bit 7, keeps bits 0-6, and leaves an address that already has bit 7 unchanged |
| Dispatch.Classify | Drivers/BSP/X_NUCLEO_IKS01A2/x_nucleo_iks01a2.c:231-278 | byte-only exactly for LPS22HB; flag-burst for LSM303AGR acc/mag and HTS221 always, for LPS25HB and LIS3MDL exactly when the IKS01A1 labels are compiled in, and for no other tag; every other tag is plain-burst |
| Dispatch.Plan | Drivers/BSP/X_NUCLEO_IKS01A2/x_nucleo_iks01a2.c:227-291 | every planned step stays inside buf[0..count); byte-only plans have `count` steps; the burst classes plan one step at offset 0 covering `count` bytes |
| Dispatch.ByteSteps | Drivers/BSP/X_NUCLEO_IKS01A2/x_nucleo_iks01a2.c:262-269 | the LPS22HB split: step k moves buffer element k alone (`&pBuffer[i]`, size 1) at register (reg + k) mod 256 |
| Dispatch.PlanTiles | Drivers/BSP/X_NUCLEO_IKS01A2/x_nucleo_iks01a2.c:260-269 | for every class the planned steps cover buf[0..count) exactly, in ascending order, each byte once |
| Dispatch.ByteStepsTile | Drivers/BSP/X_NUCLEO_IKS01A2/x_nucleo_iks01a2.c:262-269 | the byte-only steps from position i onwards cover [i, count) in ascending order |
| Dispatch.FlagBurstRegister | Drivers/BSP/X_NUCLEO_IKS01A2/x_nucleo_iks01a2.c:242 | for a register below 0x80 the flag-burst address has bit 7 set exactly when count > 1, and dropping bit 7 gives back the register |
| Transactions.Trace | Drivers/BSP/X_NUCLEO_IKS01A2/x_nucleo_iks01a2.c:262-269 | the calls a plan issues: its steps in order, each as the next bus call, up to and including the first that fails (the early `return 1` at lines 267 and 344) |
| Transactions.Outcome | Drivers/BSP/X_NUCLEO_IKS01A2/x_nucleo_iks01a2.c:245-251 | the dispatcher's result: 0 when every issued call succeeded, 1 otherwise (`return 1` / `return 0` at lines 247, 251, 267, 271) |
| Transactions.Stored | Drivers/BSP/X_NUCLEO_IKS01A2/x_nucleo_iks01a2.c:339-346 | the caller's buffer after the issued calls, each applied in order by `Store`; its length never changes |
| Transactions.Payloads | Drivers/BSP/X_NUCLEO_IKS01A2/x_nucleo_iks01a2.c:262-269 | the bytes the issued calls took from the caller's buffer, one entry per call |
| Transactions.SingleStepTrace | Drivers/BSP/X_NUCLEO_IKS01A2/x_nucleo_iks01a2.c:245-252 | a one-step plan issues exactly one call, whatever its status |
| Transactions.TraceAt | Drivers/BSP/X_NUCLEO_IKS01A2/x_nucleo_iks01a2.c:262-269 | the i-th call issued is the request of the i-th planned step, as bus call number n + i |
| Transactions.TraceOkBeforeLast | Drivers/BSP/X_NUCLEO_IKS01A2/x_nucleo_iks01a2.c:265-268 | every issued call except the last succeeded |
| Transactions.TraceLength | Drivers/BSP/X_NUCLEO_IKS01A2/x_nucleo_iks01a2.c:262-271 | never more calls than steps; a non-empty plan issues at least one; issuing fewer calls than steps means the last one failed |
| Transactions.TraceStopsAtFailure | Drivers/BSP/X_NUCLEO_IKS01A2/x_nucleo_iks01a2.c:342-345 | if transaction k fails, transactions after k are never issued and the result is 1 |
| Transactions.OutcomeCharacterised | Drivers/BSP/X_NUCLEO_IKS01A2/x_nucleo_iks01a2.c:339-348 | the result is 0 iff every planned transaction was issued and succeeded, and 1 iff the last issued one failed |
| Transactions.ReadWriteSameEncoding | Drivers/BSP/X_NUCLEO_IKS01A2/x_nucleo_iks01a2.c:304-368 | for the same plan, the k-th read and the k-th write request differ only in direction: same device, register, offset and size, 8-bit address size, shared timeout |
| Transactions.ByteCallsAt | Drivers/BSP/X_NUCLEO_IKS01A2/x_nucleo_iks01a2.c:265 | the k-th byte-only call is the one-byte transfer at position k, register reg + k mod 256 |
| Transactions.ByteRunCompletes | Drivers/BSP/X_NUCLEO_IKS01A2/x_nucleo_iks01a2.c:262-271 | when all `count` one-byte transfers succeed, they form the whole byte-only run and the result is 0 |
| Transactions.ByteRunFails | Drivers/BSP/X_NUCLEO_IKS01A2/x_nucleo_iks01a2.c:265-268 | when transfer i is the first to fail, transfers 0..i form the run and the result is 1 |
| Transactions.ByteOnlyTraceFrom | Drivers/BSP/X_NUCLEO_IKS01A2/x_nucleo_iks01a2.c:262-271 | from position `from` onwards, a byte-only run equals the trace of the remaining byte-only steps |
| Transactions.ByteOnlyTrace | Drivers/BSP/X_NUCLEO_IKS01A2/x_nucleo_iks01a2.c:262-271 | a byte-only run issued by the loop is exactly the trace of the byte-only plan |
| Transactions.ByteOnlyTraceIsRun | Drivers/BSP/X_NUCLEO_IKS01A2/x_nucleo_iks01a2.c:339-348 | conversely, the trace of the byte-only plan is a byte-only run: call k is the one-byte transfer at k, all calls but the last succeeded, and it stops short only after a failure |
| Transactions.ByteOnlyStored | Drivers/BSP/X_NUCLEO_IKS01A2/x_nucleo_iks01a2.c:339-346 | after m one-byte reads, buf[j] is the device's byte for read j if that read was issued and stored its byte, and the old byte otherwise |
| SensorIO.Init | Drivers/BSP/X_NUCLEO_IKS01A2/x_nucleo_iks01a2.c:101-112 | `COMPONENT_OK` exactly when the bus initialisation returns 0, `COMPONENT_ERROR` otherwise |
| SensorIO.Write | Drivers/BSP/X_NUCLEO_IKS01A2/x_nucleo_iks01a2.c:227-291 | the log grows by exactly the trace of the sensor's plan, and the sent record by the part of `buf` each of those calls names; the result is 0 iff all of those calls succeeded; the error hook ran once iff the result is 1 |
| SensorIO.WriteBytewise | Drivers/BSP/X_NUCLEO_IKS01A2/x_nucleo_iks01a2.c:259-272 | the LPS22HB write loop issues a byte-only run, one call at a time, each sending the buffer range its request names, and returns at the first failure |
| SensorIO.Read | Drivers/BSP/X_NUCLEO_IKS01A2/x_nucleo_iks01a2.c:304-368 | as Write, and the buffer afterwards is exactly what the issued reads stored |
| SensorIO.ReadBytewise | Drivers/BSP/X_NUCLEO_IKS01A2/x_nucleo_iks01a2.c:336-349 | the LPS22HB read loop issues a byte-only run, filling buf[i] from read i, and returns at the first failure |
| SensorIO.FlagBurstTransaction | Drivers/BSP/X_NUCLEO_IKS01A2/x_nucleo_iks01a2.c:233-252 | flag-burst: exactly one transaction of `count` bytes at offset 0; its register is `reg` when count <= 1, and when count > 1 it has bit 7 set and the low bits of `reg`; that call's status decides the result |
| SensorIO.PlainBurstTransaction | Drivers/BSP/X_NUCLEO_IKS01A2/x_nucleo_iks01a2.c:273-289 | plain-burst: exactly one transaction of `count` bytes at offset 0 with the register unchanged, for every count; its status decides the result |
| SensorIO.ByteOnlyTransaction | Drivers/BSP/X_NUCLEO_IKS01A2/x_nucleo_iks01a2.c:262-269 | LPS22HB: the i-th transaction moves buffer element i alone (offset i, size 1), at register (reg + i) mod 256, as the i-th call on the bus; i < count |
| SensorIO.ZeroCount | Drivers/BSP/X_NUCLEO_IKS01A2/x_nucleo_iks01a2.c:262-271 | count 0: LPS22HB issues no transaction and returns 0; the other classes still issue one size-0 transaction with the register unchanged |
| SensorIO.BurstWriteSends | Drivers/BSP/X_NUCLEO_IKS01A2/x_nucleo_iks01a2.c:233-289 | a single-transaction write sends buf[0..count) in one call, whatever its status |
| SensorIO.ByteOnlyWriteSends | Drivers/BSP/X_NUCLEO_IKS01A2/x_nucleo_iks01a2.c:262-265 | LPS22HB: the i-th write issued sends buf[i] alone, and i < count |
| SensorIO.ByteOnlyReadFills | Drivers/BSP/X_NUCLEO_IKS01A2/x_nucleo_iks01a2.c:339-346 | after an LPS22HB read, buf[j] holds the device's byte exactly when read j was issued and stored its byte, which every successful read does; bytes after a failed read, and beyond count, keep their values |
| SensorIO.BurstReadFills | Drivers/BSP/X_NUCLEO_IKS01A2/x_nucleo_iks01a2.c:308-329 | after a single-transaction read, the first `Received` bytes of buf[0..count) hold the device's bytes, and that is all `count` of them if it succeeded; every other byte keeps its value |

## Left out

- `LSM6DSL_Sensor_IO_ITConfig` and `LPS22HB_Sensor_IO_ITConfig` (lines 121-204) only configure GPIO pins and NVIC interrupts; there is no logic to state.
- The internals of `HAL_I2C_Mem_Write`, `HAL_I2C_Mem_Read`, `I2C_Global_Init` and `I2C_Global_Error` are foreign code. The `Env` oracle answers the HAL calls: a status per call number and request, and the bytes a read delivers. The bus initialisation is the argument of `Init`. The error hook is a counter.
- Hal.ExpansionBus.MemRead: a failed HAL read stores a prefix of its range, as long as the environment chooses, holding the device's bytes. A controller that leaves other values in the buffer is not modelled.
- Timeout and blocking semantics: `I2C_EXPBD_Timeout` (line 74) is only passed through. It is a constant field of the bus, and its 32-bit width is not modelled.
- The `who_am_i` constants are defined in sensor headers that are not part of this model. The tags are therefore an enumeration, plus `OtherDevice` for any value no case label matches.
- Dispatch.Classify: an `OtherDevice` value is assumed to differ from every listed sensor's WHO_AM_I value. One that equalled, say, LPS22HB's would be classified by its constructor, not by its value.
- Host-board selection (`#if` blocks, lines 39-54) is not modelled. The `#ifndef IKS01A2` labels are the `Build` parameter.
- Interrupts and concurrency: the code has no locking and the model is sequential.
- `uint16_t` counts: callers must pass `count < 0x10000`. The `int` loop counter cannot overflow below that bound.
