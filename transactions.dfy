/** What running a plan on the bus produces: the HAL calls actually issued
    (stopping at the first failure), the value the dispatcher returns, and the
    caller's buffer afterwards. */
module Transactions {
  import opened Hal
  import opened Dispatch

  /** The HAL request for one planned step. */
  function RequestFor(dir: Direction, addr: Byte, timeout: nat, s: Step): Request
  {
    MemRequest(dir, addr, s.reg, s.offset, s.len, timeout)
  }

  predicate AllOk(calls: seq<Call>)
  {
    forall i :: 0 <= i < |calls| ==> calls[i].status == HalOk
  }

  /** The calls issued when `plan` runs on a bus whose next call is number `n`:
      the steps in order, up to and including the first one that fails. */
  function Trace(env: Env, n: nat, dir: Direction, addr: Byte, timeout: nat, plan: seq<Step>): seq<Call>
    decreases |plan|
  {
    if plan == [] then []
    else
      var c := Perform(env, n, RequestFor(dir, addr, timeout, plan[0]));
      if c.status == HalOk then [c] + Trace(env, n + 1, dir, addr, timeout, plan[1..])
      else [c]
  }

  /** A one-step plan issues exactly one call, whatever its status. */
  lemma SingleStepTrace(env: Env, n: nat, dir: Direction, addr: Byte, timeout: nat, plan: seq<Step>)
    requires |plan| == 1
    ensures Trace(env, n, dir, addr, timeout, plan) == [Perform(env, n, RequestFor(dir, addr, timeout, plan[0]))]
  {
    assert plan[1..] == [];
    assert Trace(env, n + 1, dir, addr, timeout, plan[1..]) == [];
  }

  /** Call i of the trace is step i of the plan, issued as call number n + i. */
  lemma {:induction false} TraceAt(env: Env, n: nat, dir: Direction, addr: Byte, timeout: nat,
                                   plan: seq<Step>, i: nat)
    requires i < |Trace(env, n, dir, addr, timeout, plan)|
    ensures i < |plan|
    ensures Trace(env, n, dir, addr, timeout, plan)[i] == Perform(env, n + i, RequestFor(dir, addr, timeout, plan[i]))
    decreases i
  {
    if i > 0 {
      TraceAt(env, n + 1, dir, addr, timeout, plan[1..], i - 1);
      assert plan[1..][i - 1] == plan[i];
    }
  }

  /** Every call of the trace but the last one succeeded. */
  lemma {:induction false} TraceOkBeforeLast(env: Env, n: nat, dir: Direction, addr: Byte, timeout: nat,
                                             plan: seq<Step>, i: nat)
    requires i + 1 < |Trace(env, n, dir, addr, timeout, plan)|
    ensures Trace(env, n, dir, addr, timeout, plan)[i].status == HalOk
    decreases i
  {
    if i > 0 {
      TraceOkBeforeLast(env, n + 1, dir, addr, timeout, plan[1..], i - 1);
    }
  }

  /** A non-empty plan issues at least one call and never more calls than it
      has steps; the trace stops short of the plan only after a failure. */
  lemma {:induction false} TraceLength(env: Env, n: nat, dir: Direction, addr: Byte, timeout: nat, plan: seq<Step>)
    ensures var calls := Trace(env, n, dir, addr, timeout, plan);
            |calls| <= |plan| && (plan != [] ==> calls != []) &&
            (|calls| < |plan| ==> calls[|calls| - 1].status != HalOk)
    decreases |plan|
  {
    if plan != [] {
      var c := Perform(env, n, RequestFor(dir, addr, timeout, plan[0]));
      if c.status == HalOk {
        TraceLength(env, n + 1, dir, addr, timeout, plan[1..]);
      }
    }
  }

  /** Sensor_IO_Write / Sensor_IO_Read's result for the calls it issued. */
  function Outcome(calls: seq<Call>): Byte
  {
    if AllOk(calls) then 0 else 1
  }

  /** A dispatcher call returns 0 exactly when every planned transaction was
      issued and succeeded, and 1 exactly when one failed, which is then the
      last one issued. */
  lemma OutcomeCharacterised(env: Env, n: nat, dir: Direction, addr: Byte, timeout: nat, plan: seq<Step>)
    ensures var calls := Trace(env, n, dir, addr, timeout, plan);
            (Outcome(calls) == 0 <==> |calls| == |plan| && AllOk(calls)) &&
            (Outcome(calls) == 1 <==> calls != [] && calls[|calls| - 1].status != HalOk)
  {
    var calls := Trace(env, n, dir, addr, timeout, plan);
    TraceLength(env, n, dir, addr, timeout, plan);
    if !AllOk(calls) {
      var i :| 0 <= i < |calls| && calls[i].status != HalOk;
      if i + 1 < |calls| {
        TraceOkBeforeLast(env, n, dir, addr, timeout, plan, i);
      }
    }
  }

  /** A failed transaction is the last one issued: the steps after it are
      never attempted, and the dispatcher reports failure. */
  lemma TraceStopsAtFailure(env: Env, n: nat, dir: Direction, addr: Byte, timeout: nat, plan: seq<Step>, k: nat)
    requires k < |Trace(env, n, dir, addr, timeout, plan)|
    requires Trace(env, n, dir, addr, timeout, plan)[k].status != HalOk
    ensures |Trace(env, n, dir, addr, timeout, plan)| == k + 1
    ensures Outcome(Trace(env, n, dir, addr, timeout, plan)) == 1
  {
    if k + 1 < |Trace(env, n, dir, addr, timeout, plan)| {
      TraceOkBeforeLast(env, n, dir, addr, timeout, plan, k);
    }
  }

  /** Read and Write share the request encoding: whatever the environments,
      the k-th transaction of a read and of a write of the same plan differ in
      their direction only, and use the device address, an 8-bit register
      address and the shared timeout. */
  lemma ReadWriteSameEncoding(envR: Env, envW: Env, nR: nat, nW: nat, addr: Byte, timeout: nat,
                              plan: seq<Step>, k: nat)
    requires k < |Trace(envR, nR, Read, addr, timeout, plan)|
    requires k < |Trace(envW, nW, Write, addr, timeout, plan)|
    ensures var r := Trace(envR, nR, Read, addr, timeout, plan)[k].req;
            var w := Trace(envW, nW, Write, addr, timeout, plan)[k].req;
            r.dir == Read && w.dir == Write && r.(dir := Write) == w &&
            r.devAddr == addr && r.memAddSize == MemAdd8Bit && r.timeout == timeout
  {
    TraceAt(envR, nR, Read, addr, timeout, plan, k);
    TraceAt(envW, nW, Write, addr, timeout, plan, k);
  }

  /** The caller's buffer after `calls`, numbered from n on the bus, applied in order. */
  function Stored(env: Env, n: nat, b: seq<Byte>, calls: seq<Call>): (after: seq<Byte>)
    decreases |calls|
    ensures |after| == |b|
  {
    if calls == [] then b
    else Store(env, n + |calls| - 1, Stored(env, n, b, calls[..|calls| - 1]), calls[|calls| - 1])
  }

  /** One more call extends the buffer's history by one Store. */
  lemma StoredSnoc(env: Env, n: nat, b: seq<Byte>, calls: seq<Call>, c: Call)
    ensures Stored(env, n, b, calls + [c]) == Store(env, n + |calls|, Stored(env, n, b, calls), c)
  {
    assert (calls + [c])[..|calls|] == calls;
  }

  /** The bytes `calls` took from the caller's buffer `b`, one entry per call. */
  function Payloads(b: seq<Byte>, calls: seq<Call>): (ps: seq<seq<Byte>>)
    ensures |ps| == |calls|
  {
    seq(|calls|, k requires 0 <= k < |calls| => Payload(b, calls[k].req))
  }

  /** One more call adds its own payload. */
  lemma PayloadsSnoc(b: seq<Byte>, calls: seq<Call>, c: Call)
    ensures Payloads(b, calls + [c]) == Payloads(b, calls) + [Payload(b, c.req)]
  {
  }

  /** A one-byte write at position i extends a record of sent payloads by buf[i] alone. */
  lemma PayloadsByteStep(sent0: seq<seq<Byte>>, sent: seq<seq<Byte>>, b: seq<Byte>, calls: seq<Call>, c: Call, i: nat)
    requires sent == sent0 + Payloads(b, calls)
    requires c.req.offset == i && c.req.size == 1 && i < |b|
    ensures sent + [b[i..i + 1]] == sent0 + Payloads(b, calls + [c])
  {
    PayloadsSnoc(b, calls, c);
  }

  /** The call the byte-only path issues for buffer position k. */
  function ByteCall(env: Env, n0: nat, dir: Direction, addr: Byte, timeout: nat, reg: Byte, k: nat): Call
  {
    Perform(env, n0 + k, MemRequest(dir, addr, (reg + k) % 0x100, k, 1, timeout))
  }

  /** The calls the byte-only path issues for positions 0..m-1 when each of
      them is issued. */
  function ByteCalls(env: Env, n0: nat, dir: Direction, addr: Byte, timeout: nat, reg: Byte, m: nat): (calls: seq<Call>)
    ensures |calls| == m
  {
    if m == 0 then [] else ByteCalls(env, n0, dir, addr, timeout, reg, m - 1) + [ByteCall(env, n0, dir, addr, timeout, reg, m - 1)]
  }

  lemma {:induction false} ByteCallsAt(env: Env, n0: nat, dir: Direction, addr: Byte, timeout: nat,
                                       reg: Byte, m: nat, k: nat)
    requires k < m
    ensures ByteCalls(env, n0, dir, addr, timeout, reg, m)[k] == ByteCall(env, n0, dir, addr, timeout, reg, k)
    decreases m
  {
    if k < m - 1 {
      ByteCallsAt(env, n0, dir, addr, timeout, reg, m - 1, k);
    }
  }

  /** The byte-only calls for positions below m all succeeded. */
  lemma ByteCallsAllOk(env: Env, n0: nat, dir: Direction, addr: Byte, timeout: nat, reg: Byte, m: nat)
    requires forall k :: 0 <= k < m ==> ByteCall(env, n0, dir, addr, timeout, reg, k).status == HalOk
    ensures AllOk(ByteCalls(env, n0, dir, addr, timeout, reg, m))
  {
    forall k | 0 <= k < m
      ensures ByteCalls(env, n0, dir, addr, timeout, reg, m)[k].status == HalOk
    {
      ByteCallsAt(env, n0, dir, addr, timeout, reg, m, k);
    }
  }

  /** `calls` is what the byte-only path issued for `count` positions: call k
      is the one-byte transfer at position k, every call but the last
      succeeded, and the run stops short of `count` only after a failure. */
  ghost predicate IsByteOnlyRun(env: Env, n0: nat, dir: Direction, addr: Byte, timeout: nat,
                                reg: Byte, count: nat, calls: seq<Call>)
  {
    |calls| <= count &&
    calls == ByteCalls(env, n0, dir, addr, timeout, reg, |calls|) &&
    (forall k :: 0 <= k < |calls| - 1 ==> calls[k].status == HalOk) &&
    (|calls| < count ==> calls != [] && calls[|calls| - 1].status != HalOk)
  }

  /** When every one-byte transfer succeeds, all `count` of them form a
      byte-only run, and the dispatcher reports success. */
  lemma ByteRunCompletes(env: Env, n0: nat, dir: Direction, addr: Byte, timeout: nat, reg: Byte, count: nat)
    requires forall k :: 0 <= k < count ==> ByteCall(env, n0, dir, addr, timeout, reg, k).status == HalOk
    ensures var calls := ByteCalls(env, n0, dir, addr, timeout, reg, count);
            IsByteOnlyRun(env, n0, dir, addr, timeout, reg, count, calls) && Outcome(calls) == 0
  {
    ByteCallsAllOk(env, n0, dir, addr, timeout, reg, count);
  }

  /** When transfer i is the first to fail, the transfers up to and including
      it form a byte-only run, and the dispatcher reports failure. */
  lemma ByteRunFails(env: Env, n0: nat, dir: Direction, addr: Byte, timeout: nat, reg: Byte, count: nat, i: nat)
    requires i < count
    requires forall k :: 0 <= k < i ==> ByteCall(env, n0, dir, addr, timeout, reg, k).status == HalOk
    requires ByteCall(env, n0, dir, addr, timeout, reg, i).status != HalOk
    ensures var calls := ByteCalls(env, n0, dir, addr, timeout, reg, i + 1);
            IsByteOnlyRun(env, n0, dir, addr, timeout, reg, count, calls) && Outcome(calls) == 1
  {
    ByteCallsAllOk(env, n0, dir, addr, timeout, reg, i);
    var calls := ByteCalls(env, n0, dir, addr, timeout, reg, i + 1);
    var prev := ByteCalls(env, n0, dir, addr, timeout, reg, i);
    assert calls == prev + [ByteCall(env, n0, dir, addr, timeout, reg, i)];
    forall k | 0 <= k < i
      ensures calls[k].status == HalOk
    {
      assert calls[k] == prev[k];
    }
    assert calls[i].status != HalOk;
  }

  /** A list of calls is the byte-only trace from position `from` on as soon
      as call k is the one-byte transfer at position k, every call from `from`
      on but the last succeeded, and the list stops short of `count` only after
      a failure. */
  lemma {:induction false} ByteOnlyTraceFrom(env: Env, n0: nat, dir: Direction, addr: Byte, timeout: nat,
                                             reg: Byte, count: nat, calls: seq<Call>, from: nat)
    requires from <= |calls| <= count
    requires calls == ByteCalls(env, n0, dir, addr, timeout, reg, |calls|)
    requires forall k :: from <= k < |calls| - 1 ==> calls[k].status == HalOk
    requires |calls| < count ==> from < |calls| && calls[|calls| - 1].status != HalOk
    ensures Trace(env, n0 + from, dir, addr, timeout, ByteSteps(reg, count)[from..]) == calls[from..]
    decreases count - from
  {
    var steps := ByteSteps(reg, count);
    if from < count {
      ByteCallsAt(env, n0, dir, addr, timeout, reg, |calls|, from);
      assert steps[from..][0] == Step((reg + from) % 0x100, from, 1);
      assert steps[from..][1..] == steps[from + 1..];
      if calls[from].status == HalOk {
        ByteOnlyTraceFrom(env, n0, dir, addr, timeout, reg, count, calls, from + 1);
        assert calls[from..] == [calls[from]] + calls[from + 1..];
      } else {
        assert calls[from..] == [calls[from]];
      }
    } else {
      assert steps[from..] == [];
      assert calls[from..] == [];
    }
  }

  /** A byte-only run is exactly the trace of the byte-only plan. */
  lemma ByteOnlyTrace(env: Env, n0: nat, dir: Direction, addr: Byte, timeout: nat,
                      reg: Byte, count: nat, calls: seq<Call>)
    requires IsByteOnlyRun(env, n0, dir, addr, timeout, reg, count, calls)
    ensures Trace(env, n0, dir, addr, timeout, ByteSteps(reg, count)) == calls
  {
    ByteOnlyTraceFrom(env, n0, dir, addr, timeout, reg, count, calls, 0);
    assert ByteSteps(reg, count)[0..] == ByteSteps(reg, count);
    assert calls[0..] == calls;
  }

  /** Conversely, the trace of the byte-only plan is a byte-only run. */
  lemma ByteOnlyTraceIsRun(env: Env, n0: nat, dir: Direction, addr: Byte, timeout: nat, reg: Byte, count: nat)
    ensures IsByteOnlyRun(env, n0, dir, addr, timeout, reg, count, Trace(env, n0, dir, addr, timeout, ByteSteps(reg, count)))
  {
    var steps := ByteSteps(reg, count);
    var calls := Trace(env, n0, dir, addr, timeout, steps);
    TraceLength(env, n0, dir, addr, timeout, steps);
    var byteCalls := ByteCalls(env, n0, dir, addr, timeout, reg, |calls|);
    forall k | 0 <= k < |calls|
      ensures calls[k] == byteCalls[k]
    {
      TraceAt(env, n0, dir, addr, timeout, steps, k);
      ByteCallsAt(env, n0, dir, addr, timeout, reg, |calls|, k);
    }
    forall k | 0 <= k < |calls| - 1
      ensures calls[k].status == HalOk
    {
      TraceOkBeforeLast(env, n0, dir, addr, timeout, steps, k);
    }
  }

  /** Byte j of the buffer after the first m byte-only reads: the byte the
      device delivered to read j if that read stored its one byte, the old
      byte otherwise. */
  lemma {:induction false} ByteOnlyStored(env: Env, n0: nat, addr: Byte, timeout: nat,
                                          reg: Byte, b: seq<Byte>, m: nat, j: nat)
    requires j < |b|
    ensures var calls := ByteCalls(env, n0, Read, addr, timeout, reg, m);
            var after := Stored(env, n0, b, calls);
            |after| == |b| &&
            after[j] == if j < m && Received(env, n0 + j, calls[j]) == 1 then env.incoming(n0 + j, calls[j].req, 0) else b[j]
    decreases m
  {
    if m > 0 {
      var calls := ByteCalls(env, n0, Read, addr, timeout, reg, m);
      var prev := ByteCalls(env, n0, Read, addr, timeout, reg, m - 1);
      assert calls[..m - 1] == prev;
      ByteOnlyStored(env, n0, addr, timeout, reg, b, m - 1, j);
      if j < m - 1 {
        assert calls[j] == prev[j];
      }
    }
  }
}
