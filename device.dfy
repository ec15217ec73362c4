/**
 * The abstract register device behind the SPI bus. Each register has a finite script of the
 * bytes that successive reads of it return; a read past the end of a script is a transport
 * error. Every completed bus transaction is appended to a log.
 */
module Device {
  import opened Bits
  import opened Registers
  import opened Errors

  /** One completed bus transaction. */
  datatype Op =
    | RegRead(reg: Register, value: byte)
    | RegWrite(reg: Register, value: byte)
    | BurstRead(reg: Register, values: seq<byte>)
    | BurstWrite(reg: Register, values: seq<byte>)

  /** The scripted replies still to come, per register, and the transactions so far. */
  datatype DeviceState = DeviceState(replies: map<Register, seq<byte>>, log: seq<Op>)

  /** What an operation returns, with the device state it leaves behind. */
  datatype Step<T> = Step(result: Result<T>, state: DeviceState)

  /** The same for an operation that can also panic. */
  datatype Run<T> = Run(outcome: Outcome<T>, state: DeviceState)

  /** Between `d` and `e` the driver only appended to the log and consumed replies of the
      registers in `regs`. */
  predicate OnlyReads(d: DeviceState, e: DeviceState, regs: set<Register>)
  {
    && d.log <= e.log
    && forall r :: r !in regs ==> Replies(e, r) == Replies(d, r)
  }

  lemma OnlyReadsChain(a: DeviceState, b: DeviceState, c: DeviceState, s: set<Register>, t: set<Register>, u: set<Register>)
    requires OnlyReads(a, b, s) && OnlyReads(b, c, t) && s + t <= u
    ensures OnlyReads(a, c, u)
  {
  }

  /** Payload bytes a burst can carry: the driver's staging vector holds 65 bytes, one of
      which is the register address (for a write) or the trailing dummy byte (for a read). */
  const BURST_CAPACITY: nat := 64

  /** The replies still scripted for `reg`; a register without a script has none. */
  function Replies(d: DeviceState, reg: Register): seq<byte>
  {
    if reg in d.replies then d.replies[reg] else []
  }

  /** The log entries of the single reads that returned `values`, in order. */
  function ReadOps(reg: Register, values: seq<byte>): (ops: seq<Op>)
    ensures |ops| == |values|
    ensures forall i :: 0 <= i < |values| ==> ops[i] == RegRead(reg, values[i])
  {
    seq(|values|, i requires 0 <= i < |values| => RegRead(reg, values[i]))
  }

  /** The scripts after `k` replies of `reg` have been consumed (a script is only touched when
      something is consumed from it). */
  function Consume(d: DeviceState, reg: Register, k: nat): (m: map<Register, seq<byte>>)
    requires k <= |Replies(d, reg)|
  {
    if k == 0 then d.replies else d.replies[reg := Replies(d, reg)[k..]]
  }

  /** The device after `k` successful single reads of `reg` and nothing else. */
  function AfterReads(d: DeviceState, reg: Register, k: nat): (e: DeviceState)
    requires k <= |Replies(d, reg)|
    ensures Replies(e, reg) == Replies(d, reg)[k..]
    ensures forall r :: r != reg ==> Replies(e, r) == Replies(d, r)
    ensures e.log == d.log + ReadOps(reg, Replies(d, reg)[..k])
    ensures k == 0 ==> e == d
  {
    DeviceState(Consume(d, reg, k), d.log + ReadOps(reg, Replies(d, reg)[..k]))
  }

  lemma ReadOpsAppend(reg: Register, a: seq<byte>, b: seq<byte>)
    ensures ReadOps(reg, a + b) == ReadOps(reg, a) + ReadOps(reg, b)
  {
    var l, r := ReadOps(reg, a + b), ReadOps(reg, a) + ReadOps(reg, b);
    assert |l| == |r|;
    forall i | 0 <= i < |l| ensures l[i] == r[i] {
      if i < |a| { assert (a + b)[i] == a[i]; } else { assert (a + b)[i] == b[i - |a|]; }
    }
  }

  /** The reads of the first `j` replies and of the `k` after them are the reads of `j + k`. */
  lemma ReadOpsSplit(reg: Register, rs: seq<byte>, j: nat, k: nat)
    requires j + k <= |rs|
    ensures ReadOps(reg, rs[..j]) + ReadOps(reg, rs[j..][..k]) == ReadOps(reg, rs[..j + k])
  {
    assert rs[j..][..k] == rs[j..j + k];
    assert rs[..j + k] == rs[..j] + rs[j..j + k];
    ReadOpsAppend(reg, rs[..j], rs[j..j + k]);
  }

  /** Reading `j` times and then `k` more times is reading `j + k` times. */
  lemma AfterReadsAdd(d: DeviceState, reg: Register, j: nat, k: nat)
    requires j + k <= |Replies(d, reg)|
    ensures AfterReads(AfterReads(d, reg, j), reg, k) == AfterReads(d, reg, j + k)
  {
    if j > 0 && k > 0 {
      var rs := Replies(d, reg);
      var e := AfterReads(d, reg, j);
      assert e.replies == d.replies[reg := rs[j..]];
      assert Replies(e, reg) == rs[j..];
      ReadOpsSplit(reg, rs, j, k);
      assert rs[j..][k..] == rs[j + k..];
      assert e.replies[reg := rs[j..][k..]] == d.replies[reg := rs[j + k..]];
    }
  }

  /** A single register read (`Mfrc522::read`). */
  function Read(d: DeviceState, reg: Register): (s: Step<byte>)
    ensures s.result.Ok? <==> |Replies(d, reg)| > 0
    ensures s.result.Ok? ==> s.result.value == Replies(d, reg)[0]
    ensures s.result.Err? ==> s.result.error == Spi(NoReply(reg)) && s.state == d
    ensures OnlyReads(d, s.state, {reg})
  {
    var rs := Replies(d, reg);
    if |rs| == 0 then Step(Err(Spi(NoReply(reg))), d)
    else Step(Ok(rs[0]), DeviceState(Consume(d, reg, 1), d.log + [RegRead(reg, rs[0])]))
  }

  /** A successful read is the first of `k` reads. */
  lemma ReadIsAfterReads(d: DeviceState, reg: Register)
    requires |Replies(d, reg)| > 0
    ensures Read(d, reg).state == AfterReads(d, reg, 1)
  {
    assert Replies(d, reg)[..1] == [Replies(d, reg)[0]];
  }

  /** A single register write (`Mfrc522::write`); the model's transport never fails a write. */
  function Write(d: DeviceState, reg: Register, value: byte): (e: DeviceState)
    ensures e.replies == d.replies
    ensures e.log == d.log + [RegWrite(reg, value)]
  {
    DeviceState(d.replies, d.log + [RegWrite(reg, value)])
  }

  /** `n` successive reads of `reg` in one transfer (`Mfrc522::read_many`). */
  function ReadMany(d: DeviceState, reg: Register, n: nat): (s: Step<seq<byte>>)
    ensures s.result.Ok? <==> n <= BURST_CAPACITY && n <= |Replies(d, reg)|
    ensures n > BURST_CAPACITY ==> s == Step(Err(NoRoom), d)
    ensures n <= BURST_CAPACITY && n > |Replies(d, reg)| ==> s == Step(Err(Spi(NoReply(reg))), d)
    ensures s.result.Ok? ==> s.result.value == Replies(d, reg)[..n]
    ensures s.result.Ok? ==> s.state.log == d.log + [BurstRead(reg, Replies(d, reg)[..n])]
    ensures s.result.Ok? ==> Replies(s.state, reg) == Replies(d, reg)[n..]
    ensures forall r :: r != reg ==> Replies(s.state, r) == Replies(d, r)
    ensures d.log <= s.state.log
  {
    var rs := Replies(d, reg);
    if n > BURST_CAPACITY then Step(Err(NoRoom), d)
    else if |rs| < n then Step(Err(Spi(NoReply(reg))), d)
    else Step(Ok(rs[..n]), DeviceState(Consume(d, reg, n), d.log + [BurstRead(reg, rs[..n])]))
  }

  /** All of `bytes` written to `reg` in one transfer (`Mfrc522::write_many`). */
  function WriteMany(d: DeviceState, reg: Register, bytes: seq<byte>): (s: Step<()>)
    ensures s.result.Ok? <==> |bytes| <= BURST_CAPACITY
    ensures s.result.Err? ==> s == Step(Err(NoRoom), d)
    ensures s.result.Ok? ==> s.state == DeviceState(d.replies, d.log + [BurstWrite(reg, bytes)])
  {
    if |bytes| > BURST_CAPACITY then Step(Err(NoRoom), d)
    else Step(Ok(()), DeviceState(d.replies, d.log + [BurstWrite(reg, bytes)]))
  }

  /** Read `reg`, then write back `f` of what was read (`Mfrc522::rmw`). */
  function ReadModifyWrite(d: DeviceState, reg: Register, f: byte -> byte): (s: Step<()>)
    ensures s.result.Ok? <==> |Replies(d, reg)| > 0
    ensures s.result.Err? ==> s == Step(Err(Spi(NoReply(reg))), d)
    ensures s.result.Ok? ==> var v := Replies(d, reg)[0];
      s.state.log == d.log + [RegRead(reg, v), RegWrite(reg, f(v))]
      && s.state.replies == AfterReads(d, reg, 1).replies
    ensures forall r :: r != reg ==> Replies(s.state, r) == Replies(d, r)
  {
    var r := Read(d, reg);
    if r.result.Err? then Step(Err(r.result.error), r.state)
    else Step(Ok(()), Write(r.state, reg, f(r.result.value)))
  }
}
