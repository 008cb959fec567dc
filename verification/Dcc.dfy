/** A DCC file transfer (dcc.c): the sender, the bytes in flight, the acknowledgements on their
    way back, and the getter. */
module Dcc {

  type Byte = bv8

  /** Counters and acknowledgements are 32 bits wide. */
  const WORD := 0x1_0000_0000

  function Wrap(n: int): (w: nat)
    ensures w < WORD && (0 <= n ==> w <= n) && (0 <= n < WORD ==> w == n)
  {
    n % WORD
  }

  const MAX_DCC_BLOCK_SIZE := 8192

  function Distance(a: int, b: int): nat {
    if a < b then b - a else a - b
  }

  /** dccBlockSize: the size from 16 to 8192 that is nearest to the setting. */
  function BlockSize(setting: int): (size: nat)
    ensures 16 <= size <= MAX_DCC_BLOCK_SIZE
    ensures forall n :: 16 <= n <= MAX_DCC_BLOCK_SIZE ==> Distance(size, setting) <= Distance(n, setting)
  {
    if setting > MAX_DCC_BLOCK_SIZE then MAX_DCC_BLOCK_SIZE else if setting < 16 then 16 else setting
  }

  datatype Fate = Going | Complete | Lost | Refused | TooLarge | AtEof

  /** The sending DCC_list entry: waiting for the getter to connect (DCC_WAIT), the offset to start
      from, the read position in the file, and the bytes_sent counter. */
  datatype Sender = Sender(waiting: bool, offset: nat, pos: nat, sent: nat, fate: Fate)

  /** The getting entry: what was written to the file, the bytes_read counter, the announced size. */
  datatype Getter = Getter(written: seq<Byte>, read: nat, filesize: nat, fate: Fate)

  // ----- process_outgoing_file

  /** Read the next block and send it, or close at the end of the file. */
  function SendBlock(file: seq<Byte>, s: Sender, size: nat): (Sender, seq<Byte>)
    requires s.pos <= |file|
  {
    var n := if size <= |file| - s.pos then size else |file| - s.pos;
    if n > 0 then (s.(pos := s.pos + n, sent := Wrap(s.sent + n)), file[s.pos..s.pos + n])
    else (s.(fate := Complete), [])
  }

  /** The getter connects: refuse an offset past the end of the file, otherwise seek and send. */
  function Accept(file: seq<Byte>, s: Sender, size: nat): (Sender, seq<Byte>)
  {
    var s' := s.(waiting := false);
    if s.offset > Wrap(|file|) then (s'.(fate := Refused), [])
    else SendBlock(file, s'.(pos := s.offset), size)
  }

  /** An acknowledgement arrives: send on only if it is for everything sent. */
  function Acknowledge(file: seq<Byte>, s: Sender, ack: nat, size: nat): (Sender, seq<Byte>)
    requires s.pos <= |file|
  {
    if ack != s.sent then (s, []) else SendBlock(file, s, size)
  }

  // ----- process_incoming_file

  /** A chunk arrives: write it, acknowledge the total, and stop at or beyond the announced size. */
  function Receive(g: Getter, chunk: seq<Byte>): Getter {
    var g' := g.(written := g.written + chunk, read := Wrap(g.read + |chunk|));
    if g.filesize != 0 && g'.read > g.filesize then g'.(fate := TooLarge)
    else if g.filesize != 0 && g'.read == g.filesize then g'.(fate := Complete)
    else g'
  }

  // ----- both ends and the connection

  /** acks holds the acknowledged counters, oldest first. */
  datatype State = State(s: Sender, wire: seq<Byte>, acks: seq<nat>, g: Getter)

  datatype Step =
    | Connect(setting: int)   // the sender accepts the connection
    | Ack(setting: int)       // the sender reads one acknowledgement
    | Drop                    // the sender finds the connection closed
    | Read(n: nat)            // the getter reads n bytes
    | Eof                     // the getter finds the connection closed

  predicate Enabled(st: State, step: Step) {
    match step
    case Connect(_) => st.s.waiting
    case Ack(_) => !st.s.waiting && st.s.fate == Going && st.acks != []
    case Drop => !st.s.waiting && st.s.fate == Going && st.acks == [] && st.g.fate != Going
    case Read(n) => st.g.fate == Going && 1 <= n <= |st.wire| && n <= MAX_DCC_BLOCK_SIZE
    case Eof => st.g.fate == Going && st.wire == [] && !st.s.waiting && st.s.fate != Going
  }

  function Next(file: seq<Byte>, st: State, step: Step): State
    requires Enabled(st, step) && st.s.pos <= |file|
  {
    match step
    case Connect(setting) =>
      var (s, block) := Accept(file, st.s, BlockSize(setting));
      st.(s := s, wire := st.wire + block)
    case Ack(setting) =>
      var (s, block) := Acknowledge(file, st.s, st.acks[0], BlockSize(setting));
      st.(s := s, wire := st.wire + block, acks := st.acks[1..])
    case Drop => st.(s := st.s.(fate := Lost))
    case Read(n) =>
      var g := Receive(st.g, st.wire[..n]);
      st.(g := g, wire := st.wire[n..], acks := st.acks + [g.read])
    case Eof => st.(g := st.g.(fate := AtEof))
  }

  /** A transfer before the connection: both counters start at base, which is 0, or the offset
      after a RESUME. */
  predicate Initial(st: State, offset: nat, base: nat) {
    && st.s == Sender(true, offset, 0, Wrap(base), Going)
    && st.wire == [] && st.acks == []
    && st.g.written == [] && st.g.read == Wrap(base) && st.g.fate == Going && st.g.filesize < WORD
  }

  /** How far an acknowledgement lags behind what was sent. */
  function Lag(sent: nat, ack: nat): nat {
    Wrap(sent - ack)
  }

  /** The queued acknowledgements get closer to what was sent, and the last one lags by what is
      still in flight. */
  predicate AcksInOrder(sent: nat, acks: seq<nat>, inFlight: nat) {
    && (forall i :: 0 <= i < |acks| ==> acks[i] < WORD && inFlight <= Lag(sent, acks[i]) < MAX_DCC_BLOCK_SIZE)
    && (forall i, j :: 0 <= i < j < |acks| ==> Lag(sent, acks[i]) > Lag(sent, acks[j]))
    && (acks != [] ==> Lag(sent, acks[|acks| - 1]) == inFlight)
  }

  /** What the sender has sent is written or in flight, at most a block of it in flight, and as long as
      the sender goes on there is something for either side to do. */
  ghost predicate InTransit(file: seq<Byte>, offset: nat, base: nat, s: Sender, wire: seq<Byte>, acks: seq<nat>,
                            written: seq<Byte>)
  {
    && offset <= s.pos <= |file| && s.sent == Wrap(base + s.pos - offset)
    && written + wire == file[offset..s.pos]
    && |wire| <= MAX_DCC_BLOCK_SIZE
    && AcksInOrder(s.sent, acks, |wire|)
    && (s.fate == Going ==> wire != [] || acks != [])
    && (s.fate == Complete ==> s.pos == |file| && wire == [] && acks == [])
  }

  /** What every reachable state satisfies. */
  ghost predicate Inv(file: seq<Byte>, offset: nat, base: nat, st: State) {
    && st.s.offset == offset && st.s.pos <= |file|
    && st.g.read == Wrap(base + |st.g.written|)
    && (st.s.waiting ==> st.s.fate == Going)
    && if st.s.waiting || st.s.fate == Refused then
         st.wire == [] && st.acks == [] && st.g.written == [] && st.s.pos == 0 && st.s.sent == Wrap(base)
       else
         InTransit(file, offset, base, st.s, st.wire, st.acks, st.g.written)
  }

  lemma WrapShift(a: int, k: int)
    ensures Wrap(a + WORD * k) == Wrap(a)
  {
  }

  lemma WrapMinus(a: int, b: int)
    ensures Wrap(Wrap(a) - Wrap(b)) == Wrap(a - b)
  {
    assert Wrap(a) - Wrap(b) == a - b + WORD * (b / WORD - a / WORD);
    WrapShift(a - b, b / WORD - a / WORD);
  }

  lemma WrapPlus(a: int, b: int)
    ensures Wrap(Wrap(a) + b) == Wrap(a + b)
  {
    assert Wrap(a) + b == a + b + WORD * -(a / WORD);
    WrapShift(a + b, -(a / WORD));
  }

  lemma LaterIsCloser(sent: nat, acks: seq<nat>, inFlight: nat)
    requires AcksInOrder(sent, acks, inFlight) && sent < WORD && acks != []
    ensures AcksInOrder(sent, acks[1..], inFlight)
    ensures Lag(sent, acks[0]) == 0 <==> acks[0] == sent
    ensures |acks| > 1 ==> Lag(sent, acks[0]) > 0
    ensures |acks| == 1 ==> Lag(sent, acks[0]) == inFlight
  {
    if |acks| > 1 { assert Lag(sent, acks[0]) > Lag(sent, acks[1]); }
  }

  lemma OneMoreAck(sent: nat, acks: seq<nat>, inFlight: nat, n: nat, ack: nat)
    requires AcksInOrder(sent, acks, inFlight) && 1 <= n <= inFlight <= MAX_DCC_BLOCK_SIZE
    requires ack < WORD && Lag(sent, ack) == inFlight - n
    ensures AcksInOrder(sent, acks + [ack], inFlight - n)
  {
  }

  lemma StepBlock(file: seq<Byte>, offset: nat, base: nat, st: State, s: Sender, size: nat, acks: seq<nat>)
    requires 1 <= size <= MAX_DCC_BLOCK_SIZE && offset <= s.pos <= |file| && s.offset == offset && !s.waiting
    requires s.fate == Going && s.sent == Wrap(base + s.pos - offset) && acks == [] && st.wire == []
    requires st.g.read == Wrap(base + |st.g.written|) && st.g.written == file[offset..s.pos]
    ensures var (s', block) := SendBlock(file, s, size); Inv(file, offset, base, State(s', st.wire + block, acks, st.g))
  {
    var (s', block) := SendBlock(file, s, size);
    WrapPlus(base + s.pos - offset, |block|);
    assert file[offset..s.pos] + file[s.pos..s'.pos] == file[offset..s'.pos];
  }

  lemma StepConnect(file: seq<Byte>, offset: nat, base: nat, st: State, setting: int)
    requires Inv(file, offset, base, st) && st.s.waiting
    ensures Inv(file, offset, base, Next(file, st, Connect(setting)))
  {
    if offset <= Wrap(|file|) {
      StepBlock(file, offset, base, st, st.s.(waiting := false, pos := offset), BlockSize(setting), st.acks);
    }
  }

  /** The acknowledgement that lets the sender go on is the last one queued, and nothing is in flight. */
  lemma GoAheadIsLast(file: seq<Byte>, offset: nat, base: nat, st: State)
    requires Inv(file, offset, base, st) && !st.s.waiting && st.s.fate != Refused
    requires st.acks != [] && st.acks[0] == st.s.sent
    ensures |st.acks| == 1 && st.wire == [] && st.g.written == file[offset..st.s.pos]
  {
    LaterIsCloser(st.s.sent, st.acks, |st.wire|);
  }

  lemma StepAck(file: seq<Byte>, offset: nat, base: nat, st: State, setting: int)
    requires Inv(file, offset, base, st) && Enabled(st, Ack(setting))
    ensures Inv(file, offset, base, Next(file, st, Ack(setting)))
  {
    LaterIsCloser(st.s.sent, st.acks, |st.wire|);
    if st.acks[0] == st.s.sent {
      StepBlock(file, offset, base, st, st.s, BlockSize(setting), st.acks[1..]);
    }
  }

  /** With `before` bytes written of `total` sent, n more leave an acknowledgement that lags by the rest. */
  lemma ReadCounts(base: nat, before: nat, n: nat, total: nat)
    requires before + n <= total && total - before <= MAX_DCC_BLOCK_SIZE
    ensures var read := Wrap(Wrap(base + before) + n);
            read == Wrap(base + before + n) && Lag(Wrap(base + total), read) == total - before - n
  {
    WrapPlus(base + before, n);
    WrapMinus(base + total, base + before + n);
  }

  lemma AcksAfterRead(base: nat, before: nat, n: nat, total: nat, acks: seq<nat>)
    requires 1 <= n <= total - before <= MAX_DCC_BLOCK_SIZE && AcksInOrder(Wrap(base + total), acks, total - before)
    ensures var read := Wrap(Wrap(base + before) + n);
            read == Wrap(base + before + n) && AcksInOrder(Wrap(base + total), acks + [read], total - before - n)
  {
    ReadCounts(base, before, n, total);
    OneMoreAck(Wrap(base + total), acks, total - before, n, Wrap(Wrap(base + before) + n));
  }

  lemma Regroup(a: seq<Byte>, b: seq<Byte>, n: nat)
    requires n <= |b|
    ensures (a + b[..n]) + b[n..] == a + b && |a + b| == |a| + |b|
  {
  }

  lemma TransitAfterRead(file: seq<Byte>, offset: nat, base: nat, s: Sender, wire: seq<Byte>, acks: seq<nat>,
                         written: seq<Byte>, n: nat)
    requires InTransit(file, offset, base, s, wire, acks, written) && 1 <= n <= |wire|
    ensures var read := Wrap(Wrap(base + |written|) + n);
            && read == Wrap(base + |written + wire[..n]|)
            && InTransit(file, offset, base, s, wire[n..], acks + [read], written + wire[..n])
  {
    Regroup(written, wire, n);
    AcksAfterRead(base, |written|, n, s.pos - offset, acks);
  }

  lemma StepRead(file: seq<Byte>, offset: nat, base: nat, st: State, n: nat)
    requires Inv(file, offset, base, st) && Enabled(st, Read(n))
    ensures Inv(file, offset, base, Next(file, st, Read(n)))
  {
    TransitAfterRead(file, offset, base, st.s, st.wire, st.acks, st.g.written, n);
  }

  lemma StepKeepsInv(file: seq<Byte>, offset: nat, base: nat, st: State, step: Step)
    requires Inv(file, offset, base, st) && Enabled(st, step)
    ensures Inv(file, offset, base, Next(file, st, step))
  {
    match step
    case Connect(setting) => StepConnect(file, offset, base, st, setting);
    case Ack(setting) => StepAck(file, offset, base, st, setting);
    case Read(n) => StepRead(file, offset, base, st, n);
    case _ =>
  }

  // ----- whole runs

  /** The states of a run, each the next of the one before. */
  predicate IsRun(file: seq<Byte>, states: seq<State>, steps: seq<Step>) {
    && |states| == |steps| + 1
    && forall i :: 0 <= i < |steps| ==>
      states[i].s.pos <= |file| && Enabled(states[i], steps[i]) && states[i + 1] == Next(file, states[i], steps[i])
  }

  /** Safety: in every state of every run the bytes written and the bytes in flight are the part
      of the file that was read from the offset on; when the sender reports completion the getter
      has all of it. This holds for files of any length. */
  lemma {:induction false} TransferIsSafe(file: seq<Byte>, offset: nat, base: nat, states: seq<State>, steps: seq<Step>)
    requires IsRun(file, states, steps) && Initial(states[0], offset, base)
    ensures forall i :: 0 <= i < |states| ==> Inv(file, offset, base, states[i])
    ensures forall i :: 0 <= i < |states| && !states[i].s.waiting && states[i].s.fate != Refused ==>
      offset <= states[i].s.pos <= |file| && states[i].g.written + states[i].wire == file[offset..states[i].s.pos]
    ensures forall i :: 0 <= i < |states| && states[i].s.fate == Complete ==>
      offset <= |file| && states[i].g.written == file[offset..]
  {
    if steps != [] {
      var n := |steps| - 1;
      assert IsRun(file, states[..n + 1], steps[..n]);
      TransferIsSafe(file, offset, base, states[..n + 1], steps[..n]);
      assert Inv(file, offset, base, states[..n + 1][n]);
      StepKeepsInv(file, offset, base, states[n], steps[n]);
      forall i | 0 <= i < |states| ensures Inv(file, offset, base, states[i]) {
        if i <= n { assert states[i] == states[..n + 1][i]; }
      }
    }
    forall i | 0 <= i < |states| && states[i].s.fate == Complete
      ensures offset <= |file| && states[i].g.written == file[offset..]
    {
      assert states[i].g.written + states[i].wire == states[i].g.written;
    }
  }

  predicate Finished(st: State) {
    st.s.fate != Going && st.g.fate != Going
  }

  /** Some step is enabled until both sides have closed. */
  lemma NeverStuck(file: seq<Byte>, offset: nat, base: nat, st: State) returns (step: Step)
    requires Inv(file, offset, base, st) && !Finished(st)
    ensures Enabled(st, step)
  {
    step :=
      if st.s.waiting then Connect(0)
      else if st.s.fate == Going && st.acks != [] then Ack(0)
      else if st.g.fate == Going && st.wire != [] then Read(1)
      else if st.s.fate == Going then Drop
      else Eof;
  }

  /** What is left of the file, in flight, queued, and open. */
  function Left(file: seq<Byte>, st: State): (int, int, int, int) {
    (|file| - st.s.pos, |st.wire|, |st.acks|,
     (if st.s.waiting then 1 else 0) + (if st.s.fate == Going then 1 else 0) + (if st.g.fate == Going then 1 else 0))
  }

  predicate Less(a: (int, int, int, int), b: (int, int, int, int)) {
    a.0 < b.0 || (a.0 == b.0 && (a.1 < b.1 || (a.1 == b.1 && (a.2 < b.2 || (a.2 == b.2 && a.3 < b.3)))))
  }

  function Potential(file: seq<Byte>, st: State): int {
    var left := Left(file, st);
    3 * left.0 + 2 * left.1 + left.2 + left.3
  }

  /** Every step brings the transfer nearer to its end. */
  lemma StepDecreases(file: seq<Byte>, st: State, step: Step)
    requires Enabled(st, step) && st.s.pos <= |file| && (st.s.waiting ==> st.s.pos == 0 && st.s.fate == Going)
    ensures Less(Left(file, Next(file, st, step)), Left(file, st))
    ensures Potential(file, Next(file, st, step)) < Potential(file, st)
  {
    match step
    case Connect(setting) => var (s, block) := Accept(file, st.s, BlockSize(setting));
    case Ack(setting) => var (s, block) := Acknowledge(file, st.s, st.acks[0], BlockSize(setting));
    case _ =>
  }

  /** No run takes more than three steps per byte of the file, and three. */
  lemma {:induction false} RunsAreShort(file: seq<Byte>, offset: nat, base: nat, states: seq<State>, steps: seq<Step>)
    requires IsRun(file, states, steps) && Initial(states[0], offset, base)
    ensures |steps| + Potential(file, states[|steps|]) <= 3 * |file| + 3 && Potential(file, states[|steps|]) >= 0
  {
    TransferIsSafe(file, offset, base, states, steps);
    if steps != [] {
      var n := |steps| - 1;
      RunsAreShort(file, offset, base, states[..n + 1], steps[..n]);
      StepDecreases(file, states[n], steps[n]);
    }
  }

  // ----- delivery

  /** The announced size is absent, or at least what the counters will reach. */
  predicate Honest(file: seq<Byte>, offset: nat, base: nat, filesize: nat) {
    filesize == 0 || base + |file| - offset <= filesize
  }

  /** With an honest size nothing goes wrong: the sender is never refused nor cut off, and the
      getter closes early only when it has everything. */
  ghost predicate Clean(file: seq<Byte>, offset: nat, base: nat, st: State) {
    && Inv(file, offset, base, st) && Honest(file, offset, base, st.g.filesize) && st.g.filesize < WORD
    && (st.s.fate == Going || st.s.fate == Complete)
    && (st.g.fate == Going || st.g.fate == AtEof || st.g.fate == Complete)
    && (st.g.fate == AtEof ==> st.s.fate == Complete)
    && (st.g.fate == Complete ==> !st.s.waiting && st.g.written == file[offset..])
  }

  lemma ReadStaysClean(file: seq<Byte>, offset: nat, base: nat, st: State, n: nat)
    requires Clean(file, offset, base, st) && Enabled(st, Read(n)) && offset <= |file|
    ensures Clean(file, offset, base, Next(file, st, Read(n)))
  {
    var st' := Next(file, st, Read(n));
    StepRead(file, offset, base, st, n);
    var all := st'.g.written + st'.wire;
    assert |all| == st.s.pos - offset <= |file| - offset;
    if st'.g.fate == Complete {
      assert |st'.wire| == 0 && all == st'.g.written;
    }
  }

  lemma StepStaysClean(file: seq<Byte>, offset: nat, base: nat, st: State, step: Step)
    requires Clean(file, offset, base, st) && Enabled(st, step) && offset <= Wrap(|file|)
    ensures Clean(file, offset, base, Next(file, st, step))
  {
    StepKeepsInv(file, offset, base, st, step);
    match step
    case Connect(setting) =>
    case Ack(setting) =>
    case Read(n) => ReadStaysClean(file, offset, base, st, n);
    case Drop =>
    case Eof =>
  }

  /** Every run that ends has delivered: with an honest size and an offset that is not refused,
      both sides have closed normally and the getter has the file from the offset on. */
  lemma {:induction false} RunsDeliver(file: seq<Byte>, offset: nat, base: nat, states: seq<State>, steps: seq<Step>)
    requires IsRun(file, states, steps) && Initial(states[0], offset, base)
    requires Honest(file, offset, base, states[0].g.filesize) && offset <= Wrap(|file|)
    ensures Clean(file, offset, base, states[|steps|])
    ensures Finished(states[|steps|]) ==> states[|steps|].s.fate == Complete && states[|steps|].g.written == file[offset..]
  {
    if steps != [] {
      var n := |steps| - 1;
      RunsDeliver(file, offset, base, states[..n + 1], steps[..n]);
      StepStaysClean(file, offset, base, states[n], steps[n]);
    }
    var last := states[|steps|];
    if last.s.fate == Complete { assert last.g.written + last.wire == last.g.written; }
  }
}
