/** The two file-transfer routines of dcc.c on the DCC_list entries they update, and the ways a
    transfer is resumed. */
module DccClient {
  import opened Ircaux
  import opened Chain
  import opened Dcc

  /** A sending entry. */
  class Outgoing {
    var waiting: bool
    var offset: nat
    var pos: nat
    var sent: nat
    var fate: Fate

    ghost function View(): Sender
      reads this
    {
      Sender(waiting, offset, pos, sent, fate)
    }

    /** The next block goes out, or the transfer closes at the end of the file. */
    method ReadAndSend(file: seq<Byte>, setting: int) returns (block: seq<Byte>)
      requires pos <= |file|
      modifies `pos, `sent, `fate
      ensures (View(), block) == SendBlock(file, old(View()), BlockSize(setting))
      ensures 16 <= setting <= MAX_DCC_BLOCK_SIZE ==> block == UpTo(file[old(pos)..], setting)
      ensures pos == old(pos) + |block| && (old(sent) + |block| < WORD ==> sent == old(sent) + |block|)
      ensures fate == if block == [] then Complete else old(fate)
    {
      var size := BlockSize(setting);
      var n := if size <= |file| - pos then size else |file| - pos;
      block := file[pos..pos + n];
      assert block == UpTo(file[pos..], size);
      if n > 0 {
        pos := pos + n;
        sent := Wrap(sent + n);
      } else {
        fate := Complete;
      }
    }

    /** process_outgoing_file. The acknowledgement is absent when the connection is gone. */
    method Process(file: seq<Byte>, setting: int, ack: Option<nat>) returns (block: seq<Byte>)
      requires pos <= |file|
      modifies this
      ensures (View(), block) ==
              if old(waiting) then Accept(file, old(View()), BlockSize(setting))
              else if ack.None? then (old(View()).(fate := Lost), [])
              else Acknowledge(file, old(View()), ack.value, BlockSize(setting))
      ensures var start := if old(waiting) then old(offset) else old(pos);
              (if old(waiting) then start <= |file| < WORD else ack == Some(old(sent))) && 16 <= setting <= MAX_DCC_BLOCK_SIZE ==>
                && block == UpTo(file[start..], setting) && pos == start + |block|
                && (old(sent) + |block| < WORD ==> sent == old(sent) + |block|)
                && fate == if block == [] then Complete else old(fate)
      ensures old(waiting) && |file| < old(offset) && |file| < WORD ==> block == [] && fate == Refused && pos == old(pos)
      ensures !old(waiting) && ack == None ==> block == [] && fate == Lost && pos == old(pos) && sent == old(sent)
      ensures !old(waiting) && ack.Some? && ack.value != old(sent) ==> block == [] && View() == old(View())
    {
      block := [];
      if waiting {
        waiting := false;
        if offset != 0 && offset > Wrap(|file|) {
          fate := Refused;
          return;
        }
        pos := offset;
      } else if ack.None? {
        fate := Lost;
        return;
      } else if ack.value != sent {
        return;
      }
      block := ReadAndSend(file, setting);
    }
  }

  /** A getting entry. */
  class Incoming {
    var written: seq<Byte>
    var read: nat
    var filesize: nat
    var fate: Fate

    ghost function View(): Getter
      reads this
    {
      Getter(written, read, filesize, fate)
    }

    /** process_incoming_file. An empty chunk is the end of the stream; otherwise the counter that
        is acknowledged is returned. */
    method Process(chunk: seq<Byte>) returns (ack: Option<nat>)
      modifies this
      ensures View() == if chunk == [] then old(View()).(fate := AtEof) else Receive(old(View()), chunk)
      ensures ack == if chunk == [] then None else Some(read)
      ensures chunk != [] && old(read) + |chunk| < WORD ==>
                && written == old(written) + chunk && read == old(read) + |chunk| && filesize == old(filesize)
                && fate == if filesize == 0 || read < filesize then old(fate) else if read == filesize then Complete else TooLarge
    {
      if chunk == [] {
        fate := AtEof;
        return None;
      }
      written := written + chunk;
      read := Wrap(read + |chunk|);
      ack := Some(read);
      if filesize != 0 {
        if read > filesize {
          fate := TooLarge;
        } else if read == filesize {
          fate := Complete;
        }
      }
    }
  }

  // ----- RESEND and REGET: the offset travels in the getter's byte order

  datatype ByteOrder = Big | Little

  const DCC_PACKETID: bv16 := 0xfeab

  datatype Bytes = Bytes(b0: bv8, b1: bv8, b2: bv8, b3: bv8)

  function Join16(hi: bv8, lo: bv8): bv16 { (hi as bv16 << 8) | lo as bv16 }

  function Join32(a: bv8, b: bv8, c: bv8, d: bv8): bv32 {
    (a as bv32 << 24) | (b as bv32 << 16) | (c as bv32 << 8) | d as bv32
  }

  /** How a machine lays out a number in memory, and how it loads one. */
  function Store16(order: ByteOrder, x: bv16): (bv8, bv8) {
    var hi, lo := (x >> 8) as bv8, (x & 0xff) as bv8;
    if order.Big? then (hi, lo) else (lo, hi)
  }

  function Store32(order: ByteOrder, x: bv32): Bytes {
    var a, b, c, d := (x >> 24) as bv8, ((x >> 16) & 0xff) as bv8, ((x >> 8) & 0xff) as bv8, (x & 0xff) as bv8;
    if order.Big? then Bytes(a, b, c, d) else Bytes(d, c, b, a)
  }

  function Load16(order: ByteOrder, m: (bv8, bv8)): bv16 {
    if order.Big? then Join16(m.0, m.1) else Join16(m.1, m.0)
  }

  function Load32(order: ByteOrder, m: Bytes): bv32 {
    if order.Big? then Join32(m.b0, m.b1, m.b2, m.b3) else Join32(m.b3, m.b2, m.b1, m.b0)
  }

  /** byteordertest: looks at the first byte of the packet id in memory. */
  function ByteOrderTest(order: ByteOrder): bv8 {
    var first := Store16(order, DCC_PACKETID).0;
    if first == ((DCC_PACKETID & 0xff00) >> 8) as bv8 then 0
    else if first == (DCC_PACKETID & 0x00ff) as bv8 then 1
    else 0
  }

  /** struct transfer_struct as it lies in memory. */
  datatype Packet = Packet(id: (bv8, bv8), byteorder: bv8, offset: Bytes)

  /** dcc_regetfile fills it in and dcc_got_connected sends it. */
  function Orders(getter: ByteOrder, offset: bv32): Packet {
    Packet(Store16(getter, DCC_PACKETID), ByteOrderTest(getter), Store32(getter, offset))
  }

  function Swap16(x: bv16): bv16 { ((x & 0x00ff) << 8) | ((x & 0xff00) >> 8) }

  function Swap32(x: bv32): bv32 {
    ((x & 0xff000000) >> 24) | ((x & 0x00ff0000) >> 8) | ((x & 0x0000ff00) << 8) | ((x & 0x000000ff) << 24)
  }

  /** The sender's reading of it, swapping bytes when the orders differ. */
  function Decode(sender: ByteOrder, p: Packet): (bv16, bv32) {
    var id, offset := Load16(sender, p.id), Load32(sender, p.offset);
    if ByteOrderTest(sender) != p.byteorder then (Swap16(id), Swap32(offset)) else (id, offset)
  }

  lemma TestTellsOrders(order: ByteOrder)
    ensures ByteOrderTest(order) == if order.Big? then 0 else 1
  {
  }

  lemma JoinParts(x: bv32)
    ensures Join32((x >> 24) as bv8, ((x >> 16) & 0xff) as bv8, ((x >> 8) & 0xff) as bv8, (x & 0xff) as bv8) == x
  {
  }

  lemma SwapReverses(a: bv8, b: bv8, c: bv8, d: bv8)
    ensures Swap32(Join32(a, b, c, d)) == Join32(d, c, b, a)
  {
  }

  /** Whatever the two byte orders, the sender reads the offset that the getter wrote. */
  lemma OffsetSurvives(getter: ByteOrder, sender: ByteOrder, offset: bv32)
    ensures Decode(sender, Orders(getter, offset)) == (DCC_PACKETID, offset)
  {
    var p := Orders(getter, offset);
    TestTellsOrders(getter);
    TestTellsOrders(sender);
    JoinParts(offset);
    var m := p.offset;
    if getter.Big? { SwapReverses(m.b3, m.b2, m.b1, m.b0); } else { SwapReverses(m.b0, m.b1, m.b2, m.b3); }
  }

  // ----- RESUME: the getter names a position for a pending offer

  /** What a DCC_list entry, named after its user, holds of an offer. */
  datatype Offer = Offer(deleted: bool, active: bool, waiting: bool, fileOffer: bool, port: nat,
                         filesize: nat, byteoffset: nat, sent: nat)

  /** A plain SEND still waiting on that port. */
  predicate Pending(offer: Offer, port: nat) {
    !offer.deleted && !offer.active && offer.waiting && offer.fileOffer && offer.port == port
  }

  predicate Wanted(node: Node<Offer>, from: string, port: nat)
    reads node
  {
    Pending(node.data, port) && SameName(node.name, from)
  }

  /** The offset that is granted: a position past the announced size starts over. */
  function Granted(filesize: nat, position: nat): nat {
    if filesize != 0 && Wrap(position) > filesize then 0 else Wrap(position)
  }

  /** dcc_resume_request: the first pending offer to that user on that port takes the offset, both
      as where to seek and as what its counter starts from. The offset sent back is returned. */
  method DccResumeRequest(head: Node?<Offer>, from: CString, port: nat, position: nat, ghost nodes: seq<Node<Offer>>)
    returns (accepted: Option<nat>, ghost k: int)
    requires IsChain(head, nodes)
    modifies nodes`data
    ensures IsChain(head, nodes) && -1 <= k < |nodes|
    ensures k == -1 <==> from == "" || port == 0 || port > 65535 || forall i :: 0 <= i < |nodes| ==> !old(Wanted(nodes[i], from, port))
    ensures k == -1 ==> accepted == None
    ensures k != -1 ==>
      && old(Wanted(nodes[k], from, port)) && (forall i :: 0 <= i < k ==> !old(Wanted(nodes[i], from, port)))
      && accepted == Some(Granted(old(nodes[k].data).filesize, position))
      && nodes[k].data == old(nodes[k].data).(byteoffset := accepted.value, sent := accepted.value)
    ensures forall i :: 0 <= i < |nodes| && i != k ==> nodes[i].data == old(nodes[i].data)
    ensures k != -1 ==> var o := old(nodes[k].data);
      && !o.deleted && !o.active && o.waiting && o.fileOffer && o.port == port && SameName(nodes[k].name, from)
      && (position < WORD ==> accepted == Some(if o.filesize == 0 || position <= o.filesize then position else 0))
    ensures k == -1 && from != "" && 0 < port <= 65535 ==> forall i :: 0 <= i < |nodes| ==> var o := old(nodes[i].data);
      o.deleted || o.active || !o.waiting || !o.fileOffer || o.port != port || !SameName(nodes[i].name, from)
  {
    if from == "" || port == 0 || port > 65535 { return None, -1; }
    var offset := Wrap(position);
    var client := head;
    k := 0;
    while client != null
      invariant 0 <= k <= |nodes| && client == NodeAt(nodes, k)
      invariant forall i :: 0 <= i < k ==> !Wanted(nodes[i], from, port)
      modifies {}
      decreases |nodes| - k
    {
      if Pending(client.data, port) {
        var differs := MyStricmp(client.name, from);
        if differs == 0 { break; }
      }
      client, k := client.next, k + 1;
    }
    if client == null { return None, -1; }
    if client.data.filesize != 0 && offset > client.data.filesize { offset := 0; }
    client.data := client.data.(byteoffset := offset, sent := offset);
    return Some(offset), k;
  }

  /** Resuming completes the file: a getter that holds the file up to the offset, and receives what
      any finished run delivers, holds the whole file. The counters start at 0 after a REGET and at
      the offset after a RESUME. */
  lemma ResumedFileIsWhole(file: seq<Byte>, held: seq<Byte>, base: nat, states: seq<State>, steps: seq<Step>)
    requires |file| < WORD && held <= file && (base == 0 || base == |held|)
    requires IsRun(file, states, steps) && Initial(states[0], |held|, base)
    requires states[0].g.filesize == 0 || states[0].g.filesize == |file|
    requires Finished(states[|steps|])
    ensures held + states[|steps|].g.written == file && states[|steps|].s.fate == Complete
  {
    RunsDeliver(file, |held|, base, states, steps);
    assert held == file[..|held|];
  }
}
