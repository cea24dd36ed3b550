/** Writing an image in blocks: every block is sent until it is acknowledged, with three tries to spare in all. */
module StreamWrite {
  import opened Crc16
  import opened CTypes
  import opened Hdlc

  const BLOCK: nat := 1024
  const WRITE_OK: nat := 0x08

  /** What comes of sending one frame: the write fails, nothing comes back, or a packet with this first byte. */
  datatype Attempt = Fails | Silent | Answer(code: nat)

  /** A write packet: the address and the bytes for it. */
  datatype Packet = Packet(addr: nat, data: seq<byte>)

  predicate Acked(a: Attempt)
  {
    a == Answer(WRITE_OK)
  }

  /** Blocks needed for n bytes. */
  function Blocks(n: nat): nat
  {
    (n + BLOCK - 1) / BLOCK
  }

  /** Attempts among the first n that were not acknowledged. */
  function Refusals(replies: nat -> Attempt, n: nat): nat
  {
    if n == 0 then 0 else Refusals(replies, n - 1) + if Acked(replies(n - 1)) then 0 else 1
  }

  /** The packets among the first n that were acknowledged. */
  function Written(sent: seq<Packet>, replies: nat -> Attempt, n: nat): seq<Packet>
    requires n <= |sent|
  {
    if n == 0 then [] else Written(sent, replies, n - 1) + if Acked(replies(n - 1)) then [sent[n - 1]] else []
  }

  /** The packets cover the addresses from 0 up to end, without gap or overlap. */
  predicate Tiles(packets: seq<Packet>, end: nat)
  {
    if packets == [] then end == 0
    else
      var last := packets[|packets| - 1];
      last.data != [] && last.addr + |last.data| == end && Tiles(packets[..|packets| - 1], last.addr)
  }

  /** What pkt_write_multi_image composes: command, address and data, with the checksum. */
  function WritePacket(addr: bv32, data: seq<bv8>): seq<bv8>
  {
    Checked([0x07] + AddressBytes(addr) + data)
  }

  function AddressBytes(addr: bv32): (r: seq<bv8>)
    ensures |r| == 4
  {
    [(addr & 0xFF) as bv8, ((addr >> 8) & 0xFF) as bv8, ((addr >> 16) & 0xFF) as bv8, ((addr >> 24) & 0xFF) as bv8]
  }

  /** The address is written low-order byte first, and can be read back from its bytes. */
  lemma AddressReadBack(addr: bv32)
    ensures var r := AddressBytes(addr);
            (r[0] as bv32) | (r[1] as bv32 << 8) | (r[2] as bv32 << 16) | (r[3] as bv32 << 24) == addr
  {
  }

  /** Only the answer 0x08 acknowledges a block: with it alone no attempt is in vain, with another every one is. */
  lemma {:induction false} OnlyEightAcknowledges(code: nat, n: nat)
    ensures Refusals(_ => Answer(code), n) == if code == 0x08 then 0 else n
  {
    if n > 0 {
      OnlyEightAcknowledges(code, n - 1);
    }
  }

  /** The frame of a write packet fits the transmit buffer exactly when it holds few enough flags and escapes, for a
      full block at most 247. */
  lemma WriteFits(addr: bv32, data: seq<bv8>)
    requires |data| <= BLOCK
    ensures |Frame(WritePacket(addr, data), true)| <= BUFFER_SIZE
       <==> Specials(WritePacket(addr, data)) <= 247 + (BLOCK - |data|)
  {
    hide Frame, Checked, AddressBytes, Specials;
    CheckedLength([0x07] + AddressBytes(addr) + data);
    FrameLength(WritePacket(addr, data), true);
  }

  lemma CheckedLength(packet: seq<bv8>)
    ensures |Checked(packet)| == |packet| + 2
  {
  }

  /** A block with more than 247 flags in it does not, whatever its address. */
  lemma BlockOverruns(addr: bv32, data: seq<bv8>)
    requires |data| == BLOCK && Specials(data) > 247
    ensures |Frame(WritePacket(addr, data), true)| > BUFFER_SIZE
  {
    hide Frame, Specials, AddressBytes, LowByte, HighByte, Serial;
    var head := [0x07] + AddressBytes(addr);
    var tail := [LowByte(!Serial(SEED, head + data)), HighByte(!Serial(SEED, head + data))];
    WriteFits(addr, data);
    SpecialsConcat(head + data, tail);
    SpecialsConcat(head, data);
  }

  /** A block of flags is such a block. */
  lemma {:induction false} FlagsAreSpecial(data: seq<bv8>)
    requires forall i :: 0 <= i < |data| ==> data[i] == FLAG
    ensures Specials(data) == |data|
  {
    if data != [] {
      FlagsAreSpecial(data[1..]);
    }
  }

  /** A packet that was not acknowledged is sent again as it is; one that was is followed by the next addresses. */
  ghost predicate Resent(sent: seq<Packet>, replies: nat -> Attempt)
  {
    forall i :: 0 <= i < |sent| - 1 ==>
      if Acked(replies(i)) then sent[i + 1].addr == sent[i].addr + |sent[i].data| else sent[i + 1] == sent[i]
  }

  /** Every packet is for a block address, and carries the front of the data. */
  predicate FromFront(sent: seq<Packet>, data: seq<byte>)
  {
    forall i :: 0 <= i < |sent| ==> IsFront(sent[i], data)
  }

  predicate IsFront(packet: Packet, data: seq<byte>)
  {
    && packet.addr % BLOCK == 0 && |packet.data| <= BLOCK
    && |packet.data| <= |data| && packet.data == data[..|packet.data|]
  }

  /** The write after some attempts: addresses below addr are acknowledged, and these tries are left. */
  ghost predicate Progress(data: seq<byte>, replies: nat -> Attempt, sent: seq<Packet>, addr: nat, tries: nat)
  {
    && addr <= |data|
    && tries + Refusals(replies, |sent|) == 3
    && |sent| == Blocks(addr) + Refusals(replies, |sent|)
    && Tiles(Written(sent, replies, |sent|), addr)
    && FromFront(sent, data)
  }

  lemma {:induction false} WrittenPrefix(sent: seq<Packet>, replies: nat -> Attempt, n: nat, packet: Packet)
    requires n <= |sent|
    ensures Written(sent + [packet], replies, n) == Written(sent, replies, n)
  {
    if n > 0 {
      WrittenPrefix(sent, replies, n - 1, packet);
    }
  }

  lemma AttemptMade(data: seq<byte>, replies: nat -> Attempt, sent: seq<Packet>, addr: nat, tries: nat, w: nat)
    requires Progress(data, replies, sent, addr, tries) && addr % BLOCK == 0 && tries > 0
    requires 0 < w <= BLOCK && addr + w <= |data|
    ensures if Acked(replies(|sent|)) then Progress(data, replies, sent + [Packet(addr, data[..w])], addr + w, tries)
            else Progress(data, replies, sent + [Packet(addr, data[..w])], addr, tries - 1)
  {
    hide Tiles, FromFront, Blocks;
    var packet := Packet(addr, data[..w]);
    var n := |sent|;
    OneBlockMore(addr, w);
    WrittenPrefix(sent, replies, n, packet);
    assert (sent + [packet])[n] == packet;
    StillFromFront(sent, data, packet);
    if Acked(replies(n)) {
      TilesOneMore(Written(sent, replies, n), addr, packet);
    } else {
      assert Written(sent, replies, n) + [] == Written(sent, replies, n);
    }
  }

  lemma OneBlockMore(addr: nat, w: nat)
    requires addr % BLOCK == 0 && 0 < w <= BLOCK
    ensures Blocks(addr + w) == Blocks(addr) + 1
  {
  }

  lemma StillFromFront(sent: seq<Packet>, data: seq<byte>, packet: Packet)
    requires FromFront(sent, data) && IsFront(packet, data)
    ensures FromFront(sent + [packet], data)
  {
  }

  lemma TilesOneMore(packets: seq<Packet>, end: nat, packet: Packet)
    requires Tiles(packets, end) && packet.addr == end && packet.data != []
    ensures Tiles(packets + [packet], end + |packet.data|)
  {
    assert (packets + [packet])[..|packets|] == packets;
  }

  lemma ResentAgain(sent: seq<Packet>, replies: nat -> Attempt, packet: Packet, next: Packet)
    requires Resent(sent + [packet], replies)
    requires if Acked(replies(|sent|)) then next.addr == packet.addr + |packet.data| else next == packet
    ensures Resent((sent + [packet]) + [next], replies)
  {
  }

  /** The last packet was acknowledged, and ends at addr. */
  predicate EndsAt(sent: seq<Packet>, replies: nat -> Attempt, addr: nat)
  {
    sent != [] ==> Acked(replies(|sent| - 1)) && sent[|sent| - 1].addr + |sent[|sent| - 1].data| == addr
  }

  /** handle_write, given what comes of every attempt. The data pointer stays where it is: every packet carries the
      front of the data. */
  method HandleWrite(data: seq<byte>, replies: nat -> Attempt) returns (ok: bool, sent: seq<Packet>)
    ensures |sent| <= Blocks(|data|) + 2
    ensures Resent(sent, replies) && FromFront(sent, data)
    ensures ok ==> Tiles(Written(sent, replies, |sent|), |data|)
    ensures ok ==> |sent| == Blocks(|data|) + Refusals(replies, |sent|) && Refusals(replies, |sent|) <= 2
    ensures ok <==> sent == [] || Acked(replies(|sent| - 1))
    ensures !ok ==> replies(|sent| - 1).Fails? || Refusals(replies, |sent|) == 3
  {
    hide Tiles, Written, Refusals, Resent, FromFront, Blocks, Progress;
    var size: nat, addr: nat, retryCount: nat := |data|, 0, 3;
    sent := [];
    ProgressAtFirst(data, replies);
    while size > 0
      invariant addr + size == |data| && (size == 0 || addr % BLOCK == 0)
      invariant 1 <= retryCount && Progress(data, replies, sent, addr, retryCount)
      invariant Resent(sent, replies)
      invariant EndsAt(sent, replies, addr)
    {
      var writeSize := if size < BLOCK then size else BLOCK;
      BlocksLeft(addr, |data|);
      ok, sent, retryCount := WriteBlock(data, replies, sent, addr, writeSize, retryCount);
      if !ok {
        return false, sent;
      }
      size, addr := size - writeSize, addr + writeSize;
    }
    ProgressAtEnd(data, replies, sent, retryCount);
    return true, sent;
  }

  lemma ProgressAtEnd(data: seq<byte>, replies: nat -> Attempt, sent: seq<Packet>, tries: nat)
    requires Progress(data, replies, sent, |data|, tries) && tries > 0
    ensures FromFront(sent, data) && Tiles(Written(sent, replies, |sent|), |data|)
    ensures |sent| == Blocks(|data|) + Refusals(replies, |sent|) && Refusals(replies, |sent|) <= 2
  {
  }

  /** One block: sent until it is acknowledged, or the tries are used up. */
  method WriteBlock(data: seq<byte>, replies: nat -> Attempt, before: seq<Packet>, addr: nat, writeSize: nat,
                    tries: nat)
    returns (ok: bool, sent: seq<Packet>, retryCount: nat)
    requires Progress(data, replies, before, addr, tries) && addr % BLOCK == 0 && tries > 0 && Resent(before, replies)
    requires 0 < writeSize <= BLOCK && addr + writeSize <= |data|
    requires EndsAt(before, replies, addr)
    ensures Resent(sent, replies) && FromFront(sent, data)
    ensures ok ==> retryCount > 0 && Progress(data, replies, sent, addr + writeSize, retryCount)
    ensures ok ==> EndsAt(sent, replies, addr + writeSize)
    ensures !ok ==> sent != [] && !Acked(replies(|sent| - 1))
    ensures !ok ==> replies(|sent| - 1).Fails? || Refusals(replies, |sent|) == 3
    ensures !ok ==> |sent| <= Blocks(addr) + 3
  {
    hide Tiles, Written, Refusals, FromFront;
    var packet := Packet(addr, data[..writeSize]);
    sent, retryCount := before, tries;
    ResentFirst(before, replies, packet);
    while true
      invariant 0 < retryCount && Progress(data, replies, sent, addr, retryCount)
      invariant Resent(sent + [packet], replies)
      decreases retryCount
    {
      hide Resent;
      var reply := replies(|sent|);
      AttemptMade(data, replies, sent, addr, retryCount, writeSize);
      if !Acked(reply) {
        ResentAgain(sent, replies, packet, packet);
      }
      sent := sent + [packet];
      if reply.Fails? {
        return false, sent, retryCount;
      }
      if Acked(reply) {
        return true, sent, retryCount;
      }
      retryCount := retryCount - 1;
      if retryCount == 0 {
        return false, sent, retryCount;
      }
    }
  }

  lemma ProgressAtFirst(data: seq<byte>, replies: nat -> Attempt)
    ensures Progress(data, replies, [], 0, 3) && Resent([], replies)
  {
  }

  lemma ResentFirst(before: seq<Packet>, replies: nat -> Attempt, packet: Packet)
    requires Resent(before, replies)
    requires EndsAt(before, replies, packet.addr)
    ensures Resent(before + [packet], replies)
  {
  }

  /** While something is left, one more block is needed. */
  lemma BlocksLeft(addr: nat, size: nat)
    requires addr % BLOCK == 0 && addr < size
    ensures Blocks(addr) + 1 <= Blocks(size)
  {
  }

  // ---------- What the device holds afterwards ----------

  /** The bytes of the packets, one behind the other. */
  function Image(packets: seq<Packet>): seq<byte>
  {
    if packets == [] then [] else Image(packets[..|packets| - 1]) + packets[|packets| - 1].data
  }

  lemma {:induction false} WrittenIsFront(sent: seq<Packet>, replies: nat -> Attempt, n: nat, data: seq<byte>)
    requires n <= |sent| && FromFront(sent, data)
    ensures FromFront(Written(sent, replies, n), data)
  {
    if n > 0 {
      WrittenIsFront(sent, replies, n - 1, data);
    }
  }

  lemma {:induction false} ImageOfFronts(packets: seq<Packet>, end: nat, data: seq<byte>)
    requires Tiles(packets, end) && FromFront(packets, data) && end <= |data|
    ensures |Image(packets)| == end
    ensures forall k :: 0 <= k < end ==> Image(packets)[k] == data[k % BLOCK]
  {
    if packets != [] {
      hide Image, IsFront;
      var last, before := packets[|packets| - 1], packets[..|packets| - 1];
      assert IsFront(last, data);
      ImageOfFronts(before, last.addr, data);
      ImageOfLast(packets, data, end);
    }
  }

  lemma ImageOfLast(packets: seq<Packet>, data: seq<byte>, end: nat)
    requires packets != [] && IsFront(packets[|packets| - 1], data)
    requires |Image(packets[..|packets| - 1])| == packets[|packets| - 1].addr
    requires end == packets[|packets| - 1].addr + |packets[|packets| - 1].data| <= |data|
    requires forall k :: 0 <= k < |Image(packets[..|packets| - 1])| ==>
               Image(packets[..|packets| - 1])[k] == data[k % BLOCK]
    ensures |Image(packets)| == end && forall k :: 0 <= k < end ==> Image(packets)[k] == data[k % BLOCK]
  {
    var last, before := packets[|packets| - 1], Image(packets[..|packets| - 1]);
    assert Image(packets) == before + last.data;
    forall k | last.addr <= k < end
      ensures Image(packets)[k] == data[k % BLOCK]
    {
      OffsetInBlock(last.addr, k);
    }
  }

  lemma OffsetInBlock(addr: nat, k: nat)
    requires addr % BLOCK == 0 && addr <= k < addr + BLOCK
    ensures k % BLOCK == k - addr
  {
  }

  /** After a successful write the device holds the data exactly when every block of it repeats the first. */
  lemma WrittenIffPeriodic(data: seq<byte>, sent: seq<Packet>, replies: nat -> Attempt)
    requires FromFront(sent, data) && Tiles(Written(sent, replies, |sent|), |data|)
    ensures Image(Written(sent, replies, |sent|)) == data
       <==> forall k :: 0 <= k < |data| ==> data[k] == data[k % BLOCK]
  {
    WrittenIsFront(sent, replies, |sent|, data);
    ImageOfFronts(Written(sent, replies, |sent|), |data|, data);
  }
}
