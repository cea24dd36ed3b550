/** Frames of the stream download link: flags, byte stuffing, and receiving a frame cut into any parts. */
module Hdlc {
  import opened Crc16
  import opened Sequences
  import opened Wrappers

  const FLAG: bv8 := 0x7E
  const ESCAPE: bv8 := 0x7D
  const BUFFER_SIZE: nat := 1280

  // ---------- Stuffing ----------

  function StuffedByte(b: bv8): (r: seq<bv8>)
    ensures 1 <= |r| <= 2
  {
    if b == FLAG || b == ESCAPE then [ESCAPE, 0x20 ^ b] else [b]
  }

  function Stuffed(payload: seq<bv8>): seq<bv8>
  {
    if payload == [] then [] else StuffedByte(payload[0]) + Stuffed(payload[1..])
  }

  function Frame(payload: seq<bv8>, flag: bool): seq<bv8>
  {
    (if flag then [FLAG] else []) + Stuffed(payload) + [FLAG]
  }

  /** Number of bytes that are stuffed. */
  function Specials(payload: seq<bv8>): nat
  {
    if payload == [] then 0
    else (if payload[0] == FLAG || payload[0] == ESCAPE then 1 else 0) + Specials(payload[1..])
  }

  lemma {:induction false} StuffedLength(payload: seq<bv8>)
    ensures |Stuffed(payload)| == |payload| + Specials(payload)
  {
    if payload != [] {
      StuffedLength(payload[1..]);
    }
  }

  lemma {:induction false} StuffedConcat(a: seq<bv8>, b: seq<bv8>)
    ensures Stuffed(a + b) == Stuffed(a) + Stuffed(b)
  {
    if a == [] {
      assert a + b == b;
    } else {
      assert (a + b)[0] == a[0] && (a + b)[1..] == a[1..] + b;
      StuffedConcat(a[1..], b);
    }
  }

  /** No flag byte occurs inside a stuffed body. */
  lemma {:induction false} NoFlagInside(payload: seq<bv8>)
    ensures forall i :: 0 <= i < |Stuffed(payload)| ==> Stuffed(payload)[i] != FLAG
  {
    if payload != [] {
      NoFlagInside(payload[1..]);
    }
  }

  /** A packet with the two bytes of its checksum, low byte first. */
  function Checked(packet: seq<bv8>): seq<bv8>
  {
    packet + [LowByte(!Serial(SEED, packet)), HighByte(!Serial(SEED, packet))]
  }

  /** A flag and an escape travel as two bytes each, everything else as it is. */
  lemma FrameOfThree(b: bv8)
    requires b != 0x7E && b != 0x7D
    ensures Frame([0x7E, b, 0x7D], true) == [0x7E, 0x7D, 0x5E, b, 0x7D, 0x5D, 0x7E]
  {
    assert [0x7E, b, 0x7D][1..] == [b, 0x7D] && [b, 0x7D][1..] == [0x7D];
    assert Stuffed([0x7D]) == [0x7D, 0x5D];
    assert Stuffed([b, 0x7D]) == [b, 0x7D, 0x5D];
  }

  /** The program has one frame ready made: it is the frame of the command 0x7C. */
  lemma ReadyMadeFrame()
    ensures Frame(Checked([0x7C]), true) == [0x7E, 0x7C, 0x93, 0x49, 0x7E]
  {
    hide ByteStep, Frame;
    assert [0x7C][..0] == [];
    StepOfReadyMade();
    assert Serial(SEED, [0x7C]) == 0xB66C;
    assert Checked([0x7C]) == [0x7C, 0x93, 0x49];
    PlainFrame();
  }

  lemma StepOfReadyMade()
    ensures ByteStep(0xFFFF, 0x7C) == 0xB66C
  {
  }

  lemma PlainFrame()
    ensures Frame([0x7C, 0x93, 0x49], true) == [0x7E, 0x7C, 0x93, 0x49, 0x7E]
  {
    assert [0x7C, 0x93, 0x49][1..] == [0x93, 0x49] && [0x93, 0x49][1..] == [0x49];
    assert Stuffed([0x49]) == [0x49];
    assert Stuffed([0x93, 0x49]) == [0x93, 0x49];
  }

  lemma FrameLength(payload: seq<bv8>, flag: bool)
    ensures |Frame(payload, flag)| == |payload| + Specials(payload) + if flag then 2 else 1
  {
    StuffedLength(payload);
  }

  lemma {:induction false} SpecialsConcat(a: seq<bv8>, b: seq<bv8>)
    ensures Specials(a + b) == Specials(a) + Specials(b)
  {
    StuffedConcat(a, b);
    StuffedLength(a + b);
    StuffedLength(a);
    StuffedLength(b);
  }

  // ---------- Unstuffing ----------

  function SkipFlags(bytes: seq<bv8>): (r: seq<bv8>)
    ensures |r| <= |bytes| && r == bytes[|bytes| - |r|..]
    ensures r != [] ==> r[0] != FLAG
    ensures forall i :: 0 <= i < |bytes| - |r| ==> bytes[i] == FLAG
  {
    if bytes != [] && bytes[0] == FLAG then SkipFlags(bytes[1..]) else bytes
  }

  function Restored(b: bv8, escape: bool): bv8
  {
    if escape then b ^ 0x20 else b
  }

  /** What is left when escapes are taken away; escape tells whether one stands just before. */
  function Unstuffed(bytes: seq<bv8>, escape: bool): (r: seq<bv8>)
    ensures |r| <= |bytes|
  {
    if bytes == [] then []
    else if bytes[0] == ESCAPE then Unstuffed(bytes[1..], true)
    else [Restored(bytes[0], escape)] + Unstuffed(bytes[1..], false)
  }

  /** What remove_escape_hdlc_flag leaves of the bytes received. */
  function Received(bytes: seq<bv8>): seq<bv8>
  {
    Unstuffed(SkipFlags(bytes), false)
  }

  lemma EscapeUndone(b: bv8)
    ensures (0x20 ^ b) ^ 0x20 == b && (b == FLAG || b == ESCAPE ==> 0x20 ^ b != ESCAPE)
  {
  }

  lemma UnstuffByte(b: bv8, rest: seq<bv8>)
    ensures Unstuffed(StuffedByte(b) + rest, false) == [b] + Unstuffed(rest, false)
  {
    EscapeUndone(b);
    var all := StuffedByte(b) + rest;
    if b == FLAG || b == ESCAPE {
      assert all[1..] == [0x20 ^ b] + rest && all[1..][1..] == rest;
    } else {
      assert all[1..] == rest;
    }
  }

  lemma {:induction false} UnstuffStuffed(payload: seq<bv8>)
    ensures Unstuffed(Stuffed(payload) + [FLAG], false) == payload + [FLAG]
  {
    if payload == [] {
    } else {
      hide Unstuffed, StuffedByte;
      var rest := Stuffed(payload[1..]) + [FLAG];
      UnstuffStuffed(payload[1..]);
      UnstuffByte(payload[0], rest);
      assert Stuffed(payload) + [FLAG] == StuffedByte(payload[0]) + rest;
    }
  }

  lemma NothingToSkip()
    ensures SkipFlags([]) == []
  {
  }

  lemma SkipOne(bytes: seq<bv8>, i: nat)
    requires i < |bytes| && bytes[i] == FLAG
    ensures SkipFlags(bytes[i..]) == SkipFlags(bytes[i + 1..])
  {
    assert bytes[i..][1..] == bytes[i + 1..];
  }

  lemma SkipNone(bytes: seq<bv8>)
    requires bytes == [] || bytes[0] != FLAG
    ensures SkipFlags(bytes) == bytes
  {
  }

  lemma SkipFirstFlag(bytes: seq<bv8>)
    requires bytes != [] && bytes[0] != FLAG
    ensures SkipFlags([FLAG] + bytes) == bytes && SkipFlags(bytes) == bytes
  {
    assert ([FLAG] + bytes)[1..] == bytes;
  }

  /** A frame is received as its payload and the closing flag; an empty payload leaves nothing. */
  lemma FrameReceived(payload: seq<bv8>, flag: bool)
    ensures Received(Frame(payload, flag)) == if payload == [] then [] else payload + [FLAG]
  {
    if payload == [] {
      assert Frame(payload, flag) == if flag then [FLAG, FLAG] else [FLAG];
    } else {
      var body := Stuffed(payload) + [FLAG];
      NoFlagInside(payload);
      StuffedLength(payload);
      UnstuffStuffed(payload);
      SkipFirstFlag(body);
      assert Frame(payload, flag) == if flag then [FLAG] + body else body;
    }
  }

  // ---------- Receiving ----------

  /** What receive_packet returns when these parts come in behind the bytes it has: nothing on a timeout, which is an
      empty read or the end of the list. */
  function Receive(got: seq<bv8>, parts: seq<seq<bv8>>): Option<seq<bv8>>
    decreases |parts|
  {
    if parts == [] || parts[0] == [] then None
    else
      var all := got + parts[0];
      if all[|all| - 1] == FLAG && Received(all) != [] then Some(Received(all)) else Receive(all, parts[1..])
  }

  /** However a frame is cut into parts, it is received as its payload and the closing flag, unless the payload is
      empty: then the call waits until its timeout. */
  lemma {:induction false} FrameUnderAnyReads(payload: seq<bv8>, flag: bool, got: seq<bv8>, parts: seq<seq<bv8>>)
    requires got + Join(parts) == Frame(payload, flag) && forall i :: 0 <= i < |parts| ==> parts[i] != []
    requires |got| < |Frame(payload, flag)| || payload == []
    ensures Receive(got, parts) == if payload == [] then None else Some(payload + [FLAG])
    decreases |parts|
  {
    hide Received;
    var frame := Frame(payload, flag);
    if parts != [] {
      var all := got + parts[0];
      assert all + Join(parts[1..]) == frame;
      assert all == frame[..|all|];
      FlagsOfFrame(payload, flag, |all|);
      FrameReceived(payload, flag);
      if |all| == |frame| {
        assert all == frame;
        assert Join(parts[1..]) == [];
      }
      if payload == [] || |all| < |frame| {
        FrameUnderAnyReads(payload, flag, all, parts[1..]);
      }
    } else {
      assert Join(parts) == [];
    }
  }

  /** A part of a frame that ends with a flag is the first flag alone, or all of it. */
  lemma FlagsOfFrame(payload: seq<bv8>, flag: bool, n: nat)
    requires 0 < n <= |Frame(payload, flag)|
    ensures Frame(payload, flag)[n - 1] == FLAG <==> n == |Frame(payload, flag)| || (flag && n == 1)
    ensures flag ==> Received(Frame(payload, flag)[..1]) == []
  {
    NoFlagInside(payload);
    if flag {
      assert Frame(payload, flag)[..1] == [FLAG];
    }
  }

  /** The first k bytes are not all flags, or the byte of the buffer behind them is none. */
  predicate StopsBehind(buffer: seq<bv8>, bytes: seq<bv8>, k: nat)
    requires k <= |bytes| < |buffer|
  {
    SkipFlags(bytes[..k]) == [] ==> buffer[k] != FLAG
  }

  // ---------- The program ----------

  class Link {
    const tx: array<bv8>
    var txLength: nat
    const streamTx: array<bv8>
    const rx: array<bv8>
    var rxBytes: nat

    ghost predicate Valid()
      reads this
    {
      && tx.Length == BUFFER_SIZE && streamTx.Length == BUFFER_SIZE && rx.Length == BUFFER_SIZE
      && tx != streamTx && tx != rx && streamTx != rx
      && txLength <= BUFFER_SIZE && rxBytes <= BUFFER_SIZE
    }

    constructor ()
      ensures Valid() && fresh(tx) && fresh(streamTx) && fresh(rx) && txLength == 0
    {
      tx := new bv8[BUFFER_SIZE](_ => 0);
      streamTx := new bv8[BUFFER_SIZE](_ => 0);
      rx := new bv8[BUFFER_SIZE](_ => 0);
      txLength, rxBytes := 0, 0;
    }

    /** A command byte, its parameter and its data, and a zero behind them. */
    method ComposePacket(cmd: bv8, parameter: seq<bv8>, data: seq<bv8>)
      requires Valid() && 1 + |parameter| + |data| < BUFFER_SIZE
      modifies `txLength, tx
      ensures Valid() && tx[..txLength] == [cmd] + parameter + data
    {
      tx[0] := cmd;
      forall i | 0 <= i < |parameter| {
        tx[1 + i] := parameter[i];
      }
      forall i | 0 <= i < |data| {
        tx[1 + |parameter| + i] := data[i];
      }
      txLength := 1 + |parameter| + |data|;
      tx[txLength] := 0;
    }

    /** Appends the checksum, low byte first. */
    method ComputeReplyCrc()
      requires Valid() && txLength + 2 <= BUFFER_SIZE
      modifies `txLength, tx
      ensures Valid() && txLength == old(txLength) + 2
      ensures tx[..txLength] == Checked(old(tx[..txLength]))
    {
      hide LowByte, HighByte, Serial;
      var crc := Crc16LCalc(tx[..txLength]);
      tx[txLength] := LowByte(crc);
      tx[txLength + 1] := HighByte(crc);
      txLength := txLength + 2;
    }

    /** One byte of the packet, stuffed. */
    method TransmitByte(ch: bv8, j: nat) returns (next: nat)
      requires Valid() && j + |StuffedByte(ch)| <= BUFFER_SIZE
      modifies streamTx
      ensures next == j + |StuffedByte(ch)| && streamTx[..next] == old(streamTx[..j]) + StuffedByte(ch)
    {
      if ch == FLAG || ch == ESCAPE {
        streamTx[j], streamTx[j + 1] := ESCAPE, 0x20 ^ ch;
        next := j + 2;
      } else {
        streamTx[j] := ch;
        next := j + 1;
      }
    }

    /** send_packet: what goes out is the frame of the packet. */
    method SendPacket(flag: bool) returns (sent: seq<bv8>)
      requires Valid() && |Frame(tx[..txLength], flag)| <= BUFFER_SIZE
      modifies streamTx
      ensures Valid() && sent == Frame(tx[..txLength], flag)
    {
      hide Stuffed, StuffedByte;
      var j: nat := 0;
      if flag {
        streamTx[0] := FLAG;
        j := 1;
      }
      ghost var payload, first := tx[..txLength], if flag then [FLAG] else [];
      assert streamTx[..j] == first;
      NothingStuffed();
      var i := 0;
      while i < txLength
        invariant i <= txLength && tx[..txLength] == payload
        invariant j <= BUFFER_SIZE && streamTx[..j] == first + Stuffed(payload[..i])
      {
        RoomForByte(payload, i);
        j := TransmitByte(tx[i], j);
        ConcatAssociates(first, Stuffed(payload[..i]), StuffedByte(payload[i]));
        i := i + 1;
      }
      assert payload[..i] == payload;
      streamTx[j] := FLAG;
      j := j + 1;
      return streamTx[..j];
    }

    /** The first byte that is no flag, or the end of the data. */
    method FirstOfBody(len: nat) returns (i: nat)
      requires Valid() && len < BUFFER_SIZE && (SkipFlags(rx[..len]) == [] ==> rx[len] != FLAG)
      ensures i <= len && Received(rx[..len]) == Unstuffed(rx[i..len], false)
      ensures SkipFlags(rx[..len]) == [] <==> i == len
    {
      hide Unstuffed, SkipFlags;
      ghost var bytes := rx[..len];
      i := 0;
      assert bytes[0..] == bytes;
      NothingToSkip();
      while rx[i] == FLAG
        invariant i <= len && SkipFlags(bytes) == SkipFlags(bytes[i..])
        invariant i == len ==> bytes[i..] == []
        decreases len - i
      {
        SkipOne(bytes, i);
        i := i + 1;
      }
      SkipNone(bytes[i..]);
      assert bytes[i..] == rx[i..len];
    }

    /** One byte of the body: an escape is remembered, any other byte moves down. */
    method MoveByte(i: nat, index: nat, escape: bool, ghost bytes: seq<bv8>, ghost from: nat)
      returns (next: nat, escaped: bool)
      requires Valid() && index <= i < |bytes| <= BUFFER_SIZE && from <= i && rx[i] == bytes[i]
      requires Progress(rx[..index], bytes, i, escape, from)
      modifies rx
      ensures escaped <==> old(rx[i]) == ESCAPE
      ensures next == if escaped then index else index + 1
      ensures Progress(rx[..next], bytes, i + 1, escaped, from)
      ensures forall k :: i < k < BUFFER_SIZE ==> rx[k] == old(rx[k])
    {
      hide Progress;
      ProgressStep(rx[..index], bytes, i, escape, from);
      if rx[i] == ESCAPE {
        assert rx[..index] + [] == rx[..index];
        return index, true;
      }
      ghost var before := rx[..index];
      if escape {
        rx[i] := rx[i] ^ 0x20;
      }
      rx[index] := rx[i];
      assert rx[..index + 1] == before + [Restored(bytes[i], escape)];
      return index + 1, false;
    }

    /** remove_escape_hdlc_flag, in place: no byte is overwritten before it has been read. The byte behind data that is
        all flags must not be a flag: the search for the first byte that is none would run on. */
    method RemoveEscapeHdlcFlag(len: nat) returns (index: nat)
      requires Valid() && len < BUFFER_SIZE && (SkipFlags(rx[..len]) == [] ==> rx[len] != FLAG)
      modifies rx
      ensures index <= len && rx[..index] == Received(old(rx[..len]))
      ensures SkipFlags(old(rx[..len])) == [] ==> rx[..] == old(rx[..])
      ensures forall k :: len <= k < BUFFER_SIZE ==> rx[k] == old(rx[k]) || (k == len == index && rx[k] == 0)
    {
      hide Unstuffed, SkipFlags, Received;
      NothingUnstuffed();
      if len == 0 {
        assert rx[..0] == [];
        return 0;
      }
      var i := FirstOfBody(len);
      if i == len {
        assert rx[i..len] == [];
        return 0;
      }
      index := Unescape(i, len);
      rx[index] := 0;
    }

    method Unescape(from: nat, len: nat) returns (index: nat)
      requires Valid() && from <= len < BUFFER_SIZE
      modifies rx
      ensures index <= len && rx[..index] == Unstuffed(old(rx[from..len]), false)
      ensures forall k :: len <= k < BUFFER_SIZE ==> rx[k] == old(rx[k])
    {
      hide Progress, Unstuffed;
      ghost var bytes := rx[..len];
      assert rx[from..len] == bytes[from..];
      ProgressStart(rx[..0], bytes, from);
      var i, escape := from, false;
      index := 0;
      while i < len
        invariant index <= i <= len && from <= i && Progress(rx[..index], bytes, i, escape, from)
        invariant forall k :: i <= k < BUFFER_SIZE ==> rx[k] == old(rx[k])
      {
        index, escape := MoveByte(i, index, escape, bytes, from);
        i := i + 1;
      }
      ProgressEnd(rx[..index], bytes, escape, from);
    }

    /** receive_packet: bytes are gathered until a flag ends them and something is left without the flags. */
    method ReceivePacket(parts: seq<seq<bv8>>) returns (ok: bool)
      requires Valid() && |Join(parts)| < BUFFER_SIZE
      requires forall k: nat :: 0 < k <= |Join(parts)| ==> StopsBehind(rx[..], Join(parts), k)
      modifies `rxBytes, rx
      ensures Valid() && ok == Receive([], parts).Some?
      ensures ok ==> rx[..rxBytes] == Receive([], parts).value
    {
      hide Received, Join, Receive, SkipFlags;
      ghost var all, buffer := Join(parts), rx[..];
      var idx, i := 0, 0;
      assert parts[0..] == parts;
      while i < |parts|
        invariant i <= |parts| && idx <= |all| && all[idx..] == Join(parts[i..])
        invariant rx[..idx] == all[..idx] && Receive(all[..idx], parts[i..]) == Receive([], parts)
        invariant forall k :: idx <= k < BUFFER_SIZE ==> rx[k] == old(rx[k])
        invariant Valid()
      {
        NextPart(parts, i, all[..idx]);
        var part := parts[i];
        if |part| == 0 {
          return false;
        }
        assert all[idx..] == part + Join(parts[i + 1..]);
        assert all[..idx] + part == all[..idx + |part|];
        forall k | 0 <= k < |part| {
          rx[idx + k] := part[k];
        }
        idx := idx + |part|;
        i := i + 1;
        assert rx[..idx] == all[..idx];
        if rx[idx - 1] == FLAG {
          assert StopsBehind(buffer, all, idx) && rx[idx] == buffer[idx];
          var n := RemoveEscapeHdlcFlag(idx);
          rxBytes := n;
          if n != 0 {
            return true;
          }
          EmptyMeansFlags(all[..idx]);
        }
      }
      assert parts[i..] == [];
      NothingMore(all[..idx]);
      return false;
    }
  }

  lemma NothingMore(got: seq<bv8>)
    ensures Receive(got, []) == None
  {
  }

  lemma NextPart(parts: seq<seq<bv8>>, i: nat, got: seq<bv8>)
    requires i < |parts|
    ensures Join(parts[i..]) == parts[i] + Join(parts[i + 1..])
    ensures Receive(got, parts[i..])
         == if parts[i] == [] then None
            else if (got + parts[i])[|got + parts[i]| - 1] == FLAG && Received(got + parts[i]) != []
              then Some(Received(got + parts[i]))
            else Receive(got + parts[i], parts[i + 1..])
  {
    hide Received;
    assert parts[i..][1..] == parts[i + 1..];
  }

  /** Nothing is left of data that ends with a flag only when all of it is flags. */
  lemma EmptyMeansFlags(bytes: seq<bv8>)
    requires bytes != [] && bytes[|bytes| - 1] == FLAG && Received(bytes) == []
    ensures SkipFlags(bytes) == []
  {
    var body := SkipFlags(bytes);
    if body != [] {
      assert body[|body| - 1] == bytes[|bytes| - 1];
      FlagStays(body, false);
    }
  }

  lemma {:induction false} FlagStays(bytes: seq<bv8>, escape: bool)
    requires bytes != [] && bytes[|bytes| - 1] == FLAG
    ensures Unstuffed(bytes, escape) != []
  {
    if |bytes| > 1 {
      FlagStays(bytes[1..], bytes[0] == ESCAPE);
    }
  }

  lemma NothingStuffed()
    ensures Stuffed([]) == []
  {
  }

  lemma NothingUnstuffed()
    ensures SkipFlags([]) == [] && Received([]) == [] && Unstuffed([], false) == [] && Unstuffed([], true) == []
  {
  }

  /** What the bytes in front of i have become, with what the rest is to become behind it. */
  ghost predicate Progress(out: seq<bv8>, bytes: seq<bv8>, i: nat, escape: bool, from: nat)
    requires i <= |bytes| && from <= |bytes|
  {
    out + Unstuffed(bytes[i..], escape) == Unstuffed(bytes[from..], false)
  }

  lemma ProgressStart(out: seq<bv8>, bytes: seq<bv8>, from: nat)
    requires out == [] && from <= |bytes|
    ensures Progress(out, bytes, from, false, from)
  {
  }

  lemma ProgressEnd(out: seq<bv8>, bytes: seq<bv8>, escape: bool, from: nat)
    requires from <= |bytes| && Progress(out, bytes, |bytes|, escape, from)
    ensures out == Unstuffed(bytes[from..], false)
  {
    assert bytes[|bytes|..] == [] && out + [] == out;
  }

  lemma ProgressStep(out: seq<bv8>, bytes: seq<bv8>, i: nat, escape: bool, from: nat)
    requires i < |bytes| && from <= |bytes| && Progress(out, bytes, i, escape, from)
    ensures var escaped := bytes[i] == ESCAPE;
            Progress(out + if escaped then [] else [Restored(bytes[i], escape)], bytes, i + 1, escaped, from)
  {
    hide Unstuffed, Restored;
    UnstuffOne(bytes, i, escape);
    if bytes[i] == ESCAPE {
      assert out + [] == out;
    } else {
      ConcatAssociates(out, [Restored(bytes[i], escape)], Unstuffed(bytes[i + 1..], false));
    }
  }

  lemma UnstuffOne(bytes: seq<bv8>, i: nat, escape: bool)
    requires i < |bytes|
    ensures Unstuffed(bytes[i..], escape)
         == if bytes[i] == ESCAPE then Unstuffed(bytes[i + 1..], true)
            else [Restored(bytes[i], escape)] + Unstuffed(bytes[i + 1..], false)
  {
    assert bytes[i..][1..] == bytes[i + 1..];
  }

  /** There is room for the rest of a frame that fits. */
  lemma RoomForByte(payload: seq<bv8>, i: nat)
    requires i < |payload|
    ensures Stuffed(payload[..i + 1]) == Stuffed(payload[..i]) + StuffedByte(payload[i])
    ensures |Stuffed(payload[..i + 1])| <= |Stuffed(payload)|
  {
    assert payload[..i + 1] == payload[..i] + [payload[i]] && payload == payload[..i + 1] + payload[i + 1..];
    StuffedConcat(payload[..i], [payload[i]]);
    StuffedConcat(payload[..i + 1], payload[i + 1..]);
    assert [payload[i]][1..] == [];
    NothingStuffed();
  }
}
