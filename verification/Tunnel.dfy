/** USB data through a TCP connection: every USB read travels as one record, and the other end reads records in
    portions of any size. */
module Tunnel {
  import opened CTypes
  import opened LittleEndian
  import opened Sequences

  const VERSION: nat := 0x1234_5678
  const HEADER_SIZE: nat := 8
  const MAX_LENGTH: nat := 0x8000_0000

  /** A record: tag, length, value. */
  function Record(data: seq<byte>): seq<byte>
    requires |data| < MAX_LENGTH
  {
    Put32(VERSION) + Put32(|data|) + data
  }

  ghost predicate AreRecords(records: seq<seq<byte>>)
  {
    forall i :: 0 <= i < |records| ==> |records[i]| < MAX_LENGTH
  }

  function Stream(records: seq<seq<byte>>): seq<byte>
    requires forall i :: 0 <= i < |records| ==> |records[i]| < MAX_LENGTH
  {
    if records == [] then [] else Record(records[0]) + Stream(records[1..])
  }

  // ---------- The writing end ----------

  /** A connection that takes as many bytes as it likes at a time; none at all when it is gone. */
  class Wire {
    var sent: seq<byte>
    var calls: nat

    constructor ()
      ensures sent == [] && calls == 0
    {
      sent, calls := [], 0;
    }

    /** noblock_full_write: write until all is taken or the connection is gone. */
    method FullWrite(bytes: seq<byte>, takes: nat -> nat) returns (cur: nat)
      modifies this
      ensures cur <= |bytes| && sent == old(sent) + bytes[..cur]
      ensures old(calls) <= calls && forall i :: old(calls) <= i < calls - 1 ==> takes(i) > 0
      ensures if cur < |bytes| then calls > old(calls) && takes(calls - 1) == 0
              else forall i :: old(calls) <= i < calls ==> takes(i) > 0
    {
      cur := 0;
      while cur < |bytes|
        invariant cur <= |bytes| && sent == old(sent) + bytes[..cur]
        invariant old(calls) <= calls && forall i :: old(calls) <= i < calls ==> takes(i) > 0
      {
        var n := Min(takes(calls), |bytes| - cur);
        calls := calls + 1;
        if n == 0 {
          break;
        }
        assert bytes[..cur] + bytes[cur..cur + n] == bytes[..cur + n];
        sent := sent + bytes[cur..cur + n];
        cur := cur + n;
      }
    }

    /** The record-writing branch of usb2tcp_main, for these reads from USB: it hangs up on an empty read or when
        the connection takes nothing, and for no other reason. The reads in front of that one have been sent whole, and
        of the one the connection did not take a front. */
    method WriteRecords(data: seq<seq<byte>>, takes: nat -> nat) returns (ok: bool, ghost whole: nat)
      requires AreRecords(data) && sent == [] && calls == 0
      modifies this
      ensures whole <= |data| && (ok <==> whole == |data|) && forall i :: 0 <= i < whole ==> data[i] != []
      ensures forall i :: 0 <= i < calls - 1 ==> takes(i) > 0
      ensures ok || data[whole] == [] ==> sent == Stream(data[..whole]) && (calls > 0 ==> takes(calls - 1) > 0)
      ensures !ok && data[whole] != [] ==>
                && calls > 0 && takes(calls - 1) == 0
                && Stream(data[..whole]) <= sent < Stream(data[..whole + 1])
      ensures sent <= Stream(data) && (ok ==> sent == Stream(data))
    {
      hide Record, Stream;
      var i := 0;
      StreamStep(data, 0);
      while i < |data|
        invariant i <= |data| && sent == Stream(data[..i]) && forall j :: 0 <= j < i ==> data[j] != []
        invariant forall j :: 0 <= j < calls ==> takes(j) > 0
      {
        StreamStep(data, i);
        if data[i] == [] {
          return false, i;
        }
        ghost var before := sent;
        var header := Put32(VERSION) + Put32(|data[i]|);
        var n := FullWrite(header, takes);
        if n != HEADER_SIZE {
          PartOfRecord(data, i, header[..n]);
          return false, i;
        }
        assert header[..n] == header;
        n := FullWrite(data[i], takes);
        ConcatAssociates(before, header, data[i][..n]);
        if n != |data[i]| {
          PartOfRecord(data, i, header + data[i][..n]);
          return false, i;
        }
        assert data[i][..n] == data[i];
        WholeRecord(data[i]);
        i := i + 1;
      }
      assert data[..i] == data;
      return true, i;
    }
  }

  lemma WholeRecord(data: seq<byte>)
    requires |data| < MAX_LENGTH
    ensures Record(data) == (Put32(VERSION) + Put32(|data|)) + data
  {
  }

  lemma {:induction false} StreamConcat(a: seq<seq<byte>>, b: seq<seq<byte>>)
    requires AreRecords(a) && AreRecords(b)
    ensures Stream(a + b) == Stream(a) + Stream(b)
  {
    if a == [] {
      assert a + b == b;
    } else {
      hide Record;
      assert (a + b)[0] == a[0] && (a + b)[1..] == a[1..] + b;
      StreamConcat(a[1..], b);
      ConcatAssociates(Record(a[0]), Stream(a[1..]), Stream(b));
    }
  }

  lemma StreamStep(data: seq<seq<byte>>, i: nat)
    requires AreRecords(data) && i <= |data|
    ensures data[..0] == [] && Stream(data[..0]) == [] && Stream(data[..i]) <= Stream(data)
    ensures i < |data| ==> Stream(data[..i + 1]) == Stream(data[..i]) + Record(data[i])
  {
    hide Record, Stream;
    NoRecords();
    StreamInTwo(data, i);
    if i < |data| {
      OneRecordMore(data, i);
    }
  }

  lemma StreamInTwo(data: seq<seq<byte>>, i: nat)
    requires AreRecords(data) && i <= |data|
    ensures Stream(data) == Stream(data[..i]) + Stream(data[i..])
  {
    hide Record, Stream;
    assert data == data[..i] + data[i..];
    StreamConcat(data[..i], data[i..]);
  }

  lemma OneRecordMore(data: seq<seq<byte>>, i: nat)
    requires AreRecords(data) && i < |data|
    ensures Stream(data[..i + 1]) == Stream(data[..i]) + Record(data[i])
  {
    hide Record, Stream;
    assert data[..i + 1] == data[..i] + [data[i]];
    StreamConcat(data[..i], [data[i]]);
    OneRecord(data[i]);
  }

  lemma NoRecords()
    ensures Stream([]) == []
  {
  }

  lemma OneRecord(data: seq<byte>)
    requires |data| < MAX_LENGTH
    ensures Stream([data]) == Record(data)
  {
    assert [data][1..] == [];
  }

  /** Part of a record behind whole records is part of the stream. */
  lemma PartOfRecord(data: seq<seq<byte>>, i: nat, part: seq<byte>)
    requires AreRecords(data) && i < |data| && part <= (Put32(VERSION) + Put32(|data[i]|)) + data[i]
    ensures Stream(data[..i]) + part <= Stream(data[..i + 1]) && Stream(data[..i]) + part <= Stream(data)
    ensures |part| < 8 + |data[i]| ==> Stream(data[..i]) + part < Stream(data[..i + 1])
  {
    hide Record, Stream, Put32;
    StreamStep(data, i);
    StreamStep(data, i + 1);
    WholeRecord(data[i]);
  }

  /** One byte as it travels: the tag 0x12345678 and the length, low-order byte first, and the byte. */
  lemma RecordOfOne(b: byte)
    ensures Record([b]) == [0x78, 0x56, 0x34, 0x12, 1, 0, 0, 0, b]
  {
  }

  // ---------- The reading end ----------

  /** The length in a header, a signed number of 32 bits. */
  function LengthAt(header: seq<byte>): int
    requires |header| >= HEADER_SIZE
  {
    var n := U32At(header, 4); if n < MAX_LENGTH then n else n - TWO32
  }

  function NotBelow0(n: int): nat
  {
    if n < 0 then 0 else n
  }

  class Reader {
    /** What is still to come from the connection. */
    var input: seq<byte>
    /** The static tlv.length of qtcp_read, an int. */
    var length: int
    /** The undelivered rest of the current record, and the records behind it. */
    ghost var rest: seq<byte>
    ghost var records: seq<seq<byte>>

    constructor (input: seq<byte>, ghost records: seq<seq<byte>>)
      requires AreRecords(records) && input == Stream(records)
      ensures Synced() && rest == [] && this.records == records && Remaining() == Join(records)
      ensures this.input == input && length == 0
    {
      this.input := input;
      length := 0;
      rest := [];
      this.records := records;
    }

    ghost predicate OnTheWire()
      reads this
    {
      AreRecords(records) && input == rest + Stream(records)
    }

    /** The carried length is the undelivered rest of the current record. */
    ghost predicate Synced()
      reads this
    {
      OnTheWire() && length == |rest|
    }

    ghost function Remaining(): seq<byte>
      reads this
    {
      rest + Join(records)
    }

    /** The number of bytes a call can return at most: what is left of the current record, or else the next one. */
    ghost function Current(): nat
      reads this
    {
      if rest != [] then |rest| else if records == [] then 0 else |records[0]|
    }

    /** The next record becomes the current one. */
    ghost method NextIsCurrent()
      requires Synced() && length == 0 && records != []
      modifies this`rest, this`records
      ensures rest == old(records[0]) && records == old(records[1..])
      ensures Remaining() == old(Remaining()) && old(Current()) == |rest|
      ensures |input| >= HEADER_SIZE && U32At(input, 0) == VERSION && LengthAt(input) == |rest|
      ensures AreRecords(records) && input[HEADER_SIZE..] == rest + Stream(records)
    {
      NextRecord(records);
      rest, records := records[0], records[1..];
    }

    /** A read of a header that brings a part of it only. */
    ghost predicate CutsHeader(header: nat)
      reads this
    {
      length == 0 && input != [] && 0 < header < HEADER_SIZE
    }

    /** qtcp_read, in whatever state: header is the number of bytes the read of a header brings, and arrives(i) that of
        the i-th read behind it, none when it times out. In step with the records it delivers their bytes in order, and
        it stays in step exactly when the header comes whole or not at all and the reads bring what was asked for
        before one of them brings nothing. */
    method QtcpRead(size: nat, header: nat, arrives: nat -> nat) returns (r: seq<byte>)
      modifies this
      ensures old(Synced() && !CutsHeader(header)) ==> OnTheWire() && r + Remaining() == old(Remaining())
      ensures old(Synced() && (length > 0 || header >= HEADER_SIZE)) ==>
                Delivered(arrives, Min(size, old(Current())), |r|)
      ensures old(Synced() && length > 0) ==> records == old(records) && r + rest == old(rest)
      ensures old(Synced() && length == 0 && header >= HEADER_SIZE) ==>
                if old(records) == [] then records == [] && r == rest == []
                else records == old(records[1..]) && r + rest == old(records[0])
      ensures old(Synced()) ==>
                (Synced() <==>
                  || old(length == 0 && header == 0)
                  || (!old(CutsHeader(header)) && Arrive(arrives, Min(size, old(Current())))))
      ensures old(length == 0 && (|input| < HEADER_SIZE || header < HEADER_SIZE)) ==>
                var n := Min(header, old(|input|));
                r == [] && input == old(input)[n..] && length == LengthAt(old(input)[..n] + ZeroBytes(HEADER_SIZE - n))
      ensures old(length == 0 && header >= HEADER_SIZE && |input| >= HEADER_SIZE && U32At(input, 0) != VERSION) ==>
                r == [] && input == old(input[HEADER_SIZE..]) && length == old(LengthAt(input))
      ensures old(length == 0 && header >= HEADER_SIZE && |input| >= HEADER_SIZE && U32At(input, 0) == VERSION) ==>
                Taken(old(input[HEADER_SIZE..]), old(LengthAt(input)), size, arrives, r)
      ensures old(length != 0) ==> Taken(old(input), old(length), size, arrives, r)
    {
      hide Record, Stream, Join, U32At, LengthAt;
      ghost var synced := Synced();
      r := [];
      if length == 0 {
        var whole := ReadHeader(header, synced);
        if !whole {
          NothingAsked(arrives);
          ConcatNothing(Remaining());
          return;
        }
      }
      ghost var whole := rest;
      assert synced ==> OnTheWire() && length == |rest| == old(Current()) && whole + Join(records) == old(Remaining());
      var want := if size > length then length else size;
      length := length - want;
      r := ReadBody(want, arrives, synced);
      if synced {
        DeliveredAll(arrives, want, |r|);
        ConcatAssociates(r, rest, Join(records));
      }
    }

    /** The reading of a header in qtcp_read. */
    method ReadHeader(header: nat, ghost synced: bool) returns (whole: bool)
      requires length == 0 && synced == Synced()
      modifies this
      ensures var short := header < HEADER_SIZE || |old(input)| < HEADER_SIZE;
              && (short ==>
                  var n := Min(header, |old(input)|);
                  && !whole && unchanged(`rest, `records) && input == old(input)[n..]
                  && length == LengthAt(old(input)[..n] + ZeroBytes(HEADER_SIZE - n)) && (n == 0 ==> length == 0))
              && (!short ==>
                  && input == old(input[HEADER_SIZE..]) && length == old(LengthAt(input))
                  && (whole <==> U32At(old(input), 0) == VERSION))
              && (synced && !short ==>
                  && whole && OnTheWire() && length == |rest| == old(Current()) && Remaining() == old(Remaining())
                  && old(records) != [] && rest == old(records)[0] && records == old(records)[1..])
      ensures synced && |old(input)| < HEADER_SIZE ==> old(input) == [] && old(Current()) == 0 && old(records) == []
    {
      hide Record, Stream, Join, U32At;
      if synced {
        NextRecord(records);
      }
      var len := Min(Min(header, HEADER_SIZE), |input|);
      if len != HEADER_SIZE {
        NothingRead(input);
        length := LengthAt(input[..len] + ZeroBytes(HEADER_SIZE - len));
        input := input[len..];
        return false;
      }
      if synced {
        NextIsCurrent();
      }
      var tag := U32At(input, 0);
      length := LengthAt(input);
      input := input[HEADER_SIZE..];
      return tag == VERSION;
    }

    /** The reading loop of qtcp_read. */
    method ReadBody(want: int, arrives: nat -> nat, ghost synced: bool) returns (r: seq<byte>)
      requires synced ==> OnTheWire() && want <= |rest|
      modifies this`input, this`rest
      ensures r + input == old(input) && Delivered(arrives, Min(NotBelow0(want), |old(input)|), |r|)
      ensures synced ==> OnTheWire() && r + rest == old(rest) && records == old(records)
    {
      ghost var available := Min(NotBelow0(want), |input|);
      r := [];
      var cur, calls := 0, 0;
      while cur < want
        invariant cur == |r| == Min(Brought(arrives, calls), available) && r + input == old(input)
        invariant forall i :: 0 <= i < calls ==> arrives(i) > 0
        invariant synced ==> OnTheWire() && r + rest == old(rest)
        decreases want - cur
      {
        var n := Min(Min(arrives(calls), want - cur), |input|);
        if n == 0 {
          break;
        }
        calls := calls + 1;
        ConcatAssociates(r, input[..n], input[n..]);
        if synced {
          TakeFront(input, rest, Stream(records), n);
          ConcatAssociates(r, rest[..n], rest[n..]);
          assert rest[..n] + rest[n..] == rest;
          rest := rest[n..];
        }
        assert input[..n] + input[n..] == input;
        r := r + input[..n];
        input := input[n..];
        cur := cur + n;
      }
      Stopped(arrives, available, calls);
    }

    /** The front of the input delivered for a request while length bytes are announced, and the length carried. */
    ghost predicate Taken(body: seq<byte>, announced: int, size: nat, arrives: nat -> nat, r: seq<byte>)
      reads this
    {
      var want := if size > announced then announced else size;
      && r + input == body && Delivered(arrives, Min(NotBelow0(want), |body|), |r|)
      && length == announced - want
    }

    /** Any sequence of read requests, as long as headers come whole and the bytes asked for arrive: every request is
        answered from the current record, and the bytes returned are a prefix of the payload. */
    method ReadMany(sizes: seq<nat>, arrives: nat -> nat) returns (pieces: seq<seq<byte>>)
      requires Synced() && forall i :: 0 <= i < |sizes| ==> Arrive(arrives, sizes[i])
      modifies this
      ensures Synced() && pieces == Portions(old(rest), old(records), sizes)
      ensures Join(pieces) + Remaining() == old(Remaining())
    {
      hide Record, Stream, Join, Portions;
      pieces := [];
      JoinFirst([]);
      ConcatNothing(Remaining());
      var i := 0;
      while i < |sizes|
        invariant i <= |sizes| && Synced() && Join(pieces) + Remaining() == old(Remaining())
        invariant pieces + Portions(rest, records, sizes[i..]) == Portions(old(rest), old(records), sizes)
      {
        LessArrives(arrives, sizes[i], Min(sizes[i], Current()));
        ghost var was, behind := rest, records;
        var r := QtcpRead(sizes[i], HEADER_SIZE, arrives);
        DeliveredAll(arrives, Min(sizes[i], if was != [] then |was| else if behind == [] then 0 else |behind[0]|), |r|);
        PortionsStep(was, behind, sizes[i..], r, rest, records);
        JoinAppend(pieces, r);
        ConcatAssociates(Join(pieces), r, Remaining());
        ConcatAssociates(pieces, [r], Portions(rest, records, sizes[i + 1..]));
        assert sizes[i..][1..] == sizes[i + 1..];
        pieces := pieces + [r];
        i := i + 1;
      }
      NoPortions(rest, records);
    }
  }

  /** The answers to requests of these sizes: each the front of what is left of the current record, or of the next one
      when nothing is left. */
  function Portions(rest: seq<byte>, records: seq<seq<byte>>, sizes: seq<nat>): (r: seq<seq<byte>>)
    ensures |r| == |sizes|
    decreases |sizes|
  {
    if sizes == [] then []
    else
      var open := rest != [] || records == [];
      var current := if open then rest else records[0];
      var n := Min(sizes[0], |current|);
      [current[..n]] + Portions(current[n..], if open then records else records[1..], sizes[1..])
  }

  lemma NoPortions(rest: seq<byte>, records: seq<seq<byte>>)
    ensures Portions(rest, records, []) == []
  {
  }

  lemma PortionsStep(rest: seq<byte>, records: seq<seq<byte>>, sizes: seq<nat>, r: seq<byte>, left: seq<byte>,
        behind: seq<seq<byte>>)
    requires sizes != []
    requires rest != [] ==> behind == records && r + left == rest && |r| == Min(sizes[0], |rest|)
    requires rest == [] && records == [] ==> behind == [] && r == left == []
    requires rest == [] && records != [] ==>
               behind == records[1..] && r + left == records[0] && |r| == Min(sizes[0], |records[0]|)
    ensures Portions(rest, records, sizes) == [r] + Portions(left, behind, sizes[1..])
  {
    var current := if rest != [] || records == [] then rest else records[0];
    assert r + left == current;
    assert current[..|r|] == r && current[|r|..] == left;
  }

  /** With as many requests as there are bytes, and no empty record, all bytes are delivered. */
  lemma {:induction false} AllDelivered(rest: seq<byte>, records: seq<seq<byte>>, sizes: seq<nat>)
    requires forall i :: 0 <= i < |records| ==> records[i] != []
    requires |sizes| >= |rest| + |Join(records)| && forall i :: 0 <= i < |sizes| ==> sizes[i] > 0
    ensures Join(Portions(rest, records, sizes)) == rest + Join(records)
    decreases |sizes|
  {
    hide Join;
    JoinFirst(records);
    if sizes == [] {
    } else if rest == [] && records == [] {
      AllDelivered([], [], sizes[1..]);
      JoinFront([], Portions([], [], sizes[1..]));
    } else {
      var open := rest != [];
      var current, behind := if open then rest else records[0], if open then records else records[1..];
      var n := Min(sizes[0], |current|);
      AllDelivered(current[n..], behind, sizes[1..]);
      JoinFront(current[..n], Portions(current[n..], behind, sizes[1..]));
      ConcatAssociates(current[..n], current[n..], Join(behind));
      assert current[..n] + current[n..] == current;
    }
  }

  lemma JoinFirst(records: seq<seq<byte>>)
    ensures Join(records) == if records == [] then [] else records[0] + Join(records[1..])
  {
  }

  lemma JoinFront(piece: seq<byte>, pieces: seq<seq<byte>>)
    ensures Join([piece] + pieces) == piece + Join(pieces)
  {
    JoinConcat([piece], pieces);
    JoinOne(piece);
  }

  /** The bytes the first n reads bring. */
  function Brought(arrives: nat -> nat, n: nat): nat
  {
    if n == 0 then 0 else Brought(arrives, n - 1) + arrives(n - 1)
  }

  /** The reads bring want bytes before one of them brings nothing. */
  ghost predicate Arrive(arrives: nat -> nat, want: nat)
  {
    exists n: nat :: ArriveIn(arrives, want, n)
  }

  ghost predicate ArriveIn(arrives: nat -> nat, want: nat, n: nat)
  {
    Brought(arrives, n) >= want && forall i: nat :: i < n ==> arrives(i) > 0
  }

  lemma ConcatNothing<T>(s: seq<T>)
    ensures [] + s == s
  {
  }

  lemma NothingRead(input: seq<byte>)
    ensures LengthAt(input[..0] + ZeroBytes(HEADER_SIZE)) == 0
  {
  }

  lemma NothingAsked(arrives: nat -> nat)
    ensures Arrive(arrives, 0) && Delivered(arrives, 0, 0)
  {
    assert ArriveIn(arrives, 0, 0) && DeliveredIn(arrives, 0, 0, 0);
  }

  lemma LessArrives(arrives: nat -> nat, want: nat, less: nat)
    requires Arrive(arrives, want) && less <= want
    ensures Arrive(arrives, less)
  {
    var n :| ArriveIn(arrives, want, n);
    assert ArriveIn(arrives, less, n);
  }

  lemma {:induction false} BroughtGrows(arrives: nat -> nat, m: nat, n: nat)
    requires m <= n
    ensures Brought(arrives, m) <= Brought(arrives, n)
  {
    if m < n {
      BroughtGrows(arrives, m, n - 1);
    }
  }

  /** Of want bytes got are delivered before a read brings nothing. */
  ghost predicate Delivered(arrives: nat -> nat, want: nat, got: nat)
  {
    exists n: nat :: DeliveredIn(arrives, want, got, n)
  }

  ghost predicate DeliveredIn(arrives: nat -> nat, want: nat, got: nat, n: nat)
  {
    && got == Min(Brought(arrives, n), want)
    && (forall i: nat :: i < n ==> arrives(i) > 0)
    && (got == want || arrives(n) == 0)
  }

  lemma Stopped(arrives: nat -> nat, want: nat, calls: nat)
    requires forall i :: 0 <= i < calls ==> arrives(i) > 0
    requires Brought(arrives, calls) >= want || arrives(calls) == 0
    ensures Delivered(arrives, want, Min(Brought(arrives, calls), want))
  {
    assert DeliveredIn(arrives, want, Min(Brought(arrives, calls), want), calls);
  }

  lemma DeliveredAll(arrives: nat -> nat, want: nat, got: nat)
    requires Delivered(arrives, want, got)
    ensures got <= want
    ensures got == want <==> Arrive(arrives, want)
  {
    var calls :| DeliveredIn(arrives, want, got, calls);
    if got == want {
      assert ArriveIn(arrives, want, calls);
    } else if Arrive(arrives, want) {
      var n :| ArriveIn(arrives, want, n);
      if n <= calls {
        BroughtGrows(arrives, n, calls);
      }
    }
  }

  /** The header of the next record is read as it was written. */
  lemma NextRecord(records: seq<seq<byte>>)
    requires AreRecords(records)
    ensures records == [] ==> Stream(records) == [] && Join(records) == []
    ensures records != [] ==>
              && var s := Stream(records);
              && |s| >= HEADER_SIZE && U32At(s, 0) == VERSION && LengthAt(s) == |records[0]|
              && s[HEADER_SIZE..] == records[0] + Stream(records[1..])
              && Join(records) == records[0] + Join(records[1..])
  {
    if records != [] {
      hide U32At, Put32, Stream, Join;
      var n := |records[0]|;
      StreamFirst(records);
      HeaderRead(Put32(VERSION), Put32(n), records[0] + Stream(records[1..]), Stream(records));
      Put32Read(VERSION, Stream(records), 0);
      Put32Read(n, Stream(records), 4);
    }
  }

  lemma StreamFirst(records: seq<seq<byte>>)
    requires AreRecords(records) && records != []
    ensures Stream(records)
         == (Put32(VERSION) + Put32(|records[0]|)) + (records[0] + Stream(records[1..]))
    ensures Join(records) == records[0] + Join(records[1..])
  {
    hide Put32;
  }

  lemma HeaderRead(tag: seq<byte>, length: seq<byte>, more: seq<byte>, s: seq<byte>)
    requires |tag| == 4 && |length| == 4 && s == (tag + length) + more
    ensures |s| >= 8 && s[0..4] == tag && s[4..8] == length && s[8..] == more
  {
  }

  lemma TakeFront(input: seq<byte>, rest: seq<byte>, more: seq<byte>, n: nat)
    requires input == rest + more && n <= |rest|
    ensures input[..n] == rest[..n] && input[n..] == rest[n..] + more
  {
  }

  lemma HeaderMoves(data: seq<byte>)
    requires |data| == 9
    ensures U32At(data[1..], 0) == U32At(data, 1)
  {
  }

  /** A record of nine bytes, of which only the first arrives in time: the carried length is 0 although eight bytes are
      to come, so the next call takes these for a header. Unless they start with the tag they are gone, and the call
      after it counts on the length that stands in the last four. */
  method TimeoutInRecord(data: seq<byte>, more: nat)
    returns (first: seq<byte>, second: seq<byte>, left: seq<byte>, carried: int)
    requires |data| == 9 && U32At(data, 1) != VERSION
    ensures first == [data[0]] && second == [] && left == [] && carried == LengthAt(data[1..])
  {
    hide U32At;
    var reader := new Reader(Stream([data]), [data]);
    assert reader.Current() == 9;
    NextRecord([data]);
    NoRecords();
    assert data + [] == data;
    var arrives := i => if i == 0 then 1 else 0;
    first := reader.QtcpRead(9, HEADER_SIZE, arrives);
    ghost var calls: nat :| DeliveredIn(arrives, 9, |first|, calls);
    assert calls == 1 && Brought(arrives, 1) == 1;
    assert reader.length == 0 && reader.input == data[1..];
    HeaderMoves(data);
    second := reader.QtcpRead(more, HEADER_SIZE, _ => 1);
    assert data[1..][HEADER_SIZE..] == [];
    left, carried := reader.input, reader.length;
  }

  /** End to end: what the reader is given are portions of what came from USB, whatever the connection takes at a time,
      and a prefix of it; with requests enough it is all of it. The writing end hangs up on an empty read, and if there
      is none only when the connection takes nothing. */
  method Through(data: seq<seq<byte>>, takes: nat -> nat, sizes: seq<nat>, arrives: nat -> nat)
    returns (ok: bool, pieces: seq<seq<byte>>)
    requires AreRecords(data) && forall i :: 0 <= i < |sizes| ==> Arrive(arrives, sizes[i])
    ensures ok ==> forall i :: 0 <= i < |data| ==> data[i] != []
    ensures (forall i :: 0 <= i < |data| ==> data[i] != []) && (forall i :: takes(i) > 0) ==> ok
    ensures ok ==> pieces == Portions([], data, sizes) && Join(pieces) <= Join(data)
    ensures ok && |sizes| >= |Join(data)| && (forall i :: 0 <= i < |sizes| ==> sizes[i] > 0) ==>
              Join(pieces) == Join(data)
  {
    hide Stream, Portions;
    var wire := new Wire();
    ghost var whole;
    ok, whole := wire.WriteRecords(data, takes);
    pieces := [];
    if ok {
      var reader := new Reader(wire.sent, data);
      pieces := reader.ReadMany(sizes, arrives);
      if |sizes| >= |Join(data)| && forall i :: 0 <= i < |sizes| ==> sizes[i] > 0 {
        AllDelivered([], data, sizes);
      }
    }
  }
}
