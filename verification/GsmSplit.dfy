/** Splitting a 7-bit text over several short messages: the greedy segmentation and its optimality. */
module GsmSplit {
  import opened Alphabet
  import opened CTypes
  import opened GsmText
  import opened Sequences

  function TextSeptets(t: seq<byte>): nat
  {
    if t == [] then 0 else CharSeptets(t[0]) + TextSeptets(t[1..])
  }

  /** How many characters from the front fit in room septets. */
  function MaxFit(t: seq<byte>, room: nat): (n: nat)
    ensures n <= |t|
  {
    if t == [] || CharSeptets(t[0]) > room then 0 else 1 + MaxFit(t[1..], room - CharSeptets(t[0]))
  }

  /** With one septet of room and a two-septet character the loop of UDCSplit would not advance. */
  ghost predicate CanSplit(t: seq<byte>, room: nat)
  {
    room >= 2 || (room == 1 && forall c :: c in t ==> CharSeptets(c) == 1)
  }

  ghost function Segments(t: seq<byte>, room: nat): seq<seq<byte>>
    requires CanSplit(t, room)
    decreases |t|
  {
    if t == [] then []
    else
      var n := MaxFit(t, room);
      FirstCharFits(t, room);
      [t[..n]] + Segments(t[n..], room)
  }

  /** SeptetsLength. */
  method SeptetsLength(source: seq<byte>) returns (len: nat)
    ensures len == TextSeptets(source)
  {
    len := |source|;
    var i := 0;
    while i < |source|
      invariant 0 <= i <= |source|
      invariant len + TextSeptets(source[i..]) == TextSeptets(source) + |source| - i
    {
      assert source[i..][1..] == source[i + 1..];
      CharWidth(source[i]);
      var code := Code(source[i]);
      var value := MapGetValue(UCS2_TO_BIT7, code);
      if value > 0xFF {
        len := len + 1;
      }
      i := i + 1;
    }
  }

  /** SeptetsToChars: the most characters from index on that take no more than septets septets. */
  method SeptetsToChars(source: seq<byte>, index: nat, septets: nat) returns (step: nat)
    requires index <= |source| && septets >= 1
    ensures step == MaxFit(source[index..], septets)
  {
    var count := 0;
    var i := index;
    while i < |source|
      invariant index <= i <= |source| && 0 <= count < septets
      invariant MaxFit(source[index..], septets) == i - index + MaxFit(source[i..], septets - count)
    {
      assert source[i..][1..] == source[i + 1..];
      CharWidth(source[i]);
      var code := Code(source[i]);
      var value := MapGetValue(UCS2_TO_BIT7, code);
      if value > 0xFF {
        count := count + 1;
      }
      count := count + 1;
      if count >= septets {
        if count == septets {
          NothingFits(source[i + 1..]);
          i := i + 1;
        }
        break;
      }
      i := i + 1;
    }
    step := i - index;
  }

  lemma NothingFits(t: seq<byte>)
    ensures MaxFit(t, 0) == 0
  {
    if t != [] {
      CharWidth(t[0]);
    }
  }

  lemma FirstCharFits(t: seq<byte>, room: nat)
    requires CanSplit(t, room) && t != []
    ensures MaxFit(t, room) >= 1
  {
    CharWidth(t[0]);
    assert t[0] in t;
  }

  /** The loop of UDCSplit advances from every position exactly when CanSplit holds. */
  lemma AdvancesIffCanSplit(t: seq<byte>, room: nat)
    requires room >= 1
    ensures CanSplit(t, room) <==> forall i: nat :: i < |t| ==> MaxFit(t[i..], room) >= 1
  {
    if CanSplit(t, room) {
      forall i: nat | i < |t|
        ensures MaxFit(t[i..], room) >= 1
      {
        FirstCharFits(t[i..], room);
      }
    } else {
      var c :| c in t && CharSeptets(c) != 1;
      var i :| 0 <= i < |t| && t[i] == c;
      CharWidth(c);
      assert t[i..][0] == c;
      assert MaxFit(t[i..], room) == 0;
    }
  }

  /** MaxFit is the most that fits: those characters fit, and one more would not. */
  lemma {:induction false} MaxFitIsMost(t: seq<byte>, room: nat)
    ensures var n := MaxFit(t, room);
            TextSeptets(t[..n]) <= room && (n < |t| ==> TextSeptets(t[..n + 1]) > room)
  {
    var n := MaxFit(t, room);
    if t != [] && CharSeptets(t[0]) <= room {
      MaxFitIsMost(t[1..], room - CharSeptets(t[0]));
      assert t[..n][1..] == t[1..][..n - 1];
      if n < |t| {
        assert t[..n + 1][1..] == t[1..][..n];
      }
    } else if t != [] {
      assert t[..1][0] == t[0];
    }
  }

  lemma {:induction false} TextSeptetsConcat(a: seq<byte>, b: seq<byte>)
    ensures TextSeptets(a + b) == TextSeptets(a) + TextSeptets(b)
  {
    if a == [] {
      assert a + b == b;
    } else {
      assert (a + b)[1..] == a[1..] + b;
      TextSeptetsConcat(a[1..], b);
    }
  }

  /** A prefix that fits is no longer than MaxFit. */
  lemma {:induction false} FittingPrefix(t: seq<byte>, n: nat, room: nat)
    requires n <= |t| && TextSeptets(t[..n]) <= room
    ensures n <= MaxFit(t, room)
  {
    if n > 0 {
      assert t[..n][1..] == t[1..][..n - 1];
      FittingPrefix(t[1..], n - 1, room - CharSeptets(t[0]));
    }
  }

  /** The segments are the text, cut between characters. */
  lemma {:induction false} SegmentsConcat(t: seq<byte>, room: nat)
    requires CanSplit(t, room)
    ensures Join(Segments(t, room)) == t
    decreases |t|
  {
    if t != [] {
      var n := MaxFit(t, room);
      FirstCharFits(t, room);
      SegmentsConcat(t[n..], room);
      assert Segments(t, room)[1..] == Segments(t[n..], room);
    }
  }

  /** Every segment fits, and every segment but the last leaves at most one septet unused. */
  lemma {:induction false} SegmentsFit(t: seq<byte>, room: nat, k: nat)
    requires CanSplit(t, room) && k < |Segments(t, room)|
    ensures Segments(t, room)[k] != []
    ensures TextSeptets(Segments(t, room)[k]) <= room
    ensures k < |Segments(t, room)| - 1 ==> TextSeptets(Segments(t, room)[k]) >= room - 1
    decreases |t|
  {
    var n := MaxFit(t, room);
    FirstCharFits(t, room);
    if k > 0 {
      SegmentsFit(t[n..], room, k - 1);
    } else {
      MaxFitIsMost(t, room);
      if n < |t| {
        assert t[..n + 1] == t[..n] + [t[n]];
        TextSeptetsConcat(t[..n], [t[n]]);
        assert [t[n]][1..] == [];
        CharWidth(t[n]);
      }
    }
  }

  ghost predicate FittingParts(parts: seq<seq<byte>>, room: nat)
  {
    forall k :: 0 <= k < |parts| ==> TextSeptets(parts[k]) <= room
  }

  /** Dropping characters from the front never costs a segment. */
  lemma {:induction false} SuffixNeedsNoMore(t: seq<byte>, k: nat, room: nat)
    requires CanSplit(t, room) && k <= |t|
    ensures |Segments(t[k..], room)| <= |Segments(t, room)|
    decreases |t|
  {
    if t != [] && k < |t| {
      var n := MaxFit(t, room);
      FirstCharFits(t, room);
      if k >= n {
        assert t[k..] == t[n..][k - n..];
        SuffixNeedsNoMore(t[n..], k - n, room);
      } else {
        var u := t[k..];
        var m := MaxFit(u, room);
        FirstCharFits(u, room);
        MaxFitIsMost(t, room);
        assert t[..n] == t[..k] + u[..n - k];
        TextSeptetsConcat(t[..k], u[..n - k]);
        FittingPrefix(u, n - k, room);
        assert u[m..] == t[n..][k + m - n..];
        SuffixNeedsNoMore(t[n..], k + m - n, room);
      }
    }
  }

  /** No other way of cutting the text into pieces that fit uses fewer pieces. */
  lemma {:induction false} GreedyIsOptimal(t: seq<byte>, room: nat, parts: seq<seq<byte>>)
    requires CanSplit(t, room)
    requires Join(parts) == t && FittingParts(parts, room)
    ensures |Segments(t, room)| <= |parts|
    decreases |parts|
  {
    if parts != [] {
      var p := parts[0];
      assert t[..|p|] == p && t[|p|..] == Join(parts[1..]);
      GreedyIsOptimal(t[|p|..], room, parts[1..]);
      if t != [] {
        var n := MaxFit(t, room);
        FirstCharFits(t, room);
        FittingPrefix(t, |p|, room);
        assert t[n..] == t[|p|..][n - |p|..];
        SuffixNeedsNoMore(t[|p|..], n - |p|, room);
      }
    }
  }
}
