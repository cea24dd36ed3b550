/** Concatenation of pieces. */
module Sequences {

  /** The pieces, one behind the other. */
  function Join<T>(pieces: seq<seq<T>>): seq<T>
  {
    if pieces == [] then [] else pieces[0] + Join(pieces[1..])
  }

  lemma SliceOfTake<T>(s: seq<T>, m: nat, a: nat, b: nat)
    requires a <= b <= m <= |s|
    ensures s[..m][a..b] == s[a..b]
  {
  }

  lemma FrontOfTail<T>(s: seq<T>, m: nat, a: nat)
    requires a <= m <= |s|
    ensures s[..m][a..] == s[a..][..m - a]
  {
  }

  lemma PartsOfThree<T>(x: seq<T>, y: seq<T>, z: seq<T>)
    ensures var all, n := x + y + z, |x| + |y|;
            all[..|x|] == x && all[|x|..n] == y && all[n..] == z
  {
  }

  lemma ConcatAssociates<T>(a: seq<T>, b: seq<T>, c: seq<T>)
    ensures a + (b + c) == (a + b) + c
  {
  }

  lemma {:induction false} JoinConcat<T>(a: seq<seq<T>>, b: seq<seq<T>>)
    ensures Join(a + b) == Join(a) + Join(b)
  {
    if a == [] {
      assert a + b == b;
    } else {
      assert (a + b)[0] == a[0] && (a + b)[1..] == a[1..] + b;
      JoinConcat(a[1..], b);
    }
  }

  lemma JoinOne<T>(piece: seq<T>)
    ensures Join([piece]) == piece
  {
    assert Join([piece]) == piece + Join([]);
  }

  lemma JoinAppend<T>(pieces: seq<seq<T>>, last: seq<T>)
    ensures Join(pieces + [last]) == Join(pieces) + last
  {
    JoinConcat(pieces, [last]);
    JoinOne(last);
  }
}
