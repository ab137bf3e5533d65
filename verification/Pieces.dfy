/** Splitting a sequence at a separator into its non-empty pieces, and joining pieces again. */
module Pieces {

  /** The position of the first separator, or the length. */
  function NextSep<T(==)>(s: seq<T>, sep: T): (k: nat)
    ensures k <= |s| && sep !in s[..k]
    ensures k < |s| ==> s[k] == sep
  {
    if s == [] || s[0] == sep then 0
    else
      var k := NextSep(s[1..], sep) + 1;
      assert s[..k] == [s[0]] + s[1..][..k - 1];
      k
  }

  /** The pieces between separators, empty ones left out. */
  function Split<T(==)>(s: seq<T>, sep: T): (ps: seq<seq<T>>)
    ensures forall p | p in ps :: IsPiece(p, sep)
    decreases |s|
  {
    if s == [] then []
    else if s[0] == sep then Split(s[1..], sep)
    else
      var k := NextSep(s, sep);
      [s[..k]] + Split(s[k..], sep)
  }

  predicate IsPiece<T(==)>(p: seq<T>, sep: T) {
    p != [] && sep !in p
  }

  function Join<T>(ps: seq<seq<T>>, sep: T): seq<T> {
    if ps == [] then []
    else if |ps| == 1 then ps[0]
    else ps[0] + [sep] + Join(ps[1..], sep)
  }

  lemma {:induction false} NextSepAt<T>(p: seq<T>, rest: seq<T>, sep: T)
    requires sep !in p && (rest == [] || rest[0] == sep)
    ensures NextSep(p + rest, sep) == |p|
  {
    if p == [] {
      assert p + rest == rest;
    } else {
      assert (p + rest)[1..] == p[1..] + rest && p[0] in p;
      NextSepAt(p[1..], rest, sep);
    }
  }

  /** A piece in front of a separator or of the end is the first piece. */
  lemma SplitFirst<T>(p: seq<T>, rest: seq<T>, sep: T)
    requires IsPiece(p, sep) && (rest == [] || rest[0] == sep)
    ensures Split(p + rest, sep) == [p] + Split(rest, sep)
  {
    NextSepAt(p, rest, sep);
    assert (p + rest)[0] == p[0];
    assert (p + rest)[..|p|] == p && (p + rest)[|p|..] == rest;
  }

  /** Splitting undoes joining. */
  lemma {:induction false} SplitJoin<T>(ps: seq<seq<T>>, sep: T)
    requires forall p | p in ps :: IsPiece(p, sep)
    ensures Split(Join(ps, sep), sep) == ps
  {
    if ps != [] {
      assert ps[0] in ps;
      if |ps| == 1 {
        SplitFirst(ps[0], [], sep);
        assert ps[0] + [] == ps[0];
      } else {
        var rest := [sep] + Join(ps[1..], sep);
        SplitFirst(ps[0], rest, sep);
        assert Join(ps, sep) == ps[0] + rest && rest[1..] == Join(ps[1..], sep);
        SplitJoin(ps[1..], sep);
      }
    }
  }

  /** A separator splits the pieces on its two sides apart. */
  lemma {:induction false} SplitConcat<T>(a: seq<T>, b: seq<T>, sep: T)
    ensures Split(a + [sep] + b, sep) == Split(a, sep) + Split(b, sep)
    decreases |a|
  {
    var s := a + [sep] + b;
    if a == [] {
      assert s[1..] == b;
    } else if a[0] == sep {
      assert s[1..] == a[1..] + [sep] + b;
      SplitConcat(a[1..], b, sep);
    } else {
      var k := NextSep(a, sep);
      var rest := a[k..] + [sep] + b;
      assert s == a[..k] + rest && a == a[..k] + a[k..];
      SplitFirst(a[..k], rest, sep);
      SplitFirst(a[..k], a[k..], sep);
      SplitConcat(a[k..], b, sep);
    }
  }

  /** A join of pieces starts with its first piece. */
  lemma JoinStart<T>(ps: seq<seq<T>>, sep: T)
    requires ps != [] && IsPiece(ps[0], sep)
    ensures Join(ps, sep) != [] && Join(ps, sep)[0] == ps[0][0] != sep
  {
  }

  /** Joining more pieces puts a separator and their join behind. */
  lemma {:induction false} JoinConcat<T>(a: seq<seq<T>>, b: seq<seq<T>>, sep: T)
    requires a != [] && b != []
    ensures Join(a + b, sep) == Join(a, sep) + [sep] + Join(b, sep)
  {
    if |a| == 1 {
      assert (a + b)[1..] == b;
    } else {
      assert (a + b)[1..] == a[1..] + b;
      JoinConcat(a[1..], b, sep);
    }
  }

  /** The last piece can be split off at its separator. */
  lemma {:induction false} JoinLast<T>(ps: seq<seq<T>>, sep: T)
    requires |ps| > 1
    ensures Join(ps, sep) == Join(ps[..|ps| - 1], sep) + [sep] + ps[|ps| - 1]
  {
    var n := |ps| - 1;
    if |ps| == 2 {
      assert ps[1..] == [ps[1]] && ps[..1] == [ps[0]];
    } else {
      JoinLast(ps[1..], sep);
      assert ps[1..][..n - 1] == ps[..n][1..];
    }
  }
}
