/**
 * Go's `strings.Split(s, sep)` for a one-character separator, over any sequence
 * (the address text is split on '.', the record text on the byte '|').
 */
module Text {

  /**
   * The pieces of `s` between occurrences of `sep`, in order. As in Go, the result is never
   * empty: splitting the empty text gives one empty piece, and a separator at either end gives
   * an empty piece there.
   */
  function Split<T(==)>(s: seq<T>, sep: T): (r: seq<seq<T>>)
    ensures |r| >= 1
  {
    SplitFrom(s, sep, [])
  }

  /** Scans `s`, with `piece` the part of the current piece already read. */
  function SplitFrom<T(==)>(s: seq<T>, sep: T, piece: seq<T>): (r: seq<seq<T>>)
    ensures |r| >= 1
    decreases |s|
  {
    if s == [] then [piece]
    else if s[0] == sep then [piece] + SplitFrom(s[1..], sep, [])
    else SplitFrom(s[1..], sep, piece + [s[0]])
  }

  /** The pieces glued back together with `sep` between neighbours (Go's `strings.Join`). */
  function Join<T>(pieces: seq<seq<T>>, sep: T): (r: seq<T>)
    requires |pieces| >= 1
    ensures |r| >= |pieces| - 1
    decreases |pieces|
  {
    if |pieces| == 1 then pieces[0] else pieces[0] + [sep] + Join(pieces[1..], sep)
  }

  /** The number of occurrences of `x` in `s`. */
  function Count<T(==)>(s: seq<T>, x: T): (n: nat)
    ensures n <= |s|
    decreases |s|
  {
    if s == [] then 0 else (if s[0] == x then 1 else 0) + Count(s[1..], x)
  }

  lemma {:induction false} SplitFromLength<T>(s: seq<T>, sep: T, piece: seq<T>)
    ensures |SplitFrom(s, sep, piece)| == Count(s, sep) + 1
    decreases |s|
  {
    if s != [] {
      SplitFromLength(s[1..], sep, if s[0] == sep then [] else piece + [s[0]]);
    }
  }

  /** There is one more piece than there are separators. */
  lemma SplitLength<T>(s: seq<T>, sep: T)
    ensures |Split(s, sep)| == Count(s, sep) + 1
  {
    SplitFromLength(s, sep, []);
  }

  lemma {:induction false} SplitFromPiecesFree<T>(s: seq<T>, sep: T, piece: seq<T>)
    requires sep !in piece
    ensures forall i :: 0 <= i < |SplitFrom(s, sep, piece)| ==> sep !in SplitFrom(s, sep, piece)[i]
    decreases |s|
  {
    if s != [] {
      SplitFromPiecesFree(s[1..], sep, if s[0] == sep then [] else piece + [s[0]]);
    }
  }

  /** No piece contains the separator. */
  lemma SplitPiecesFree<T>(s: seq<T>, sep: T)
    ensures forall i :: 0 <= i < |Split(s, sep)| ==> sep !in Split(s, sep)[i]
  {
    SplitFromPiecesFree(s, sep, []);
  }

  lemma {:induction false} JoinSplitFrom<T>(s: seq<T>, sep: T, piece: seq<T>)
    ensures Join(SplitFrom(s, sep, piece), sep) == piece + s
    decreases |s|
  {
    if s == [] {
      assert piece + s == piece;
    } else if s[0] == sep {
      JoinSplitFrom(s[1..], sep, []);
      var r := SplitFrom(s, sep, piece);
      assert r[1..] == SplitFrom(s[1..], sep, []);
      assert piece + s == piece + [sep] + ([] + s[1..]);
    } else {
      JoinSplitFrom(s[1..], sep, piece + [s[0]]);
      assert piece + s == piece + [s[0]] + s[1..];
    }
  }

  /** Joining the pieces with the separator gives back the text. */
  lemma JoinSplit<T>(s: seq<T>, sep: T)
    ensures Join(Split(s, sep), sep) == s
  {
    JoinSplitFrom(s, sep, []);
    assert [] + s == s;
  }

  lemma {:induction false} SplitFromAppend<T>(s: seq<T>, t: seq<T>, sep: T, piece: seq<T>)
    ensures SplitFrom(s + [sep] + t, sep, piece) == SplitFrom(s, sep, piece) + SplitFrom(t, sep, [])
    decreases |s|
  {
    var st := s + [sep] + t;
    if s == [] {
      assert st[0] == sep && st[1..] == t;
    } else {
      assert st[0] == s[0] && st[1..] == s[1..] + [sep] + t;
      var next := if s[0] == sep then [] else piece + [s[0]];
      SplitFromAppend(s[1..], t, sep, next);
      if s[0] == sep {
        assert [piece] + (SplitFrom(s[1..], sep, []) + SplitFrom(t, sep, []))
            == [piece] + SplitFrom(s[1..], sep, []) + SplitFrom(t, sep, []);
      }
    }
  }

  /** Splitting two texts glued by a separator splits each of them. */
  lemma SplitAppend<T>(s: seq<T>, t: seq<T>, sep: T)
    ensures Split(s + [sep] + t, sep) == Split(s, sep) + Split(t, sep)
  {
    SplitFromAppend(s, t, sep, []);
  }

  lemma {:induction false} SplitFromWithoutSeparator<T>(s: seq<T>, sep: T, piece: seq<T>)
    requires sep !in s
    ensures SplitFrom(s, sep, piece) == [piece + s]
    decreases |s|
  {
    if s == [] {
      assert piece + s == piece;
    } else {
      SplitFromWithoutSeparator(s[1..], sep, piece + [s[0]]);
      assert piece + [s[0]] + s[1..] == piece + s;
    }
  }

  /** A text without the separator is a single piece. */
  lemma SplitWithoutSeparator<T>(s: seq<T>, sep: T)
    requires sep !in s
    ensures Split(s, sep) == [s]
  {
    SplitFromWithoutSeparator(s, sep, []);
    assert [] + s == s;
  }

  /** Splitting pieces joined by the separator gives back the pieces, when none contains it. */
  lemma {:induction false} SplitJoin<T>(pieces: seq<seq<T>>, sep: T)
    requires |pieces| >= 1
    requires forall i :: 0 <= i < |pieces| ==> sep !in pieces[i]
    ensures Split(Join(pieces, sep), sep) == pieces
    decreases |pieces|
  {
    SplitWithoutSeparator(pieces[0], sep);
    if |pieces| > 1 {
      SplitJoin(pieces[1..], sep);
      SplitAppend(pieces[0], Join(pieces[1..], sep), sep);
      assert [pieces[0]] + pieces[1..] == pieces;
    }
  }
}
