/**
 * Go strings as byte sequences, and the three operations of Go's `strings`
 * package that the serial bridge uses: `Split` with a one-byte separator,
 * `Contains` and `HasSuffix`. `Join` is the inverse of `Split` and is used to
 * state what `Split` means.
 */
module GoStrings {

  /** A Go `byte`. A Go `string` is an immutable sequence of them. */
  newtype byte = x: int | 0 <= x < 256

  type Bytes = seq<byte>

  /** The frame delimiter `|` and the field separator `:` (ASCII). */
  const Pipe: byte := 0x7C
  const Colon: byte := 0x3A

  /** `strings.HasSuffix(s, suffix)`. */
  predicate HasSuffix(s: Bytes, suffix: Bytes)
    ensures HasSuffix(s, suffix) <==> exists p: Bytes :: s == p + suffix
  {
    assert |suffix| <= |s| && s[|s| - |suffix|..] == suffix ==> s == s[..|s| - |suffix|] + suffix;
    |suffix| <= |s| && s[|s| - |suffix|..] == suffix
  }

  /** `strings.Contains(s, sub)`: `sub` occurs at some offset of `s`. The empty
      string occurs in every string. */
  predicate Contains(s: Bytes, sub: Bytes)
    ensures sub == [] ==> Contains(s, sub)
    ensures Contains(s, sub) ==> |sub| <= |s|
    ensures sub <= s ==> Contains(s, sub)
  {
    assert s[0..] == s;
    exists i :: 0 <= i <= |s| && sub <= s[i..]
  }

  /**
   * `strings.Split(s, string(sep))` for a one-byte separator: the maximal
   * separator-free pieces of `s`, in order. There is always at least one
   * piece: `Split("", sep)` is `[""]`, and a trailing separator yields a
   * trailing empty piece.
   */
  function Split(s: Bytes, sep: byte): (r: seq<Bytes>)
    ensures |r| >= 1
    decreases |s|
  {
    if s == [] then [[]]
    else
      var rest := Split(s[1..], sep);
      if s[0] == sep then [[]] + rest
      else [[s[0]] + rest[0]] + rest[1..]
  }

  /** `strings.Join(segs, string(sep))`: the pieces in order, with the
      separator between each two neighbours. */
  function Join(segs: seq<Bytes>, sep: byte): (r: Bytes)
    ensures |segs| >= 1 ==> segs[0] <= r
    ensures |segs| >= 2 ==> segs[0] + [sep] <= r
    decreases |segs|
  {
    if segs == [] then []
    else if |segs| == 1 then segs[0]
    else segs[0] + [sep] + Join(segs[1..], sep)
  }

  /** The bytes of `s` before its first `sep` (all of `s` if there is none). */
  function TakeUntil(s: Bytes, sep: byte): Bytes
    decreases |s|
  {
    if s == [] || s[0] == sep then [] else [s[0]] + TakeUntil(s[1..], sep)
  }

  /** The bytes of `s` after its first `sep` (empty if there is none). */
  function DropThrough(s: Bytes, sep: byte): Bytes
    decreases |s|
  {
    if s == [] then [] else if s[0] == sep then s[1..] else DropThrough(s[1..], sep)
  }

  /** Joining the pieces with the separator gives back the original string. */
  lemma {:induction false} SplitJoin(s: Bytes, sep: byte)
    ensures Join(Split(s, sep), sep) == s
    decreases |s|
  {
    if s != [] {
      var rest := Split(s[1..], sep);
      SplitJoin(s[1..], sep);
      if s[0] == sep {
        assert Split(s, sep) == [[]] + rest;
        assert ([[]] + rest)[1..] == rest;
      } else {
        var r := Split(s, sep);
        assert r == [[s[0]] + rest[0]] + rest[1..];
        if |rest| == 1 {
          assert Join(rest, sep) == rest[0];
        } else {
          assert Join(rest, sep) == rest[0] + [sep] + Join(rest[1..], sep);
          assert r[1..] == rest[1..];
        }
      }
    }
  }

  /** No piece contains the separator. */
  lemma {:induction false} SplitPiecesAreSeparatorFree(s: Bytes, sep: byte)
    ensures forall k :: 0 <= k < |Split(s, sep)| ==> sep !in Split(s, sep)[k]
    decreases |s|
  {
    if s != [] {
      SplitPiecesAreSeparatorFree(s[1..], sep);
    }
  }

  /** There is one piece more than there are separators in `s`. */
  lemma {:induction false} SplitLength(s: Bytes, sep: byte)
    ensures |Split(s, sep)| == multiset(s)[sep] + 1
    decreases |s|
  {
    if s != [] {
      SplitLength(s[1..], sep);
      assert s == [s[0]] + s[1..];
      assert multiset(s) == multiset{s[0]} + multiset(s[1..]);
    }
  }

  /** A separator in the middle splits the string into the pieces of each side. */
  lemma {:induction false} SplitAround(u: Bytes, sep: byte, w: Bytes)
    ensures Split(u + [sep] + w, sep) == Split(u, sep) + Split(w, sep)
    decreases |u|
  {
    if u == [] {
      assert u + [sep] + w == [sep] + w;
      SplitCons(sep, w, sep);
    } else {
      var c, u' := u[0], u[1..];
      var tail := u' + [sep] + w;
      assert u + [sep] + w == [c] + tail;
      assert u == [c] + u';
      SplitAround(u', sep, w);
      SplitCons(c, tail, sep);
      SplitCons(c, u', sep);
      ConsPieceAppend(c, Split(u', sep), Split(w, sep));
    }
  }

  /** Extending the first piece of `L` commutes with appending `R`. */
  lemma ConsPieceAppend(c: byte, L: seq<Bytes>, R: seq<Bytes>)
    requires |L| >= 1
    ensures [[c] + (L + R)[0]] + (L + R)[1..] == ([[c] + L[0]] + L[1..]) + R
    ensures [[]] + (L + R) == ([[]] + L) + R
  {
    assert (L + R)[0] == L[0];
    assert (L + R)[1..] == L[1..] + R;
  }

  /** How `Split` treats the first byte. */
  lemma SplitCons(c: byte, rest: Bytes, sep: byte)
    ensures Split([c] + rest, sep) ==
      if c == sep then [[]] + Split(rest, sep)
      else [[c] + Split(rest, sep)[0]] + Split(rest, sep)[1..]
  {
    assert ([c] + rest)[1..] == rest;
  }

  /** A string that ends in the separator splits into the pieces of the
      string without it, followed by one empty piece. */
  lemma SplitTerminated(s: Bytes, sep: byte)
    requires HasSuffix(s, [sep])
    ensures Split(s, sep) == Split(s[..|s| - 1], sep) + [[]]
  {
    var u, none: Bytes := s[..|s| - 1], [];
    assert s[|s| - 1..] == [sep];
    assert s[|s| - 1] == sep;
    assert s == u + [sep] + none;
    SplitAround(u, sep, none);
    assert Split(none, sep) == [[]];
  }

  /** Splitting the join of separator-free pieces gives back the pieces. */
  lemma {:induction false} JoinSplit(segs: seq<Bytes>, sep: byte)
    requires |segs| >= 1
    requires forall k :: 0 <= k < |segs| ==> sep !in segs[k]
    ensures Split(Join(segs, sep), sep) == segs
    decreases |segs|
  {
    if |segs| == 1 {
      SplitWithoutSeparator(segs[0], sep);
    } else {
      JoinSplit(segs[1..], sep);
      SplitWithoutSeparator(segs[0], sep);
      SplitAround(segs[0], sep, Join(segs[1..], sep));
      assert segs == [segs[0]] + segs[1..];
    }
  }

  /** A string without the separator is a single piece. */
  lemma {:induction false} SplitWithoutSeparator(s: Bytes, sep: byte)
    requires sep !in s
    ensures Split(s, sep) == [s]
    decreases |s|
  {
    if s != [] {
      assert s[0] in s;
      assert forall k :: 0 <= k < |s[1..]| ==> s[1..][k] == s[k + 1];
      SplitWithoutSeparator(s[1..], sep);
      assert [s[0]] + s[1..] == s;
    }
  }

  /** When `s` contains the separator, the second piece is what lies between
      the first separator and the next one (or the end). */
  lemma {:induction false} SplitSecondPiece(s: Bytes, sep: byte)
    requires sep in s
    ensures |Split(s, sep)| >= 2
    ensures Split(s, sep)[1] == TakeUntil(DropThrough(s, sep), sep)
    decreases |s|
  {
    if s[0] == sep {
      FirstPieceIsTakeUntil(s[1..], sep);
    } else {
      assert s == [s[0]] + s[1..];
      assert sep in s[1..];
      SplitSecondPiece(s[1..], sep);
    }
  }

  /** The first piece is everything before the first separator. */
  lemma {:induction false} FirstPieceIsTakeUntil(s: Bytes, sep: byte)
    ensures Split(s, sep)[0] == TakeUntil(s, sep)
    decreases |s|
  {
    if s != [] && s[0] != sep {
      FirstPieceIsTakeUntil(s[1..], sep);
    }
  }
}
