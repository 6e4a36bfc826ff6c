/**
 * Java's `String.split(regex)` with the default limit 0, for a separator that
 * matches exactly one literal character (`"\\?"`, `"&"` and `"="` are the
 * only separators the paging code uses).
 *
 * Java finds every piece between separators (`Pieces` below), then, under
 * limit 0, drops every trailing empty piece; a string with no separator at
 * all comes back whole, as a one-element array. A separator at position 0 is
 * a positive-width match, so the leading empty piece is kept.
 */
module JavaStrings {

  /** Position of the first `c` in `s`. */
  function IndexOf(s: string, c: char): (i: nat)
    requires c in s
    ensures i < |s| && s[i] == c
    ensures c !in s[..i]
  {
    if s[0] == c then 0
    else
      assert s == [s[0]] + s[1..];
      1 + IndexOf(s[1..], c)
  }

  /** The text of `s` after its first `c`. */
  function After(s: string, c: char): (t: string)
    requires c in s
    ensures |t| < |s|
  {
    s[IndexOf(s, c) + 1..]
  }

  /** The text of `s` before its first `c`, or all of `s` when there is no `c`. */
  function UpTo(s: string, c: char): (r: string)
    ensures c !in r
    ensures r <= s
    ensures |r| < |s| <==> c in s
  {
    if c in s then s[..IndexOf(s, c)] else s
  }

  /** Every piece between occurrences of `c`, empty pieces included. */
  function Pieces(s: string, c: char): (r: seq<string>)
    ensures |r| >= 1
    decreases |s|
  {
    if c in s then [s[..IndexOf(s, c)]] + Pieces(After(s, c), c) else [s]
  }

  /** No piece contains the separator. */
  lemma {:induction false} PiecesFree(s: string, c: char)
    ensures forall k :: 0 <= k < |Pieces(s, c)| ==> c !in Pieces(s, c)[k]
    decreases |s|
  {
    if c in s {
      PiecesFree(After(s, c), c);
      assert Pieces(s, c)[1..] == Pieces(After(s, c), c);
    }
  }

  /** The pieces glued back together with `c` between neighbours. */
  function Join(pieces: seq<string>, c: char): (s: string)
    requires |pieces| >= 1
  {
    if |pieces| == 1 then pieces[0] else pieces[0] + [c] + Join(pieces[1..], c)
  }

  /** Splitting and joining are inverse: nothing of `s` is lost by `Pieces`. */
  lemma {:induction false} JoinPieces(s: string, c: char)
    ensures Join(Pieces(s, c), c) == s
    decreases |s|
  {
    if c in s {
      var i, t := IndexOf(s, c), After(s, c);
      var pieces := Pieces(s, c);
      assert pieces == [s[..i]] + Pieces(t, c);
      assert pieces[1..] == Pieces(t, c);
      JoinPieces(t, c);
      assert Join(pieces, c) == s[..i] + [c] + t;
      assert s == s[..i] + [c] + t;
    }
  }

  /** The first `c` of `p + [c] + rest` is the one after `p`, when `p` has none. */
  lemma {:induction false} IndexOfAfterPrefix(p: string, rest: string, c: char)
    requires c !in p
    ensures c in p + [c] + rest
    ensures IndexOf(p + [c] + rest, c) == |p|
    ensures After(p + [c] + rest, c) == rest
    ensures UpTo(p + [c] + rest, c) == p
  {
    var s := p + [c] + rest;
    assert s[|p|] == c;
    if |p| > 0 {
      assert s[1..] == p[1..] + [c] + rest;
      IndexOfAfterPrefix(p[1..], rest, c);
    }
    assert s[..|p|] == p;
  }

  /** The text before the first `c` of `p + rest`, when `p` has none and `rest` is empty or starts with `c`. */
  lemma UpToPrefix(p: string, rest: string, c: char)
    requires c !in p && (rest == [] || rest[0] == c)
    ensures UpTo(p + rest, c) == p
  {
    if rest == [] {
      assert p + rest == p;
    } else {
      assert p + rest == p + [c] + rest[1..];
      IndexOfAfterPrefix(p, rest[1..], c);
    }
  }

  /** A separator-free head followed by a separator is the first piece. */
  lemma PiecesAfterPrefix(p: string, rest: string, c: char)
    requires c !in p
    ensures Pieces(p + [c] + rest, c) == [p] + Pieces(rest, c)
  {
    IndexOfAfterPrefix(p, rest, c);
  }

  /** The other direction: pieces free of `c` are recovered from their join. */
  lemma {:induction false} PiecesJoin(pieces: seq<string>, c: char)
    requires |pieces| >= 1
    requires forall k :: 0 <= k < |pieces| ==> c !in pieces[k]
    ensures Pieces(Join(pieces, c), c) == pieces
  {
    if |pieces| > 1 {
      var p := pieces[0];
      var rest := Join(pieces[1..], c);
      assert Join(pieces, c) == p + [c] + rest;
      IndexOfAfterPrefix(p, rest, c);
      PiecesJoin(pieces[1..], c);
      assert pieces == [p] + pieces[1..];
    }
  }

  /** The first piece is the text before the first separator. */
  lemma PiecesHead(s: string, c: char)
    ensures Pieces(s, c)[0] == UpTo(s, c)
  {
  }

  /** What limit 0 does: remove every trailing empty string, and nothing else. */
  function DropTrailingEmpty(r: seq<string>): (t: seq<string>)
    ensures |t| <= |r|
  {
    if |r| == 0 then []
    else if r[|r| - 1] == "" then DropTrailingEmpty(r[..|r| - 1])
    else r
  }

  /** A prefix of `r`, not ending in an empty string, after which `r` holds only empty strings. */
  lemma {:induction false} DropTrailingEmptyShape(r: seq<string>)
    ensures DropTrailingEmpty(r) <= r
    ensures |DropTrailingEmpty(r)| == 0 || DropTrailingEmpty(r)[|DropTrailingEmpty(r)| - 1] != ""
    ensures forall k :: |DropTrailingEmpty(r)| <= k < |r| ==> r[k] == ""
  {
    if |r| > 0 && r[|r| - 1] == "" {
      DropTrailingEmptyShape(r[..|r| - 1]);
    }
  }

  /** Java's `s.split(c)`, limit 0. */
  function Split(s: string, c: char): (r: seq<string>)
    ensures c in s ==> r <= Pieces(s, c)
  {
    if c !in s then [s]
    else
      DropTrailingEmptyShape(Pieces(s, c));
      DropTrailingEmpty(Pieces(s, c))
  }

  /**
   * What Java documents of the split: no separator gives the whole string;
   * otherwise the pieces up to the last non-empty one, so that the result
   * never ends in an empty string and only empty pieces are lost.
   */
  lemma SplitShape(s: string, c: char)
    ensures forall k :: 0 <= k < |Split(s, c)| ==> c !in Split(s, c)[k]
    ensures c !in s ==> Split(s, c) == [s]
    ensures c in s ==> Split(s, c) <= Pieces(s, c)
    ensures c in s ==> |Split(s, c)| == 0 || Split(s, c)[|Split(s, c)| - 1] != ""
    ensures c in s ==> forall k :: |Split(s, c)| <= k < |Pieces(s, c)| ==> Pieces(s, c)[k] == ""
  {
    PiecesFree(s, c);
    DropTrailingEmptyShape(Pieces(s, c));
    if c in s {
      var r := Split(s, c);
      forall k | 0 <= k < |r| ensures c !in r[k] {
        assert r[k] == Pieces(s, c)[k];
      }
    }
  }

  predicate AllEmpty(pieces: seq<string>)
  {
    forall k :: 0 <= k < |pieces| ==> pieces[k] == ""
  }

  predicate OnlySeparators(s: string, c: char)
  {
    forall j :: 0 <= j < |s| ==> s[j] == c
  }

  lemma AllEmptyCons(x: string, pieces: seq<string>)
    ensures AllEmpty([x] + pieces) <==> x == "" && AllEmpty(pieces)
  {
    var all := [x] + pieces;
    if x == "" && AllEmpty(pieces) {
      forall k | 0 <= k < |all| ensures all[k] == "" {
        if k > 0 { assert all[k] == pieces[k - 1]; }
      }
    }
    if AllEmpty(all) {
      assert all[0] == x;
      forall k | 0 <= k < |pieces| ensures pieces[k] == "" {
        assert pieces[k] == all[k + 1];
      }
    }
  }

  /** A string is all separators iff both sides of one of its separators are. */
  lemma OnlySeparatorsAround(s: string, c: char, i: nat)
    requires i < |s| && s[i] == c
    ensures OnlySeparators(s, c) <==> OnlySeparators(s[..i], c) && OnlySeparators(s[i + 1..], c)
  {
    var left, right := s[..i], s[i + 1..];
    if OnlySeparators(left, c) && OnlySeparators(right, c) {
      forall j | 0 <= j < |s| ensures s[j] == c {
        if j < i { assert s[j] == left[j]; }
        else if j > i { assert s[j] == right[j - i - 1]; }
      }
    }
    if OnlySeparators(s, c) {
      forall j | 0 <= j < |left| ensures left[j] == c {
        assert left[j] == s[j];
      }
      forall j | 0 <= j < |right| ensures right[j] == c {
        assert right[j] == s[i + 1 + j];
      }
    }
  }

  /** All pieces are empty exactly when `s` is nothing but separators. */
  lemma {:induction false} PiecesAllEmpty(s: string, c: char)
    ensures AllEmpty(Pieces(s, c)) <==> OnlySeparators(s, c)
    decreases |s|
  {
    if c !in s {
      assert Pieces(s, c) == [s];
      if |s| > 0 {
        assert s[0] in s;
        assert Pieces(s, c)[0] != "";
      }
    } else {
      var i := IndexOf(s, c);
      var head := s[..i];
      var t := After(s, c);
      PiecesAllEmpty(t, c);
      assert Pieces(s, c) == [head] + Pieces(t, c);
      AllEmptyCons(head, Pieces(t, c));
      OnlySeparatorsAround(s, c, i);
      if i > 0 {
        assert head[0] in head;
      }
    }
  }

  /** Some piece after the first is non-empty iff a non-`c` follows the first `c`. */
  lemma LaterPieceNonEmpty(s: string, c: char)
    requires c in s
    ensures AllEmpty(Pieces(s, c)[1..]) <==> OnlySeparators(After(s, c), c)
  {
    assert Pieces(s, c)[1..] == Pieces(After(s, c), c);
    PiecesAllEmpty(After(s, c), c);
  }

  /** Java keeps a second string exactly when some piece after the first is non-empty. */
  lemma DropKeepsSecond(pieces: seq<string>)
    requires |pieces| >= 1
    ensures |DropTrailingEmpty(pieces)| >= 2 <==> !AllEmpty(pieces[1..])
  {
    var r := DropTrailingEmpty(pieces);
    var rest := pieces[1..];
    DropTrailingEmptyShape(pieces);
    if |r| >= 2 {
      assert rest[|r| - 2] == pieces[|r| - 1] == r[|r| - 1];
    }
    if !AllEmpty(rest) {
      var k :| 0 <= k < |rest| && rest[k] != "";
      assert pieces[k + 1] == rest[k];
    }
  }

  /**
   * The split yields at least two strings exactly when `s` has a `c` and
   * some character other than `c` after its first `c`. This is when
   * `s.split(c)[1]` does not throw.
   */
  lemma SplitHasSecond(s: string, c: char)
    ensures |Split(s, c)| >= 2
        <==> (c in s && exists j :: IndexOf(s, c) < j < |s| && s[j] != c)
  {
    if c in s {
      var i := IndexOf(s, c);
      var t := After(s, c);
      DropKeepsSecond(Pieces(s, c));
      LaterPieceNonEmpty(s, c);
      if !OnlySeparators(t, c) {
        var j :| 0 <= j < |t| && t[j] != c;
        assert s[i + 1 + j] == t[j];
      }
      if exists j :: i < j < |s| && s[j] != c {
        var j :| i < j < |s| && s[j] != c;
        assert t[j - i - 1] == s[j];
      }
    }
  }

  /**
   * When the split yields two strings, the first is the text before the
   * first `c` and the second the text between the first `c` and the next.
   */
  lemma SplitFirstTwo(s: string, c: char)
    requires |Split(s, c)| >= 2
    ensures Split(s, c)[0] == UpTo(s, c)
    ensures c in s && Split(s, c)[1] == UpTo(After(s, c), c)
  {
    assert c in s;
    SplitShape(s, c);
    PiecesHead(s, c);
    PiecesHead(After(s, c), c);
  }

  /** The pieces around two separators in a row: those of `a`, an empty piece, then those of `b`. */
  lemma DoubledPieces(a: string, b: string, c: char)
    ensures Pieces(a + [c, c] + b, c) == Pieces(a, c) + [""] + Pieces(b, c)
  {
    assert a + [c, c] + b == a + [c] + ([c] + b);
    PiecesConcat(a, [c] + b, c);
    LeadingSeparator(b, c);
    assert Pieces(a, c) + ([""] + Pieces(b, c)) == Pieces(a, c) + [""] + Pieces(b, c);
  }

  /**
   * A separator at position 0 gives a leading empty piece, which Java keeps
   * unless nothing but separators follows (then every piece is trailing).
   */
  lemma LeadingSeparator(b: string, c: char)
    ensures Pieces([c] + b, c) == [""] + Pieces(b, c)
    ensures !OnlySeparators(b, c) ==> |Split([c] + b, c)| >= 1 && Split([c] + b, c)[0] == ""
  {
    var e: string := [];
    assert e + [c] + b == [c] + b;
    PiecesAfterPrefix(e, b, c);
    if !OnlySeparators(b, c) {
      assert ([c] + b)[0] == c;
      PiecesAllEmpty(b, c);
      DropKeepsFront([""], Pieces(b, c));
    }
  }

  /** A separator splits the pieces in two: those of the text before it, then those of the text after it. */
  lemma {:induction false} PiecesConcat(x: string, y: string, c: char)
    ensures Pieces(x + [c] + y, c) == Pieces(x, c) + Pieces(y, c)
    decreases |x|
  {
    if c in x {
      var i := IndexOf(x, c);
      var p, t := x[..i], x[i + 1..];
      assert x == p + [c] + t;
      PiecesConcat(t, y, c);
      PiecesConcatCons(p, t, y, c);
    } else {
      PiecesAfterPrefix(x, y, c);
    }
  }

  /** The inductive step of `PiecesConcat`, given the fact for the text after the first separator. */
  lemma PiecesConcatCons(p: string, t: string, y: string, c: char)
    requires c !in p
    requires Pieces(t + [c] + y, c) == Pieces(t, c) + Pieces(y, c)
    ensures Pieces(p + [c] + t + [c] + y, c) == Pieces(p + [c] + t, c) + Pieces(y, c)
  {
    PiecesConcatStep(p, t, y, c);
    AppendAssoc([p], Pieces(t, c), Pieces(y, c));
  }

  lemma AppendAssoc<T>(a: seq<T>, b: seq<T>, d: seq<T>)
    ensures a + (b + d) == (a + b) + d
  {
  }

  /** The inductive step of `PiecesConcat`: the first piece of `x` comes first in both. */
  lemma PiecesConcatStep(p: string, t: string, y: string, c: char)
    requires c !in p
    ensures Pieces(p + [c] + t, c) == [p] + Pieces(t, c)
    ensures Pieces(p + [c] + t + [c] + y, c) == [p] + Pieces(t + [c] + y, c)
  {
    PiecesAfterPrefix(p, t, c);
    assert p + [c] + t + [c] + y == p + [c] + (t + [c] + y);
    PiecesAfterPrefix(p, t + [c] + y, c);
  }

  /** Limit 0 keeps every string up to a non-empty one. */
  lemma DropKeepsNonEmpty(pieces: seq<string>, k: nat)
    requires k < |pieces| && pieces[k] != ""
    ensures k < |DropTrailingEmpty(pieces)|
    ensures DropTrailingEmpty(pieces)[..k + 1] == pieces[..k + 1]
  {
    DropTrailingEmptyShape(pieces);
  }

  /** Limit 0 keeps every string in front of a non-empty one. */
  lemma DropKeepsFront(front: seq<string>, rest: seq<string>)
    requires !AllEmpty(rest)
    ensures |DropTrailingEmpty(front + rest)| > |front|
    ensures DropTrailingEmpty(front + rest)[.. |front|] == front
  {
    var k :| 0 <= k < |rest| && rest[k] != "";
    var P := front + rest;
    assert P[|front| + k] == rest[k];
    DropKeepsNonEmpty(P, |front| + k);
    var r := DropTrailingEmpty(P);
    assert r[.. |front|] == r[.. |front| + k + 1][.. |front|];
    assert P[.. |front| + k + 1][.. |front|] == front;
  }

  /** The split keeps every piece in front of a non-empty one. */
  lemma SplitKeepsFront(s: string, c: char, front: seq<string>, rest: seq<string>)
    requires c in s && Pieces(s, c) == front + rest && !AllEmpty(rest)
    ensures |Split(s, c)| > |front| && Split(s, c)[.. |front|] == front
  {
    DropKeepsFront(front, rest);
  }

  /**
   * Two separators in a row, with some non-separator after them, leave an
   * empty string in the split, right after the pieces of the text in front.
   * When that text has no separator, the split starts with it and `""`.
   */
  lemma DoubledSeparator(a: string, b: string, c: char)
    requires !OnlySeparators(b, c)
    ensures |Split(a + [c, c] + b, c)| > |Pieces(a, c)| + 1
    ensures Split(a + [c, c] + b, c)[|Pieces(a, c)|] == ""
    ensures c !in a ==> Split(a + [c, c] + b, c)[.. 2] == [a, ""]
  {
    SplitOfDoubled(a, b, c);
    PrefixLast(Split(a + [c, c] + b, c), Pieces(a, c), "");
    if c !in a {
      assert Pieces(a, c) == [a];
    }
  }

  /** The split of `a + [c, c] + b` starts with the pieces of `a` and then `""`. */
  lemma SplitOfDoubled(a: string, b: string, c: char)
    requires !OnlySeparators(b, c)
    ensures |Split(a + [c, c] + b, c)| > |Pieces(a, c) + [""]|
    ensures Split(a + [c, c] + b, c)[.. |Pieces(a, c) + [""]|] == Pieces(a, c) + [""]
  {
    var s := a + [c, c] + b;
    assert s[|a|] == c;
    DoubledPieces(a, b, c);
    PiecesAllEmpty(b, c);
    SplitKeepsFront(s, c, Pieces(a, c) + [""], Pieces(b, c));
  }

  /** A sequence that starts with `p + [x]` holds `x` at index `|p|`, and starts with `[p[0], x]` when `p` has one element. */
  lemma PrefixLast<T>(r: seq<T>, p: seq<T>, x: T)
    requires |r| > |p + [x]| && r[.. |p + [x]|] == p + [x]
    ensures |r| > |p| + 1 && r[|p|] == x
    ensures |p| == 1 ==> r[.. 2] == [p[0], x]
  {
    assert r[|p|] == r[.. |p + [x]|][|p|];
  }
}
