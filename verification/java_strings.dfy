/**
 * The parts of java.lang.String that the environment bootstrap relies on:
 * indexOf(char), substring(int) and split(String) with a single-character
 * pattern that is not a regular-expression metacharacter. A Java string is a
 * sequence of UTF-16 code units; here it is a Dafny `string`, a sequence of
 * Unicode scalar values. A supplementary character is one `char` here and two
 * units in Java, so positions differ on such text (the pieces and suffixes
 * taken do not), and a lone surrogate has no counterpart here.
 */
module JavaStrings {
  import opened Wrappers

  /** The unchecked exceptions the modelled String and array operations throw. */
  datatype StringException =
    | StringIndexOutOfBounds(index: int)
    | ArrayIndexOutOfBounds(index: int)

  /** Every character of `s` is `c`. */
  predicate OnlyChar(s: string, c: char) {
    forall j :: 0 <= j < |s| ==> s[j] == c
  }

  /** Every string of `ps` is empty. */
  predicate AllEmpty(ps: seq<string>) {
    forall k :: 0 <= k < |ps| ==> ps[k] == ""
  }

  // ---------------------------------------------------------------- indexOf

  /** `s.indexOf(c)`: the first position of `c` in `s`, or -1 when there is none. */
  function IndexOf(s: string, c: char): (i: int)
    ensures -1 <= i < |s|
    ensures 0 <= i ==> s[i] == c
  {
    if s == [] then -1
    else if s[0] == c then 0
    else
      var j := IndexOf(s[1..], c);
      if j < 0 then -1 else j + 1
  }

  /** indexOf answers -1 exactly when `c` is absent. */
  lemma {:induction false} IndexOfAbsent(s: string, c: char)
    ensures IndexOf(s, c) < 0 <==> c !in s
    decreases |s|
  {
    if s != [] && s[0] != c {
      IndexOfAbsent(s[1..], c);
      assert s == [s[0]] + s[1..];
    }
  }

  /** No `c` comes before the position indexOf answers. */
  lemma {:induction false} IndexOfIsFirst(s: string, c: char)
    ensures 0 <= IndexOf(s, c) ==> c !in s[..IndexOf(s, c)]
    decreases |s|
  {
    if s != [] && s[0] != c {
      IndexOfIsFirst(s[1..], c);
      var j := IndexOf(s[1..], c);
      if j >= 0 {
        assert s[..j + 1] == [s[0]] + s[1..][..j];
      }
    }
  }

  /** A `c` right after a `c`-free prefix is the first one. */
  lemma IndexOfAfterFree(u: string, c: char, v: string)
    requires c !in u
    ensures IndexOf(u + [c] + v, c) == |u|
  {
    var s := u + [c] + v;
    IndexOfAbsent(s, c);
    IndexOfIsFirst(s, c);
    assert s[|u|] == c;
  }

  // ---------------------------------------------------------------- substring

  /**
   * `s.substring(begin)` as in Java 8: throws unless `0 <= begin <= s.length()`,
   * reporting `begin` when it is negative and `s.length() - begin` when it is
   * past the end.
   */
  function Substring(s: string, begin: int): (r: Result<string, StringException>)
    ensures r.Ok? <==> 0 <= begin <= |s|
    ensures r.Ok? ==> s[..begin] + r.value == s
    ensures begin < 0 ==> r == Err(StringIndexOutOfBounds(begin))
    ensures |s| < begin ==> r.Err? && r.error.index < 0
  {
    if begin < 0 then Err(StringIndexOutOfBounds(begin))
    else if |s| < begin then Err(StringIndexOutOfBounds(|s| - begin))
    else Ok(s[begin..])
  }

  // ---------------------------------------------------------------- split

  /**
   * The text between consecutive occurrences of `c`, before the first and
   * after the last: one more piece than there are occurrences of `c`.
   */
  function Pieces(s: string, c: char): (r: seq<string>)
    ensures |r| >= 1
    decreases |s|
  {
    var i := IndexOf(s, c);
    if i < 0 then [s] else [s[..i]] + Pieces(s[i + 1..], c)
  }

  /** Puts pieces back together with `c` between neighbours. */
  function Join(ps: seq<string>, c: char): string
    requires |ps| >= 1
  {
    if |ps| == 1 then ps[0] else ps[0] + [c] + Join(ps[1..], c)
  }

  /** Removes the empty strings at the end of `ps`. */
  function DropTrailingEmpty(ps: seq<string>): (r: seq<string>)
    ensures |r| <= |ps| && r == ps[..|r|]
    ensures forall k :: |r| <= k < |ps| ==> ps[k] == ""
    ensures r == [] || r[|r| - 1] != ""
  {
    if ps != [] && ps[|ps| - 1] == "" then DropTrailingEmpty(ps[..|ps| - 1]) else ps
  }

  /**
   * `s.split(c)` with limit 0: `[s]` when `c` does not occur; otherwise every
   * piece, with the trailing empty strings dropped.
   */
  function Split(s: string, c: char): (r: seq<string>)
    ensures |r| <= |Pieces(s, c)| && r == Pieces(s, c)[..|r|]
    ensures forall k :: |r| <= k < |Pieces(s, c)| ==> Pieces(s, c)[k] == ""
    ensures c !in s ==> r == [s]
    ensures c in s ==> r == [] || r[|r| - 1] != ""
  {
    IndexOfAbsent(s, c);
    if IndexOf(s, c) < 0 then [s] else DropTrailingEmpty(Pieces(s, c))
  }

  /** No piece contains `c`; there is more than one piece exactly when `c` occurs. */
  lemma {:induction false} PiecesFree(s: string, c: char)
    ensures |Pieces(s, c)| == 1 <==> c !in s
    ensures forall k :: 0 <= k < |Pieces(s, c)| ==> c !in Pieces(s, c)[k]
    decreases |s|
  {
    IndexOfAbsent(s, c);
    IndexOfIsFirst(s, c);
    var i := IndexOf(s, c);
    if i >= 0 {
      PiecesFree(s[i + 1..], c);
      var ps := Pieces(s, c);
      assert ps[0] == s[..i] && ps[1..] == Pieces(s[i + 1..], c);
      forall k | 1 <= k < |ps| ensures c !in ps[k] {
        assert ps[k] == Pieces(s[i + 1..], c)[k - 1];
      }
    }
  }

  /** The text of `s` before its first `c`, or all of `s` when there is none. */
  function TextBefore(s: string, c: char): string
  {
    var i := IndexOf(s, c);
    if i < 0 then s else s[..i]
  }

  /** The text before the first `c` is a `c`-free prefix followed by `c` or the end. */
  lemma TextBeforeIsPrefix(s: string, c: char)
    ensures var a := TextBefore(s, c);
      && |a| <= |s| && s[..|a|] == a
      && c !in a
      && (|a| == |s| || s[|a|] == c)
  {
    IndexOfAbsent(s, c);
    IndexOfIsFirst(s, c);
  }

  /** Joining a piece in front of other pieces puts `c` between them. */
  lemma JoinCons(p: string, ps: seq<string>, c: char)
    requires |ps| >= 1
    ensures Join([p] + ps, c) == p + [c] + Join(ps, c)
  {
    assert ([p] + ps)[1..] == ps;
  }

  /** A string is its text before position `i`, the character there, and the rest. */
  lemma SplitAround(s: string, i: int)
    requires 0 <= i < |s|
    ensures s == s[..i] + [s[i]] + s[i + 1..]
  {
  }

  /** Joining the pieces of `s` gives `s` back. */
  lemma {:induction false} JoinPieces(s: string, c: char)
    ensures Join(Pieces(s, c), c) == s
    decreases |s|
  {
    var i := IndexOf(s, c);
    if i >= 0 {
      var before, rest := s[..i], s[i + 1..];
      var tail := Pieces(rest, c);
      assert Pieces(s, c) == [before] + tail;
      assert Join(tail, c) == rest by { JoinPieces(rest, c); }
      assert Join([before] + tail, c) == before + [c] + Join(tail, c) by { JoinCons(before, tail, c); }
      SplitAround(s, i);
    }
  }

  /** Pieces that do not contain `c` are recovered from their join. */
  lemma {:induction false} PiecesOfJoin(ps: seq<string>, c: char)
    requires |ps| >= 1
    requires forall k :: 0 <= k < |ps| ==> c !in ps[k]
    ensures Pieces(Join(ps, c), c) == ps
    decreases |ps|
  {
    if |ps| > 1 {
      var tail := Join(ps[1..], c);
      var s := Join(ps, c);
      assert s == ps[0] + [c] + tail;
      IndexOfAfterFree(ps[0], c, tail);
      assert s[..|ps[0]|] == ps[0];
      assert s[|ps[0]| + 1..] == tail;
      PiecesOfJoin(ps[1..], c);
    }
  }

  lemma AllEmptyCons(ps: seq<string>)
    requires |ps| > 0
    ensures AllEmpty(ps) <==> ps[0] == "" && AllEmpty(ps[1..])
  {
  }

  lemma OnlyCharCons(s: string, c: char)
    requires |s| > 0
    ensures OnlyChar(s, c) <==> s[0] == c && OnlyChar(s[1..], c)
  {
  }

  /** Every piece of `s` is empty exactly when `s` consists of `c` alone. */
  lemma {:induction false} PiecesAllEmpty(s: string, c: char)
    ensures AllEmpty(Pieces(s, c)) <==> OnlyChar(s, c)
    decreases |s|
  {
    IndexOfAbsent(s, c);
    IndexOfIsFirst(s, c);
    var i := IndexOf(s, c);
    var ps := Pieces(s, c);
    if i >= 0 {
      var rest := s[i + 1..];
      PiecesAllEmpty(rest, c);
      assert ps[0] == s[..i] && ps[1..] == Pieces(rest, c);
      AllEmptyCons(ps);
      if i == 0 {
        OnlyCharCons(s, c);
      } else {
        assert ps[0] != "" && s[0] != c by { assert s[..i][0] == s[0]; }
      }
    } else {
      assert ps == [s];
      if |s| > 0 {
        assert ps[0] != "" && s[0] != c;
      }
    }
  }

  /**
   * When `c` occurs, the split has a second element exactly when some
   * character after the first `c` is not `c`, and that element is the text
   * after the first `c` up to the next one.
   */
  lemma SplitSecond(s: string, c: char)
    requires c in s
    ensures var rest := s[IndexOf(s, c) + 1..];
      && (|Split(s, c)| > 1 <==> !OnlyChar(rest, c))
      && (|Split(s, c)| > 1 ==> Split(s, c)[1] == TextBefore(rest, c))
  {
    IndexOfAbsent(s, c);
    var i := IndexOf(s, c);
    var rest := s[i + 1..];
    var ps := Pieces(s, c);
    var tail := Pieces(rest, c);
    assert ps[1..] == tail;
    PiecesAllEmpty(rest, c);
    var r := Split(s, c);
    assert r == DropTrailingEmpty(ps);
    if |r| > 1 {
      assert tail[|r| - 2] == ps[|r| - 1];
      assert r[1] == ps[1] == tail[0];
    } else {
      assert AllEmpty(tail) by {
        forall k | 0 <= k < |tail| ensures tail[k] == "" { assert tail[k] == ps[k + 1]; }
      }
    }
  }
}
