/**
 * `util::str_split(str, delimiter)`: reads `str` through a string stream with
 * `getline(stream, piece, delimiter)` for as long as the stream is good, and
 * collects every piece. Each call to `getline` stops after the next delimiter
 * (dropping it) or at the end of the input; reaching the end makes the stream
 * not good. The input therefore falls apart at every delimiter, one piece more
 * than there are delimiters, empty pieces included.
 */
module Util {

  /** The pieces between the delimiters, defined one character at a time. */
  function Split(s: string, d: char): (r: seq<string>)
    ensures |r| >= 1
  {
    if |s| == 0 then [""]
    else if s[0] == d then [""] + Split(s[1..], d)
    else
      var rest := Split(s[1..], d);
      [[s[0]] + rest[0]] + rest[1..]
  }

  /** The pieces written back with one delimiter between neighbours. */
  function Join(pieces: seq<string>, d: char): (r: string)
    requires |pieces| >= 1
  {
    if |pieces| == 1 then pieces[0] else pieces[0] + [d] + Join(pieces[1..], d)
  }

  /** The number of occurrences of `d` in `s`. */
  function Occurrences(s: string, d: char): (r: nat)
  {
    if |s| == 0 then 0 else (if s[0] == d then 1 else 0) + Occurrences(s[1..], d)
  }

  /** There is one piece more than there are delimiters. */
  lemma {:induction false} SplitCount(s: string, d: char)
    ensures |Split(s, d)| == Occurrences(s, d) + 1
  {
    if |s| > 0 {
      SplitCount(s[1..], d);
    }
  }

  /** No piece contains the delimiter. */
  lemma {:induction false} SplitPiecesFree(s: string, d: char)
    ensures forall i :: 0 <= i < |Split(s, d)| ==> d !in Split(s, d)[i]
  {
    if |s| > 0 {
      SplitPiecesFree(s[1..], d);
    }
  }

  /** Joining the pieces with the delimiter gives the input back. */
  lemma {:induction false} JoinSplit(s: string, d: char)
    ensures Join(Split(s, d), d) == s
  {
    if |s| > 0 {
      var rest := Split(s[1..], d);
      JoinSplit(s[1..], d);
      if s[0] != d {
        if |rest| == 1 {
          assert Split(s, d) == [[s[0]] + rest[0]];
        } else {
          var r := Split(s, d);
          assert r[1..] == rest[1..];
          assert Join(r, d) == [s[0]] + rest[0] + [d] + Join(rest[1..], d);
        }
      }
    }
  }

  /** Splitting a piece free of the delimiter followed by more text. */
  lemma {:induction false} SplitPrefix(w: string, rest: string, d: char)
    requires d !in w
    ensures Split(w + rest, d) == [w + Split(rest, d)[0]] + Split(rest, d)[1..]
  {
    var tail := Split(rest, d);
    if |w| == 0 {
      assert w + rest == rest;
      assert w + tail[0] == tail[0];
      assert [tail[0]] + tail[1..] == tail;
    } else {
      assert (w + rest)[0] == w[0] && (w + rest)[1..] == w[1..] + rest;
      SplitPrefix(w[1..], rest, d);
      assert [w[0]] + (w[1..] + tail[0]) == w + tail[0];
    }
  }

  /** A piece free of the delimiter, then the delimiter: that piece, then the rest split. */
  lemma SplitAtDelimiter(w: string, rest: string, d: char)
    requires d !in w
    ensures Split(w + [d] + rest, d) == [w] + Split(rest, d)
  {
    assert w + [d] + rest == w + ([d] + rest);
    assert ([d] + rest)[0] == d && ([d] + rest)[1..] == rest;
    var tail := Split([d] + rest, d);
    assert tail == [""] + Split(rest, d);
    SplitPrefix(w, [d] + rest, d);
    assert w + tail[0] == w;
  }

  /** Text free of the delimiter is a single piece. */
  lemma SplitWhole(w: string, d: char)
    requires d !in w
    ensures Split(w, d) == [w]
  {
    assert w + "" == w;
    SplitPrefix(w, "", d);
  }

  /** Splitting what `Join` wrote gives the pieces back, when none holds the delimiter. */
  lemma {:induction false} SplitJoin(pieces: seq<string>, d: char)
    requires |pieces| >= 1
    requires forall i :: 0 <= i < |pieces| ==> d !in pieces[i]
    ensures Split(Join(pieces, d), d) == pieces
  {
    if |pieces| == 1 {
      SplitWhole(pieces[0], d);
    } else {
      SplitJoin(pieces[1..], d);
      SplitAtDelimiter(pieces[0], Join(pieces[1..], d), d);
    }
  }

  /** A delimiter at the end leaves an empty last piece. */
  lemma TrailingDelimiter(s: string, d: char)
    ensures var r := Split(s + [d], d); r[|r| - 1] == ""
  {
    var r := Split(s + [d], d);
    SplitPiecesFree(s, d);
    JoinSplit(s, d);
    var pieces := Split(s, d);
    var extended := pieces + [""];
    forall i | 0 <= i < |extended|
      ensures d !in extended[i]
    {
      if i < |pieces| {
        assert extended[i] == pieces[i];
      }
    }
    JoinAppendEmpty(pieces, d);
    SplitJoin(extended, d);
  }

  /** Appending an empty piece appends one delimiter. */
  lemma {:induction false} JoinAppendEmpty(pieces: seq<string>, d: char)
    requires |pieces| >= 1
    ensures Join(pieces + [""], d) == Join(pieces, d) + [d]
  {
    if |pieces| > 1 {
      assert (pieces + [""])[1..] == pieces[1..] + [""];
      JoinAppendEmpty(pieces[1..], d);
    }
  }

  /**
   * `getline(stream, piece, delimiter)` from read position `pos`: the characters
   * up to the next delimiter, which is consumed, or up to the end of the input,
   * which leaves the stream at its end.
   */
  method GetLine(str: string, pos: nat, delimiter: char) returns (piece: string, next: nat, atEnd: bool)
    requires pos <= |str|
    ensures delimiter !in piece
    ensures atEnd ==> next == |str| && piece == str[pos..]
    ensures !atEnd ==> pos < next <= |str| && str[pos..] == piece + [delimiter] + str[next..]
  {
    piece := "";
    next := pos;
    while next < |str| && str[next] != delimiter
      invariant pos <= next <= |str|
      invariant piece == str[pos..next]
      invariant delimiter !in piece
    {
      piece := piece + [str[next]];
      next := next + 1;
    }
    atEnd := next == |str|;
    if !atEnd {
      assert str[pos..] == str[pos..next] + [str[next]] + str[next + 1..];
      next := next + 1;
    }
  }

  /**
   * The stream loop: `pos` is the read position, `good` the stream state. Each
   * round reads one piece; a consumed delimiter keeps the stream good, reaching
   * the end of the input does not.
   */
  method StrSplit(str: string, delimiter: char) returns (results: seq<string>)
    ensures results == Split(str, delimiter)
  {
    results := [];
    var pos := 0;
    var good := true;
    while good
      invariant 0 <= pos <= |str|
      invariant good ==> results + Split(str[pos..], delimiter) == Split(str, delimiter)
      invariant !good ==> results == Split(str, delimiter)
      decreases |str| - pos, if good then 1 else 0
    {
      var piece, next, atEnd := GetLine(str, pos, delimiter);
      if atEnd {
        SplitWhole(piece, delimiter);
      } else {
        SplitAtDelimiter(piece, str[next..], delimiter);
        assert results + Split(str[pos..], delimiter) == (results + [piece]) + Split(str[next..], delimiter);
      }
      results := results + [piece];
      pos := next;
      good := !atEnd;
    }
  }
}
