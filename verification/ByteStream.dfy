/** The byte stream a socket delivers, and its division into lines. No buffer appears here:
    these are the meanings that the reads of src/py_nspr_io.c are proved against. */
module ByteStream {
  newtype byte = x: int | 0 <= x < 256

  type Bytes = seq<byte>

  const NEWLINE: byte := 10

  function Flatten(pieces: seq<Bytes>): Bytes {
    if pieces == [] then [] else pieces[0] + Flatten(pieces[1..])
  }

  lemma {:induction false} FlattenConcat(xs: seq<Bytes>, ys: seq<Bytes>)
    ensures Flatten(xs + ys) == Flatten(xs) + Flatten(ys)
    decreases |xs|
  {
    if xs == [] {
      assert xs + ys == ys;
    } else {
      assert (xs + ys)[1..] == xs[1..] + ys;
      FlattenConcat(xs[1..], ys);
      assert xs[0] + (Flatten(xs[1..]) + Flatten(ys)) == Flatten(xs) + Flatten(ys);
    }
  }

  /** How many bytes `readline(size)` takes from stream `s`. A size of zero or less is no limit. */
  function LineLength(s: Bytes, size: int): (n: nat)
    ensures n <= |s|
    ensures n == 0 <==> s == []
  {
    if s == [] then 0
    else if s[0] == NEWLINE || size == 1 then 1
    else 1 + LineLength(s[1..], if size > 0 then size - 1 else size)
  }

  function Line(s: Bytes, size: int): Bytes { s[..LineLength(s, size)] }

  function AfterLine(s: Bytes, size: int): Bytes { s[LineLength(s, size)..] }

  /** The place to stop: a newline (byte 10) just taken, the limit reached, or the end of the stream,
      and none of them any earlier. */
  predicate IsLineLength(s: Bytes, size: int, n: nat) {
    && n <= |s|
    && (forall i | 0 <= i < n - 1 :: s[i] != 10)
    && (size > 0 ==> n <= size)
    && (n == |s| || (n > 0 && s[n - 1] == 10) || (size > 0 && n == size))
    && (n == 0 ==> s == [])
  }

  lemma {:induction false} LineLengthIsShortest(s: Bytes, size: int, n: nat)
    ensures n == LineLength(s, size) <==> IsLineLength(s, size, n)
    decreases |s|
  {
    if s != [] && s[0] != NEWLINE && size != 1 && n > 0 {
      var t, size' := s[1..], if size > 0 then size - 1 else size;
      LineLengthIsShortest(t, size', n - 1);
      if IsLineLength(t, size', n - 1) {
        assert forall i | 1 <= i < n - 1 :: s[i] == t[i - 1];
      }
      if IsLineLength(s, size, n) {
        assert forall i | 0 <= i < n - 2 :: t[i] == s[i + 1];
        assert n > 1 ==> t[n - 2] == s[n - 1];
      }
    }
  }

  /** The documented limit, for any size that is not negative, holds exactly where the size is
      positive or there is nothing to read. */
  lemma DocumentedLimit(s: Bytes, size: int)
    requires size >= 0
    ensures LineLength(s, size) <= size <==> size > 0 || s == []
  {
    LineLengthIsShortest(s, size, LineLength(s, size));
  }

  /** `line` is the next line of `s`, and `rest` what comes after it. */
  predicate Splits(s: Bytes, size: int, line: Bytes, rest: Bytes) {
    s == line + rest && IsLineLength(s, size, |line|)
  }

  lemma SplitsIsLine(s: Bytes, size: int, line: Bytes, rest: Bytes)
    ensures Splits(s, size, line, rest) <==> line == Line(s, size) && rest == AfterLine(s, size)
  {
    LineLengthIsShortest(s, size, LineLength(s, size));
    if Splits(s, size, line, rest) {
      LineLengthIsShortest(s, size, |line|);
    }
  }

  lemma SplitsUnique(s: Bytes, size: int, line: Bytes, rest: Bytes, line': Bytes, rest': Bytes)
    requires Splits(s, size, line, rest) && Splits(s, size, line', rest')
    ensures line == line' && rest == rest'
  {
    SplitsIsLine(s, size, line, rest);
    SplitsIsLine(s, size, line', rest');
  }

  /** The lines of a finite stream, each with its newline; the last one may lack it. */
  function Lines(s: Bytes): seq<Bytes>
    decreases |s|
  {
    if s == [] then [] else [Line(s, 0)] + Lines(AfterLine(s, 0))
  }

  predicate EndsLine(line: Bytes) { line != [] && line[|line| - 1] == 10 }

  predicate IsLineText(line: Bytes) {
    line != [] && forall i | 0 <= i < |line| - 1 :: line[i] != 10
  }

  /** A division into lines: no empty item, newlines only at the ends, and at all but the last. */
  predicate IsDivision(items: seq<Bytes>) {
    && (forall k | 0 <= k < |items| :: IsLineText(items[k]))
    && (forall k | 0 <= k < |items| - 1 :: EndsLine(items[k]))
  }

  lemma FirstItemIsLine(items: seq<Bytes>)
    requires IsDivision(items) && items != []
    ensures LineLength(Flatten(items), 0) == |items[0]|
    ensures Line(Flatten(items), 0) == items[0] && AfterLine(Flatten(items), 0) == Flatten(items[1..])
  {
    var s, n := Flatten(items), |items[0]|;
    assert forall i | 0 <= i < n :: s[i] == items[0][i];
    if |items| == 1 {
      assert Flatten(items[1..]) == [];
    }
    LineLengthIsShortest(s, 0, n);
  }

  lemma {:induction false} DivisionIsLines(s: Bytes, items: seq<Bytes>)
    requires IsDivision(items) && Flatten(items) == s
    ensures items == Lines(s)
    decreases |items|
  {
    if items != [] {
      assert IsLineText(items[0]);
      FirstItemIsLine(items);
      DivisionIsLines(AfterLine(s, 0), items[1..]);
    }
  }

  lemma {:induction false} LinesDivide(s: Bytes)
    ensures IsDivision(Lines(s)) && Flatten(Lines(s)) == s
    decreases |s|
  {
    if s != [] {
      var line, rest := Line(s, 0), AfterLine(s, 0);
      LinesDivide(rest);
      SplitsIsLine(s, 0, line, rest);
      DivisionGrows(line, Lines(rest));
    }
  }

  lemma DivisionGrows(line: Bytes, items: seq<Bytes>)
    requires IsLineText(line) && IsDivision(items) && (items != [] ==> EndsLine(line))
    ensures IsDivision([line] + items) && Flatten([line] + items) == line + Flatten(items)
  {
    assert forall k | 1 <= k < |[line] + items| :: ([line] + items)[k] == items[k - 1];
    assert ([line] + items)[1..] == items;
  }

  /** `Lines` is the one division of the stream into lines. */
  lemma LinesUnique(s: Bytes, items: seq<Bytes>)
    ensures items == Lines(s) <==> IsDivision(items) && Flatten(items) == s
  {
    LinesDivide(s);
    if IsDivision(items) && Flatten(items) == s {
      DivisionIsLines(s, items);
    }
  }

  /** What readlines(sizehint) returns: lines until their total reaches a positive hint, or up
      to and including the empty line that marks the end of the stream. */
  function HintedLines(s: Bytes, hint: int): seq<Bytes>
    decreases |s|
  {
    var line := Line(s, 0);
    if line == [] || (hint > 0 && |line| >= hint) then [line]
    else [line] + HintedLines(AfterLine(s, 0), if hint > 0 then hint - |line| else hint)
  }

  lemma {:induction false} UnhintedLines(s: Bytes, hint: int)
    requires hint <= 0
    ensures HintedLines(s, hint) == Lines(s) + [[]]
    decreases |s|
  {
    if s != [] {
      UnhintedLines(AfterLine(s, 0), hint);
    }
  }

  /** With a positive hint the lines returned are the stream's first lines, possibly followed by
      the empty one; they stop where the total first reaches the hint or the stream ends, and
      their concatenation is what leaves the stream. */
  lemma {:induction false} HintedLinesStop(s: Bytes, hint: int)
    requires hint > 0
    ensures var ls := HintedLines(s, hint);
            && ls != [] && ls <= Lines(s) + [[]]
            && |Flatten(ls[..|ls| - 1])| < hint
            && (|Flatten(ls)| >= hint || ls == Lines(s) + [[]])
            && Flatten(ls) <= s
    decreases |s|
  {
    var ls, line := HintedLines(s, hint), Line(s, 0);
    if line == [] || |line| >= hint {
      assert ls[..0] == [] && ls[1..] == [];
      assert Flatten(ls) == line + Flatten([]);
    } else {
      var rest := AfterLine(s, 0);
      HintedLinesStop(rest, hint - |line|);
      var tail := HintedLines(rest, hint - |line|);
      assert ls[..|ls| - 1] == [line] + tail[..|tail| - 1];
      assert ls[1..] == tail && ([line] + tail[..|tail| - 1])[1..] == tail[..|tail| - 1];
      assert Lines(s) + [[]] == [line] + (Lines(rest) + [[]]);
      assert s == line + rest;
    }
  }

  /** Bounded reads compose: a bounded line that does not end the line leaves the rest of it. */
  lemma BoundedThenRest(s: Bytes, size: int)
    requires size > 0
    ensures var piece := Line(s, size);
            if EndsLine(piece) || piece == [] then piece == Line(s, 0) && AfterLine(s, size) == AfterLine(s, 0)
            else Line(s, 0) == piece + Line(AfterLine(s, size), 0) &&
                 AfterLine(s, 0) == AfterLine(AfterLine(s, size), 0)
  {
    var piece, rest := Line(s, size), AfterLine(s, size);
    SplitsIsLine(s, size, piece, rest);
    if EndsLine(piece) || piece == [] {
      SplitsIsLine(s, 0, piece, rest);
    } else {
      var more, after := Line(rest, 0), AfterLine(rest, 0);
      SplitsIsLine(rest, 0, more, after);
      SplitsJoin(s, size, piece, rest, more, after);
      SplitsIsLine(s, 0, piece + more, after);
    }
  }

  lemma SplitsJoin(s: Bytes, size: int, piece: Bytes, rest: Bytes, more: Bytes, after: Bytes)
    requires Splits(s, size, piece, rest) && !EndsLine(piece) && piece != []
    requires Splits(rest, 0, more, after)
    ensures Splits(s, 0, piece + more, after)
  {
    var n := |piece|;
    assert s[n - 1] == piece[n - 1];
    assert forall i | 0 <= i < |rest| :: s[n + i] == rest[i];
    assert forall i | n <= i < n + |more| - 1 :: s[i] == rest[i - n];
  }
}
