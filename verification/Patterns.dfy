/** The four regular expressions of redact_message (src/secure_logging.py:102-115), written as
    `Regex` values, and what a match of each of them means in terms of the text alone. */
module Patterns {
  import opened Wrappers
  import opened Regex

  function Literal(w: string): Regex
    requires w != ""
  {
    if |w| == 1 then Char(Letter(w[0])) else Then(Char(Letter(w[0])), Literal(w[1..]))
  }

  // \b[A-Za-z0-9+/]{40,}={1,2}(?!\w)
  const PADDED_TAIL := Then(Greedy(EqualsSign, 1, Some(2)), NotAhead(Char(Word)))
  const PADDED := Then(Boundary, Then(Greedy(Base64, 40, None), PADDED_TAIL))

  // \b(?=.*[g-zG-Z+/])[A-Za-z0-9+/]{40,}\b
  const NON_HEX_ON_LINE := Then(Greedy(NotNewline, 0, None), Char(NonHexBase64))
  const MIXED_RUN := Then(Greedy(Base64, 40, None), Boundary)
  const MIXED := Then(Boundary, Then(LookAhead(NON_HEX_ON_LINE), MIXED_RUN))

  // \b[0-9a-fA-F]{32,}\b
  const HEX := Then(Boundary, Then(Greedy(HexDigit, 32, None), Boundary))

  // (password|passwd|pwd|pin) and \s*[:=]\s*\S+, with IGNORECASE
  const PASSWORD := "password"
  const PASSWD := "passwd"
  const PWD := "pwd"
  const PIN := "pin"
  const KEYWORD := Or(Literal(PASSWORD), Or(Literal(PASSWD), Or(Literal(PWD), Literal(PIN))))
  const VALUE := Then(Greedy(Space, 0, None), Greedy(NonSpace, 1, None))
  const ASSIGNMENT := Then(Greedy(Space, 0, None), Then(Char(ColonOrEquals), VALUE))

  /** Is the character at `k` a word character? No, at the end of the text. */
  predicate WordAt(u: Unicode, m: string, k: nat) {
    k < |m| && IsWord(u, m[k])
  }

  /** 40 or more base64 characters up to `e`, then one or two `=` up to `k`. */
  predicate PaddedShape(u: Unicode, m: string, i: nat, e: nat, k: nat) {
    && i + 40 <= e < k <= |m| && k <= e + 2
    && AtBoundary(u, m, i) && All(u, Base64, m, i, e) && All(u, EqualsSign, m, e, k) && !WordAt(u, m, k)
  }

  lemma PaddedHasShape(u: Unicode, m: string, i: nat, k: nat) returns (e: nat)
    requires i <= |m| && Matches(u, PADDED, m, i, k)
    ensures PaddedShape(u, m, i, e, k)
  {
    var b := ThenSplits(u, Boundary, Then(Greedy(Base64, 40, None), PADDED_TAIL), m, i, k);
    e := ThenSplits(u, Greedy(Base64, 40, None), PADDED_TAIL, m, i, k);
    GreedyMatches(u, Base64, 40, None, m, i, e);
    var f := ThenSplits(u, Greedy(EqualsSign, 1, Some(2)), NotAhead(Char(Word)), m, e, k);
    GreedyMatches(u, EqualsSign, 1, Some(2), m, e, f);
  }

  lemma PaddedShapeMatches(u: Unicode, m: string, i: nat, e: nat, k: nat)
    requires PaddedShape(u, m, i, e, k)
    ensures Matches(u, PADDED, m, i, k)
  {
    GreedyMatches(u, EqualsSign, 1, Some(2), m, e, k);
    assert Matches(u, NotAhead(Char(Word)), m, k, k);
    ThenJoins(u, Greedy(EqualsSign, 1, Some(2)), NotAhead(Char(Word)), m, e, k, k);
    GreedyMatches(u, Base64, 40, None, m, i, e);
    ThenJoins(u, Greedy(Base64, 40, None), PADDED_TAIL, m, i, e, k);
    assert Matches(u, Boundary, m, i, i);
    ThenJoins(u, Boundary, Then(Greedy(Base64, 40, None), PADDED_TAIL), m, i, i, k);
  }

  lemma ClassEndsAtPadding(u: Unicode, m: string, i: nat, e: nat, k: nat, e': nat)
    requires PaddedShape(u, m, i, e, k) && i <= e' < |m| && All(u, Base64, m, i, e') && m[e'] == '='
    ensures e' == e
  {
    assert In(u, EqualsSign, m[e]);
    assert !In(u, Base64, m[e]) && !In(u, Base64, m[e']);
  }

  lemma TailTakesMost(u: Unicode, m: string, e: nat, k: nat)
    requires e < k <= |m| && k <= e + 2 && All(u, EqualsSign, m, e, k) && !WordAt(u, m, k)
    requires FirstEnd(u, PADDED_TAIL, m, e).Some?
    ensures k <= FirstEnd(u, PADDED_TAIL, m, e).value
  {
    var f := ThenGreedyFirst(u, EqualsSign, 1, Some(2), NotAhead(Char(Word)), m, e);
    GreedyMatches(u, EqualsSign, 1, Some(2), m, e, k);
    assert Ends(u, NotAhead(Char(Word)), m, k) == [k];
  }

  /** Of all texts of the shape that start at `i` the longest is reported. */
  lemma PaddedTakesMost(u: Unicode, m: string, i: nat, e: nat, k: nat)
    requires PaddedShape(u, m, i, e, k)
    ensures FirstEnd(u, PADDED, m, i).Some? && k <= FirstEnd(u, PADDED, m, i).value
  {
    PaddedShapeMatches(u, m, i, e, k);
    var b := ThenFirst(u, Boundary, Then(Greedy(Base64, 40, None), PADDED_TAIL), m, i);
    var e' := ThenFirst(u, Greedy(Base64, 40, None), PADDED_TAIL, m, i);
    GreedyMatches(u, Base64, 40, None, m, i, e');
    TailStartsWithEquals(u, m, e');
    ClassEndsAtPadding(u, m, i, e, k, e');
    TailTakesMost(u, m, e, k);
  }

  lemma TailStartsWithEquals(u: Unicode, m: string, e: nat)
    requires e <= |m| && FirstEnd(u, PADDED_TAIL, m, e).Some?
    ensures e < |m| && m[e] == '='
  {
    var f := ThenFirst(u, Greedy(EqualsSign, 1, Some(2)), NotAhead(Char(Word)), m, e);
    GreedyMatches(u, EqualsSign, 1, Some(2), m, e, f);
    assert In(u, EqualsSign, m[e]);
  }

  /** A stretch of one class with a word boundary at both ends. */
  predicate Bounded(u: Unicode, s: CharSet, m: string, a: nat, b: nat) {
    a <= b <= |m| && All(u, s, m, a, b) && AtBoundary(u, m, a) && AtBoundary(u, m, b)
  }

  /** The look-ahead of the second pattern: a character that is not a hex digit occurs
      somewhere before the end of the line. */
  predicate NonHexAhead(u: Unicode, m: string, i: nat) {
    exists j | i <= j < |m| :: All(u, NotNewline, m, i, j) && In(u, NonHexBase64, m[j])
  }

  lemma LookAheadMeans(u: Unicode, m: string, i: nat, k: nat)
    requires i <= |m| && Matches(u, NON_HEX_ON_LINE, m, i, k)
    ensures NonHexAhead(u, m, i)
  {
    var j := ThenSplits(u, Greedy(NotNewline, 0, None), Char(NonHexBase64), m, i, k);
    GreedyMatches(u, NotNewline, 0, None, m, i, j);
  }

  lemma NonHexAheadMatches(u: Unicode, m: string, i: nat, j: nat)
    requires i <= j < |m| && All(u, NotNewline, m, i, j) && In(u, NonHexBase64, m[j])
    ensures Matches(u, NON_HEX_ON_LINE, m, i, j + 1)
  {
    GreedyMatches(u, NotNewline, 0, None, m, i, j);
    assert Matches(u, Char(NonHexBase64), m, j, j + 1);
    ThenJoins(u, Greedy(NotNewline, 0, None), Char(NonHexBase64), m, i, j, j + 1);
  }

  lemma NonHexAheadIsLookAhead(u: Unicode, m: string, i: nat)
    requires i <= |m|
    ensures Matches(u, LookAhead(NON_HEX_ON_LINE), m, i, i) <==> NonHexAhead(u, m, i)
  {
    if Ends(u, NON_HEX_ON_LINE, m, i) != [] {
      LookAheadMeans(u, m, i, Ends(u, NON_HEX_ON_LINE, m, i)[0]);
    }
    if NonHexAhead(u, m, i) {
      var j: nat :| i <= j < |m| && All(u, NotNewline, m, i, j) && In(u, NonHexBase64, m[j]);
      NonHexAheadMatches(u, m, i, j);
    }
  }

  lemma MixedMeans(u: Unicode, m: string, i: nat, k: nat)
    requires i <= |m|
    ensures Matches(u, MIXED, m, i, k) <==>
            i + 40 <= k && Bounded(u, Base64, m, i, k) && NonHexAhead(u, m, i)
  {
    NonHexAheadIsLookAhead(u, m, i);
    if Matches(u, MIXED, m, i, k) {
      var b := ThenSplits(u, Boundary, Then(LookAhead(NON_HEX_ON_LINE), MIXED_RUN), m, i, k);
      var c := ThenSplits(u, LookAhead(NON_HEX_ON_LINE), MIXED_RUN, m, i, k);
      var e := ThenSplits(u, Greedy(Base64, 40, None), Boundary, m, i, k);
      GreedyMatches(u, Base64, 40, None, m, i, k);
    }
    if i + 40 <= k && Bounded(u, Base64, m, i, k) && NonHexAhead(u, m, i) {
      GreedyMatches(u, Base64, 40, None, m, i, k);
      assert Matches(u, Boundary, m, k, k);
      ThenJoins(u, Greedy(Base64, 40, None), Boundary, m, i, k, k);
      ThenJoins(u, LookAhead(NON_HEX_ON_LINE), MIXED_RUN, m, i, i, k);
      assert Matches(u, Boundary, m, i, i);
      ThenJoins(u, Boundary, Then(LookAhead(NON_HEX_ON_LINE), MIXED_RUN), m, i, i, k);
    }
  }

  lemma HexMeans(u: Unicode, m: string, i: nat, k: nat)
    requires i <= |m|
    ensures Matches(u, HEX, m, i, k) <==> i + 32 <= k && Bounded(u, HexDigit, m, i, k)
  {
    var run := Then(Greedy(HexDigit, 32, None), Boundary);
    if Matches(u, HEX, m, i, k) {
      var b := ThenSplits(u, Boundary, run, m, i, k);
      var e := ThenSplits(u, Greedy(HexDigit, 32, None), Boundary, m, i, k);
      GreedyMatches(u, HexDigit, 32, None, m, i, k);
    }
    if i + 32 <= k && Bounded(u, HexDigit, m, i, k) {
      GreedyMatches(u, HexDigit, 32, None, m, i, k);
      assert Matches(u, Boundary, m, k, k);
      ThenJoins(u, Greedy(HexDigit, 32, None), Boundary, m, i, k, k);
      assert Matches(u, Boundary, m, i, i);
      ThenJoins(u, Boundary, run, m, i, i, k);
    }
  }

  /** `[...]{least,}\b` reports the longest stretch of the class that ends at a word boundary. */
  lemma WholeTakesMost(u: Unicode, s: CharSet, least: nat, m: string, i: nat, k: nat)
    requires i <= |m| && FirstEnd(u, Then(Greedy(s, least, None), Boundary), m, i).Some?
    requires i + least <= k && Bounded(u, s, m, i, k)
    ensures k <= FirstEnd(u, Then(Greedy(s, least, None), Boundary), m, i).value
  {
    var e := ThenGreedyFirst(u, s, least, None, Boundary, m, i);
    GreedyMatches(u, s, least, None, m, i, k);
    assert Ends(u, Boundary, m, k) == [k];
  }

  lemma MixedTakesMost(u: Unicode, m: string, i: nat, k: nat)
    requires i + 40 <= k && Bounded(u, Base64, m, i, k) && NonHexAhead(u, m, i)
    ensures FirstEnd(u, MIXED, m, i).Some? && k <= FirstEnd(u, MIXED, m, i).value
  {
    MixedMeans(u, m, i, k);
    var b := ThenFirst(u, Boundary, Then(LookAhead(NON_HEX_ON_LINE), MIXED_RUN), m, i);
    var c := ThenFirst(u, LookAhead(NON_HEX_ON_LINE), MIXED_RUN, m, i);
    WholeTakesMost(u, Base64, 40, m, i, k);
  }

  lemma HexTakesMost(u: Unicode, m: string, i: nat, k: nat)
    requires i + 32 <= k && Bounded(u, HexDigit, m, i, k)
    ensures FirstEnd(u, HEX, m, i).Some? && k <= FirstEnd(u, HEX, m, i).value
  {
    HexMeans(u, m, i, k);
    var b := ThenFirst(u, Boundary, Then(Greedy(HexDigit, 32, None), Boundary), m, i);
    WholeTakesMost(u, HexDigit, 32, m, i, k);
  }

  /** The text from `i` to `g` spells `w`, case ignored. */
  predicate Spells(w: string, m: string, i: nat, g: nat) {
    i + |w| == g <= |m| && forall j | 0 <= j < |w| :: Folds(w[j], m[i + j])
  }

  predicate KeywordAt(m: string, i: nat, g: nat) {
    Spells(PASSWORD, m, i, g) || Spells(PASSWD, m, i, g) || Spells(PWD, m, i, g) || Spells(PIN, m, i, g)
  }

  lemma {:induction false} LiteralMeans(u: Unicode, w: string, m: string, i: nat, g: nat)
    requires i <= |m| && w != ""
    ensures Matches(u, Literal(w), m, i, g) <==> Spells(w, m, i, g)
    decreases |w|
  {
    if |w| > 1 {
      var first, rest := Char(Letter(w[0])), w[1..];
      assert forall j | 0 <= j < |rest| :: rest[j] == w[j + 1];
      if Matches(u, Literal(w), m, i, g) {
        var e := ThenSplits(u, first, Literal(rest), m, i, g);
        LiteralMeans(u, rest, m, i + 1, g);
        assert forall j | 0 < j < |w| :: m[i + j] == m[i + 1 + (j - 1)] && w[j] == rest[j - 1];
      }
      if Spells(w, m, i, g) {
        assert Folds(w[0], m[i + 0]);
        assert forall j | 0 <= j < |rest| :: Folds(rest[j], m[i + 1 + j]) by {
          forall j | 0 <= j < |rest| ensures Folds(rest[j], m[i + 1 + j]) {
            assert Folds(w[j + 1], m[i + (j + 1)]);
          }
        }
        LiteralMeans(u, rest, m, i + 1, g);
        assert Matches(u, first, m, i, i + 1);
        ThenJoins(u, first, Literal(rest), m, i, i + 1, g);
      }
    }
  }

  lemma KeywordMeans(u: Unicode, m: string, i: nat, g: nat)
    requires i <= |m|
    ensures Matches(u, KEYWORD, m, i, g) <==> KeywordAt(m, i, g)
  {
    LiteralMeans(u, PASSWORD, m, i, g);
    LiteralMeans(u, PASSWD, m, i, g);
    LiteralMeans(u, PWD, m, i, g);
    LiteralMeans(u, PIN, m, i, g);
    OrMatches(u, Literal(PASSWORD), Or(Literal(PASSWD), Or(Literal(PWD), Literal(PIN))), m, i, g);
    OrMatches(u, Literal(PASSWD), Or(Literal(PWD), Literal(PIN)), m, i, g);
    OrMatches(u, Literal(PWD), Literal(PIN), m, i, g);
  }

  /** What follows the keyword: blanks up to `p`, a separator, blanks up to `q`, and the
      value up to `k`, which runs to the next blank or the end of the text. */
  predicate AssignmentShape(u: Unicode, m: string, g: nat, p: nat, q: nat, k: nat) {
    && g <= p < q < k <= |m|
    && All(u, Space, m, g, p) && In(u, ColonOrEquals, m[p])
    && All(u, Space, m, p + 1, q) && All(u, NonSpace, m, q, k)
    && (k < |m| ==> IsSpace(u, m[k]))
  }

  lemma AssignmentHasShape(u: Unicode, m: string, g: nat) returns (p: nat, q: nat, k: nat)
    requires g <= |m| && FirstEnd(u, ASSIGNMENT, m, g).Some?
    ensures FirstEnd(u, ASSIGNMENT, m, g) == Some(k) && AssignmentShape(u, m, g, p, q, k)
  {
    k := FirstEnd(u, ASSIGNMENT, m, g).value;
    p := ThenFirst(u, Greedy(Space, 0, None), Then(Char(ColonOrEquals), VALUE), m, g);
    GreedyMatches(u, Space, 0, None, m, g, p);
    var p' := ThenFirst(u, Char(ColonOrEquals), VALUE, m, p);
    q := ThenFirst(u, Greedy(Space, 0, None), Greedy(NonSpace, 1, None), m, p');
    GreedyMatches(u, Space, 0, None, m, p', q);
    GreedyMatches(u, NonSpace, 1, None, m, q, k);
    GreedyFirst(u, NonSpace, 1, m, q);
  }

  lemma AssignmentShapeMatches(u: Unicode, m: string, g: nat, p: nat, q: nat, k: nat)
    requires AssignmentShape(u, m, g, p, q, k)
    ensures Matches(u, ASSIGNMENT, m, g, k)
  {
    GreedyMatches(u, NonSpace, 1, None, m, q, k);
    GreedyMatches(u, Space, 0, None, m, p + 1, q);
    ThenJoins(u, Greedy(Space, 0, None), Greedy(NonSpace, 1, None), m, p + 1, q, k);
    assert Matches(u, Char(ColonOrEquals), m, p, p + 1);
    ThenJoins(u, Char(ColonOrEquals), VALUE, m, p, p + 1, k);
    GreedyMatches(u, Space, 0, None, m, g, p);
    ThenJoins(u, Greedy(Space, 0, None), Then(Char(ColonOrEquals), VALUE), m, g, p, k);
  }

  /** The shape leaves no choice. */
  lemma AssignmentShapeUnique(u: Unicode, m: string, g: nat, p: nat, q: nat, k: nat, p': nat, q': nat, k': nat)
    requires AssignmentShape(u, m, g, p, q, k) && AssignmentShape(u, m, g, p', q', k')
    ensures p == p' && q == q' && k == k'
  {
    RunLengthStops(u, Space, m, g, p);
    RunLengthStops(u, Space, m, g, p');
    RunLengthStops(u, Space, m, p + 1, q);
    RunLengthStops(u, Space, m, p + 1, q');
    RunLengthStops(u, NonSpace, m, q, k);
    RunLengthStops(u, NonSpace, m, q, k');
  }
}
