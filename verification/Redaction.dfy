/** redact_message (src/secure_logging.py:84-117): `re.sub` with each of the four patterns in
    turn, and what survives all four stages. */
module Redaction {
  import opened Wrappers
  import opened Regex
  import opened Patterns
  import opened Splicing

  /** A `re.sub` call: a fixed replacement text, or the first group followed by a fixed text. */
  datatype Substitution =
    | Mask(pattern: Regex, text: string)
    | MaskAfter(group: Regex, rest: Regex, text: string)

  const BASE64_MASK := "[REDACTED_BASE64]"
  const HEX_MASK := "[REDACTED_HEX]"
  const SECRET_MASK := ": [REDACTED]"

  const PADDED_STAGE := Mask(PADDED, BASE64_MASK)
  const MIXED_STAGE := Mask(MIXED, BASE64_MASK)
  const HEX_STAGE := Mask(HEX, HEX_MASK)
  const SECRET_STAGE := MaskAfter(KEYWORD, ASSIGNMENT, SECRET_MASK)

  /** Where the group ends in the reported match: the first of its ends that the rest of the
      pattern can be matched from. */
  function GroupEnd(u: Unicode, rest: Regex, m: string, i: nat, starts: seq<nat>): (g: nat)
    requires i <= |m| && Within(starts, i, m) && EndsAfter(u, rest, m, i, starts) != []
    ensures i <= g <= |m| && g in starts
    ensures FirstEnd(u, rest, m, g) == Some(EndsAfter(u, rest, m, i, starts)[0])
    decreases |starts|
  {
    if Ends(u, rest, m, starts[0]) != [] then starts[0] else GroupEnd(u, rest, m, i, starts[1..])
  }

  /** The match that starts at `i`, if any. No pattern used here matches the empty string, so
      the tests against `i` and `g` never fail (PaddedEdit, MixedEdit, HexEdit, SecretHasShape). */
  function EditAt(u: Unicode, s: Substitution, m: string, i: nat): (r: Option<Edit>)
    requires i < |m|
  {
    match s
    case Mask(pattern, text) =>
      var k := FirstEnd(u, pattern, m, i);
      if k.Some? && i < k.value then Some(Edit(i, k.value, text)) else None
    case MaskAfter(group, rest, text) =>
      var k := FirstEnd(u, Then(group, rest), m, i);
      if k.None? then None
      else
        var g := GroupEnd(u, rest, m, i, Ends(u, group, m, i));
        if g < k.value then Some(Edit(g, k.value, text)) else None
  }

  function Scan(u: Unicode, s: Substitution, m: string): (edits: Edits)
    requires s.text != ""
    ensures Fits(m, edits)
    ensures forall i | 0 <= i < |m| :: edits[i] == EditAt(u, s, m, i)
  {
    seq(|m|, i requires 0 <= i < |m| => EditAt(u, s, m, i))
  }

  function Sub(u: Unicode, s: Substitution, m: string): string
    requires s.text != ""
  {
    Splice(m, Scan(u, s, m), 0)
  }

  function MaskKeys(u: Unicode, m: string): string {
    Sub(u, HEX_STAGE, Sub(u, MIXED_STAGE, Sub(u, PADDED_STAGE, m)))
  }

  function RedactMessage(u: Unicode, m: string): string {
    Sub(u, SECRET_STAGE, MaskKeys(u, m))
  }

  // ----- what a match looks like, stage by stage

  lemma EditText(u: Unicode, s: Substitution, m: string, i: nat)
    requires i < |m| && EditAt(u, s, m, i).Some?
    ensures EditAt(u, s, m, i).value.text == s.text
  {
  }

  /** Every edit of the scan inserts the same text. */
  predicate Inserts(edits: Edits, text: string) {
    forall i | 0 <= i < |edits| && edits[i].Some? :: edits[i].value.text == text
  }

  lemma ScanInserts(u: Unicode, s: Substitution, m: string)
    requires s.text != ""
    ensures Inserts(Scan(u, s, m), s.text)
  {
    forall i | 0 <= i < |m| && EditAt(u, s, m, i).Some? ensures EditAt(u, s, m, i).value.text == s.text {
      EditText(u, s, m, i);
    }
  }

  lemma FirstEndMatches(u: Unicode, re: Regex, m: string, i: nat)
    requires i <= |m| && FirstEnd(u, re, m, i).Some?
    ensures Matches(u, re, m, i, FirstEnd(u, re, m, i).value)
  {
  }

  lemma PaddedEdit(u: Unicode, m: string, i: nat)
    requires i < |m|
    ensures EditAt(u, PADDED_STAGE, m, i).Some? <==> exists e: nat, k: nat :: PaddedShape(u, m, i, e, k)
    ensures EditAt(u, PADDED_STAGE, m, i).Some? ==>
              var edit := EditAt(u, PADDED_STAGE, m, i).value;
              edit.keep == i && i + 41 <= edit.end && AtBoundary(u, m, i) &&
              m[edit.end - 1] == '=' && !WordAt(u, m, edit.end)
  {
    if EditAt(u, PADDED_STAGE, m, i).Some? {
      var k := EditAt(u, PADDED_STAGE, m, i).value.end;
      FirstEndMatches(u, PADDED, m, i);
      var e := PaddedHasShape(u, m, i, k);
      assert In(u, EqualsSign, m[k - 1]);
    }
    if e: nat, k: nat :| PaddedShape(u, m, i, e, k) {
      PaddedShapeMatches(u, m, i, e, k);
      FirstEndMatches(u, PADDED, m, i);
      var e' := PaddedHasShape(u, m, i, FirstEnd(u, PADDED, m, i).value);
    }
  }

  lemma MixedEdit(u: Unicode, m: string, i: nat)
    requires i < |m|
    ensures EditAt(u, MIXED_STAGE, m, i).Some? <==>
            exists k: nat :: i + 40 <= k && Bounded(u, Base64, m, i, k) && NonHexAhead(u, m, i)
    ensures EditAt(u, MIXED_STAGE, m, i).Some? ==>
              var edit := EditAt(u, MIXED_STAGE, m, i).value;
              edit.keep == i && i + 40 <= edit.end && Bounded(u, Base64, m, i, edit.end)
  {
    if FirstEnd(u, MIXED, m, i).Some? {
      FirstEndMatches(u, MIXED, m, i);
      MixedMeans(u, m, i, FirstEnd(u, MIXED, m, i).value);
    }
    if k: nat :| i + 40 <= k && Bounded(u, Base64, m, i, k) && NonHexAhead(u, m, i) {
      MixedMeans(u, m, i, k);
    }
  }

  lemma HexEdit(u: Unicode, m: string, i: nat)
    requires i < |m|
    ensures EditAt(u, HEX_STAGE, m, i).Some? <==> exists k: nat :: i + 32 <= k && Bounded(u, HexDigit, m, i, k)
    ensures EditAt(u, HEX_STAGE, m, i).Some? ==>
              var edit := EditAt(u, HEX_STAGE, m, i).value;
              edit.keep == i && i + 32 <= edit.end && Bounded(u, HexDigit, m, i, edit.end)
  {
    if FirstEnd(u, HEX, m, i).Some? {
      FirstEndMatches(u, HEX, m, i);
      HexMeans(u, m, i, FirstEnd(u, HEX, m, i).value);
    }
    if k: nat :| i + 32 <= k && Bounded(u, HexDigit, m, i, k) {
      HexMeans(u, m, i, k);
    }
  }

  /** A keyword up to `g` and an assignment of a value that ends at `k`. */
  predicate SecretShape(u: Unicode, m: string, i: nat, g: nat, p: nat, q: nat, k: nat) {
    KeywordAt(m, i, g) && AssignmentShape(u, m, g, p, q, k)
  }

  lemma KeywordUnique(m: string, i: nat, g: nat, g': nat)
    requires KeywordAt(m, i, g) && KeywordAt(m, i, g')
    ensures g == g'
  {
    // alternatives of different lengths differ in their second or their sixth letter
    assert Spells(PASSWORD, m, i, g) || Spells(PASSWORD, m, i, g') ==>
        Folds(PASSWORD[1], m[i + 1]) && Folds(PASSWORD[5], m[i + 5]);
    assert Spells(PASSWD, m, i, g) || Spells(PASSWD, m, i, g') ==>
        Folds(PASSWD[1], m[i + 1]) && Folds(PASSWD[5], m[i + 5]);
    assert Spells(PWD, m, i, g) || Spells(PWD, m, i, g') ==> Folds(PWD[1], m[i + 1]);
    assert Spells(PIN, m, i, g) || Spells(PIN, m, i, g') ==> Folds(PIN[1], m[i + 1]);
  }

  lemma SecretHasShape(u: Unicode, m: string, i: nat) returns (g: nat, p: nat, q: nat, k: nat)
    requires i < |m| && FirstEnd(u, Then(KEYWORD, ASSIGNMENT), m, i).Some?
    ensures SecretShape(u, m, i, g, p, q, k)
    ensures EditAt(u, SECRET_STAGE, m, i) == Some(Edit(g, k, SECRET_MASK))
  {
    g := GroupEnd(u, ASSIGNMENT, m, i, Ends(u, KEYWORD, m, i));
    KeywordMeans(u, m, i, g);
    p, q, k := AssignmentHasShape(u, m, g);
  }

  lemma SecretShapeHits(u: Unicode, m: string, i: nat, g: nat, p: nat, q: nat, k: nat)
    requires i < |m| && SecretShape(u, m, i, g, p, q, k)
    ensures EditAt(u, SECRET_STAGE, m, i) == Some(Edit(g, k, SECRET_MASK))
  {
    AssignmentShapeMatches(u, m, g, p, q, k);
    KeywordMeans(u, m, i, g);
    ThenJoins(u, KEYWORD, ASSIGNMENT, m, i, g, k);
    var g', p', q', k' := SecretHasShape(u, m, i);
    KeywordUnique(m, i, g, g');
    AssignmentShapeUnique(u, m, g, p, q, k, p', q', k');
  }

  // ----- no stage hides or creates a long key-like run

  function Words(u: Unicode): Class { c => IsWord(u, c) }

  function KeyChars(u: Unicode): Class { c => In(u, Base64, c) }

  lemma IslandsAreBounded(u: Unicode, m: string, a: nat, b: nat)
    ensures Island(Words(u), KeyChars(u), m, a, b) <==> Bounded(u, Base64, m, a, b)
  {
  }

  predicate IsInert(u: Unicode, m: string, i: nat, e: Edit) {
    Inert(Words(u), KeyChars(u), m, i, e)
  }

  lemma MaskIsInert(u: Unicode, m: string, i: nat, e: Edit)
    requires e.keep == i && i < e.end <= |m| && (e.text == BASE64_MASK || e.text == HEX_MASK)
    requires AtBoundary(u, m, i) && (AtBoundary(u, m, e.end) || !WordAt(u, m, e.end))
    ensures IsInert(u, m, i, e)
  {
  }

  lemma SecretIsInert(u: Unicode, m: string, i: nat, g: nat, p: nat, q: nat, k: nat)
    requires SecretShape(u, m, i, g, p, q, k)
    ensures IsInert(u, m, i, Edit(g, k, SECRET_MASK))
  {
    assert In(u, Space, m[g]) || In(u, ColonOrEquals, m[g]) by {
      assert p == g || All(u, Space, m, g, g + 1);
    }
  }

  predicate IsStage(s: Substitution) {
    s == PADDED_STAGE || s == MIXED_STAGE || s == HEX_STAGE || s == SECRET_STAGE
  }

  lemma StageIsInert(u: Unicode, s: Substitution, m: string, i: nat)
    requires IsStage(s) && i < |m| && EditAt(u, s, m, i).Some?
    ensures IsInert(u, m, i, EditAt(u, s, m, i).value)
  {
    var e := EditAt(u, s, m, i).value;
    if s == PADDED_STAGE {
      PaddedEdit(u, m, i);
      MaskIsInert(u, m, i, e);
    } else if s == MIXED_STAGE {
      MixedEdit(u, m, i);
      MaskIsInert(u, m, i, e);
    } else if s == HEX_STAGE {
      HexEdit(u, m, i);
      MaskIsInert(u, m, i, e);
    } else {
      var g, p, q, k := SecretHasShape(u, m, i);
      SecretIsInert(u, m, i, g, p, q, k);
    }
  }

  lemma ScanIsInert(u: Unicode, s: Substitution, m: string)
    requires IsStage(s)
    ensures AllInert(Words(u), KeyChars(u), m, Scan(u, s, m))
  {
    forall i | 0 <= i < |m| && EditAt(u, s, m, i).Some?
      ensures IsInert(u, m, i, EditAt(u, s, m, i).value)
    {
      StageIsInert(u, s, m, i);
    }
  }

  lemma InertKeepsRuns(u: Unicode, m: string, edits: Edits, a: nat, b: nat) returns (o: nat)
    requires AllInert(Words(u), KeyChars(u), m, edits)
    requires a + 32 <= b && Bounded(u, Base64, Splice(m, edits, 0), a, b)
    ensures o + (b - a) <= |m| && m[o..o + (b - a)] == Splice(m, edits, 0)[a..b]
    ensures Bounded(u, Base64, m, o, o + (b - a))
    ensures edits[o].Some? ==> edits[o].value.keep > o
  {
    IslandsAreBounded(u, Splice(m, edits, 0), a, b);
    o := RunOriginInWhole(Words(u), KeyChars(u), m, edits, a, b);
    IslandsAreBounded(u, m, o, o + (b - a));
  }

  /** A long bounded run in the output of a stage stood in its input, and its pattern does not
      match there. */
  lemma StageKeepsRuns(u: Unicode, s: Substitution, m: string, a: nat, b: nat) returns (o: nat)
    requires IsStage(s)
    requires a + 32 <= b && Bounded(u, Base64, Sub(u, s, m), a, b)
    ensures o + (b - a) <= |m| && m[o..o + (b - a)] == Sub(u, s, m)[a..b]
    ensures Bounded(u, Base64, m, o, o + (b - a))
    ensures s.Mask? ==> EditAt(u, s, m, o).None?
  {
    ScanIsInert(u, s, m);
    o := InertKeepsRuns(u, m, Scan(u, s, m), a, b);
  }

  // ----- what survives redaction

  /** No `n` or more characters of the class with a word boundary at both ends. */
  predicate NoLongRun(u: Unicode, s: CharSet, n: nat, m: string) {
    forall a: nat, b: nat | a + n <= b <= |m| :: !Bounded(u, s, m, a, b)
  }

  lemma SameCharacters(u: Unicode, s: CharSet, m: string, o: nat, out: string, a: nat, b: nat)
    requires a <= b <= |out| && o + (b - a) <= |m| && m[o..o + (b - a)] == out[a..b]
    ensures All(u, s, out, a, b) <==> All(u, s, m, o, o + (b - a))
  {
    if All(u, s, out, a, b) {
      forall j | o <= j < o + (b - a) ensures In(u, s, m[j]) {
        assert m[j] == m[o..o + (b - a)][j - o] == out[a..b][j - o] == out[a + (j - o)];
      }
    }
    if All(u, s, m, o, o + (b - a)) {
      forall j | a <= j < b ensures In(u, s, out[j]) {
        assert out[j] == out[a..b][j - a] == m[o..o + (b - a)][j - a] == m[o + (j - a)];
      }
    }
  }

  lemma HexRunsAreBase64Runs(u: Unicode, m: string, a: nat, b: nat)
    requires Bounded(u, HexDigit, m, a, b)
    ensures Bounded(u, Base64, m, a, b)
  {
    forall j | a <= j < b ensures In(u, Base64, m[j]) {
      assert In(u, HexDigit, m[j]);
    }
  }

  /** A bounded base64 run that the second pattern does not match is all hex digits: the run
      itself lies on the line that the look-ahead scans. */
  lemma UnmatchedRunIsHex(u: Unicode, m: string, o: nat, k: nat)
    requires o + 40 <= k && Bounded(u, Base64, m, o, k) && EditAt(u, MIXED_STAGE, m, o).None?
    ensures All(u, HexDigit, m, o, k)
  {
    MixedEdit(u, m, o);
    forall j | o <= j < k ensures In(u, HexDigit, m[j]) {
      assert In(u, Base64, m[j]);
      assert All(u, NotNewline, m, o, j) by {
        forall l | o <= l < j ensures In(u, NotNewline, m[l]) {
          assert In(u, Base64, m[l]);
        }
      }
      assert In(u, NonHexBase64, m[j]) ==> NonHexAhead(u, m, o);
    }
  }

  /** `out` has the characters of `m` from `o` on at `a` up to `b`, a run between word boundaries
      in both. */
  predicate CopiedRun(u: Unicode, m: string, o: nat, out: string, a: nat, b: nat) {
    a <= b <= |out| && o + (b - a) <= |m| && m[o..o + (b - a)] == out[a..b] && Bounded(u, Base64, m, o, o + (b - a))
  }

  /** Every long bounded run of `out` is one of `m`. */
  predicate RunsComeFrom(u: Unicode, m: string, out: string) {
    forall a: nat, b: nat | a + 32 <= b <= |out| && Bounded(u, Base64, out, a, b) ::
      exists o | 0 <= o <= |m| :: CopiedRun(u, m, o, out, a, b)
  }

  lemma StageRunsComeFrom(u: Unicode, s: Substitution, m: string)
    requires IsStage(s)
    ensures RunsComeFrom(u, m, Sub(u, s, m))
  {
    forall a: nat, b: nat | a + 32 <= b <= |Sub(u, s, m)| && Bounded(u, Base64, Sub(u, s, m), a, b)
      ensures exists o | 0 <= o <= |m| :: CopiedRun(u, m, o, Sub(u, s, m), a, b)
    {
      var o := StageKeepsRuns(u, s, m, a, b);
      assert CopiedRun(u, m, o, Sub(u, s, m), a, b);
    }
  }

  /** The long base64 runs of the text are hex runs. */
  predicate OnlyHexRuns(u: Unicode, m: string) {
    forall a: nat, b: nat | a + 40 <= b <= |m| && Bounded(u, Base64, m, a, b) :: Bounded(u, HexDigit, m, a, b)
  }

  lemma MixedRunOrigin(u: Unicode, m: string, out: string, a: nat, b: nat) returns (o: nat)
    requires out == Sub(u, MIXED_STAGE, m) && a + 40 <= b && Bounded(u, Base64, out, a, b)
    ensures o + (b - a) <= |m| && m[o..o + (b - a)] == out[a..b] && All(u, HexDigit, m, o, o + (b - a))
  {
    o := StageKeepsRuns(u, MIXED_STAGE, m, a, b);
    UnmatchedRunIsHex(u, m, o, o + (b - a));
  }

  lemma MixedRunIsHex(u: Unicode, m: string, a: nat, b: nat)
    requires a + 40 <= b && Bounded(u, Base64, Sub(u, MIXED_STAGE, m), a, b)
    ensures Bounded(u, HexDigit, Sub(u, MIXED_STAGE, m), a, b)
  {
    var out := Sub(u, MIXED_STAGE, m);
    var o := MixedRunOrigin(u, m, out, a, b);
    HexIsCopied(u, m, o, out, a, b);
  }

  lemma HexIsCopied(u: Unicode, m: string, o: nat, out: string, a: nat, b: nat)
    requires Bounded(u, Base64, out, a, b) && o + (b - a) <= |m| && m[o..o + (b - a)] == out[a..b]
    requires All(u, HexDigit, m, o, o + (b - a))
    ensures Bounded(u, HexDigit, out, a, b)
  {
    SameCharacters(u, HexDigit, m, o, out, a, b);
  }

  /** The second stage leaves only runs of hex digits, ... */
  lemma MixedLeavesHex(u: Unicode, m: string)
    ensures OnlyHexRuns(u, Sub(u, MIXED_STAGE, m))
  {
    forall a: nat, b: nat | a + 40 <= b <= |Sub(u, MIXED_STAGE, m)| && Bounded(u, Base64, Sub(u, MIXED_STAGE, m), a, b)
      ensures Bounded(u, HexDigit, Sub(u, MIXED_STAGE, m), a, b)
    {
      MixedRunIsHex(u, m, a, b);
    }
  }

  lemma HexRunIsMatched(u: Unicode, m: string, out: string, o: nat, a: nat, b: nat)
    requires a + 32 <= b && Bounded(u, HexDigit, out, a, b) && CopiedRun(u, m, o, out, a, b)
    ensures EditAt(u, HEX_STAGE, m, o).Some?
  {
    SameCharacters(u, HexDigit, m, o, out, a, b);
    assert Bounded(u, HexDigit, m, o, o + (b - a));
    HexEdit(u, m, o);
  }

  /** ... the third stage leaves no hex word, ... */
  lemma HexLeavesNone(u: Unicode, m: string)
    ensures NoLongRun(u, HexDigit, 32, Sub(u, HEX_STAGE, m))
  {
    forall a: nat, b: nat | a + 32 <= b <= |Sub(u, HEX_STAGE, m)|
      ensures !Bounded(u, HexDigit, Sub(u, HEX_STAGE, m), a, b)
    {
      if Bounded(u, HexDigit, Sub(u, HEX_STAGE, m), a, b) {
        HexRunsAreBase64Runs(u, Sub(u, HEX_STAGE, m), a, b);
        var o := StageKeepsRuns(u, HEX_STAGE, m, a, b);
        HexRunIsMatched(u, m, Sub(u, HEX_STAGE, m), o, a, b);
        assert false;
      }
    }
  }

  lemma HexRunStaysHex(u: Unicode, m: string, o: nat, out: string, a: nat, b: nat)
    requires OnlyHexRuns(u, m) && a + 40 <= b && Bounded(u, Base64, out, a, b) && CopiedRun(u, m, o, out, a, b)
    ensures Bounded(u, HexDigit, out, a, b)
  {
    assert Bounded(u, HexDigit, m, o, o + (b - a));
    SameCharacters(u, HexDigit, m, o, out, a, b);
  }

  /** ... and hence none of the runs that the second one left: what its runs come from are hex
      runs, so they are hex runs too, and it has none. */
  lemma HexRunsOnlyAndNone(u: Unicode, m: string, out: string)
    requires OnlyHexRuns(u, m) && RunsComeFrom(u, m, out) && NoLongRun(u, HexDigit, 32, out)
    ensures NoLongRun(u, Base64, 40, out)
  {
    forall a: nat, b: nat | a + 40 <= b <= |out| ensures !Bounded(u, Base64, out, a, b) {
      if Bounded(u, Base64, out, a, b) {
        var o: nat :| o <= |m| && CopiedRun(u, m, o, out, a, b);
        HexRunStaysHex(u, m, o, out, a, b);
        assert false;
      }
    }
  }

  lemma MaskKeysLeavesNoRuns(u: Unicode, m: string)
    ensures NoLongRun(u, Base64, 40, MaskKeys(u, m))
    ensures NoLongRun(u, HexDigit, 32, MaskKeys(u, m))
  {
    var m1 := Sub(u, PADDED_STAGE, m);
    LaterStagesLeaveNoRuns(u, m1, Sub(u, MIXED_STAGE, m1));
  }

  lemma LaterStagesLeaveNoRuns(u: Unicode, m1: string, m2: string)
    requires m2 == Sub(u, MIXED_STAGE, m1)
    ensures NoLongRun(u, Base64, 40, Sub(u, HEX_STAGE, m2)) && NoLongRun(u, HexDigit, 32, Sub(u, HEX_STAGE, m2))
  {
    MixedLeavesHex(u, m1);
    HexLeavesNone(u, m2);
    StageRunsComeFrom(u, HEX_STAGE, m2);
    HexRunsOnlyAndNone(u, m2, Sub(u, HEX_STAGE, m2));
  }

  lemma NoNewRuns(u: Unicode, characters: CharSet, n: nat, m: string, out: string)
    requires n >= 32 && (characters == Base64 || characters == HexDigit)
    requires RunsComeFrom(u, m, out) && NoLongRun(u, characters, n, m)
    ensures NoLongRun(u, characters, n, out)
  {
    forall a: nat, b: nat | a + n <= b <= |out| ensures !Bounded(u, characters, out, a, b) {
      if Bounded(u, characters, out, a, b) {
        if characters == HexDigit {
          HexRunsAreBase64Runs(u, out, a, b);
        }
        var o: nat :| o <= |m| && CopiedRun(u, m, o, out, a, b);
        SameCharacters(u, characters, m, o, out, a, b);
        assert Bounded(u, characters, m, o, o + (b - a));
        assert false;
      }
    }
  }

  /** The output of redact_message contains no bounded run of 40 or more base64 characters and
      no whole word of 32 or more hex digits, whatever the message. */
  lemma RedactedHasNoKeys(u: Unicode, m: string)
    ensures NoLongRun(u, Base64, 40, RedactMessage(u, m))
    ensures NoLongRun(u, HexDigit, 32, RedactMessage(u, m))
  {
    MaskKeysLeavesNoRuns(u, m);
    LastStageLeavesNoRuns(u, MaskKeys(u, m));
  }

  lemma LastStageLeavesNoRuns(u: Unicode, m: string)
    requires NoLongRun(u, Base64, 40, m) && NoLongRun(u, HexDigit, 32, m)
    ensures NoLongRun(u, Base64, 40, Sub(u, SECRET_STAGE, m)) && NoLongRun(u, HexDigit, 32, Sub(u, SECRET_STAGE, m))
  {
    StageRunsComeFrom(u, SECRET_STAGE, m);
    NoNewRuns(u, Base64, 40, m, Sub(u, SECRET_STAGE, m));
    NoNewRuns(u, HexDigit, 32, m, Sub(u, SECRET_STAGE, m));
  }
}
