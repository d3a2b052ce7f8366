/** What redacting a second time does. Redaction is not idempotent: a mask written by one stage
    can complete the padded pattern, which only the first stage looks for. */
module SecondRedaction {
  import opened Wrappers
  import opened Regex
  import opened Patterns
  import opened Splicing
  import opened Redaction
  import opened SecretMasking

  /** The stage's pattern matches somewhere. */
  predicate Finds(u: Unicode, s: Substitution, m: string) {
    exists i | 0 <= i < |m| :: EditAt(u, s, m, i).Some?
  }

  lemma NoFindNoChange(u: Unicode, s: Substitution, m: string)
    requires s.text != "" && !Finds(u, s, m)
    ensures Sub(u, s, m) == m
  {
    SpliceNothing(m, Scan(u, s, m), 0);
    assert m[0..] == m;
  }

  lemma FindIsEdit(u: Unicode, s: Substitution, m: string)
    requires s.text != ""
    ensures Finds(u, s, m) <==> !NoEditFrom(Scan(u, s, m), 0)
  {
    var edits := Scan(u, s, m);
    if i :| 0 <= i < |m| && EditAt(u, s, m, i).Some? {
      assert edits[i].Some?;
    }
    if j :| 0 <= j < |edits| && edits[j].Some? {
      assert EditAt(u, s, m, j).Some?;
    }
  }

  /** Without bounded key-like runs the second and third stages find nothing, and the converse. */
  lemma NoRunsNoFinds(u: Unicode, m: string)
    ensures NoLongRun(u, Base64, 40, m) && NoLongRun(u, HexDigit, 32, m) <==>
            !Finds(u, MIXED_STAGE, m) && !Finds(u, HEX_STAGE, m)
  {
    if NoLongRun(u, Base64, 40, m) && NoLongRun(u, HexDigit, 32, m) {
      forall i | 0 <= i < |m| ensures EditAt(u, MIXED_STAGE, m, i).None? && EditAt(u, HEX_STAGE, m, i).None? {
        MixedEdit(u, m, i);
        HexEdit(u, m, i);
      }
    }
    if !Finds(u, MIXED_STAGE, m) && !Finds(u, HEX_STAGE, m) {
      forall a: nat, b: nat | a + 32 <= b <= |m| ensures !Bounded(u, HexDigit, m, a, b) {
        HexEdit(u, m, a);
      }
      forall a: nat, b: nat | a + 40 <= b <= |m| ensures !Bounded(u, Base64, m, a, b) {
        if Bounded(u, Base64, m, a, b) {
          UnmatchedRunIsHex(u, m, a, b);
          assert Bounded(u, HexDigit, m, a, b);
        }
      }
    }
  }

  lemma EqualsSwallowed(u: Unicode, m: string, i: nat)
    requires i < |m| && EditAt(u, PADDED_STAGE, m, i).Some?
    ensures var e := EditAt(u, PADDED_STAGE, m, i).value; e.end <= |m| && e.keep < e.end && '=' in m[e.keep..e.end]
  {
    PaddedEdit(u, m, i);
    var e := EditAt(u, PADDED_STAGE, m, i).value;
    assert m[e.keep..e.end][e.end - 1 - e.keep] == '=';
  }

  lemma NoEqualsInBase64Mask()
    ensures '=' !in BASE64_MASK
  {
  }

  lemma NoEqualsInHexMask()
    ensures '=' !in HEX_MASK
  {
  }

  lemma NoEqualsInSecretMask()
    ensures '=' !in SECRET_MASK
  {
  }

  lemma NoEqualsInMasks(s: Substitution)
    requires IsStage(s)
    ensures '=' !in s.text
  {
    NoEqualsInBase64Mask();
    NoEqualsInHexMask();
    NoEqualsInSecretMask();
  }

  /** Masks contain no `=`, so no stage adds one, and the padded stage removes at least one. */
  lemma StageEquals(u: Unicode, s: Substitution, m: string)
    requires IsStage(s)
    ensures Count('=', Sub(u, s, m)) <= Count('=', m)
    ensures s == PADDED_STAGE && Finds(u, s, m) ==> Count('=', Sub(u, s, m)) < Count('=', m)
  {
    assert m[0..] == m;
    NoEqualsInMasks(s);
    ScanInserts(u, s, m);
    if s == PADDED_STAGE {
      forall j | 0 <= j < |m| && EditAt(u, s, m, j).Some?
        ensures var e := EditAt(u, s, m, j).value; e.end <= |m| && e.keep < e.end && '=' in m[e.keep..e.end]
      {
        EqualsSwallowed(u, m, j);
      }
    }
    SpliceCounts('=', m, Scan(u, s, m), 0);
    FindIsEdit(u, s, m);
  }

  lemma PaddedFindChanges(u: Unicode, m: string)
    requires Finds(u, PADDED_STAGE, m)
    ensures Count('=', RedactMessage(u, m)) < Count('=', m)
  {
    var m1 := Sub(u, PADDED_STAGE, m);
    var m2 := Sub(u, MIXED_STAGE, m1);
    StageEquals(u, PADDED_STAGE, m);
    StageEquals(u, MIXED_STAGE, m1);
    StageEquals(u, HEX_STAGE, m2);
    StageEquals(u, SECRET_STAGE, MaskKeys(u, m));
  }

  /** On a redacted message the last three stages change nothing, so redacting it again changes
      it exactly when the padded pattern matches it. */
  lemma RedactTwice(u: Unicode, m: string)
    ensures var out := RedactMessage(u, m);
            && Sub(u, MIXED_STAGE, out) == out && Sub(u, HEX_STAGE, out) == out && Sub(u, SECRET_STAGE, out) == out
            && (RedactMessage(u, out) == out <==> !Finds(u, PADDED_STAGE, out))
  {
    var out := RedactMessage(u, m);
    RedactedHasNoKeys(u, m);
    NoRunsNoFinds(u, out);
    NoFindNoChange(u, MIXED_STAGE, out);
    NoFindNoChange(u, HEX_STAGE, out);
    SubIsMasked(u, MaskKeys(u, m));
    SubIsMasked(u, out);
    MaskedTwice(u, MaskKeys(u, m));
    if Finds(u, PADDED_STAGE, out) {
      PaddedFindChanges(u, out);
    } else {
      NoFindNoChange(u, PADDED_STAGE, out);
    }
  }

  lemma RedactedIsMasked(u: Unicode, m: string)
    ensures AssignmentsMasked(u, RedactMessage(u, m))
  {
    SubIsMasked(u, MaskKeys(u, m));
    MaskedTwice(u, MaskKeys(u, m));
    MaskedLeavesAlone(u, RedactMessage(u, m));
  }

  /** Wherever a redacted text has one of the keywords, in any mix of cases, with a value assigned
      to it, what stands behind the keyword is the mask. */
  lemma RedactedSecrets(u: Unicode, m: string, w: string, i: nat, g: nat, p: nat, q: nat, k: nat)
    requires w == "password" || w == "passwd" || w == "pwd" || w == "pin"
    requires Spells(w, RedactMessage(u, m), i, g) && AssignmentShape(u, RedactMessage(u, m), g, p, q, k)
    ensures RedactMessage(u, m)[g..k] == ": [REDACTED]"
  {
    RedactedIsMasked(u, m);
    MaskedAssignment(u, RedactMessage(u, m), w, i, g, p, q, k);
  }

  lemma MaskedAssignment(u: Unicode, t: string, w: string, i: nat, g: nat, p: nat, q: nat, k: nat)
    requires w == "password" || w == "passwd" || w == "pwd" || w == "pin"
    requires AssignmentsMasked(u, t) && Spells(w, t, i, g) && AssignmentShape(u, t, g, p, q, k)
    ensures t[g..k] == ": [REDACTED]"
  {
    assert SecretShape(u, t, i, g, p, q, k);
  }

  // ----- a message that a second redaction changes

  function Repeat(c: char, n: nat): (s: string)
    ensures |s| == n && forall i | 0 <= i < n :: s[i] == c
  {
    seq(n, _ => c)
  }

  /** 39 letters and a slash, then `=`, then 40 letters: the second stage masks the last 40. */
  predicate IsWitness(m: string) {
    && |m| == 81 && m[39] == '/' && m[40] == '='
    && (forall i | 0 <= i < 39 :: m[i] == 'x') && forall i | 41 <= i < 81 :: m[i] == 'y'
  }

  /** The same text with the last 40 letters masked. */
  predicate IsMaskedWitness(m: string) {
    && |m| == 58 && m[39] == '/' && m[40] == '='
    && (forall i | 0 <= i < 39 :: m[i] == 'x') && m[41..] == BASE64_MASK
  }

  function Witness(): (m: string)
    ensures IsWitness(m)
  {
    Repeat('x', 39) + "/=" + Repeat('y', 40)
  }

  lemma WitnessNotPadded(u: Unicode, m: string)
    requires IsWitness(m)
    ensures !Finds(u, PADDED_STAGE, m)
  {
    assert !In(u, EqualsSign, m[41]) && WordAt(u, m, 41) && !In(u, Base64, m[40]);
    forall i | 0 <= i < |m| ensures EditAt(u, PADDED_STAGE, m, i).None? {
      PaddedEdit(u, m, i);
      if e: nat, k: nat :| PaddedShape(u, m, i, e, k) {
        assert false;
      }
    }
  }

  lemma WitnessMixedAt(u: Unicode, m: string, i: nat)
    requires IsWitness(m) && i <= 41
    ensures EditAt(u, MIXED_STAGE, m, i) == if i == 41 then Some(Edit(41, 81, BASE64_MASK)) else None
  {
    MixedEdit(u, m, i);
    assert !In(u, Base64, m[40]) && !AtBoundary(u, m, 40);
    if i == 41 {
      assert All(u, NotNewline, m, 41, 41) && In(u, NonHexBase64, m[41]);
      assert Bounded(u, Base64, m, 41, 81);
    }
  }

  /** One match from 41 to the end of the text. */
  lemma WitnessSpliced(m: string, edits: Edits, text: string)
    requires |m| == 81 && Fits(m, edits) && edits[41] == Some(Edit(41, 81, text))
    requires forall i | 0 <= i < 41 :: edits[i].None?
    ensures Splice(m, edits, 0) == m[..41] + text
  {
    SpliceSkips(m, edits, 0, 41);
    assert Splice(m, edits, 41) == m[41..41] + text + Splice(m, edits, 81);
  }

  lemma WitnessMasked(m: string, out: string)
    requires IsWitness(m) && out == m[..41] + BASE64_MASK
    ensures IsMaskedWitness(out)
  {
    assert out[41..] == BASE64_MASK;
    assert forall i | 0 <= i < 41 :: out[i] == m[i];
  }

  lemma WitnessMixed(u: Unicode, m: string)
    requires IsWitness(m)
    ensures IsMaskedWitness(Sub(u, MIXED_STAGE, m))
  {
    forall i | 0 <= i <= 41
      ensures EditAt(u, MIXED_STAGE, m, i) == if i == 41 then Some(Edit(41, 81, BASE64_MASK)) else None
    {
      WitnessMixedAt(u, m, i);
    }
    WitnessSpliced(m, Scan(u, MIXED_STAGE, m), BASE64_MASK);
    WitnessMasked(m, Sub(u, MIXED_STAGE, m));
  }

  lemma MaskedWitnessNoHex(u: Unicode, m: string)
    requires IsMaskedWitness(m)
    ensures !Finds(u, HEX_STAGE, m)
  {
    forall i | 0 <= i < |m| ensures EditAt(u, HEX_STAGE, m, i).None? {
      HexEdit(u, m, i);
      assert i <= 26 ==> !In(u, HexDigit, m[i]);
    }
  }

  lemma SecretNeedsP(u: Unicode, m: string)
    requires forall i | 0 <= i < |m| :: !Folds('p', m[i])
    ensures !Finds(u, SECRET_STAGE, m)
  {
    forall i | 0 <= i < |m| ensures EditAt(u, SECRET_STAGE, m, i).None? {
      if EditAt(u, SECRET_STAGE, m, i).Some? {
        var g, p, q, k := SecretHasShape(u, m, i);
        KeywordStartsWithP(m, i, g);
        assert false;
      }
    }
  }

  lemma MaskedWitnessNoSecret(u: Unicode, m: string)
    requires IsMaskedWitness(m)
    ensures !Finds(u, SECRET_STAGE, m)
  {
    forall i | 0 <= i < |m| ensures !Folds('p', m[i]) {
      assert i >= 41 ==> m[i] == m[41..][i - 41];
    }
    SecretNeedsP(u, m);
  }

  lemma KeywordStartsWithP(m: string, i: nat, g: nat)
    requires KeywordAt(m, i, g)
    ensures i < |m| && Folds('p', m[i])
  {
    assert Spells(PASSWORD, m, i, g) ==> Folds(PASSWORD[0], m[i + 0]);
    assert Spells(PASSWD, m, i, g) ==> Folds(PASSWD[0], m[i + 0]);
    assert Spells(PWD, m, i, g) ==> Folds(PWD[0], m[i + 0]);
    assert Spells(PIN, m, i, g) ==> Folds(PIN[0], m[i + 0]);
  }

  lemma MaskedWitnessIsPadded(u: Unicode, m: string)
    requires IsMaskedWitness(m)
    ensures Finds(u, PADDED_STAGE, m)
  {
    assert m[41] == m[41..][0] == '[';
    assert PaddedShape(u, m, 0, 40, 41);
    PaddedEdit(u, m, 0);
  }

  /** redact_message(redact_message(m)) need not be redact_message(m). */
  lemma RedactionIsNotIdempotent(u: Unicode)
    ensures RedactMessage(u, RedactMessage(u, Witness())) != RedactMessage(u, Witness())
  {
    var m := Witness();
    WitnessNotPadded(u, m);
    NoFindNoChange(u, PADDED_STAGE, m);
    WitnessMixed(u, m);
    var out := Sub(u, MIXED_STAGE, m);
    MaskedWitnessNoHex(u, out);
    NoFindNoChange(u, HEX_STAGE, out);
    MaskedWitnessNoSecret(u, out);
    NoFindNoChange(u, SECRET_STAGE, out);
    MaskedWitnessIsPadded(u, out);
    RedactTwice(u, m);
  }
}
