/** check_message_safety and SecureLogger (src/secure_logging.py:38-53, 120-200). */
module SecureLogging {
  import opened Regex
  import opened Patterns
  import opened Splicing
  import opened Redaction
  import opened SecretMasking
  import opened KeyScanner
  import opened SecondRedaction
  import opened Lowercase

  datatype Sensitivity = PUBLIC | SENSITIVE | REDACTED

  const FORBIDDEN: seq<string> := [
    "private key", "priv_key", "private_key", "password", "passwd", "passphrase", "secret", "pin",
    "token", "key_material", "symmetric_key", "session_key", "master_secret"
  ]

  predicate MentionsForbidden(m: string) {
    exists i | 0 <= i < |FORBIDDEN| :: Contains(Lower(m), FORBIDDEN[i])
  }

  /** The same words once more, one by one. */
  predicate ForbiddenWord(w: string) {
    || w == "private key" || w == "priv_key" || w == "private_key" || w == "password" || w == "passwd"
    || w == "passphrase" || w == "secret" || w == "pin" || w == "token" || w == "key_material"
    || w == "symmetric_key" || w == "session_key" || w == "master_secret"
  }

  lemma ListedWord(i: nat)
    requires i < |FORBIDDEN|
    ensures ForbiddenWord(FORBIDDEN[i])
  {
  }

  lemma WordIsListed(w: string)
    requires ForbiddenWord(w)
    ensures exists i :: 0 <= i < |FORBIDDEN| && FORBIDDEN[i] == w
  {
    var f := FORBIDDEN;
    assert f[0] == "private key" && f[1] == "priv_key" && f[2] == "private_key" && f[3] == "password";
    assert f[4] == "passwd" && f[5] == "passphrase" && f[6] == "secret" && f[7] == "pin" && f[8] == "token";
    assert f[9] == "key_material" && f[10] == "symmetric_key" && f[11] == "session_key" && f[12] == "master_secret";
  }

  ghost predicate HasForbiddenWord(m: string) {
    exists w :: ForbiddenWord(w) && Contains(Lower(m), w)
  }

  lemma MentionsIsHas(m: string)
    ensures MentionsForbidden(m) <==> HasForbiddenWord(m)
  {
    if i :| 0 <= i < |FORBIDDEN| && Contains(Lower(m), FORBIDDEN[i]) {
      ListedWord(i);
    }
    if w :| ForbiddenWord(w) && Contains(Lower(m), w) {
      WordIsListed(w);
    }
  }

  /** `re.search` */
  predicate Searches(u: Unicode, re: Regex, m: string) {
    exists i | 0 <= i <= |m| :: FirstEnd(u, re, m, i).Some?
  }

  function CheckMessageSafety(u: Unicode, m: string): Sensitivity {
    if MentionsForbidden(m) then SENSITIVE
    else if Searches(u, PADDED, m) then REDACTED
    else if Searches(u, MIXED, m) then REDACTED
    else if Searches(u, HEX, m) then REDACTED
    else PUBLIC
  }

  lemma HasOneOf(l: string)
    ensures (exists w :: ForbiddenWord(w) && Contains(l, w)) <==>
            || Contains(l, "private key") || Contains(l, "priv_key") || Contains(l, "private_key")
            || Contains(l, "password") || Contains(l, "passwd") || Contains(l, "passphrase")
            || Contains(l, "secret") || Contains(l, "pin") || Contains(l, "token") || Contains(l, "key_material")
            || Contains(l, "symmetric_key") || Contains(l, "session_key") || Contains(l, "master_secret")
  {
    if w :| ForbiddenWord(w) && Contains(l, w) {
    }
    assert ForbiddenWord("private key") && ForbiddenWord("priv_key") && ForbiddenWord("private_key");
    assert ForbiddenWord("password") && ForbiddenWord("passwd") && ForbiddenWord("passphrase");
    assert ForbiddenWord("secret") && ForbiddenWord("pin") && ForbiddenWord("token");
    assert ForbiddenWord("key_material") && ForbiddenWord("symmetric_key");
    assert ForbiddenWord("session_key") && ForbiddenWord("master_secret");
  }

  /** A message is SENSITIVE exactly when its lower case contains one of these thirteen. */
  lemma SensitiveMeans(u: Unicode, m: string)
    ensures CheckMessageSafety(u, m) == SENSITIVE <==>
            var l := Lower(m);
            || Contains(l, "private key") || Contains(l, "priv_key") || Contains(l, "private_key")
            || Contains(l, "password") || Contains(l, "passwd") || Contains(l, "passphrase")
            || Contains(l, "secret") || Contains(l, "pin") || Contains(l, "token") || Contains(l, "key_material")
            || Contains(l, "symmetric_key") || Contains(l, "session_key") || Contains(l, "master_secret")
  {
    MentionsIsHas(m);
    HasOneOf(Lower(m));
  }

  // ----- the classifier and the first three stages agree

  predicate IsKeyStage(s: Substitution) {
    s == PADDED_STAGE || s == MIXED_STAGE || s == HEX_STAGE
  }

  lemma SearchesIsFinds(u: Unicode, s: Substitution, m: string)
    requires IsKeyStage(s)
    ensures Searches(u, s.pattern, m) <==> Finds(u, s, m)
  {
    if i :| 0 <= i <= |m| && FirstEnd(u, s.pattern, m, i).Some? {
      var k := FirstEnd(u, s.pattern, m, i).value;
      FirstEndMatches(u, s.pattern, m, i);
      if s == PADDED_STAGE {
        var e := PaddedHasShape(u, m, i, k);
      } else if s == MIXED_STAGE {
        MixedMeans(u, m, i, k);
      } else {
        HexMeans(u, m, i, k);
      }
      assert i < k;
      assert EditAt(u, s, m, i).Some?;
    }
    if i :| 0 <= i < |m| && EditAt(u, s, m, i).Some? {
      assert FirstEnd(u, s.pattern, m, i).Some?;
    }
  }

  lemma KeyEditShrinks(u: Unicode, s: Substitution, m: string, i: nat)
    requires IsKeyStage(s) && i < |m| && EditAt(u, s, m, i).Some?
    ensures var e := EditAt(u, s, m, i).value; e.keep + |e.text| < e.end
  {
    PaddedEdit(u, m, i);
    MixedEdit(u, m, i);
    HexEdit(u, m, i);
  }

  lemma KeyStageShrinks(u: Unicode, s: Substitution, m: string)
    requires IsKeyStage(s)
    ensures if Finds(u, s, m) then |Sub(u, s, m)| < |m| else Sub(u, s, m) == m
  {
    forall i | 0 <= i < |m| && EditAt(u, s, m, i).Some?
      ensures var e := EditAt(u, s, m, i).value; e.keep + |e.text| < e.end
    {
      KeyEditShrinks(u, s, m, i);
    }
    SpliceShrinks(m, Scan(u, s, m), 0);
    FindIsEdit(u, s, m);
    if !Finds(u, s, m) {
      NoFindNoChange(u, s, m);
    }
  }

  /** The classifier tests all three patterns on the message, the pipeline each on the result of
      the one before. They still agree: a message without forbidden words is PUBLIC exactly when
      the key stages leave it alone, and REDACTED exactly when they shorten it. */
  lemma ClassifierAgrees(u: Unicode, m: string)
    requires CheckMessageSafety(u, m) != SENSITIVE
    ensures CheckMessageSafety(u, m) == PUBLIC <==> MaskKeys(u, m) == m
    ensures CheckMessageSafety(u, m) == REDACTED <==> |MaskKeys(u, m)| < |m|
  {
    var m1 := Sub(u, PADDED_STAGE, m);
    var m2 := Sub(u, MIXED_STAGE, m1);
    SearchesIsFinds(u, PADDED_STAGE, m);
    SearchesIsFinds(u, MIXED_STAGE, m);
    SearchesIsFinds(u, HEX_STAGE, m);
    KeyStageShrinks(u, PADDED_STAGE, m);
    KeyStageShrinks(u, MIXED_STAGE, m1);
    KeyStageShrinks(u, HEX_STAGE, m2);
  }

  lemma PublicHasNoKeys(u: Unicode, m: string)
    requires CheckMessageSafety(u, m) == PUBLIC
    ensures NoLongRun(u, Base64, 40, m) && NoLongRun(u, HexDigit, 32, m)
  {
    SearchesIsFinds(u, MIXED_STAGE, m);
    SearchesIsFinds(u, HEX_STAGE, m);
    NoRunsNoFinds(u, m);
  }

  // ----- what makes a message REDACTED

  /** A key stands somewhere in the message: 40 or more base64 characters with padding, or bounded
      and with a non-hex character ahead on the line, or a word of 32 or more hex digits. */
  ghost predicate KeyLike(u: Unicode, m: string) {
    exists stage: KeyStage, i: nat, k: nat :: KeyShape(u, stage, m, i, k)
  }

  lemma FindsIsShape(u: Unicode, stage: KeyStage, m: string)
    ensures Finds(u, StageOf(stage), m) <==> exists i: nat, k: nat :: KeyShape(u, stage, m, i, k)
  {
    if i :| 0 <= i < |m| && EditAt(u, StageOf(stage), m, i).Some? {
      KeyEditHasShape(u, stage, m, i);
    }
    if i: nat, k: nat :| KeyShape(u, stage, m, i, k) {
      KeyShapeIsInside(u, stage, m, i, k);
      KeyEditTakesMost(u, stage, m, i, k);
    }
  }

  lemma KeyShapeIsInside(u: Unicode, stage: KeyStage, m: string, i: nat, k: nat)
    requires KeyShape(u, stage, m, i, k)
    ensures i < k <= |m|
  {
    if stage == Padded {
      var e: nat :| PaddedShape(u, m, i, e, k);
    }
  }

  lemma KeyLikeIsFinds(u: Unicode, m: string)
    ensures KeyLike(u, m) <==> Finds(u, PADDED_STAGE, m) || Finds(u, MIXED_STAGE, m) || Finds(u, HEX_STAGE, m)
  {
    FindsIsShape(u, Padded, m);
    FindsIsShape(u, Mixed, m);
    FindsIsShape(u, Hex, m);
  }

  /** The classifier, in terms of the message alone. */
  lemma ClassifierMeans(u: Unicode, m: string)
    ensures CheckMessageSafety(u, m) == SENSITIVE <==> HasForbiddenWord(m)
    ensures CheckMessageSafety(u, m) == REDACTED <==> !HasForbiddenWord(m) && KeyLike(u, m)
    ensures CheckMessageSafety(u, m) == PUBLIC <==> !HasForbiddenWord(m) && !KeyLike(u, m)
  {
    MentionsIsHas(m);
    KeyLikeIsFinds(u, m);
    SearchesIsFinds(u, PADDED_STAGE, m);
    SearchesIsFinds(u, MIXED_STAGE, m);
    SearchesIsFinds(u, HEX_STAGE, m);
  }

  // ----- redaction brings in no forbidden word

  /** The forbidden words, and the one keyword that is redacted without being forbidden. */
  predicate Guarded(w: string) {
    w == PWD || exists i | 0 <= i < |FORBIDDEN| :: w == FORBIDDEN[i]
  }

  /** What sets every guarded word apart from the masks. */
  predicate StandsApart(w: string) {
    && |w| >= 3 && (forall i | 0 <= i < |w| :: IsLower(w[i]) || w[i] == '_' || w[i] == ' ')
    && (w[0] in "pkm" || (w[0] == 's' && w[2] != '6') || (w[0] == 't' && w[1] == 'o'))
  }

  lemma KeyWordsStandApart()
    ensures StandsApart("private key") && StandsApart("priv_key") && StandsApart("private_key")
    ensures StandsApart("key_material")
  {
  }

  lemma SessionWordsStandApart()
    ensures StandsApart("symmetric_key") && StandsApart("session_key") && StandsApart("master_secret")
  {
  }

  lemma PasswordWordsStandApart()
    ensures StandsApart("password") && StandsApart("passwd") && StandsApart("passphrase") && StandsApart(PWD)
  {
  }

  lemma GuardedStandsApart(w: string)
    requires Guarded(w)
    ensures StandsApart(w)
  {
    KeyWordsStandApart();
    SessionWordsStandApart();
    PasswordWordsStandApart();
    assert StandsApart("secret") && StandsApart("pin") && StandsApart("token");
  }

  lemma {:induction false} LowerAscii(s: string)
    requires forall i | 0 <= i < |s| :: IsAscii(s[i])
    ensures |Lower(s)| == |s| && forall i | 0 <= i < |s| :: Lower(s)[i] == LowerChar(s[i])[0]
    decreases |s|
  {
    if s != "" {
      LowerAscii(s[1..]);
    }
  }

  /** The characters of the masks: no P, K or M among them. */
  predicate MaskChar(c: char) {
    || c == '[' || c == ']' || c == ':' || c == ' ' || c == '_' || IsDigit(c)
    || 'A' <= c <= 'E' || c == 'H' || 'R' <= c <= 'T' || c == 'X'
  }

  /** T stands only before E, and S only two places before 6. */
  predicate IsMaskText(t: string) {
    && |t| >= 3 && (t[0] == '[' || t[0] == ':') && t[|t| - 1] == ']'
    && (forall i | 0 <= i < |t| :: MaskChar(t[i]))
    && (forall i | 0 <= i < |t| - 2 :: (t[i] == 'T' ==> t[i + 1] == 'E') && (t[i] == 'S' ==> t[i + 2] == '6'))
  }

  lemma Base64MaskText()
    ensures IsMaskText(BASE64_MASK)
  {
  }

  lemma HexMaskText()
    ensures IsMaskText(HEX_MASK)
  {
  }

  lemma SecretMaskText()
    ensures IsMaskText(SECRET_MASK)
  {
  }

  lemma MasksAreMaskText(s: Substitution)
    requires IsStage(s)
    ensures IsMaskText(s.text)
  {
    Base64MaskText();
    HexMaskText();
    SecretMaskText();
  }

  lemma GuardedIsForeign(w: string, t: string)
    requires Guarded(w) && IsMaskText(t)
    ensures Foreign(w, Lower(t))
  {
    GuardedStandsApart(w);
    LowerAscii(t);
    forall j | 0 <= j < |t| - 2
      ensures !(Lower(t)[j] == w[0] && Lower(t)[j + 1] == w[1] && Lower(t)[j + 2] == w[2])
    {
      NoGuardedStart(w, t, j);
    }
    assert '[' !in w && ':' !in w && ']' !in w;
  }

  lemma NoGuardedStart(w: string, t: string, j: nat)
    requires StandsApart(w) && IsMaskText(t) && j < |t| - 2
    requires |Lower(t)| == |t| && forall i | 0 <= i < |t| :: Lower(t)[i] == LowerChar(t[i])[0]
    ensures !(Lower(t)[j] == w[0] && Lower(t)[j + 1] == w[1] && Lower(t)[j + 2] == w[2])
  {
    assert MaskChar(t[j]) && MaskChar(t[j + 1]) && MaskChar(t[j + 2]);
  }

  lemma SpliceBringsNoWord(m: string, edits: Edits, text: string, w: string)
    requires Fits(m, edits) && Inserts(edits, text) && IsMaskText(text) && Guarded(w)
    requires Contains(Lower(Splice(m, edits, 0)), w)
    ensures Contains(Lower(m), w)
  {
    GuardedIsForeign(w, text);
    SpliceKeepsAbsent(m, edits, 0, w);
    assert m[0..] == m;
  }

  lemma StageBringsNoWord(u: Unicode, s: Substitution, m: string, w: string)
    requires IsStage(s) && Guarded(w) && Contains(Lower(Sub(u, s, m)), w)
    ensures Contains(Lower(m), w)
  {
    MasksAreMaskText(s);
    ScanInserts(u, s, m);
    SpliceBringsNoWord(m, Scan(u, s, m), s.text, w);
  }

  lemma MaskKeysBringsNoWord(u: Unicode, m: string, w: string)
    requires Guarded(w) && Contains(Lower(MaskKeys(u, m)), w)
    ensures Contains(Lower(m), w)
  {
    var m1 := Sub(u, PADDED_STAGE, m);
    var m2 := Sub(u, MIXED_STAGE, m1);
    StageBringsNoWord(u, HEX_STAGE, m2, w);
    StageBringsNoWord(u, MIXED_STAGE, m1, w);
    StageBringsNoWord(u, PADDED_STAGE, m, w);
  }

  /** A message without forbidden words has none after redaction either. */
  lemma RedactionBringsNoForbidden(u: Unicode, m: string)
    requires !MentionsForbidden(m)
    ensures !MentionsForbidden(RedactMessage(u, m))
  {
    if i :| 0 <= i < |FORBIDDEN| && Contains(Lower(RedactMessage(u, m)), FORBIDDEN[i]) {
      StageBringsNoWord(u, SECRET_STAGE, MaskKeys(u, m), FORBIDDEN[i]);
      MaskKeysBringsNoWord(u, m, FORBIDDEN[i]);
    }
  }

  // ----- ASCII messages without `pwd`

  predicate AsciiText(m: string) {
    forall i | 0 <= i < |m| :: IsAscii(m[i])
  }

  lemma {:induction false} SpliceKeepsAscii(m: string, edits: Edits, i: nat, text: string)
    requires Fits(m, edits) && i <= |m| && AsciiText(m) && Inserts(edits, text) && AsciiText(text)
    ensures AsciiText(Splice(m, edits, i))
    decreases |m| - i
  {
    if i < |m| {
      SpliceKeepsAscii(m, edits, if edits[i].Some? then edits[i].value.end else i + 1, text);
    }
  }

  lemma StageKeepsAscii(u: Unicode, s: Substitution, m: string)
    requires IsStage(s) && AsciiText(m)
    ensures AsciiText(Sub(u, s, m))
  {
    MasksAreMaskText(s);
    ScanInserts(u, s, m);
    SpliceKeepsAscii(m, Scan(u, s, m), 0, s.text);
  }

  /** In ASCII text a keyword the pattern matches, case ignored, is one the classifier finds. */
  lemma SpelledIsContained(m: string, w: string, i: nat, g: nat)
    requires AsciiText(m) && Spells(w, m, i, g) && forall j | 0 <= j < |w| :: IsAscii(w[j]) && !IsUpper(w[j])
    ensures Contains(Lower(m), w)
  {
    LowerAscii(m);
    forall j | 0 <= j < |w| ensures Lower(m)[i + j] == w[j] {
      assert Folds(w[j], m[i + j]) && IsAscii(m[i + j]);
    }
    assert OccursAt(Lower(m), w, i);
  }

  predicate NoKeyword(m: string) {
    !Contains(Lower(m), PASSWORD) && !Contains(Lower(m), PASSWD) && !Contains(Lower(m), PWD) && !Contains(Lower(m), PIN)
  }

  lemma KeywordIsContained(m: string, i: nat, g: nat)
    requires AsciiText(m) && KeywordAt(m, i, g)
    ensures !NoKeyword(m)
  {
    var w := if Spells(PASSWORD, m, i, g) then PASSWORD else if Spells(PASSWD, m, i, g) then PASSWD
             else if Spells(PWD, m, i, g) then PWD else PIN;
    SpelledIsContained(m, w, i, g);
  }

  lemma NoWordNoSecret(u: Unicode, m: string)
    requires AsciiText(m) && NoKeyword(m)
    ensures !Finds(u, SECRET_STAGE, m)
  {
    forall i | 0 <= i < |m| ensures EditAt(u, SECRET_STAGE, m, i).None? {
      if EditAt(u, SECRET_STAGE, m, i).Some? {
        var g, p, q, k := SecretHasShape(u, m, i);
        KeywordIsContained(m, i, g);
        assert false;
      }
    }
  }

  lemma KeywordsAreGuarded()
    ensures Guarded(PASSWORD) && Guarded(PASSWD) && Guarded(PWD) && Guarded(PIN)
    ensures forall m :: !MentionsForbidden(m) && !Contains(Lower(m), PWD) ==> NoKeyword(m)
  {
    assert FORBIDDEN[3] == PASSWORD && FORBIDDEN[4] == PASSWD && FORBIDDEN[7] == PIN;
  }

  lemma MaskKeysBringsNoKeyword(u: Unicode, m: string)
    requires NoKeyword(m)
    ensures NoKeyword(MaskKeys(u, m))
  {
    KeywordsAreGuarded();
    if Contains(Lower(MaskKeys(u, m)), PASSWORD) { MaskKeysBringsNoWord(u, m, PASSWORD); }
    if Contains(Lower(MaskKeys(u, m)), PASSWD) { MaskKeysBringsNoWord(u, m, PASSWD); }
    if Contains(Lower(MaskKeys(u, m)), PWD) { MaskKeysBringsNoWord(u, m, PWD); }
    if Contains(Lower(MaskKeys(u, m)), PIN) { MaskKeysBringsNoWord(u, m, PIN); }
  }

  lemma MaskKeysKeepsAscii(u: Unicode, m: string)
    requires AsciiText(m)
    ensures AsciiText(MaskKeys(u, m))
  {
    var m1 := Sub(u, PADDED_STAGE, m);
    StageKeepsAscii(u, PADDED_STAGE, m);
    StageKeepsAscii(u, MIXED_STAGE, m1);
    StageKeepsAscii(u, HEX_STAGE, Sub(u, MIXED_STAGE, m1));
  }

  /** For ASCII messages without `pwd`, PUBLIC ones are left alone by the whole pipeline and
      REDACTED ones get strictly shorter. */
  lemma AsciiAgreement(u: Unicode, m: string)
    requires AsciiText(m) && !Contains(Lower(m), PWD)
    ensures CheckMessageSafety(u, m) == PUBLIC ==> RedactMessage(u, m) == m
    ensures CheckMessageSafety(u, m) == REDACTED ==> |RedactMessage(u, m)| < |m|
  {
    if CheckMessageSafety(u, m) != SENSITIVE {
      KeywordsAreGuarded();
      assert NoKeyword(m);
      MaskKeysKeepsAscii(u, m);
      MaskKeysBringsNoKeyword(u, m);
      NoWordNoSecret(u, MaskKeys(u, m));
      NoFindNoChange(u, SECRET_STAGE, MaskKeys(u, m));
      ClassifierAgrees(u, m);
    }
  }

  // ----- PUBLIC messages that redaction changes

  lemma PublicIsOnlyMasked(u: Unicode, m: string)
    requires CheckMessageSafety(u, m) == PUBLIC
    ensures RedactMessage(u, m) == Masked(u, m)
  {
    ClassifierAgrees(u, m);
    SubIsMasked(u, m);
  }

  /** PUBLIC does not mean that redact_message leaves the message alone: it does exactly when
      every keyword assignment in the message is written as the mask already. */
  lemma PublicIsLeftAlone(u: Unicode, m: string)
    requires CheckMessageSafety(u, m) == PUBLIC
    ensures RedactMessage(u, m) == m <==> AssignmentsMasked(u, m)
  {
    PublicIsOnlyMasked(u, m);
    MaskedLeavesAlone(u, m);
  }

  function PwdMessage(): (m: string)
    ensures IsPwdMessage(m)
  {
    "pwd=x"
  }

  predicate IsPwdMessage(m: string) {
    |m| == 5 && m[0] == 'p' && m[1] == 'w' && m[2] == 'd' && m[3] == '=' && m[4] == 'x'
  }

  /** No forbidden word has one of these five characters in second place. */
  predicate OddSecond(w: string) {
    |w| >= 2 && w[1] != 'p' && w[1] != 'w' && w[1] != 'd' && w[1] != '=' && w[1] != 'x'
  }

  lemma SecondOccurs(h: string, w: string, j: nat)
    requires OccursAt(h, w, j) && |w| >= 2
    ensures j + 1 < |h| && h[j + 1] == w[1]
  {
    assert h[j..j + |w|][1] == h[j + 1];
  }

  lemma ForbiddenSeconds()
    ensures forall i | 0 <= i < |FORBIDDEN| :: OddSecond(FORBIDDEN[i])
  {
  }

  lemma PwdMessageIsPublic(u: Unicode, m: string)
    requires IsPwdMessage(m)
    ensures CheckMessageSafety(u, m) == PUBLIC
  {
    LowerAscii(m);
    ForbiddenSeconds();
    forall i | 0 <= i < |FORBIDDEN| ensures !Contains(Lower(m), FORBIDDEN[i]) {
      var w := FORBIDDEN[i];
      if j :| 0 <= j <= |Lower(m)| && OccursAt(Lower(m), w, j) {
        SecondOccurs(Lower(m), w, j);
        assert false;
      }
    }
    NoRunsNoFinds(u, m);
    SearchesIsFinds(u, PADDED_STAGE, m);
    SearchesIsFinds(u, MIXED_STAGE, m);
    SearchesIsFinds(u, HEX_STAGE, m);
    forall i | 0 <= i < |m| ensures EditAt(u, PADDED_STAGE, m, i).None? {
      PaddedEdit(u, m, i);
    }
  }

  /** `pwd=x` is PUBLIC, and becomes `pwd: [REDACTED]`. */
  lemma PublicCanChange(u: Unicode, m: string)
    requires IsPwdMessage(m)
    ensures CheckMessageSafety(u, m) == PUBLIC
    ensures RedactMessage(u, m) == m[..3] + ": [REDACTED]" && RedactMessage(u, m) != m
  {
    PwdMessageIsPublic(u, m);
    PublicIsOnlyMasked(u, m);
    PwdMessageIsMasked(u, m);
  }

  lemma PwdChanges(u: Unicode)
    ensures CheckMessageSafety(u, PwdMessage()) == PUBLIC && RedactMessage(u, PwdMessage()) != PwdMessage()
  {
    PublicCanChange(u, PwdMessage());
  }

  lemma PwdMessageIsMasked(u: Unicode, m: string)
    requires IsPwdMessage(m)
    ensures Masked(u, m) == m[..3] + SECRET_MASK
  {
    assert AssignmentShape(u, m, 3, 3, 4, 5);
    assert Spells(PWD, m, 0, 3);
    ShapeIsSecret(u, m, 0, 3, 3, 4, 5);
    assert m[0..] == m && m[5..] == "";
    KeywordUnique(m, 0, 3, KeywordLength(u, m));
    ShapeAssigns(u, m, 3, 3, 4, 5);
  }

  // ----- the logger

  datatype Outcome =
    | Logged(message: string)
    | Dropped
    | ValueError(text: string)

  function Excerpt(m: string): string {
    (if |m| <= 50 then m else m[..50]) + "..."
  }

  /** What SecureLogger does with one call. */
  function Decide(u: Unicode, autoRedact: bool, strict: bool, message: string, sensitive: bool): Outcome {
    if sensitive then
      if strict then ValueError("Attempt to log sensitive data: " + Excerpt(message)) else Dropped
    else if !autoRedact then Logged(message)
    else match CheckMessageSafety(u, message)
      case SENSITIVE =>
        if strict then ValueError("Potentially sensitive data detected: " + Excerpt(message)) else Dropped
      case REDACTED => Logged(RedactMessage(u, message))
      case PUBLIC => Logged(message)
  }

  /** Nothing the classifier or the key patterns object to. */
  ghost predicate Clean(u: Unicode, m: string) {
    && (forall w | ForbiddenWord(w) :: !Contains(Lower(m), w))
    && NoLongRun(u, Base64, 40, m) && NoLongRun(u, HexDigit, 32, m)
  }

  lemma LoggedIsClean(u: Unicode, strict: bool, message: string, sensitive: bool)
    ensures var r := Decide(u, true, strict, message, sensitive);
            r.Logged? ==> Clean(u, r.message)
    ensures Decide(u, true, strict, message, sensitive).Logged? <==> !sensitive && !HasForbiddenWord(message)
  {
    MentionsIsHas(message);
    if CheckMessageSafety(u, message) == REDACTED {
      RedactedHasNoKeys(u, message);
      RedactionBringsNoForbidden(u, message);
      MentionsIsHas(RedactMessage(u, message));
    } else if CheckMessageSafety(u, message) == PUBLIC {
      PublicHasNoKeys(u, message);
    }
  }

  lemma ForbiddenIsLowerWord(w: string)
    requires ForbiddenWord(w)
    ensures LowerWord(w) && w != "" && w[|w| - 1] != 'i'
  {
    WordIsListed(w);
    assert Guarded(w);
    GuardedStandsApart(w);
    ForbiddenLast(w);
  }

  lemma ForbiddenLast(w: string)
    requires ForbiddenWord(w)
    ensures w != "" && w[|w| - 1] != 'i'
  {
  }

  /** The message has one of the thirteen words in it, in any mix of cases. */
  ghost predicate SpellsForbidden(m: string) {
    exists w, i: nat :: ForbiddenWord(w) && SpelledAt(m, w, i)
  }

  lemma HasIsSpells(m: string)
    ensures HasForbiddenWord(m) <==> SpellsForbidden(m)
  {
    if w :| ForbiddenWord(w) && Contains(Lower(m), w) {
      ForbiddenIsLowerWord(w);
      ContainsIsSpelled(m, w);
    }
    if w, i: nat :| ForbiddenWord(w) && SpelledAt(m, w, i) {
      ForbiddenIsLowerWord(w);
      ContainsIsSpelled(m, w);
    }
  }

  /** With auto_redact on, a message is delivered, whole or redacted, exactly if the caller does not
      call it sensitive and none of the words is in it, in any mix of cases. */
  lemma SpelledIsNotLogged(u: Unicode, strict: bool, message: string, sensitive: bool)
    ensures Decide(u, true, strict, message, sensitive).Logged? <==> !sensitive && !SpellsForbidden(message)
  {
    HasIsSpells(message);
    LoggedIsClean(u, strict, message, sensitive);
  }

  /** The text of the exception that strict mode raises. */
  predicate IsComplaint(text: string, message: string, sensitive: bool) {
    text == (if sensitive then "Attempt to log sensitive data: " else "Potentially sensitive data detected: ") +
              (if |message| <= 50 then message else message[..50]) + "..."
  }

  lemma DecideMeans(u: Unicode, autoRedact: bool, strict: bool, message: string, sensitive: bool, r: Outcome)
    requires r == Decide(u, autoRedact, strict, message, sensitive)
    ensures r.ValueError? <==> strict && (sensitive || (autoRedact && HasForbiddenWord(message)))
    ensures r.Dropped? <==> !strict && (sensitive || (autoRedact && HasForbiddenWord(message)))
    ensures !sensitive && !autoRedact ==> r == Logged(message)
    ensures !sensitive && !HasForbiddenWord(message) && !KeyLike(u, message) ==> r == Logged(message)
    ensures !sensitive && autoRedact && !HasForbiddenWord(message) && KeyLike(u, message) ==>
              r == Logged(RedactMessage(u, message))
  {
    ClassifierMeans(u, message);
  }

  lemma DecideComplains(u: Unicode, autoRedact: bool, strict: bool, message: string, sensitive: bool, r: Outcome)
    requires r == Decide(u, autoRedact, strict, message, sensitive)
    ensures r.ValueError? ==> IsComplaint(r.text, message, sensitive)
  {
    if r.ValueError? {
      var prefix := if sensitive then "Attempt to log sensitive data: " else "Potentially sensitive data detected: ";
      var front := if |message| <= 50 then message else message[..50];
      assert r.text == prefix + (front + "...");
    }
  }

  datatype Record = Record(level: int, message: string)

  /** The wrapped `logging.Logger`, as the list of what reaches it. */
  class BaseLogger {
    var records: seq<Record>

    constructor ()
      ensures records == []
    {
      records := [];
    }

    method Log(level: int, message: string)
      modifies this
      ensures records == old(records) + [Record(level, message)]
    {
      records := records + [Record(level, message)];
    }
  }

  datatype Call = Call(level: int, message: string, sensitive: bool)

  /** What one call hands to the wrapped logger. */
  function Handed(level: int, r: Outcome): seq<Record> {
    if r.Logged? then [Record(level, r.message)] else []
  }

  /** What a sequence of calls hands to the wrapped logger. */
  function Delivered(u: Unicode, autoRedact: bool, strict: bool, calls: seq<Call>): seq<Record> {
    if calls == [] then []
    else
      var last := calls[|calls| - 1];
      Delivered(u, autoRedact, strict, calls[..|calls| - 1]) +
        Handed(last.level, Decide(u, autoRedact, strict, last.message, last.sensitive))
  }

  /** With auto_redact on, everything that any sequence of calls delivers is clean. */
  lemma {:induction false} DeliveredIsClean(u: Unicode, strict: bool, calls: seq<Call>)
    ensures forall i | 0 <= i < |Delivered(u, true, strict, calls)| ::
              Clean(u, Delivered(u, true, strict, calls)[i].message)
    decreases |calls|
  {
    if calls != [] {
      var last := calls[|calls| - 1];
      DeliveredIsClean(u, strict, calls[..|calls| - 1]);
      LoggedIsClean(u, strict, last.message, last.sensitive);
    }
  }

  /** The wrapper. The wrapped logger may hold other records, and others may write to it. */
  class SecureLogger {
    const unicode: Unicode
    const logger: BaseLogger
    const autoRedact: bool
    const strict: bool
    ghost var calls: seq<Call>
    ghost var handed: seq<Record>   // the records that went through this wrapper

    ghost predicate Valid()
      reads this
    {
      handed == Delivered(unicode, autoRedact, strict, calls)
    }

    constructor (u: Unicode, logger: BaseLogger, autoRedact: bool, strict: bool)
      ensures Valid() && calls == [] && handed == []
      ensures this.unicode == u && this.logger == logger && this.autoRedact == autoRedact && this.strict == strict
    {
      this.unicode, this.logger, this.autoRedact, this.strict := u, logger, autoRedact, strict;
      this.calls, this.handed := [], [];
    }

    method LogMessage(level: int, message: string, sensitive: bool) returns (r: Outcome)
      requires Valid()
      modifies this, logger
      ensures Valid() && calls == old(calls) + [Call(level, message, sensitive)]
      ensures r.ValueError? <==> strict && (sensitive || (autoRedact && HasForbiddenWord(message)))
      ensures r.Dropped? <==> !strict && (sensitive || (autoRedact && HasForbiddenWord(message)))
      ensures !sensitive && !autoRedact ==> r == Logged(message)
      ensures !sensitive && !HasForbiddenWord(message) && !KeyLike(unicode, message) ==> r == Logged(message)
      ensures !sensitive && autoRedact && !HasForbiddenWord(message) && KeyLike(unicode, message) ==>
                r == Logged(RedactMessage(unicode, message))
      ensures r.ValueError? ==> IsComplaint(r.text, message, sensitive)
      ensures r.Logged? ==> logger.records == old(logger.records) + [Record(level, r.message)]
      ensures !r.Logged? ==> logger.records == old(logger.records)
      ensures handed == old(handed) + Handed(level, r)
      ensures autoRedact ==> forall i | 0 <= i < |handed| :: Clean(unicode, handed[i].message)
    {
      calls := calls + [Call(level, message, sensitive)];
      assert calls[..|calls| - 1] == old(calls);
      r := Filter(message, sensitive);
      DecideMeans(unicode, autoRedact, strict, message, sensitive, r);
      DecideComplains(unicode, autoRedact, strict, message, sensitive, r);
      if r.Logged? {
        logger.Log(level, r.message);
      }
      handed := handed + Handed(level, r);
      if autoRedact {
        DeliveredIsClean(unicode, strict, calls);
      }
    }

    /** The branches of _log before the message reaches the wrapped logger. */
    method Filter(message: string, sensitive: bool) returns (r: Outcome)
      ensures r == Decide(unicode, autoRedact, strict, message, sensitive)
    {
      if sensitive {
        if strict {
          return ValueError("Attempt to log sensitive data: " + Excerpt(message));
        }
        return Dropped;
      }
      var delivered := message;
      if autoRedact {
        var sensitivity := CheckMessageSafety(unicode, message);
        if sensitivity == SENSITIVE {
          if strict {
            return ValueError("Potentially sensitive data detected: " + Excerpt(message));
          }
          return Dropped;
        }
        if sensitivity == REDACTED {
          delivered := RedactMessage(unicode, message);
        }
      }
      r := Logged(delivered);
    }
  }
}
