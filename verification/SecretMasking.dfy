/** The password stage (src/secure_logging.py:112-115) as a plain left-to-right scanner, and why
    running it twice changes nothing more. */
module SecretMasking {
  import opened Wrappers
  import opened Regex
  import opened Patterns
  import opened Splicing
  import opened Redaction

  /** Blanks by their codes: tab to carriage return, the four separators, the space, and above
      ASCII what Unicode says, except for the three letters of IsExtraLetter. */
  predicate IsBlank(u: Unicode, c: char) {
    var n := c as int;
    if n < 128 then 9 <= n <= 13 || 28 <= n <= 32 else n != 304 && n != 305 && n != 383 && u(c) == SpaceChar
  }

  /** `c` is the small letter `w`, or its capital, or one of the three letters that case folding
      takes to i or s. */
  predicate SameLetter(w: char, c: char) {
    var n := c as int;
    || n == w as int || ('a' <= w <= 'z' && n == w as int - 32)
    || (w == 'i' && (n == 304 || n == 305)) || (w == 's' && n == 383)
  }

  /** The rest of the text, without the blanks, or the other characters, at its front. */
  function Drop(u: Unicode, blanks: bool, t: string): (r: string)
    ensures |r| <= |t|
    ensures r != "" ==> IsBlank(u, r[0]) != blanks
  {
    if t == "" || IsBlank(u, t[0]) != blanks then t else Drop(u, blanks, t[1..])
  }

  /** The text starts with blanks, a separator, blanks and a value. */
  predicate Assigns(u: Unicode, t: string) {
    var r := Drop(u, true, t);
    r != "" && (r[0] == ':' || r[0] == '=') && Drop(u, true, r[1..]) != ""
  }

  function AfterValue(u: Unicode, t: string): (r: string)
    requires Assigns(u, t)
    ensures |r| < |t|
    ensures r != "" ==> IsSpace(u, r[0])
  {
    Drop(u, false, Drop(u, true, Drop(u, true, t)[1..]))
  }

  predicate Begins(u: Unicode, w: string, t: string) {
    if w == "" then Assigns(u, t) else t != "" && SameLetter(w[0], t[0]) && Begins(u, w[1..], t[1..])
  }

  predicate Secret(u: Unicode, t: string) {
    Begins(u, PASSWORD, t) || Begins(u, PASSWD, t) || Begins(u, PWD, t) || Begins(u, PIN, t)
  }

  function KeywordLength(u: Unicode, t: string): (n: nat)
    requires Secret(u, t)
    ensures 3 <= n <= |t| && Assigns(u, t[n..]) && KeywordAt(t, 0, n)
  {
    BeginsMeans(u, PASSWORD, t, 0);
    BeginsMeans(u, PASSWD, t, 0);
    BeginsMeans(u, PWD, t, 0);
    BeginsMeans(u, PIN, t, 0);
    assert t[0..] == t;
    if Begins(u, PASSWORD, t) then 8 else if Begins(u, PASSWD, t) then 6 else 3
  }

  /** The scanner: no pattern matching, no positions. */
  function Masked(u: Unicode, t: string): string
    decreases |t|
  {
    if t == "" then ""
    else if Secret(u, t) then
      var n := KeywordLength(u, t);
      t[..n] + SECRET_MASK + Masked(u, AfterValue(u, t[n..]))
    else [t[0]] + Masked(u, t[1..])
  }

  // ----- the regular expression and the scanner agree

  function BlankSet(blanks: bool): CharSet {
    if blanks then Space else NonSpace
  }

  lemma {:induction false} DropRun(u: Unicode, blanks: bool, t: string, i: nat, p: nat)
    requires i <= p <= |t| && All(u, BlankSet(blanks), t, i, p) && (p < |t| ==> !In(u, BlankSet(blanks), t[p]))
    ensures Drop(u, blanks, t[i..]) == t[p..]
    decreases p - i
  {
    if i < p {
      assert t[i..][1..] == t[i + 1..];
      DropRun(u, blanks, t, i + 1, p);
    }
  }

  lemma DropStops(u: Unicode, blanks: bool, t: string, i: nat) returns (p: nat)
    requires i <= |t|
    ensures i <= p <= |t| && All(u, BlankSet(blanks), t, i, p) && (p < |t| ==> !In(u, BlankSet(blanks), t[p]))
    ensures Drop(u, blanks, t[i..]) == t[p..]
  {
    p := i + RunLength(u, BlankSet(blanks), t, i);
    DropRun(u, blanks, t, i, p);
  }

  lemma ShapeAssigns(u: Unicode, t: string, g: nat, p: nat, q: nat, k: nat)
    requires AssignmentShape(u, t, g, p, q, k)
    ensures Assigns(u, t[g..]) && AfterValue(u, t[g..]) == t[k..]
  {
    DropRun(u, true, t, g, p);
    assert t[p..][1..] == t[p + 1..];
    assert In(u, NonSpace, t[q]);
    DropRun(u, true, t, p + 1, q);
    DropRun(u, false, t, q, k);
  }

  lemma AssignsHasShape(u: Unicode, t: string, g: nat) returns (p: nat, q: nat, k: nat)
    requires g <= |t| && Assigns(u, t[g..])
    ensures AssignmentShape(u, t, g, p, q, k)
  {
    p := DropStops(u, true, t, g);
    assert t[p..][1..] == t[p + 1..];
    q := DropStops(u, true, t, p + 1);
    k := DropStops(u, false, t, q);
    assert In(u, NonSpace, t[q]);
  }

  lemma {:induction false} BeginsMeans(u: Unicode, w: string, t: string, i: nat)
    requires i <= |t|
    ensures Begins(u, w, t[i..]) <==> Spells(w, t, i, i + |w|) && Assigns(u, t[i + |w|..])
    decreases |w|
  {
    if w != "" && i < |t| {
      assert t[i..][1..] == t[i + 1..];
      BeginsMeans(u, w[1..], t, i + 1);
      assert Spells(w, t, i, i + |w|) <==> Folds(w[0], t[i]) && Spells(w[1..], t, i + 1, i + |w|) by {
        if Folds(w[0], t[i]) && Spells(w[1..], t, i + 1, i + |w|) {
          forall j | 0 <= j < |w| ensures Folds(w[j], t[i + j]) {
            assert j > 0 ==> Folds(w[1..][j - 1], t[i + 1 + (j - 1)]);
          }
        }
        if Spells(w, t, i, i + |w|) {
          assert Folds(w[0], t[i + 0]);
          forall j | 0 <= j < |w| - 1 ensures Folds(w[1..][j], t[i + 1 + j]) {
            assert Folds(w[j + 1], t[i + (j + 1)]);
          }
        }
      }
    }
  }

  lemma SecretHits(u: Unicode, t: string, i: nat)
    requires i < |t| && Secret(u, t[i..])
    ensures var n := KeywordLength(u, t[i..]);
            exists k :: i + n < k <= |t| && EditAt(u, SECRET_STAGE, t, i) == Some(Edit(i + n, k, SECRET_MASK)) &&
              AfterValue(u, t[i..][n..]) == t[k..]
  {
    var n := KeywordLength(u, t[i..]);
    KeywordShift(t, i, n);
    assert t[i..][n..] == t[i + n..];
    var p, q, k := AssignsHasShape(u, t, i + n);
    ShapeAssigns(u, t, i + n, p, q, k);
    SecretShapeHits(u, t, i, i + n, p, q, k);
  }

  lemma ShapeIsSecret(u: Unicode, t: string, i: nat, g: nat, p: nat, q: nat, k: nat)
    requires i < |t| && SecretShape(u, t, i, g, p, q, k)
    ensures Secret(u, t[i..])
  {
    BeginsMeans(u, PASSWORD, t, i);
    BeginsMeans(u, PASSWD, t, i);
    BeginsMeans(u, PWD, t, i);
    BeginsMeans(u, PIN, t, i);
    ShapeAssigns(u, t, g, p, q, k);
  }

  lemma SecretMeans(u: Unicode, t: string, i: nat)
    requires i < |t|
    ensures Secret(u, t[i..]) <==> EditAt(u, SECRET_STAGE, t, i).Some?
  {
    if Secret(u, t[i..]) {
      SecretHits(u, t, i);
    }
    if EditAt(u, SECRET_STAGE, t, i).Some? {
      var g, p, q, k := SecretHasShape(u, t, i);
      ShapeIsSecret(u, t, i, g, p, q, k);
    }
  }

  lemma KeywordShift(t: string, i: nat, n: nat)
    requires i <= |t| && KeywordAt(t[i..], 0, n)
    ensures KeywordAt(t, i, i + n)
  {
    assert forall w: string :: Spells(w, t[i..], 0, n) ==> Spells(w, t, i, i + n) by {
      forall w: string | Spells(w, t[i..], 0, n) ensures Spells(w, t, i, i + n) {
        forall j | 0 <= j < |w| ensures Folds(w[j], t[i + j]) {
          assert Folds(w[j], t[i..][0 + j]);
        }
      }
    }
  }

  lemma {:induction false} SpliceIsMasked(u: Unicode, m: string, i: nat)
    requires i <= |m|
    ensures Splice(m, Scan(u, SECRET_STAGE, m), i) == Masked(u, m[i..])
    decreases |m| - i
  {
    if i < |m| {
      SecretMeans(u, m, i);
      var edits := Scan(u, SECRET_STAGE, m);
      if Secret(u, m[i..]) {
        SecretHits(u, m, i);
        var n := KeywordLength(u, m[i..]);
        var k :| i + n < k <= |m| && EditAt(u, SECRET_STAGE, m, i) == Some(Edit(i + n, k, SECRET_MASK)) &&
          AfterValue(u, m[i..][n..]) == m[k..];
        SpliceIsMasked(u, m, k);
        MaskedSecretStep(u, m, edits, i, n, k);
      } else {
        SpliceIsMasked(u, m, i + 1);
        MaskedPlainStep(u, m, edits, i);
      }
    }
  }

  lemma MaskedSecretStep(u: Unicode, m: string, edits: Edits, i: nat, n: nat, k: nat)
    requires Fits(m, edits) && i < |m| && i + n < k <= |m| && edits[i] == Some(Edit(i + n, k, SECRET_MASK))
    requires Secret(u, m[i..]) && n == KeywordLength(u, m[i..]) && AfterValue(u, m[i..][n..]) == m[k..]
    requires Splice(m, edits, k) == Masked(u, m[k..])
    ensures Splice(m, edits, i) == Masked(u, m[i..])
  {
    assert m[i..i + n] == m[i..][..n];
  }

  lemma MaskedPlainStep(u: Unicode, m: string, edits: Edits, i: nat)
    requires Fits(m, edits) && i < |m| && edits[i].None? && !Secret(u, m[i..])
    requires Splice(m, edits, i + 1) == Masked(u, m[i + 1..])
    ensures Splice(m, edits, i) == Masked(u, m[i..])
  {
    assert m[i..][1..] == m[i + 1..];
  }

  /** The last stage of redact_message is the scanner. */
  lemma SubIsMasked(u: Unicode, m: string)
    ensures Sub(u, SECRET_STAGE, m) == Masked(u, m)
  {
    SpliceIsMasked(u, m, 0);
    assert m[0..] == m;
  }

  // ----- masking creates no new secret

  lemma SecretStartsWithLetter(u: Unicode, t: string)
    requires Secret(u, t)
    ensures !IsSpace(u, t[0]) && !In(u, ColonOrEquals, t[0])
  {
    // every keyword starts with a p, and only the two ASCII letters fold to it
    assert Folds('p', t[0]);
  }

  lemma {:induction false} MaskedHasValue(u: Unicode, t: string)
    requires Drop(u, true, Masked(u, t)) != ""
    ensures Drop(u, true, t) != ""
    decreases |t|
  {
    if t != "" && IsSpace(u, t[0]) {
      if Secret(u, t) {
        SecretStartsWithLetter(u, t);
      } else {
        assert Masked(u, t)[1..] == Masked(u, t[1..]);
        MaskedHasValue(u, t[1..]);
      }
    }
  }

  lemma MaskedStart(u: Unicode, t: string)
    ensures t == "" <==> Masked(u, t) == ""
    ensures t != "" ==> Masked(u, t)[0] == t[0]
    ensures Secret(u, t) ==> !Assigns(u, Masked(u, t))
  {
    if Secret(u, t) {
      SecretStartsWithLetter(u, t);
    }
  }

  lemma {:induction false} MaskedAssigns(u: Unicode, t: string)
    requires Assigns(u, Masked(u, t))
    ensures Assigns(u, t)
    decreases |t|
  {
    MaskedStart(u, t);
    assert Masked(u, t)[1..] == Masked(u, t[1..]);
    if IsSpace(u, t[0]) {
      MaskedAssigns(u, t[1..]);
    } else {
      MaskedHasValue(u, t[1..]);
    }
  }

  predicate IsKeywordText(w: string) {
    forall j | 0 <= j < |w| :: IsLower(w[j])
  }

  lemma KeywordTexts()
    ensures IsKeywordText(PASSWORD) && IsKeywordText(PASSWD) && IsKeywordText(PWD) && IsKeywordText(PIN)
  {
  }

  lemma {:induction false} MaskedBegins(u: Unicode, w: string, t: string)
    requires IsKeywordText(w) && Begins(u, w, Masked(u, t))
    ensures Begins(u, w, t)
    decreases |w|
  {
    if w == "" {
      MaskedAssigns(u, t);
    } else if Secret(u, t) {
      MaskedBeginsInSecret(u, w, t);
    } else {
      assert Masked(u, t)[1..] == Masked(u, t[1..]);
      MaskedBegins(u, w[1..], t[1..]);
    }
  }

  /** A keyword that starts where a masked keyword does ends where it does. */
  lemma MaskedBeginsInSecret(u: Unicode, w: string, t: string)
    requires IsKeywordText(w) && w != "" && Secret(u, t) && Begins(u, w, Masked(u, t))
    ensures Begins(u, w, t)
  {
    var n := KeywordLength(u, t);
    var out := Masked(u, t);
    assert out[0..] == out && t[0..] == t;
    BeginsMeans(u, w, out, 0);
    BeginsMeans(u, w, t, 0);
    assert out[n] == ':';
    forall j | 0 <= j < |w| && Spells(w, out, 0, |w|) ensures out[j] != ':' {
      assert IsLower(w[j]) && Folds(w[j], out[0 + j]);
    }
    assert |w| < n ==> out[|w|..][0] == t[|w|];
    KeywordIsLetters(u, t, n, |w|);
    assert forall j | 0 <= j < |w| && Folds(w[j], out[0 + j]) :: Folds(w[j], t[0 + j]);
  }

  lemma KeywordIsLetters(u: Unicode, t: string, n: nat, j: nat)
    requires KeywordAt(t, 0, n)
    ensures j < n ==> !In(u, ColonOrEquals, t[j]) && !IsSpace(u, t[j])
  {
    if j < n {
      var w := if Spells(PASSWORD, t, 0, n) then PASSWORD else if Spells(PASSWD, t, 0, n) then PASSWD
               else if Spells(PWD, t, 0, n) then PWD else PIN;
      assert Folds(w[j], t[0 + j]) && IsLower(w[j]);
    }
  }

  /** A masked secret is a secret again, with the mask as its value. */
  lemma MaskedAgain(u: Unicode, t: string, n: nat, r: string, out: string)
    requires Secret(u, t) && n == KeywordLength(u, t)
    requires out == t[..n] + SECRET_MASK + r && (r != "" ==> IsSpace(u, r[0]))
    ensures Secret(u, out) && KeywordLength(u, out) == n && AfterValue(u, out[n..]) == r
  {
    var k := n + |SECRET_MASK|;
    assert out[n..] == SECRET_MASK + r && out[..n] == t[..n] && out[k..] == r;
    MaskHasShape(u, out, n, r);
    KeywordInPrefix(t, out, n);
    ShapeIsSecret(u, out, 0, n, n, n + 2, k);
    assert out[0..] == out;
    ShapeAssigns(u, out, n, n, n + 2, k);
    KeywordUnique(out, 0, n, KeywordLength(u, out));
  }

  lemma KeywordInPrefix(t: string, out: string, n: nat)
    requires n <= |t| && n <= |out| && t[..n] == out[..n] && KeywordAt(t, 0, n)
    ensures KeywordAt(out, 0, n)
  {
    assert forall w: string :: Spells(w, t, 0, n) ==> Spells(w, out, 0, n) by {
      forall w: string | Spells(w, t, 0, n) ensures Spells(w, out, 0, n) {
        forall j | 0 <= j < |w| ensures Folds(w[j], out[0 + j]) {
          assert Folds(w[j], t[0 + j]) && t[..n][j] == out[..n][j];
        }
      }
    }
  }

  lemma MaskHasShape(u: Unicode, out: string, n: nat, r: string)
    requires n + |SECRET_MASK| <= |out| && out[n..] == SECRET_MASK + r && (r != "" ==> IsSpace(u, r[0]))
    ensures AssignmentShape(u, out, n, n, n + 2, n + |SECRET_MASK|)
  {
    assert forall j | 0 <= j < |SECRET_MASK| :: out[n..][j] == SECRET_MASK[j];
    forall j | n <= j < n + |SECRET_MASK| ensures out[j] == SECRET_MASK[j - n] {
      assert out[j] == out[n..][j - n];
    }
    assert r != "" ==> out[n..][|SECRET_MASK|] == r[0];
  }

  /** Masking a second time changes nothing. */
  lemma {:induction false} MaskedTwice(u: Unicode, t: string)
    ensures Masked(u, Masked(u, t)) == Masked(u, t)
    decreases |t|
  {
    if t != "" {
      if Secret(u, t) {
        var r := AfterValue(u, t[KeywordLength(u, t)..]);
        MaskedTwice(u, r);
        MaskedSecretTwice(u, t, r);
      } else {
        MaskedTwice(u, t[1..]);
        MaskedPlainTwice(u, t);
      }
    }
  }

  lemma MaskedSecretTwice(u: Unicode, t: string, r: string)
    requires t != "" && Secret(u, t) && r == AfterValue(u, t[KeywordLength(u, t)..])
    requires Masked(u, Masked(u, r)) == Masked(u, r)
    ensures Masked(u, Masked(u, t)) == Masked(u, t)
  {
    var n, out := KeywordLength(u, t), Masked(u, t);
    MaskedStart(u, r);
    MaskedAgain(u, t, n, Masked(u, r), out);
    assert out[..n] == t[..n];
  }

  lemma MaskedPlainTwice(u: Unicode, t: string)
    requires t != "" && !Secret(u, t) && Masked(u, Masked(u, t[1..])) == Masked(u, t[1..])
    ensures Masked(u, Masked(u, t)) == Masked(u, t)
  {
    var out := Masked(u, t);
    assert out[1..] == Masked(u, t[1..]);
    KeywordTexts();
    if Begins(u, PASSWORD, out) { MaskedBegins(u, PASSWORD, t); }
    if Begins(u, PASSWD, out) { MaskedBegins(u, PASSWD, t); }
    if Begins(u, PWD, out) { MaskedBegins(u, PWD, t); }
    if Begins(u, PIN, out) { MaskedBegins(u, PIN, t); }
  }

  // ----- when masking changes nothing

  /** The keyword assignment at the front of `t` has the mask for its separator and value. */
  predicate FrontMasked(u: Unicode, t: string) {
    Secret(u, t) ==>
      var n := KeywordLength(u, t);
      t[n..] == SECRET_MASK + AfterValue(u, t[n..])
  }

  predicate AllMasked(u: Unicode, t: string) {
    forall i | 0 <= i < |t| :: FrontMasked(u, t[i..])
  }

  lemma NoPNoSecret(u: Unicode, t: string)
    requires t != "" && !Folds('p', t[0])
    ensures !Secret(u, t)
  {
  }

  /** No letter of a keyword but the first folds to p, so no keyword starts inside another. */
  lemma NoSecretInKeyword(u: Unicode, t: string, n: nat, i: nat)
    requires KeywordAt(t, 0, n) && 0 < i < n
    ensures !Secret(u, t[i..])
  {
    var w := if Spells(PASSWORD, t, 0, n) then PASSWORD else if Spells(PASSWD, t, 0, n) then PASSWD
             else if Spells(PWD, t, 0, n) then PWD else PIN;
    assert Folds(w[i], t[0 + i]);
    NoPNoSecret(u, t[i..]);
  }

  lemma AllMaskedTail(u: Unicode, t: string)
    requires t != ""
    ensures AllMasked(u, t) <==> FrontMasked(u, t) && AllMasked(u, t[1..])
  {
    assert t[0..] == t;
    forall i | 0 <= i < |t| - 1 ensures t[1..][i..] == t[i + 1..] {
    }
    if FrontMasked(u, t) && AllMasked(u, t[1..]) {
      forall i | 0 <= i < |t| ensures FrontMasked(u, t[i..]) {
        if i > 0 {
          assert t[1..][i - 1..] == t[i..];
        }
      }
    }
    if AllMasked(u, t) {
      forall i | 0 <= i < |t| - 1 ensures FrontMasked(u, t[1..][i..]) {
        assert t[1..][i..] == t[i + 1..];
      }
    }
  }

  /** Of a text that starts with a masked secret, only what comes after the mask matters. */
  lemma AllMaskedAfter(u: Unicode, t: string, n: nat, r: string)
    requires Secret(u, t) && n == KeywordLength(u, t) && t[n..] == SECRET_MASK + r && r == AfterValue(u, t[n..])
    ensures AllMasked(u, t) <==> AllMasked(u, r)
  {
    var k := n + |SECRET_MASK|;
    assert r == t[k..];
    assert t[0..] == t;
    forall i | 0 < i < k ensures !Secret(u, t[i..]) {
      if i < n {
        NoSecretInKeyword(u, t, n, i);
      } else {
        NoPInMask(i - n);
        assert t[i] == t[n..][i - n] == SECRET_MASK[i - n];
        NoPNoSecret(u, t[i..]);
      }
    }
    forall i | 0 <= i < |r| ensures r[i..] == t[k + i..] {
    }
    if AllMasked(u, r) {
      forall i | 0 <= i < |t| ensures FrontMasked(u, t[i..]) {
        if i >= k {
          assert t[i..] == r[i - k..];
        }
      }
    }
  }

  lemma NoPInMask(i: nat)
    requires i < |SECRET_MASK|
    ensures !Folds('p', SECRET_MASK[i])
  {
  }

  lemma {:induction false} MaskedFixed(u: Unicode, t: string)
    ensures Masked(u, t) == t <==> AllMasked(u, t)
    decreases |t|
  {
    if t != "" {
      if Secret(u, t) {
        MaskedFixed(u, AfterValue(u, t[KeywordLength(u, t)..]));
        MaskedFixedAtSecret(u, t);
      } else {
        MaskedFixed(u, t[1..]);
        AllMaskedTail(u, t);
        assert Masked(u, t)[1..] == Masked(u, t[1..]);
        assert t == [t[0]] + t[1..];
      }
    }
  }

  lemma MaskedFixedAtSecret(u: Unicode, t: string)
    requires t != "" && Secret(u, t)
    requires var r := AfterValue(u, t[KeywordLength(u, t)..]); Masked(u, r) == r <==> AllMasked(u, r)
    ensures Masked(u, t) == t <==> AllMasked(u, t)
  {
    var n := KeywordLength(u, t);
    var r := AfterValue(u, t[n..]);
    if Masked(u, t) == t {
      MaskedStart(u, r);
      MaskedAgain(u, t, n, Masked(u, r), t);
      SplitsAfterMask(t, n, Masked(u, r));
      AllMaskedAfter(u, t, n, r);
    }
    if AllMasked(u, t) {
      assert t[0..] == t && FrontMasked(u, t[0..]);
      AllMaskedAfter(u, t, n, r);
      JoinsBeforeMask(t, n, r);
    }
  }

  lemma SplitsAfterMask(t: string, n: nat, r: string)
    requires n <= |t| && t == t[..n] + SECRET_MASK + r
    ensures t[n..] == SECRET_MASK + r
  {
  }

  lemma JoinsBeforeMask(t: string, n: nat, r: string)
    requires n <= |t| && t[n..] == SECRET_MASK + r
    ensures t == t[..n] + SECRET_MASK + r
  {
    assert t == t[..n] + t[n..];
  }

  /** Every keyword assignment of the text, wherever it stands, is already masked. */
  predicate AssignmentsMasked(u: Unicode, t: string) {
    forall i, g, p, q, k | 0 <= i <= g <= p < q < k <= |t| && SecretShape(u, t, i, g, p, q, k) ::
      t[g..k] == SECRET_MASK
  }

  lemma FrontMaskedMeans(u: Unicode, t: string, i: nat, g: nat, p: nat, q: nat, k: nat)
    requires i < |t| && SecretShape(u, t, i, g, p, q, k)
    ensures FrontMasked(u, t[i..]) <==> t[g..k] == SECRET_MASK
  {
    ShapeIsSecret(u, t, i, g, p, q, k);
    var n := KeywordLength(u, t[i..]);
    KeywordShift(t, i, n);
    KeywordUnique(t, i, g, i + n);
    assert t[i..][n..] == t[g..];
    ShapeAssigns(u, t, g, p, q, k);
    assert t[g..] == t[g..k] + t[k..];
    if t[g..] == SECRET_MASK + t[k..] {
      assert |t[g..k]| == |SECRET_MASK|;
      assert t[g..k] == t[g..][..k - g] == (SECRET_MASK + t[k..])[..k - g] == SECRET_MASK;
    }
  }

  /** The password stage leaves a text alone exactly when every assignment in it is masked. */
  lemma MaskedLeavesAlone(u: Unicode, t: string)
    ensures Masked(u, t) == t <==> AssignmentsMasked(u, t)
  {
    MaskedFixed(u, t);
    if AllMasked(u, t) {
      forall i, g, p, q, k | 0 <= i <= g <= p < q < k <= |t| && SecretShape(u, t, i, g, p, q, k)
        ensures t[g..k] == SECRET_MASK
      {
        FrontMaskedMeans(u, t, i, g, p, q, k);
      }
    }
    if AssignmentsMasked(u, t) {
      forall i | 0 <= i < |t| ensures FrontMasked(u, t[i..]) {
        if Secret(u, t[i..]) {
          SecretMeans(u, t, i);
          var g, p, q, k := SecretHasShape(u, t, i);
          FrontMaskedMeans(u, t, i, g, p, q, k);
        }
      }
    }
  }
}
