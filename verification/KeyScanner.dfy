/** The three key stages of redact_message (src/secure_logging.py:102-110) as plain left-to-right
    scanners: they test characters by their codes, take the longest text of the wanted form, write
    the mask and copy everything else. No pattern and no position in the message appears. */
module KeyScanner {
  import opened Wrappers
  import opened Regex
  import opened Patterns
  import opened Splicing
  import opened Redaction
  import opened SecretMasking

  datatype KeyStage = Padded | Mixed | Hex

  /** Digits, the two ASCII alphabets and the underscore; above ASCII what Unicode says, and the
      three letters that case folding takes to ASCII. */
  predicate IsWordChar(u: Unicode, c: char) {
    var n := c as int;
    if n < 128 then 48 <= n <= 57 || 65 <= n <= 90 || n == 95 || 97 <= n <= 122
    else u(c) == WordChar || n == 304 || n == 305 || n == 383
  }

  /** Characters of a key: hex digits in the last stage, else alphabets, digits, `+` and `/`. */
  predicate IsKeyChar(stage: KeyStage, c: char) {
    var n := c as int;
    48 <= n <= 57 ||
    match stage
    case Hex => 65 <= n <= 70 || 97 <= n <= 102
    case _ => 65 <= n <= 90 || 97 <= n <= 122 || n == 43 || n == 47
  }

  /** Characters of a key that no hex number has. */
  predicate IsNonHex(c: char) {
    var n := c as int;
    71 <= n <= 90 || 103 <= n <= 122 || n == 43 || n == 47
  }

  /** How many characters of a key the text starts with. */
  function Leading(stage: KeyStage, t: string): (n: nat)
    ensures n <= |t|
  {
    if t == "" || !IsKeyChar(stage, t[0]) then 0 else 1 + Leading(stage, t[1..])
  }

  /** The text starts inside a word. */
  predicate StartsWord(u: Unicode, t: string) {
    t != "" && IsWordChar(u, t[0])
  }

  /** One or two `=`, as many as there can be, that no word character follows. */
  function Padding(u: Unicode, t: string): (n: nat)
    ensures n <= 2 && n <= |t|
  {
    if "==" <= t && !StartsWord(u, t[2..]) then 2
    else if "=" <= t && !StartsWord(u, t[1..]) then 1
    else 0
  }

  predicate NonHexOnLine(t: string) {
    t != "" && t[0] as int != 10 && (IsNonHex(t[0]) || NonHexOnLine(t[1..]))
  }

  /** The largest number from `n` down to `least` of characters that end at a word boundary. */
  function LongestWhole(u: Unicode, t: string, n: nat, least: nat): (k: nat)
    requires n <= |t|
    ensures k <= n
  {
    if n < least || n == 0 then 0
    else if IsWordChar(u, t[n - 1]) != StartsWord(u, t[n..]) then n
    else LongestWhole(u, t, n - 1, least)
  }

  function PaddedLength(u: Unicode, t: string): (n: nat)
    ensures n <= |t|
  {
    var n := Leading(Padded, t);
    if n < 40 || Padding(u, t[n..]) == 0 then 0 else n + Padding(u, t[n..])
  }

  function MixedLength(u: Unicode, t: string): (n: nat)
    ensures n <= |t|
  {
    if NonHexOnLine(t) then LongestWhole(u, t, Leading(Mixed, t), 40) else 0
  }

  function HexLength(u: Unicode, t: string): (n: nat)
    ensures n <= |t|
  {
    LongestWhole(u, t, Leading(Hex, t), 32)
  }

  /** The length of the longest key of the stage at the front of the text, or 0. */
  function KeyLength(u: Unicode, stage: KeyStage, t: string): (n: nat)
    ensures n <= |t|
  {
    match stage
    case Padded => PaddedLength(u, t)
    case Mixed => MixedLength(u, t)
    case Hex => HexLength(u, t)
  }

  /** Left to right: where a word starts or ends, `length` characters become the mask; all others
      are copied. `inWord` says whether a word character precedes the text. */
  function MaskLongest(word: Class, length: string -> nat, mask: string, inWord: bool, t: string): string
    decreases |t|
  {
    if t == "" then ""
    else
      var n := length(t);
      if inWord != word(t[0]) && 0 < n <= |t| then mask + MaskLongest(word, length, mask, word(t[n - 1]), t[n..])
      else [t[0]] + MaskLongest(word, length, mask, word(t[0]), t[1..])
  }

  function WordChars(u: Unicode): Class { c => IsWordChar(u, c) }

  function KeyLengths(u: Unicode, stage: KeyStage): string -> nat { t => KeyLength(u, stage, t) }

  /** The scanner of one stage. */
  function MaskedKeys(u: Unicode, stage: KeyStage, mask: string, t: string): string {
    MaskLongest(WordChars(u), KeyLengths(u, stage), mask, false, t)
  }

  // ----- the texts a stage may replace, and which of them it does

  function StageOf(stage: KeyStage): Substitution {
    match stage
    case Padded => PADDED_STAGE
    case Mixed => MIXED_STAGE
    case Hex => HEX_STAGE
  }

  ghost predicate KeyShape(u: Unicode, stage: KeyStage, m: string, i: nat, k: nat) {
    match stage
    case Padded => exists e: nat :: PaddedShape(u, m, i, e, k)
    case Mixed => i + 40 <= k && Bounded(u, Base64, m, i, k) && NonHexAhead(u, m, i)
    case Hex => i + 32 <= k && Bounded(u, HexDigit, m, i, k)
  }

  lemma KeyEditHasShape(u: Unicode, stage: KeyStage, m: string, i: nat)
    requires i < |m| && EditAt(u, StageOf(stage), m, i).Some?
    ensures var e := EditAt(u, StageOf(stage), m, i).value; e.keep == i && KeyShape(u, stage, m, i, e.end)
  {
    var k := EditAt(u, StageOf(stage), m, i).value.end;
    FirstEndMatches(u, StageOf(stage).pattern, m, i);
    match stage
    case Padded => var e := PaddedHasShape(u, m, i, k);
    case Mixed => MixedMeans(u, m, i, k);
    case Hex => HexMeans(u, m, i, k);
  }

  /** What a key stage replaces at `i` is the longest text of its shape there. */
  lemma KeyEditTakesMost(u: Unicode, stage: KeyStage, m: string, i: nat, k: nat)
    requires i < |m| && KeyShape(u, stage, m, i, k)
    ensures EditAt(u, StageOf(stage), m, i).Some? && k <= EditAt(u, StageOf(stage), m, i).value.end
  {
    match stage
    case Padded =>
      var e: nat :| PaddedShape(u, m, i, e, k);
      PaddedTakesMost(u, m, i, e, k);
    case Mixed => MixedTakesMost(u, m, i, k);
    case Hex => HexTakesMost(u, m, i, k);
  }

  // ----- the tests of the scanner, at position `i` of a message

  function SetOf(stage: KeyStage): CharSet {
    if stage == Hex then HexDigit else Base64
  }

  lemma CharTests(u: Unicode, stage: KeyStage, c: char)
    ensures IsWordChar(u, c) <==> IsWord(u, c)
    ensures IsKeyChar(stage, c) <==> In(u, SetOf(stage), c)
    ensures IsNonHex(c) <==> In(u, NonHexBase64, c)
  {
  }

  lemma StartsWordMeans(u: Unicode, m: string, i: nat)
    requires i <= |m|
    ensures StartsWord(u, m[i..]) <==> WordAt(u, m, i)
  {
    if i < |m| {
      CharTests(u, Hex, m[i]);
    }
  }

  lemma {:induction false} LeadingIsRun(u: Unicode, stage: KeyStage, m: string, i: nat)
    requires i <= |m|
    ensures Leading(stage, m[i..]) == RunLength(u, SetOf(stage), m, i)
    decreases |m| - i
  {
    if i < |m| {
      CharTests(u, stage, m[i]);
      LeadingIsRun(u, stage, m, i + 1);
      assert m[i..][1..] == m[i + 1..];
    }
  }

  predicate IsPadding(u: Unicode, m: string, e: nat, k: nat) {
    e < k <= |m| && k <= e + 2 && All(u, EqualsSign, m, e, k) && !WordAt(u, m, k)
  }

  lemma EqualsAhead(u: Unicode, m: string, e: nat)
    requires e <= |m|
    ensures "=" <= m[e..] <==> e + 1 <= |m| && All(u, EqualsSign, m, e, e + 1)
    ensures "==" <= m[e..] <==> e + 2 <= |m| && All(u, EqualsSign, m, e, e + 2)
  {
    if e + 1 <= |m| {
      assert m[e..][0] == m[e];
    }
    if e + 2 <= |m| {
      assert m[e..][1] == m[e + 1];
    }
  }

  lemma PaddingMeans(u: Unicode, m: string, e: nat)
    requires e <= |m|
    ensures Padding(u, m[e..]) > 0 ==> IsPadding(u, m, e, e + Padding(u, m[e..]))
    ensures forall k: nat | IsPadding(u, m, e, k) :: k <= e + Padding(u, m[e..])
  {
    EqualsAhead(u, m, e);
    if e + 1 <= |m| {
      assert m[e..][1..] == m[e + 1..];
      StartsWordMeans(u, m, e + 1);
    }
    if e + 2 <= |m| {
      assert m[e..][2..] == m[e + 2..];
      StartsWordMeans(u, m, e + 2);
    }
    forall k: nat | IsPadding(u, m, e, k) ensures k <= e + Padding(u, m[e..]) {
      assert k == e + 1 || k == e + 2;
    }
  }

  lemma {:induction false} NonHexOnLineMeans(u: Unicode, m: string, i: nat)
    requires i <= |m|
    ensures NonHexOnLine(m[i..]) <==> NonHexAhead(u, m, i)
    decreases |m| - i
  {
    if i < |m| {
      CharTests(u, Hex, m[i]);
      NonHexOnLineMeans(u, m, i + 1);
      assert m[i..][1..] == m[i + 1..];
      NonHexAheadStep(u, m, i);
    }
  }

  lemma NonHexAheadStep(u: Unicode, m: string, i: nat)
    requires i < |m|
    ensures NonHexAhead(u, m, i) <==>
            In(u, NonHexBase64, m[i]) || (In(u, NotNewline, m[i]) && NonHexAhead(u, m, i + 1))
  {
    if j: nat :| i <= j < |m| && All(u, NotNewline, m, i, j) && In(u, NonHexBase64, m[j]) {
      assert j > i ==> In(u, NotNewline, m[i]) && All(u, NotNewline, m, i + 1, j);
    }
    if In(u, NonHexBase64, m[i]) {
      assert All(u, NotNewline, m, i, i);
    } else if In(u, NotNewline, m[i]) && NonHexAhead(u, m, i + 1) {
      var j: nat :| i + 1 <= j < |m| && All(u, NotNewline, m, i + 1, j) && In(u, NonHexBase64, m[j]);
      assert All(u, NotNewline, m, i, j);
    }
  }

  lemma {:induction false} LongestWholeMeans(u: Unicode, m: string, i: nat, n: nat, least: nat)
    requires i <= |m| && n <= |m[i..]| && least > 0
    ensures var k := LongestWhole(u, m[i..], n, least);
            && (k > 0 ==> least <= k && AtBoundary(u, m, i + k))
            && forall j | i + least <= j <= i + n && AtBoundary(u, m, j) :: j <= i + k
    decreases n
  {
    if n >= least {
      var t := m[i..];
      assert t[n..] == m[i + n..] && t[n - 1] == m[i + n - 1];
      CharTests(u, Hex, t[n - 1]);
      StartsWordMeans(u, m, i + n);
      LongestWholeMeans(u, m, i, n - 1, least);
    }
  }

  // ----- the scanner takes what the pattern takes

  lemma PaddedLengthHasShape(u: Unicode, m: string, i: nat)
    requires i <= |m| && AtBoundary(u, m, i) && PaddedLength(u, m[i..]) > 0
    ensures PaddedShape(u, m, i, i + Leading(Padded, m[i..]), i + PaddedLength(u, m[i..]))
  {
    var n := Leading(Padded, m[i..]);
    LeadingIsRun(u, Padded, m, i);
    assert m[i..][n..] == m[i + n..];
    PaddingMeans(u, m, i + n);
  }

  lemma WholeLengthHasShape(u: Unicode, stage: KeyStage, m: string, i: nat, least: nat)
    requires i <= |m| && AtBoundary(u, m, i) && 0 < least
    ensures var k := LongestWhole(u, m[i..], Leading(stage, m[i..]), least);
            k > 0 ==> least <= k && Bounded(u, SetOf(stage), m, i, i + k)
  {
    LeadingIsRun(u, stage, m, i);
    LongestWholeMeans(u, m, i, Leading(stage, m[i..]), least);
  }

  lemma MixedLengthHasShape(u: Unicode, m: string, i: nat)
    requires i <= |m| && AtBoundary(u, m, i) && MixedLength(u, m[i..]) > 0
    ensures KeyShape(u, Mixed, m, i, i + MixedLength(u, m[i..]))
  {
    WholeLengthHasShape(u, Mixed, m, i, 40);
    NonHexOnLineMeans(u, m, i);
  }

  lemma KeyLengthHasShape(u: Unicode, stage: KeyStage, m: string, i: nat)
    requires i <= |m| && AtBoundary(u, m, i) && KeyLength(u, stage, m[i..]) > 0
    ensures KeyShape(u, stage, m, i, i + KeyLength(u, stage, m[i..]))
  {
    match stage
    case Padded => PaddedLengthHasShape(u, m, i);
    case Mixed => MixedLengthHasShape(u, m, i);
    case Hex => WholeLengthHasShape(u, Hex, m, i, 32);
  }

  lemma PaddedLengthIsMost(u: Unicode, m: string, i: nat, e: nat, k: nat)
    requires i <= |m| && PaddedShape(u, m, i, e, k)
    ensures k <= i + PaddedLength(u, m[i..])
  {
    LeadingIsRun(u, Padded, m, i);
    assert In(u, EqualsSign, m[e]);
    RunLengthStops(u, Base64, m, i, e);
    assert m[i..][e - i..] == m[e..];
    PaddingMeans(u, m, e);
    assert IsPadding(u, m, e, k);
  }

  lemma WholeLengthIsMost(u: Unicode, stage: KeyStage, m: string, i: nat, k: nat, least: nat)
    requires i <= |m| && 0 < least && i + least <= k && Bounded(u, SetOf(stage), m, i, k)
    ensures k <= i + LongestWhole(u, m[i..], Leading(stage, m[i..]), least)
  {
    LeadingIsRun(u, stage, m, i);
    RunLengthIsLongest(u, SetOf(stage), m, i, k);
    LongestWholeMeans(u, m, i, Leading(stage, m[i..]), least);
  }

  lemma KeyLengthIsMost(u: Unicode, stage: KeyStage, m: string, i: nat, k: nat)
    requires i <= |m| && KeyShape(u, stage, m, i, k)
    ensures AtBoundary(u, m, i) && i < k <= i + KeyLength(u, stage, m[i..])
  {
    match stage
    case Padded =>
      var e: nat :| PaddedShape(u, m, i, e, k);
      PaddedLengthIsMost(u, m, i, e, k);
    case Mixed =>
      WholeLengthIsMost(u, Mixed, m, i, k, 40);
      NonHexOnLineMeans(u, m, i);
    case Hex =>
      WholeLengthIsMost(u, Hex, m, i, k, 32);
  }

  /** A word character stands before position `i`. */
  predicate InWord(word: Class, m: string, i: nat)
    requires i <= |m|
  {
    i > 0 && word(m[i - 1])
  }

  lemma InWordMeans(u: Unicode, m: string, i: nat)
    requires i < |m|
    ensures AtBoundary(u, m, i) <==> InWord(WordChars(u), m, i) != WordChars(u)(m[i])
  {
    CharTests(u, Hex, m[i]);
    if i > 0 {
      CharTests(u, Hex, m[i - 1]);
    }
  }

  /** The edit the scanner makes at `i`. */
  function ScannerEdit(word: Class, length: string -> nat, mask: string, m: string, i: nat): Option<Edit>
    requires i < |m|
  {
    var n := length(m[i..]);
    if InWord(word, m, i) != word(m[i]) && 0 < n <= |m| - i then Some(Edit(i, i + n, mask)) else None
  }

  lemma {:induction false} SpliceIsMaskLongest(word: Class, length: string -> nat, mask: string,
                                               m: string, edits: Edits, i: nat)
    requires Fits(m, edits) && i <= |m|
    requires forall j | 0 <= j < |m| :: edits[j] == ScannerEdit(word, length, mask, m, j)
    ensures Splice(m, edits, i) == MaskLongest(word, length, mask, InWord(word, m, i), m[i..])
    decreases |m| - i
  {
    if i < |m| {
      if edits[i].Some? {
        SpliceIsMaskLongest(word, length, mask, m, edits, edits[i].value.end);
        KeyStep(word, length, mask, m, edits, i);
      } else {
        SpliceIsMaskLongest(word, length, mask, m, edits, i + 1);
        CopyStep(word, length, mask, m, edits, i);
      }
    }
  }

  lemma KeyStep(word: Class, length: string -> nat, mask: string, m: string, edits: Edits, i: nat)
    requires Fits(m, edits) && i < |m| && edits[i] == ScannerEdit(word, length, mask, m, i) && edits[i].Some?
    requires var k := edits[i].value.end;
             Splice(m, edits, k) == MaskLongest(word, length, mask, InWord(word, m, k), m[k..])
    ensures Splice(m, edits, i) == MaskLongest(word, length, mask, InWord(word, m, i), m[i..])
  {
    var k := edits[i].value.end;
    assert m[i..][k - i - 1] == m[k - 1] && m[i..][k - i..] == m[k..];
    ScanKey(word, length, mask, InWord(word, m, i), m[i..], k - i, InWord(word, m, k), m[k..]);
    assert m[i..i] + mask == mask;
  }

  lemma ScanKey(word: Class, length: string -> nat, mask: string, inWord: bool, t: string,
                n: nat, inWord': bool, rest: string)
    requires t != "" && inWord != word(t[0]) && length(t) == n && 0 < n <= |t|
    requires inWord' == word(t[n - 1]) && rest == t[n..]
    ensures MaskLongest(word, length, mask, inWord, t) == mask + MaskLongest(word, length, mask, inWord', rest)
  {
  }

  lemma CopyStep(word: Class, length: string -> nat, mask: string, m: string, edits: Edits, i: nat)
    requires Fits(m, edits) && i < |m| && edits[i] == ScannerEdit(word, length, mask, m, i) && edits[i].None?
    requires Splice(m, edits, i + 1) == MaskLongest(word, length, mask, InWord(word, m, i + 1), m[i + 1..])
    ensures Splice(m, edits, i) == MaskLongest(word, length, mask, InWord(word, m, i), m[i..])
  {
    assert m[i..][1..] == m[i + 1..];
  }

  function KeyEdit(u: Unicode, stage: KeyStage, m: string, i: nat): Option<Edit>
    requires i < |m|
  {
    var n := KeyLength(u, stage, m[i..]);
    if AtBoundary(u, m, i) && n > 0 then Some(Edit(i, i + n, StageOf(stage).text)) else None
  }

  lemma KeyIsEdited(u: Unicode, stage: KeyStage, m: string, i: nat)
    requires i < |m| && AtBoundary(u, m, i) && KeyLength(u, stage, m[i..]) > 0
    ensures EditAt(u, StageOf(stage), m, i).Some?
    ensures i + KeyLength(u, stage, m[i..]) <= EditAt(u, StageOf(stage), m, i).value.end
  {
    KeyLengthHasShape(u, stage, m, i);
    KeyEditTakesMost(u, stage, m, i, i + KeyLength(u, stage, m[i..]));
  }

  lemma EditIsOfKey(u: Unicode, stage: KeyStage, m: string, i: nat)
    requires i < |m| && EditAt(u, StageOf(stage), m, i).Some?
    ensures AtBoundary(u, m, i) && 0 < KeyLength(u, stage, m[i..])
    ensures var e := EditAt(u, StageOf(stage), m, i).value;
            e.keep == i && e.end <= i + KeyLength(u, stage, m[i..]) && e.text == StageOf(stage).text
  {
    KeyEditHasShape(u, stage, m, i);
    KeyLengthIsMost(u, stage, m, i, EditAt(u, StageOf(stage), m, i).value.end);
    EditText(u, StageOf(stage), m, i);
  }

  /** At every position the regular expression and the scanner agree: on whether there is a key,
      where it ends, and what is written for it. */
  lemma EditIsKeyEdit(u: Unicode, stage: KeyStage, m: string, i: nat)
    requires i < |m|
    ensures EditAt(u, StageOf(stage), m, i) == KeyEdit(u, stage, m, i)
  {
    if EditAt(u, StageOf(stage), m, i).Some? {
      EditIsOfKey(u, stage, m, i);
    }
    if AtBoundary(u, m, i) && KeyLength(u, stage, m[i..]) > 0 {
      KeyIsEdited(u, stage, m, i);
    }
  }

  lemma KeyEditIsScannerEdit(u: Unicode, stage: KeyStage, m: string, i: nat)
    requires i < |m|
    ensures KeyEdit(u, stage, m, i) == ScannerEdit(WordChars(u), KeyLengths(u, stage), StageOf(stage).text, m, i)
  {
    InWordMeans(u, m, i);
  }

  /** Each key stage is its scanner. */
  lemma SubIsMaskedKeys(u: Unicode, stage: KeyStage, m: string)
    ensures Sub(u, StageOf(stage), m) == MaskedKeys(u, stage, StageOf(stage).text, m)
  {
    var mask := StageOf(stage).text;
    forall i | 0 <= i < |m|
      ensures EditAt(u, StageOf(stage), m, i) == ScannerEdit(WordChars(u), KeyLengths(u, stage), mask, m, i)
    {
      EditIsKeyEdit(u, stage, m, i);
      KeyEditIsScannerEdit(u, stage, m, i);
    }
    SpliceIsMaskLongest(WordChars(u), KeyLengths(u, stage), mask, m, Scan(u, StageOf(stage), m), 0);
    assert m[0..] == m;
  }

  /** redact_message without regular expressions: four scanners, one after the other. */
  function Scanned(u: Unicode, m: string): string {
    var m1 := MaskedKeys(u, Padded, "[REDACTED_BASE64]", m);
    var m2 := MaskedKeys(u, Mixed, "[REDACTED_BASE64]", m1);
    Masked(u, MaskedKeys(u, Hex, "[REDACTED_HEX]", m2))
  }

  lemma RedactIsScanned(u: Unicode, m: string)
    ensures RedactMessage(u, m) == Scanned(u, m)
  {
    var m1 := Sub(u, PADDED_STAGE, m);
    var m2 := Sub(u, MIXED_STAGE, m1);
    SubIsMaskedKeys(u, Padded, m);
    SubIsMaskedKeys(u, Mixed, m1);
    SubIsMaskedKeys(u, Hex, m2);
    SubIsMasked(u, MaskKeys(u, m));
  }
}
