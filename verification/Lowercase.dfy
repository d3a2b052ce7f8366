/** `str.lower` and substring search, as far as check_message_safety uses them, and why masking
    a text cannot make a new ASCII word appear in it. */
module Lowercase {
  import opened Regex
  import opened Splicing

  const KELVIN := '\U{212A}'
  const COMBINING_DOT := '\U{307}'

  /** Only two characters above ASCII have a lower case with ASCII letters in it. The others
      stand for themselves here, which no search for an ASCII word can tell apart. */
  function LowerChar(c: char): (s: string)
    ensures s != ""
  {
    if IsUpper(c) then [(c as int + 32) as char]
    else if c == DOTTED_I then ['i', COMBINING_DOT]
    else if c == KELVIN then "k"
    else [c]
  }

  function Lower(s: string): string {
    if s == "" then "" else LowerChar(s[0]) + Lower(s[1..])
  }

  predicate OccursAt(h: string, w: string, j: nat) {
    j + |w| <= |h| && h[j..j + |w|] == w
  }

  /** `w in h` */
  predicate Contains(h: string, w: string) {
    exists j | 0 <= j <= |h| :: OccursAt(h, w, j)
  }

  lemma {:induction false} LowerConcat(s: string, t: string)
    ensures Lower(s + t) == Lower(s) + Lower(t)
    decreases |s|
  {
    if s == "" {
      assert s + t == t;
    } else {
      assert (s + t)[1..] == s[1..] + t;
      LowerConcat(s[1..], t);
      assert LowerChar(s[0]) + (Lower(s[1..]) + Lower(t)) == Lower(s) + Lower(t);
    }
  }

  lemma LowerSplit(s: string, i: nat, j: nat)
    requires i <= j <= |s|
    ensures Lower(s[i..]) == Lower(s[i..j]) + Lower(s[j..])
  {
    assert s[i..] == s[i..j] + s[j..];
    LowerConcat(s[i..j], s[j..]);
  }

  lemma ContainsInLeft(a: string, b: string, w: string)
    ensures Contains(a, w) ==> Contains(a + b, w)
  {
    if j :| 0 <= j <= |a| && OccursAt(a, w, j) {
      assert (a + b)[j..j + |w|] == a[j..j + |w|];
      assert OccursAt(a + b, w, j);
    }
  }

  lemma ContainsInRight(a: string, b: string, w: string)
    ensures Contains(b, w) ==> Contains(a + b, w)
  {
    if j :| 0 <= j <= |b| && OccursAt(b, w, j) {
      assert (a + b)[|a| + j..|a| + j + |w|] == b[j..j + |w|];
      assert OccursAt(a + b, w, |a| + j);
    }
  }

  /** A word that masks neither contain nor complete: it avoids the characters that frame a
      mask, and its first three letters occur nowhere in the mask. */
  predicate Foreign(w: string, mask: string) {
    && |w| >= 3 && IsAscii(w[0])
    && mask != "" && mask[0] !in w && mask[|mask| - 1] !in w
    && forall j | 0 <= j < |mask| - 2 :: !(mask[j] == w[0] && mask[j + 1] == w[1] && mask[j + 2] == w[2])
  }

  predicate ForeignTo(w: string, edits: Edits) {
    forall i | 0 <= i < |edits| && edits[i].Some? :: Foreign(w, Lower(edits[i].value.text))
  }

  lemma OccursAvoids(h: string, w: string, j: nat, p: nat)
    requires OccursAt(h, w, j) && p < |h| && h[p] !in w
    ensures p < j || j + |w| <= p
  {
    forall q | j <= q < j + |w| ensures h[q] in w {
      assert h[q] == h[j..j + |w|][q - j];
    }
  }

  lemma OccursInMask(left: string, mask: string, right: string, w: string, j: nat)
    requires OccursAt(left + mask + right, w, j) && |left| <= j && j + |w| <= |left| + |mask| && |w| >= 3
    ensures var l := j - |left|; mask[l] == w[0] && mask[l + 1] == w[1] && mask[l + 2] == w[2]
  {
    var h := left + mask + right;
    assert h[j..j + |w|][0] == h[j] && h[j..j + |w|][1] == h[j + 1] && h[j..j + |w|][2] == h[j + 2];
  }

  /** An occurrence in `left + mask + right` that does not start in `right` lies in `left`. */
  lemma OccursBeside(left: string, mask: string, right: string, w: string, j: nat)
    requires Foreign(w, mask) && OccursAt(left + mask + right, w, j) && j < |left + mask|
    ensures OccursAt(left, w, j)
  {
    var h := left + mask + right;
    OccursAvoids(h, w, j, |left|);
    OccursAvoids(h, w, j, |left| + |mask| - 1);
    if j >= |left| {
      OccursInMask(left, mask, right, w, j);
      assert false;
    }
    assert h[j..j + |w|] == left[j..j + |w|];
  }

  // ----- splicing

  lemma LowerSplice(m: string, edits: Edits, i: nat)
    requires Fits(m, edits) && i < |m|
    ensures edits[i].None? ==> Lower(Splice(m, edits, i)) == LowerChar(m[i]) + Lower(Splice(m, edits, i + 1))
    ensures edits[i].Some? ==>
              var e := edits[i].value;
              Lower(Splice(m, edits, i)) == Lower(m[i..e.keep]) + Lower(e.text) + Lower(Splice(m, edits, e.end))
  {
    if edits[i].Some? {
      var e := edits[i].value;
      LowerConcat(m[i..e.keep], e.text);
      LowerConcat(m[i..e.keep] + e.text, Splice(m, edits, e.end));
    } else {
      assert Splice(m, edits, i)[1..] == Splice(m, edits, i + 1);
    }
  }

  lemma LowerStep(m: string, i: nat)
    requires i < |m|
    ensures Lower(m[i..]) == LowerChar(m[i]) + Lower(m[i + 1..])
  {
    assert m[i..][1..] == m[i + 1..];
  }

  /** What the result starts with, if free of mask characters, the text starts with. */
  lemma {:induction false} SplicePrefix(m: string, edits: Edits, i: nat, w: string)
    requires Fits(m, edits) && i <= |m| && w <= Lower(Splice(m, edits, i))
    requires forall j | 0 <= j < |m| && edits[j].Some? ::
               Lower(edits[j].value.text) != "" && Lower(edits[j].value.text)[0] !in w
    ensures w <= Lower(m[i..])
    decreases |m| - i
  {
    if i < |m| {
      LowerSplice(m, edits, i);
      if edits[i].Some? {
        var e := edits[i].value;
        var left, mask, right := Lower(m[i..e.keep]), Lower(e.text), Lower(Splice(m, edits, e.end));
        assert OccursAt(left + mask + right, w, 0);
        OccursAvoids(left + mask + right, w, 0, |left|);
        LowerSplit(m, i, e.keep);
      } else {
        var c := LowerChar(m[i]);
        LowerStep(m, i);
        if |w| > |c| {
          SplicePrefix(m, edits, i + 1, w[|c|..]);
          assert w == c + w[|c|..];
        }
      }
    }
  }

  /** A word foreign to every mask occurs in the lower-cased result only if it occurs in the
      lower-cased text. */
  lemma {:induction false} SpliceKeepsAbsent(m: string, edits: Edits, i: nat, w: string)
    requires Fits(m, edits) && i <= |m| && ForeignTo(w, edits) && |w| >= 3 && IsAscii(w[0])
    requires Contains(Lower(Splice(m, edits, i)), w)
    ensures Contains(Lower(m[i..]), w)
    decreases |m| - i
  {
    var h := Lower(Splice(m, edits, i));
    var j :| 0 <= j <= |h| && OccursAt(h, w, j);
    if edits[i].Some? {
      SpliceKeepsAbsentAtEdit(m, edits, i, w, j);
    } else {
      SpliceKeepsAbsentAtCopy(m, edits, i, w, j);
    }
  }

  lemma {:induction false} SpliceKeepsAbsentAtCopy(m: string, edits: Edits, i: nat, w: string, j: nat)
    requires Fits(m, edits) && i < |m| && edits[i].None? && ForeignTo(w, edits) && |w| >= 3 && IsAscii(w[0])
    requires OccursAt(Lower(Splice(m, edits, i)), w, j)
    ensures Contains(Lower(m[i..]), w)
    decreases |m| - i, 0
  {
    var c, rest := LowerChar(m[i]), Lower(Splice(m, edits, i + 1));
    LowerSplice(m, edits, i);
    LowerStep(m, i);
    if j >= |c| {
      OccursInRight(c, rest, w, j);
      SpliceKeepsAbsent(m, edits, i + 1, w);
      ContainsInRight(c, Lower(m[i + 1..]), w);
    } else {
      OccursAtFront(m[i], rest, w, j);
      SplicePrefix(m, edits, i, w);
      assert OccursAt(Lower(m[i..]), w, 0);
    }
  }

  lemma OccursInRight(left: string, right: string, w: string, j: nat)
    requires OccursAt(left + right, w, j) && j >= |left|
    ensures OccursAt(right, w, j - |left|) && Contains(right, w)
  {
    assert right[j - |left|..j - |left| + |w|] == (left + right)[j..j + |w|];
    assert OccursAt(right, w, j - |left|);
  }

  /** A word that starts with an ASCII letter cannot start with the second half of a lowered
      character. */
  lemma OccursAtFront(c: char, rest: string, w: string, j: nat)
    requires w != "" && IsAscii(w[0]) && OccursAt(LowerChar(c) + rest, w, j) && j < |LowerChar(c)|
    ensures j == 0 && w <= LowerChar(c) + rest
  {
    var h := LowerChar(c) + rest;
    assert h[j] == h[j..j + |w|][0];
  }

  lemma {:induction false} SpliceKeepsAbsentAtEdit(m: string, edits: Edits, i: nat, w: string, j: nat)
    requires Fits(m, edits) && i < |m| && edits[i].Some? && ForeignTo(w, edits) && |w| >= 3 && IsAscii(w[0])
    requires OccursAt(Lower(Splice(m, edits, i)), w, j)
    ensures Contains(Lower(m[i..]), w)
    decreases |m| - i, 0
  {
    var e := edits[i].value;
    var left, mask, right := Lower(m[i..e.keep]), Lower(e.text), Lower(Splice(m, edits, e.end));
    LowerSplice(m, edits, i);
    if j < |left + mask| {
      OccursBeside(left, mask, right, w, j);
      LowerSplit(m, i, e.keep);
      OccursIsContained(left, w, j);
      ContainsInLeft(left, Lower(m[e.keep..]), w);
    } else {
      OccursInRight(left + mask, right, w, j);
      SpliceKeepsAbsent(m, edits, e.end, w);
      LowerSplit(m, i, e.end);
      ContainsInRight(Lower(m[i..e.end]), Lower(m[e.end..]), w);
    }
  }

  lemma OccursIsContained(h: string, w: string, j: nat)
    requires OccursAt(h, w, j)
    ensures Contains(h, w)
  {
  }

  // ----- what a search in the lower case finds in the text itself

  /** The character is `w`, or the capital of a small ASCII letter `w`, or for k the Kelvin sign. */
  predicate SameIgnoringCase(w: char, c: char) {
    c == w || ('a' <= w <= 'z' && c as int == w as int - 32) || (w == 'k' && c as int == 8490)
  }

  /** The text has `w` at `i`, case ignored. */
  predicate SpelledAt(m: string, w: string, i: nat) {
    i + |w| <= |m| && forall j | 0 <= j < |w| :: SameIgnoringCase(w[j], m[i + j])
  }

  /** ASCII without capitals. */
  predicate LowerWord(w: string) {
    forall j | 0 <= j < |w| :: IsAscii(w[j]) && !IsUpper(w[j])
  }

  lemma LowerCharMeans(w: char, c: char)
    requires IsAscii(w) && !IsUpper(w)
    ensures LowerChar(c) == [w] <==> SameIgnoringCase(w, c)
    ensures LowerChar(c)[0] == w && LowerChar(c) != [w] ==> w == 'i' && LowerChar(c) == [w, COMBINING_DOT]
  {
  }

  lemma SpelledTail(m: string, w: string)
    requires w != ""
    ensures SpelledAt(m, w, 0) <==> m != "" && SameIgnoringCase(w[0], m[0]) && SpelledAt(m[1..], w[1..], 0)
  {
    if SpelledAt(m, w, 0) {
      assert SameIgnoringCase(w[0], m[0 + 0]);
      forall j | 0 <= j < |w| - 1 ensures SameIgnoringCase(w[1..][j], m[1..][0 + j]) {
        assert SameIgnoringCase(w[j + 1], m[0 + (j + 1)]);
      }
    }
    if m != "" && SameIgnoringCase(w[0], m[0]) && SpelledAt(m[1..], w[1..], 0) {
      forall j | 0 <= j < |w| ensures SameIgnoringCase(w[j], m[0 + j]) {
        assert j > 0 ==> SameIgnoringCase(w[1..][j - 1], m[1..][0 + (j - 1)]);
      }
    }
  }

  lemma OtherStart(c: char, rest: string, w: string)
    requires LowerWord(w) && w != "" && w[|w| - 1] != 'i' && LowerChar(c) != [w[0]]
    ensures !(w <= LowerChar(c) + rest)
  {
    LowerCharMeans(w[0], c);
    assert w[0] == 'i' ==> |w| > 1 && w[1] != COMBINING_DOT;
  }

  /** A word that does not end in i, where a dotted capital I could leave its dot behind. */
  lemma {:induction false} LowerStartsWith(m: string, w: string)
    requires LowerWord(w) && (w != "" ==> w[|w| - 1] != 'i')
    ensures w <= Lower(m) <==> SpelledAt(m, w, 0)
    decreases |w|
  {
    if w != "" && m != "" {
      LowerCharMeans(w[0], m[0]);
      LowerStartsWith(m[1..], w[1..]);
      SpelledTail(m, w);
      var l := LowerChar(m[0]);
      if l == [w[0]] {
        assert w == l + w[1..];
      } else {
        OtherStart(m[0], Lower(m[1..]), w);
      }
    }
  }

  lemma SpelledShift(m: string, w: string, i: nat)
    requires i <= |m|
    ensures SpelledAt(m, w, i) <==> SpelledAt(m[i..], w, 0)
  {
    if SpelledAt(m, w, i) {
      forall j | 0 <= j < |w| ensures SameIgnoringCase(w[j], m[i..][0 + j]) {
        assert SameIgnoringCase(w[j], m[i + j]);
      }
    }
    if SpelledAt(m[i..], w, 0) {
      forall j | 0 <= j < |w| ensures SameIgnoringCase(w[j], m[i + j]) {
        assert SameIgnoringCase(w[j], m[i..][0 + j]);
      }
    }
  }

  lemma SpelledIsFound(m: string, w: string, i: nat)
    requires LowerWord(w) && w != "" && w[|w| - 1] != 'i' && SpelledAt(m, w, i)
    ensures Contains(Lower(m), w)
  {
    SpelledShift(m, w, i);
    LowerStartsWith(m[i..], w);
    assert OccursAt(Lower(m[i..]), w, 0);
    LowerSplit(m, 0, i);
    assert m[0..] == m;
    ContainsInRight(Lower(m[0..i]), Lower(m[i..]), w);
  }

  lemma {:induction false} OccursIsSpelled(m: string, w: string, j: nat) returns (i: nat)
    requires LowerWord(w) && w != "" && w[|w| - 1] != 'i' && OccursAt(Lower(m), w, j)
    ensures i <= |m| && SpelledAt(m, w, i)
    decreases |m|
  {
    var l := LowerChar(m[0]);
    if j >= |l| {
      OccursInRight(l, Lower(m[1..]), w, j);
      var i' := OccursIsSpelled(m[1..], w, j - |l|);
      SpelledShift(m[1..], w, i');
      assert m[1..][i'..] == m[i' + 1..];
      i := i' + 1;
      SpelledShift(m, w, i);
    } else {
      OccursAtFront(m[0], Lower(m[1..]), w, j);
      LowerStartsWith(m, w);
      i := 0;
    }
  }

  /** `w in m.lower()` for a lower-case ASCII word, without the detour over the lower case. */
  lemma ContainsIsSpelled(m: string, w: string)
    requires LowerWord(w) && w != "" && w[|w| - 1] != 'i'
    ensures Contains(Lower(m), w) <==> exists i | 0 <= i <= |m| :: SpelledAt(m, w, i)
  {
    if j :| 0 <= j <= |Lower(m)| && OccursAt(Lower(m), w, j) {
      var i := OccursIsSpelled(m, w, j);
    }
    if i :| 0 <= i <= |m| && SpelledAt(m, w, i) {
      SpelledIsFound(m, w, i);
    }
  }
}
