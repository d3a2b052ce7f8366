/** The text-building half of `re.sub`: given, for every position, the match that starts there
    and what replaces it, build the result. Everything here is about texts; no pattern appears. */
module Splicing {
  import opened Wrappers

  /** A match and its replacement: the text up to `keep` stays (the group `\1`, empty for the
      plain masks), the text from there to `end` becomes `text`. */
  datatype Edit = Edit(keep: nat, end: nat, text: string)

  /** The match, if any, that starts at each position. */
  type Edits = seq<Option<Edit>>

  predicate Fits(m: string, edits: Edits) {
    && |edits| == |m|
    && forall i | 0 <= i < |m| && edits[i].Some? ::
         i <= edits[i].value.keep < edits[i].value.end <= |m| && edits[i].value.text != ""
  }

  function Inserted(m: string, edits: Edits, i: nat): string
    requires Fits(m, edits) && i < |m| && edits[i].Some?
  {
    m[i..edits[i].value.keep] + edits[i].value.text
  }

  /** Leftmost matches, none of them overlapping, from position `i` on. */
  function Splice(m: string, edits: Edits, i: nat): string
    requires Fits(m, edits) && i <= |m|
    decreases |m| - i
  {
    if i == |m| then ""
    else if edits[i].Some? then Inserted(m, edits, i) + Splice(m, edits, edits[i].value.end)
    else [m[i]] + Splice(m, edits, i + 1)
  }

  predicate NoEditFrom(edits: Edits, i: nat) {
    forall j | i <= j < |edits| :: edits[j].None?
  }

  lemma {:induction false} SpliceNothing(m: string, edits: Edits, i: nat)
    requires Fits(m, edits) && i <= |m| && NoEditFrom(edits, i)
    ensures Splice(m, edits, i) == m[i..]
    decreases |m| - i
  {
    if i < |m| {
      SpliceNothing(m, edits, i + 1);
    }
  }

  /** The text before the first match is copied. */
  lemma {:induction false} SpliceSkips(m: string, edits: Edits, i: nat, j: nat)
    requires Fits(m, edits) && i <= j <= |m|
    requires forall l | i <= l < j :: edits[l].None?
    ensures Splice(m, edits, i) == m[i..j] + Splice(m, edits, j)
    decreases j - i
  {
    if i < j {
      assert edits[i].None?;
      SpliceSkips(m, edits, i + 1, j);
      Prepend(m, i, j, Splice(m, edits, j));
    }
  }

  lemma Prepend(m: string, i: nat, j: nat, rest: string)
    requires i < j <= |m|
    ensures [m[i]] + (m[i + 1..j] + rest) == m[i..j] + rest
  {
    assert [m[i]] + m[i + 1..j] == m[i..j];
  }

  // ----- sizes

  predicate AllShrink(m: string, edits: Edits) {
    Fits(m, edits) && forall i | 0 <= i < |m| && edits[i].Some? ::
      edits[i].value.keep + |edits[i].value.text| < edits[i].value.end
  }

  lemma {:induction false} SpliceShrinks(m: string, edits: Edits, i: nat)
    requires AllShrink(m, edits) && i <= |m|
    ensures |Splice(m, edits, i)| <= |m| - i
    ensures !NoEditFrom(edits, i) ==> |Splice(m, edits, i)| < |m| - i
    decreases |m| - i
  {
    if i < |m| {
      SpliceShrinks(m, edits, if edits[i].Some? then edits[i].value.end else i + 1);
    }
  }

  function Count(c: char, s: string): nat {
    if s == "" then 0 else (if s[0] == c then 1 else 0) + Count(c, s[1..])
  }

  lemma {:induction false} CountSum(c: char, s: string, t: string)
    ensures Count(c, s + t) == Count(c, s) + Count(c, t)
    decreases |s|
  {
    if s == "" {
      assert s + t == t;
    } else {
      assert (s + t)[1..] == s[1..] + t;
      CountSum(c, s[1..], t);
    }
  }

  lemma {:induction false} CountAbsent(c: char, s: string)
    ensures Count(c, s) == 0 <==> c !in s
    decreases |s|
  {
    if s != "" {
      CountAbsent(c, s[1..]);
    }
  }

  lemma CountCut(c: char, s: string, i: nat, j: nat)
    requires i <= j <= |s|
    ensures Count(c, s[i..]) == Count(c, s[i..j]) + Count(c, s[j..])
  {
    CountSum(c, s[i..j], s[j..]);
    assert s[i..] == s[i..j] + s[j..];
  }

  /** Replacements without `c` never add one; if each also swallows one, the first match
      already makes the count smaller. */
  lemma {:induction false} SpliceCounts(c: char, m: string, edits: Edits, i: nat)
    requires Fits(m, edits) && i <= |m|
    requires forall j | 0 <= j < |m| && edits[j].Some? :: c !in edits[j].value.text
    ensures Count(c, Splice(m, edits, i)) <= Count(c, m[i..])
    ensures !NoEditFrom(edits, i) &&
            (forall j | 0 <= j < |m| && edits[j].Some? :: c in m[edits[j].value.keep..edits[j].value.end]) ==>
              Count(c, Splice(m, edits, i)) < Count(c, m[i..])
    decreases |m| - i
  {
    if i < |m| {
      if edits[i].Some? {
        var e := edits[i].value;
        SpliceCounts(c, m, edits, e.end);
        CountSum(c, m[i..e.keep] + e.text, Splice(m, edits, e.end));
        CountSum(c, m[i..e.keep], e.text);
        CountAbsent(c, e.text);
        CountAbsent(c, m[e.keep..e.end]);
        CountCut(c, m, i, e.keep);
        CountCut(c, m, e.keep, e.end);
      } else {
        SpliceCounts(c, m, edits, i + 1);
        CountSum(c, [m[i]], Splice(m, edits, i + 1));
        CountCut(c, m, i, i + 1);
        assert m[i..i + 1] == [m[i]];
      }
    }
  }

  // ----- key-like runs in the result come from the text

  /** A set of characters: word characters, key characters. */
  type Class = char -> bool

  /** A word boundary, for any notion of word character. */
  predicate Edge(word: Class, m: string, i: nat)
    requires i <= |m|
  {
    (i > 0 && word(m[i - 1])) != (i < |m| && word(m[i]))
  }

  predicate Stretch(key: Class, m: string, i: nat, k: nat)
    requires i <= k <= |m|
  {
    forall j | i <= j < k :: key(m[j])
  }

  predicate Island(word: Class, key: Class, m: string, i: nat, k: nat) {
    i <= k <= |m| && Stretch(key, m, i, k) && Edge(word, m, i) && Edge(word, m, k)
  }

  /** A replacement that can neither hide nor create a long run of key characters: it is
      short, framed by characters outside both classes, and the word boundaries at its seams
      are boundaries of the text. */
  predicate Inert(word: Class, key: Class, m: string, i: nat, e: Edit) {
    && i <= e.keep < e.end <= |m| && e.text != "" && e.keep - i + |e.text| < 32
    && !key(e.text[0]) && !word(e.text[0])
    && !key(e.text[|e.text| - 1]) && !word(e.text[|e.text| - 1])
    && (if e.keep == i then Edge(word, m, i) else !word(m[e.keep]))
    && (e.end < |m| && key(m[e.end]) && word(m[e.end]) ==> Edge(word, m, e.end))
  }

  predicate AllInert(word: Class, key: Class, m: string, edits: Edits) {
    Fits(m, edits) && forall i | 0 <= i < |m| && edits[i].Some? :: Inert(word, key, m, i, edits[i].value)
  }

  lemma SpliceStarts(word: Class, key: Class, m: string, edits: Edits, i: nat)
    requires AllInert(word, key, m, edits) && i <= |m|
    ensures Splice(m, edits, i) == "" <==> i == |m|
    ensures i < |m| ==>
              if edits[i].Some? && edits[i].value.keep == i
              then Edge(word, m, i) && Splice(m, edits, i)[0] == edits[i].value.text[0]
              else Splice(m, edits, i)[0] == m[i]
  {
    if i < |m| && edits[i].Some? {
      assert Inert(word, key, m, i, edits[i].value);
    }
  }

  lemma SeamShift(word: Class, key: Class, head: string, rest: string, a: nat, b: nat)
    requires a <= b <= |rest|
    ensures 0 < a ==> Edge(word, head + rest, |head| + a) == Edge(word, rest, a)
    ensures 0 < b ==> Edge(word, head + rest, |head| + b) == Edge(word, rest, b)
    ensures Stretch(key, head + rest, |head| + a, |head| + b) ==> Stretch(key, rest, a, b)
    ensures (head + rest)[|head| + a..|head| + b] == rest[a..b]
  {
    assert forall j | 0 <= j < |rest| :: rest[j] == (head + rest)[|head| + j];
  }

  lemma IslandShift(word: Class, key: Class, head: string, rest: string, a: nat, b: nat)
    requires |head| < a < b && Island(word, key, head + rest, a, b)
    ensures Island(word, key, rest, a - |head|, b - |head|)
    ensures (head + rest)[a..b] == rest[a - |head|..b - |head|]
  {
    SeamShift(word, key, head, rest, a - |head|, b - |head|);
  }

  lemma StopsBefore(key: Class, m: string, i: nat, k: nat, j: nat)
    requires i <= k <= |m| && Stretch(key, m, i, k) && i <= j < |m| && !key(m[j])
    ensures k <= j
  {
  }

  /** Key characters at the start of the result are copies, and a word boundary after them
      was one in the text. */
  lemma {:induction false} CopiedPrefix(word: Class, key: Class, m: string, edits: Edits, i: nat, n: nat)
    requires AllInert(word, key, m, edits) && i <= |m| && 0 < n <= |Splice(m, edits, i)|
    requires Stretch(key, Splice(m, edits, i), 0, n)
    ensures i + n <= |m| && Splice(m, edits, i)[..n] == m[i..i + n]
    ensures edits[i].Some? ==> edits[i].value.keep > i
    ensures Edge(word, Splice(m, edits, i), n) ==> Edge(word, m, i + n)
    decreases n
  {
    var out := Splice(m, edits, i);
    SpliceStarts(word, key, m, edits, i);
    assert key(out[0]);
    if edits[i].None? {
      if n == 1 {
        SpliceStarts(word, key, m, edits, i + 1);
      } else {
        SeamShift(word, key, [m[i]], Splice(m, edits, i + 1), 0, n - 1);
        CopiedPrefix(word, key, m, edits, i + 1, n - 1);
        CopiedChar(m, i, Splice(m, edits, i + 1), n);
      }
    } else {
      CopiedGroup(word, key, m, edits, i, n);
    }
  }

  lemma CopiedChar(m: string, i: nat, rest: string, n: nat)
    requires 1 < n && i + n <= |m| && n - 1 <= |rest| && rest[..n - 1] == m[i + 1..i + n]
    ensures ([m[i]] + rest)[..n] == m[i..i + n]
  {
    assert ([m[i]] + rest)[..n] == [m[i]] + rest[..n - 1];
  }

  lemma CopiedGroup(word: Class, key: Class, m: string, edits: Edits, i: nat, n: nat)
    requires AllInert(word, key, m, edits) && i < |m| && edits[i].Some? && 0 < n <= |Splice(m, edits, i)|
    requires Stretch(key, Splice(m, edits, i), 0, n)
    ensures n <= edits[i].value.keep - i && Splice(m, edits, i)[..n] == m[i..i + n]
    ensures Edge(word, Splice(m, edits, i), n) ==> Edge(word, m, i + n)
  {
    var out, e := Splice(m, edits, i), edits[i].value;
    assert Inert(word, key, m, i, e);
    assert out == m[i..e.keep] + e.text + Splice(m, edits, e.end);
    assert out[e.keep - i] == e.text[0];
    StopsBefore(key, out, 0, n, e.keep - i);
  }

  /** `run` stands at `o` in the text, between word boundaries, and no plain mask starts there. */
  predicate CameFrom(word: Class, m: string, edits: Edits, o: nat, run: string) {
    && o + |run| <= |m| && m[o..o + |run|] == run
    && Edge(word, m, o) && Edge(word, m, o + |run|)
    && (o < |edits| && edits[o].Some? ==> edits[o].value.keep > o)
  }

  /** Every long run of key characters in the result with word boundaries at both ends, other
      than at its very start, was such a run of the text, and not one a plain mask replaces. */
  lemma {:induction false} RunOrigin(word: Class, key: Class, m: string, edits: Edits, i: nat, a: nat, b: nat)
    returns (o: nat)
    requires AllInert(word, key, m, edits) && i <= |m|
    requires 0 < a && a + 32 <= b && Island(word, key, Splice(m, edits, i), a, b)
    ensures CameFrom(word, m, edits, o, Splice(m, edits, i)[a..b])
    decreases |m| - i, 1
  {
    var head, next := RunIsPast(word, key, m, edits, i, a, b);
    if a == |head| {
      o := RunAtSeam(word, key, m, edits, i, head, next, b);
    } else {
      o := RunBehindSeam(word, key, m, edits, i, head, next, a, b);
    }
  }

  lemma {:induction false} RunBehindSeam(word: Class, key: Class, m: string, edits: Edits,
                                         i: nat, head: string, next: nat, a: nat, b: nat)
    returns (o: nat)
    requires AllInert(word, key, m, edits) && i < next <= |m|
    requires |head| < a && a + 32 <= b && Island(word, key, head + Splice(m, edits, next), a, b)
    ensures CameFrom(word, m, edits, o, (head + Splice(m, edits, next))[a..b])
    decreases |m| - i, 0
  {
    IslandShift(word, key, head, Splice(m, edits, next), a, b);
    o := RunOrigin(word, key, m, edits, next, a - |head|, b - |head|);
  }

  /** What is known of the text around position `next`, the first one after `head`. */
  predicate Seam(word: Class, key: Class, m: string, i: nat, head: string, next: nat) {
    && i < next <= |m| && head != ""
    && ((next == i + 1 && head == [m[i]]) ||
        (!word(head[|head| - 1]) && (next < |m| && key(m[next]) && word(m[next]) ==> Edge(word, m, next))))
  }

  lemma RunAtSeam(word: Class, key: Class, m: string, edits: Edits, i: nat, head: string, next: nat, b: nat)
    returns (o: nat)
    requires AllInert(word, key, m, edits) && Seam(word, key, m, i, head, next)
    requires |head| < b && Island(word, key, head + Splice(m, edits, next), |head|, b)
    ensures CameFrom(word, m, edits, o, (head + Splice(m, edits, next))[|head|..b])
  {
    o := next;
    var rest, n := Splice(m, edits, next), b - |head|;
    SeamShift(word, key, head, rest, 0, n);
    CopiedPrefix(word, key, m, edits, next, n);
    assert rest[0] == rest[..n][0] == m[next..next + n][0];
    assert (head + rest)[|head|] == rest[0] && key(rest[0]);
  }

  /** A long run does not overlap a replacement before it. */
  lemma RunIsPast(word: Class, key: Class, m: string, edits: Edits, i: nat, a: nat, b: nat)
    returns (head: string, next: nat)
    requires AllInert(word, key, m, edits) && i <= |m|
    requires 0 < a && a + 32 <= b && Island(word, key, Splice(m, edits, i), a, b)
    ensures Seam(word, key, m, i, head, next)
    ensures Splice(m, edits, i) == head + Splice(m, edits, next) && |head| <= a
  {
    var out := Splice(m, edits, i);
    head, next := [m[i]], i + 1;
    if edits[i].Some? {
      var e := edits[i].value;
      assert Inert(word, key, m, i, e);
      head, next := Inserted(m, edits, i), e.end;
      assert head[|head| - 1] == e.text[|e.text| - 1] == out[|head| - 1];
      if a < |head| {
        StopsBefore(key, out, a, b, |head| - 1);
      }
    }
  }

  lemma RunOriginInWhole(word: Class, key: Class, m: string, edits: Edits, a: nat, b: nat) returns (o: nat)
    requires AllInert(word, key, m, edits)
    requires a + 32 <= b && Island(word, key, Splice(m, edits, 0), a, b)
    ensures CameFrom(word, m, edits, o, Splice(m, edits, 0)[a..b])
    ensures Island(word, key, m, o, o + (b - a))
  {
    var out := Splice(m, edits, 0);
    if a == 0 {
      RunAtStart(word, key, m, edits, b);
      o := 0;
    } else {
      o := RunOrigin(word, key, m, edits, 0, a, b);
    }
    SameStretch(key, out, a, b, m, o);
  }

  lemma RunAtStart(word: Class, key: Class, m: string, edits: Edits, b: nat)
    requires AllInert(word, key, m, edits) && 0 < b && Island(word, key, Splice(m, edits, 0), 0, b)
    ensures CameFrom(word, m, edits, 0, Splice(m, edits, 0)[0..b])
  {
    var out := Splice(m, edits, 0);
    CopiedPrefix(word, key, m, edits, 0, b);
    assert out[0] == out[..b][0] == m[0..b][0];
  }

  lemma SameStretch(key: Class, out: string, a: nat, b: nat, m: string, o: nat)
    requires a <= b <= |out| && o + (b - a) <= |m| && m[o..o + (b - a)] == out[a..b] && Stretch(key, out, a, b)
    ensures Stretch(key, m, o, o + (b - a))
  {
    forall j | o <= j < o + (b - a) ensures key(m[j]) {
      assert m[j] == m[o..o + (b - a)][j - o] == out[a..b][j - o] == out[a + (j - o)];
    }
  }
}
