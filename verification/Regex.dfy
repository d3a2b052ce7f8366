/** The part of Python's `re` that src/secure_logging.py relies on: character classes, greedy
    repetition of one class, `\b`, look-aheads, concatenation and alternation, with the
    backtracking order that decides which match is reported. */
module Regex {
  import opened Wrappers

  datatype Kind = WordChar | SpaceChar | OtherChar

  /** How the Unicode tables classify the characters above ASCII. Nothing is assumed about it,
      except for the three non-ASCII letters that case folding takes to ASCII ones. */
  type Unicode = char -> Kind

  const DOTTED_I := '\U{130}'
  const DOTLESS_I := '\U{131}'
  const LONG_S := '\U{17F}'

  predicate IsAscii(c: char) { c as int < 128 }

  predicate IsDigit(c: char) { '0' <= c <= '9' }

  predicate IsLower(c: char) { 'a' <= c <= 'z' }

  predicate IsUpper(c: char) { 'A' <= c <= 'Z' }

  predicate IsExtraLetter(c: char) { c == DOTTED_I || c == DOTLESS_I || c == LONG_S }

  /** `\w` */
  predicate IsWord(u: Unicode, c: char) {
    if IsAscii(c) then IsDigit(c) || IsLower(c) || IsUpper(c) || c == '_'
    else IsExtraLetter(c) || u(c) == WordChar
  }

  /** `\s` */
  predicate IsSpace(u: Unicode, c: char) {
    if IsAscii(c) then 9 <= c as int <= 13 || 28 <= c as int <= 32
    else !IsExtraLetter(c) && u(c) == SpaceChar
  }

  /** Does `c` match the lower-case ASCII letter `letter` under IGNORECASE? Besides the two ASCII
      cases, `i` has the two Turkish letters and `s` has the long s. */
  predicate Folds(letter: char, c: char) {
    || c == letter
    || (IsUpper(c) && IsLower(letter) && c as int + 32 == letter as int)
    || (letter == 'i' && (c == DOTTED_I || c == DOTLESS_I))
    || (letter == 's' && c == LONG_S)
  }

  datatype CharSet =
    | Base64           // [A-Za-z0-9+/]
    | HexDigit         // [0-9a-fA-F]
    | NonHexBase64     // [g-zG-Z+/]
    | EqualsSign       // =
    | ColonOrEquals    // [:=]
    | NotNewline       // .
    | Word             // \w
    | Space            // \s
    | NonSpace         // \S
    | Letter(c: char)  // one letter, case ignored

  predicate In(u: Unicode, s: CharSet, c: char) {
    match s
    case Base64 => IsDigit(c) || IsLower(c) || IsUpper(c) || c == '+' || c == '/'
    case HexDigit => IsDigit(c) || 'a' <= c <= 'f' || 'A' <= c <= 'F'
    case NonHexBase64 => 'g' <= c <= 'z' || 'G' <= c <= 'Z' || c == '+' || c == '/'
    case EqualsSign => c == '='
    case ColonOrEquals => c == ':' || c == '='
    case NotNewline => c != '\n'
    case Word => IsWord(u, c)
    case Space => IsSpace(u, c)
    case NonSpace => !IsSpace(u, c)
    case Letter(letter) => Folds(letter, c)
  }

  datatype Regex =
    | Char(cls: CharSet)
    | Greedy(cls: CharSet, least: nat, most: Option<nat>)
    | Boundary
    | LookAhead(re: Regex)
    | NotAhead(re: Regex)
    | Then(first: Regex, second: Regex)
    | Or(left: Regex, right: Regex)

  /** `\b`: exactly one of the two neighbours of position `i` is a word character. */
  predicate AtBoundary(u: Unicode, m: string, i: nat)
    requires i <= |m|
  {
    (i > 0 && IsWord(u, m[i - 1])) != (i < |m| && IsWord(u, m[i]))
  }

  predicate All(u: Unicode, s: CharSet, m: string, i: nat, k: nat)
    requires i <= k <= |m|
  {
    forall j | i <= j < k :: In(u, s, m[j])
  }

  /** The number of consecutive characters of the class from position `i` on. */
  function RunLength(u: Unicode, s: CharSet, m: string, i: nat): (n: nat)
    requires i <= |m|
    ensures i + n <= |m| && All(u, s, m, i, i + n)
    ensures i + n < |m| ==> !In(u, s, m[i + n])
    decreases |m| - i
  {
    if i == |m| || !In(u, s, m[i]) then 0 else 1 + RunLength(u, s, m, i + 1)
  }

  predicate Within(ks: seq<nat>, i: nat, m: string) {
    forall j | 0 <= j < |ks| :: i <= ks[j] <= |m|
  }

  /** Every end position of a match that starts at `i`, in the order in which backtracking
      tries them: the first one is the match Python reports. */
  function Ends(u: Unicode, re: Regex, m: string, i: nat): (ks: seq<nat>)
    requires i <= |m|
    ensures Within(ks, i, m)
    decreases re, 0
  {
    match re
    case Char(s) => if i < |m| && In(u, s, m[i]) then [i + 1] else []
    case Greedy(s, least, most) =>
      var run := RunLength(u, s, m, i);
      var n := if most.Some? && most.value < run then most.value else run;
      if n < least then [] else seq(n - least + 1, j requires 0 <= j <= n - least => i + n - j)
    case Boundary => if AtBoundary(u, m, i) then [i] else []
    case LookAhead(r) => if Ends(u, r, m, i) != [] then [i] else []
    case NotAhead(r) => if Ends(u, r, m, i) == [] then [i] else []
    case Then(a, b) => EndsAfter(u, b, m, i, Ends(u, a, m, i))
    case Or(a, b) => Ends(u, a, m, i) + Ends(u, b, m, i)
  }

  function EndsAfter(u: Unicode, re: Regex, m: string, i: nat, starts: seq<nat>): (ks: seq<nat>)
    requires i <= |m| && Within(starts, i, m)
    ensures Within(ks, i, m)
    decreases re, |starts|
  {
    if starts == [] then []
    else Ends(u, re, m, starts[0]) + EndsAfter(u, re, m, i, starts[1..])
  }

  /** The end of the match Python finds at `i`, if any. */
  function FirstEnd(u: Unicode, re: Regex, m: string, i: nat): (r: Option<nat>)
    requires i <= |m|
    ensures r.Some? ==> i <= r.value <= |m|
  {
    var ks := Ends(u, re, m, i);
    if ks == [] then None else Some(ks[0])
  }

  /** Is there a match from `i` to `k`, whichever way backtracking reaches it? */
  predicate Matches(u: Unicode, re: Regex, m: string, i: nat, k: nat)
    requires i <= |m|
  {
    k in Ends(u, re, m, i)
  }

  lemma {:induction false} EndsAfterMember(u: Unicode, re: Regex, m: string, i: nat, starts: seq<nat>, k: nat)
    requires i <= |m| && Within(starts, i, m)
    ensures k in EndsAfter(u, re, m, i, starts) <==>
            exists j :: 0 <= j < |starts| && k in Ends(u, re, m, starts[j])
    decreases |starts|
  {
    if starts != [] {
      var tail := starts[1..];
      EndsAfterMember(u, re, m, i, tail, k);
      assert forall j | 0 <= j < |tail| :: tail[j] == starts[j + 1];
      if j :| 0 <= j < |starts| && k in Ends(u, re, m, starts[j]) {
        assert j == 0 || k in Ends(u, re, m, tail[j - 1]);
      }
    }
  }

  /** The first start that the pattern can be matched from decides. */
  lemma {:induction false} EndsAfterHead(u: Unicode, re: Regex, m: string, i: nat, starts: seq<nat>)
    returns (j: nat)
    requires i <= |m| && Within(starts, i, m)
    requires EndsAfter(u, re, m, i, starts) != []
    ensures j < |starts| && FirstEnd(u, re, m, starts[j]) == Some(EndsAfter(u, re, m, i, starts)[0])
    ensures forall l | 0 <= l < j :: Ends(u, re, m, starts[l]) == []
    decreases |starts|
  {
    j := 0;
    if Ends(u, re, m, starts[0]) == [] {
      var tail := starts[1..];
      var j' := EndsAfterHead(u, re, m, i, tail);
      j := j' + 1;
      forall l | 0 <= l < j ensures Ends(u, re, m, starts[l]) == [] {
        assert l > 0 ==> starts[l] == tail[l - 1];
      }
    }
  }

  /** A match of a concatenation splits at some point ... */
  lemma ThenSplits(u: Unicode, a: Regex, b: Regex, m: string, i: nat, k: nat) returns (e: nat)
    requires i <= |m| && Matches(u, Then(a, b), m, i, k)
    ensures i <= e <= |m| && Matches(u, a, m, i, e) && Matches(u, b, m, e, k)
  {
    var starts := Ends(u, a, m, i);
    EndsAfterMember(u, b, m, i, starts, k);
    var j :| 0 <= j < |starts| && k in Ends(u, b, m, starts[j]);
    e := starts[j];
  }

  /** ... and any two adjacent matches make one. */
  lemma ThenJoins(u: Unicode, a: Regex, b: Regex, m: string, i: nat, e: nat, k: nat)
    requires i <= e <= |m| && Matches(u, a, m, i, e) && Matches(u, b, m, e, k)
    ensures Matches(u, Then(a, b), m, i, k)
  {
    ThenJoinsAt(u, b, m, i, Ends(u, a, m, i), e, k);
  }

  lemma ThenJoinsAt(u: Unicode, b: Regex, m: string, i: nat, starts: seq<nat>, e: nat, k: nat)
    requires i <= e <= |m| && Within(starts, i, m) && e in starts && Matches(u, b, m, e, k)
    ensures k in EndsAfter(u, b, m, i, starts)
  {
    var j :| 0 <= j < |starts| && starts[j] == e;
    EndsAfterMember(u, b, m, i, starts, k);
  }

  /** The reported match of a concatenation is the reported match of its second half from
      some end of the first half. */
  lemma ThenFirst(u: Unicode, a: Regex, b: Regex, m: string, i: nat) returns (e: nat)
    requires i <= |m| && FirstEnd(u, Then(a, b), m, i).Some?
    ensures i <= e <= |m| && Matches(u, a, m, i, e)
    ensures FirstEnd(u, b, m, e) == FirstEnd(u, Then(a, b), m, i)
  {
    var starts := Ends(u, a, m, i);
    var j := EndsAfterHead(u, b, m, i, starts);
    e := starts[j];
  }

  lemma OrMatches(u: Unicode, a: Regex, b: Regex, m: string, i: nat, k: nat)
    requires i <= |m|
    ensures Matches(u, Or(a, b), m, i, k) <==> Matches(u, a, m, i, k) || Matches(u, b, m, i, k)
  {
    assert Ends(u, Or(a, b), m, i) == Ends(u, a, m, i) + Ends(u, b, m, i);
  }

  lemma {:induction false} RunLengthIsLongest(u: Unicode, s: CharSet, m: string, i: nat, k: nat)
    requires i <= k <= |m| && All(u, s, m, i, k)
    ensures k <= i + RunLength(u, s, m, i)
    decreases k - i
  {
    if i < k {
      RunLengthIsLongest(u, s, m, i + 1, k);
    }
  }

  lemma {:induction false} RunLengthStops(u: Unicode, s: CharSet, m: string, i: nat, k: nat)
    requires i <= k <= |m| && All(u, s, m, i, k) && (k < |m| ==> !In(u, s, m[k]))
    ensures k == i + RunLength(u, s, m, i)
    decreases k - i
  {
    if i < k {
      RunLengthStops(u, s, m, i + 1, k);
    }
  }

  /** A greedy class matches every stretch of the class of an allowed length. */
  lemma GreedyMatches(u: Unicode, s: CharSet, least: nat, most: Option<nat>, m: string, i: nat, k: nat)
    requires i <= |m|
    ensures Matches(u, Greedy(s, least, most), m, i, k) <==>
            i + least <= k <= |m| && All(u, s, m, i, k) && (most.Some? ==> k <= i + most.value)
  {
    if i + least <= k <= |m| && All(u, s, m, i, k) && (most.Some? ==> k <= i + most.value) {
      RunLengthIsLongest(u, s, m, i, k);
      var run := RunLength(u, s, m, i);
      var n := if most.Some? && most.value < run then most.value else run;
      assert Ends(u, Greedy(s, least, most), m, i)[i + n - k] == k;
    }
  }

  /** Backtracking gives back one character at a time: the reported match of a greedy class and
      something behind it has the class end at the last place from which the rest can be matched. */
  lemma ThenGreedyFirst(u: Unicode, s: CharSet, least: nat, most: Option<nat>, b: Regex, m: string, i: nat)
    returns (e: nat)
    requires i <= |m| && FirstEnd(u, Then(Greedy(s, least, most), b), m, i).Some?
    ensures i <= e <= |m| && Matches(u, Greedy(s, least, most), m, i, e)
    ensures FirstEnd(u, b, m, e) == FirstEnd(u, Then(Greedy(s, least, most), b), m, i)
    ensures forall k | e < k <= |m| && Matches(u, Greedy(s, least, most), m, i, k) :: Ends(u, b, m, k) == []
  {
    var starts := Ends(u, Greedy(s, least, most), m, i);
    var j := EndsAfterHead(u, b, m, i, starts);
    e := starts[j];
    forall k | e < k <= |m| && k in starts ensures Ends(u, b, m, k) == [] {
      var l :| 0 <= l < |starts| && starts[l] == k;
      assert starts[l] == starts[j] + j - l;
    }
  }

  /** An unbounded greedy class first tries to take everything it can. */
  lemma GreedyFirst(u: Unicode, s: CharSet, least: nat, m: string, i: nat)
    requires i <= |m| && FirstEnd(u, Greedy(s, least, None), m, i).Some?
    ensures var k := FirstEnd(u, Greedy(s, least, None), m, i).value;
            k == |m| || !In(u, s, m[k])
  {
    assert FirstEnd(u, Greedy(s, least, None), m, i).value == i + RunLength(u, s, m, i);
  }
}
