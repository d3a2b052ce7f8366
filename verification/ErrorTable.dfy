/** The table of NSPR and NSS error codes (src/py_nspr_error.c:44-134): sorted once, checked, and
    then searched by halving. */
module ErrorTable {
  import opened Wrappers

  /** PRErrorCode */
  newtype int32 = x: int | -0x8000_0000 <= x < 0x8000_0000

  datatype ErrorDesc = ErrorDesc(num: int32, name: string, text: string)

  datatype Status = PR_SUCCESS | PR_FAILURE

  predicate Sorted(t: seq<ErrorDesc>) {
    forall i, j | 0 <= i < j < |t| :: t[i].num <= t[j].num
  }

  predicate Ascending(t: seq<ErrorDesc>) {
    forall i, j | 0 <= i < j < |t| :: t[i].num < t[j].num
  }

  predicate DistinctCodes(t: seq<ErrorDesc>) {
    forall i, j | 0 <= i < j < |t| :: t[i].num != t[j].num
  }

  predicate AboveMinimum(t: seq<ErrorDesc>) {
    forall i | 0 <= i < |t| :: t[i].num > -0x8000_0000
  }

  predicate Permutes(t: seq<ErrorDesc>, t': seq<ErrorDesc>) {
    multiset(t) == multiset(t')
  }

  /** The reference lookup: the first entry with the code, in the table as written. */
  function LinearLookup(t: seq<ErrorDesc>, num: int32): Option<ErrorDesc> {
    if t == [] then None else if t[0].num == num then Some(t[0]) else LinearLookup(t[1..], num)
  }

  // ----- codes and permutations

  /** Distinctness of codes, said of the entries as a multiset. */
  ghost predicate DistinctIn(entries: multiset<ErrorDesc>) {
    && (forall e | e in entries :: entries[e] == 1)
    && (forall e, e' | e in entries && e' in entries && e.num == e'.num :: e == e')
  }

  lemma TwiceInSequence(t: seq<ErrorDesc>, i: nat, j: nat)
    requires i < j < |t| && t[i] == t[j]
    ensures multiset(t)[t[i]] >= 2
  {
    assert t == t[..j] + t[j..];
    assert t[..j][i] in multiset(t[..j]) && t[j..][0] in multiset(t[j..]);
  }

  lemma TwiceInMultiset(t: seq<ErrorDesc>, e: ErrorDesc)
    requires multiset(t)[e] >= 2
    ensures exists i, j :: 0 <= i < j < |t| && t[i] == e && t[j] == e
  {
    var i :| 0 <= i < |t| && t[i] == e;
    var before, after := t[..i], t[i + 1..];
    assert t == before + [t[i]] + after;
    assert multiset(t) == multiset(before) + multiset{e} + multiset(after);
    if e in before {
      var j :| 0 <= j < |before| && before[j] == e;
      assert t[j] == e;
    } else {
      assert e in after;
      var j :| 0 <= j < |after| && after[j] == e;
      assert t[i + 1 + j] == e;
    }
  }

  lemma DistinctIsDistinctIn(t: seq<ErrorDesc>)
    ensures DistinctCodes(t) <==> DistinctIn(multiset(t))
  {
    if DistinctCodes(t) {
      forall e | e in multiset(t) ensures multiset(t)[e] == 1 {
        if multiset(t)[e] >= 2 {
          TwiceInMultiset(t, e);
        }
      }
      forall e, e' | e in multiset(t) && e' in multiset(t) && e.num == e'.num ensures e == e' {
        var i :| 0 <= i < |t| && t[i] == e;
        var j :| 0 <= j < |t| && t[j] == e';
        assert i == j;
      }
    }
    if DistinctIn(multiset(t)) {
      forall i, j | 0 <= i < j < |t| ensures t[i].num != t[j].num {
        assert t[i] in multiset(t) && t[j] in multiset(t);
        if t[i].num == t[j].num {
          TwiceInSequence(t, i, j);
        }
      }
    }
  }

  lemma MembersAbove(t: seq<ErrorDesc>)
    ensures AboveMinimum(t) <==> forall e | e in multiset(t) :: e.num > -0x8000_0000
  {
    forall i | 0 <= i < |t| ensures t[i] in multiset(t) {
    }
    assert forall e | e in multiset(t) :: e in t;
  }

  lemma PermutesAbove(t: seq<ErrorDesc>, t': seq<ErrorDesc>)
    requires Permutes(t, t')
    ensures AboveMinimum(t) <==> AboveMinimum(t')
  {
    MembersAbove(t);
    MembersAbove(t');
  }

  /** What the check after the sort finds, said of the table as written. */
  lemma SortedCheckMeans(t: seq<ErrorDesc>, sorted: seq<ErrorDesc>)
    requires Permutes(t, sorted) && Sorted(sorted)
    ensures Ascending(sorted) && AboveMinimum(sorted) <==> DistinctCodes(t) && AboveMinimum(t)
  {
    DistinctIsDistinctIn(t);
    DistinctIsDistinctIn(sorted);
    PermutesAbove(t, sorted);
    if DistinctCodes(sorted) {
      forall i, j | 0 <= i < j < |sorted| ensures sorted[i].num < sorted[j].num {
        assert sorted[i].num <= sorted[j].num && sorted[i].num != sorted[j].num;
      }
    }
  }

  lemma {:induction false} LinearLookupFinds(t: seq<ErrorDesc>, num: int32)
    ensures match LinearLookup(t, num)
            case Some(e) => e in t && e.num == num
            case None => forall i | 0 <= i < |t| :: t[i].num != num
    decreases |t|
  {
    if t != [] && t[0].num != num {
      LinearLookupFinds(t[1..], num);
      assert forall i | 1 <= i < |t| :: t[i] == t[1..][i - 1];
    }
  }

  /** With distinct codes the entry found in any reordering is the one a scan of the table as
      written finds, and none is found in both or in neither. */
  lemma LookupIsLinear(t: seq<ErrorDesc>, sorted: seq<ErrorDesc>, num: int32, found: Option<ErrorDesc>)
    requires Permutes(t, sorted) && DistinctCodes(t)
    requires match found
             case Some(e) => e in sorted && e.num == num
             case None => forall i | 0 <= i < |sorted| :: sorted[i].num != num
    ensures found == LinearLookup(t, num)
  {
    LinearLookupFinds(t, num);
    assert forall e :: e in t <==> e in multiset(t);
    assert forall e :: e in sorted <==> e in multiset(sorted);
    if found.Some? {
      var i :| 0 <= i < |t| && t[i] == found.value;
      var j :| 0 <= j < |t| && Some(t[j]) == LinearLookup(t, num);
      assert i == j;
    } else {
      forall e | e in t ensures e.num != num {
        assert e in sorted;
      }
    }
  }

  // ----- the code

  class NsprErrors {
    const table: array<ErrorDesc>

    constructor (entries: seq<ErrorDesc>)
      ensures fresh(table) && table[..] == entries
    {
      table := new ErrorDesc[|entries|](i requires 0 <= i < |entries| => entries[i]);
      new;
      assert table[..] == entries;
    }

    method Swap(i: nat, j: nat)
      requires i < table.Length && j < table.Length
      modifies table
      ensures table[..] == old(table[..])[i := old(table[j])][j := old(table[i])]
      ensures Permutes(table[..], old(table[..]))
    {
      table[i], table[j] := table[j], table[i];
    }

    /** The least code from position `i` on. */
    method Least(i: nat) returns (k: nat)
      requires i < table.Length
      ensures i <= k < table.Length
      ensures forall j | i <= j < table.Length :: table[k].num <= table[j].num
    {
      k := i;
      for l := i + 1 to table.Length
        invariant i <= k < table.Length
        invariant forall j | i <= j < l :: table[k].num <= table[j].num
      {
        if table[l].num < table[k].num {
          k := l;
        }
      }
    }

    /** qsort with cmp_error: some sorted permutation, and nothing is said about equal codes. */
    method Sort()
      modifies table
      ensures Sorted(table[..]) && Permutes(table[..], old(table[..]))
    {
      for i := 0 to table.Length
        invariant Permutes(table[..], old(table[..]))
        invariant forall a, b | 0 <= a < b < table.Length && a < i :: table[a].num <= table[b].num
      {
        var k := Least(i);
        ghost var before := table[..];
        Swap(i, k);
        assert forall a | 0 <= a < table.Length :: table[a] == table[..][a];
      }
    }

    /** init_nspr_errors: the check goes on past a failure, as the source does to report them all. */
    method Init() returns (result: Status)
      modifies table
      ensures Sorted(table[..]) && Permutes(table[..], old(table[..]))
      ensures result == PR_SUCCESS <==> DistinctCodes(old(table[..])) && AboveMinimum(old(table[..]))
    {
      ghost var original := table[..];
      Sort();
      ghost var sorted := table[..];
      result := PR_SUCCESS;
      var lastNum: int32 := -0x8000_0000;
      for i := 0 to table.Length
        invariant table[..] == sorted
        invariant lastNum == if i == 0 then -0x8000_0000 else sorted[i - 1].num
        invariant result == PR_SUCCESS <==> Ascending(sorted[..i]) && AboveMinimum(sorted[..i])
      {
        var errNum := table[i].num;
        if errNum <= lastNum {
          result := PR_FAILURE;
        }
        CheckGoesOn(sorted, i, lastNum);
        lastNum := errNum;
      }
      assert sorted[..table.Length] == sorted;
      SortedCheckMeans(original, sorted);
    }

    /** lookup_nspr_error: halve while two positions are more than one apart, then look at both.
        The source's table is never empty, since SUCCESS is written into it. */
    method Lookup(num: int32) returns (r: Option<ErrorDesc>)
      requires table.Length > 0 && Sorted(table[..])
      ensures match r
              case Some(e) => e in table[..] && e.num == num
              case None => forall i | 0 <= i < table.Length :: table[i].num != num
    {
      var low, high := 0, table.Length - 1;
      while low + 1 < high
        invariant 0 <= low <= high < table.Length
        invariant forall i | 0 <= i < low :: table[i].num != num
        invariant forall i | high < i < table.Length :: table[i].num != num
        decreases high - low
      {
        var i := (low + high) / 2;
        var errNum := table[i].num;
        if num == errNum {
          return Some(table[i]);
        }
        assert forall a, b | 0 <= a < b < table.Length :: table[..][a].num <= table[..][b].num;
        if num < errNum {
          high := i;
        } else {
          low := i;
        }
      }
      if num == table[low].num {
        return Some(table[low]);
      }
      if num == table[high].num {
        return Some(table[high]);
      }
      return None;
    }

    /** After a successful initialisation, the search is a scan of the table as written. */
    method LookupAfterInit(num: int32) returns (status: Status, r: Option<ErrorDesc>)
      requires table.Length > 0
      modifies table
      ensures status == PR_SUCCESS <==> DistinctCodes(old(table[..])) && AboveMinimum(old(table[..]))
      ensures status == PR_SUCCESS ==> r == LinearLookup(old(table[..]), num)
    {
      ghost var original := table[..];
      status := Init();
      r := Lookup(num);
      if status == PR_SUCCESS {
        LookupIsLinear(original, table[..], num, r);
      }
    }
  }

  /** One more entry of the check: in a sorted table only the neighbour matters. */
  lemma CheckGoesOn(t: seq<ErrorDesc>, i: nat, lastNum: int32)
    requires Sorted(t) && i < |t|
    requires lastNum == if i == 0 then -0x8000_0000 else t[i - 1].num
    ensures Ascending(t[..i + 1]) && AboveMinimum(t[..i + 1]) <==>
            Ascending(t[..i]) && AboveMinimum(t[..i]) && lastNum < t[i].num
  {
    var p, q := t[..i], t[..i + 1];
    assert forall j | 0 <= j < i :: p[j] == q[j];
    if Ascending(p) && AboveMinimum(p) && lastNum < t[i].num {
      forall a, b | 0 <= a < b < |q| ensures q[a].num < q[b].num {
        assert b < i ==> p[a].num < p[b].num;
        assert a < i - 1 ==> t[a].num <= t[i - 1].num;
      }
    }
    if Ascending(q) && AboveMinimum(q) {
      assert i > 0 ==> q[i - 1].num < q[i].num;
    }
  }
}
