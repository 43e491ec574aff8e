/**
 * The flat tsquery item array and SortAndUniqItems with its comparator
 * compareQueryOperand (rum_ts_utils.c).
 *
 * A query is the array of QueryItems PostgreSQL stores in a TSQuery: operand
 * leaves (QI_VAL) and operator nodes (QI_OPR). SortAndUniqItems returns
 * "pointers" to the operand items, here their indices in the item array.
 */
module TsQuery {
  import opened Lexemes

  datatype Oper = OpNot | OpAnd | OpOr | OpPhrase

  /**
   * A QueryItem: an operand with its key, prefix flag and weight bitmask, or an
   * operator. The operator's child offsets are not used by the modelled code.
   */
  datatype QueryItem =
    | Val(key: Key, prefix: bool, weight: nat)
    | Opr(oper: Oper)

  /** The key of the operand item at index i (the empty key for any other index). */
  function OpKey(items: seq<QueryItem>, i: nat): Key {
    if i < |items| && items[i].Val? then items[i].key else []
  }

  /** compareQueryOperand: the normal-mode comparison of the keys of two operand items. */
  function CompareQueryOperand(items: seq<QueryItem>, a: nat, b: nat): (c: int)
    ensures c == 0 <==> OpKey(items, a) == OpKey(items, b)
    ensures c < 0 <==> Less(OpKey(items, a), OpKey(items, b))
  {
    CompareZeroIffEqual(OpKey(items, a), OpKey(items, b));
    Compare(OpKey(items, a), OpKey(items, b), false)
  }

  /** s holds indices of operand items only. */
  predicate OperandIndices(items: seq<QueryItem>, s: seq<nat>) {
    forall k :: 0 <= k < |s| ==> s[k] < |items| && items[s[k]].Val?
  }

  /** The indices of the QI_VAL items of items, in array order. */
  function ValIndices(items: seq<QueryItem>): (r: seq<nat>)
    ensures |r| <= |items|
    decreases |items|
  {
    if |items| == 0 then []
    else ValIndices(items[..|items| - 1]) + (if items[|items| - 1].Val? then [|items| - 1] else [])
  }

  /** The number of QI_VAL items. */
  function CountVal(items: seq<QueryItem>): nat {
    |ValIndices(items)|
  }

  /** ValIndices lists exactly the indices of operand items. */
  lemma {:induction false} ValIndicesMembers(items: seq<QueryItem>)
    ensures forall j :: j in ValIndices(items) <==> 0 <= j < |items| && items[j].Val?
    decreases |items|
  {
    if |items| > 0 {
      var init := items[..|items| - 1];
      ValIndicesMembers(init);
      forall j | 0 <= j < |init| ensures init[j] == items[j] { }
    }
  }

  /** Every operand of the query has the key of some listed item. */
  ghost predicate CoversOperands(items: seq<QueryItem>, s: seq<nat>) {
    forall j :: 0 <= j < |items| && items[j].Val? ==> exists k :: 0 <= k < |s| && OpKey(items, s[k]) == items[j].key
  }

  /** Keys of the listed items never decrease (the order qsort_arg leaves behind). */
  predicate SortedByKey(items: seq<QueryItem>, s: seq<nat>) {
    forall k, l :: 0 <= k < l < |s| ==> NotGreater(OpKey(items, s[k]), OpKey(items, s[l]))
  }

  /** Keys of the listed items strictly increase: sorted with no two keys equal. */
  predicate StrictlyIncreasingKeys(items: seq<QueryItem>, s: seq<nat>) {
    forall k, l :: 0 <= k < l < |s| ==> Less(OpKey(items, s[k]), OpKey(items, s[l]))
  }

  /** Inserts operand index x into s before the first element whose key is not smaller. */
  function InsertByKey(items: seq<QueryItem>, x: nat, s: seq<nat>): (r: seq<nat>)
    ensures |r| == |s| + 1 && multiset(r) == multiset(s) + multiset{x}
    decreases |s|
  {
    if |s| == 0 then [x]
    else if NotGreater(OpKey(items, x), OpKey(items, s[0])) then [x] + s
    else
      assert s == [s[0]] + s[1..];
      [s[0]] + InsertByKey(items, x, s[1..])
  }

  /** An ordering of s by key: the stand-in for the order qsort_arg produces. */
  function SortByKey(items: seq<QueryItem>, s: seq<nat>): (r: seq<nat>)
    ensures |r| == |s| && multiset(r) == multiset(s)
    decreases |s|
  {
    if |s| == 0 then []
    else
      assert s == [s[0]] + s[1..];
      InsertByKey(items, s[0], SortByKey(items, s[1..]))
  }

  /** A key not greater than any key of a sorted list can go in front of it. */
  lemma ConsSorted(items: seq<QueryItem>, h: nat, t: seq<nat>)
    requires SortedByKey(items, t)
    requires forall m :: 0 <= m < |t| ==> NotGreater(OpKey(items, h), OpKey(items, t[m]))
    ensures SortedByKey(items, [h] + t)
  {
    var r := [h] + t;
    forall k, l | 0 <= k < l < |r|
      ensures NotGreater(OpKey(items, r[k]), OpKey(items, r[l]))
    {
      assert r[l] == t[l - 1];
      if k > 0 {
        assert r[k] == t[k - 1];
      }
    }
  }

  /** The tail of a sorted list is sorted, and its head is not greater than any of it. */
  lemma TailSorted(items: seq<QueryItem>, s: seq<nat>)
    requires SortedByKey(items, s) && |s| > 0
    ensures SortedByKey(items, s[1..])
    ensures forall m :: 0 <= m < |s| - 1 ==> NotGreater(OpKey(items, s[0]), OpKey(items, s[1..][m]))
  {
    var t := s[1..];
    forall k, l | 0 <= k < l < |t|
      ensures NotGreater(OpKey(items, t[k]), OpKey(items, t[l]))
    {
      assert t[k] == s[k + 1] && t[l] == s[l + 1];
    }
  }

  /** Inserting into a sorted list keeps it sorted. */
  lemma {:induction false} InsertByKeySorted(items: seq<QueryItem>, x: nat, s: seq<nat>)
    requires SortedByKey(items, s)
    ensures SortedByKey(items, InsertByKey(items, x, s))
    decreases |s|
  {
    if |s| == 0 {
      assert InsertByKey(items, x, s) == [x];
    } else if NotGreater(OpKey(items, x), OpKey(items, s[0])) {
      forall m | 0 <= m < |s|
        ensures NotGreater(OpKey(items, x), OpKey(items, s[m]))
      {
        if m > 0 {
          NotGreaterTransitive(OpKey(items, x), OpKey(items, s[0]), OpKey(items, s[m]));
        }
      }
      ConsSorted(items, x, s);
      assert InsertByKey(items, x, s) == [x] + s;
    } else {
      NotGreaterTotal(OpKey(items, x), OpKey(items, s[0]));
      var s' := s[1..];
      TailSorted(items, s);
      InsertByKeySorted(items, x, s');
      var r' := InsertByKey(items, x, s');
      forall m | 0 <= m < |r'|
        ensures NotGreater(OpKey(items, s[0]), OpKey(items, r'[m]))
      {
        assert r'[m] in multiset(r');
        if r'[m] != x {
          assert r'[m] in multiset(s');
          var k :| 0 <= k < |s'| && s'[k] == r'[m];
        }
      }
      ConsSorted(items, s[0], r');
      assert InsertByKey(items, x, s) == [s[0]] + r';
    }
  }

  /** The stand-in ordering is sorted by key. */
  lemma {:induction false} SortByKeySorted(items: seq<QueryItem>, s: seq<nat>)
    ensures SortedByKey(items, SortByKey(items, s))
    decreases |s|
  {
    if |s| > 0 {
      SortByKeySorted(items, s[1..]);
      InsertByKeySorted(items, s[0], SortByKey(items, s[1..]));
    }
  }

  /**
   * The qsort_arg call of SortAndUniqItems: sorts a[..n] by compareQueryOperand.
   * qsort_arg is library code; it is stood in for by SortByKey, and only what
   * qsort_arg guarantees (sorted by key, a permutation) is stated.
   */
  method SortOperands(a: array<nat>, n: nat, items: seq<QueryItem>)
    requires n <= a.Length
    modifies a
    ensures SortedByKey(items, a[..n])
    ensures multiset(a[..n]) == multiset(old(a[..n]))
    ensures a[n..] == old(a[n..])
  {
    var input := a[..n];
    var sorted := SortByKey(items, input);
    SortByKeySorted(items, input);
    forall k | 0 <= k < n {
      a[k] := sorted[k];
    }
    assert a[..n] == sorted;
    assert a[n..] == old(a[n..]);
  }

  /** The collecting loop of SortAndUniqItems: the operand indices, in array order. */
  method CollectOperands(items: seq<QueryItem>) returns (res: array<nat>, n: nat)
    ensures fresh(res) && res.Length == |items|
    ensures n <= |items| && res[..n] == ValIndices(items)
  {
    res := new nat[|items|];
    n := 0;
    var item := 0;
    while item < |items|
      invariant 0 <= item <= |items|
      invariant n == |ValIndices(items[..item])| <= item
      invariant res[..n] == ValIndices(items[..item])
    {
      ValIndicesSnoc(items, item);
      if items[item].Val? {
        ghost var before := res[..n];
        res[n] := item;
        assert res[..n + 1] == before + [item];
        n := n + 1;
      }
      item := item + 1;
    }
    assert items[..item] == items;
  }

  /** Extending the scanned prefix by one item adds that item's index when it is an operand. */
  lemma ValIndicesSnoc(items: seq<QueryItem>, i: nat)
    requires i < |items|
    ensures ValIndices(items[..i + 1]) == ValIndices(items[..i]) + (if items[i].Val? then [i] else [])
  {
    assert items[..i + 1][..i] == items[..i];
  }

  /** The collected indices are operand indices, and every operand is among them. */
  lemma ValIndicesOperands(items: seq<QueryItem>)
    ensures OperandIndices(items, ValIndices(items))
    ensures CoversOperands(items, ValIndices(items))
  {
    var vs := ValIndices(items);
    ValIndicesMembers(items);
    forall k | 0 <= k < |vs| ensures vs[k] < |items| && items[vs[k]].Val? {
      assert vs[k] in vs;
    }
    forall j | 0 <= j < |items| && items[j].Val?
      ensures exists k :: 0 <= k < |vs| && OpKey(items, vs[k]) == items[j].key
    {
      assert j in vs;
      var k :| 0 <= k < |vs| && vs[k] == j;
      assert OpKey(items, vs[k]) == items[j].key;
    }
  }

  /** The key at position k - 1 of s is strictly smaller than the one at k. */
  predicate LessStep(items: seq<QueryItem>, s: seq<nat>, k: nat)
    requires 0 < k < |s|
  {
    Less(OpKey(items, s[k - 1]), OpKey(items, s[k]))
  }

  /** The key at position k - 1 of s is not greater than the one at k. */
  predicate NotGreaterStep(items: seq<QueryItem>, s: seq<nat>, k: nat)
    requires 0 < k < |s|
  {
    NotGreater(OpKey(items, s[k - 1]), OpKey(items, s[k]))
  }

  /** Each listed key is strictly smaller than the next one. */
  predicate IncreasingSteps(items: seq<QueryItem>, s: seq<nat>) {
    forall k :: 0 < k < |s| ==> LessStep(items, s, k)
  }

  /** Strictly increasing neighbours make the whole list strictly increasing. */
  lemma {:induction false} StepsStrict(items: seq<QueryItem>, s: seq<nat>)
    requires IncreasingSteps(items, s)
    ensures StrictlyIncreasingKeys(items, s)
    decreases |s|
  {
    if |s| > 1 {
      var init := s[..|s| - 1];
      assert IncreasingSteps(items, init) by {
        forall k | 0 < k < |init| ensures LessStep(items, init, k) {
          assert LessStep(items, s, k);
          assert init[k - 1] == s[k - 1] && init[k] == s[k];
        }
      }
      StepsStrict(items, init);
      forall k, l | 0 <= k < l < |s|
        ensures Less(OpKey(items, s[k]), OpKey(items, s[l]))
      {
        if l < |s| - 1 {
          assert init[k] == s[k] && init[l] == s[l];
        } else if k < l - 1 {
          assert init[k] == s[k] && init[l - 1] == s[l - 1];
          assert LessStep(items, s, l);
          LessTransitive(OpKey(items, s[k]), OpKey(items, s[l - 1]), OpKey(items, s[l]));
        } else {
          assert LessStep(items, s, l);
        }
      }
    }
  }

  /** Appending a key greater than the last keeps the neighbours strictly increasing. */
  lemma StepsAppend(items: seq<QueryItem>, s: seq<nat>, x: nat)
    requires IncreasingSteps(items, s) && |s| > 0
    requires Less(OpKey(items, s[|s| - 1]), OpKey(items, x))
    ensures IncreasingSteps(items, s + [x])
  {
    var r := s + [x];
    forall k | 0 < k < |r| ensures LessStep(items, r, k) {
      if k < |s| {
        assert LessStep(items, s, k);
        assert r[k - 1] == s[k - 1] && r[k] == s[k];
      }
    }
  }

  /**
   * The state of the duplicate-removing loop over the sorted operand list:
   * s[..prevptr + 1] holds the survivors so far, operands in strictly
   * increasing key order; s[ptr..] is still untouched; owner[i] is the
   * survivor with the key of sorted[i].
   */
  ghost predicate DedupState(items: seq<QueryItem>, sorted: seq<nat>, s: seq<nat>, ptr: nat, prevptr: nat, owner: seq<nat>) {
    && prevptr < ptr <= |sorted| == |s|
    && s[ptr..] == sorted[ptr..]
    && OperandIndices(items, s[..prevptr + 1])
    && IncreasingSteps(items, s[..prevptr + 1])
    && OpKey(items, s[prevptr]) == OpKey(items, sorted[ptr - 1])
    && |owner| == ptr
    && (forall i :: 0 <= i < ptr ==> owner[i] <= prevptr && OpKey(items, s[owner[i]]) == OpKey(items, sorted[i]))
  }

  /**
   * A survivor list whose last key equals that of sorted item p, extended by
   * a next sorted item x with a different key, stays strictly increasing.
   */
  lemma KeepExtendsSteps(items: seq<QueryItem>, kept: seq<nat>, x: nat, p: nat)
    requires IncreasingSteps(items, kept) && |kept| > 0
    requires OpKey(items, kept[|kept| - 1]) == OpKey(items, p)
    requires NotGreater(OpKey(items, p), OpKey(items, x))
    requires OpKey(items, x) != OpKey(items, kept[|kept| - 1])
    ensures IncreasingSteps(items, kept + [x])
  {
    NotGreaterTotal(OpKey(items, p), OpKey(items, x));
    StepsAppend(items, kept, x);
  }

  /** A new key at ptr becomes the next survivor. */
  lemma DedupKeep(items: seq<QueryItem>, sorted: seq<nat>, s: seq<nat>, ptr: nat, prevptr: nat, owner: seq<nat>)
    requires DedupState(items, sorted, s, ptr, prevptr, owner) && ptr < |s|
    requires OperandIndices(items, sorted)
    requires NotGreaterStep(items, sorted, ptr)
    requires OpKey(items, s[ptr]) != OpKey(items, s[prevptr])
    ensures DedupState(items, sorted, s[prevptr + 1 := s[ptr]], ptr + 1, prevptr + 1, owner + [prevptr + 1])
  {
    var x := s[ptr];
    assert x == sorted[ptr] by {
      assert s[ptr..][0] == sorted[ptr..][0];
    }
    var s' := s[prevptr + 1 := x];
    var kept := s[..prevptr + 1];
    assert s'[..prevptr + 2] == kept + [x];
    assert s'[ptr + 1..] == sorted[ptr + 1..] by {
      assert s'[ptr + 1..] == s[ptr..][1..];
    }
    assert OperandIndices(items, kept + [x]) by {
      assert sorted[ptr] == x;
    }
    KeepExtendsSteps(items, kept, x, sorted[ptr - 1]);
    var owner' := owner + [prevptr + 1];
    forall i | 0 <= i < ptr + 1
      ensures owner'[i] <= prevptr + 1 && OpKey(items, s'[owner'[i]]) == OpKey(items, sorted[i])
    {
      if i < ptr {
        assert owner'[i] == owner[i] && s'[owner[i]] == s[owner[i]];
      }
    }
  }

  /** A key equal to the last survivor's is skipped. */
  lemma DedupSkip(items: seq<QueryItem>, sorted: seq<nat>, s: seq<nat>, ptr: nat, prevptr: nat, owner: seq<nat>)
    requires DedupState(items, sorted, s, ptr, prevptr, owner) && ptr < |s|
    requires OpKey(items, s[ptr]) == OpKey(items, s[prevptr])
    ensures DedupState(items, sorted, s, ptr + 1, prevptr, owner + [prevptr])
  {
    assert s[ptr] == sorted[ptr] by {
      assert s[ptr..][0] == sorted[ptr..][0];
    }
    assert s[ptr + 1..] == sorted[ptr + 1..] by {
      assert s[ptr + 1..] == s[ptr..][1..];
    }
    var owner' := owner + [prevptr];
    forall i | 0 <= i < ptr + 1
      ensures owner'[i] <= prevptr && OpKey(items, s[owner'[i]]) == OpKey(items, sorted[i])
    {
      if i < ptr {
        assert owner'[i] == owner[i];
      }
    }
  }

  /**
   * The outcome of duplicate removal: out holds operands in strictly
   * increasing key order, and owner[i] is the survivor with the key of sorted[i].
   */
  ghost predicate DedupDone(items: seq<QueryItem>, sorted: seq<nat>, out: seq<nat>, owner: seq<nat>) {
    && OperandIndices(items, out)
    && IncreasingSteps(items, out)
    && |owner| == |sorted|
    && (forall i :: 0 <= i < |sorted| ==> owner[i] < |out| && OpKey(items, out[owner[i]]) == OpKey(items, sorted[i]))
  }

  /**
   * The duplicate-removing loop run on a sequence from position ptr, with the
   * last survivor at prevptr: the final sequence and the number of survivors.
   */
  function DedupLoop(items: seq<QueryItem>, s: seq<nat>, ptr: nat, prevptr: nat): (r: (seq<nat>, nat))
    requires prevptr < ptr <= |s|
    ensures |r.0| == |s| && prevptr < r.1 <= |s|
    decreases |s| - ptr
  {
    if ptr == |s| then (s, prevptr + 1)
    else if OpKey(items, s[ptr]) != OpKey(items, s[prevptr]) then DedupLoop(items, s[prevptr + 1 := s[ptr]], ptr + 1, prevptr + 1)
    else DedupLoop(items, s, ptr + 1, prevptr)
  }

  /** The survivors the loop leaves in front when run from ptr with the last survivor at prevptr. */
  function Survivors(items: seq<QueryItem>, s: seq<nat>, ptr: nat, prevptr: nat): (r: seq<nat>)
    requires prevptr < ptr <= |s|
    ensures prevptr < |r| <= |s|
  {
    var (t, size) := DedupLoop(items, s, ptr, prevptr);
    t[..size]
  }

  /** When the loop has consumed the whole list, its survivors are the outcome. */
  lemma DedupFinish(items: seq<QueryItem>, sorted: seq<nat>, s: seq<nat>, prevptr: nat, owner: seq<nat>)
    requires DedupState(items, sorted, s, |s|, prevptr, owner)
    ensures DedupDone(items, sorted, s[..prevptr + 1], owner)
  {
    forall i | 0 <= i < |sorted|
      ensures owner[i] < prevptr + 1 && OpKey(items, s[..prevptr + 1][owner[i]]) == OpKey(items, sorted[i])
    {
      assert s[..prevptr + 1][owner[i]] == s[owner[i]];
    }
  }

  /**
   * Run on a sorted operand list, the loop leaves the survivors in front:
   * operands in strictly increasing key order, one carrying each input key.
   */
  lemma {:induction false} DedupLoopCorrect(items: seq<QueryItem>, sorted: seq<nat>, s: seq<nat>, ptr: nat, prevptr: nat, owner: seq<nat>)
    returns (owner': seq<nat>)
    requires DedupState(items, sorted, s, ptr, prevptr, owner)
    requires OperandIndices(items, sorted)
    requires forall k :: 0 < k < |sorted| ==> NotGreaterStep(items, sorted, k)
    ensures DedupDone(items, sorted, Survivors(items, s, ptr, prevptr), owner')
    decreases |s| - ptr, 1
  {
    if ptr == |s| {
      owner' := owner;
      assert Survivors(items, s, ptr, prevptr) == s[..prevptr + 1];
      DedupFinish(items, sorted, s, prevptr, owner);
    } else if OpKey(items, s[ptr]) != OpKey(items, s[prevptr]) {
      owner' := DedupKeepCorrect(items, sorted, s, ptr, prevptr, owner);
    } else {
      owner' := DedupSkipCorrect(items, sorted, s, ptr, prevptr, owner);
    }
  }

  /** DedupLoopCorrect when s[ptr] is kept as the next survivor. */
  lemma {:induction false} DedupKeepCorrect(items: seq<QueryItem>, sorted: seq<nat>, s: seq<nat>, ptr: nat, prevptr: nat, owner: seq<nat>)
    returns (owner': seq<nat>)
    requires DedupState(items, sorted, s, ptr, prevptr, owner) && ptr < |s|
    requires OperandIndices(items, sorted)
    requires forall k :: 0 < k < |sorted| ==> NotGreaterStep(items, sorted, k)
    requires OpKey(items, s[ptr]) != OpKey(items, s[prevptr])
    ensures DedupDone(items, sorted, Survivors(items, s, ptr, prevptr), owner')
    decreases |s| - ptr, 0
  {
    var s' := s[prevptr + 1 := s[ptr]];
    assert Survivors(items, s, ptr, prevptr) == Survivors(items, s', ptr + 1, prevptr + 1);
    DedupKeep(items, sorted, s, ptr, prevptr, owner);
    owner' := DedupLoopCorrect(items, sorted, s', ptr + 1, prevptr + 1, owner + [prevptr + 1]);
  }

  /** DedupLoopCorrect when s[ptr] repeats the last survivor's key and is skipped. */
  lemma {:induction false} DedupSkipCorrect(items: seq<QueryItem>, sorted: seq<nat>, s: seq<nat>, ptr: nat, prevptr: nat, owner: seq<nat>)
    returns (owner': seq<nat>)
    requires DedupState(items, sorted, s, ptr, prevptr, owner) && ptr < |s|
    requires OperandIndices(items, sorted)
    requires forall k :: 0 < k < |sorted| ==> NotGreaterStep(items, sorted, k)
    requires OpKey(items, s[ptr]) == OpKey(items, s[prevptr])
    ensures DedupDone(items, sorted, Survivors(items, s, ptr, prevptr), owner')
    decreases |s| - ptr, 0
  {
    assert Survivors(items, s, ptr, prevptr) == Survivors(items, s, ptr + 1, prevptr);
    DedupSkip(items, sorted, s, ptr, prevptr, owner);
    owner' := DedupLoopCorrect(items, sorted, s, ptr + 1, prevptr, owner + [prevptr]);
  }

  /** One step of the duplicate-removing loop: keep s[ptr] as the next survivor, or skip it. */
  lemma DedupAdvance(items: seq<QueryItem>, s: seq<nat>, ptr: nat, prevptr: nat)
    requires prevptr < ptr < |s|
    ensures OpKey(items, s[ptr]) != OpKey(items, s[prevptr]) ==>
              DedupLoop(items, s, ptr, prevptr) == DedupLoop(items, s[prevptr + 1 := s[ptr]], ptr + 1, prevptr + 1)
    ensures OpKey(items, s[ptr]) == OpKey(items, s[prevptr]) ==>
              DedupLoop(items, s, ptr, prevptr) == DedupLoop(items, s, ptr + 1, prevptr)
  {
  }

  /**
   * The duplicate-removing loop of SortAndUniqItems: keeps the first of each
   * run of equal keys in a[..n], moving the survivors to the front; size is
   * their number.
   */
  method RemoveDuplicates(a: array<nat>, n: nat, items: seq<QueryItem>) returns (size: nat)
    requires 0 < n <= a.Length
    modifies a
    ensures (a[..n], size) == DedupLoop(items, old(a[..n]), 1, 0)
    ensures a[n..] == old(a[n..])
  {
    ghost var input, rest := a[..n], a[n..];
    var ptr := 1;
    var prevptr := 0;
    while ptr < n
      invariant prevptr < ptr <= n
      invariant DedupLoop(items, a[..n], ptr, prevptr) == DedupLoop(items, input, 1, 0)
      invariant a[n..] == rest
    {
      ghost var s := a[..n];
      DedupAdvance(items, s, ptr, prevptr);
      if CompareQueryOperand(items, a[ptr], a[prevptr]) != 0 {
        prevptr := prevptr + 1;
        a[prevptr] := a[ptr];
        assert a[..n] == s[prevptr := s[ptr]];
      }
      ptr := ptr + 1;
    }
    size := prevptr + 1;
  }

  /** The survivors the duplicate-removing loop leaves in front of a non-empty list. */
  function Dedup(items: seq<QueryItem>, s: seq<nat>): (r: seq<nat>)
    requires 0 < |s|
    ensures 0 < |r| <= |s|
  {
    Survivors(items, s, 1, 0)
  }

  /**
   * Duplicate removal on a sorted list of operands leaves operands in
   * strictly increasing key order, and owner[i] is the survivor carrying the
   * key of s[i].
   */
  lemma DedupCorrect(items: seq<QueryItem>, s: seq<nat>) returns (owner: seq<nat>)
    requires 0 < |s|
    requires OperandIndices(items, s)
    requires SortedByKey(items, s)
    ensures OperandIndices(items, Dedup(items, s))
    ensures StrictlyIncreasingKeys(items, Dedup(items, s))
    ensures |owner| == |s|
    ensures forall i :: 0 <= i < |s| ==>
              owner[i] < |Dedup(items, s)| && OpKey(items, Dedup(items, s)[owner[i]]) == OpKey(items, s[i])
  {
    assert forall k :: 0 < k < |s| ==> NotGreaterStep(items, s, k);
    assert DedupState(items, s, s, 1, 0, [0]) by {
      assert IncreasingSteps(items, s[..1]);
      assert OperandIndices(items, s[..1]);
    }
    owner := DedupLoopCorrect(items, s, s, 1, 0, [0]);
    StepsStrict(items, Dedup(items, s));
  }

  /**
   * The sort and the duplicate removal of SortAndUniqItems. sorted is the
   * order qsort_arg left behind; the survivors are Dedup of it.
   */
  method SortAndDedup(a: array<nat>, n: nat, items: seq<QueryItem>)
    returns (size: nat, ghost sorted: seq<nat>)
    requires 0 < n <= a.Length
    requires OperandIndices(items, a[..n])
    modifies a
    ensures |sorted| == n && multiset(sorted) == multiset(old(a[..n]))
    ensures OperandIndices(items, sorted) && SortedByKey(items, sorted)
    ensures size <= n && a[..size] == Dedup(items, sorted)
  {
    ghost var input := a[..n];
    SortOperands(a, n, items);
    sorted := a[..n];
    PermutedOperands(items, input, sorted);
    size := RemoveDuplicates(a, n, items);
    assert a[..size] == a[..n][..size];
  }

  /**
   * SortAndUniqItems: collects the QI_VAL items of the query, sorts them by
   * key and removes adjacent duplicates in place. The result holds only
   * operand items, in strictly increasing key order, no more of them than
   * the query has operands, and every operand of the query has a survivor
   * with the same key. Which of several equal operands survives is not fixed
   * (qsort_arg is not stable), so it is not stated.
   */
  method SortAndUniqItems(items: seq<QueryItem>) returns (res: array<nat>, size: nat)
    ensures size <= res.Length == |items|
    ensures size <= CountVal(items)
    ensures OperandIndices(items, res[..size])
    ensures StrictlyIncreasingKeys(items, res[..size])
    ensures CoversOperands(items, res[..size])
  {
    var n;
    res, n := CollectOperands(items);
    size := n;
    ValIndicesOperands(items);
    if size < 2 {
      return;
    }
    ghost var sorted;
    size, sorted := SortAndDedup(res, n, items);
    ghost var owner := DedupCorrect(items, sorted);
    SurvivorsCoverOperands(items, sorted, res[..size], owner);
  }

  /** A reordering of operand indices holds operand indices only. */
  lemma PermutedOperands(items: seq<QueryItem>, s: seq<nat>, t: seq<nat>)
    requires OperandIndices(items, s)
    requires multiset(s) == multiset(t)
    ensures OperandIndices(items, t)
  {
    forall k | 0 <= k < |t|
      ensures t[k] < |items| && items[t[k]].Val?
    {
      assert t[k] in multiset(s);
      var m :| 0 <= m < |s| && s[m] == t[k];
    }
  }

  /** When every sorted operand has a survivor with its key, so does every operand of the query. */
  lemma SurvivorsCoverOperands(items: seq<QueryItem>, sorted: seq<nat>, out: seq<nat>, owner: seq<nat>)
    requires multiset(sorted) == multiset(ValIndices(items))
    requires |owner| == |sorted|
    requires forall i :: 0 <= i < |sorted| ==> owner[i] < |out| && OpKey(items, out[owner[i]]) == OpKey(items, sorted[i])
    ensures CoversOperands(items, out)
  {
    ValIndicesMembers(items);
    forall j | 0 <= j < |items| && items[j].Val?
      ensures exists k :: 0 <= k < |out| && OpKey(items, out[k]) == items[j].key
    {
      assert j in multiset(sorted);
      var m :| 0 <= m < |sorted| && sorted[m] == j;
      assert OpKey(items, out[owner[m]]) == items[j].key;
    }
  }
}
