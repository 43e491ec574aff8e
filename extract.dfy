/**
 * The query side of the index support: rum_extract_tsquery's entries and its
 * item-to-operand map, and the consistent-check callback checkcondition_rum
 * (rum_ts_utils.c).
 */
module Extract {
  import opened Common
  import opened Lexemes
  import opened TsQuery

  /** GIN_SEARCH_MODE_DEFAULT or GIN_SEARCH_MODE_ALL. */
  datatype SearchMode = SearchModeDefault | SearchModeAll

  /**
   * What rum_extract_tsquery hands back: the entries (one per distinct
   * operand key), their partial-match flags, the map from query item index to
   * entry number shared by all entries as extra data, and the search mode
   * (None when the query is empty and the mode is left as it was).
   */
  datatype ExtractedQuery = ExtractedQuery(
    entries: seq<Key>,
    partialmatch: seq<bool>,
    mapItemOperand: seq<nat>,
    searchMode: Option<SearchMode>)

  /** elog(ERROR, "Operand not found!") */
  datatype ExtractError = OperandNotFound

  /** Some operand of the query has this key and this prefix flag. */
  ghost predicate FromOperand(items: seq<QueryItem>, key: Key, prefix: bool) {
    exists j :: 0 <= j < |items| && items[j].Val? && items[j].key == key && items[j].prefix == prefix
  }

  /**
   * The map sends every operand item to an entry with the same key, and
   * leaves every operator item's slot at 0.
   */
  ghost predicate MapsOperands(items: seq<QueryItem>, q: ExtractedQuery) {
    && |q.mapItemOperand| == |items|
    && (forall j :: 0 <= j < |items| && items[j].Val? ==>
          q.mapItemOperand[j] < |q.entries| && q.entries[q.mapItemOperand[j]] == items[j].key)
    && (forall j :: 0 <= j < |items| && !items[j].Val? ==> q.mapItemOperand[j] == 0)
  }

  /**
   * The first loop of rum_extract_tsquery: one entry per surviving operand,
   * with that operand's key and prefix flag.
   */
  method CollectEntries(items: seq<QueryItem>, operands: seq<nat>)
    returns (entries: seq<Key>, partialmatch: seq<bool>)
    requires OperandIndices(items, operands)
    ensures |entries| == |partialmatch| == |operands|
    ensures forall k :: 0 <= k < |operands| ==> entries[k] == items[operands[k]].key
    ensures forall k :: 0 <= k < |operands| ==> partialmatch[k] == items[operands[k]].prefix
  {
    entries, partialmatch := [], [];
    var i := 0;
    while i < |operands|
      invariant 0 <= i <= |operands| && |entries| == |partialmatch| == i
      invariant forall k :: 0 <= k < i ==> entries[k] == items[operands[k]].key
      invariant forall k :: 0 <= k < i ==> partialmatch[k] == items[operands[k]].prefix
    {
      entries := entries + [items[operands[i]].key];
      partialmatch := partialmatch + [items[operands[i]].prefix];
      i := i + 1;
    }
  }

  /** The keys of operands in strictly increasing key order are strictly sorted. */
  lemma EntriesSorted(items: seq<QueryItem>, operands: seq<nat>, entries: seq<Key>)
    requires StrictlyIncreasingKeys(items, operands)
    requires |entries| == |operands|
    requires forall k :: 0 <= k < |operands| ==> entries[k] == OpKey(items, operands[k])
    ensures StrictlySorted(entries)
  {
    forall k, l | 0 <= k < l < |entries| ensures Less(entries[k], entries[l]) {
      assert Less(OpKey(items, operands[k]), OpKey(items, operands[l]));
    }
  }

  /** Each entry comes with the key and prefix flag of an operand of the query. */
  lemma EntriesFromOperands(items: seq<QueryItem>, operands: seq<nat>, entries: seq<Key>, partialmatch: seq<bool>)
    requires OperandIndices(items, operands)
    requires |entries| == |partialmatch| == |operands|
    requires forall k :: 0 <= k < |operands| ==> entries[k] == items[operands[k]].key
    requires forall k :: 0 <= k < |operands| ==> partialmatch[k] == items[operands[k]].prefix
    ensures forall i :: 0 <= i < |entries| ==> FromOperand(items, entries[i], partialmatch[i])
  {
    forall i | 0 <= i < |entries|
      ensures FromOperand(items, entries[i], partialmatch[i])
    {
      var j := operands[i];
      assert j < |items| && items[j].Val?;
      assert items[j].key == entries[i] && items[j].prefix == partialmatch[i];
    }
  }

  /** Every operand's key is among the entries of operands that cover the query. */
  lemma EntriesCover(items: seq<QueryItem>, operands: seq<nat>, entries: seq<Key>)
    requires CoversOperands(items, operands)
    requires |entries| == |operands|
    requires forall k :: 0 <= k < |operands| ==> entries[k] == OpKey(items, operands[k])
    ensures forall j :: 0 <= j < |items| && items[j].Val? ==> items[j].key in entries
  {
    forall j | 0 <= j < |items| && items[j].Val?
      ensures items[j].key in entries
    {
      var k :| 0 <= k < |operands| && OpKey(items, operands[k]) == items[j].key;
      assert entries[k] == items[j].key;
    }
  }

  /**
   * The rescan of rum_extract_tsquery: for each operand item, the number of
   * the first entry with an equal key; operator items keep the 0 palloc0 left.
   * It fails with "Operand not found!" exactly when some operand's key is
   * missing from the entries.
   */
  method BuildMap(items: seq<QueryItem>, entries: seq<Key>) returns (r: Result<seq<nat>, ExtractError>)
    ensures r.Success? <==> forall j :: 0 <= j < |items| && items[j].Val? ==> items[j].key in entries
    ensures r.Success? ==> |r.value| == |items|
    ensures r.Success? ==> forall j :: 0 <= j < |items| && items[j].Val? ==>
              r.value[j] < |entries| && entries[r.value[j]] == items[j].key
    ensures r.Success? ==> forall j :: 0 <= j < |items| && !items[j].Val? ==> r.value[j] == 0
  {
    var mapItemOperand := new nat[|items|](_ => 0);
    var j := 0;
    while j < |items|
      invariant 0 <= j <= |items|
      invariant forall m :: 0 <= m < j && items[m].Val? ==>
                  mapItemOperand[m] < |entries| && entries[mapItemOperand[m]] == items[m].key
      invariant forall m :: 0 <= m < |items| && (m >= j || !items[m].Val?) ==> mapItemOperand[m] == 0
    {
      if items[j].Val? {
        var found := false;
        var i := 0;
        while i < |entries|
          invariant 0 <= i <= |entries|
          invariant forall k :: 0 <= k < i ==> entries[k] != items[j].key
          invariant forall m :: 0 <= m < j && items[m].Val? ==>
                      mapItemOperand[m] < |entries| && entries[mapItemOperand[m]] == items[m].key
          invariant forall m :: 0 <= m < |items| && (m >= j || !items[m].Val?) ==> mapItemOperand[m] == 0
        {
          CompareZeroIffEqual(entries[i], items[j].key);
          if Compare(entries[i], items[j].key, false) == 0 {
            mapItemOperand[j] := i;
            found := true;
            break;
          }
          i := i + 1;
        }
        if !found {
          assert items[j].key !in entries;
          return Failure(OperandNotFound);
        }
      }
      j := j + 1;
    }
    r := Success(mapItemOperand[..]);
    forall m | 0 <= m < |items| && items[m].Val? ensures items[m].key in entries {
      assert entries[r.value[m]] == items[m].key;
    }
  }

  /**
   * The entries of rum_extract_tsquery: SortAndUniqItems, then one entry per
   * surviving operand with its key and prefix flag.
   */
  method DistinctOperands(items: seq<QueryItem>) returns (entries: seq<Key>, partialmatch: seq<bool>)
    ensures |entries| == |partialmatch| <= CountVal(items)
    ensures StrictlySorted(entries)
    ensures forall i :: 0 <= i < |entries| ==> FromOperand(items, entries[i], partialmatch[i])
    ensures forall j :: 0 <= j < |items| && items[j].Val? ==> items[j].key in entries
  {
    var operands, nentries := SortAndUniqItems(items);
    var survivors := operands[..nentries];
    entries, partialmatch := CollectEntries(items, survivors);
    assert forall k :: 0 <= k < |survivors| ==> entries[k] == OpKey(items, survivors[k]);
    EntriesSorted(items, survivors, entries);
    EntriesFromOperands(items, survivors, entries, partialmatch);
    EntriesCover(items, survivors, entries);
  }

  /**
   * rum_extract_tsquery for a query of items. requiresMatch is what
   * tsquery_requires_match says of the query. The "Operand not found!" error
   * never happens: every operand finds its entry.
   */
  method ExtractQuery(items: seq<QueryItem>, requiresMatch: bool) returns (r: Result<ExtractedQuery, ExtractError>)
    ensures r.Success?
    ensures |items| == 0 ==> r.value == ExtractedQuery([], [], [], None)
    ensures |items| > 0 ==> r.value.searchMode == Some(if requiresMatch then SearchModeDefault else SearchModeAll)
    ensures |r.value.entries| == |r.value.partialmatch| <= CountVal(items)
    ensures StrictlySorted(r.value.entries)
    ensures forall i :: 0 <= i < |r.value.entries| ==>
              FromOperand(items, r.value.entries[i], r.value.partialmatch[i])
    ensures MapsOperands(items, r.value)
  {
    if |items| == 0 {
      return Success(ExtractedQuery([], [], [], None));
    }
    var searchMode := if requiresMatch then SearchModeDefault else SearchModeAll;
    var entries, partialmatch := DistinctOperands(items);
    var m := BuildMap(items, entries);
    r := Success(ExtractedQuery(entries, partialmatch, m.value, Some(searchMode)));
  }

  /**
   * RumChkVal: what the consistent function passes to the query evaluator:
   * the query items, which entries the indexed value contains, the
   * item-to-operand map, and the recheck flag the callback raises.
   */
  class RumChkVal {
    const items: seq<QueryItem>
    const check: seq<bool>
    const mapItemOperand: seq<nat>
    var needRecheck: bool

    constructor (items: seq<QueryItem>, check: seq<bool>, mapItemOperand: seq<nat>)
      ensures this.items == items && this.check == check && this.mapItemOperand == mapItemOperand
      ensures !needRecheck
    {
      this.items := items;
      this.check := check;
      this.mapItemOperand := mapItemOperand;
      needRecheck := false;
    }

    /**
     * checkcondition_rum for the operand item at index j: answers whether the
     * indexed value contains that operand's entry, and raises the recheck
     * flag when the operand carries a weight restriction.
     */
    method CheckConditionRum(j: nat) returns (present: bool)
      requires j < |items| && items[j].Val?
      requires j < |mapItemOperand| && mapItemOperand[j] < |check|
      modifies this
      ensures present == check[mapItemOperand[j]]
      ensures needRecheck == (old(needRecheck) || items[j].weight != 0)
    {
      if items[j].weight != 0 {
        needRecheck := true;
      }
      var e := mapItemOperand[j];
      present := check[e];
    }
  }

  /**
   * With the map rum_extract_tsquery built and a check array that marks the
   * entries present in an indexed value, checkcondition_rum answers for each
   * operand whether its key is present.
   */
  lemma CheckAnswersPresence(items: seq<QueryItem>, q: ExtractedQuery, check: seq<bool>, present: set<Key>, j: nat)
    requires MapsOperands(items, q)
    requires |check| == |q.entries|
    requires forall i :: 0 <= i < |q.entries| ==> (check[i] <==> q.entries[i] in present)
    requires j < |items| && items[j].Val?
    ensures q.mapItemOperand[j] < |check|
    ensures check[q.mapItemOperand[j]] <==> items[j].key in present
  {
  }
}
