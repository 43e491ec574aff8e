/**
 * The document side: a tsvector's lexeme array, find_wordentry, cnt_length
 * and the per-entry work of rum_extract_tsvector (rum_ts_utils.c).
 *
 * A tsvector is modelled as its WordEntry array: one entry per lexeme, in
 * strictly increasing key order (the invariant PostgreSQL keeps for every
 * tsvector), each with its position vector when the entry has one (haspos).
 */
module TsVector {
  import opened Common
  import opened Lexemes
  import opened PosCodec

  /** A WordEntry: the lexeme and, when haspos is set, its position vector. */
  datatype WordEntry = WordEntry(key: Key, positions: Option<seq<WordEntryPos>>)

  /** The lexemes of a tsvector are strictly increasing: sorted and unique. */
  predicate Sorted(t: seq<WordEntry>) {
    forall i, j :: 0 <= i < j < |t| ==> Less(t[i].key, t[j].key)
  }

  /** Every entry before i has a key strictly smaller than q, when t[i]'s key is not greater than q. */
  lemma SortedBelow(t: seq<WordEntry>, i: nat, q: Key)
    requires Sorted(t) && i < |t| && NotGreater(t[i].key, q)
    ensures forall k :: 0 <= k < i ==> Less(t[k].key, q)
  {
    forall k | 0 <= k < i ensures Less(t[k].key, q) {
      NotGreaterTotal(t[k].key, t[i].key);
      NotGreaterTransitive(t[k].key, t[i].key, q);
    }
  }

  /** Every entry after i has a key strictly greater than q, when t[i]'s key is not smaller than q. */
  lemma SortedAbove(t: seq<WordEntry>, i: nat, q: Key)
    requires Sorted(t) && i < |t| && NotGreater(q, t[i].key)
    ensures forall k :: i < k < |t| ==> Less(q, t[k].key)
  {
    forall k | i < k < |t| ensures Less(q, t[k].key) {
      NotGreaterTotal(t[i].key, t[k].key);
      NotGreaterTransitive(q, t[i].key, t[k].key);
    }
  }

  /**
   * The binary search of find_wordentry for the key q. It stops on an entry
   * equal to q at hi (found, and mid == hi) or runs out with lo == hi. Either
   * way every entry below hi is smaller than q and none from hi on is.
   */
  method SearchExact(t: seq<WordEntry>, q: Key) returns (lo: nat, hi: nat, mid: nat, found: bool)
    requires Sorted(t)
    ensures lo <= |t| && hi <= |t| && mid <= |t|
    ensures found ==> hi < |t| && t[hi].key == q && mid == hi
    ensures !found ==> lo >= hi && forall i :: 0 <= i < |t| ==> t[i].key != q
    ensures forall k :: 0 <= k < hi ==> Less(t[k].key, q)
    ensures forall k :: hi <= k < |t| ==> NotGreater(q, t[k].key)
  {
    lo, hi := 0, |t|;
    mid := hi;
    found := false;
    while lo < hi
      invariant 0 <= lo <= hi <= |t| && mid <= |t|
      invariant forall k :: 0 <= k < lo ==> Less(t[k].key, q)
      invariant forall k :: hi <= k < |t| ==> Less(q, t[k].key)
    {
      mid := lo + (hi - lo) / 2;
      var difference := Compare(q, t[mid].key, false);
      CompareAntisymmetric(q, t[mid].key);
      if difference == 0 {
        CompareZeroIffEqual(q, t[mid].key);
        hi := mid;
        found := true;
        break;
      } else if difference > 0 {
        SortedBelow(t, mid, q);
        lo := mid + 1;
      } else {
        SortedAbove(t, mid, q);
        hi := mid;
      }
    }
    assert forall k :: 0 <= k < hi ==> Less(t[k].key, q) by {
      if found {
        NotGreaterTotal(t[hi].key, q);
        SortedBelow(t, hi, q);
      }
    }
    forall k | hi <= k < |t| ensures NotGreater(q, t[k].key) {
      NotGreaterTotal(q, t[k].key);
      if found && k > hi {
        NotGreaterTotal(q, t[hi].key);
        SortedAbove(t, hi, q);
      }
    }
    if !found {
      forall i | 0 <= i < |t| ensures t[i].key != q {
        if i < hi {
          LessAsymmetric(t[i].key, q);
        } else {
          LessAsymmetric(q, t[i].key);
        }
      }
    }
  }

  /**
   * find_wordentry: the binary search for the operand key q in the lexemes of
   * t, followed, for a prefix operand, by a scan over the entries having q as
   * a byte prefix. r is the entry found (NULL as None) and nitem the number
   * of entries matched from r on.
   */
  method FindWordEntry(t: seq<WordEntry>, q: Key, prefix: bool) returns (r: Option<nat>, nitem: nat)
    requires Sorted(t)
    ensures r.Some? <==> nitem > 0
    ensures r.Some? ==> r.value + nitem <= |t|
    // an exact operand matches at most the one entry with an equal key
    ensures !prefix ==> nitem <= 1
    ensures !prefix ==> (r.Some? <==> exists i :: 0 <= i < |t| && t[i].key == q)
    ensures !prefix && r.Some? ==> t[r.value].key == q
    // a prefix operand matches exactly the run of entries that have it as a prefix
    ensures prefix && r.Some? ==> forall k :: r.value <= k < r.value + nitem ==> IsPrefix(q, t[k].key)
    ensures prefix ==> forall k :: 0 <= k < |t| && IsPrefix(q, t[k].key) ==>
              r.Some? && r.value <= k < r.value + nitem
  {
    var lo, hi, mid, found := SearchExact(t, q);
    nitem := if found then 1 else 0;
    if prefix {
      if lo >= hi {
        mid := hi;
      }
      nitem := 0;
      while mid < |t| && Compare(q, t[mid].key, true) == 0
        invariant hi <= mid <= |t| && nitem == mid - hi
        invariant forall k :: hi <= k < mid ==> IsPrefix(q, t[k].key)
      {
        ComparePrefixMode(q, t[mid].key);
        nitem := nitem + 1;
        mid := mid + 1;
      }
      forall k | 0 <= k < |t| && IsPrefix(q, t[k].key)
        ensures hi <= k < mid
      {
        PrefixNotGreater(q, t[k].key);
        if k < hi {
          LessAsymmetric(t[k].key, q);
        }
        if k >= mid {
          ComparePrefixMode(q, t[mid].key);
          if k > mid {
            NotGreaterTotal(t[mid].key, t[k].key);
            PrefixConvex(q, t[mid].key, t[k].key);
          }
        }
      }
    }
    r := if nitem > 0 then Some(hi) else None;
  }

  /** POSDATALEN: the number of positions an entry carries (0 without haspos). */
  function PosDataLen(e: WordEntry): nat {
    if e.positions.Some? then |e.positions.value| else 0
  }

  /** An entry's contribution to the document length: its positions, or 1 if it has none. */
  function EntryLength(e: WordEntry): (n: nat)
    ensures n >= 1 && n >= PosDataLen(e)
  {
    if PosDataLen(e) == 0 then 1 else PosDataLen(e)
  }

  /** The document length cnt_length computes: the entries' lengths summed. */
  function TotalLength(t: seq<WordEntry>): nat
    decreases |t|
  {
    if |t| == 0 then 0 else TotalLength(t[..|t| - 1]) + EntryLength(t[|t| - 1])
  }

  /** The positions of all entries together. */
  function TotalPositions(t: seq<WordEntry>): nat
    decreases |t|
  {
    if |t| == 0 then 0 else TotalPositions(t[..|t| - 1]) + PosDataLen(t[|t| - 1])
  }

  /** The number of entries that carry no position. */
  function PositionlessEntries(t: seq<WordEntry>): nat
    decreases |t|
  {
    if |t| == 0 then 0 else PositionlessEntries(t[..|t| - 1]) + (if PosDataLen(t[|t| - 1]) == 0 then 1 else 0)
  }

  /**
   * cnt_length: walks the WordEntry array, adding the position count of each
   * entry, or 1 for an entry without positions.
   */
  method CntLength(t: seq<WordEntry>) returns (len: nat)
    ensures len == TotalLength(t)
  {
    len := 0;
    var ptr := 0;
    while ptr < |t|
      invariant 0 <= ptr <= |t|
      invariant len == TotalLength(t[..ptr])
    {
      assert t[..ptr + 1][..ptr] == t[..ptr];
      var clen := PosDataLen(t[ptr]);
      if clen == 0 {
        len := len + 1;
      } else {
        len := len + clen;
      }
      ptr := ptr + 1;
    }
    assert t[..ptr] == t;
  }

  /**
   * The document length is the number of positions plus one for each entry
   * without positions.
   */
  lemma {:induction false} TotalLengthSplit(t: seq<WordEntry>)
    ensures TotalLength(t) == TotalPositions(t) + PositionlessEntries(t)
    decreases |t|
  {
    if |t| > 0 {
      TotalLengthSplit(t[..|t| - 1]);
    }
  }

  /** Every entry counts at least once, and at least as often as it has positions. */
  lemma {:induction false} TotalLengthBounds(t: seq<WordEntry>)
    ensures TotalLength(t) >= |t|
    ensures TotalLength(t) >= TotalPositions(t)
    decreases |t|
  {
    if |t| > 0 {
      TotalLengthBounds(t[..|t| - 1]);
    }
  }

  /** The document length equals the number of entries exactly when no entry has two or more positions. */
  lemma {:induction false} TotalLengthIsSize(t: seq<WordEntry>)
    ensures TotalLength(t) == |t| <==> forall k :: 0 <= k < |t| ==> PosDataLen(t[k]) <= 1
    decreases |t|
  {
    if |t| > 0 {
      var init := t[..|t| - 1];
      TotalLengthIsSize(init);
      TotalLengthBounds(init);
      assert forall k :: 0 <= k < |init| ==> init[k] == t[k];
    }
  }

  /** The per-entry output of rum_extract_tsvector: the lexeme and its compressed positions (NULL as None). */
  datatype ExtractedEntry = ExtractedEntry(key: Key, addInfo: Option<seq<Byte>>)

  /**
   * The body of rum_extract_tsvector's loop for one entry: an entry with
   * positions gets a buffer of 2 * npos * sizeof(WordEntryPos) bytes, filled
   * by compress_pos; an entry without gets a NULL additional-information datum.
   */
  method ExtractEntry(e: WordEntry) returns (x: ExtractedEntry)
    ensures x.key == e.key
    ensures x.addInfo.None? <==> e.positions.None?
    ensures e.positions.Some? ==> x.addInfo == Some(Compress(e.positions.value))
  {
    match e.positions {
      case None =>
        x := ExtractedEntry(e.key, None);
      case Some(pos) =>
        var posData := new Byte[2 * |pos| * 2];
        CompressFitsBuffer(pos);
        var posDataSize := CompressPos(posData, pos);
        x := ExtractedEntry(e.key, Some(posData[..posDataSize]));
    }
  }

  /**
   * rum_extract_tsvector: one index entry per lexeme, each with its
   * compressed positions as additional information.
   */
  method ExtractTsVector(t: seq<WordEntry>) returns (entries: seq<ExtractedEntry>)
    ensures |entries| == |t|
    ensures forall i :: 0 <= i < |t| ==> entries[i].key == t[i].key
    ensures forall i :: 0 <= i < |t| ==> (entries[i].addInfo.None? <==> t[i].positions.None?)
    ensures forall i :: 0 <= i < |t| && t[i].positions.Some? ==>
              entries[i].addInfo == Some(Compress(t[i].positions.value))
  {
    entries := [];
    var i := 0;
    while i < |t|
      invariant 0 <= i <= |t| && |entries| == i
      invariant forall k :: 0 <= k < i ==> entries[k].key == t[k].key
      invariant forall k :: 0 <= k < i ==> (entries[k].addInfo.None? <==> t[k].positions.None?)
      invariant forall k :: 0 <= k < i && t[k].positions.Some? ==>
                  entries[k].addInfo == Some(Compress(t[k].positions.value))
    {
      var x := ExtractEntry(t[i]);
      entries := entries + [x];
      i := i + 1;
    }
  }

  /** The additional information of an extracted entry decodes back to the entry's positions. */
  lemma ExtractedDecodes(e: WordEntry, x: ExtractedEntry)
    requires e.positions.Some? && x.addInfo == Some(Compress(e.positions.value))
    ensures DecodeN(x.addInfo.value, 0, 0, |e.positions.value|)
            == Some((e.positions.value, |x.addInfo.value|))
    ensures CountTerminators(x.addInfo.value) == |e.positions.value|
  {
    RoundTrip(e.positions.value);
    CompressCount(0, e.positions.value);
  }
}
