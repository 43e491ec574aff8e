/**
 * Lexeme keys and the comparison PostgreSQL's tsCompareString applies to them.
 *
 * A key is the raw byte string of a lexeme. In normal mode the comparison is
 * memcmp over the shared length with the shorter key first on a tie; in prefix
 * mode it answers 0 exactly when the first key is a byte prefix of the second.
 * The result is normalised to -1, 0 or 1 (callers only look at its sign).
 */
module Lexemes {
  import opened Common

  type Key = seq<Byte>

  /** a is a byte prefix of b */
  predicate IsPrefix(a: Key, b: Key) {
    |a| <= |b| && b[..|a|] == a
  }

  /** The model of tsCompareString(a, |a|, b, |b|, prefix). */
  function Compare(a: Key, b: Key, prefix: bool): (c: int)
    ensures -1 <= c <= 1
    decreases |a|
  {
    if |a| == 0 then (if prefix || |b| == 0 then 0 else -1)
    else if |b| == 0 then 1
    else if a[0] < b[0] then -1
    else if a[0] > b[0] then 1
    else Compare(a[1..], b[1..], prefix)
  }

  /** Strict order of keys as the normal-mode comparison sees it. */
  predicate Less(a: Key, b: Key) {
    Compare(a, b, false) < 0
  }

  /** Keys in strictly increasing order: sorted and free of duplicates. */
  predicate StrictlySorted(keys: seq<Key>) {
    forall i, j :: 0 <= i < j < |keys| ==> Less(keys[i], keys[j])
  }

  /** Normal mode answers 0 exactly for equal keys. */
  lemma {:induction false} CompareZeroIffEqual(a: Key, b: Key)
    ensures Compare(a, b, false) == 0 <==> a == b
    decreases |a|
  {
    if |a| > 0 && |b| > 0 && a[0] == b[0] {
      CompareZeroIffEqual(a[1..], b[1..]);
      assert a == [a[0]] + a[1..] && b == [b[0]] + b[1..];
    }
  }

  /** Swapping the arguments of a normal-mode comparison negates it. */
  lemma {:induction false} CompareAntisymmetric(a: Key, b: Key)
    ensures Compare(a, b, false) == -Compare(b, a, false)
    decreases |a|
  {
    if |a| > 0 && |b| > 0 && a[0] == b[0] {
      CompareAntisymmetric(a[1..], b[1..]);
    }
  }

  /** The normal-mode order is transitive. */
  lemma {:induction false} LessTransitive(a: Key, b: Key, c: Key)
    requires Less(a, b) && Less(b, c)
    ensures Less(a, c)
    decreases |a|
  {
    if |a| > 0 && |b| > 0 && |c| > 0 && a[0] == b[0] && b[0] == c[0] {
      LessTransitive(a[1..], b[1..], c[1..]);
    }
  }

  /** "Not greater": the comparison answers 0 or less. */
  predicate NotGreater(a: Key, b: Key) {
    Compare(a, b, false) <= 0
  }

  /** A strictly smaller key is a different key, and not also a greater one. */
  lemma LessAsymmetric(a: Key, b: Key)
    requires Less(a, b)
    ensures a != b && !Less(b, a) && !NotGreater(b, a)
  {
    CompareZeroIffEqual(a, b);
    CompareAntisymmetric(a, b);
  }

  /** Any two keys are comparable: not greater one way, or strictly less the other. */
  lemma NotGreaterTotal(a: Key, b: Key)
    ensures NotGreater(a, b) <==> (a == b || Less(a, b))
    ensures !Less(a, b) ==> NotGreater(b, a)
  {
    CompareZeroIffEqual(a, b);
    CompareAntisymmetric(a, b);
  }

  /** "Not greater" is transitive, and strict if either step is. */
  lemma NotGreaterTransitive(a: Key, b: Key, c: Key)
    requires NotGreater(a, b) && NotGreater(b, c)
    ensures NotGreater(a, c)
    ensures (Less(a, b) || Less(b, c)) ==> Less(a, c)
  {
    NotGreaterTotal(a, b);
    NotGreaterTotal(b, c);
    if Less(a, b) && Less(b, c) {
      LessTransitive(a, b, c);
    }
  }

  /** Prefix mode answers 0 exactly when the first key is a byte prefix of the second. */
  lemma {:induction false} ComparePrefixMode(a: Key, b: Key)
    ensures Compare(a, b, true) == 0 <==> IsPrefix(a, b)
    decreases |a|
  {
    if |a| > 0 && |b| > 0 && a[0] == b[0] {
      ComparePrefixMode(a[1..], b[1..]);
      assert IsPrefix(a, b) <==> IsPrefix(a[1..], b[1..]) by {
        if IsPrefix(a[1..], b[1..]) {
          assert b[..|a|] == [b[0]] + b[1..][..|a| - 1];
          assert a == [a[0]] + a[1..];
        }
        if IsPrefix(a, b) {
          assert b[1..][..|a| - 1] == b[..|a|][1..];
        }
      }
    } else if |a| > 0 && |b| > 0 && |a| <= |b| {
      assert b[..|a|][0] == b[0];
    }
  }

  /** A key never sorts after a key it is a prefix of. */
  lemma {:induction false} PrefixNotGreater(a: Key, b: Key)
    requires IsPrefix(a, b)
    ensures NotGreater(a, b)
    decreases |a|
  {
    if |a| > 0 {
      assert b[0] == b[..|a|][0] == a[0];
      assert b[1..][..|a| - 1] == b[..|a|][1..];
      PrefixNotGreater(a[1..], b[1..]);
    }
  }

  /**
   * The keys having a given prefix are contiguous in key order: a key that
   * lies between the prefix and a key having that prefix has it too.
   */
  lemma {:induction false} PrefixConvex(q: Key, e: Key, f: Key)
    requires NotGreater(q, e) && NotGreater(e, f)
    requires IsPrefix(q, f)
    ensures IsPrefix(q, e)
    decreases |q|
  {
    if |q| > 0 {
      assert f[0] == f[..|q|][0] == q[0];
      assert f[1..][..|q| - 1] == f[..|q|][1..];
      if e == q || e == f {
      } else {
        assert |e| > 0;
        assert e[0] == q[0] by {
          assert q[0] <= e[0] <= f[0];
        }
        NotGreaterTotal(q, e);
        NotGreaterTotal(e, f);
        PrefixConvex(q[1..], e[1..], f[1..]);
        assert e[..|q|] == [e[0]] + e[1..][..|q| - 1];
        assert q == [q[0]] + q[1..];
      }
    }
  }
}
