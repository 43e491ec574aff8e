/**
 * getWeights (rum_ts_utils.c): the validation of the optional weight array a
 * ranking call may pass, one weight per lexeme class D, C, B, A.
 */
module Weights {
  import opened Common

  /** A float4[] argument: its number of dimensions and its elements (SQL NULL as None). */
  datatype WeightArray = WeightArray(ndim: nat, elems: seq<Option<real>>)

  /** The ereport(ERROR) cases of getWeights, in the order they are tested. */
  datatype WeightError = NotOneDimensional | TooShort | ContainsNulls | OutOfRange

  /** The static default weights {0.1, 0.2, 0.4, 1.0}. */
  const DefaultWeights: seq<real> := [0.1, 0.2, 0.4, 1.0]

  /** array_contains_nulls */
  predicate HasNulls(a: WeightArray) {
    exists i :: 0 <= i < |a.elems| && a.elems[i].None?
  }

  /** The weight used for class i: the array's value when it is not negative, the default otherwise. */
  function Resolved(a: WeightArray, i: nat): real
    requires i < 4 <= |a.elems| && a.elems[i].Some?
  {
    if a.elems[i].value >= 0.0 then a.elems[i].value else DefaultWeights[i]
  }

  /** What getWeights returns for an argument (NULL as None), or the error it raises. */
  function WeightsOf(win: Option<WeightArray>): Result<seq<real>, WeightError> {
    match win
    case None => Success(DefaultWeights)
    case Some(a) =>
      if a.ndim != 1 then Failure(NotOneDimensional)
      else if |a.elems| < 4 then Failure(TooShort)
      else if HasNulls(a) then Failure(ContainsNulls)
      else if exists i :: 0 <= i < 4 && Resolved(a, i) > 1.0 then Failure(OutOfRange)
      else Success(seq(4, i requires 0 <= i < 4 => Resolved(a, i)))
  }

  /**
   * getWeights: the defaults for a NULL argument; otherwise the checks in
   * order, then the copy into the per-call buffer ws, failing on the first
   * resolved weight above 1.
   */
  method GetWeights(win: Option<WeightArray>) returns (r: Result<seq<real>, WeightError>)
    ensures r == WeightsOf(win)
  {
    if win.None? {
      return Success(DefaultWeights);
    }
    var a := win.value;
    if a.ndim != 1 {
      return Failure(NotOneDimensional);
    }
    if |a.elems| < |DefaultWeights| {
      return Failure(TooShort);
    }
    var i := 0;
    while i < |a.elems|
      invariant 0 <= i <= |a.elems|
      invariant forall k :: 0 <= k < i ==> a.elems[k].Some?
    {
      if a.elems[i].None? {
        return Failure(ContainsNulls);
      }
      i := i + 1;
    }
    assert !HasNulls(a);
    var ws := new real[|DefaultWeights|];
    i := 0;
    while i < |DefaultWeights|
      invariant 0 <= i <= 4
      invariant forall k :: 0 <= k < i ==> ws[k] == Resolved(a, k) && ws[k] <= 1.0
    {
      var arrdata := a.elems[i].value;
      ws[i] := if arrdata >= 0.0 then arrdata else DefaultWeights[i];
      if ws[i] > 1.0 {
        assert Resolved(a, i) > 1.0;
        return Failure(OutOfRange);
      }
      i := i + 1;
    }
    assert ws[..] == seq(4, k requires 0 <= k < 4 => Resolved(a, k));
    assert !exists k :: 0 <= k < 4 && Resolved(a, k) > 1.0;
    r := Success(ws[..]);
  }

  /** Every weight getWeights accepts or supplies lies in [0, 1], one per lexeme class. */
  lemma WeightsInRange(win: Option<WeightArray>)
    requires WeightsOf(win).Success?
    ensures |WeightsOf(win).value| == 4
    ensures forall i :: 0 <= i < 4 ==> 0.0 <= WeightsOf(win).value[i] <= 1.0
  {
    if win.Some? {
      var a := win.value;
      forall i | 0 <= i < 4 ensures 0.0 <= WeightsOf(win).value[i] <= 1.0 {
        assert !(Resolved(a, i) > 1.0);
      }
    }
  }

  /** Of a valid array only the first four elements matter. */
  lemma WeightsReadFirstFour(a: WeightArray, b: WeightArray)
    requires a.ndim == b.ndim == 1 && |a.elems| >= 4 && |b.elems| >= 4
    requires !HasNulls(a) && !HasNulls(b)
    requires a.elems[..4] == b.elems[..4]
    ensures WeightsOf(Some(a)) == WeightsOf(Some(b))
  {
    forall i | 0 <= i < 4 ensures Resolved(a, i) == Resolved(b, i) {
      assert a.elems[i] == a.elems[..4][i] && b.elems[i] == b.elems[..4][i];
    }
    assert (exists i :: 0 <= i < 4 && Resolved(a, i) > 1.0) <==> (exists i :: 0 <= i < 4 && Resolved(b, i) > 1.0);
    assert seq(4, i requires 0 <= i < 4 => Resolved(a, i)) == seq(4, i requires 0 <= i < 4 => Resolved(b, i));
  }

  /** The weights getWeights returns, passed back in as an array, come back unchanged. */
  lemma WeightsFixedPoint(win: Option<WeightArray>)
    requires WeightsOf(win).Success?
    ensures var w := WeightsOf(win).value;
      WeightsOf(Some(WeightArray(1, seq(|w|, i requires 0 <= i < |w| => Some(w[i]))))) == Success(w)
  {
    WeightsInRange(win);
    var w := WeightsOf(win).value;
    var b := WeightArray(1, seq(|w|, i requires 0 <= i < |w| => Some(w[i])));
    assert !HasNulls(b);
    forall i | 0 <= i < 4 ensures Resolved(b, i) == w[i] {
    }
    assert WeightsOf(Some(b)).value == w;
  }
}
