/** Conversions between booleans and their bipolar codes: true is 1 and
    false is -1. */
module BiPolarUtil {
  import opened Errors

  /** The two bipolar codes. */
  predicate IsBipolar(d: real) {
    d == 1.0 || d == -1.0
  }

  /** The bipolar code of a boolean. */
  function BipolarToDouble(b: bool): (d: real)
    ensures IsBipolar(d)
    ensures d == 1.0 <==> b
  {
    if b then 1.0 else -1.0
  }

  /** The boolean a bipolar code stands for; any other number is an error. */
  function DoubleToBipolar(d: real): (r: Result<bool>)
    ensures r.Ok? <==> IsBipolar(d)
    ensures r.Err? ==> r.error == NotBipolarDecimal
    ensures r.Ok? ==> BipolarToDouble(r.value) == d
  {
    if d != -1.0 && d != 1.0 then Err(NotBipolarDecimal) else Ok(d == 1.0)
  }

  /** Decoding the code of a boolean gives the boolean back. */
  lemma BooleanRoundTrip(b: bool)
    ensures DoubleToBipolar(BipolarToDouble(b)) == Ok(b)
  {
  }

  /** The bipolar codes of a line of booleans, element by element. */
  function BipolarSeq(s: seq<bool>): (r: seq<real>)
    ensures |r| == |s|
  {
    seq(|s|, i requires 0 <= i < |s| => BipolarToDouble(s[i]))
  }

  /** The square of a bipolar code is 1, so the diagonal of the outer
      product of a pattern with itself is all ones. */
  lemma BipolarSquare(s: seq<bool>, i: nat)
    requires i < |s|
    ensures BipolarSeq(s)[i] * BipolarSeq(s)[i] == 1.0
  {
  }

  /** The codes of `b`, in a fresh array of the same length. */
  method BipolarToDoubleArray(b: array<bool>) returns (dec: array<real>)
    ensures fresh(dec) && dec[..] == BipolarSeq(b[..])
  {
    dec := new real[b.Length];
    for i := 0 to b.Length
      invariant forall k :: 0 <= k < i ==> dec[k] == BipolarToDouble(b[k])
    {
      dec[i] := BipolarToDouble(b[i]);
    }
  }

  /** The booleans coded by `d`, in a fresh array of the same length; an
      error as soon as one element is not a bipolar code. */
  method DoubleToBipolarArray(d: array<real>) returns (r: Result<array<bool>>)
    ensures r.Err? <==> exists k :: 0 <= k < d.Length && !IsBipolar(d[k])
    ensures r.Err? ==> r.error == NotBipolarDecimal
    ensures r.Ok? ==> fresh(r.value) && BipolarSeq(r.value[..]) == d[..]
  {
    var bip := new bool[d.Length];
    for i := 0 to d.Length
      invariant forall k :: 0 <= k < i ==> IsBipolar(d[k]) && BipolarToDouble(bip[k]) == d[k]
    {
      var b := DoubleToBipolar(d[i]);
      if b.Err? {
        return Err(b.error);
      }
      bip[i] := b.value;
    }
    return Ok(bip);
  }

  /** The codes of a rectangular array of booleans, in a fresh array of the
      same shape. The first row must exist: its length gives the width. */
  method BipolarToDoubleGrid(b: array2<bool>) returns (dec: array2<real>)
    requires b.Length0 >= 1
    ensures fresh(dec) && dec.Length0 == b.Length0 && dec.Length1 == b.Length1
    ensures forall i, j :: 0 <= i < b.Length0 && 0 <= j < b.Length1 ==> dec[i, j] == BipolarToDouble(b[i, j])
  {
    dec := new real[b.Length0, b.Length1];
    for i := 0 to b.Length0
      invariant forall p, q :: 0 <= p < i && 0 <= q < b.Length1 ==> dec[p, q] == BipolarToDouble(b[p, q])
    {
      for j := 0 to b.Length1
        invariant forall p, q :: 0 <= p < i && 0 <= q < b.Length1 ==> dec[p, q] == BipolarToDouble(b[p, q])
        invariant forall q :: 0 <= q < j ==> dec[i, q] == BipolarToDouble(b[i, q])
      {
        dec[i, j] := BipolarToDouble(b[i, j]);
      }
    }
  }

  /** The booleans coded by a rectangular array, in a fresh array of the
      same shape; an error as soon as one cell is not a bipolar code. */
  method DoubleToBipolarGrid(d: array2<real>) returns (r: Result<array2<bool>>)
    requires d.Length0 >= 1
    ensures r.Err? <==> exists i, j :: 0 <= i < d.Length0 && 0 <= j < d.Length1 && !IsBipolar(d[i, j])
    ensures r.Err? ==> r.error == NotBipolarDecimal
    ensures r.Ok? ==> fresh(r.value) && r.value.Length0 == d.Length0 && r.value.Length1 == d.Length1
    ensures r.Ok? ==> forall i, j :: 0 <= i < d.Length0 && 0 <= j < d.Length1 ==> BipolarToDouble(r.value[i, j]) == d[i, j]
  {
    var bip := new bool[d.Length0, d.Length1];
    for i := 0 to d.Length0
      invariant forall p, q :: 0 <= p < i && 0 <= q < d.Length1 ==> IsBipolar(d[p, q]) && BipolarToDouble(bip[p, q]) == d[p, q]
    {
      for j := 0 to d.Length1
        invariant forall p, q :: 0 <= p < i && 0 <= q < d.Length1 ==> IsBipolar(d[p, q]) && BipolarToDouble(bip[p, q]) == d[p, q]
        invariant forall q :: 0 <= q < j ==> IsBipolar(d[i, q]) && BipolarToDouble(bip[i, q]) == d[i, q]
      {
        var b := DoubleToBipolar(d[i, j]);
        if b.Err? {
          return Err(b.error);
        }
        bip[i, j] := b.value;
      }
    }
    return Ok(bip);
  }
}
