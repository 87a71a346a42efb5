/** fe_sq: about half the products of fe_mul, and the same columns. */
module FeSquare {
  import opened MachineInts
  import opened Field25519
  import opened Limbs
  import opened FeMultiply

  method Square0(f: array<int32>) returns (h: int64)
    requires f.Length == 10 && Bounded(Of(f[..]), E165, O165)
    ensures h as int == Col0(Of(f[..]), Of(f[..])) && -COLUMN <= h as int <= COLUMN
  {
    h := Times(f[0], f[0]) + Times(2 * f[1], 38 * f[9]) + Times(2 * f[2], 19 * f[8]) + Times(2 * f[3], 38 * f[7])
       + Times(2 * f[4], 19 * f[6]) + Times(f[5], 38 * f[5]);
  }

  method Square1(f: array<int32>) returns (h: int64)
    requires f.Length == 10 && Bounded(Of(f[..]), E165, O165)
    ensures h as int == Col1(Of(f[..]), Of(f[..])) && -COLUMN <= h as int <= COLUMN
  {
    h := Times(2 * f[0], f[1]) + Times(f[2], 38 * f[9]) + Times(2 * f[3], 19 * f[8]) + Times(f[4], 38 * f[7])
       + Times(2 * f[5], 19 * f[6]);
  }

  method Square2(f: array<int32>) returns (h: int64)
    requires f.Length == 10 && Bounded(Of(f[..]), E165, O165)
    ensures h as int == Col2(Of(f[..]), Of(f[..])) && -COLUMN <= h as int <= COLUMN
  {
    h := Times(2 * f[0], f[2]) + Times(2 * f[1], f[1]) + Times(2 * f[3], 38 * f[9]) + Times(2 * f[4], 19 * f[8])
       + Times(2 * f[5], 38 * f[7]) + Times(f[6], 19 * f[6]);
  }

  method Square3(f: array<int32>) returns (h: int64)
    requires f.Length == 10 && Bounded(Of(f[..]), E165, O165)
    ensures h as int == Col3(Of(f[..]), Of(f[..])) && -COLUMN <= h as int <= COLUMN
  {
    h := Times(2 * f[0], f[3]) + Times(2 * f[1], f[2]) + Times(f[4], 38 * f[9]) + Times(2 * f[5], 19 * f[8])
       + Times(f[6], 38 * f[7]);
  }

  method Square4(f: array<int32>) returns (h: int64)
    requires f.Length == 10 && Bounded(Of(f[..]), E165, O165)
    ensures h as int == Col4(Of(f[..]), Of(f[..])) && -COLUMN <= h as int <= COLUMN
  {
    h := Times(2 * f[0], f[4]) + Times(2 * f[1], 2 * f[3]) + Times(f[2], f[2]) + Times(2 * f[5], 38 * f[9])
       + Times(2 * f[6], 19 * f[8]) + Times(f[7], 38 * f[7]);
  }

  method Square5(f: array<int32>) returns (h: int64)
    requires f.Length == 10 && Bounded(Of(f[..]), E165, O165)
    ensures h as int == Col5(Of(f[..]), Of(f[..])) && -COLUMN <= h as int <= COLUMN
  {
    h := Times(2 * f[0], f[5]) + Times(2 * f[1], f[4]) + Times(2 * f[2], f[3]) + Times(f[6], 38 * f[9])
       + Times(2 * f[7], 19 * f[8]);
  }

  method Square6(f: array<int32>) returns (h: int64)
    requires f.Length == 10 && Bounded(Of(f[..]), E165, O165)
    ensures h as int == Col6(Of(f[..]), Of(f[..])) && -COLUMN <= h as int <= COLUMN
  {
    h := Times(2 * f[0], f[6]) + Times(2 * f[1], 2 * f[5]) + Times(2 * f[2], f[4]) + Times(2 * f[3], f[3])
       + Times(2 * f[7], 38 * f[9]) + Times(f[8], 19 * f[8]);
  }

  method Square7(f: array<int32>) returns (h: int64)
    requires f.Length == 10 && Bounded(Of(f[..]), E165, O165)
    ensures h as int == Col7(Of(f[..]), Of(f[..])) && -COLUMN <= h as int <= COLUMN
  {
    h := Times(2 * f[0], f[7]) + Times(2 * f[1], f[6]) + Times(2 * f[2], f[5]) + Times(2 * f[3], f[4])
       + Times(f[8], 38 * f[9]);
  }

  method Square8(f: array<int32>) returns (h: int64)
    requires f.Length == 10 && Bounded(Of(f[..]), E165, O165)
    ensures h as int == Col8(Of(f[..]), Of(f[..])) && -COLUMN <= h as int <= COLUMN
  {
    h := Times(2 * f[0], f[8]) + Times(2 * f[1], 2 * f[7]) + Times(2 * f[2], f[6]) + Times(2 * f[3], 2 * f[5])
       + Times(f[4], f[4]) + Times(f[9], 38 * f[9]);
  }

  method Square9(f: array<int32>) returns (h: int64)
    requires f.Length == 10 && Bounded(Of(f[..]), E165, O165)
    ensures h as int == Col9(Of(f[..]), Of(f[..])) && -COLUMN <= h as int <= COLUMN
  {
    h := Times(2 * f[0], f[9]) + Times(2 * f[1], f[8]) + Times(2 * f[2], f[7]) + Times(2 * f[3], f[6])
       + Times(2 * f[4], f[5]);
  }

  /** h = f * f; h may be f. */
  method FeSq(h: array<int32>, f: array<int32>)
    requires h.Length == 10
    requires f.Length == 10 && Bounded(Of(f[..]), E165, O165)
    modifies h
    ensures Bounded(Of(h[..]), E101, O101)
    ensures El(h[..]) == Mul(old(El(f[..])), old(El(f[..])))
  {
    var h0 := Square0(f);
    var h1 := Square1(f);
    var h2 := Square2(f);
    var h3 := Square3(f);
    var h4 := Square4(f);
    var h5 := Square5(f);
    var h6 := Square6(f);
    var h7 := Square7(f);
    var h8 := Square8(f);
    var h9 := Square9(f);
    ProductColumns(Of(f[..]), Of(f[..]));
    ProductIsProduct(Of(f[..]), Of(f[..]));
    h0, h1, h2, h3, h4, h5, h6, h7, h8, h9 := ReduceProduct(h0, h1, h2, h3, h4, h5, h6, h7, h8, h9);
    Store(h, h0, h1, h2, h3, h4, h5, h6, h7, h8, h9);
  }
}
