/** The local dense kernel of a3/nelson_complete.c. A matrix is an n*n
    buffer in row-major order: entry (i, j) is at index i*n + j. The model
    uses exact `real` arithmetic where the source uses `double`. */
module MatrixKernel {

  lemma MulLe(x: nat, y: nat, n: nat)
    requires x <= y
    ensures x * n <= y * n
  {
    var d := y - x;
    assert y * n == x * n + d * n;
  }

  /** Index i*n + j of a row-major n*n matrix lies inside the buffer. */
  lemma IndexInRange(n: nat, i: nat, j: nat)
    requires i < n && j < n
    ensures i * n + j < n * n
  {
    MulLe(i + 1, n, n);
    assert (i + 1) * n == i * n + n;
  }

  /** a[i][0]*b[0][j] + ... + a[i][m-1]*b[m-1][j] */
  function DotPrefix(n: nat, a: seq<real>, b: seq<real>, i: nat, j: nat, m: nat): real
    requires |a| == n * n && |b| == n * n && i < n && j < n && m <= n
  {
    if m == 0 then 0.0
    else
      IndexInRange(n, i, m - 1);
      IndexInRange(n, m - 1, j);
      DotPrefix(n, a, b, i, j, m - 1) + a[i * n + (m - 1)] * b[(m - 1) * n + j]
  }

  /** One more term of the dot product: x*y with x = a[i][k], y = b[k][j]. */
  lemma DotPrefixStep(n: nat, a: seq<real>, b: seq<real>, i: nat, j: nat, k: nat, x: real, y: real)
    requires |a| == n * n && |b| == n * n && i < n && j < n && k < n
    requires i * n + k < |a| && k * n + j < |b|
    requires x == a[i * n + k] && y == b[k * n + j]
    ensures DotPrefix(n, a, b, i, j, k + 1) == DotPrefix(n, a, b, i, j, k) + x * y
  {
  }

  /** Row i of the product A*B: a[i][0]*b[0][j] + ... for each column j. */
  function ProductRow(n: nat, a: seq<real>, b: seq<real>, i: nat): (r: seq<real>)
    requires |a| == n * n && |b| == n * n && i < n
    ensures |r| == n
  {
    seq(n, j requires 0 <= j < n => DotPrefix(n, a, b, i, j, n))
  }

  /** Rows 0 .. rows-1 of the product A*B, one after another. */
  function ProductRows(n: nat, a: seq<real>, b: seq<real>, rows: nat): (p: seq<real>)
    requires |a| == n * n && |b| == n * n && rows <= n
    ensures |p| == rows * n
  {
    if rows == 0 then []
    else
      assert rows * n == (rows - 1) * n + n;
      ProductRows(n, a, b, rows - 1) + ProductRow(n, a, b, rows - 1)
  }

  /** The matrix product A*B, as a row-major buffer. */
  function Product(n: nat, a: seq<real>, b: seq<real>): (p: seq<real>)
    requires |a| == n * n && |b| == n * n
    ensures |p| == n * n
  {
    ProductRows(n, a, b, n)
  }

  /** Elementwise sum of two buffers of the same length. */
  function Add(x: seq<real>, y: seq<real>): (r: seq<real>)
    requires |x| == |y|
    ensures |r| == |x|
  {
    seq(|x|, i requires 0 <= i < |x| => x[i] + y[i])
  }

  function Zeros(len: nat): (r: seq<real>)
    ensures |r| == len
  {
    seq(len, _ => 0.0)
  }

  /** Entry (i, j) of the first `rows` rows. */
  lemma {:induction false} ProductRowsEntry(n: nat, a: seq<real>, b: seq<real>, rows: nat, i: nat, j: nat)
    requires |a| == n * n && |b| == n * n && rows <= n && i < rows && j < n
    ensures i * n + j < rows * n
    ensures ProductRows(n, a, b, rows)[i * n + j] == DotPrefix(n, a, b, i, j, n)
  {
    assert rows * n == (rows - 1) * n + n;
    if i < rows - 1 {
      MulLe(i + 1, rows - 1, n);
      assert (i + 1) * n == i * n + n;
      ProductRowsEntry(n, a, b, rows - 1, i, j);
    }
  }

  /** Entry (i, j) of the product is the sum over k of a[i][k]*b[k][j]. */
  lemma ProductEntry(n: nat, a: seq<real>, b: seq<real>, i: nat, j: nat)
    requires |a| == n * n && |b| == n * n && i < n && j < n
    ensures i * n + j < n * n
    ensures Product(n, a, b)[i * n + j] == DotPrefix(n, a, b, i, j, n)
  {
    ProductRowsEntry(n, a, b, n, i, j);
  }

  /** The worked example: [[1,2],[3,4]] times [[5,6],[7,8]] is [[19,22],[43,50]]. */
  lemma ProductExample()
    ensures Product(2, [1.0, 2.0, 3.0, 4.0], [5.0, 6.0, 7.0, 8.0]) == [19.0, 22.0, 43.0, 50.0]
  {
    var a, b := [1.0, 2.0, 3.0, 4.0], [5.0, 6.0, 7.0, 8.0];
    var p := Product(2, a, b);
    ProductEntry(2, a, b, 0, 0);
    ProductEntry(2, a, b, 0, 1);
    ProductEntry(2, a, b, 1, 0);
    ProductEntry(2, a, b, 1, 1);
  }

  /** The innermost loop of MatrixMultiply (a3/nelson_complete.c:11-12):
      c[i*n+j] += a[i*n+k]*b[k*n+j] for k = 0 .. n-1; no other entry changes. */
  method AccumulateEntry(n: nat, a: array<real>, b: array<real>, c: array<real>, i: nat, j: nat)
    requires a.Length == n * n && b.Length == n * n && c.Length == n * n
    requires c != a && c != b && i < n && j < n
    modifies c
    ensures i * n + j < n * n
    ensures c[i * n + j] == old(c[i * n + j]) + DotPrefix(n, a[..], b[..], i, j, n)
    ensures forall q :: 0 <= q < c.Length && q != i * n + j ==> c[q] == old(c[q])
  {
    IndexInRange(n, i, j);
    ghost var A, B, C := a[..], b[..], c[..];
    var idx := i * n + j;
    for k := 0 to n
      invariant c[idx] == C[idx] + DotPrefix(n, A, B, i, j, k)
      invariant forall q :: 0 <= q < |C| && q != idx ==> c[q] == C[q]
    {
      IndexInRange(n, i, k);
      IndexInRange(n, k, j);
      var x, y := a[i * n + k], b[k * n + j];
      DotPrefixStep(n, A, B, i, j, k, x, y);
      c[idx] := c[idx] + x * y;
    }
    assert a[..] == A && b[..] == B;
  }

  /** MatrixMultiply (a3/nelson_complete.c:8-13): c += a*b. It accumulates
      into c and never overwrites it, and writes nothing but c. */
  method MatrixMultiply(n: nat, a: array<real>, b: array<real>, c: array<real>)
    requires a.Length == n * n && b.Length == n * n && c.Length == n * n
    requires c != a && c != b
    modifies c
    ensures c[..] == Add(old(c[..]), Product(n, a[..], b[..]))
  {
    ghost var A, B, c0 := a[..], b[..], c[..];
    ghost var p := Product(n, A, B);
    for i := 0 to n
      invariant forall q :: 0 <= q < i * n && q < c.Length ==> c[q] == c0[q] + p[q]
      invariant forall q :: i * n <= q < c.Length ==> c[q] == c0[q]
    {
      for j := 0 to n
        invariant forall q :: 0 <= q < i * n + j && q < c.Length ==> c[q] == c0[q] + p[q]
        invariant forall q :: i * n + j <= q < c.Length ==> c[q] == c0[q]
      {
        AccumulateEntry(n, a, b, c, i, j);
        ProductEntry(n, A, B, i, j);
      }
      assert (i + 1) * n == i * n + n;
    }
    assert c[..] == Add(c0, p);
  }

  /** The accumulate loop of a3/nelson_complete.c:69-71: c[i] += tempC[i] for
      every i < n*n; tempC is only read. */
  method Accumulate(n: nat, c: array<real>, tempC: array<real>)
    requires c.Length == n * n && tempC.Length == n * n
    requires c != tempC
    modifies c
    ensures c[..] == Add(old(c[..]), tempC[..])
  {
    ghost var c0 := c[..];
    for i := 0 to n * n
      invariant forall q :: 0 <= q < i ==> c[q] == c0[q] + tempC[q]
      invariant forall q :: i <= q < n * n ==> c[q] == c0[q]
    {
      c[i] := c[i] + tempC[i];
    }
  }
}
