// Row-major index arithmetic.
module Indexing {

  lemma DivMod(q: nat, n: nat, c: nat)
    requires c < n
    ensures (q * n + c) / n == q && (q * n + c) % n == c
  {
    var d, m := (q * n + c) / n, (q * n + c) % n;
    assert d * n + m == q * n + c;
    if d < q {
      Scale(d + 1, q, n);
    } else if q < d {
      Scale(q + 1, d, n);
    }
  }

  lemma Scale(a: nat, b: nat, n: nat)
    requires a <= b
    ensures a * n <= b * n
  {
  }

  lemma Regroup(s: nat, b: nat, t: nat, a: nat, r: nat)
    ensures (s * b + t) * a + r == s * (a * b) + (t * a + r)
  {
    assert (s * b + t) * a == (s * b) * a + t * a;
    assert (s * b) * a == s * (b * a) == s * (a * b);
  }

  lemma DivDiv(i: nat, a: nat, b: nat)
    requires a > 0 && b > 0
    ensures a * b > 0 && i / (a * b) == (i / a) / b
  {
    var q, r := i / a, i % a;
    Recompose(i, a, b, q / b, q % b, r);
  }

  lemma Recompose(i: nat, a: nat, b: nat, s: nat, t: nat, r: nat)
    requires t < b && r < a && i == (s * b + t) * a + r
    ensures a * b > 0 && i / (a * b) == s
  {
    Regroup(s, b, t, a, r);
    assert t * a + r < a * b by { Inside(t, b, r, a); }
    DivMod(s, a * b, t * a + r);
  }

  // Row r, column c of a matrix lies inside it.
  lemma Inside(r: nat, rows: nat, c: nat, cols: nat)
    requires r < rows && c < cols
    ensures r * cols + c < rows * cols
  {
    Scale(r + 1, rows, cols);
  }

  // Conversely an index splits into a row and a column.
  lemma Split(i: nat, rows: nat, cols: nat)
    requires i < rows * cols
    ensures cols > 0 && i / cols < rows && i % cols < cols && i == (i / cols) * cols + i % cols
  {
    if i / cols >= rows {
      Scale(rows, i / cols, cols);
    }
  }

  // Broadcasting: an index into [groups][size][width] leads to a cell of
  // [groups][1][width].
  lemma GroupCell(i: nat, groups: nat, size: nat, width: nat)
    requires i < groups * size * width
    ensures width * size > 0
    ensures i / (width * size) == i / width / size
    ensures i / (width * size) * width + i % width < groups * width
  {
    Split(i, groups * size, width);
    Split(i / width, groups, size);
    DivDiv(i, width, size);
    Inside(i / width / size, groups, i % width, width);
  }
}
