/** Integer facts about row-major layouts and Euclidean division. */
module IntArith {
  lemma RowMajorInRange(w: int, h: int, x: int, y: int)
    requires 0 <= x < w && 0 <= y < h
    ensures 0 <= y * w + x < w * h
  {
    MulGe(h, y + 1, w);
  }

  lemma MulGe(a: int, b: int, w: int)
    requires a >= b && w > 0
    ensures a * w >= b * w
  {
  }

  lemma DivModCell(w: int, x: int, y: int)
    requires 0 <= x < w && 0 <= y
    ensures (y * w + x) / w == y && (y * w + x) % w == x
  {
    var a := y * w + x;
    var q, r := a / w, a % w;
    assert a == q * w + r && 0 <= r < w;
    assert (q - y) * w == x - r;
    if q > y {
      MulGe(q - y, 1, w);
    } else if q < y {
      MulGe(y - q, 1, w);
    }
  }

  /** The successor's remainder: one more, wrapping to zero after `n - 1`. */
  lemma ModSucc(a: int, n: int)
    requires a >= 0 && n > 0
    ensures (a + 1) % n == if a % n == n - 1 then 0 else a % n + 1
  {
    var q, r := a / n, a % n;
    assert a == q * n + r;
    if r == n - 1 {
      assert a + 1 == (q + 1) * n + 0;
      DivModCell(n, 0, q + 1);
    } else {
      DivModCell(n, r + 1, q);
    }
  }
}
