/** Places in a ring of slots that is filled over and over again. */
module Ring {
  lemma LastSlot(n: nat, size: nat)
    requires size >= 2
    ensures n % size == if (n + 1) % size == 0 then size - 1 else (n + 1) % size - 1
  {
    var w, k := n % size, n / size;
    assert n == k * size + w;
    if w + 1 == size {
      assert n + 1 == (k + 1) * size;
      ModIs(n + 1, k + 1, 0, size);
    } else {
      ModIs(n + 1, k, w + 1, size);
    }
  }

  lemma ModIs(x: nat, k: nat, r: nat, size: nat)
    requires r < size && x == k * size + r
    ensures x % size == r
  {
    var q, m := x / size, x % size;
    assert x == q * size + m;
    if k > q {
      AtLeast(k - q, size);
      Apart(k, q, size);
    } else if k < q {
      AtLeast(q - k, size);
      Apart(q, k, size);
    }
  }

  lemma AtLeast(d: nat, size: nat)
    requires d >= 1
    ensures d * size >= size
  {
  }

  lemma Apart(a: nat, b: nat, size: nat)
    requires a >= b
    ensures (a - b) * size == a * size - b * size
  {
  }

  /** Positions less than a turn apart are the same if they fall on the same slot. */
  lemma SameSlot(a: nat, b: nat, size: nat)
    requires a <= b < a + size && a % size == b % size
    ensures a == b
  {
    var p, q := a / size, b / size;
    assert a == p * size + a % size && b == q * size + b % size;
    if q > p {
      Apart(q, p, size);
      AtLeast(q - p, size);
    } else if q < p {
      Apart(p, q, size);
      AtLeast(p - q, size);
    }
  }

  /** The slot after. */
  lemma NextSlot(n: nat, size: nat)
    requires size >= 2
    ensures (n + 1) % size == if n % size + 1 == size then 0 else n % size + 1
  {
    LastSlot(n, size);
  }
}
