/** Register widths and memory ports as the Amaranth designs of both days
    declare them: `2 ^ k`, truncation to a width, the width of a signal
    declared `range(n)`, and a synchronous write port whose address is cut
    to the memory's address width. */
module Registers {

  /** `2 ^ k`: the number of values of a `k`-bit register. */
  function Pow2(k: nat): (p: nat)
    ensures p >= 1
  {
    if k == 0 then 1 else 2 * Pow2(k - 1)
  }

  lemma {:induction false} Pow2Add(a: nat, b: nat)
    ensures Pow2(a + b) == Pow2(a) * Pow2(b)
  {
    if b > 0 {
      Pow2Add(a, b - 1);
      assert Pow2(a + b) == 2 * Pow2(a + b - 1);
    }
  }

  /** `2^k < 2^n` for `k < n`. */
  lemma {:induction false} Pow2Increasing(k: nat, n: nat)
    requires k < n
    ensures Pow2(k) < Pow2(n)
  {
    if k < n - 1 {
      Pow2Increasing(k, n - 1);
    }
  }

  /** `x.bit_length()` for a natural number: the number of bits needed. */
  function BitLength(x: nat): (k: nat)
    ensures x < Pow2(k)
    ensures k > 0 ==> Pow2(k - 1) <= x
  {
    if x == 0 then 0 else BitLength(x / 2) + 1
  }

  /** The width of a signal declared `range(n)`: enough bits for `n - 1`,
      none for a single value. */
  function RangeWidth(n: nat): (k: nat)
    ensures n <= Pow2(k)
  {
    if n == 0 then 0 else BitLength(n - 1)
  }

  /** A power-of-two depth is addressed by exactly its exponent's bits. */
  lemma RangeWidthOfPow2(k: nat)
    ensures RangeWidth(Pow2(k)) == k
  {
    BitLengthBelowPow2(k);
  }

  lemma {:induction false} BitLengthBelowPow2(k: nat)
    ensures BitLength(Pow2(k) - 1) == k
  {
    if k > 0 {
      BitLengthBelowPow2(k - 1);
      var p := Pow2(k - 1);
      assert Pow2(k) - 1 == 2 * p - 1;
      assert (2 * p - 1) / 2 == p - 1;
    }
  }

  /** Truncation to the register width: `a` brought into `[0, m)` by whole
      multiples of `m`. */
  function Wrap(a: int, m: nat): (w: int)
    requires m > 0
    ensures 0 <= w < m
    ensures 0 <= a < m ==> w == a
    decreases if a < 0 then 1 else 0, if a < 0 then -a else a
  {
    if 0 <= a < m then a
    else if a >= m then Wrap(a - m, m)
    else Wrap(a + m, m)
  }

  /** The truncation is the remainder of Euclidean division. */
  lemma {:induction false} WrapIsMod(a: int, m: nat)
    requires m > 0
    ensures Wrap(a, m) == a % m
    decreases if a < 0 then 1 else 0, if a < 0 then -a else a
  {
    if 0 <= a < m {
      ModRange(a, m);
    } else if a >= m {
      WrapIsMod(a - m, m);
      ModShift(a - m, m);
    } else {
      WrapIsMod(a + m, m);
      ModShift(a, m);
    }
  }

  /** Adding the modulus does not change the remainder. */
  lemma ModShift(a: int, m: int)
    requires m > 0
    ensures (a + m) % m == a % m
  {
    var q, r := a / m, a % m;
    assert a + m == m * (q + 1) + r;
    var k := (a + m) / m - (q + 1);
    assert m * k == r - (a + m) % m;
  }

  /** Adding a whole multiple of the modulus does not change the remainder. */
  lemma {:induction false} ModMultiple(a: int, k: nat, m: int)
    requires m > 0
    ensures (a + k * m) % m == a % m
  {
    if k > 0 {
      ModMultiple(a, k - 1, m);
      assert a + k * m == (a + (k - 1) * m) + m;
      ModShift(a + (k - 1) * m, m);
    }
  }

  /** Counting up in a modular register. */
  lemma ModIncrement(a: nat, m: int)
    requires m > 0
    ensures (a % m + 1) % m == (a + 1) % m
  {
    var q, r := a / m, a % m;
    assert a + 1 == (r + 1) + q * m;
    ModMultiple(r + 1, q, m);
  }

  /** `a mod n` for `a` in `[0, 2n)`. */
  lemma ModRange(a: int, n: int)
    requires n > 0
    ensures 0 <= a < n ==> a % n == a
    ensures n <= a < 2 * n ==> a % n == a - n
  {
    if 0 <= a < n {
      assert a == n * 0 + a;
    } else if n <= a < 2 * n {
      assert a == n * 1 + (a - n);
    }
  }

  /** A register of `width` bits counting up by one: it wraps to 0 after
      its largest value. */
  function Increment(x: nat, width: nat): (y: nat)
    ensures y < Pow2(width)
    ensures x + 1 < Pow2(width) ==> y == x + 1
    ensures x + 1 == Pow2(width) ==> y == 0
  {
    ModRange(x + 1, Pow2(width));
    (x + 1) % Pow2(width)
  }

  /** A write through a synchronous memory write port: the address
      register's value is cut to the port's `range(depth)` width, and a write
      to an address at or past the depth changes nothing.  Below the depth
      it is an ordinary update. */
  function PortWrite<T>(mem: seq<T>, addr: nat, v: T): (m: seq<T>)
    ensures |m| == |mem|
    ensures addr < |mem| ==> m == mem[addr := v]
  {
    var p := Pow2(RangeWidth(|mem|));
    ModRange(addr, p);
    var a := addr % p;
    if a < |mem| then mem[a := v] else mem
  }

  /** On a memory whose depth is a power of two, an address register one bit
      wider than the port writes the slot `depth` below its value: writing
      at `depth` overwrites slot 0. */
  lemma PortWriteWrapsAround<T>(mem: seq<T>, k: nat, addr: nat, v: T)
    requires |mem| == Pow2(k) && |mem| <= addr < 2 * |mem|
    ensures PortWrite(mem, addr, v) == mem[addr - |mem| := v]
  {
    RangeWidthOfPow2(k);
    ModRange(addr, |mem|);
  }

  /** On a memory whose depth is not a power of two, a write to an address
      between the depth and the port's reach is dropped. */
  lemma PortWritePastDepth<T>(mem: seq<T>, addr: nat, v: T)
    requires |mem| <= addr < Pow2(RangeWidth(|mem|))
    ensures PortWrite(mem, addr, v) == mem
  {
    ModRange(addr, Pow2(RangeWidth(|mem|)));
  }
}
