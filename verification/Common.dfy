/** Helpers shared by the models. */
module Common {
  datatype Option<+T> = None | Some(value: T)

  const INT32_RANGE := 0x1_0000_0000

  /** The conversion of a wider integer to a 32-bit int. */
  function ToInt32(x: int): (r: int)
    ensures -0x8000_0000 <= r < 0x8000_0000
    ensures r == x <==> -0x8000_0000 <= x < 0x8000_0000
    ensures (x - r) % INT32_RANGE == 0
  {
    var low := x % INT32_RANGE;
    if low < 0x8000_0000 then low else low - INT32_RANGE
  }

  /** A remainder whose dividend is less than twice its divisor needs one subtraction at most. */
  lemma WrapOnce(a: nat, n: nat)
    requires a < 2 * n
    ensures a % n == if a < n then a else a - n
  {
    if a >= n {
      assert a == 1 * n + (a - n);
      ModIsRest(a, n, 1, a - n);
    }
  }

  lemma ModIsRest(a: nat, n: nat, q: nat, r: nat)
    requires n > 0 && a == q * n + r && r < n
    ensures a % n == r
  {
    var q' := a / n;
    assert a == q' * n + a % n;
    assert (q - q') * n == a % n - r;
    if q != q' {
      MultipleIsLarge(q - q', n);
    }
  }

  lemma MultipleIsLarge(x: int, n: nat)
    requires x != 0
    ensures x * n >= n || x * n + n <= 0
  {
  }

  lemma Regroup<T>(a: seq<T>, b: seq<T>, c: seq<T>)
    ensures (a + b) + c == a + (b + c)
  {
  }

  lemma BackAndForth(v: bv8)
    ensures (v as int) as bv8 == v
  {
  }

  lemma NextBits(v: bv8)
    requires v < 255
    ensures (v + 1) as int == v as int + 1
  {
  }

  lemma {:induction false} BitsOf(b: nat) returns (v: bv8)
    requires b < 256
    ensures v as int == b
  {
    if b == 0 {
      v := 0;
    } else {
      var u := BitsOf(b - 1);
      BelowTop(u);
      NextBits(u);
      v := u + 1;
    }
  }

  lemma BelowTop(u: bv8)
    requires u as int < 255
    ensures u < 255
  {
  }

  lemma BitsOfByte(b: nat)
    requires b < 256
    ensures (b as bv8) as int == b
  {
    var v := BitsOf(b);
    BackAndForth(v);
  }
}
