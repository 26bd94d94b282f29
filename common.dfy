/** Fixed-width unsigned integers of the firmware and a small Option type. */
module Common {

  datatype Option<T> = None | Some(value: T)

  /** uint8_t / byte */
  type u8 = x: int | 0 <= x < 0x100
  /** uint16_t */
  type u16 = x: int | 0 <= x < 0x1_0000
  /** unsigned long on the ESP32 (32 bits) */
  type u32 = x: int | 0 <= x < 0x1_0000_0000

  /** Euclidean quotient and remainder are unique. */
  lemma DivModUnique(n: nat, d: nat, q: nat, r: nat)
    requires 0 <= r < d && n == d * q + r
    ensures n % d == r && n / d == q
  {
    var q', r' := n / d, n % d;
    assert n == d * q' + r';
    var k := q - q';
    assert d * q - d * q' == d * k;
    assert d * k == r' - r;
    if k > 0 {
      MulAtLeast(d, k);
    }
  }

  lemma {:induction false} MulAtLeast(d: nat, k: nat)
    requires k >= 1
    ensures d * k >= d
  {
    if k > 1 {
      MulAtLeast(d, k - 1);
      assert d * k == d * (k - 1) + d;
    }
  }
}
