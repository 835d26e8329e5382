/**
 * Java's 32-bit `int`: its range, and the two's-complement wrap-around of
 * `+` and `-`. Every coordinate, id and pointer position in the editor is an
 * `int`, so every sum or difference in the modelled handlers goes through `Wrap`.
 */
module JavaInt {

  const MinInt: int := -0x8000_0000
  const MaxInt: int := 0x7fff_ffff

  /** 2^32: Java's `int` arithmetic is exact modulo this number. */
  const Modulus: int := 0x1_0000_0000

  type Int32 = i: int | -0x8000_0000 <= i <= 0x7fff_ffff

  predicate InRange(i: int) {
    MinInt <= i <= MaxInt
  }

  /** `a` and `b` are equal modulo 2^32, so Java's `int` cannot tell them apart. */
  predicate Congruent(a: int, b: int) {
    (a - b) % Modulus == 0
  }

  /**
   * The `int` that a Java addition or subtraction of two `int`s yields when
   * its exact result is `i`: such a result is off the `int` range by less
   * than 2^32, so at most one multiple of 2^32 comes off.
   */
  function Wrap(i: int): (r: Int32)
    requires MinInt + MinInt <= i <= MaxInt - MinInt
    ensures InRange(i) ==> r == i
    ensures Congruent(r, i)
  {
    if i > MaxInt then
      MultipleIsCongruent(-1);
      i - Modulus
    else if i < MinInt then
      MultipleIsCongruent(1);
      i + Modulus
    else i
  }

  lemma MultipleIsCongruent(k: int)
    ensures Congruent(k * Modulus, 0)
  {
  }

  lemma CongruentAdd(a: int, b: int, c: int, d: int)
    requires Congruent(a, b) && Congruent(c, d)
    ensures Congruent(a + c, b + d)
  {
    var k1 := (a - b) / Modulus;
    var k2 := (c - d) / Modulus;
    assert (a + c) - (b + d) == (k1 + k2) * Modulus;
    MultipleIsCongruent(k1 + k2);
  }

}
