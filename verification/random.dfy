/** The engine's single `java.util.Random` stream, as an explicit value.

    The generator's arithmetic is not modelled: a stream is any infinite
    sequence of raw naturals, and `nextInt(n)` reads the next raw value modulo
    `n`.  Every sequence of in-range draws is produced by some stream (see
    `AnyDrawReachable`), so a property proved for all streams holds for
    whatever values the real generator returns.  What is kept exactly is the
    ORDER in which the engine consumes draws: one stream position per
    `nextInt` or `nextDouble` call. */
module Random {

  datatype Rng = Rng(stream: nat -> nat, cursor: nat)

  /** `nextDouble` returns k / 2^53 for some k in [0, 2^53). */
  const DoubleUnits: nat := 0x20_0000_0000_0000

  function Raw(rng: Rng, offset: nat): nat {
    rng.stream(rng.cursor + offset)
  }

  /** The value `nextInt(bound)` returns `offset` draws from now. */
  function IntAt(rng: Rng, offset: nat, bound: int): (v: nat)
    requires bound > 0
    ensures v < bound
  {
    Raw(rng, offset) % bound
  }

  /** The value `nextDouble()` returns `offset` draws from now. */
  function DoubleAt(rng: Rng, offset: nat): (d: real)
    ensures 0.0 <= d < 1.0
  {
    (Raw(rng, offset) % DoubleUnits) as real / DoubleUnits as real
  }

  /** The stream after `n` draws. */
  function Skip(rng: Rng, n: nat): (r: Rng)
    ensures r.stream == rng.stream && r.cursor == rng.cursor + n
    ensures forall k: nat {:trigger Raw(r, k)} :: Raw(r, k) == Raw(rng, n + k)
  {
    rng.(cursor := rng.cursor + n)
  }

  /** One `nextInt(bound)` call: the draw and the stream after it. */
  function NextInt(rng: Rng, bound: int): (r: (nat, Rng))
    requires bound > 0
    ensures r.0 < bound
    ensures r.1.stream == rng.stream && r.1.cursor == rng.cursor + 1
  {
    (IntAt(rng, 0, bound), Skip(rng, 1))
  }

  /** Any value a `nextInt(bound)` call may return is the draw of some stream. */
  lemma AnyDrawReachable(bound: int, v: nat)
    requires v < bound
    ensures NextInt(Rng(_ => v, 0), bound).0 == v
  {
    SmallRemainder(v, bound);
  }

  lemma SmallRemainder(v: nat, bound: int)
    requires v < bound
    ensures v % bound == v
  {
  }
}
