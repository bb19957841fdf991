/** Small shared vocabulary: optional values (Java's nullable references),
    the engine's failure results, and integer helpers with Java semantics. */
module Util {

  /** A nullable reference: `None` plays the role of Java's `null`. */
  datatype Option<+T> = None | Some(value: T)

  /** The two ways the engine can stop with an unchecked Java exception. */
  datatype Fault =
    | EmptySpawnPool      // `nextInt(spawns.size())` with an empty pool throws
    | MonsterSlotOverrun  // a store past the end of the monster array

  /** Either a value or the fault that aborted the computation; usable with `:-`. */
  datatype Result<+T> = Ok(value: T) | Crash(fault: Fault) {
    predicate IsFailure() {
      Crash?
    }

    function PropagateFailure<U>(): Result<U>
      requires Crash?
    {
      Crash(fault)
    }

    function Extract(): T
      requires Ok?
    {
      value
    }
  }

  function Abs(n: int): (r: nat)
    ensures r == n || r == -n
  {
    if n < 0 then -n else n
  }

  /** -1, 0 or 1 according to the sign of `n`. */
  function Sign(n: int): (r: int)
    ensures -1 <= r <= 1
    ensures r * n == Abs(n)
    ensures r == 0 <==> n == 0
  {
    if n > 0 then 1 else if n < 0 then -1 else 0
  }

  function Min(a: int, b: int): int {
    if a <= b then a else b
  }

  function Max(a: int, b: int): int {
    if a >= b then a else b
  }

  /** Java's integer division, which truncates toward zero (Dafny's `/` is Euclidean). */
  function JavaDiv(a: int, b: int): int
    requires b > 0
  {
    if a >= 0 then a / b else -((-a) / b)
  }

  /** No element occurs twice. */
  predicate Distinct<T(==)>(s: seq<T>) {
    forall i, j :: 0 <= i < j < |s| ==> s[i] != s[j]
  }

  /** A sequence without repetitions has as many elements as entries. */
  lemma {:induction false} DistinctSize<T>(s: seq<T>)
    requires Distinct(s)
    ensures |set x | x in s| == |s|
  {
    if |s| > 0 {
      var rest := s[1..];
      assert Distinct(rest) by {
        forall i, j | 0 <= i < j < |rest| ensures rest[i] != rest[j] {
          assert rest[i] == s[i + 1] && rest[j] == s[j + 1];
        }
      }
      DistinctSize(rest);
      assert s[0] !in rest by {
        forall k | 0 <= k < |rest| ensures rest[k] != s[0] {
          assert rest[k] == s[k + 1];
        }
      }
      assert (set x | x in s) == (set x | x in rest) + {s[0]} by {
        assert s == [s[0]] + rest;
      }
    }
  }
}
