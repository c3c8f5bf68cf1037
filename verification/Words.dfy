/** Optional values, results and cursor-carrying parse results. */
module Wrappers {
  datatype Option<T> = None | Some(value: T)
  datatype Result<T, E> = Ok(value: T) | Err(error: E)
  datatype Parsed<T> = Parsed(item: T, next: nat)
}

/** Fixed-width unsigned arithmetic, written out over unbounded naturals. */
module Words {
  const U8_MAX: nat := 0xFF
  const U32_MAX: nat := 0xFFFF_FFFF
  const U64_MAX: nat := 0xFFFF_FFFF_FFFF_FFFF

  type Byte = b: int | 0 <= b < 256
  type Bytes = seq<Byte>

  function Min(a: int, b: int): int { if a <= b then a else b }
  function Max(a: int, b: int): int { if a <= b then b else a }

  function SatAdd64(a: nat, b: nat): nat { Min(a + b, U64_MAX) }
  function SatMul64(a: nat, b: nat): nat { Min(a * b, U64_MAX) }
  function SatSub(a: nat, b: nat): nat { if a <= b then 0 else a - b }
  function SatInc8(a: nat): nat { Min(a + 1, U8_MAX) }

  /** `fetch_sub(1)` on an unsigned atomic: zero wraps to the maximum. */
  function WrappingDec64(a: nat): nat { if a == 0 then U64_MAX else a - 1 }

  lemma MulMonotone(a: nat, b: nat, c: nat)
    requires a <= b
    ensures a * c <= b * c
  {
    assert b * c == a * c + (b - a) * c;
  }

  lemma MulSuccessor(n: nat, c: nat)
    ensures (n + 1) * c == n * c + c
  {
  }

  lemma DivAtLeast(q: nat, d: nat, x: nat)
    requires d > 0
    ensures q * d <= x <==> q <= x / d
  {
    assert x == x / d * d + x % d;
    if q > x / d {
      MulMonotone(x / d + 1, q, d);
      MulSuccessor(x / d, d);
    } else {
      MulMonotone(q, x / d, d);
    }
  }

  lemma MultipleOf(n: nat, d: nat)
    requires d >= 1
    ensures n * d / d == n && n * d % d == 0
  {
    DivAtLeast(n, d, n * d);
    DivAtLeast(n + 1, d, n * d);
    MulSuccessor(n, d);
  }

  lemma SmallDiv(a: nat, d: nat)
    requires a < d
    ensures a / d == 0
  {
  }

  lemma DivModUnique(x: nat, d: nat, q: nat, r: nat)
    requires r < d && x == q * d + r
    ensures x / d == q && x % d == r
  {
    DivAtLeast(q, d, x);
    DivAtLeast(q + 1, d, x);
    MulSuccessor(q, d);
    assert x == x / d * d + x % d;
  }
}

/** Byte strings standing inside others. */
module ByteStrings {
  import opened Words

  /** `bytes` stands in `input` at `cursor`. */
  predicate StandsAt(input: Bytes, cursor: nat, bytes: Bytes) {
    cursor + |bytes| <= |input| && input[cursor..cursor + |bytes|] == bytes
  }

  lemma Standing(before: Bytes, bytes: Bytes, after: Bytes)
    ensures StandsAt(before + bytes + after, |before|, bytes)
  {
  }

  lemma Rejoined(bytes: Bytes, from: nat, middle: nat)
    requires from <= middle <= |bytes|
    ensures bytes[from..middle] + bytes[middle..] == bytes[from..]
  {
  }

  lemma StandsSplit(input: Bytes, cursor: nat, a: Bytes, b: Bytes)
    requires StandsAt(input, cursor, a + b)
    ensures StandsAt(input, cursor, a) && StandsAt(input, cursor + |a|, b)
  {
    var all := input[cursor..cursor + |a| + |b|];
    assert all[..|a|] == a && all[|a|..] == b;
  }
}
