/** Model of src/utils/random.ts: the rejection-sampling selector that picks
    the next ball, and the colour band a ball is painted with.

    The cryptographic byte source is not modelled as randomness: the selector
    receives the bytes the source would produce, in order, as a sequence.
    Uniformity is stated by counting (lemma UniformHits), not as probability. */
module Random {

  /** One value of a `Uint8Array`. */
  type byte = x: int | 0 <= x < 256

  datatype SelectError =
    | NoNumbersRemaining  // the `throw` on an empty candidate array
    | EntropyExhausted    // the given bytes ran out before one was accepted

  datatype Result<T> = Ok(value: T) | Err(error: SelectError)

  /** The largest byte value that is accepted when choosing among `n`
      candidates: the top of the largest multiple of `n` that fits in a byte. */
  function MaxValid(n: nat): int
    requires n > 0
  {
    (256 / n) * n - 1
  }

  predicate Accepted(b: byte, n: nat)
    requires n > 0
  {
    b <= MaxValid(n)
  }

  /** The bytes suffice to finish a draw among `n` candidates: either no byte
      is needed at all, or one of them is accepted. */
  predicate Completes(n: nat, entropy: seq<byte>)
  {
    n == 1 || (n > 1 && exists j :: 0 <= j < |entropy| && Accepted(entropy[j], n))
  }

  /** getSecureRandom. `used` is the number of bytes drawn from `entropy`. */
  method SecureRandom(remaining: seq<int>, entropy: seq<byte>) returns (result: Result<int>, used: nat)
    ensures used <= |entropy|
    // the empty array is an error, and no byte is drawn for it
    ensures |remaining| == 0 <==> result == Err(NoNumbersRemaining)
    ensures |remaining| == 0 ==> used == 0
    // a single candidate is returned without drawing a byte
    ensures |remaining| == 1 ==> result == Ok(remaining[0]) && used == 0
    // every result is one of the candidates
    ensures result.Ok? ==> result.value in remaining
    // rejection sampling: the last byte drawn is the first accepted one ...
    ensures |remaining| >= 2 && result.Ok? ==>
              0 < used && Accepted(entropy[used - 1], |remaining|)
              && (forall j :: 0 <= j < used - 1 ==> !Accepted(entropy[j], |remaining|))
              && result.value == remaining[entropy[used - 1] % |remaining|]
    // ... and every rejected byte causes another draw, until the bytes run out
    ensures result == Err(EntropyExhausted) <==>
              |remaining| >= 2 && forall j :: 0 <= j < |entropy| ==> !Accepted(entropy[j], |remaining|)
    ensures result == Err(EntropyExhausted) ==> used == |entropy|
    ensures Completes(|remaining|, entropy) ==> result.Ok?
  {
    if |remaining| == 0 {
      return Err(NoNumbersRemaining), 0;
    }
    if |remaining| == 1 {
      return Ok(remaining[0]), 0;
    }
    var n := |remaining|;
    var maxValid := (256 / n) * n - 1;
    used := 0;
    var randomByte: byte := 0;
    var accepted := false;
    while !accepted && used < |entropy|
      invariant used <= |entropy|
      invariant forall j :: 0 <= j < (if accepted then used - 1 else used) ==> entropy[j] > maxValid
      invariant accepted ==> 0 < used && randomByte == entropy[used - 1] && randomByte <= maxValid
      decreases |entropy| - used, !accepted
    {
      randomByte := entropy[used];
      used := used + 1;
      accepted := randomByte <= maxValid;
    }
    if !accepted {
      return Err(EntropyExhausted), used;
    }
    var index := randomByte % n;
    result := Ok(remaining[index]);
  }

  lemma MulLe(a: int, c: int, n: int)
    requires a <= c && 0 <= n
    ensures a * n <= c * n
  {
  }

  /** A value in the block [q*n, q*n + n) has quotient q and remainder b - q*n. */
  lemma DivModOfBlock(b: int, q: int, n: int)
    requires n > 0 && q * n <= b < q * n + n
    ensures b / n == q && b % n == b - q * n
  {
    var d, r := b / n, b % n;
    assert b == d * n + r && 0 <= r < n;
    if d < q {
      assert (d + 1) * n == d * n + n;
      MulLe(d + 1, q, n);
    } else if d > q {
      assert (q + 1) * n == q * n + n;
      MulLe(q + 1, d, n);
    }
  }

  /** The values in 0 .. k-1 that leave remainder i modulo n. */
  ghost function Hits(n: nat, i: nat, k: int): set<int>
    requires n > 0
  {
    set b: int | 0 <= b < k && b % n == i
  }

  /** One more block of n values adds exactly one hit. */
  lemma HitsStep(n: nat, i: nat, q: nat)
    requires 0 < n && i < n
    ensures Hits(n, i, q * n + n) == Hits(n, i, q * n) + {q * n + i}
    ensures q * n + i !in Hits(n, i, q * n)
  {
    var lo, hi := q * n, q * n + n;
    DivModOfBlock(lo + i, q, n);
    forall b | b in Hits(n, i, hi) && b >= lo
      ensures b == lo + i
    {
      DivModOfBlock(b, q, n);
    }
  }

  /** Among 0 .. q*n - 1, exactly q values leave remainder i modulo n. */
  lemma {:induction false} HitsBelow(n: nat, i: nat, q: nat)
    requires 0 < n && i < n
    ensures |Hits(n, i, q * n)| == q
  {
    if q == 0 {
      assert Hits(n, i, 0) == {};
    } else {
      HitsBelow(n, i, q - 1);
      HitsStep(n, i, q - 1);
      assert (q - 1) * n + n == q * n;
    }
  }

  /** The accepted bytes for `n` candidates form a non-empty range 0 .. MaxValid(n)
      whose length is a multiple of `n`; more than half of all byte values are
      accepted, so each draw is accepted more often than it is rejected. */
  lemma AcceptedRange(n: nat)
    requires 1 <= n <= 256
    ensures 0 < MaxValid(n) + 1 <= 256
    ensures (MaxValid(n) + 1) % n == 0
    ensures MaxValid(n) + 1 > 256 - n
    ensures MaxValid(n) + 1 >= 129
  {
    var m := 256 / n;
    assert 256 == m * n + 256 % n;
    assert m >= 1;
    DivModOfBlock(m * n, m, n);
  }

  /** Uniformity as counting: every index 0 .. n-1 is produced, as `byte % n`,
      by exactly (MaxValid(n) + 1) / n accepted byte values. */
  lemma UniformHits(n: nat, i: nat)
    requires 1 <= n <= 256 && i < n
    ensures |set b: int | 0 <= b <= MaxValid(n) && b % n == i| == (MaxValid(n) + 1) / n
  {
    var m := 256 / n;
    assert MaxValid(n) + 1 == m * n;
    HitsBelow(n, i, m);
    assert (set b: int | 0 <= b <= MaxValid(n) && b % n == i) == Hits(n, i, m * n);
    DivModOfBlock(m * n, m, n);
  }

  /** The five colour bands a ball number falls into. */
  datatype Band = Red | Gold | Green | Orange | White

  function BandOf(num: int): (band: Band)
    ensures band == Red <==> num <= 19
    ensures band == Gold <==> 20 <= num <= 39
    ensures band == Green <==> 40 <= num <= 59
    ensures band == Orange <==> 60 <= num <= 79
    ensures band == White <==> 80 <= num
  {
    if num <= 19 then Red
    else if num <= 39 then Gold
    else if num <= 59 then Green
    else if num <= 79 then Orange
    else White
  }

  /** The CSS custom property that paints a band. */
  function CssVar(band: Band): string
  {
    match band
    case Red => "var(--color-red)"
    case Gold => "var(--color-gold)"
    case Green => "var(--color-green)"
    case Orange => "var(--color-orange)"
    case White => "var(--color-white)"
  }

  /** The hex colour that paints a band. */
  function Hex(band: Band): string
  {
    match band
    case Red => "#DC143C"
    case Gold => "#FFD700"
    case Green => "#10B981"
    case Orange => "#F97316"
    case White => "#F1F5F9"
  }

  /** getBallColor, with its own threshold chain. */
  function BallColor(num: int): (color: string)
    ensures color == CssVar(BandOf(num))
  {
    if num <= 19 then "var(--color-red)"
    else if num <= 39 then "var(--color-gold)"
    else if num <= 59 then "var(--color-green)"
    else if num <= 79 then "var(--color-orange)"
    else "var(--color-white)"
  }

  /** getBallColorHex, with its own threshold chain. */
  function BallColorHex(num: int): (color: string)
    ensures color == Hex(BandOf(num))
  {
    if num <= 19 then "#DC143C"
    else if num <= 39 then "#FFD700"
    else if num <= 59 then "#10B981"
    else if num <= 79 then "#F97316"
    else "#F1F5F9"
  }

  /** Both colour functions tell the bands apart, and they agree: two numbers
      get the same CSS colour exactly when they get the same hex colour, and
      that is exactly when they lie in the same band. */
  lemma ColoursAgree(x: int, y: int)
    ensures BallColor(x) == BallColor(y) <==> BandOf(x) == BandOf(y)
    ensures BallColorHex(x) == BallColorHex(y) <==> BandOf(x) == BandOf(y)
  {
  }
}
