/** The proof-of-work target: checked 64-bit arithmetic, and the comparison every peer repeats. */
module ProofOfWork {
  import opened Wrappers

  const MAX_U64: nat := 0xFFFF_FFFF_FFFF_FFFF
  const NONCE_TRIALS_PER_BYTE: nat := 1000
  const PAYLOAD_LENGTH_EXTRA_BYTES: nat := 1000
  const DENOMINATOR: nat := 65536
  const NANOSECONDS: nat := 1_000_000_000

  type u64 = n: nat | n <= MAX_U64

  /** The hash of a payload digest and a nonce, read as a big-endian 64-bit number. */
  type Work = (Bytes, int) -> u64

  /** A 64-bit value whose arithmetic remembers that a result did not fit. */
  datatype Checked = Fits(value: u64) | Overflowed {
    static function From(n: nat): Checked {
      if n <= MAX_U64 then Fits(n) else Overflowed
    }

    function Plus(other: Checked): Checked {
      if Fits? && other.Fits? then From(value + other.value) else Overflowed
    }

    function Times(other: Checked): Checked {
      if Fits? && other.Fits? then From(value * other.value) else Overflowed
    }

    function Over(other: Checked): Checked {
      if Fits? && other.Fits? && other.value != 0 then From(value / other.value) else Overflowed
    }
  }

  /** The denominator of the target, before the division. */
  function Difficulty(payloadLength: nat, timeToLive: nat): Checked {
    var padded := Checked.From(payloadLength).Plus(Checked.From(PAYLOAD_LENGTH_EXTRA_BYTES));
    Checked.From(NONCE_TRIALS_PER_BYTE).Times(
      padded.Plus(
        Checked.From(timeToLive).Times(padded).Over(Checked.From(DENOMINATOR))))
  }

  function Target(payloadLength: nat, timeToLive: nat): u64 {
    var target := Checked.From(MAX_U64).Over(Difficulty(payloadLength, timeToLive));
    if target.Fits? then target.value else 0
  }

  /** The same formula over unbounded integers. */
  function IdealDifficulty(payloadLength: nat, timeToLive: nat): (d: nat)
    ensures d >= NONCE_TRIALS_PER_BYTE * (payloadLength + PAYLOAD_LENGTH_EXTRA_BYTES)
  {
    var padded := payloadLength + PAYLOAD_LENGTH_EXTRA_BYTES;
    NONCE_TRIALS_PER_BYTE * (padded + Quotient(timeToLive * padded, DENOMINATOR))
  }

  function Quotient(n: nat, d: nat): (q: nat)
    requires d > 0
    ensures q * d <= n < (q + 1) * d
  {
    n / d
  }

  /** No intermediate value of the formula leaves the 64-bit range. */
  ghost predicate Representable(payloadLength: nat, timeToLive: nat) {
    && timeToLive * (payloadLength + PAYLOAD_LENGTH_EXTRA_BYTES) <= MAX_U64
    && IdealDifficulty(payloadLength, timeToLive) <= MAX_U64
  }

  lemma QuotientIsMonotone(n1: nat, n2: nat, d1: nat, d2: nat)
    requires n1 <= n2
    requires 0 < d2 <= d1
    ensures Quotient(n1, d1) <= Quotient(n2, d2)
  {
    var q1, q2 := Quotient(n1, d1), Quotient(n2, d2);
    if q1 > q2 {
      ProductIsMonotone(q2 + 1, q1, d2, d1);
      assert false;
    }
  }

  lemma ProductIsMonotone(a1: nat, a2: nat, b1: nat, b2: nat)
    requires a1 <= a2 && b1 <= b2
    ensures a1 * b1 <= a2 * b2
  {
    assert a1 * b1 <= a2 * b1 by {
      assert (a2 - a1) * b1 >= 0;
    }
    assert a2 * b1 <= a2 * b2 by {
      assert a2 * (b2 - b1) >= 0;
    }
  }

  /** Checked arithmetic reports overflow exactly when the unbounded computation leaves the range. */
  lemma DifficultyMatchesIdeal(payloadLength: nat, timeToLive: nat)
    ensures Difficulty(payloadLength, timeToLive).Fits? <==> Representable(payloadLength, timeToLive)
    ensures Representable(payloadLength, timeToLive) ==>
              Difficulty(payloadLength, timeToLive).value == IdealDifficulty(payloadLength, timeToLive)
    ensures IdealDifficulty(payloadLength, timeToLive) > 0
  {
    var padded := payloadLength + PAYLOAD_LENGTH_EXTRA_BYTES;
    var product := timeToLive * padded;
    ProductIsMonotone(timeToLive, timeToLive, 1, padded);
    if product <= MAX_U64 {
      assert timeToLive <= MAX_U64;
      assert Quotient(product, DENOMINATOR) <= product;
    }
  }

  /** The target is 0 exactly on overflow, is otherwise the ideal value, and never exceeds it; and the
      division it ends with never has a zero divisor. */
  lemma TargetMatchesIdeal(payloadLength: nat, timeToLive: nat)
    ensures Target(payloadLength, timeToLive) == 0 <==> !Representable(payloadLength, timeToLive)
    ensures Difficulty(payloadLength, timeToLive) != Checked.Fits(0)
    ensures IdealDifficulty(payloadLength, timeToLive) > 0
    ensures Target(payloadLength, timeToLive) <= MAX_U64 / IdealDifficulty(payloadLength, timeToLive)
    ensures Representable(payloadLength, timeToLive) ==>
              Target(payloadLength, timeToLive) == MAX_U64 / IdealDifficulty(payloadLength, timeToLive)
  {
    DifficultyMatchesIdeal(payloadLength, timeToLive);
    var ideal := IdealDifficulty(payloadLength, timeToLive);
    if ideal <= MAX_U64 {
      QuotientIsMonotone(ideal, MAX_U64, ideal, ideal);
      assert Quotient(ideal, ideal) >= 1;
    }
    assert MAX_U64 / ideal == Quotient(MAX_U64, ideal);
    QuotientIsMonotone(MAX_U64, MAX_U64, ideal, 1);
  }

  /** A longer payload or a longer life never makes the target easier. */
  lemma TargetIsMonotone(length1: nat, length2: nat, life1: nat, life2: nat)
    requires length1 <= length2 && life1 <= life2
    ensures Target(length2, life2) <= Target(length1, life1)
  {
    var padded1, padded2 := length1 + PAYLOAD_LENGTH_EXTRA_BYTES, length2 + PAYLOAD_LENGTH_EXTRA_BYTES;
    TargetMatchesIdeal(length1, life1);
    TargetMatchesIdeal(length2, life2);
    ProductIsMonotone(life1, life2, padded1, padded2);
    QuotientIsMonotone(life1 * padded1, life2 * padded2, DENOMINATOR, DENOMINATOR);
    assert IdealDifficulty(length1, life1) <= IdealDifficulty(length2, life2);
    if Representable(length2, life2) {
      QuotientIsMonotone(MAX_U64, MAX_U64, IdealDifficulty(length2, life2), IdealDifficulty(length1, life1));
    }
  }

  /** A message is expired at a time (in nanoseconds) from its expiration second on. */
  predicate Expired(expirationTime: int, now: int) {
    expirationTime * NANOSECONDS <= now
  }

  /** The target demanded at `now`, or nothing once the expiration time has come. */
  function TargetAt(payload: Bytes, expirationTime: int, now: int): Option<u64> {
    if Expired(expirationTime, now) then
      None
    else
      Some(Target(|payload|, (expirationTime * NANOSECONDS - now) / NANOSECONDS))
  }

  /** The acceptance test of a miner that was handed `target`. */
  predicate Meets(work: Work, payload: Bytes, nonce: int, target: u64) {
    work(payload, nonce) <= target
  }

  predicate Verify(work: Work, payload: Bytes, nonce: int, expirationTime: int, now: int) {
    match TargetAt(payload, expirationTime, now)
    case Some(target) => Meets(work, payload, nonce, target)
    case None => false
  }

  lemma AtMostQuotient(w: nat, n: nat, d: nat)
    requires d > 0
    ensures w <= Quotient(n, d) <==> w * d <= n
  {
    var q := Quotient(n, d);
    if w <= q {
      assert w * d <= q * d;
    } else {
      assert w * d >= (q + 1) * d;
    }
  }

  /** Before its expiration second the message has `life` whole seconds left. */
  ghost predicate Left(expirationTime: int, now: int, life: nat) {
    && now < expirationTime * NANOSECONDS
    && life * NANOSECONDS <= expirationTime * NANOSECONDS - now < (life + 1) * NANOSECONDS
  }

  /** Work times difficulty stays within 64 bits; where the difficulty does not, only work 0 will do. */
  ghost predicate Enough(work: nat, length: nat, life: nat) {
    if Representable(length, life) then work * IdealDifficulty(length, life) <= MAX_U64 else work == 0
  }

  /** What a nonce must achieve, without the division and without overflow. */
  lemma AcceptedExactly(work: Work, payload: Bytes, nonce: int, expirationTime: int, now: int)
    ensures Verify(work, payload, nonce, expirationTime, now) <==>
            exists life: nat :: Left(expirationTime, now, life) && Enough(work(payload, nonce), |payload|, life)
  {
    if now < expirationTime * NANOSECONDS {
      var life: nat := (expirationTime * NANOSECONDS - now) / NANOSECONDS;
      assert Left(expirationTime, now, life);
      assert forall other: nat :: Left(expirationTime, now, other) ==> other == life;
      TargetMatchesIdeal(|payload|, life);
      hide Target, IdealDifficulty, Representable;
      if Representable(|payload|, life) {
        AtMostQuotient(work(payload, nonce), MAX_U64, IdealDifficulty(|payload|, life));
      }
    }
  }

  /** Expiry in nanoseconds agrees with the sweep, which compares whole seconds rounded down. */
  lemma ExpiryInWholeSeconds(expirationTime: int, now: int)
    ensures Expired(expirationTime, now) <==> expirationTime <= now / NANOSECONDS
  {
  }

  /** A nonce that met the target computed at `submitted` is accepted by every peer at every later
      moment before the message expires, and by none afterwards. */
  lemma ProofStaysValid(
    work: Work, payload: Bytes, nonce: int, expirationTime: int, submitted: int, now: int)
    requires submitted <= now
    requires TargetAt(payload, expirationTime, submitted).Some?
    requires Meets(work, payload, nonce, TargetAt(payload, expirationTime, submitted).value)
    ensures Verify(work, payload, nonce, expirationTime, now) <==> !Expired(expirationTime, now)
  {
    if !Expired(expirationTime, now) {
      var remaining := expirationTime * NANOSECONDS - now;
      var initial := expirationTime * NANOSECONDS - submitted;
      assert remaining / NANOSECONDS <= initial / NANOSECONDS;
      TargetIsMonotone(|payload|, |payload|, remaining / NANOSECONDS, initial / NANOSECONDS);
    }
  }
}
