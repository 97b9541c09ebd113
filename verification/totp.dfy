/** The TOTP engine of the two-factor package: RFC 6238 (section 4) time
    steps, the RFC 4226 (section 5.3) dynamic truncation, six-digit codes,
    and the check that accepts the current and the previous code. HMAC-SHA1
    and the random source are parameters. */
module Totp {
  import opened Wrappers
  import Text
  import Base32

  type byte = Base32.byte

  /** Bytes in a generated shared secret. */
  const KEY_SIZE: nat := 20
  /** Seconds per time step. */
  const PERIOD_SECS: nat := 30
  /** Milliseconds per time step: the divisor of the clock reading. */
  const PERIOD_MS: nat := 1000 * PERIOD_SECS
  /** The counter is written as an unsigned 64-bit integer. */
  const UINT64: nat := 0x1_0000_0000_0000_0000
  /** Codes have six decimal digits. */
  const DIGITS: nat := 6
  const MODULUS: nat := 1_000_000

  /** A SHA-1 digest: 20 bytes. */
  type Digest = d: seq<byte> | |d| == 20 witness seq(20, _ => 0)

  /** HMAC-SHA1 of a message under a key. SHA-1 is not part of this model. */
  type Hmac = (seq<byte>, seq<byte>) -> Digest

  /** The outcome of `check`. */
  datatype TotpResult = Ok | BadTotp | BadKey

  // ---------------------------------------------------------------------
  // The time-step counter

  /** Division of `BigInt`s: the quotient is truncated toward zero. */
  function TruncDiv(a: int, b: nat): (q: int)
    requires b > 0
    ensures a >= 0 ==> q >= 0 && 0 <= a - q * b < b
    ensures a < 0 ==> q <= 0 && -(b as int) < a - q * b <= 0
  {
    if a >= 0 then DivBounds(a, b); a / b
    else DivBounds(-a, b); -((-a) / b)
  }

  lemma DivBounds(a: nat, b: nat)
    requires b > 0
    ensures 0 <= a - (a / b) * b < b
  {
    assert a == (a / b) * b + a % b;
  }

  /** `setBigUint64(0, delta + t / 30000n)`: the step number, reduced to its
      unsigned 64-bit pattern. */
  function Counter(delta: int, t: int): (c: nat)
    ensures c < UINT64
    ensures (delta + TruncDiv(t, PERIOD_MS) - c) % UINT64 == 0
  {
    (delta + TruncDiv(t, PERIOD_MS)) % UINT64
  }

  function Pow256(n: nat): (r: nat)
    ensures r >= 1
  {
    if n == 0 then 1 else 256 * Pow256(n - 1)
  }

  /** `c` written on `n` bytes, most significant first (the `false` in
      `setBigUint64` selects big-endian order). */
  function BigEndian(c: nat, n: nat): (b: seq<byte>)
    ensures |b| == n
  {
    if n == 0 then [] else BigEndian(c / 256, n - 1) + [c % 256]
  }

  /** The unsigned number a big-endian byte string denotes. */
  function BEValue(b: seq<byte>): (v: nat)
    ensures v < Pow256(|b|)
  {
    if b == [] then 0 else 256 * BEValue(b[..|b| - 1]) + b[|b| - 1]
  }

  /** The 8-byte message HMAC is applied to. */
  function CounterBytes(delta: int, t: int): (m: seq<byte>)
    ensures |m| == 8
  {
    BigEndian(Counter(delta, t), 8)
  }

  // ---------------------------------------------------------------------
  // Dynamic truncation and the code

  /** The low nibble of the last digest byte. */
  function Offset(h: Digest): (i: nat)
    ensures i < 16 && i + 4 <= |h|
  {
    h[19] % 16
  }

  /** The four digest bytes from the offset on, top bit cleared. The source
      ORs `(h[i] & 0x7f) << 24` with the other three bytes shifted into
      disjoint bit ranges; the first term stays below 2^31, so no 32-bit
      sign is involved and the OR is a sum. */
  function Truncate(h: Digest): (v: nat)
    ensures v < 0x8000_0000
  {
    var i := Offset(h);
    var b0, b1, b2, b3: nat := h[i], h[i + 1], h[i + 2], h[i + 3];
    (b0 % 128) * 0x100_0000 + b1 * 0x1_0000 + b2 * 0x100 + b3
  }

  /** `(v % 1_000_000).toString(10).padStart(6, '0')`. */
  function Code(v: nat): (s: string)
    ensures |s| == DIGITS && Text.AllDigits(s)
    ensures Text.DecimalValue(s) == v % MODULUS
  {
    assert Text.Pow10(6) == MODULUS;
    Text.PaddedDecimal(v % MODULUS, DIGITS);
    Text.PadStart(Text.NatToDecimal(v % MODULUS), DIGITS, '0')
  }

  /** `get(key, delta, date)`: the code for step `delta` relative to the step
      holding the clock reading `t` (milliseconds since the epoch). */
  function Get(hmac: Hmac, key: seq<byte>, delta: int, t: int): (code: string)
    ensures |code| == DIGITS && Text.AllDigits(code)
    ensures Text.DecimalValue(code) == Truncate(hmac(key, CounterBytes(delta, t))) % MODULUS
  {
    Code(Truncate(hmac(key, CounterBytes(delta, t))))
  }

  // ---------------------------------------------------------------------
  // Checking a code and making a key

  /** `check(key, totp, date)`: BadKey when the stored key is not base32;
      otherwise Ok when the candidate is the current or the previous code. */
  function Check(hmac: Hmac, key: string, totp: string, t: int): (r: TotpResult)
    ensures r.BadKey? <==> Base32.Decode(key).None?
  {
    match Base32.Decode(key)
    case None => BadKey
    case Some(k) =>
      if totp == Get(hmac, k, 0, t) || totp == Get(hmac, k, -1, t) then Ok else BadTotp
  }

  /** `genKey()`, given the 20 random bytes the source draws. */
  function GenKey(random: seq<byte>): (key: string)
    requires |random| == KEY_SIZE
    ensures |key| == 32 && Base32.IsBase32(key)
    ensures Base32.Decode(key) == Some(random)
  {
    Base32.EncodeShape(random);
    Base32.RoundTrip(random);
    Base32.Encode(random)
  }

  // ---------------------------------------------------------------------
  // Properties

  /** The counter message is the counter, big-endian: writing and reading
      the 8 bytes agree in both directions. */
  lemma {:induction false} BigEndianRoundTrip(c: nat, n: nat)
    requires c < Pow256(n)
    ensures BEValue(BigEndian(c, n)) == c
    decreases n
  {
    if n > 0 {
      var b := BigEndian(c, n);
      assert b[..|b| - 1] == BigEndian(c / 256, n - 1);
      BigEndianRoundTrip(c / 256, n - 1);
    }
  }

  lemma {:induction false} BEValueRoundTrip(b: seq<byte>)
    ensures BigEndian(BEValue(b), |b|) == b
    decreases |b|
  {
    if b != [] {
      var init := b[..|b| - 1];
      BEValueRoundTrip(init);
      var v := BEValue(b);
      assert v / 256 == BEValue(init) && v % 256 == b[|b| - 1];
      assert b == init + [b[|b| - 1]];
    }
  }

  lemma CounterMessage(delta: int, t: int)
    ensures BEValue(CounterBytes(delta, t)) == Counter(delta, t)
  {
    assert Pow256(8) == UINT64;
    BigEndianRoundTrip(Counter(delta, t), 8);
  }

  /** The truncated value is the big-endian value of the four bytes at the
      offset, with its top bit cleared, and those bytes lie in the digest. */
  lemma TruncateReads(h: Digest)
    ensures Offset(h) + 4 <= |h|
    ensures Truncate(h) == BEValue(h[Offset(h)..Offset(h) + 4]) % 0x8000_0000
  {
    var i := Offset(h);
    var w := h[i..i + 4];
    var b0, b1, b2, b3: nat := h[i], h[i + 1], h[i + 2], h[i + 3];
    BEValue4(w);
    var low := b1 * 0x1_0000 + b2 * 0x100 + b3;
    assert BEValue(w) == b0 * 0x100_0000 + low;
    TopBit(h[i], low);
  }

  lemma BEValue4(w: seq<byte>)
    requires |w| == 4
    ensures BEValue(w) == ((w[0] as int * 256 + w[1]) * 256 + w[2]) * 256 + w[3]
  {
    var w1, w2, w3 := w[..1], w[..2], w[..3];
    assert w1[..0] == [] && w2[..1] == w1 && w3[..2] == w2 && w[..3] == w3;
    assert w1[0] == w[0] && w2[1] == w[1] && w3[2] == w[2];
    var v1 := BEValue(w1);
    assert v1 == w[0];
    var v2 := BEValue(w2);
    assert v2 == 256 * v1 + w[1];
    var v3 := BEValue(w3);
    assert v3 == 256 * v2 + w[2];
    assert BEValue(w) == 256 * v3 + w[3];
  }

  lemma TopBit(b: byte, low: nat)
    requires low < 0x100_0000
    ensures (b * 0x100_0000 + low) % 0x8000_0000 == (b % 128) * 0x100_0000 + low
  {
    var q, r := b / 128, b % 128;
    assert b * 0x100_0000 + low == q * 0x8000_0000 + (r * 0x100_0000 + low);
  }

  /** Every clock reading in the same 30-second step gives the same code. */
  lemma SamePeriod(hmac: Hmac, key: seq<byte>, delta: int, t1: int, t2: int)
    requires TruncDiv(t1, PERIOD_MS) == TruncDiv(t2, PERIOD_MS)
    ensures Get(hmac, key, delta, t1) == Get(hmac, key, delta, t2)
  {
  }

  /** After the epoch, a step is the 30000 milliseconds `[30000 * n, 30000 * (n + 1))`. */
  lemma StepOfTime(t: int, n: nat)
    requires PERIOD_MS * n <= t < PERIOD_MS * (n + 1)
    ensures TruncDiv(t, PERIOD_MS) == n
  {
    var q := TruncDiv(t, PERIOD_MS);
    var k := q - n;
    assert k * PERIOD_MS == (t - n * PERIOD_MS) - (t - q * PERIOD_MS);
    MulSign(k, PERIOD_MS);
  }

  lemma MulSign(k: int, p: int)
    requires p > 0
    ensures k >= 1 ==> k * p >= p
    ensures k <= -1 ==> k * p <= -p
  {
    if k >= 1 {
      assert k * p == (k - 1) * p + p;
    } else if k <= -1 {
      assert k * p == (k + 1) * p - p;
    }
  }

  /** Truncation toward zero makes the step around the epoch twice as wide:
      every reading strictly between -30000 and 30000 is step 0. */
  lemma StepAroundEpoch(t: int)
    requires -(PERIOD_MS as int) < t < PERIOD_MS
    ensures TruncDiv(t, PERIOD_MS) == 0
  {
  }

  /** The code for the previous step is the code 30 seconds earlier. */
  lemma PreviousStep(hmac: Hmac, key: seq<byte>, t: int)
    requires t >= PERIOD_MS
    ensures Get(hmac, key, -1, t) == Get(hmac, key, 0, t - PERIOD_MS)
  {
    var n := t / PERIOD_MS;
    StepOfTime(t, n);
    StepOfTime(t - PERIOD_MS, n - 1);
  }

  /** Codes are six digits, so any other candidate fails with BadTotp. */
  lemma CheckRejectsMalformed(hmac: Hmac, key: string, totp: string, t: int)
    requires Base32.Decode(key).Some?
    requires |totp| != DIGITS || !Text.AllDigits(totp)
    ensures Check(hmac, key, totp, t) == BadTotp
  {
  }

  /** `check` returns BAD_KEY exactly when some character of the key is
      outside the alphabet. */
  lemma CheckBadKey(hmac: Hmac, key: string, totp: string, t: int)
    ensures Check(hmac, key, totp, t) == BadKey
            <==> exists k | 0 <= k < |key| :: key[k] !in Base32.ALPHA
  {
    Base32.DecodeFailsIff(key);
  }

  /** With a decodable key, the candidate is accepted exactly when it is the
      code of the current or of the previous step. */
  lemma CheckOk(hmac: Hmac, key: string, totp: string, t: int)
    requires Base32.Decode(key).Some?
    ensures Check(hmac, key, totp, t) == Ok
            <==> totp in {Get(hmac, Base32.Decode(key).value, 0, t),
                          Get(hmac, Base32.Decode(key).value, -1, t)}
    ensures Check(hmac, key, totp, t) != Ok ==> Check(hmac, key, totp, t) == BadTotp
  {
  }

  /** A code made at time `t` is accepted at `t` and still 30 seconds later. */
  lemma AcceptedForTwoSteps(hmac: Hmac, key: string, t: int)
    requires Base32.Decode(key).Some?
    ensures Check(hmac, key, Get(hmac, Base32.Decode(key).value, 0, t), t) == Ok
    ensures Check(hmac, key, Get(hmac, Base32.Decode(key).value, 0, t), t + PERIOD_MS) == Ok
  {
    var k := Base32.Decode(key).value;
    NextStep(t);
    if TruncDiv(t + PERIOD_MS, PERIOD_MS) == TruncDiv(t, PERIOD_MS) {
      SamePeriod(hmac, k, 0, t, t + PERIOD_MS);
    } else {
      assert Counter(-1, t + PERIOD_MS) == Counter(0, t);
    }
  }

  /** Thirty seconds later the step is the next one, except from inside the
      double-width step around the epoch, where it stays 0. */
  lemma NextStep(t: int)
    ensures TruncDiv(t + PERIOD_MS, PERIOD_MS) == TruncDiv(t, PERIOD_MS) + 1
            || (-(PERIOD_MS as int) < t < 0 && TruncDiv(t + PERIOD_MS, PERIOD_MS) == TruncDiv(t, PERIOD_MS) == 0)
  {
    var q, q1 := TruncDiv(t, PERIOD_MS), TruncDiv(t + PERIOD_MS, PERIOD_MS);
    if -(PERIOD_MS as int) < t < 0 {
      StepAroundEpoch(t);
      StepAroundEpoch(t + PERIOD_MS);
    } else if t + PERIOD_MS == 0 {
      assert q == -1 && q1 == 0;
    } else {
      var d := q1 - q - 1;
      assert d * PERIOD_MS == (t - q * PERIOD_MS) - (t + PERIOD_MS - q1 * PERIOD_MS);
      MulSign(d, PERIOD_MS);
    }
  }

  /** A freshly made key is accepted by `check` together with its own code. */
  lemma GenKeyChecks(hmac: Hmac, random: seq<byte>, t: int)
    requires |random| == KEY_SIZE
    ensures Check(hmac, GenKey(random), Get(hmac, random, 0, t), t) == Ok
  {
  }
}
