/** The base32 codec of the 2fa package: the alphabet of section 6 of RFC 4648,
    without `=` padding on output and without accepting it on input.

    The reference definitions work on bit strings: a byte buffer is read as a
    stream of 8-bit groups, a base32 text as a stream of 5-bit groups. The two
    bit-window loops of the source are the methods `ToBase32` and `ToBuffer`;
    their contracts tie them to the reference definitions. */
module Base32 {
  import opened Wrappers
  import Text

  type byte = x: int | 0 <= x < 256

  /** The character standing for the 5-bit value `v`: `A`..`Z` for 0..25,
      `2`..`7` for 26..31. */
  function AlphaChar(v: nat): (c: char)
    requires v < 32
    ensures InAlphabet(c)
  {
    if v < 26 then ('A' as int + v) as char else ('2' as int + (v - 26)) as char
  }

  /** The alphabet: character `ALPHA[v]` stands for the 5-bit value `v`. */
  const ALPHA: string := "ABCDEFGHIJKLMNOPQRSTUVWXYZ234567"

  lemma AlphabetChars()
    ensures |ALPHA| == 32
    ensures forall v | 0 <= v < 32 :: ALPHA[v] == AlphaChar(v)
  {
  }

  predicate InAlphabet(c: char) {
    'A' <= c <= 'Z' || '2' <= c <= '7'
  }

  /** JavaScript's bitwise operators act on 32-bit patterns; the accumulator
      `tmp` is modelled as the unsigned value of its pattern, below 2^32. */
  const UINT32: nat := 0x1_0000_0000

  /** `x >>> k` on the unsigned 32-bit pattern `x`. */
  function Shr(x: nat, k: nat): nat {
    if k == 0 then x else Shr(x / 2, k - 1)
  }

  /** `x << k` as a 32-bit pattern, read unsigned. */
  function Shl(x: nat, k: nat): nat
    decreases k
  {
    if k == 0 then x % UINT32 else Shl((2 * x) % UINT32, k - 1)
  }

  function Pow2(n: nat): (r: nat)
    ensures r >= 1
  {
    if n == 0 then 1 else 2 * Pow2(n - 1)
  }

  /** The 5-bit value a character of the alphabet stands for. */
  function AlphaIndex(c: char): (v: nat)
    requires InAlphabet(c)
    ensures v < 32 && AlphaChar(v) == c
  {
    if 'A' <= c <= 'Z' then c as int - 'A' as int else c as int - '2' as int + 26
  }

  /** `ALPHA.indexOf(c)`, with None for the source's -1; `AlphabetIndexOf`
      shows it agrees with a left-to-right search of `ALPHA`. */
  function AlphabetLookup(c: char): (r: Option<nat>)
    ensures r.Some? <==> InAlphabet(c)
    ensures r.Some? ==> r.value < 32 && AlphaChar(r.value) == c
  {
    if InAlphabet(c) then Some(AlphaIndex(c)) else None
  }

  /** The `w` low-order bits of `v`, most significant first. */
  function NatToBits(v: nat, w: nat): (b: seq<bool>)
    ensures |b| == w
  {
    if w == 0 then [] else NatToBits(v / 2, w - 1) + [v % 2 == 1]
  }

  /** The unsigned big-endian value of a bit string. */
  function BitsToNat(b: seq<bool>): (v: nat)
    ensures v < Pow2(|b|)
  {
    if b == [] then 0 else 2 * BitsToNat(b[..|b| - 1]) + (if b[|b| - 1] then 1 else 0)
  }

  function Zeros(n: nat): (b: seq<bool>)
    ensures |b| == n
  {
    seq(n, _ => false)
  }

  /** The bit stream of a byte buffer, 8 bits per byte, most significant first. */
  function BytesToBits(bs: seq<byte>): (b: seq<bool>)
    ensures |b| == 8 * |bs|
  {
    if bs == [] then [] else BytesToBits(bs[..|bs| - 1]) + NatToBits(bs[|bs| - 1], 8)
  }

  predicate IsBase32(s: string) {
    forall k | 0 <= k < |s| :: InAlphabet(s[k])
  }

  /** The 5-bit value of a character of the alphabet. `Decode` rejects a
      text with any other character before reading its bits, so the 0 given
      to those is never used. */
  function CharValue(c: char): (v: nat)
    ensures v < 32
    ensures InAlphabet(c) ==> v == AlphaIndex(c)
  {
    if InAlphabet(c) then AlphaIndex(c) else 0
  }

  /** The bit stream of a base32 text, 5 bits per character. */
  function CharsToBits(s: string): (b: seq<bool>)
    ensures |b| == 5 * |s|
  {
    if s == [] then [] else CharsToBits(s[..|s| - 1]) + NatToBits(CharValue(s[|s| - 1]), 5)
  }

  /** Reference encoder on bits: one character per 5-bit group; a last group
      of 1 to 4 bits is filled up with zero bits; no `=` is ever produced. */
  function EncodeBits(b: seq<bool>): (s: string)
    ensures |s| == (|b| + 4) / 5
    ensures IsBase32(s)
    decreases |b|
  {
    if b == [] then ""
    else if |b| < 5 then [AlphaChar(BitsToNat(b + Zeros(5 - |b|)))]
    else [AlphaChar(BitsToNat(b[..5]))] + EncodeBits(b[5..])
  }

  /** Reference decoder on bits: one byte per 8-bit group; fewer than 8
      trailing bits are dropped whatever their value. */
  function DecodeBits(b: seq<bool>): (r: seq<byte>)
    ensures |r| == |b| / 8
    decreases |b|
  {
    if |b| < 8 then [] else [BitsToNat(b[..8])] + DecodeBits(b[8..])
  }

  /** What `toBase32` computes. */
  function Encode(bs: seq<byte>): string {
    EncodeBits(BytesToBits(bs))
  }

  /** What `toBuffer` computes: None (the source's `null`) when some character
      is outside the alphabet. */
  function Decode(s: string): Option<seq<byte>> {
    if IsBase32(s) then Some(DecodeBits(CharsToBits(s))) else None
  }

  /** The encoder's loop state: the 32-bit window `tmp`, the number `win` of
      its low bits not yet emitted, and the characters emitted so far. */
  datatype Encoder = Encoder(tmp: nat, win: nat, out: string)

  /** A byte enters the encoder's window. */
  function Absorb8(e: Encoder, b: byte): Encoder {
    Encoder((e.tmp * 256 + b) % UINT32, e.win + 8, e.out)
  }

  /** `toBase32`'s inner loop: emit characters while 5 bits or more are pending. */
  function Drain(e: Encoder): (r: Encoder)
    ensures r.win < 5
    decreases e.win
  {
    if e.win >= 5 then Drain(EmitCharOf(e)) else e
  }

  /** The top 5 pending bits leave as the next character. */
  function EmitCharOf(e: Encoder): Encoder
    requires e.win >= 5
  {
    Encoder(e.tmp, e.win - 5, e.out + [AlphaChar(Shr(e.tmp, e.win - 5) % 32)])
  }

  /** The loop state after reading the bytes of `bs`. */
  function RunEncoder(bs: seq<byte>): (e: Encoder)
    ensures e.win < 5
  {
    if bs == [] then Encoder(0, 0, "")
    else Drain(Absorb8(RunEncoder(bs[..|bs| - 1]), bs[|bs| - 1]))
  }

  /** The last character, for the 1 to 4 bits still pending after the loop. */
  function Finish(e: Encoder): string
    requires e.win < 5
  {
    if e.win > 0 then e.out + [AlphaChar(Shl(e.tmp, 5 - e.win) % 32)] else e.out
  }

  /** `toBase32`: 8 bits enter the window per byte, 5 leave per character.
      `ALPHA[v]` is written `AlphaChar(v)`; `AlphabetChars` shows they agree. */
  method ToBase32(buff: seq<byte>) returns (str: string)
    ensures str == Encode(buff)
    ensures |str| == (8 * |buff| + 4) / 5
    ensures IsBase32(str)
  {
    var e := Encoder(0, 0, "");
    for i := 0 to |buff|
      invariant RunEncoder(buff[..i]) == e
    {
      EncoderAdvance(buff, i);
      e := Absorb8(e, buff[i]);
      while e.win >= 5
        invariant Drain(e) == RunEncoder(buff[..i + 1])
        decreases e.win
      {
        e := EmitCharOf(e);
      }
    }
    assert buff[..|buff|] == buff;
    RunEncoderEncodes(buff);
    str := e.out;
    if e.win > 0 {
      str := str + [AlphaChar(Shl(e.tmp, 5 - e.win) % 32)];
    }
  }

  lemma EncoderAdvance(bs: seq<byte>, i: nat)
    requires i < |bs|
    ensures RunEncoder(bs[..i + 1]) == Drain(Absorb8(RunEncoder(bs[..i]), bs[i]))
  {
    assert bs[..i + 1][..i] == bs[..i];
  }

  /** The decoder's loop state: the 32-bit window `tmp`, the number `win` of
      its low bits not yet written out, and the bytes written so far. */
  datatype Window = Window(tmp: nat, win: nat, out: seq<byte>)

  /** One iteration of `toBuffer`'s loop on a character of value `a`: the
      5 bits enter the window, then a byte leaves it if 8 bits are pending. */
  function Absorb5(w: Window, a: nat): Window {
    var g := Shift5(w, a);
    if g.win >= 8 then EmitByteOf(g) else g
  }

  /** `tmp = (tmp << 5) | a` on the 32-bit window, with 5 more bits pending. */
  function Shift5(w: Window, a: nat): Window {
    Window((w.tmp * 32 + a) % UINT32, w.win + 5, w.out)
  }

  /** The top 8 pending bits leave as the next byte. */
  function EmitByteOf(w: Window): Window
    requires w.win >= 8
  {
    Window(w.tmp, w.win - 8, w.out + [Shr(w.tmp, w.win - 8) % 256])
  }

  /** The loop state after reading the characters of `s`. */
  function RunDecoder(s: string): (w: Window)
    requires IsBase32(s)
    ensures w.win < 8 && w.tmp < UINT32 && 8 * |w.out| + w.win == 5 * |s|
  {
    if s == [] then Window(0, 0, [])
    else Absorb5(RunDecoder(s[..|s| - 1]), AlphaIndex(s[|s| - 1]))
  }

  /** The loop state after one more character of the alphabet. */
  lemma DecoderAdvance(s: string, i: nat, w: Window)
    requires i < |s| && IsBase32(s[..i]) && InAlphabet(s[i])
    requires RunDecoder(s[..i]) == w
    ensures IsBase32(s[..i + 1])
    ensures RunDecoder(s[..i + 1]) == Absorb5(w, AlphaIndex(s[i]))
  {
    var p := s[..i + 1];
    assert p[..i] == s[..i];
    assert forall k | 0 <= k < i :: p[k] == s[..i][k];
  }

  /** `toBuffer`: 5 bits enter the window per character, 8 leave per byte.
      The source writes the bytes into a buffer of `floor(5 * length / 8)`
      bytes allocated up front; here they are appended in order, and the
      last ensures shows that they fill that buffer exactly. */
  method ToBuffer(str: string) returns (r: Option<seq<byte>>)
    ensures r == Decode(str)
    ensures r.None? <==> !IsBase32(str)
    ensures r.Some? ==> |r.value| == |str| * 5 / 8
  {
    var w := Window(0, 0, []);
    for i := 0 to |str|
      invariant IsBase32(str[..i])
      invariant RunDecoder(str[..i]) == w
    {
      var a := AlphabetLookup(str[i]);
      if a.None? {
        return None;
      }
      DecoderAdvance(str, i, w);
      w := Absorb5(w, a.value);
    }
    assert str[..|str|] == str;
    RunDecoderDecodes(str);
    return Some(w.out);
  }

  // ---------------------------------------------------------------------
  // Steps of the two loops

  /** What the encoder's loop keeps: the characters emitted encode the first
      `5 * |out|` bits read, and the low `win` bits of the window are the bits
      read but not yet emitted. */
  predicate EncoderState(bits: seq<bool>, e: Encoder) {
    && 5 * |e.out| + e.win == |bits|
    && e.out == EncodeBits(bits[..5 * |e.out|])
    && e.tmp % Pow2(e.win) == BitsToNat(bits[5 * |e.out|..])
  }

  lemma {:induction false} DrainState(bits: seq<bool>, e: Encoder)
    requires EncoderState(bits, e)
    ensures EncoderState(bits, Drain(e))
    decreases e.win
  {
    if e.win >= 5 {
      CharLeaves(bits, e);
      DrainState(bits, EmitCharOf(e));
    }
  }

  /** The top 5 bits of a window of 5 bits or more leave as the next character. */
  lemma CharLeaves(bits: seq<bool>, e: Encoder)
    requires e.win >= 5 && EncoderState(bits, e)
    ensures EncoderState(bits, EmitCharOf(e))
  {
    EmitChar(bits, |e.out|, e.win, e.tmp);
  }

  lemma {:induction false} RunEncoderState(bs: seq<byte>)
    ensures EncoderState(BytesToBits(bs), RunEncoder(bs))
    decreases |bs|
  {
    if bs == [] {
    } else {
      var i := |bs| - 1;
      RunEncoderState(bs[..i]);
      var e := RunEncoder(bs[..i]);
      assert bs[..i + 1] == bs;
      ByteEnters(bs, i, e);
      DrainState(BytesToBits(bs), Absorb8(e, bs[i]));
    }
  }

  /** A byte entering the window keeps the encoder's invariant. */
  lemma ByteEnters(bs: seq<byte>, i: nat, e: Encoder)
    requires i < |bs| && e.win < 5 && EncoderState(BytesToBits(bs[..i]), e)
    ensures EncoderState(BytesToBits(bs[..i + 1]), Absorb8(e, bs[i]))
  {
    var n := |e.out|;
    AbsorbByte(bs, i, n, e.win, e.tmp);
    var e' := Absorb8(e, bs[i]);
    assert e'.out == e.out && e'.win == e.win + 8;
    assert e'.tmp == (e.tmp * 256 + bs[i]) % UINT32;
    assert BytesToBits(bs[..i + 1])[..5 * n] == BytesToBits(bs[..i])[..5 * n];
  }

  /** What the loop and the final step emit is the encoding of the buffer. */
  lemma RunEncoderEncodes(bs: seq<byte>)
    ensures Encode(bs) == Finish(RunEncoder(bs))
  {
    RunEncoderState(bs);
    var e := RunEncoder(bs);
    FinalChar(BytesToBits(bs), |e.out|, e.win, e.tmp);
  }

  /** One byte enters the encoder's window. */
  lemma AbsorbByte(buff: seq<byte>, i: nat, n: nat, win: nat, tmp: nat)
    requires i < |buff| && win < 5 && 8 * i == 5 * n + win
    requires tmp % Pow2(win) == BitsToNat(BytesToBits(buff[..i])[5 * n..])
    ensures ((tmp * 256 + buff[i]) % UINT32) % Pow2(win + 8)
            == BitsToNat(BytesToBits(buff[..i + 1])[5 * n..])
    ensures BytesToBits(buff[..i + 1])[..5 * n] == BytesToBits(buff[..i])[..5 * n]
  {
    var bits := BytesToBits(buff[..i]);
    assert buff[..i + 1][..i] == buff[..i];
    assert BytesToBits(buff[..i + 1]) == bits + NatToBits(buff[i], 8);
    Pow2Of32();
    ShiftGroup(bits, 5 * n, win, 8, 256, buff[i], tmp);
  }

  /** `k` more bits, the value `x`, enter a window holding the bits of
      `bits` from `start` on. */
  lemma ShiftGroup(bits: seq<bool>, start: nat, win: nat, k: nat, p: nat, x: nat, tmp: nat)
    requires start + win == |bits| && p == Pow2(k) && x < p && win + k <= 32
    requires tmp % Pow2(win) == BitsToNat(bits[start..])
    ensures ((tmp * p + x) % UINT32) % Pow2(win + k)
            == BitsToNat((bits + NatToBits(x, k))[start..])
    ensures (bits + NatToBits(x, k))[..start] == bits[..start]
  {
    var nb, tail := NatToBits(x, k), bits[start..];
    assert (bits + nb)[start..] == tail + nb;
    var v := BitsToNat(tail);
    BitsToNatAppend(tail, nb);
    BitsRoundTrip(x, k);
    assert BitsToNat(tail + nb) == v * Pow2(k) + x;
    ShiftIn(tmp, win, k, v, x);
  }

  /** The top 5 bits of an encoder window of at least 5 bits leave as a character. */
  lemma EmitChar(bits: seq<bool>, n: nat, win: nat, tmp: nat)
    requires win >= 5 && 5 * n + win == |bits|
    requires tmp % Pow2(win) == BitsToNat(bits[5 * n..])
    ensures Shr(tmp, win - 5) % 32 == BitsToNat(bits[5 * n..5 * n + 5])
    ensures tmp % Pow2(win - 5) == BitsToNat(bits[5 * (n + 1)..])
    ensures EncodeBits(bits[..5 * (n + 1)])
            == EncodeBits(bits[..5 * n]) + [AlphaChar(BitsToNat(bits[5 * n..5 * n + 5]))]
  {
    TopGroup(bits, 5 * n, 5, win, tmp);
    Pow2Of32();
    assert bits[..5 * (n + 1)] == bits[..5 * n] + bits[5 * n..5 * n + 5];
    EncodeSnoc(bits[..5 * n], bits[5 * n..5 * n + 5]);
  }

  /** `TakeGroup` for the shift the source writes. */
  lemma TopGroup(bits: seq<bool>, start: nat, k: nat, win: nat, tmp: nat)
    requires k <= win && start + win == |bits|
    requires tmp % Pow2(win) == BitsToNat(bits[start..])
    ensures Shr(tmp, win - k) % Pow2(k) == BitsToNat(bits[start..start + k])
    ensures tmp % Pow2(win - k) == BitsToNat(bits[start + k..])
  {
    TakeGroup(bits, start, k, win, tmp);
    ShrDiv(tmp, win - k);
  }

  lemma EncodeSnoc(x: seq<bool>, g: seq<bool>)
    requires |x| % 5 == 0 && |g| == 5
    ensures EncodeBits(x + g) == EncodeBits(x) + [AlphaChar(BitsToNat(g))]
  {
    EncodeBitsAppend(x, g);
    assert g[..5] == g && g[5..] == [];
  }

  lemma DecodeSnoc(x: seq<bool>, g: seq<bool>)
    requires |x| % 8 == 0 && |g| == 8
    ensures DecodeBits(x + g) == DecodeBits(x) + [BitsToNat(g)]
  {
    DecodeBitsAppend(x, g);
    assert g[..8] == g && g[8..] == [];
  }

  /** The top `k` bits of a window holding the last `win` bits of `bits` are
      the group starting at `start`; the rest of the window holds what follows it. */
  lemma TakeGroup(bits: seq<bool>, start: nat, k: nat, win: nat, tmp: nat)
    requires k <= win && start + win == |bits|
    requires tmp % Pow2(win) == BitsToNat(bits[start..])
    ensures (tmp / Pow2(win - k)) % Pow2(k) == BitsToNat(bits[start..start + k])
    ensures tmp % Pow2(win - k) == BitsToNat(bits[start + k..])
  {
    var g, rest := bits[start..start + k], bits[start + k..];
    assert bits[start..] == g + rest;
    BitsToNatAppend(g, rest);
    assert |rest| == win - k;
    assert (win - k) + k == win;
    TakeTop(tmp, win - k, k, BitsToNat(g), BitsToNat(rest));
  }

  /** The 1 to 4 bits left in the encoder's window leave as a last, zero-filled character. */
  lemma FinalChar(bits: seq<bool>, n: nat, win: nat, tmp: nat)
    requires win < 5 && 5 * n + win == |bits|
    requires tmp % Pow2(win) == BitsToNat(bits[5 * n..])
    ensures win == 0 ==> EncodeBits(bits) == EncodeBits(bits[..5 * n])
    ensures win > 0 ==>
              EncodeBits(bits) == EncodeBits(bits[..5 * n]) + [AlphaChar(Shl(tmp, 5 - win) % 32)]
  {
    assert bits == bits[..5 * n] + bits[5 * n..];
    EncodeBitsAppend(bits[..5 * n], bits[5 * n..]);
    if win > 0 {
      LastGroup(bits[5 * n..]);
      FinalValue(tmp, win);
    }
  }

  /** A last group of 1 to 4 bits is its value shifted up to 5 bits. */
  lemma LastGroup(p: seq<bool>)
    requires 0 < |p| < 5
    ensures BitsToNat(p + Zeros(5 - |p|)) == BitsToNat(p) * Pow2(5 - |p|)
  {
    BitsToNatAppend(p, Zeros(5 - |p|));
    ZerosValue(5 - |p|);
  }

  /** The source's `(tmp << (5 - win)) & 31`: the low `win` bits moved to the top of 5. */
  lemma FinalValue(tmp: nat, w: nat)
    requires 0 < w < 5
    ensures Shl(tmp, 5 - w) % 32 == (tmp % Pow2(w)) * Pow2(5 - w)
  {
    var B := Pow2(5 - w);
    var x: nat := tmp * B;
    ShlMul(tmp, 5 - w);
    Pow2Of32();
    Pow2Add(5, 27);
    ModMod(x, 32, Pow2(27));
    PadOut(tmp, w);
  }

  /** What the decoder's loop keeps, on the bit stream read so far: the
      bytes written decode its first `8 * |w.out|` bits, and the low `w.win`
      bits of the window are the bits read but not yet written. */
  predicate WindowHolds(bits: seq<bool>, w: Window) {
    && 8 * |w.out| + w.win == |bits|
    && w.out == DecodeBits(bits[..8 * |w.out|])
    && w.tmp % Pow2(w.win) == BitsToNat(bits[8 * |w.out|..])
  }

  predicate DecoderState(s: string, w: Window) {
    IsBase32(s) && WindowHolds(CharsToBits(s), w)
  }

  /** One iteration of the decoder's loop keeps its invariant: a character
      enters the window, and a byte leaves it when the window holds 8 bits. */
  lemma DecodeStep(s: string, c: char, w: Window)
    requires InAlphabet(c) && w.win < 8 && DecoderState(s, w)
    ensures DecoderState(s + [c], Absorb5(w, AlphaIndex(c)))
  {
    var grown := Shift5(w, AlphaIndex(c));
    CharEnters(s, c, w);
    if grown.win >= 8 {
      ByteLeaves(CharsToBits(s + [c]), grown);
    }
  }

  /** A character entering the window keeps the decoder's invariant. */
  lemma CharEnters(s: string, c: char, w: Window)
    requires InAlphabet(c) && w.win < 8 && DecoderState(s, w)
    ensures DecoderState(s + [c], Shift5(w, AlphaIndex(c)))
  {
    var k := 8 * |w.out|;
    AbsorbChar(s, c, |w.out|, w.win, w.tmp);
    var bits := CharsToBits(s + [c]);
    var g := Shift5(w, AlphaIndex(c));
    assert g.out == w.out && g.win == w.win + 5;
    assert g.tmp == (w.tmp * 32 + AlphaIndex(c)) % UINT32;
    assert bits[..k] == CharsToBits(s)[..k];
  }

  /** The top 8 bits of a window of 8 bits or more leave as the next byte. */
  lemma ByteLeaves(bits: seq<bool>, w: Window)
    requires w.win >= 8 && WindowHolds(bits, w)
    ensures WindowHolds(bits, EmitByteOf(w))
  {
    EmitByte(bits, |w.out|, w.win, w.tmp);
  }

  /** When the loop ends, the bytes written are the decoding of all characters. */
  lemma DecoderDone(s: string, w: Window)
    requires w.win < 8 && DecoderState(s, w)
    ensures Decode(s) == Some(w.out)
  {
    var bits := CharsToBits(s);
    var whole, rest := bits[..8 * |w.out|], bits[8 * |w.out|..];
    assert whole + rest == bits;
    DecodeDropsTrailingBits(whole, rest);
    assert DecodeBits(bits) == w.out;
  }

  /** The loop state after any prefix satisfies the decoder's invariant. */
  lemma {:induction false} RunDecoderState(s: string)
    requires IsBase32(s)
    ensures DecoderState(s, RunDecoder(s))
    decreases |s|
  {
    if s == [] {
      assert CharsToBits(s) == [];
    } else {
      var init, c := s[..|s| - 1], s[|s| - 1];
      assert IsBase32(init);
      RunDecoderState(init);
      assert s == init + [c];
      DecodeStep(init, c, RunDecoder(init));
    }
  }

  /** What the loop has written when it ends is the decoding of the text. */
  lemma RunDecoderDecodes(s: string)
    requires IsBase32(s)
    ensures Decode(s) == Some(RunDecoder(s).out)
  {
    RunDecoderState(s);
    DecoderDone(s, RunDecoder(s));
  }

  /** One character enters the decoder's window. */
  lemma AbsorbChar(s: string, c: char, ptr: nat, win: nat, tmp: nat)
    requires IsBase32(s) && InAlphabet(c)
    requires win < 8 && 8 * ptr + win == 5 * |s|
    requires tmp % Pow2(win) == BitsToNat(CharsToBits(s)[8 * ptr..])
    ensures IsBase32(s + [c])
    ensures ((tmp * 32 + AlphaIndex(c)) % UINT32) % Pow2(win + 5)
            == BitsToNat(CharsToBits(s + [c])[8 * ptr..])
    ensures CharsToBits(s + [c])[..8 * ptr] == CharsToBits(s)[..8 * ptr]
  {
    CharsSnoc(s, c);
    Pow2Of32();
    ShiftGroup(CharsToBits(s), 8 * ptr, win, 5, 32, AlphaIndex(c), tmp);
  }

  /** Appending one character appends its 5 bits. */
  lemma CharsSnoc(s: string, c: char)
    requires IsBase32(s) && InAlphabet(c)
    ensures IsBase32(s + [c])
    ensures CharsToBits(s + [c]) == CharsToBits(s) + NatToBits(AlphaIndex(c), 5)
  {
    var s1 := s + [c];
    assert s1[..|s1| - 1] == s;
  }

  /** The top 8 bits of a decoder window of at least 8 bits leave as a byte. */
  lemma EmitByte(bits: seq<bool>, ptr: nat, win: nat, tmp: nat)
    requires win >= 8 && 8 * ptr + win == |bits|
    requires tmp % Pow2(win) == BitsToNat(bits[8 * ptr..])
    ensures Shr(tmp, win - 8) % 256 == BitsToNat(bits[8 * ptr..8 * ptr + 8])
    ensures tmp % Pow2(win - 8) == BitsToNat(bits[8 * (ptr + 1)..])
    ensures DecodeBits(bits[..8 * (ptr + 1)])
            == DecodeBits(bits[..8 * ptr]) + [BitsToNat(bits[8 * ptr..8 * ptr + 8])]
  {
    TopGroup(bits, 8 * ptr, 8, win, tmp);
    Pow2Of32();
    assert bits[..8 * (ptr + 1)] == bits[..8 * ptr] + bits[8 * ptr..8 * ptr + 8];
    DecodeSnoc(bits[..8 * ptr], bits[8 * ptr..8 * ptr + 8]);
  }

  // ---------------------------------------------------------------------
  // Properties of the reference definitions

  /** Decoding succeeds exactly on texts over the alphabet; so lower-case
      letters, `=`, `0`, `1`, `8` and `9` are all rejected. */
  lemma DecodeFailsIff(s: string)
    ensures Decode(s).None? <==> exists k | 0 <= k < |s| :: s[k] !in ALPHA
  {
    forall k | 0 <= k < |s| {
      AlphabetIndexOf(s[k]);
    }
  }

  /** `ALPHA.indexOf(c)` is the 5-bit value of `c` when `c` is in the
      alphabet, and -1 (None) otherwise. */
  lemma AlphabetIndexOf(c: char)
    ensures c in ALPHA <==> InAlphabet(c)
    ensures Text.IndexOf(ALPHA, c) == AlphabetLookup(c)
  {
    AlphabetChars();
    if InAlphabet(c) {
      var v := AlphaIndex(c);
      assert c !in ALPHA[..v] by {
        forall j | 0 <= j < v ensures ALPHA[..v][j] != c {
          assert ALPHA[..v][j] == AlphaChar(j);
        }
      }
      Text.IndexOfFirst(ALPHA, c, v);
    } else {
      forall j | 0 <= j < 32 ensures ALPHA[j] != c {
        assert ALPHA[j] == AlphaChar(j);
      }
    }
  }

  /** A successful decode yields `floor(5 * m / 8)` bytes. */
  lemma DecodeLength(s: string)
    requires IsBase32(s)
    ensures Decode(s).Some? && |Decode(s).value| == 5 * |s| / 8
  {
  }

  /** The empty buffer and the empty text correspond. */
  lemma EmptyCases()
    ensures Encode([]) == ""
    ensures Decode("") == Some([])
  {
  }

  /** Bits after the last whole byte do not matter to the decoder, whether or
      not they are zero: `AB` (bits 00000 00001) decodes like `AA`. */
  lemma {:induction false} DecodeDropsTrailingBits(b: seq<bool>, extra: seq<bool>)
    requires |b| % 8 == 0 && |extra| < 8
    ensures DecodeBits(b + extra) == DecodeBits(b)
  {
    DecodeBitsAppend(b, extra);
  }

  lemma TrailingBitsExample()
    ensures Decode("AB") == Decode("AA") == Some([0])
  {
    TwoChars('A', 'A');
    TwoChars('A', 'B');
    assert "AA" == ['A', 'A'] && "AB" == ['A', 'B'];
    assert AlphaIndex('A') == 0 && AlphaIndex('B') == 1;
    SmallBits(0, 5);
    SmallBits(1, 5);
    ZeroByteFirst(NatToBits(0, 5) + NatToBits(0, 5));
    ZeroByteFirst(NatToBits(0, 5) + NatToBits(1, 5));
  }

  lemma TwoChars(c1: char, c2: char)
    requires InAlphabet(c1) && InAlphabet(c2)
    ensures IsBase32([c1, c2])
    ensures CharsToBits([c1, c2]) == NatToBits(AlphaIndex(c1), 5) + NatToBits(AlphaIndex(c2), 5)
  {
    var one, two := [c1], [c1, c2];
    assert one == [] + [c1] && two == one + [c2];
    CharsSnoc([], c1);
    CharsSnoc(one, c2);
  }

  /** A value below 2 written on `w` bits: `w - 1` zero bits, then the value. */
  lemma {:induction false} SmallBits(v: nat, w: nat)
    requires v < 2 && w >= 1
    ensures NatToBits(v, w) == Zeros(w - 1) + [v == 1]
    decreases w
  {
    if w == 1 {
      assert NatToBits(v / 2, 0) == [];
    } else {
      SmallBits(0, w - 1);
      assert v / 2 == 0 && Zeros(w - 2) + [false] == Zeros(w - 1);
    }
  }

  /** Ten bits whose first eight are zero decode to the one byte 0. */
  lemma ZeroByteFirst(b: seq<bool>)
    requires |b| == 10 && b[..8] == Zeros(8)
    ensures DecodeBits(b) == [0]
  {
    BitsZero(b[..8]);
    assert DecodeBits(b[8..]) == [];
  }

  lemma {:induction false} BitsZero(b: seq<bool>)
    requires forall k | 0 <= k < |b| :: !b[k]
    ensures BitsToNat(b) == 0
    decreases |b|
  {
    if b != [] {
      BitsZero(b[..|b| - 1]);
    }
  }

  /** Every character the encoder emits is in the alphabet, and there are
      `ceil(8 * n / 5)` of them. */
  lemma EncodeShape(bs: seq<byte>)
    ensures IsBase32(Encode(bs))
    ensures |Encode(bs)| == (8 * |bs| + 4) / 5
  {
  }

  /** Round trip: decoding an encoding gives the buffer back. */
  lemma RoundTrip(bs: seq<byte>)
    ensures Decode(Encode(bs)) == Some(bs)
  {
    var bits := BytesToBits(bs);
    var s := EncodeBits(bits);
    assert Encode(bs) == s && IsBase32(s);
    assert |bits| % 8 == 0;
    CharsOfEncoding(bits);
    EncodedBits(bits);
    DecodeOfBytes(bs);
    assert DecodeBits(CharsToBits(s)) == bs;
  }

  /** A whole number of bytes survives a trip through the characters. */
  lemma EncodedBits(bits: seq<bool>)
    requires |bits| % 8 == 0
    requires CharsToBits(EncodeBits(bits)) == bits + Zeros(5 * ((|bits| + 4) / 5) - |bits|)
    ensures DecodeBits(CharsToBits(EncodeBits(bits))) == DecodeBits(bits)
  {
    var pad := 5 * ((|bits| + 4) / 5) - |bits|;
    FillBound(|bits|);
    DecodeDropsTrailingBits(bits, Zeros(pad));
  }

  /** Filling the last 5-bit group adds at most four bits. */
  lemma FillBound(m: nat)
    ensures 0 <= 5 * ((m + 4) / 5) - m < 5
  {
    var q, r := (m + 4) / 5, (m + 4) % 5;
    assert m + 4 == 5 * q + r;
  }

  /** Re-reading the characters of an encoding gives the bits back, followed
      by the zero bits that filled up the last group. */
  lemma {:induction false} CharsOfEncoding(b: seq<bool>)
    ensures CharsToBits(EncodeBits(b)) == b + Zeros(5 * ((|b| + 4) / 5) - |b|)
    decreases |b|
  {
    if b == [] {
    } else if |b| < 5 {
      var g := b + Zeros(5 - |b|);
      CharOfGroup(g);
    } else {
      var g := b[..5];
      var s := EncodeBits(b);
      assert s == [AlphaChar(BitsToNat(g))] + EncodeBits(b[5..]);
      CharsOfEncoding(b[5..]);
      CharsToBitsAppend([AlphaChar(BitsToNat(g))], EncodeBits(b[5..]));
      CharOfGroup(g);
      assert b == g + b[5..];
      assert 5 * ((|b| + 4) / 5) - |b| == 5 * ((|b[5..]| + 4) / 5) - |b[5..]|;
    }
  }

  /** A 5-bit group read back from its character. */
  lemma CharOfGroup(g: seq<bool>)
    requires |g| == 5
    ensures CharsToBits([AlphaChar(BitsToNat(g))]) == g
  {
    var v := BitsToNat(g);
    assert AlphaIndex(AlphaChar(v)) == v;
    assert [AlphaChar(v)][..0] == [];
    NatBitsRoundTrip(g);
  }

  /** Decoding the bit stream of a byte buffer gives the buffer. */
  lemma {:induction false} DecodeOfBytes(bs: seq<byte>)
    ensures DecodeBits(BytesToBits(bs)) == bs
    decreases |bs|
  {
    if bs != [] {
      var init := bs[..|bs| - 1];
      DecodeOfBytes(init);
      DecodeBitsAppend(BytesToBits(init), NatToBits(bs[|bs| - 1], 8));
      BitsRoundTrip(bs[|bs| - 1], 8);
      assert NatToBits(bs[|bs| - 1], 8)[..8] == NatToBits(bs[|bs| - 1], 8);
      assert bs == init + [bs[|bs| - 1]];
    }
  }

  // ---------------------------------------------------------------------
  // Structural lemmas

  lemma {:induction false} EncodeBitsAppend(x: seq<bool>, y: seq<bool>)
    requires |x| % 5 == 0
    ensures EncodeBits(x + y) == EncodeBits(x) + EncodeBits(y)
    decreases |x|
  {
    if x != [] {
      assert (x + y)[..5] == x[..5];
      assert (x + y)[5..] == x[5..] + y;
      EncodeBitsAppend(x[5..], y);
    } else {
      assert x + y == y;
    }
  }

  lemma {:induction false} DecodeBitsAppend(x: seq<bool>, y: seq<bool>)
    requires |x| % 8 == 0
    ensures DecodeBits(x + y) == DecodeBits(x) + DecodeBits(y)
    decreases |x|
  {
    if x != [] {
      assert (x + y)[..8] == x[..8];
      assert (x + y)[8..] == x[8..] + y;
      DecodeBitsAppend(x[8..], y);
    } else {
      assert x + y == y;
    }
  }

  lemma {:induction false} CharsToBitsAppend(s: string, t: string)
    ensures CharsToBits(s + t) == CharsToBits(s) + CharsToBits(t)
    decreases |t|
  {
    if t == [] {
      assert s + t == s;
    } else {
      var t', c := t[..|t| - 1], t[|t| - 1];
      var u := s + t;
      assert u[..|u| - 1] == s + t' && u[|u| - 1] == c;
      CharsToBitsAppend(s, t');
      var a, b, g := CharsToBits(s), CharsToBits(t'), NatToBits(CharValue(c), 5);
      assert CharsToBits(u) == (a + b) + g;
      assert CharsToBits(t) == b + g;
      assert (a + b) + g == a + (b + g);
    }
  }

  lemma {:induction false} BitsToNatAppend(a: seq<bool>, b: seq<bool>)
    ensures BitsToNat(a + b) == BitsToNat(a) * Pow2(|b|) + BitsToNat(b)
    decreases |b|
  {
    if b == [] {
      assert a + b == a;
    } else {
      var b' := b[..|b| - 1];
      assert (a + b)[..|a + b| - 1] == a + b';
      BitsToNatAppend(a, b');
      var bit := if b[|b| - 1] then 1 else 0;
      assert BitsToNat(a + b) == 2 * (BitsToNat(a) * Pow2(|b'|) + BitsToNat(b')) + bit;
      assert BitsToNat(b) == 2 * BitsToNat(b') + bit;
      ShiftBit(BitsToNat(a), Pow2(|b'|), BitsToNat(b'), bit);
    }
  }

  lemma ShiftBit(a: int, p: int, b: int, bit: int)
    ensures 2 * (a * p + b) + bit == a * (2 * p) + (2 * b + bit)
  {
  }

  lemma {:induction false} BitsRoundTrip(v: nat, w: nat)
    requires v < Pow2(w)
    ensures BitsToNat(NatToBits(v, w)) == v
    decreases w
  {
    if w > 0 {
      BitsRoundTrip(v / 2, w - 1);
      var b := NatToBits(v, w);
      assert b[..|b| - 1] == NatToBits(v / 2, w - 1);
    }
  }

  lemma {:induction false} NatBitsRoundTrip(b: seq<bool>)
    ensures NatToBits(BitsToNat(b), |b|) == b
    decreases |b|
  {
    if b != [] {
      var init := b[..|b| - 1];
      NatBitsRoundTrip(init);
      var v := BitsToNat(b);
      assert v / 2 == BitsToNat(init);
      assert b == init + [b[|b| - 1]];
    }
  }

  lemma {:induction false} ZerosValue(n: nat)
    ensures BitsToNat(Zeros(n)) == 0
    decreases n
  {
    if n > 0 {
      assert Zeros(n)[..n - 1] == Zeros(n - 1);
      ZerosValue(n - 1);
    }
  }

  // ---------------------------------------------------------------------
  // Arithmetic of the window

  lemma {:induction false} Pow2Add(a: nat, b: nat)
    ensures Pow2(a + b) == Pow2(a) * Pow2(b)
    decreases a
  {
    if a > 0 {
      Pow2Add(a - 1, b);
    }
  }
  /** Shifting right by `k` bits one bit at a time divides by 2^k. */
  lemma {:induction false} ShrDiv(x: nat, k: nat)
    ensures Shr(x, k) == x / Pow2(k)
    decreases k
  {
    if k > 0 {
      ShrDiv(x / 2, k - 1);
      DivDiv(x, 2, Pow2(k - 1));
    }
  }

  /** Shifting left one bit at a time within 32 bits multiplies by 2^k modulo 2^32. */
  lemma {:induction false} ShlMul(x: nat, k: nat)
    ensures Shl(x, k) == (x * Pow2(k)) % UINT32
    decreases k
  {
    if k > 0 {
      ShlMul((2 * x) % UINT32, k - 1);
      var P := Pow2(k - 1);
      MulMod(2 * x, P, UINT32);
      Twice(x, P);
    }
  }

  lemma Twice(x: int, p: int)
    ensures (2 * x) * p == x * (2 * p)
  {
  }

  lemma MulMod(a: nat, b: nat, m: nat)
    requires m > 0
    ensures ((a % m) * b) % m == (a * b) % m
  {
    var q, r := a / m, a % m;
    var Q, R := (r * b) / m, (r * b) % m;
    assert a * b == (q * b + Q) * m + R by {
      assert a == q * m + r;
      assert r * b == Q * m + R;
      MulRegroup(q, m, r, b, Q, R);
    }
    DivModUnique(a * b, m, q * b + Q, R);
  }

  lemma MulRegroup(q: int, m: int, r: int, b: int, Q: int, R: int)
    requires r * b == Q * m + R
    ensures (q * m + r) * b == (q * b + Q) * m + R
  {
  }

  lemma DivDiv(x: nat, a: nat, b: nat)
    requires a > 0 && b > 0
    ensures x / a / b == x / (a * b)
  {
    var q1, r1 := x / a, x % a;
    var q2, r2 := q1 / b, q1 % b;
    assert x == q1 * a + r1;
    assert q1 == q2 * b + r2;
    assert x == q2 * (a * b) + (r2 * a + r1) by {
      Regroup(q2, a, b, r2, r1);
    }
    BelowProduct(r2, r1, b, a);
    assert r2 * a + r1 < a * b;
    DivModUnique(x, a * b, q2, r2 * a + r1);
  }

  lemma MulAtLeast(k: int, d: int)
    requires d > 0 && k >= 1
    ensures k * d >= d
  {
  }
  lemma MulBetween(k: int, d: int)
    requires d > 0 && -d < k * d < d
    ensures k == 0
  {
    if k >= 1 {
      MulAtLeast(k, d);
    } else if k <= -1 {
      MulAtLeast(-k, d);
    }
  }
  lemma DivModUnique(t: int, d: int, q: int, r: int)
    requires d > 0 && 0 <= r < d && t == q * d + r
    ensures t / d == q && t % d == r
  {
    var q0, r0 := t / d, t % d;
    assert t == q0 * d + r0;
    assert (q - q0) * d == r0 - r;
    MulBetween(q - q0, d);
  }
  lemma Regroup(q: int, m: int, n: int, q1: int, r1: int)
    ensures q * (m * n) + (q1 * m + r1) == (q * n + q1) * m + r1
  {
  }
  lemma ModMod(y: nat, m: nat, n: nat)
    requires m > 0 && n > 0
    ensures (y % (m * n)) % m == y % m
  {
    var mn := m * n;
    var big, rem := y / mn, y % mn;
    var q1, r1 := rem / m, rem % m;
    Regroup(big, m, n, q1, r1);
    DivModUnique(y, m, big * n + q1, r1);
  }
  lemma BelowProduct(v: nat, x: nat, a: nat, k: nat)
    requires v < a && x < k
    ensures v * k + x < a * k
  {
    assert v * k <= (a - 1) * k;
  }
  lemma Regroup2(q: int, a: int, k: int, v: int, x: int)
    ensures (q * a + v) * k + x == q * (a * k) + (v * k + x)
  {
  }
  lemma ShiftInG(tmp: nat, A: nat, K: nat, R: nat, v: nat, x: nat)
    requires A > 0 && K > 0 && R > 0
    requires tmp % A == v && x < K
    ensures ((tmp * K + x) % (A * K * R)) % (A * K) == v * K + x
  {
    var AK := A * K;
    assert A * K * R == AK * R;
    var y := tmp * K + x;
    ModMod(y, AK, R);
    var q := tmp / A;
    Regroup2(q, A, K, v, x);
    BelowProduct(v, x, A, K);
    DivModUnique(y, AK, q, v * K + x);
  }
  lemma ShiftIn(tmp: nat, w: nat, k: nat, v: nat, x: nat)
    requires tmp % Pow2(w) == v && x < Pow2(k) && w + k <= 32
    ensures ((tmp * Pow2(k) + x) % UINT32) % Pow2(w + k) == v * Pow2(k) + x
  {
    Pow2Add(w, k);
    Pow2Add(w + k, 32 - (w + k));
    Pow2Of32();
    ShiftInG(tmp, Pow2(w), Pow2(k), Pow2(32 - (w + k)), v, x);
  }
  lemma Pow2Of32()
    ensures Pow2(5) == 32 && Pow2(8) == 256 && Pow2(32) == UINT32
  {
    assert Pow2(4) == 16;
    assert Pow2(5) == 32;
    Pow2Add(4, 4);
    Pow2Add(8, 8);
    Pow2Add(16, 16);
  }
  lemma TakeTopG(tmp: nat, A: nat, K: nat, hi: nat, lo: nat)
    requires A > 0 && K > 0
    requires tmp % (A * K) == hi * A + lo
    requires hi < K && lo < A
    ensures (tmp / A) % K == hi
    ensures tmp % A == lo
  {
    var AK := A * K;
    var q := tmp / AK;
    assert tmp == q * AK + (hi * A + lo);
    Regroup(q, A, K, hi, lo);
    DivModUnique(tmp, A, q * K + hi, lo);
    DivModUnique(q * K + hi, K, q, hi);
  }
  lemma TakeTop(tmp: nat, w: nat, k: nat, hi: nat, lo: nat)
    requires tmp % Pow2(w + k) == hi * Pow2(w) + lo
    requires hi < Pow2(k) && lo < Pow2(w)
    ensures (tmp / Pow2(w)) % Pow2(k) == hi
    ensures tmp % Pow2(w) == lo
  {
    Pow2Add(w, k);
    TakeTopG(tmp, Pow2(w), Pow2(k), hi, lo);
  }
  lemma PadOut(tmp: nat, w: nat)
    requires 0 < w < 5
    ensures (tmp * Pow2(5 - w)) % 32 == (tmp % Pow2(w)) * Pow2(5 - w)
  {
    var A, B := Pow2(w), Pow2(5 - w);
    Pow2Add(w, 5 - w);
    assert Pow2(5) == 32;
    var q, v := tmp / A, tmp % A;
    Regroup2(q, A, B, v, 0);
    BelowProduct(v, 0, A, B);
    DivModUnique(tmp * B, 32, q, v * B);
  }
}
