/** Bit strings: the expansion of a message into '0'/'1' digits, most
    significant bit first, and the three ways the decoders turn groups of eight
    digits back into character codes. */
module Bits {

  /** One digit of a Python bit string such as "01000001". */
  type Bit = b: int | 0 <= b < 2

  function Pow2(n: nat): (r: nat)
    ensures r >= 1
  {
    if n == 0 then 1 else 2 * Pow2(n - 1)
  }

  lemma {:induction false} Pow2Monotone(a: nat, b: nat)
    requires a <= b
    ensures Pow2(a) <= Pow2(b)
  {
    if a < b {
      Pow2Monotone(a, b - 1);
    }
  }

  lemma Pow2Eight()
    ensures Pow2(8) == 256
  {
  }

  /** int(bits, 2): the value of a digit string read most significant digit first. */
  function BitsValue(b: seq<Bit>): (r: nat)
    ensures r < Pow2(|b|)
  {
    if b == [] then 0 else 2 * BitsValue(b[..|b| - 1]) + b[|b| - 1]
  }

  /** A digit string of k zeros, such as "00000000". */
  function Zeros(k: nat): (r: seq<Bit>)
    ensures |r| == k
  {
    seq(k, _ => 0)
  }

  lemma {:induction false} ZerosValue(k: nat)
    ensures BitsValue(Zeros(k)) == 0
  {
    if k > 0 {
      assert Zeros(k)[..k - 1] == Zeros(k - 1);
      ZerosValue(k - 1);
    }
  }

  /** Leading zeros do not change the value of a digit string. */
  lemma {:induction false} LeadingZeros(k: nat, d: seq<Bit>)
    ensures BitsValue(Zeros(k) + d) == BitsValue(d)
  {
    if d == [] {
      assert Zeros(k) + d == Zeros(k);
      ZerosValue(k);
    } else {
      var n := |d|;
      assert (Zeros(k) + d)[..k + n - 1] == Zeros(k) + d[..n - 1];
      LeadingZeros(k, d[..n - 1]);
    }
  }

  /** A digit string of k ones, such as "11111111". */
  function Ones(k: nat): (r: seq<Bit>)
    ensures |r| == k
  {
    seq(k, _ => 1)
  }

  lemma {:induction false} OnesValue(k: nat)
    ensures BitsValue(Ones(k)) == Pow2(k) - 1
  {
    if k > 0 {
      assert Ones(k)[..k - 1] == Ones(k - 1);
      OnesValue(k - 1);
    }
  }

  /** The shortest binary digits of n, as Python's bin(n) without its prefix. */
  function Binary(n: nat): (r: seq<Bit>)
    ensures |r| >= 1 && BitsValue(r) == n
  {
    if n < 2 then [n]
    else
      var r := Binary(n / 2) + [n % 2];
      assert r[..|r| - 1] == Binary(n / 2);
      r
  }

  lemma {:induction false} BinaryLength(n: nat, k: nat)
    requires 1 <= k && n < Pow2(k)
    ensures |Binary(n)| <= k
  {
    if n >= 2 {
      BinaryLength(n / 2, k - 1);
    }
  }

  lemma ByteBinaryLength(c: nat)
    ensures c < 256 ==> |Binary(c)| <= 8
  {
    if c < 256 {
      Pow2Eight();
      BinaryLength(c, 8);
    }
  }

  /** format(c, '08b'): the binary digits of c left-padded with zeros to eight;
      a code of 256 or more keeps all of its (nine or more) digits. */
  function CharBits(c: nat): (r: seq<Bit>)
    ensures |r| >= 8 && BitsValue(r) == c
    ensures c < 256 ==> |r| == 8
  {
    var digits := Binary(c);
    if |digits| < 8 then
      LeadingZeros(8 - |digits|, digits);
      Zeros(8 - |digits|) + digits
    else
      ByteBinaryLength(c);
      digits
  }

  /** Every code is a byte value (0..255). */
  predicate IsByteText(m: seq<nat>)
  {
    forall k :: 0 <= k < |m| ==> m[k] < 256
  }

  /** Every code is a byte value other than the NUL terminator (1..255). */
  predicate IsLsbText(m: seq<nat>)
  {
    IsByteText(m) && 0 !in m
  }

  /** ''.join(format(ord(c), '08b') for c in message). */
  function MessageBits(m: seq<nat>): (r: seq<Bit>)
    ensures |r| >= 8 * |m|
    ensures IsByteText(m) ==> |r| == 8 * |m|
  {
    if m == [] then [] else CharBits(m[0]) + MessageBits(m[1..])
  }

  /** The decode_lsb rule of the encoder: consecutive groups of eight digits
      become codes; a trailing group shorter than eight is dropped and the
      first group of value 0 (chr(0)) ends the message, exclusive. */
  function DecodeUntilNul(bits: seq<Bit>): (r: seq<nat>)
    ensures |r| <= |bits| / 8
    ensures forall k :: 0 <= k < |r| ==> 0 < r[k] < 256
  {
    if |bits| < 8 then []
    else
      var c := BitsValue(bits[..8]);
      Pow2Eight();
      if c == 0 then [] else [c] + DecodeUntilNul(bits[8..])
  }

  /** The decode_alpha rule: every group of eight digits becomes a code, and so
      does a trailing shorter group; there is no terminator. */
  function DecodeGroups(bits: seq<Bit>): (r: seq<nat>)
    ensures |r| == (|bits| + 7) / 8
    ensures forall k :: 0 <= k < |r| ==> r[k] < 256
  {
    if bits == [] then []
    else if |bits| < 8 then
      Pow2Monotone(|bits|, 8);
      Pow2Eight();
      [BitsValue(bits)]
    else
      Pow2Eight();
      [BitsValue(bits[..8])] + DecodeGroups(bits[8..])
  }

  /** The _extract_lsb_message rule of the processor: groups of eight digits
      become codes up to the first byte-aligned group "00000000", exclusive; when
      there is none, a trailing shorter group is kept as a code too. */
  function ExtractUntilNul(bits: seq<Bit>): (r: seq<nat>)
    ensures |r| <= (|bits| + 7) / 8
    ensures forall k :: 0 <= k < |r| ==> r[k] < 256
  {
    if bits == [] then []
    else if |bits| < 8 then
      Pow2Monotone(|bits|, 8);
      Pow2Eight();
      [BitsValue(bits)]
    else if bits[..8] == Zeros(8) then []
    else
      Pow2Eight();
      [BitsValue(bits[..8])] + ExtractUntilNul(bits[8..])
  }

  /** No byte-aligned group of eight digits is "00000000". */
  predicate NoNulGroup(bits: seq<Bit>)
  {
    |bits| < 8 || (bits[..8] != Zeros(8) && NoNulGroup(bits[8..]))
  }

  /** The bits of a byte code are "00000000" exactly when the code is 0. */
  lemma CharBitsNul(c: nat)
    requires c < 256
    ensures CharBits(c) == Zeros(8) <==> c == 0
  {
    ZerosValue(8);
    if c == 0 {
      assert Binary(0) == [0];
      assert CharBits(0) == Zeros(7) + [0];
    }
  }

  /** The first eight digits of a byte code's bits followed by anything are
      that code's bits; the rest is what followed. */
  lemma SplitChar(c: nat, rest: seq<Bit>)
    requires c < 256
    ensures (CharBits(c) + rest)[..8] == CharBits(c)
    ensures (CharBits(c) + rest)[8..] == rest
  {
  }

  lemma {:induction false} SplitMessage(m: seq<nat>, rest: seq<Bit>)
    requires m != []
    ensures MessageBits(m) + rest == CharBits(m[0]) + (MessageBits(m[1..]) + rest)
  {
    assert MessageBits(m) == CharBits(m[0]) + MessageBits(m[1..]);
    Associative(CharBits(m[0]), MessageBits(m[1..]), rest);
  }

  lemma Associative<T>(a: seq<T>, b: seq<T>, c: seq<T>)
    ensures (a + b) + c == a + (b + c)
  {
  }

  lemma PrefixExtend<T>(s: seq<T>, n: nat)
    requires n < |s|
    ensures s[..n + 1] == s[..n] + [s[n]]
  {
  }

  lemma ByteTextTail(m: seq<nat>)
    requires m != [] && IsByteText(m)
    ensures m[0] < 256 && IsByteText(m[1..])
  {
    assert forall k :: 0 <= k < |m[1..]| ==> m[1..][k] == m[k + 1];
  }

  lemma LsbTextTail(m: seq<nat>)
    requires m != [] && IsLsbText(m)
    ensures 0 < m[0] < 256 && IsLsbText(m[1..])
  {
    ByteTextTail(m);
    assert m == [m[0]] + m[1..];
  }

  lemma DecodeUntilNulStep(c: nat, tail: seq<Bit>)
    requires 0 < c < 256
    ensures DecodeUntilNul(CharBits(c) + tail) == [c] + DecodeUntilNul(tail)
  {
    SplitChar(c, tail);
  }

  lemma DecodeGroupsStep(c: nat, tail: seq<Bit>)
    requires c < 256
    ensures DecodeGroups(CharBits(c) + tail) == [c] + DecodeGroups(tail)
  {
    SplitChar(c, tail);
  }

  lemma ExtractUntilNulStep(c: nat, tail: seq<Bit>)
    requires 0 < c < 256
    ensures ExtractUntilNul(CharBits(c) + tail) == [c] + ExtractUntilNul(tail)
  {
    SplitChar(c, tail);
    CharBitsNul(c);
  }

  /** Eight one digits decode to the code 255. */
  lemma DecodeUntilNulOnes(bits: seq<Bit>)
    requires |bits| >= 8 && bits[..8] == Ones(8)
    ensures DecodeUntilNul(bits) == [255] + DecodeUntilNul(bits[8..])
  {
    OnesValue(8);
  }

  /** A leading zero group ends extraction at once. */
  lemma ExtractUntilNulAtNul(bits: seq<Bit>)
    requires |bits| >= 8 && bits[..8] == Zeros(8)
    ensures ExtractUntilNul(bits) == []
  {
  }

  /** Ten one digits extract to 255 from the full group and 3 from the two
      digits left over. */
  lemma ExtractUntilNulTenOnes()
    ensures ExtractUntilNul(Ones(10)) == [255, 3]
  {
    var b := Ones(10);
    assert b[..8] == Ones(8) && b[8..] == Ones(2);
    assert b[..8][0] != Zeros(8)[0];
    OnesValue(8);
    OnesValue(2);
  }

  /** decode_lsb after encode_lsb: the message's codes come back in order,
      followed by whatever the remaining digits decode to. */
  lemma {:induction false} DecodeUntilNulPrefix(m: seq<nat>, rest: seq<Bit>)
    requires IsLsbText(m)
    ensures DecodeUntilNul(MessageBits(m) + rest) == m + DecodeUntilNul(rest)
  {
    if m == [] {
      assert MessageBits(m) + rest == rest;
    } else {
      LsbTextTail(m);
      calc {
        DecodeUntilNul(MessageBits(m) + rest);
        { SplitMessage(m, rest); }
        DecodeUntilNul(CharBits(m[0]) + (MessageBits(m[1..]) + rest));
        { DecodeUntilNulStep(m[0], MessageBits(m[1..]) + rest); }
        [m[0]] + DecodeUntilNul(MessageBits(m[1..]) + rest);
        { DecodeUntilNulPrefix(m[1..], rest); }
        [m[0]] + (m[1..] + DecodeUntilNul(rest));
        { assert m == [m[0]] + m[1..]; }
        m + DecodeUntilNul(rest);
      }
    }
  }

  /** decode_alpha after encode_alpha: the message's codes come back in order,
      followed by whatever the remaining digits decode to. */
  lemma {:induction false} DecodeGroupsPrefix(m: seq<nat>, rest: seq<Bit>)
    requires IsByteText(m)
    ensures DecodeGroups(MessageBits(m) + rest) == m + DecodeGroups(rest)
  {
    if m == [] {
      assert MessageBits(m) + rest == rest;
    } else {
      ByteTextTail(m);
      calc {
        DecodeGroups(MessageBits(m) + rest);
        { SplitMessage(m, rest); }
        DecodeGroups(CharBits(m[0]) + (MessageBits(m[1..]) + rest));
        { DecodeGroupsStep(m[0], MessageBits(m[1..]) + rest); }
        [m[0]] + DecodeGroups(MessageBits(m[1..]) + rest);
        { DecodeGroupsPrefix(m[1..], rest); }
        [m[0]] + (m[1..] + DecodeGroups(rest));
        { assert m == [m[0]] + m[1..]; }
        m + DecodeGroups(rest);
      }
    }
  }

  /** _extract_lsb_message after encode_lsb: the message's codes come back in
      order, followed by whatever the remaining digits extract to. */
  lemma {:induction false} ExtractUntilNulPrefix(m: seq<nat>, rest: seq<Bit>)
    requires IsLsbText(m)
    ensures ExtractUntilNul(MessageBits(m) + rest) == m + ExtractUntilNul(rest)
  {
    if m == [] {
      assert MessageBits(m) + rest == rest;
    } else {
      LsbTextTail(m);
      calc {
        ExtractUntilNul(MessageBits(m) + rest);
        { SplitMessage(m, rest); }
        ExtractUntilNul(CharBits(m[0]) + (MessageBits(m[1..]) + rest));
        { ExtractUntilNulStep(m[0], MessageBits(m[1..]) + rest); }
        [m[0]] + ExtractUntilNul(MessageBits(m[1..]) + rest);
        { ExtractUntilNulPrefix(m[1..], rest); }
        [m[0]] + (m[1..] + ExtractUntilNul(rest));
        { assert m == [m[0]] + m[1..]; }
        m + ExtractUntilNul(rest);
      }
    }
  }

  /** Without a zero group the extractor converts every group, a trailing
      shorter one included, so it returns ceil(n/8) codes; with one it returns
      fewer. */
  lemma {:induction false} ExtractAllGroups(bits: seq<Bit>)
    ensures NoNulGroup(bits) ==> ExtractUntilNul(bits) == DecodeGroups(bits)
    ensures |ExtractUntilNul(bits)| == (|bits| + 7) / 8 <==> NoNulGroup(bits)
  {
    if |bits| >= 8 {
      ExtractAllGroups(bits[8..]);
    }
  }

  /** Appending one digit keeps every aligned group non-zero unless the digit
      completes a group "00000000". */
  lemma {:induction false} NoNulAppend(b: seq<Bit>, x: Bit)
    requires NoNulGroup(b)
    requires (|b| + 1) % 8 == 0 ==> (b + [x])[|b| + 1 - 8..] != Zeros(8)
    ensures NoNulGroup(b + [x])
  {
    var b' := b + [x];
    if |b'| >= 8 {
      if |b| >= 8 {
        assert b'[..8] == b[..8];
        assert b'[8..] == b[8..] + [x];
        if (|b| + 1) % 8 == 0 {
          assert (b[8..] + [x])[|b[8..]| + 1 - 8..] == b'[|b| + 1 - 8..];
        }
        NoNulAppend(b[8..], x);
      } else {
        assert b'[8..] == [];
      }
    }
  }

  /** An aligned prefix of a string without zero groups has none either. */
  lemma {:induction false} NoNulPrefix(b: seq<Bit>, n: nat)
    requires NoNulGroup(b) && n <= |b| && n % 8 == 0
    ensures NoNulGroup(b[..n])
  {
    if n >= 8 {
      assert b[..n][..8] == b[..8];
      assert b[..n][8..] == b[8..][..n - 8];
      NoNulPrefix(b[8..], n - 8);
    }
  }

  /** Extraction over a string whose aligned prefix b has no zero group
      converts b group by group and carries on after it. */
  lemma {:induction false} ExtractAfterPrefix(s: seq<Bit>, n: nat)
    requires n <= |s| && n % 8 == 0 && NoNulGroup(s[..n])
    ensures ExtractUntilNul(s) == DecodeGroups(s[..n]) + ExtractUntilNul(s[n..])
  {
    if n > 0 {
      assert s[..n][..8] == s[..8];
      assert s[..n][8..] == s[8..][..n - 8];
      assert s[8..][n - 8..] == s[n..];
      ExtractAfterPrefix(s[8..], n - 8);
    }
  }
}
