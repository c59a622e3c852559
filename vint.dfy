/** The variable-length integers of RAR 5 headers, decoded the way rarUnlocker.c's
    `vint` does: each byte gives its low 7 bits, its high bit says that more
    bytes follow, and the 32-bit accumulator is shifted left by 7 before each
    byte, so the first byte ends up most significant. */
module Vint {
  import opened Common

  /** The accumulator is a `uint32_t`; it wraps modulo 2^32. */
  const Modulus: nat := 0x1_0000_0000

  /** The high bit of a vint byte: more bytes follow. */
  predicate Continues(b: bv8) { b & 0x80 != 0 }

  /** The low 7 bits of a vint byte (`*buf & ~0x80u`). */
  function Payload(b: bv8): (r: nat)
    ensures r < 128
  {
    (b & 0x7F) as nat
  }

  /** The accumulator after the decoder has consumed `bytes`. Each step is
      `vint <<= 7; vint |= payload` on a `uint32_t`: the shift multiplies by 128
      modulo 2^32 and leaves the low 7 bits clear, so or-ing in the payload adds it. */
  function Accumulate(bytes: seq<bv8>): (r: nat)
    ensures r < Modulus
  {
    if |bytes| == 0 then 0 else Shift(Accumulate(bytes[..|bytes| - 1]), bytes[|bytes| - 1])
  }

  /** One decoder step on the accumulator. */
  function Shift(acc: nat, b: bv8): (r: nat)
    ensures r < Modulus
  {
    (acc * 128 + Payload(b)) % Modulus
  }

  /** The payloads read as base-128 digits, first byte most significant, without wrap-around. */
  function Digits(bytes: seq<bv8>): nat
  {
    if |bytes| == 0 then 0
    else Digits(bytes[..|bytes| - 1]) * 128 + Payload(bytes[|bytes| - 1])
  }

  /** A decoded vint: how many bytes it occupies and its value. */
  datatype Field = Field(len: nat, value: nat)

  /** `n` bytes from `p` on form one vint of `s`: every byte but the last has
      its high bit set and the last has it clear. */
  predicate Ends(s: seq<bv8>, p: nat, n: nat)
  {
    1 <= n && p + n <= |s|
    && (forall i :: p <= i < p + n - 1 ==> Continues(s[i]))
    && !Continues(s[p + n - 1])
  }

  /** The decoder's loop from byte `i` on, having consumed `n` bytes into the
      accumulator `acc`: it takes byte `i` into the accumulator and stops there
      when the byte's high bit is clear. The source reads on without a bound;
      here running off the end of `s` is Err(Truncated). */
  function Scan(s: seq<bv8>, i: nat, n: nat, acc: nat): (r: Result<Field>)
    ensures r.Ok? ==> n < r.value.len && i + (r.value.len - n) <= |s| && r.value.value < Modulus
    ensures r.Err? ==> r.error == Truncated
    decreases |s| - i
  {
    if i >= |s| then Err(Truncated)
    else if Continues(s[i]) then Scan(s, i + 1, n + 1, Shift(acc, s[i]))
    else Ok(Field(n + 1, Shift(acc, s[i])))
  }

  /** The vint at `p` of `s`: how many bytes it occupies and its (wrapped) value. */
  function Decode(s: seq<bv8>, p: nat): (r: Result<Field>)
    ensures r.Ok? ==> 1 <= r.value.len && p + r.value.len <= |s| && r.value.value < Modulus
    ensures r.Err? ==> r.error == Truncated
  {
    Scan(s, p, 0, 0)
  }

  /** Once bytes `p` .. `i` - 1 have been consumed, a successful scan ends the vint
      at the first byte whose high bit is clear, with the accumulator over its bytes. */
  lemma {:induction false} ScanOk(s: seq<bv8>, p: nat, i: nat, acc: nat)
    requires p <= i <= |s| && acc == Accumulate(s[p..i])
    requires forall j :: p <= j < i ==> Continues(s[j])
    requires Scan(s, i, i - p, acc).Ok?
    ensures Ends(s, p, Scan(s, i, i - p, acc).value.len)
    ensures Scan(s, i, i - p, acc).value.value == Accumulate(s[p..p + Scan(s, i, i - p, acc).value.len])
    decreases |s| - i
  {
    assert s[p..i + 1][..i - p] == s[p..i];
    if Continues(s[i]) {
      ScanOk(s, p, i + 1, Shift(acc, s[i]));
    }
  }

  /** A failed scan ran off the end: every byte from `i` on says that more follow. */
  lemma {:induction false} ScanErr(s: seq<bv8>, i: nat, n: nat, acc: nat)
    requires Scan(s, i, n, acc).Err?
    ensures forall j :: i <= j < |s| ==> Continues(s[j])
    decreases |s| - i
  {
    if i < |s| {
      ScanErr(s, i + 1, n + 1, Shift(acc, s[i]));
    }
  }

  /** A vint ends where its first byte with the high bit clear is. */
  lemma {:induction false} EndsUnique(s: seq<bv8>, p: nat, n: nat, m: nat)
    requires Ends(s, p, n) && Ends(s, p, m)
    ensures n == m
  {}

  /** A decoded vint ends at the first byte whose high bit is clear, and its value
      is the accumulator over its bytes. */
  lemma {:induction false} DecodeOk(s: seq<bv8>, p: nat)
    requires Decode(s, p).Ok?
    ensures Ends(s, p, Decode(s, p).value.len)
    ensures Decode(s, p).value.value == Accumulate(s[p..p + Decode(s, p).value.len])
  {
    ScanOk(s, p, p, 0);
  }

  /** Where the vint ends determines what Decode returns. */
  lemma {:induction false} DecodeEnds(s: seq<bv8>, p: nat, n: nat)
    requires Ends(s, p, n)
    ensures Decode(s, p) == Ok(Field(n, Accumulate(s[p..p + n])))
  {
    if Decode(s, p).Err? {
      ScanErr(s, p, 0, 0);
    } else {
      DecodeOk(s, p);
      EndsUnique(s, p, n, Decode(s, p).value.len);
    }
  }

  /** The decoder fails exactly when every byte from `p` to the end of `s` says
      that more bytes follow. */
  lemma {:induction false} DecodeTruncated(s: seq<bv8>, p: nat)
    ensures Decode(s, p) == Err(Truncated) <==> forall i :: p <= i < |s| ==> Continues(s[i])
  {
    if Decode(s, p).Err? {
      ScanErr(s, p, 0, 0);
    } else {
      DecodeOk(s, p);
    }
  }

  /** The vint's value is its digits in base 128, wrapped modulo 2^32. */
  lemma {:induction false} AccumulateIsDigits(bytes: seq<bv8>)
    ensures Accumulate(bytes) == Digits(bytes) % Modulus
  {
    if |bytes| > 0 {
      var init := bytes[..|bytes| - 1];
      AccumulateIsDigits(init);
      WrapStep(Digits(init), Payload(bytes[|bytes| - 1]));
      assert Accumulate(bytes) == Shift(Accumulate(init), bytes[|bytes| - 1]);
    }
  }

  /** Wrapping before or after one shift-and-add step gives the same result. */
  lemma {:induction false} WrapStep(d: nat, x: nat)
    ensures ((d % Modulus) * 128 + x) % Modulus == (d * 128 + x) % Modulus
  {
    var q := d / Modulus;
    assert d * 128 + x == (d % Modulus) * 128 + x + (q * 128) * Modulus;
    AddMultiple((d % Modulus) * 128 + x, q * 128);
  }

  lemma {:induction false} AddMultiple(y: int, k: int)
    ensures (y + k * Modulus) % Modulus == y % Modulus
  {}

  lemma {:induction false} Unwrapped(n: nat)
    requires n < Modulus
    ensures n % Modulus == n
  {}

  /** A vint of at most four bytes carries at most 28 bits, so it never wraps. */
  lemma {:induction false} ShortDigitsFit(bytes: seq<bv8>)
    requires |bytes| <= 4
    ensures Digits(bytes) < Modulus
    ensures Accumulate(bytes) == Digits(bytes)
  {
    DigitsBound(bytes);
    assert Pow128(0) == 1;
    assert Pow128(1) == 0x80;
    assert Pow128(2) == 0x4000;
    assert Pow128(3) == 0x20_0000;
    assert Pow128(4) == 0x1000_0000;
    AccumulateIsDigits(bytes);
  }

  function Pow128(k: nat): (r: nat)
    ensures r >= 1
  {
    if k == 0 then 1 else 128 * Pow128(k - 1)
  }

  lemma {:induction false} DigitsBound(bytes: seq<bv8>)
    ensures Digits(bytes) < Pow128(|bytes|)
  {
    if |bytes| > 0 {
      DigitsBound(bytes[..|bytes| - 1]);
    }
  }

  // An encoder in the decoder's byte order, as the independent reference for it.

  /** `n` in base 128, most significant group first, every byte but the last
      carrying the "more bytes follow" bit. */
  function Encode(n: nat): (r: seq<bv8>)
    ensures |r| >= 1
    decreases n
  {
    if n < 128 then [n as bv8]
    else MarkContinued(Encode(n / 128)) + [(n % 128) as bv8]
  }

  /** `e` with the high bit of every byte set. */
  function MarkContinued(e: seq<bv8>): (r: seq<bv8>)
    ensures |r| == |e|
    ensures forall i :: 0 <= i < |e| ==> r[i] == e[i] | 0x80
  {
    seq(|e|, i requires 0 <= i < |e| => e[i] | 0x80)
  }

  lemma {:induction false} SmallByte(n: nat)
    requires n < 128
    ensures !Continues(n as bv8) && Payload(n as bv8) == n
  {
    var b := n as bv8;
    assert b as nat == n;
    LowByte(b);
  }

  lemma {:induction false} LowByte(b: bv8)
    requires b < 128
    ensures b & 0x80 == 0 && b & 0x7F == b
  {}

  lemma {:induction false} MarkedByte(b: bv8)
    ensures Continues(b | 0x80) && Payload(b | 0x80) == Payload(b)
  {}

  /** Every byte of an encoding but the last says that more bytes follow. */
  lemma {:induction false} EncodeEnds(n: nat)
    ensures Ends(Encode(n), 0, |Encode(n)|)
  {
    SmallByte(n % 128);
    if n >= 128 {
      var e := Encode(n / 128);
      var m := MarkContinued(e);
      var r := m + [(n % 128) as bv8];
      assert Encode(n) == r;
      forall i | 0 <= i < |m| ensures Continues(r[i]) {
        MarkedByte(e[i]);
      }
    }
  }

  /** The digits of an encoding are the encoded number. */
  lemma {:induction false} EncodeDigits(n: nat)
    ensures Digits(Encode(n)) == n
    decreases n
  {
    SmallByte(n % 128);
    if n >= 128 {
      var e := Encode(n / 128);
      EncodeDigits(n / 128);
      var m := MarkContinued(e);
      var r := m + [(n % 128) as bv8];
      assert r[..|r| - 1] == m;
      MarkedDigits(e);
    }
  }

  lemma {:induction false} MarkedDigits(e: seq<bv8>)
    ensures Digits(MarkContinued(e)) == Digits(e)
  {
    if |e| > 0 {
      var m := MarkContinued(e);
      MarkedDigits(e[..|e| - 1]);
      assert m[..|m| - 1] == MarkContinued(e[..|e| - 1]);
      MarkedByte(e[|e| - 1]);
    }
  }

  /** `s` holds the bytes `e` from `p` on. */
  predicate Holds(s: seq<bv8>, p: nat, e: seq<bv8>)
    decreases |e|
  {
    p + |e| <= |s| && (|e| == 0 || (s[p] == e[0] && Holds(s, p + 1, e[1..])))
  }

  lemma {:induction false} HoldsIndex(s: seq<bv8>, p: nat, e: seq<bv8>)
    requires Holds(s, p, e)
    ensures p + |e| <= |s| && s[p..p + |e|] == e
    decreases |e|
  {
    if |e| > 0 {
      HoldsIndex(s, p + 1, e[1..]);
      assert s[p..p + |e|] == [s[p]] + s[p + 1..p + |e|];
      assert e == [e[0]] + e[1..];
    }
  }

  /** `s` holds the encoding of `n` at `p`. */
  predicate EncodedAt(s: seq<bv8>, p: nat, n: nat)
  {
    Holds(s, p, Encode(n))
  }

  /** Decoding an encoding found at `p`, whatever follows it, consumes exactly
      the encoding and yields the number modulo 2^32. */
  lemma {:induction false} EncodeDecode(s: seq<bv8>, p: nat, n: nat)
    requires EncodedAt(s, p, n)
    ensures Decode(s, p) == Ok(Field(|Encode(n)|, n % Modulus))
  {
    var e := Encode(n);
    HoldsIndex(s, p, e);
    EncodeEnds(n);
    EncodeDigits(n);
    forall i | p <= i < p + |e| ensures s[i] == e[i - p] {
      assert s[p..p + |e|][i - p] == s[i];
    }
    assert Ends(s, p, |e|);
    DecodeEnds(s, p, |e|);
    AccumulateIsDigits(e);
  }

  /** A vint decodes the same in any buffer that holds the same bytes where it lies. */
  lemma {:induction false} DecodeFrame(s: seq<bv8>, t: seq<bv8>, p: nat)
    requires Decode(s, p).Ok? && |t| == |s|
    requires forall i :: p <= i < p + Decode(s, p).value.len ==> t[i] == s[i]
    ensures Decode(t, p) == Decode(s, p)
  {
    var n := Decode(s, p).value.len;
    DecodeOk(s, p);
    assert Ends(t, p, n);
    DecodeEnds(t, p, n);
    assert t[p..p + n] == s[p..p + n];
  }

  /** rarUnlocker.c's `vint`: decodes the vint at `p` of the first `limit`
      bytes of `buf`, as a do-while loop over the bytes. */
  method Read(buf: array<bv8>, p: nat, limit: nat) returns (r: Result<Field>)
    requires limit <= buf.Length
    ensures r == Decode(buf[..limit], p)
  {
    ghost var s := buf[..limit];
    var i := p;
    var acc: nat := 0;
    while true
      invariant p <= i && (i <= limit || i == p)
      invariant Scan(s, i, i - p, acc) == Decode(s, p)
      decreases limit - i
    {
      if i >= limit {
        return Err(Truncated);
      }
      var b := buf[i];
      acc := Shift(acc, b);
      i := i + 1;
      if !Continues(b) {
        return Ok(Field(i - p, acc));
      }
    }
  }
}
