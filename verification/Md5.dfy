/** MD5 buffering, 2PCKVStore/md5.c, against the padding of RFC 1321.  The block
    function is a parameter. */
module Md5 {
  import opened Basics

  const LO_LIMIT := 0x2000_0000
  const WORD := 0x1_0000_0000
  const SIZE_LIMIT := 0x1_0000_0000_0000_0000

  // ---------- the auxiliary functions ----------

  /** F, G, H, H2 and I as rewritten in md5.c:51-55. */
  function F(x: bv32, y: bv32, z: bv32): bv32 { z ^ (x & (y ^ z)) }
  function G(x: bv32, y: bv32, z: bv32): bv32 { y ^ (z & (x ^ y)) }
  function H(x: bv32, y: bv32, z: bv32): bv32 { (x ^ y) ^ z }
  function H2(x: bv32, y: bv32, z: bv32): bv32 { x ^ (y ^ z) }
  function I(x: bv32, y: bv32, z: bv32): bv32 { y ^ (x | !z) }

  /** They are the functions of section 3.4 of RFC 1321. */
  lemma AuxiliaryFunctions(x: bv32, y: bv32, z: bv32)
    ensures F(x, y, z) == (x & y) | (!x & z)
    ensures G(x, y, z) == (x & z) | (y & !z)
    ensures H(x, y, z) == H2(x, y, z) == x ^ y ^ z
    ensures I(x, y, z) == y ^ (x | !z)
  {
  }

  // ---------- the specification ----------

  function Zeros(n: nat): (r: seq<int>)
    ensures |r| == n && forall i :: 0 <= i < n ==> r[i] == 0
  {
    seq(n, _ => 0)
  }

  /** n as eight bytes, low-order byte first. */
  function EightBytes(n: nat): (r: seq<int>)
    ensures |r| == 8
  {
    [n % 256, n / 0x100 % 256, n / 0x1_0000 % 256, n / 0x100_0000 % 256,
     n / 0x1_0000_0000 % 256, n / 0x100_0000_0000 % 256, n / 0x1_0000_0000_0000 % 256, n / 0x100_0000_0000_0000 % 256]
  }

  /** Zero bytes needed after the 0x80 byte to reach 56 modulo 64. */
  function PadLength(n: nat): (k: nat)
    ensures k < 64 && (n + 1 + k) % 64 == 56
  {
    var r := n % 64;
    var k := if r < 56 then 55 - r else 119 - r;
    DivMod(n + 1 + k, n / 64 + (if r < 56 then 0 else 1), 56, 64);
    k
  }

  /** The message padded as in sections 3.1 and 3.2 of RFC 1321. */
  function Padded(msg: seq<int>): (r: seq<int>)
    ensures |r| % 64 == 0
  {
    PadTotal(|msg| + 1 + PadLength(|msg|));
    msg + [0x80] + Zeros(PadLength(|msg|)) + EightBytes(8 * |msg| % SIZE_LIMIT)
  }

  lemma PadTotal(n: nat)
    requires n % 64 == 56
    ensures (n + 8) % 64 == 0
  {
    DivMod(n + 8, n / 64 + 1, 0, 64);
  }

  function Fold<S>(compress: (S, seq<int>) -> S, s: S, data: seq<int>): S
    requires |data| % 64 == 0
    decreases |data|
  {
    if data == [] then s else Fold(compress, compress(s, data[..64]), data[64..])
  }

  lemma {:induction false} FoldConcat<S>(compress: (S, seq<int>) -> S, s: S, a: seq<int>, b: seq<int>)
    requires |a| % 64 == 0 && |b| % 64 == 0
    ensures Fold(compress, s, a + b) == Fold(compress, Fold(compress, s, a), b)
    decreases |a|
  {
    if a == [] {
      assert a + b == b;
    } else {
      assert (a + b)[..64] == a[..64] && (a + b)[64..] == a[64..] + b;
      FoldConcat(compress, compress(s, a[..64]), a[64..], b);
    }
  }

  /** The chaining of sections 3.3 and 3.4 of RFC 1321: one state per block boundary, each
      block compressed once, in order. */
  ghost predicate Chaining<S(!new)>(compress: (S, seq<int>) -> S, init: S, data: seq<int>, states: seq<S>) {
    && |states| >= 1 && |data| == 64 * (|states| - 1) && states[0] == init
    && forall i, j :: 0 <= i && j == i + 1 < |states| ==> states[j] == compress(states[i], data[64 * i..64 * j])
  }

  /** Folding is chaining. */
  lemma {:induction false} FoldChaining<S(!new)>(compress: (S, seq<int>) -> S, init: S, data: seq<int>) returns (states: seq<S>)
    requires |data| % 64 == 0
    ensures Chaining(compress, init, data, states) && states[|states| - 1] == Fold(compress, init, data)
    decreases |data|
  {
    if data == [] {
      states := [init];
    } else {
      var next := compress(init, data[..64]);
      var rest := FoldChaining(compress, next, data[64..]);
      states := [init] + rest;
      forall i, j | 0 <= i && j == i + 1 < |states| ensures states[j] == compress(states[i], data[64 * i..64 * j]) {
        if i > 0 { ShiftBlock(data, i); assert states[j] == rest[i] && states[i] == rest[i - 1]; }
      }
    }
  }

  lemma ShiftBlock(data: seq<int>, i: nat)
    requires i >= 1 && 64 * (i + 1) <= |data|
    ensures data[64..][64 * (i - 1)..64 * i] == data[64 * i..64 * (i + 1)]
  {
  }

  /** The padding of sections 3.1 and 3.2 of RFC 1321 spelled out: the message, one bit, as
      few zeros as bring the length to 56 modulo 64, and the bit length modulo 2^64 with
      its low-order byte first. */
  lemma PaddedShape(msg: seq<int>)
    ensures var r, n := Padded(msg), |msg|;
      && |r| % 64 == 0 && n + 9 <= |r| < n + 9 + 64
      && r[..n] == msg && r[n] == 0x80 && (forall i :: n < i < |r| - 8 ==> r[i] == 0)
      && BytesValue(r[|r| - 8..]) == 8 * n % SIZE_LIMIT
  {
    var r, n := Padded(msg), |msg|;
    assert r[|r| - 8..] == EightBytes(8 * n % SIZE_LIMIT);
    EightBytesExact(8 * n % SIZE_LIMIT);
  }

  /** The number whose bytes are s, low-order byte first. */
  function BytesValue(s: seq<int>): int {
    if s == [] then 0 else s[0] + 256 * BytesValue(s[1..])
  }

  function Bytes(n: nat, k: nat): (r: seq<int>)
    ensures |r| == k
  {
    if k == 0 then [] else [n % 256] + Bytes(n / 256, k - 1)
  }

  lemma {:induction false} BytesExact(n: nat, k: nat)
    ensures BytesValue(Bytes(n, k)) + Power(k) * (n / Power(k)) == n
    decreases k
  {
    if k > 0 {
      var p := Power(k - 1);
      BytesExact(n / 256, k - 1);
      BytesSplit(n, k);
      hide Bytes, BytesValue;
      DivDiv(n, 256, p);
      Combine(n, p, BytesValue(Bytes(n / 256, k - 1)), n / 256 / p);
    }
  }

  lemma BytesSplit(n: nat, k: nat)
    requires k > 0
    ensures BytesValue(Bytes(n, k)) == n % 256 + 256 * BytesValue(Bytes(n / 256, k - 1))
  {
    assert Bytes(n, k)[1..] == Bytes(n / 256, k - 1);
  }

  lemma Combine(n: int, p: int, v: int, q: int)
    requires v + p * q == n / 256
    ensures n % 256 + 256 * v + (256 * p) * q == n
  {
    assert 256 * (p * q) == (256 * p) * q;
  }

  function Power(k: nat): (p: nat)
    ensures p >= 1
  {
    if k == 0 then 1 else 256 * Power(k - 1)
  }

  lemma DivDiv(n: nat, a: nat, b: nat)
    requires a > 0 && b > 0
    ensures n / a / b == n / (a * b)
  {
    var q := n / a;
    var x, y, r := q / b, q % b, n % a;
    assert a * b > 0 && n == q * a + r && q == x * b + y;
    Regroup(n, a, b, q, x, y, r);
    DigitBound(y, a, b, r);
    DivMod(n, x, y * a + r, a * b);
  }

  lemma Regroup(n: int, a: int, b: int, q: int, x: int, y: int, r: int)
    requires n == q * a + r && q == x * b + y
    ensures n == x * (a * b) + (y * a + r)
  {
    assert (x * b + y) * a == x * b * a + y * a;
    assert x * b * a == x * (a * b);
  }

  lemma DigitBound(y: int, a: int, b: int, r: int)
    requires 0 <= y < b && 0 <= r < a
    ensures 0 <= y * a + r < a * b
  {
    assert (b - 1 - y) * a >= 0;
    assert (b - 1 - y) * a == b * a - a - y * a;
  }

  lemma EightBytesExact(n: nat)
    requires n < SIZE_LIMIT
    ensures BytesValue(EightBytes(n)) == n
  {
    hide Bytes, BytesValue, Power;
    DivDiv(n, 0x100, 0x100);
    DivDiv(n, 0x1_0000, 0x100);
    DivDiv(n, 0x100_0000, 0x100);
    DivDiv(n, 0x1_0000_0000, 0x100);
    DivDiv(n, 0x100_0000_0000, 0x100);
    DivDiv(n, 0x1_0000_0000_0000, 0x100);
    var n1 := n / 0x100;
    var n2 := n1 / 0x100;
    var n3 := n2 / 0x100;
    var n4 := n3 / 0x100;
    var n5 := n4 / 0x100;
    var n6 := n5 / 0x100;
    EightIsBytes(n, n1, n2, n3, n4, n5, n6, n6 / 0x100);
    assert EightBytes(n) == Bytes(n, 8);
    SmallExact(n);
  }

  lemma SmallExact(n: nat)
    requires n < SIZE_LIMIT
    ensures BytesValue(Bytes(n, 8)) == n
  {
    BytesExact(n, 8);
    hide Bytes, BytesValue;
    assert Power(4) == WORD && Power(8) == 256 * (256 * (256 * (256 * Power(4))));
  }

  lemma EightIsBytes(n: nat, n1: nat, n2: nat, n3: nat, n4: nat, n5: nat, n6: nat, n7: nat)
    requires n1 == n / 256 && n2 == n1 / 256 && n3 == n2 / 256 && n4 == n3 / 256
    requires n5 == n4 / 256 && n6 == n5 / 256 && n7 == n6 / 256
    ensures Bytes(n, 8) == [n % 256, n1 % 256, n2 % 256, n3 % 256, n4 % 256, n5 % 256, n6 % 256, n7 % 256]
  {
    assert Bytes(n7, 1) == [n7 % 256] + Bytes(n7 / 256, 0);
    assert Bytes(n5, 3) == [n5 % 256, n6 % 256] + Bytes(n7, 1);
    assert Bytes(n3, 5) == [n3 % 256, n4 % 256] + Bytes(n5, 3);
    assert Bytes(n1, 7) == [n1 % 256, n2 % 256] + Bytes(n3, 5);
  }

  /** The digest state of a message. */
  function Digest<S>(compress: (S, seq<int>) -> S, init: S, msg: seq<int>): S {
    Fold(compress, init, Padded(msg))
  }

  /** The part of msg that fills whole blocks, and the rest. */
  function Whole(msg: seq<int>): (r: seq<int>)
    ensures |r| % 64 == 0
  {
    msg[..|msg| - |msg| % 64]
  }

  function Tail(msg: seq<int>): (r: seq<int>)
    ensures |r| == |msg| % 64 && Whole(msg) + r == msg
  {
    msg[|msg| - |msg| % 64..]
  }

  lemma ModAdd(q: nat, k: nat)
    ensures (q % WORD + k) % WORD == (q + k) % WORD
  {
  }

  /** lo and hi as MD5_Update computes them, md5.c:207-210. */
  lemma CounterStep(total: nat, size: nat, lo: int, hi: int)
    requires lo == total % LO_LIMIT && hi == total / LO_LIMIT % WORD
    ensures var lo' := (lo + size) % LO_LIMIT;
      var hi' := ((if lo' < lo then hi + 1 else hi) + size / LO_LIMIT) % WORD;
      lo' == (total + size) % LO_LIMIT && hi' == (total + size) / LO_LIMIT % WORD
  {
    var q, t, r := total / LO_LIMIT, size / LO_LIMIT, size % LO_LIMIT;
    var carry := if lo + r >= LO_LIMIT then 1 else 0;
    assert lo + size == (t + carry) * LO_LIMIT + (lo + r - carry * LO_LIMIT);
    DivMod(lo + size, t + carry, lo + r - carry * LO_LIMIT, LO_LIMIT);
    assert total + size == (q + t + carry) * LO_LIMIT + (lo + r - carry * LO_LIMIT);
    DivMod(total + size, q + t + carry, lo + r - carry * LO_LIMIT, LO_LIMIT);
    ModAdd(q, t + carry);
  }

  /** The two counters encode the byte count modulo 2^61, so eight times them is
      the 64-bit length of section 3.2 of RFC 1321. */
  lemma CountersEncode(total: nat)
    ensures var lo, hi := total % LO_LIMIT, total / LO_LIMIT % WORD;
      lo + LO_LIMIT * hi == total % 0x2000_0000_0000_0000 && 8 * lo + WORD * hi == 8 * total % SIZE_LIMIT
  {
    var lo, q := total % LO_LIMIT, total / LO_LIMIT;
    var hi, t := q % WORD, q / WORD;
    DivMod(total, t, lo + LO_LIMIT * hi, 0x2000_0000_0000_0000);
    DivMod(8 * total, t, 8 * lo + WORD * hi, SIZE_LIMIT);
  }

  // ---------- the context ----------

  class Context<S(0, !new)> {
    const compress: (S, seq<int>) -> S
    const init: S
    var lo: int
    var hi: int
    var state: S
    const buffer: array<int>
    /** Everything given to Update so far. */
    ghost var msg: seq<int>

    ghost predicate Valid()
      reads this, buffer
    {
      && buffer.Length == 64
      && lo == |msg| % LO_LIMIT && hi == |msg| / LO_LIMIT % WORD
      && state == Fold(compress, init, Whole(msg))
      && buffer[..|msg| % 64] == Tail(msg)
    }

    /** MD5_Init, md5.c:193-201. */
    constructor (compress: (S, seq<int>) -> S, init: S)
      ensures Valid() && msg == [] && this.compress == compress && this.init == init && fresh(buffer)
    {
      this.compress, this.init := compress, init;
      lo, hi, state, msg := 0, 0, init, [];
      buffer := new int[64];
    }

    /** body, md5.c:87-191: one or more whole blocks. */
    method Body(data: seq<int>)
      requires |data| % 64 == 0 && |data| > 0
      modifies this`state
      ensures state == Fold(compress, old(state), data)
    {
      var ptr := 0;
      while true
        invariant 0 <= ptr < |data| && ptr % 64 == 0
        invariant Fold(compress, state, data[ptr..]) == Fold(compress, old(state), data)
        decreases |data| - ptr
      {
        assert data[ptr..][..64] == data[ptr..ptr + 64] && data[ptr..][64..] == data[ptr + 64..];
        state := compress(state, data[ptr..ptr + 64]);
        ptr := ptr + 64;
        if ptr == |data| {
          break;
        }
      }
    }

    /** memcpy into the buffer. */
    method Copy(at: nat, data: seq<int>)
      requires buffer.Length == 64 && at + |data| <= 64
      modifies buffer
      ensures buffer[..at] == old(buffer[..at]) && buffer[at..at + |data|] == data
      ensures buffer[at + |data|..] == old(buffer[at + |data|..])
    {
      forall i | 0 <= i < |data| {
        buffer[at + i] := data[i];
      }
    }

    /** The counters of MD5_Update, md5.c:207-210. */
    method Count(size: nat)
      requires lo == |msg| % LO_LIMIT && hi == |msg| / LO_LIMIT % WORD
      modifies this`lo, this`hi
      ensures lo == (|msg| + size) % LO_LIMIT && hi == (|msg| + size) / LO_LIMIT % WORD
    {
      CounterStep(|msg|, size, lo, hi);
      var savedLo := lo;
      lo := (savedLo + size) % LO_LIMIT;
      if lo < savedLo {
        hi := hi + 1;
      }
      hi := (hi + size / LO_LIMIT) % WORD;
    }

    /** The end of MD5_Update, md5.c:228-233: whole blocks from the input, the rest
        into the buffer. */
    method Feed(ghost done: seq<int>, rest: seq<int>)
      requires buffer.Length == 64 && |done| % 64 == 0 && state == Fold(compress, init, done)
      modifies this`state, buffer
      ensures state == Fold(compress, init, Whole(done + rest))
      ensures buffer[..|done + rest| % 64] == Tail(done + rest)
    {
      WholeBlocks(done, rest);
      var whole := |rest| - |rest| % 64;
      if |rest| >= 64 {
        Body(rest[..whole]);
        FoldConcat(compress, init, done, rest[..whole]);
      } else {
        assert done + rest[..0] == done;
      }
      Copy(0, rest[whole..]);
    }

    /** MD5_Update, md5.c:203-234. */
    method Update(data: seq<int>)
      requires Valid() && |data| < SIZE_LIMIT
      modifies this`lo, this`hi, this`state, this`msg, buffer
      ensures Valid() && msg == old(msg) + data
    {
      hide Fold, Whole, Tail;
      var used := lo % 64;
      Count(|data|);
      LowBits(|msg|);
      if used == 0 {
        WholeAll(msg);
        Feed(msg, data);
        msg := msg + data;
        return;
      }
      var available := 64 - used;
      if |data| < available {
        Copy(used, data);
        Absorb(msg, data);
        assert buffer[..used + |data|] == buffer[..used] + buffer[used..used + |data|];
        msg := msg + data;
        return;
      }
      Copy(used, data[..available]);
      assert buffer[..] == buffer[..used] + buffer[used..64];
      FillBlock(compress, init, msg, data[..available]);
      Body(buffer[..]);
      assert msg + data[..available] + data[available..] == msg + data;
      Feed(msg + data[..available], data[available..]);
      msg := msg + data;
    }

    /** The length bytes of MD5_Final, md5.c:254-262. */
    method PutLength()
      requires buffer.Length == 64 && lo == |msg| % LO_LIMIT && hi == |msg| / LO_LIMIT % WORD
      modifies this`lo, buffer
      ensures buffer[..56] == old(buffer[..56]) && buffer[56..] == EightBytes(8 * |msg| % SIZE_LIMIT)
    {
      hide EightBytes;
      lo := lo * 8;
      CountersEncode(|msg|);
      LengthBytes(lo, hi);
      Copy(56, [lo % 256, lo / 0x100 % 256, lo / 0x1_0000 % 256, lo / 0x100_0000 % 256]);
      ghost var low := buffer[56..60];
      assert buffer[..56] == buffer[..60][..56];
      Copy(60, [hi % 256, hi / 0x100 % 256, hi / 0x1_0000 % 256, hi / 0x100_0000 % 256]);
      assert buffer[56..60] == buffer[..60][56..];
      assert buffer[56..] == low + buffer[60..64];
    }

    /** MD5_Final, md5.c:236-264, up to the digest state. */
    method Final() returns (result: S)
      requires Valid()
      modifies this`lo, this`state, buffer
      ensures result == Digest(compress, init, msg)
    {
      hide Fold, Whole, Tail, Padded, EightBytes;
      ghost var tail := Tail(msg);
      var used := lo % 64;
      LowBits(|msg|);
      Copy(used, [0x80]);
      used := used + 1;
      var available := 64 - used;
      assert buffer[..used] == tail + [0x80];
      if available < 8 {
        Copy(used, Zeros(available));
        assert buffer[..] == buffer[..used] + buffer[used..64];
        Body(buffer[..]);
        used := 0;
        available := 64;
      }
      Copy(used, Zeros(available - 8));
      ghost var front := buffer[..56];
      assert front == buffer[..used] + buffer[used..56];
      PutLength();
      assert buffer[..] == front + buffer[56..];
      FinalBlocks(compress, init, msg);
      Body(buffer[..]);
      result := state;
    }
  }

  /** The bytes of the two counters are the eight length bytes. */
  lemma LengthBytes(bits: int, hi: int)
    requires 0 <= bits < WORD && 0 <= hi < WORD
    ensures EightBytes(bits + WORD * hi) ==
      [bits % 256, bits / 0x100 % 256, bits / 0x1_0000 % 256, bits / 0x100_0000 % 256]
      + [hi % 256, hi / 0x100 % 256, hi / 0x1_0000 % 256, hi / 0x100_0000 % 256]
  {
    var n := bits + WORD * hi;
    DivMod(n, hi, bits, WORD);
    LowByte(bits, hi, 1, 0x100_0000);
    LowByte(bits, hi, 0x100, 0x1_0000);
    LowByte(bits, hi, 0x1_0000, 0x100);
    LowByte(bits, hi, 0x100_0000, 1);
    HighByte(n, hi, 0x100);
    HighByte(n, hi, 0x1_0000);
    HighByte(n, hi, 0x100_0000);
  }

  lemma LowByte(bits: int, hi: int, d: int, m: int)
    requires 0 <= bits && 0 <= hi && d > 0 && m > 0 && d * m * 256 == WORD
    ensures (bits + WORD * hi) / d % 256 == bits / d % 256
  {
    var q, r := bits / d, bits % d;
    assert bits + WORD * hi == (q + m * 256 * hi) * d + r;
    DivMod(bits + WORD * hi, q + m * 256 * hi, r, d);
    var u, v := q / 256, q % 256;
    assert q + m * 256 * hi == (u + m * hi) * 256 + v;
    DivMod(q + m * 256 * hi, u + m * hi, v, 256);
  }

  lemma HighByte(n: int, hi: int, d: int)
    requires 0 <= n && n / WORD == hi && d > 0
    ensures n / (WORD * d) == hi / d
  {
    var q, r := hi / d, hi % d;
    assert n == q * (WORD * d) + (r * WORD + n % WORD);
    assert r * WORD + n % WORD < WORD * d;
    DivMod(n, q, r * WORD + n % WORD, WORD * d);
  }

  /** The last one or two blocks complete the padded message. */
  lemma FinalBlocks<S>(compress: (S, seq<int>) -> S, init: S, msg: seq<int>)
    ensures var s, open, len := Fold(compress, init, Whole(msg)), Tail(msg) + [0x80], EightBytes(8 * |msg| % SIZE_LIMIT);
      && (|open| <= 56 ==> Fold(compress, s, open + Zeros(56 - |open|) + len) == Digest(compress, init, msg))
      && (|open| > 56 ==>
            Fold(compress, Fold(compress, s, open + Zeros(64 - |open|)), Zeros(56) + len) == Digest(compress, init, msg))
  {
    hide EightBytes;
    var open, len := Tail(msg) + [0x80], EightBytes(8 * |msg| % SIZE_LIMIT);
    var s := Fold(compress, init, Whole(msg));
    var last := open + Zeros(PadLength(|msg|)) + len;
    assert Padded(msg) == Whole(msg) + last;
    if |open| <= 56 {
      assert PadLength(|msg|) == 56 - |open|;
    } else {
      assert PadLength(|msg|) == 120 - |open|;
      assert Zeros(120 - |open|) == Zeros(64 - |open|) + Zeros(56);
      assert last == (open + Zeros(64 - |open|)) + (Zeros(56) + len);
      FoldConcat(compress, s, open + Zeros(64 - |open|), Zeros(56) + len);
    }
    FoldConcat(compress, init, Whole(msg), last);
  }

  function Flatten(chunks: seq<seq<int>>): seq<int> {
    if chunks == [] then [] else Flatten(chunks[..|chunks| - 1]) + chunks[|chunks| - 1]
  }

  /** A message cut into any chunks has the digest of the whole message. */
  method Hash<S(0, !new)>(compress: (S, seq<int>) -> S, init: S, chunks: seq<seq<int>>) returns (digest: S, ghost states: seq<S>)
    requires forall i :: 0 <= i < |chunks| ==> |chunks[i]| < SIZE_LIMIT
    ensures digest == Digest(compress, init, Flatten(chunks))
    ensures Chaining(compress, init, Padded(Flatten(chunks)), states) && digest == states[|states| - 1]
  {
    hide Fold, Padded;
    var ctx := new Context(compress, init);
    for i := 0 to |chunks|
      invariant fresh(ctx) && fresh(ctx.buffer) && ctx.Valid() && ctx.msg == Flatten(chunks[..i])
      invariant ctx.compress == compress && ctx.init == init
    {
      ctx.Update(chunks[i]);
      assert chunks[..i + 1][..i] == chunks[..i];
    }
    assert chunks[..|chunks|] == chunks;
    digest := ctx.Final();
    states := FoldChaining(compress, init, Padded(Flatten(chunks)));
  }

  // ---------- the result ----------

  /** The chaining variables a, b, c and d. */
  datatype Words = Words(a: nat, b: nat, c: nat, d: nat)

  /** MD5_Init, md5.c:193-197. */
  const INITIAL := Words(0x6745_2301, 0xefcd_ab89, 0x98ba_dcfe, 0x1032_5476)

  /** A 32-bit word as four bytes, low-order byte first. */
  function FourBytes(n: nat): (r: seq<int>)
    ensures |r| == 4
  {
    [n % 256, n / 0x100 % 256, n / 0x1_0000 % 256, n / 0x100_0000 % 256]
  }

  /** The sixteen bytes of md5.c:266-281, as in section 3.5 of RFC 1321. */
  function Output(w: Words): (r: seq<int>)
    ensures |r| == 16
  {
    FourBytes(w.a) + FourBytes(w.b) + FourBytes(w.c) + FourBytes(w.d)
  }

  function WordAt(s: seq<int>, i: nat): int
    requires i + 4 <= |s|
  {
    s[i] + 0x100 * s[i + 1] + 0x1_0000 * s[i + 2] + 0x100_0000 * s[i + 3]
  }

  /** The chaining variables start as in section 3.3 of RFC 1321. */
  lemma InitialBytes()
    ensures Output(INITIAL) == [0x01, 0x23, 0x45, 0x67, 0x89, 0xab, 0xcd, 0xef, 0xfe, 0xdc, 0xba, 0x98, 0x76, 0x54, 0x32, 0x10]
  {
  }

  /** A message of at most 55 bytes is one block. */
  lemma ShortMessage<S>(compress: (S, seq<int>) -> S, init: S, msg: seq<int>)
    requires |msg| <= 55
    ensures Digest(compress, init, msg) == compress(init, msg + [0x80] + Zeros(55 - |msg|) + EightBytes(8 * |msg|))
  {
    hide EightBytes;
    var r := msg + [0x80] + Zeros(55 - |msg|) + EightBytes(8 * |msg|);
    assert Padded(msg) == r && |r| == 64 && r[..64] == r && r[64..] == [];
    assert Fold(compress, compress(init, r), []) == compress(init, r);
  }

  lemma FourBytesExact(n: nat)
    requires n < WORD
    ensures WordAt(FourBytes(n), 0) == n
  {
    var x, y, z := n / 0x100, n / 0x1_0000, n / 0x100_0000;
    assert n == 0x100 * x + n % 256 && x == 0x100 * y + x % 256 && y == 0x100 * z + y % 256 && z % 256 == z;
  }

  /** The bytes determine the digest state: no word is lost or exchanged. */
  lemma OutputExact(w: Words)
    requires w.a < WORD && w.b < WORD && w.c < WORD && w.d < WORD
    ensures var r := Output(w); w == Words(WordAt(r, 0), WordAt(r, 4), WordAt(r, 8), WordAt(r, 12))
  {
    FourBytesExact(w.a);
    FourBytesExact(w.b);
    FourBytesExact(w.c);
    FourBytesExact(w.d);
  }

  /** MD5_Init, the Updates and MD5_Final, md5.c:193-284, for any block function. */
  method Sum(compress: (Words, seq<int>) -> Words, chunks: seq<seq<int>>) returns (result: seq<int>, ghost states: seq<Words>)
    requires forall i :: 0 <= i < |chunks| ==> |chunks[i]| < SIZE_LIMIT
    ensures Chaining(compress, INITIAL, Padded(Flatten(chunks)), states) && result == Output(states[|states| - 1])
  {
    hide Digest, Flatten;
    var w;
    w, states := Hash(compress, INITIAL, chunks);
    result := [w.a % 256, w.a / 0x100 % 256, w.a / 0x1_0000 % 256, w.a / 0x100_0000 % 256]
      + [w.b % 256, w.b / 0x100 % 256, w.b / 0x1_0000 % 256, w.b / 0x100_0000 % 256]
      + [w.c % 256, w.c / 0x100 % 256, w.c / 0x1_0000 % 256, w.c / 0x100_0000 % 256]
      + [w.d % 256, w.d / 0x100 % 256, w.d / 0x1_0000 % 256, w.d / 0x100_0000 % 256];
  }

  lemma WholeAll(msg: seq<int>)
    requires |msg| % 64 == 0
    ensures Whole(msg) == msg
  {
  }

  lemma LowBits(n: nat)
    ensures n % LO_LIMIT % 64 == n % 64
  {
    var q, r := n / LO_LIMIT, n % LO_LIMIT;
    assert n == (q * 0x80_0000 + r / 64) * 64 + r % 64;
    DivMod(n, q * 0x80_0000 + r / 64, r % 64, 64);
  }

  /** Adding fewer bytes than the open block lacks. */
  lemma Absorb(msg: seq<int>, data: seq<int>)
    requires |msg| % 64 + |data| < 64
    ensures (|msg| + |data|) % 64 == |msg| % 64 + |data|
    ensures Whole(msg + data) == Whole(msg) && Tail(msg + data) == Tail(msg) + data
  {
    var q, r := |msg| / 64, |msg| % 64;
    DivMod(|msg| + |data|, q, r + |data|, 64);
    assert |msg + data| == |msg| + |data|;
    assert Whole(msg + data) == msg[..q * 64] == Whole(msg);
  }

  /** Completing the open block. */
  lemma FillBlock<S>(compress: (S, seq<int>) -> S, init: S, msg: seq<int>, data: seq<int>)
    requires |msg| % 64 + |data| == 64
    ensures |msg + data| % 64 == 0
    ensures |Tail(msg) + data| == 64
    ensures Fold(compress, Fold(compress, init, Whole(msg)), Tail(msg) + data) == Fold(compress, init, msg + data)
  {
    DivMod(|msg| + |data|, |msg| / 64 + 1, 0, 64);
    assert msg + data == Whole(msg) + (Tail(msg) + data);
    FoldConcat(compress, init, Whole(msg), Tail(msg) + data);
  }

  /** Splitting what follows whole blocks into whole blocks and a tail. */
  lemma WholeBlocks(done: seq<int>, rest: seq<int>)
    requires |done| % 64 == 0
    ensures var n := |rest| - |rest| % 64;
      && n % 64 == 0 && |done + rest| % 64 == |rest| % 64
      && Whole(done + rest) == done + rest[..n] && Tail(done + rest) == rest[n..]
  {
    var n := |rest| - |rest| % 64;
    assert n == |rest| / 64 * 64;
    DivMod(n, |rest| / 64, 0, 64);
    DivMod(|done| + |rest|, |done| / 64 + |rest| / 64, |rest| % 64, 64);
    assert |done + rest| == |done| + |rest|;
  }
}
