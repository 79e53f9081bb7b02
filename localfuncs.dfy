/**
 * Byte and integer codecs of localfuncs.py: the Standard MIDI Files 1.0
 * variable-length quantity, a big-endian fixed-width integer reader and
 * writer, and an XOR-mask "two's complement" pair.
 *
 * The readers consume the caller's list from the front, so the list is an
 * object (`ByteQueue`) whose contents the readers replace; running out of
 * bytes, which raises an `IndexError` in the Python code, is the `None` result.
 */
module LocalFuncs {

  import opened Common

  /** A list of byte values that the readers pop from the front. */
  class ByteQueue {
    var items: seq<Byte>

    constructor (items: seq<Byte>)
      ensures this.items == items
    {
      this.items := items;
    }
  }

  // ---------------------------------------------------------------------
  // Big-endian fixed-width integers (pop_n, to_bytes)

  function Pow256(k: nat): (r: nat)
    ensures r >= 1
  {
    if k == 0 then 1 else 256 * Pow256(k - 1)
  }

  /** The value of a byte string read most significant byte first. */
  function BigEndian(s: seq<Byte>): (n: nat)
    ensures n < Pow256(|s|)
  {
    if s == [] then 0
    else
      var prefix := BigEndian(s[..|s| - 1]);
      assert prefix <= Pow256(|s| - 1) - 1;
      prefix * 256 + s[|s| - 1]
  }

  /** `k` zero bytes; no bytes for `k <= 0`, as with `b"\x00" * k`. */
  function Zeros(k: int): (r: seq<Byte>)
    ensures |r| == (if k <= 0 then 0 else k)
    ensures forall i :: 0 <= i < |r| ==> r[i] == 0
  {
    if k <= 0 then [] else seq(k, _ => 0)
  }

  /** The bytes of a positive number above its lowest byte, most significant first. */
  function HighBytes(m: nat): seq<Byte>
  {
    if m == 0 then [] else HighBytes(m / 256) + [m % 256]
  }

  /** The shortest big-endian byte string of `n`: one byte for 0. */
  function MinimalBytes(n: nat): (r: seq<Byte>)
    ensures |r| >= 1
  {
    HighBytes(n / 256) + [n % 256]
  }

  /**
   * What `to_bytes(n, l)` returns: the big-endian bytes of `n` left-padded
   * with zeros up to length `l`.  A negative `n` gives its lowest byte only,
   * because the truncating division sends it to 0 after one step.
   */
  function ToBytesSpec(n: int, l: int): (r: seq<Byte>)
    ensures |r| >= 1 && |r| >= l
    ensures n < 0 ==> r[|r| - 1] == n % 256 && forall i :: 0 <= i < |r| - 1 ==> r[i] == 0
  {
    var body := if n >= 0 then MinimalBytes(n) else [n % 256];
    Zeros(l - |body|) + body
  }

  /** Leading zero bytes do not change a big-endian value. */
  lemma {:induction false} BigEndianZeros(k: int, s: seq<Byte>)
    ensures BigEndian(Zeros(k) + s) == BigEndian(s)
    decreases |s|
  {
    if s == [] {
      assert Zeros(k) + s == Zeros(k);
      BigEndianAllZero(Zeros(k));
    } else {
      var init := s[..|s| - 1];
      assert (Zeros(k) + s)[..|Zeros(k) + s| - 1] == Zeros(k) + init;
      BigEndianZeros(k, init);
    }
  }

  lemma {:induction false} BigEndianAllZero(s: seq<Byte>)
    requires forall i :: 0 <= i < |s| ==> s[i] == 0
    ensures BigEndian(s) == 0
  {
    if s != [] {
      BigEndianAllZero(s[..|s| - 1]);
    }
  }

  /** The high bytes of `m` read back as `m`. */
  lemma {:induction false} HighBytesValue(m: nat)
    ensures BigEndian(HighBytes(m)) == m
  {
    if m > 0 {
      HighBytesValue(m / 256);
      var s := HighBytes(m);
      assert s[..|s| - 1] == HighBytes(m / 256);
    }
  }

  /** The high bytes of a number below `256^k` fit in `k` bytes. */
  lemma {:induction false} HighBytesLength(m: nat, k: nat)
    requires m < Pow256(k)
    ensures |HighBytes(m)| <= k
  {
    if m > 0 {
      HighBytesLength(m / 256, k - 1);
    }
  }

  /**
   * `to_bytes(n, l)` for `n >= 0` is big-endian: it reads back as `n`, it is
   * at least `l` long, and it is exactly `max(l, minimal length)` long.
   */
  lemma ToBytesReadsBack(n: nat, l: int)
    ensures BigEndian(ToBytesSpec(n, l)) == n
    ensures |ToBytesSpec(n, l)| == (if l > |MinimalBytes(n)| then l else |MinimalBytes(n)|)
  {
    HighBytesValue(n / 256);
    var m := MinimalBytes(n);
    assert m[..|m| - 1] == HighBytes(n / 256);
    BigEndianZeros(l - |m|, m);
  }

  /** `to_bytes(0, l)` is `max(l, 1)` zero bytes. */
  lemma ToBytesOfZero(l: int)
    ensures ToBytesSpec(0, l) == Zeros(if l > 1 then l else 1)
  {
    var r := ToBytesSpec(0, l);
    assert MinimalBytes(0) == [0];
    assert forall i :: 0 <= i < |r| ==> r[i] == 0;
  }

  /**
   * Round trip: for `0 <= n < 256^l`, reading the first `l` bytes of
   * `to_bytes(n, l)` big-endian gives back `n`.
   */
  lemma ToBytesPopNRoundTrip(n: nat, l: nat)
    requires n < Pow256(l)
    ensures |ToBytesSpec(n, l)| >= l
    ensures BigEndian(ToBytesSpec(n, l)[..l]) == n
  {
    ToBytesReadsBack(n, l);
    var r := ToBytesSpec(n, l);
    if l == 0 {
      assert n == 0;
    } else {
      HighBytesLength(n / 256, l - 1);
      assert r[..l] == r;
    }
  }

  /**
   * `pop_n(queue, nbytes)`: removes the first `nbytes` bytes of the queue and
   * returns them read big-endian; with too few bytes the queue is emptied
   * and the read fails.
   */
  method PopN(q: ByteQueue, nbytes: int) returns (r: Option<nat>)
    modifies q
    ensures nbytes <= |old(q.items)| ==>
      var k := if nbytes < 0 then 0 else nbytes;
      r == Some(BigEndian(old(q.items)[..k])) && q.items == old(q.items)[k..]
    ensures nbytes > |old(q.items)| ==> r == None && q.items == []
  {
    ghost var s := q.items;
    var out: nat := 0;
    var i := 0;
    while i < nbytes
      invariant 0 <= i <= |s| && (i <= nbytes || i == 0)
      invariant q.items == s[i..]
      invariant out == BigEndian(s[..i])
    {
      out := out * 256;
      if q.items == [] {
        return None;
      }
      out := out + q.items[0];
      q.items := q.items[1..];
      assert s[..i + 1][..i] == s[..i];
      i := i + 1;
    }
    r := Some(out);
  }

  /**
   * `to_bytes(n, l)`: builds the bytes of `n` from the lowest up, dividing
   * with truncation toward zero, then pads with zero bytes.  The Python code
   * divides in floating point; below 2^53 that division is exact.
   */
  method ToBytes(n: int, l: int) returns (out: seq<Byte>)
    requires n < 0x20_0000_0000_0000
    ensures out == ToBytesSpec(n, l)
  {
    out := [];
    var first := true;
    var m := n;
    while m > 0 || first
      invariant first ==> out == [] && m == n
      invariant !first && n >= 0 ==> m >= 0 && HighBytes(m) + out == MinimalBytes(n)
      invariant !first && n < 0 ==> m <= 0 && out == [n % 256]
      decreases (if first then 1 else 0), m
    {
      ghost var before := out;
      out := [m % 256] + out;
      if n >= 0 && !first {
        HighBytesStep(m, before);
      }
      m := if m >= 0 then m / 256 else -((-m) / 256);
      first := false;
    }
    out := Zeros(l - |out|) + out;
  }

  /** One step of `to_bytes` moves the lowest byte of `m` to the front of `out`. */
  lemma HighBytesStep(m: nat, out: seq<Byte>)
    requires m > 0
    ensures HighBytes(m / 256) + ([m % 256] + out) == HighBytes(m) + out
  {
    assert HighBytes(m) == HighBytes(m / 256) + [m % 256];
  }

  /** Reading back the first `l` bytes of `list(to_bytes(n, l))` with `pop_n` gives `n`. */
  method ToBytesThenPopN(n: nat, l: nat) returns (r: Option<nat>)
    requires n < Pow256(l) && n < 0x20_0000_0000_0000
    ensures r == Some(n)
  {
    var bytes := ToBytes(n, l);
    var q := new ByteQueue(bytes);
    ToBytesPopNRoundTrip(n, l);
    r := PopN(q, l);
  }

  // ---------------------------------------------------------------------
  // Variable-length quantities (get_variable_length, to_variable_length)

  /** Whether a byte of a variable-length quantity says more bytes follow. */
  predicate HasMore(c: Byte) { c >= 0x80 }

  /** The 7 payload bits of a byte (`c & 0x7F`). */
  function Payload(c: Byte): int { c % 0x80 }

  /** The value of a byte string taken 7 payload bits at a time, most significant first. */
  function Base128(s: seq<Byte>): nat
  {
    if s == [] then 0 else Base128(s[..|s| - 1]) * 0x80 + Payload(s[|s| - 1])
  }

  /** The position of the first byte that ends a quantity, if any. */
  function FirstFinal(s: seq<Byte>): (k: Option<nat>)
    ensures k.Some? ==>
      k.value < |s| && !HasMore(s[k.value]) && forall i :: 0 <= i < k.value ==> HasMore(s[i])
    ensures k.None? ==> forall i :: 0 <= i < |s| ==> HasMore(s[i])
  {
    if s == [] then None
    else if !HasMore(s[0]) then Some(0)
    else match FirstFinal(s[1..])
      case None => None
      case Some(k) => Some(k + 1)
  }

  /** The first byte without the continuation bit is where a quantity ends. */
  lemma {:induction false} FirstFinalAt(s: seq<Byte>, k: nat)
    requires k < |s| && !HasMore(s[k]) && forall i :: 0 <= i < k ==> HasMore(s[i])
    ensures FirstFinal(s) == Some(k)
  {
    if k > 0 {
      assert HasMore(s[0]);
      FirstFinalAt(s[1..], k - 1);
    }
  }

  /** A decoded quantity and the number of bytes it took. */
  datatype Decoded = Decoded(value: nat, length: nat)

  /**
   * What `get_variable_length` reads from the front of `s`: the payload bits
   * of every byte up to and including the first one without the
   * continuation bit.  `None` when no byte ends the quantity.
   */
  function DecodeVlq(s: seq<Byte>): (r: Option<Decoded>)
    ensures r.Some? ==> 1 <= r.value.length <= |s|
    ensures r.None? <==> forall i :: 0 <= i < |s| ==> HasMore(s[i])
  {
    match FirstFinal(s)
    case None => None
    case Some(k) => Some(Decoded(Base128(s[..k + 1]), k + 1))
  }

  /** The leading groups of a quantity, each carrying the continuation bit. */
  function LeadingGroups(m: nat): (r: seq<Byte>)
    ensures forall i :: 0 <= i < |r| ==> HasMore(r[i])
  {
    if m == 0 then [] else LeadingGroups(m / 0x80) + [0x80 + m % 0x80]
  }

  /**
   * The encoding `to_variable_length(n)` produces for `n >= 0`: every byte
   * but the last has the continuation bit, the last has it clear; 0 is the
   * single byte 0.
   */
  function Vlq(n: nat): (r: seq<Byte>)
    ensures |r| >= 1 && !HasMore(r[|r| - 1])
    ensures forall i :: 0 <= i < |r| - 1 ==> HasMore(r[i])
    ensures n == 0 ==> r == [0]
    ensures n < 0x80 ==> r == [n]
  {
    LeadingGroups(n / 0x80) + [n % 0x80]
  }

  /** The first leading group of a positive number is never an empty group. */
  lemma {:induction false} LeadingGroupsNoZeroHead(m: nat)
    requires m > 0
    ensures LeadingGroups(m)[0] > 0x80
  {
    if m / 0x80 > 0 {
      LeadingGroupsNoZeroHead(m / 0x80);
    }
  }

  /** The encoding is minimal: for `n > 0` its first byte is never `0x80`. */
  lemma VlqMinimal(n: nat)
    requires n > 0
    ensures Vlq(n)[0] != 0x80
  {
    if n >= 0x80 {
      LeadingGroupsNoZeroHead(n / 0x80);
    }
  }

  lemma {:induction false} LeadingGroupsValue(m: nat)
    ensures Base128(LeadingGroups(m)) == m
  {
    if m > 0 {
      LeadingGroupsValue(m / 0x80);
      var s := LeadingGroups(m);
      assert s[..|s| - 1] == LeadingGroups(m / 0x80);
    }
  }

  /**
   * Round trip: decoding the encoding of `n` followed by anything gives `n`
   * and consumes exactly the encoding.
   */
  lemma VlqRoundTrip(n: nat, rest: seq<Byte>)
    ensures DecodeVlq(Vlq(n) + rest) == Some(Decoded(n, |Vlq(n)|))
  {
    var e := Vlq(n);
    var s := e + rest;
    var k := |e| - 1;
    assert s[..k + 1] == e;
    FirstFinalAt(s, k);
    VlqValue(n);
  }

  /** The encoding of `n` read back 7 bits at a time is `n`. */
  lemma VlqValue(n: nat)
    ensures Base128(Vlq(n)) == n
  {
    var m := n / 0x80;
    LeadingGroupsValue(m);
    Base128Snoc(LeadingGroups(m), n % 0x80);
  }

  lemma Base128Snoc(s: seq<Byte>, b: Byte)
    ensures Base128(s + [b]) == Base128(s) * 0x80 + Payload(b)
  {
    assert (s + [b])[..|s|] == s;
  }

  /**
   * `get_variable_length(queue)`: pops bytes up to and including the first
   * one without the continuation bit and returns their payload bits; when
   * the queue runs out first, it is left empty and the read fails.
   */
  method GetVariableLength(q: ByteQueue) returns (r: Option<nat>)
    modifies q
    ensures DecodeVlq(old(q.items)).None? ==> r == None && q.items == []
    ensures DecodeVlq(old(q.items)).Some? ==>
      r == Some(DecodeVlq(old(q.items)).value.value)
      && q.items == old(q.items)[DecodeVlq(old(q.items)).value.length..]
  {
    ghost var s := q.items;
    ghost var k := 0;
    var n := 0;
    while true
      invariant 0 <= k <= |s| && q.items == s[k..]
      invariant n == Base128(s[..k])
      invariant forall i :: 0 <= i < k ==> HasMore(s[i])
      decreases |q.items|
    {
      n := n * 0x80;
      if q.items == [] {
        return None;
      }
      var c := q.items[0];
      q.items := q.items[1..];
      n := n + Payload(c);
      assert s[..k + 1][..k] == s[..k];
      k := k + 1;
      if !HasMore(c) {
        break;
      }
    }
    assert FirstFinal(s) == Some(k - 1);
    r := Some(n);
  }

  /**
   * `to_variable_length(n)`: emits 7-bit groups from the lowest up, marking
   * all but the first one emitted with the continuation bit, then reverses.
   * A negative `n` (shifted arithmetically) yields its lowest group only.
   */
  method ToVariableLength(n: int) returns (out: seq<Byte>)
    ensures n >= 0 ==> out == Vlq(n)
    ensures n < 0 ==> out == [n % 0x80]
  {
    out := [];
    var first := true;
    var m := n;
    while m > 0 || first
      invariant first ==> out == [] && m == n
      invariant !first && n >= 0 ==> m >= 0 && LeadingGroups(m) + Reverse(out) == Vlq(n)
      invariant !first && n < 0 ==> m < 0 && out == [n % 0x80]
      decreases (if first then 1 else 0), m
    {
      var group := m % 0x80;
      if n >= 0 && !first {
        LeadingGroupsStep(m, Reverse(out));
      }
      m := m / 0x80;
      if !first {
        group := group + 0x80;
      }
      ReverseSnoc(out, group);
      out := out + [group];
      first := false;
    }
    out := Reverse(out);
  }

  /** One step of `to_variable_length` moves the lowest group of `m` into the output. */
  lemma LeadingGroupsStep(m: nat, tail: seq<Byte>)
    requires m > 0
    ensures LeadingGroups(m / 0x80) + ([0x80 + m % 0x80] + tail) == LeadingGroups(m) + tail
  {
    assert LeadingGroups(m) == LeadingGroups(m / 0x80) + [0x80 + m % 0x80];
  }

  lemma ReverseSnoc<T>(s: seq<T>, x: T)
    ensures Reverse(s + [x]) == [x] + Reverse(s)
  {
    assert (s + [x])[..|s|] == s;
  }

  /** `list.reverse()`. */
  function Reverse<T>(s: seq<T>): (r: seq<T>)
    ensures |r| == |s|
  {
    if s == [] then [] else [s[|s| - 1]] + Reverse(s[..|s| - 1])
  }

  /** Decoding `list(to_variable_length(n))`, whatever follows it, gives the number back. */
  method ToVariableLengthThenDecode(n: nat, rest: seq<Byte>) returns (r: Option<nat>)
    ensures r == Some(n)
  {
    var bytes := ToVariableLength(n);
    var q := new ByteQueue(bytes + rest);
    VlqRoundTrip(n, rest);
    r := GetVariableLength(q);
  }

  // ---------------------------------------------------------------------
  // The XOR-mask pair (to_twos_comp, from_twos_comp)

  /** Bitwise exclusive or of two non-negative integers. */
  function Xor(a: nat, b: nat): nat
    decreases a + b
  {
    if a == 0 && b == 0 then 0 else 2 * Xor(a / 2, b / 2) + (a % 2 + b % 2) % 2
  }

  /**
   * Python's `^` of any integer with a non-negative mask: on a negative
   * number it acts on the infinite two's-complement form, i.e.
   * `a ^ f == ~(~a ^ f)`.
   */
  function IntXor(a: int, f: nat): int
  {
    if a >= 0 then Xor(a, f) else -(Xor(-a - 1, f) as int) - 1
  }

  /** The mask localfuncs.py builds: `bits` rounds of `f <<= 2; f += 1`. */
  function Mask(bits: int): (r: nat)
    ensures bits >= 0 ==> 3 * r + 1 == Pow2(2 * bits)
  {
    if bits <= 0 then 0
    else
      assert Pow2(2 * bits) == 4 * Pow2(2 * (bits - 1));
      Mask(bits - 1) * 4 + 1
  }

  /** The lowest bit of `a ^ b` and the XOR of the bits above it. */
  lemma XorDigits(a: nat, b: nat)
    ensures Xor(a, b) / 2 == Xor(a / 2, b / 2)
    ensures Xor(a, b) % 2 == (a % 2 + b % 2) % 2
  {
    var h := Xor(a / 2, b / 2);
    var d := (a % 2 + b % 2) % 2;
    assert Xor(a, b) == 2 * h + d;
  }

  lemma {:induction false} XorInvolution(a: nat, b: nat)
    ensures Xor(Xor(a, b), b) == a
    decreases a + b
  {
    if b == 0 {
      XorZeroRight(a);
      XorZeroRight(Xor(a, b));
    } else {
      XorInvolution(a / 2, b / 2);
      var x := Xor(a, b);
      XorDigits(a, b);
      assert Xor(x, b) == 2 * Xor(x / 2, b / 2) + (x % 2 + b % 2) % 2;
      assert (x % 2 + b % 2) % 2 == a % 2 by {
        assert a % 2 == 0 || a % 2 == 1;
        assert b % 2 == 0 || b % 2 == 1;
      }
    }
  }

  lemma {:induction false} XorZeroRight(a: nat)
    ensures Xor(a, 0) == a
    decreases a
  {
    if a > 0 {
      XorZeroRight(a / 2);
    }
  }

  /** XOR with any mask undoes itself, for negative numbers too. */
  lemma IntXorInvolution(a: int, f: nat)
    ensures IntXor(IntXor(a, f), f) == a
  {
    if a >= 0 {
      XorInvolution(a, f);
    } else {
      XorInvolution(-a - 1, f);
    }
  }

  /**
   * The pair inverts: for every `n` and width,
   * `from_twos_comp(to_twos_comp(n) + 1) == n`.
   */
  lemma TwosCompRoundTrip(n: int, bits: int)
    ensures IntXor((IntXor(n, Mask(bits)) + 1) - 1, Mask(bits)) == n
  {
    IntXorInvolution(n, Mask(bits));
  }

  /** `to_twos_comp(n, bits)`: XOR with the mask built in a counted loop. */
  method ToTwosComp(n: int, bits: int) returns (r: int)
    ensures r == IntXor(n, Mask(bits))
  {
    var f := 0;
    for i := 0 to (if bits < 0 then 0 else bits)
      invariant f == Mask(i)
    {
      f := f * 4;
      f := f + 1;
    }
    r := IntXor(n, f);
  }

  /** `from_twos_comp(n, bits)`: XOR of `n - 1` with the same mask. */
  method FromTwosComp(n: int, bits: int) returns (r: int)
    ensures r == IntXor(n - 1, Mask(bits))
  {
    var f := 0;
    for i := 0 to (if bits < 0 then 0 else bits)
      invariant f == Mask(i)
    {
      f := f * 4;
      f := f + 1;
    }
    r := IntXor(n - 1, f);
  }

  lemma {:induction false} XorZero(b: nat)
    ensures Xor(0, b) == b
    decreases b
  {
    if b > 0 {
      XorZero(b / 2);
    }
  }

  /**
   * As written, the mask for 8 bits is 0x5555 rather than 0xFF, so
   * `to_twos_comp(0)` is 0x5555, far outside a byte.
   */
  lemma MaskAsWritten()
    ensures Mask(8) == 0x5555
    ensures IntXor(0, Mask(8)) == 0x5555
  {
    XorZero(0x5555);
  }

  /** The evidently intended mask: `bits` one bits (`f <<= 1; f += 1`). */
  function OnesMask(bits: int): nat
  {
    if bits <= 0 then 0 else OnesMask(bits - 1) * 2 + 1
  }

  function Pow2(k: nat): (r: nat)
    ensures r >= 1
  {
    if k == 0 then 1 else 2 * Pow2(k - 1)
  }

  lemma {:induction false} XorOnes(n: nat, bits: nat)
    requires n < Pow2(bits)
    ensures OnesMask(bits) == Pow2(bits) - 1
    ensures Xor(n, OnesMask(bits)) == Pow2(bits) - 1 - n
  {
    if bits > 0 {
      var m := OnesMask(bits);
      assert m == 2 * OnesMask(bits - 1) + 1;
      assert m / 2 == OnesMask(bits - 1) && m % 2 == 1;
      assert n / 2 < Pow2(bits - 1);
      XorOnes(n / 2, bits - 1);
      assert Xor(n, m) == 2 * Xor(n / 2, m / 2) + (n % 2 + m % 2) % 2;
      assert (n % 2 + m % 2) % 2 == 1 - n % 2;
      assert Pow2(bits) == 2 * Pow2(bits - 1);
    }
  }

  /**
   * With the intended mask the pair is a true two's complement on `bits`
   * bits: `to_twos_comp(n) + 1` is `2^bits - n`, the representation of `-n`,
   * and `from_twos_comp(x)` recovers the magnitude `2^bits - x`.
   */
  lemma IntendedTwosComp(n: nat, x: int, bits: nat)
    requires n < Pow2(bits) && 1 <= x <= Pow2(bits)
    ensures IntXor(n, OnesMask(bits)) + 1 == Pow2(bits) - n
    ensures IntXor(x - 1, OnesMask(bits)) == Pow2(bits) - x
  {
    XorOnes(n, bits);
    XorOnes(x - 1, bits);
  }
}
