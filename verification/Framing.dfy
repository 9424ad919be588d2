/** Length-delimited message framing: base-128 varint lengths, as in section "Base 128 Varints" of the Protocol Buffers Encoding guide. */
module Framing {
  import opened Common

  type Bytes = seq<byte>

  const TWO_64: nat := 0x1_0000_0000_0000_0000

  function Pow128(k: nat): (p: nat)
    ensures p >= 1
  {
    if k == 0 then 1 else 0x80 * Pow128(k - 1)
  }

  /** `n << 7k` before truncation. */
  function Scaled(n: nat, k: nat): nat
  {
    n * Pow128(k)
  }

  // ---------------------------------------------------------------- encoder

  function Varint(n: nat): (b: Bytes)
    ensures b != []
  {
    if n < 0x80 then [n] else [0x80 + n % 0x80] + Varint(n / 0x80)
  }

  function Framed(m: Bytes): Bytes
  {
    Varint(|m|) + m
  }

  function FramedAll(ms: seq<Bytes>): Bytes
  {
    if ms == [] then [] else Framed(ms[0]) + FramedAll(ms[1..])
  }

  /** The server's encoder: low seven bits first, high bit set on all but the last length byte. */
  method EncodeLengthDelimited(output: Bytes, data: Bytes) returns (out: Bytes)
    requires |data| <= USIZE_MAX
    ensures out == output + Framed(data)
  {
    out := output;
    var len: nat := |data|;
    while len >= 0x80
      invariant out + Varint(len) == output + Varint(|data|)
    {
      var low := len % 0x100; // `len as u8`
      var b: byte := if low < 0x80 then low + 0x80 else low; // `| 0x80`
      assert out + ([b] + Varint(len / 0x80)) == (out + [b]) + Varint(len / 0x80);
      out := out + [b];
      len := len / 0x80;
    }
    out := out + [len];
    assert (output + Varint(|data|)) + data == output + Framed(data);
    out := out + data;
  }

  // ---------------------------------------------------------------- decoder

  /**
   The sync engine's varint reader from `pos`, after `k` groups of seven bits: the value it
   accumulates and the position after it. Bits shifted past 64 are lost; a tenth
   continuation byte is an error. The groups occupy disjoint bits, so `|=` adds them.
   */
  function ReadVarint(b: Bytes, pos: nat, k: nat): (r: Option<(nat, nat)>)
    requires pos <= |b|
    ensures r.Some? ==> pos < r.value.1 <= |b|
    decreases |b| - pos
  {
    if pos == |b| then None
    else
      var group := Scaled(b[pos] as nat % 0x80, k) % TWO_64;
      if b[pos] < 0x80 then Some((group, pos + 1))
      else if 7 * (k + 1) >= 64 then None
      else
        match ReadVarint(b, pos + 1, k + 1)
        case None => None
        case Some((v, end)) => Some((group + v, end))
  }

  function DecodeOne(b: Bytes, pos: nat): (r: Option<(Bytes, nat)>)
    requires pos <= |b|
    ensures r.Some? ==> pos < r.value.1 <= |b|
  {
    match ReadVarint(b, pos, 0)
    case None => None
    case Some((len, start)) => if len > |b| - start then None else Some((b[start..start + len], start + len))
  }

  function DecodeAll(b: Bytes, pos: nat): Option<seq<Bytes>>
    requires pos <= |b|
    decreases |b| - pos
  {
    if pos == |b| then Some([])
    else
      match DecodeOne(b, pos)
      case None => None
      case Some((m, end)) =>
        match DecodeAll(b, end)
        case None => None
        case Some(ms) => Some([m] + ms)
  }

  // ---------------------------------------------------------------- round trip

  lemma {:induction false} VarintRoundTrip(b: Bytes, pos: nat, n: nat, k: nat)
    requires k <= 9 && Scaled(n, k) < TWO_64
    requires pos <= |b| && Varint(n) <= b[pos..]
    ensures ReadVarint(b, pos, k) == Some((Scaled(n, k), pos + |Varint(n)|))
    decreases n
  {
    hide Scaled;
    assert b[pos] == Varint(n)[0];
    GroupsAdd(n, k);
    if n >= 0x80 {
      assert Varint(n)[1..] == Varint(n / 0x80);
      assert b[pos..][1..] == b[pos + 1..];
      VarintRoundTrip(b, pos + 1, n / 0x80, k + 1);
    }
  }

  lemma GroupsAdd(n: nat, k: nat)
    requires k <= 9 && Scaled(n, k) < TWO_64
    ensures Scaled(n % 0x80, k) % TWO_64 + Scaled(n / 0x80, k + 1) == Scaled(n, k)
    ensures n < 0x80 ==> Scaled(n, k) % TWO_64 == Scaled(n, k)
    ensures n >= 0x80 ==> k < 9
  {
    var p, low, high := Pow128(k), n % 0x80, n / 0x80;
    assert n == low + 0x80 * high;
    assert (low + 0x80 * high) * p == low * p + high * (0x80 * p);
    assert Pow128(9) == 0x8000_0000_0000_0000;
    if n >= 0x80 {
      assert n * p >= 0x80 * p;
    }
  }

  /** A framed message is read back whole and leaves the rest of the stream untouched. */
  lemma DecodeOneRoundTrip(b: Bytes, pos: nat, m: Bytes)
    requires |m| <= USIZE_MAX && pos <= |b| && Framed(m) <= b[pos..]
    ensures DecodeOne(b, pos) == Some((m, pos + |Framed(m)|))
  {
    var head := Varint(|m|);
    assert Framed(m)[..|head|] == head && Framed(m)[|head|..] == m;
    VarintRoundTrip(b, pos, |m|, 0);
    assert b[pos..][..|Framed(m)|] == Framed(m);
    assert b[pos..][|head|..|Framed(m)|] == b[pos + |head|..pos + |Framed(m)|];
  }

  /** Any list of framed messages decodes to exactly that list, so the framing is uniquely decodable. */
  lemma {:induction false} FramingRoundTrip(b: Bytes, pos: nat, ms: seq<Bytes>)
    requires forall i :: 0 <= i < |ms| ==> |ms[i]| <= USIZE_MAX
    requires pos <= |b| && b[pos..] == FramedAll(ms)
    ensures DecodeAll(b, pos) == Some(ms)
    decreases |ms|
  {
    if ms != [] {
      DecodeOneRoundTrip(b, pos, ms[0]);
      var end := pos + |Framed(ms[0])|;
      assert b[end..] == b[pos..][|Framed(ms[0])|..] == FramedAll(ms[1..]);
      FramingRoundTrip(b, end, ms[1..]);
      assert [ms[0]] + ms[1..] == ms;
    }
  }

  // ---------------------------------------------------------------- the encoding itself

  /** The value of base-128 groups, lowest first, continuation bits ignored. */
  function Groups(b: Bytes): nat
  {
    if b == [] then 0 else b[0] as nat % 0x80 + 0x80 * Groups(b[1..])
  }

  /** All bytes but the last have the high bit set. */
  predicate Continued(b: Bytes)
  {
    b != [] && b[|b| - 1] < 0x80 && forall i :: 0 <= i < |b| - 1 ==> b[i] >= 0x80
  }

  /** A length is written in base 128, lowest group first, marked as the guide says, and no longer than needed. */
  lemma {:induction false} VarintShape(n: nat)
    ensures Groups(Varint(n)) == n && Continued(Varint(n))
    ensures |Varint(n)| > 1 ==> Varint(n)[|Varint(n)| - 1] != 0
  {
    if n >= 0x80 {
      VarintShape(n / 0x80);
      assert Varint(n)[1..] == Varint(n / 0x80);
      var v, w := Varint(n), Varint(n / 0x80);
      assert forall i :: 0 < i < |v| ==> v[i] == w[i - 1];
      assert n / 0x80 < 0x80 ==> w == [n / 0x80];
    }
  }

  /** What the reader takes is a continued group of at most ten bytes; a longer or unfinished one is refused. */
  lemma {:induction false} ReadVarintShape(b: Bytes, pos: nat, k: nat)
    requires pos <= |b| && k <= 9
    ensures match ReadVarint(b, pos, k)
            case Some((v, end)) => pos < end <= |b| && Continued(b[pos..end]) && end - pos <= 10 - k
            case None => forall end :: pos < end <= |b| && end - pos <= 10 - k ==> !Continued(b[pos..end])
    decreases |b| - pos
  {
    hide Scaled;
    if pos < |b| && b[pos] >= 0x80 {
      if k < 9 {
        ReadVarintShape(b, pos + 1, k + 1);
        forall end | pos + 1 < end <= |b| ensures Continued(b[pos..end]) <==> Continued(b[pos + 1..end]) {
          var x, y := b[pos..end], b[pos + 1..end];
          assert forall i :: 0 < i < |x| ==> x[i] == y[i - 1];
          assert forall i :: 0 <= i < |y| ==> y[i] == x[i + 1];
        }
      }
      assert !Continued(b[pos..pos + 1]);
    }
  }
}
