/** Network byte order, and the one's complement checksum of section 1 of RFC 1071. */
module Wire {
  import opened Basics

  type U16 = x: int | 0 <= x < 0x1_0000
  type U32 = x: int | 0 <= x < 0x1_0000_0000

  type Bytes = seq<Byte>

  function Zeros(n: nat): (s: Bytes)
    ensures |s| == n
  {
    seq(n, _ => 0)
  }

  /** An IPv4 address. */
  predicate IsIp(ip: Bytes) {
    |ip| == 4
  }

  type Ip = ip: Bytes | IsIp(ip) witness [0, 0, 0, 0]

  // ---- Big-endian integers ----

  function Be16(hi: Byte, lo: Byte): U16 {
    hi * 0x100 + lo
  }

  function Be32(a: Byte, b: Byte, c: Byte, d: Byte): U32 {
    Be16(a, b) * 0x1_0000 + Be16(c, d)
  }

  function Hi(v: U16): Byte {
    v / 0x100
  }

  function Lo(v: U16): Byte {
    v % 0x100
  }

  function Hi16(v: U32): U16 {
    v / 0x1_0000
  }

  function Lo16(v: U32): U16 {
    v % 0x1_0000
  }

  function Bytes16(v: U16): (s: Bytes)
    ensures |s| == 2 && Be16(s[0], s[1]) == v
  {
    [Hi(v), Lo(v)]
  }

  function Bytes32(v: U32): (s: Bytes)
    ensures |s| == 4 && Be32(s[0], s[1], s[2], s[3]) == v
  {
    [Hi(Hi16(v)), Lo(Hi16(v)), Hi(Lo16(v)), Lo(Lo16(v))]
  }

  // ---- Buffers ----

  /** `copy_from_slice` into `out[at..]`. */
  method Put(out: array<Byte>, at: nat, data: Bytes)
    requires at + |data| <= out.Length
    modifies out
    ensures forall k :: at <= k < at + |data| ==> out[k] == data[k - at]
    ensures forall k :: 0 <= k < at || at + |data| <= k < out.Length ==> out[k] == old(out[k])
  {
    for i := 0 to |data|
      invariant forall k :: at <= k < at + i ==> out[k] == data[k - at]
      invariant forall k :: 0 <= k < at || at + i <= k < out.Length ==> out[k] == old(out[k])
    {
      out[at + i] := data[i];
    }
  }

  // ---- Checksum ----

  /** The sum of the big-endian 16-bit words; an odd last byte counts as the high half of a word. */
  function SumWords(data: Bytes): nat
    decreases |data|
  {
    if data == [] then 0
    else if |data| == 1 then Be16(data[0], 0)
    else Be16(data[0], data[1]) + SumWords(data[2..])
  }

  /** End-around carry until nothing is left above 16 bits: the one representative of `sum` modulo
      0xFFFF that is below 0x10000, and 0 only for 0. */
  function Fold(sum: nat): (r: U16)
    ensures r % 0xFFFF == sum % 0xFFFF
    ensures r == 0 <==> sum == 0
    decreases sum
  {
    if sum / 0x1_0000 == 0 then sum else Fold(sum % 0x1_0000 + sum / 0x1_0000)
  }

  lemma {:induction false} SumSplit(a: Bytes, b: Bytes)
    requires |a| % 2 == 0
    ensures SumWords(a + b) == SumWords(a) + SumWords(b)
    decreases |a|
  {
    if a == [] {
      assert a + b == b;
    } else {
      assert (a + b)[2..] == a[2..] + b;
      SumSplit(a[2..], b);
    }
  }

  /** The sum around the word at `k`. */
  lemma SumAround(data: Bytes, k: nat)
    requires k % 2 == 0 && k + 2 <= |data|
    ensures SumWords(data) == SumWords(data[..k]) + Be16(data[k], data[k + 1]) + SumWords(data[k + 2..])
  {
    assert data == data[..k] + data[k..];
    SumSplit(data[..k], data[k..]);
    assert data[k..][2..] == data[k + 2..];
  }

  /** The loop both checksum functions share. Its accumulator is 32 bits wide, and never overflows. */
  method Checksum(start: U32, data: Bytes) returns (c: U16)
    requires start <= 6 * 0xFFFF && |data| <= 0xFFFF
    ensures c == 0xFFFF - Fold(start + SumWords(data))
  {
    var sum: U32 := start;
    var i := 0;
    while i + 1 < |data|
      invariant i % 2 == 0 && i <= |data|
      invariant sum + SumWords(data[i..]) == start + SumWords(data)
      invariant sum <= (6 + i / 2) * 0xFFFF
    {
      assert data[i..][2..] == data[i + 2..];
      sum := sum + Be16(data[i], data[i + 1]);
      i := i + 2;
    }
    if i < |data| {
      sum := sum + Be16(data[i], 0);
    }
    while sum / 0x1_0000 != 0
      invariant Fold(sum) == Fold(start + SumWords(data))
      decreases sum
    {
      sum := sum % 0x1_0000 + sum / 0x1_0000;
    }
    return 0xFFFF - sum;
  }

  /** `data` with its word at `k` replaced. */
  function WithWord(data: Bytes, k: nat, w: U16): (r: Bytes)
    requires k + 2 <= |data|
    ensures |r| == |data|
  {
    data[..k] + Bytes16(w) + data[k + 2..]
  }

  lemma SumWithWord(data: Bytes, k: nat, w: U16)
    requires k % 2 == 0 && k + 2 <= |data|
    ensures SumWords(WithWord(data, k, w)) + Be16(data[k], data[k + 1]) == SumWords(data) + w
  {
    var data' := WithWord(data, k, w);
    SumAround(data, k);
    SumAround(data', k);
    assert data'[..k] == data[..k] && data'[k + 2..] == data[k + 2..];
  }

  /** Does a receiver that sums everything, the checksum included, accept? */
  predicate Accepts(start: nat, data: Bytes) {
    Fold(start + SumWords(data)) == 0xFFFF
  }

  lemma FoldIsFull(sum: nat)
    ensures Fold(sum) == 0xFFFF <==> sum % 0xFFFF == 0 && sum > 0
  {
  }

  lemma Multiple(q: int, r: int)
    requires 0 <= r < 0xFFFF
    ensures (0xFFFF * q + r) % 0xFFFF == r
  {
  }

  lemma Completes(sum: nat, f: U16, total: nat)
    requires f % 0xFFFF == sum % 0xFFFF && total == sum + 0xFFFF - f
    ensures total % 0xFFFF == 0
  {
    var q := sum / 0xFFFF;
    assert sum == 0xFFFF * q + sum % 0xFFFF;
    if f == 0xFFFF {
      Multiple(q, 0);
    } else {
      Multiple(q + 1, 0);
    }
  }

  /** Storing the checksum of data whose checksum word is 0 makes the whole sum to 0xFFFF, that is,
      its own checksum is 0. */
  lemma StoredChecksumIsAccepted(start: nat, data: Bytes, k: nat)
    requires k % 2 == 0 && k + 2 <= |data| && data[k] == data[k + 1] == 0
    ensures Accepts(start, WithWord(data, k, 0xFFFF - Fold(start + SumWords(data))))
  {
    hide Fold, SumWords, WithWord;
    var c: U16 := 0xFFFF - Fold(start + SumWords(data));
    SumWithWord(data, k, c);
    CompletedIsFull(start + SumWords(data), start + SumWords(WithWord(data, k, c)));
  }

  lemma CompletedIsFull(sum: nat, total: nat)
    requires total == sum + 0xFFFF - Fold(sum)
    ensures Fold(total) == 0xFFFF
  {
    hide Fold;
    Completes(sum, Fold(sum), total);
    FoldIsFull(total);
  }

  /** Replacing `was` by `now` in a sum that is 0 modulo 0xFFFF. */
  lemma Replaced(sum: nat, sum': nat, was: U16, now: U16)
    requires sum' + was == sum + now && sum % 0xFFFF == 0
    ensures sum' % 0xFFFF == 0 <==> now == was || (now == 0 && was == 0xFFFF) || (now == 0xFFFF && was == 0)
  {
    var q := sum / 0xFFFF;
    assert sum' == 0xFFFF * q + (now - was);
    if 0 <= now - was < 0xFFFF {
      Multiple(q, now - was);
    } else if now - was == 0xFFFF {
      Multiple(q + 1, 0);
    } else {
      Multiple(q - 1, now - was + 0xFFFF);
    }
  }

  /** Changing one word of accepted data goes unnoticed in one case only: 0 for 0xFFFF or back. */
  lemma OneWordChange(start: nat, data: Bytes, k: nat, now: U16)
    requires start > 0 && Accepts(start, data) && k % 2 == 0 && k + 2 <= |data|
    ensures var was := Be16(data[k], data[k + 1]);
      Accepts(start, WithWord(data, k, now)) <==>
        now == was || (now == 0 && was == 0xFFFF) || (now == 0xFFFF && was == 0)
  {
    hide Fold, SumWords, WithWord;
    SumWithWord(data, k, now);
    var sum, sum' := start + SumWords(data), start + SumWords(WithWord(data, k, now));
    FoldIsFull(sum);
    FoldIsFull(sum');
    Replaced(sum, sum', Be16(data[k], data[k + 1]), now);
  }

  /** Store a word, usually a checksum, into the first `n` bytes of a buffer. */
  method PutWord(out: array<Byte>, n: nat, k: nat, w: U16)
    requires k + 2 <= n <= out.Length
    modifies out
    ensures out[..n] == WithWord(old(out[..n]), k, w)
    ensures forall j :: n <= j < out.Length ==> out[j] == old(out[j])
  {
    hide Hi, Lo, Be16;
    Put(out, k, Bytes16(w));
  }
}
