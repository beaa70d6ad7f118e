/**
  The UDP checksum that the pinger puts on its raw IPv6 packets (RFC 768; section 8.1 of RFC 8200;
  sections 1 and 2 of RFC 1071), and the 32-bit round-trip time it computes from a reply.

  Memory holds bytes; the host is little endian.
 */
module Checksum {
  type Byte = b: int | 0 <= b < 256

  const WRAP32: int := 0x1_0000_0000
  const ONES: int := 0xFFFF

  // ---------- the code ----------

  // ntohs and htons on a little-endian host
  function Swap16(x: int): int {
    x % 256 * 256 + x / 256
  }

  // The 16-bit number that memory holds at the start of data
  function Load16(data: seq<Byte>): int
    requires |data| >= 2
  {
    Word(data[1], data[0])
  }

  function BigEndian32(x: int): seq<Byte>
    requires 0 <= x < WRAP32
  {
    [x / 256 / 256 / 256, x / 256 / 256 % 256, x / 256 % 256, x % 256]
  }

  function Fold(sum: int): int {
    sum % 0x1_0000 + sum / 0x1_0000
  }

  // The sum modulo 0xFFFF, where 0xFFFF stands for all multiples but 0 itself
  function Folded(sum: nat): nat {
    if sum == 0 then 0 else (sum - 1) % ONES + 1
  }

  function Word(hi: int, lo: int): int {
    hi * 256 + lo
  }

  // The sum of the big-endian words; an odd last byte is the high half of a word
  function WordSum(data: seq<Byte>): nat {
    if |data| == 0 then 0
    else if |data| == 1 then Word(data[0], 0)
    else Word(data[0], data[1]) + WordSum(data[2..])
  }

  method LoadBigEndian(data: seq<Byte>) returns (word: int)
    requires |data| >= 2
    ensures word == Word(data[0], data[1])
  {
    word := Swap16(Load16(data));
    SwapIs(data[1], data[0]);
  }

  // Addition of uint32_t; x and y are the sums that wrapped around to a and b
  method Add32(a: int, b: int, ghost x: nat, ghost y: nat) returns (sum: int)
    requires a == x % WRAP32 && b == y % WRAP32
    ensures sum == (x + y) % WRAP32
  {
    sum := (a + b) % WRAP32;
    ghost var q := x / WRAP32 + y / WRAP32;
    assert x + y == WRAP32 * q + (a + b);
    assert (x + y) / WRAP32 == q + (a + b) / WRAP32;
  }

  method Uint16Checksum(data: seq<Byte>) returns (sum: int)
    ensures sum == WordSum(data) % WRAP32
  {
    sum := 0;
    var at := 0;
    ghost var full: nat := 0;
    while |data| - at >= 2
      invariant 0 <= at <= |data|
      invariant full + WordSum(data[at..]) == WordSum(data)
      invariant sum == full % WRAP32
    {
      assert data[at..][2..] == data[at + 2..];
      var word := LoadBigEndian(data[at..]);
      sum := Add32(sum, word, full, word);
      full := full + word;
      at := at + 2;
    }
    if |data| - at == 1 {
      var word := LoadBigEndian([data[at], 0]);
      sum := Add32(sum, word, full, word);
    }
  }

  // Two folds of a 32-bit sum are enough
  lemma TwoFoldsSuffice(sum: nat)
    requires sum < WRAP32
    ensures Fold(Fold(sum)) == Folded(sum) <= ONES
  {
    var once := Fold(sum);
    assert once <= 0x1_FFFE;
    var twice := Fold(once);
    assert 0 <= twice <= ONES && (twice == 0 <==> sum == 0);
    var carries := sum / 0x1_0000 + once / 0x1_0000;
    assert sum == twice + ONES * carries;
    if sum > 0 {
      Representative(sum, twice, carries);
    }
  }

  lemma Representative(sum: int, r: int, carries: int)
    requires 0 < r <= ONES && sum == r + ONES * carries
    ensures (sum - 1) % ONES + 1 == r
  {
    var d := (sum - 1) / ONES - carries;
    assert r - 1 == ONES * d + (sum - 1) % ONES;
    assert d == 0;
  }

  method FoldAndInvert(sum: int) returns (sum2: int)
    requires 0 <= sum < WRAP32
    ensures sum2 == Complement(sum)
  {
    var folded := sum % 0x1_0000 + sum / 0x1_0000;
    assert folded == Fold(sum);
    folded := folded % 0x1_0000 + folded / 0x1_0000;
    assert folded == Fold(Fold(sum));
    TwoFoldsSuffice(sum);
    assert folded % 0x1_0000 == folded;
    sum2 := ONES - Swap16(folded % 0x1_0000);
    if sum2 == 0 {
      return ONES;
    }
  }

  method Ipv6UdpCheckSum(data: seq<Byte>, src: seq<Byte>, dst: seq<Byte>, proto: Byte) returns (sum2: int)
    requires |data| < 0x1_0000 && |src| == |dst| == 16
    ensures sum2 == CheckSum(data, src, dst, proto)
  {
    var sum := SumParts(src, dst, PseudoTail(|data|, proto), data);
    TailWords(|data|, proto);
    assert sum == Total(data, src, dst, proto);
    sum2 := FoldAndInvert(sum);
  }

  method SumParts(src: seq<Byte>, dst: seq<Byte>, phdr: seq<Byte>, data: seq<Byte>) returns (sum: int)
    requires |data| < 0x1_0000 && |src| == |dst| == 16 && |phdr| == 8
    ensures 0 <= sum < WRAP32 && sum == WordSum(src) + WordSum(dst) + WordSum(phdr) + WordSum(data)
  {
    ghost var a, b, c, d := WordSum(src), WordSum(dst), WordSum(phdr), WordSum(data);
    sum := Uint16Checksum(src);
    var part := Uint16Checksum(dst);
    sum := Add32(sum, part, a, b);
    part := Uint16Checksum(phdr);
    sum := Add32(sum, part, a + b, c);
    part := Uint16Checksum(data);
    sum := Add32(sum, part, a + b + c, d);
    TotalBound(src, dst, phdr, data);
  }

  // ---------- the same without wrap-around ----------

  function Total(data: seq<Byte>, src: seq<Byte>, dst: seq<Byte>, proto: Byte): nat
    requires |data| < 0x1_0000
  {
    WordSum(src) + WordSum(dst) + (|data| + proto as int) + WordSum(data)
  }

  function PseudoTail(size: int, proto: Byte): seq<Byte>
    requires 0 <= size < WRAP32
  {
    BigEndian32(size) + BigEndian32(proto)
  }

  function CheckSum(data: seq<Byte>, src: seq<Byte>, dst: seq<Byte>, proto: Byte): int
    requires |data| < 0x1_0000
  {
    Complement(Total(data, src, dst, proto))
  }

  // The complement of the folded sum as the host holds it; 0 would mean "no checksum"
  function Complement(total: nat): int {
    var inverted := ONES - Swap16(Folded(total));
    if inverted == 0 then ONES else inverted
  }

  lemma {:induction false} WordSumBound(data: seq<Byte>)
    ensures WordSum(data) <= ONES * ((|data| + 1) / 2)
  {
    if |data| >= 2 {
      WordSumBound(data[2..]);
    }
  }

  // The 32-bit sum never overflows
  lemma TotalBound(src: seq<Byte>, dst: seq<Byte>, phdr: seq<Byte>, data: seq<Byte>)
    requires |data| < 0x1_0000 && |src| == |dst| == 16 && |phdr| == 8
    ensures WordSum(src) + WordSum(dst) + WordSum(phdr) + WordSum(data) < WRAP32
  {
    WordSumBound(data);
    WordSumBound(src);
    WordSumBound(dst);
    WordSumBound(phdr);
  }

  // ---------- the receiver ----------

  // Ones'-complement addition: a carry out of the top comes back in at the bottom
  function OnesAdd(a: int, b: int): int {
    if a + b > ONES then a + b - ONES else a + b
  }

  function OnesSum(acc: int, data: seq<Byte>): int
    decreases |data|
  {
    if |data| == 0 then acc
    else if |data| == 1 then OnesAdd(acc, Word(data[0], 0))
    else OnesSum(OnesAdd(acc, Word(data[0], data[1])), data[2..])
  }

  // What the receiver sums: the pseudo-header of section 8.1 of RFC 8200, then the packet
  function Covered(packet: seq<Byte>, src: seq<Byte>, dst: seq<Byte>, proto: Byte): seq<Byte>
    requires |packet| < 0x1_0000
  {
    src + dst + BigEndian32(|packet|) + BigEndian32(proto) + packet
  }

  predicate Accepts(packet: seq<Byte>, src: seq<Byte>, dst: seq<Byte>, proto: Byte)
    requires |packet| < 0x1_0000
  {
    OnesSum(0, Covered(packet, src, dst, proto)) == ONES
  }

  // The header stores the 16-bit result at offset 6, low byte first
  function Stamp(packet: seq<Byte>, checkSum: int): seq<Byte>
    requires |packet| >= 8 && 0 <= checkSum <= ONES
  {
    packet[6 := checkSum % 256][7 := checkSum / 256]
  }

  // ---------- ones'-complement sums are sums modulo 0xFFFF with no zero of their own ----------

  lemma {:induction false} OnesSumIs(acc: int, data: seq<Byte>) returns (carries: nat)
    requires 0 <= acc <= ONES
    ensures 0 <= OnesSum(acc, data) <= ONES
    ensures acc + WordSum(data) == OnesSum(acc, data) + ONES * carries
    ensures OnesSum(acc, data) == 0 <==> acc + WordSum(data) == 0
    decreases |data|
  {
    if |data| == 0 {
      carries := 0;
    } else {
      var word := Word(data[0], if |data| == 1 then 0 else data[1]);
      var wrapped := if acc + word > ONES then 1 else 0;
      if |data| == 1 {
        carries := wrapped;
      } else {
        var rest := OnesSumIs(OnesAdd(acc, word), data[2..]);
        carries := rest + wrapped;
      }
    }
  }

  predicate PositiveMultiple(sum: int, k: int) {
    k > 0 && sum == ONES * k
  }

  lemma OnesSumFull(data: seq<Byte>)
    ensures OnesSum(0, data) == ONES <==> exists k :: PositiveMultiple(WordSum(data), k)
  {
    var carries := OnesSumIs(0, data);
    if OnesSum(0, data) == ONES {
      assert PositiveMultiple(WordSum(data), carries + 1);
    }
  }

  lemma {:induction false} WordSumConcat(a: seq<Byte>, b: seq<Byte>)
    requires |a| % 2 == 0
    ensures WordSum(a + b) == WordSum(a) + WordSum(b)
  {
    if a == [] {
      assert a + b == b;
    } else {
      assert (a + b)[2..] == a[2..] + b;
      WordSumConcat(a[2..], b);
    }
  }

  lemma CoveredSum(packet: seq<Byte>, src: seq<Byte>, dst: seq<Byte>, proto: Byte)
    requires |packet| < 0x1_0000 && |src| == |dst| == 16
    ensures WordSum(Covered(packet, src, dst, proto)) == Total(packet, src, dst, proto)
  {
    var phdr := BigEndian32(|packet|) + BigEndian32(proto);
    assert Covered(packet, src, dst, proto) == src + (dst + (phdr + packet));
    WordSumConcat(phdr, packet);
    WordSumConcat(dst, phdr + packet);
    WordSumConcat(src, dst + (phdr + packet));
    TailWords(|packet|, proto);
  }

  // Replacing the word at an even offset changes the sum by the difference of the words
  lemma WordReplaced(data: seq<Byte>, at: nat, hi: Byte, lo: Byte)
    requires at % 2 == 0 && at + 1 < |data|
    ensures WordSum(data[at := hi][at + 1 := lo])
            == WordSum(data) - Word(data[at], data[at + 1]) + Word(hi, lo)
  {
    var front, back := data[..at], data[at + 2..];
    assert data == front + ([data[at], data[at + 1]] + back);
    assert data[at := hi][at + 1 := lo] == front + ([hi, lo] + back);
    WordSumConcat(front, [data[at], data[at + 1]] + back);
    WordSumConcat(front, [hi, lo] + back);
    assert ([data[at], data[at + 1]] + back)[2..] == back && ([hi, lo] + back)[2..] == back;
  }

  lemma FoldIs(sum: nat) returns (carries: nat)
    ensures sum == Folded(sum) + ONES * carries && Folded(sum) <= ONES
  {
    carries := if sum == 0 then 0 else (sum - 1) / ONES;
  }

  lemma SwapTwice(x: int)
    requires 0 <= x <= ONES
    ensures 0 <= Swap16(x) <= ONES && Swap16(Swap16(x)) == x
    ensures Swap16(ONES - x) == ONES - Swap16(x)
  {
    var hi, lo := x / 256, x % 256;
    SwapIs(hi, lo);
    SwapIs(lo, hi);
    SwapIs(255 - hi, 255 - lo);
  }

  lemma SwapIs(hi: Byte, lo: Byte)
    ensures Swap16(Word(hi, lo)) == Word(lo, hi)
  {
    assert Word(hi, lo) % 256 == lo && Word(hi, lo) / 256 == hi;
  }

  // Adding the complement to any sum gives a positive multiple of 0xFFFF
  lemma ComplementCompletes(total: nat) returns (k: nat)
    ensures 0 < Complement(total) <= ONES
    ensures var c := Complement(total); k > 0 && total + 256 * (c % 256) + c / 256 == 65535 * k
  {
    var carries := FoldIs(total);
    var folded := Folded(total);
    SwapTwice(folded);
    SwapTwice(Swap16(folded));
    k := if folded == ONES then carries + 2 else carries + 1;
  }

  // ---------- the theorems ----------

  // A stamped packet is accepted by every receiver, and its checksum is never the "none" value 0
  lemma StampedPacketAccepted(packet: seq<Byte>, src: seq<Byte>, dst: seq<Byte>, proto: Byte)
    requires 8 <= |packet| < 0x1_0000 && |src| == |dst| == 16
    requires packet[6] == packet[7] == 0
    ensures var c := CheckSum(packet, src, dst, proto);
            0 < c <= ONES && Accepts(Stamp(packet, c), src, dst, proto)
  {
    var k := ComplementCompletes(Total(packet, src, dst, proto));
    FullTotalAccepted(packet, src, dst, proto, CheckSum(packet, src, dst, proto), k);
  }

  lemma FullTotalAccepted(packet: seq<Byte>, src: seq<Byte>, dst: seq<Byte>, proto: Byte, c: int, k: nat)
    requires 8 <= |packet| < 0x1_0000 && |src| == |dst| == 16
    requires packet[6] == packet[7] == 0 && 0 <= c <= ONES
    requires PositiveMultiple(Total(packet, src, dst, proto) + Swap16(c), k)
    ensures Accepts(Stamp(packet, c), src, dst, proto)
  {
    StampSum(packet, c);
    CoveredSum(Stamp(packet, c), src, dst, proto);
    OnesSumFull(Covered(Stamp(packet, c), src, dst, proto));
  }

  lemma StampSum(packet: seq<Byte>, c: int)
    requires |packet| >= 8 && 0 <= c <= ONES && packet[6] == packet[7] == 0
    ensures WordSum(Stamp(packet, c)) == WordSum(packet) + Swap16(c)
  {
    WordReplaced(packet, 6, c % 256, c / 256);
  }

  // ---------- the receiver's sum in plain numbers ----------

  // The bytes of a 32-bit number, the highest first
  lemma BigEndianValue(x: int)
    requires 0 <= x < WRAP32
    ensures var b := BigEndian32(x);
            |b| == 4 && b[0] as int * 0x100_0000 + b[1] as int * 0x1_0000 + b[2] as int * 0x100 + b[3] as int == x
  {
    var k := x / 256;
    var l := k / 256;
    assert x == 256 * k + x % 256 && k == 256 * l + k % 256 && l == 256 * (l / 256) + l % 256;
  }

  // Bytes at even places count 256 times
  function Weighted(data: seq<Byte>): nat {
    if data == [] then 0
    else
      var n := |data| - 1;
      Weighted(data[..n]) + data[n] as int * if n % 2 == 0 then 256 else 1
  }

  lemma {:induction false} WeightedFrom(a: Byte, b: Byte, rest: seq<Byte>)
    ensures Weighted([a, b] + rest) == 256 * a as int + b as int + Weighted(rest)
  {
    if rest == [] {
      assert [a, b] + rest == [a, b] && [a, b][..1] == [a] && [a][..0] == [];
      assert Weighted([a]) == 256 * a as int;
    } else {
      var n := |rest| - 1;
      assert ([a, b] + rest)[..n + 2] == [a, b] + rest[..n];
      WeightedFrom(a, b, rest[..n]);
    }
  }

  lemma {:induction false} WordSumIsWeighted(data: seq<Byte>)
    ensures WordSum(data) == Weighted(data)
  {
    if |data| == 1 {
      assert data[..0] == [];
    } else if |data| >= 2 {
      WordSumIsWeighted(data[2..]);
      WeightedFrom(data[0], data[1], data[2..]);
      assert data == [data[0], data[1]] + data[2..];
    }
  }

  // What the receiver has to add up: addresses, length, protocol and packet
  function ReceivedTotal(packet: seq<Byte>, src: seq<Byte>, dst: seq<Byte>, proto: Byte): nat {
    Weighted(src) + Weighted(dst) + |packet| + proto + Weighted(packet)
  }

  // Length and protocol fit into their low words
  lemma TailWords(size: nat, proto: Byte)
    requires size < 0x1_0000
    ensures WordSum(PseudoTail(size, proto)) == size + proto
  {
    WordSumConcat(BigEndian32(size), BigEndian32(proto));
    SmallNumber(size);
    SmallNumber(proto);
  }

  lemma SmallNumber(x: nat)
    requires x < 0x1_0000
    ensures WordSum(BigEndian32(x)) == x
  {
    var b := BigEndian32(x);
    BigEndianValue(x);
    TwoWords(b);
    HighBytesZero(b[0], b[1], b[2], b[3], x);
  }

  lemma HighBytesZero(a: int, b: int, c: int, d: int, x: int)
    requires 0 <= a && 0 <= b && 0 <= c && 0 <= d && x < 0x1_0000
    requires a * 0x100_0000 + b * 0x1_0000 + c * 0x100 + d == x
    ensures 256 * a + b + 256 * c + d == x
  {
    assert a == 0 && b == 0;
  }

  lemma TwoWords(b: seq<Byte>)
    requires |b| == 4
    ensures WordSum(b) == 256 * b[0] as int + b[1] as int + 256 * b[2] as int + b[3] as int
  {
    assert b[2..] == [b[2], b[3]] && b[2..][2..] == [];
    assert WordSum(b[2..]) == Word(b[2], b[3]) + WordSum(b[2..][2..]);
  }

  lemma TotalIsReceived(packet: seq<Byte>, src: seq<Byte>, dst: seq<Byte>, proto: Byte)
    requires |packet| < 0x1_0000
    ensures Total(packet, src, dst, proto) == ReceivedTotal(packet, src, dst, proto)
  {
    WordSumIsWeighted(src);
    WordSumIsWeighted(dst);
    WordSumIsWeighted(packet);
  }

  // A receiver accepts exactly what adds up to a multiple of 0xFFFF other than 0
  lemma AcceptsExact(packet: seq<Byte>, src: seq<Byte>, dst: seq<Byte>, proto: Byte)
    requires |packet| < 0x1_0000 && |src| == |dst| == 16
    ensures Accepts(packet, src, dst, proto)
            <==> var total := ReceivedTotal(packet, src, dst, proto); total > 0 && total % 65535 == 0
  {
    CoveredSum(packet, src, dst, proto);
    TotalIsReceived(packet, src, dst, proto);
    OnesSumFull(Covered(packet, src, dst, proto));
    Multiples(ReceivedTotal(packet, src, dst, proto));
  }

  lemma Multiples(total: nat)
    ensures (exists k :: PositiveMultiple(total, k)) <==> total > 0 && total % 65535 == 0
  {
    if k :| PositiveMultiple(total, k) {
      MultipleLeavesNothing(total, k);
    }
    if total > 0 && total % 65535 == 0 {
      assert PositiveMultiple(total, total / 65535);
    }
  }

  lemma MultipleLeavesNothing(x: int, k: int)
    requires x == ONES * k
    ensures x % 65535 == 0
  {
  }

  // The number returned is the one that memory holds low byte first, and with it the packet adds up
  lemma StampedPacketAddsUp(packet: seq<Byte>, src: seq<Byte>, dst: seq<Byte>, proto: Byte, c: int) returns (k: nat)
    requires 8 <= |packet| < 0x1_0000 && |src| == |dst| == 16
    requires packet[6] == packet[7] == 0 && c == CheckSum(packet, src, dst, proto)
    ensures 0 < c <= 65535
    ensures var sent := Stamp(packet, c);
            && |sent| == |packet| && sent[6] as int + 256 * sent[7] as int == c
            && (forall i :: 0 <= i < |sent| && i !in {6, 7} ==> sent[i] == packet[i])
            && ReceivedTotal(sent, src, dst, proto) == 65535 * k
  {
    TotalIsReceived(packet, src, dst, proto);
    k := ComplementCompletes(ReceivedTotal(packet, src, dst, proto));
    StampSum(packet, c);
    WordSumIsWeighted(packet);
    WordSumIsWeighted(Stamp(packet, c));
  }

  // Damage to one word of an accepted packet is noticed, unless it turns 0000 into FFFF or back
  lemma WordErrorDetected(packet: seq<Byte>, src: seq<Byte>, dst: seq<Byte>, proto: Byte, at: nat, hi: Byte, lo: Byte)
    requires |packet| < 0x1_0000 && |src| == |dst| == 16 && at % 2 == 0 && at + 1 < |packet|
    requires Accepts(packet, src, dst, proto)
    ensures var was, now := Word(packet[at], packet[at + 1]), Word(hi, lo);
            Accepts(packet[at := hi][at + 1 := lo], src, dst, proto)
            ==> was == now || {was, now} == {0, ONES}
  {
    var after := packet[at := hi][at + 1 := lo];
    var was, now := Word(packet[at], packet[at + 1]), Word(hi, lo);
    WordReplaced(packet, at, hi, lo);
    CoveredSum(packet, src, dst, proto);
    CoveredSum(after, src, dst, proto);
    OnesSumFull(Covered(packet, src, dst, proto));
    OnesSumFull(Covered(after, src, dst, proto));
    if Accepts(after, src, dst, proto) {
      var k :| PositiveMultiple(WordSum(Covered(packet, src, dst, proto)), k);
      var l :| PositiveMultiple(WordSum(Covered(after, src, dst, proto)), l);
      CloseMultiples(was, now, l - k);
    }
  }

  lemma CloseMultiples(was: int, now: int, d: int)
    requires 0 <= was <= ONES && 0 <= now <= ONES && now - was == ONES * d
    ensures was == now || {was, now} == {0, ONES}
  {
    assert -1 <= d <= 1;
  }

  // ---------- round-trip time ----------

  // The stamps are the low 32 bits of microsecond clocks; differences survive the wrap-around
  function Rtt(recvTs: int, sentTime: int, targetRcvd: int, targetResp: int): int {
    (recvTs - sentTime - (targetResp - targetRcvd) % WRAP32) % WRAP32
  }

  lemma RttSurvivesWrap(recv: int, sent: int, targetRcvd: int, targetResp: int)
    requires 0 <= (recv - sent) - (targetResp - targetRcvd) < WRAP32
    ensures Rtt(recv % WRAP32, sent % WRAP32, targetRcvd % WRAP32, targetResp % WRAP32)
            == (recv - sent) - (targetResp - targetRcvd)
  {
    var rtt, held := (recv - sent) - (targetResp - targetRcvd), targetResp % WRAP32 - targetRcvd % WRAP32;
    var q := recv / WRAP32 - sent / WRAP32 - (targetResp / WRAP32 - targetRcvd / WRAP32) - held / WRAP32;
    var x := recv % WRAP32 - sent % WRAP32 - held % WRAP32;
    assert rtt == WRAP32 * q + x;
    SameRemainder(rtt, x, q);
  }

  lemma SameRemainder(r: int, x: int, q: int)
    requires 0 <= r < WRAP32 && r == WRAP32 * q + x
    ensures x % WRAP32 == r
  {
    var d := x / WRAP32 + q;
    assert r == WRAP32 * d + x % WRAP32;
    assert d == 0;
  }
}
