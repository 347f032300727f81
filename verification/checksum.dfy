/** The Internet checksum of IP headers and TCP segments (RFC 1071, section 2). */
module Checksum {
  import opened Bits
  import opened Common

  // ----- 16-bit words

  function BEWord(b: seq<Byte>, i: nat): (w: nat)
    requires 2 * i + 1 < |b|
    ensures w <= 0xffff
  {
    var hi: nat, lo: nat := b[2 * i], b[2 * i + 1];
    0x100 * hi + lo
  }

  function LEWord(b: seq<Byte>, i: nat): (w: nat)
    requires 2 * i + 1 < |b|
    ensures w <= 0xffff
  {
    var lo: nat, hi: nat := b[2 * i], b[2 * i + 1];
    0x100 * hi + lo
  }

  /** to_be_16 */
  function Swap(w: nat): (r: nat)
    requires w <= 0xffff
    ensures r <= 0xffff
  {
    w % 0x100 * 0x100 + w / 0x100
  }

  lemma SwapsOrder(b: seq<Byte>, i: nat)
    requires 2 * i + 1 < |b|
    ensures Swap(LEWord(b, i)) == BEWord(b, i) && Swap(BEWord(b, i)) == LEWord(b, i)
  {
  }

  lemma SwapTwice(w: nat)
    requires w <= 0xffff
    ensures Swap(Swap(w)) == w
  {
    var hi, lo := w / 0x100, w % 0x100;
    ModUnique(Swap(w), lo, 0x100, hi);
  }

  /** The sums of the first n words. */
  function SumBE(b: seq<Byte>, n: nat): (s: nat)
    requires 2 * n <= |b|
    ensures s <= 0xffff * n
  {
    if n == 0 then 0 else SumBE(b, n - 1) + BEWord(b, n - 1)
  }

  function SumLE(b: seq<Byte>, n: nat): (s: nat)
    requires 2 * n <= |b|
    ensures s <= 0xffff * n
  {
    if n == 0 then 0 else SumLE(b, n - 1) + LEWord(b, n - 1)
  }

  /** The sum of the big-endian words, an odd last byte padded with zero. */
  function Sum16(b: seq<Byte>): nat {
    SumBE(b, |b| / 2) + if |b| % 2 == 1 then LastByte(b) * 0x100 else 0
  }

  function LastByte(b: seq<Byte>): nat
    requires |b| > 0
  {
    b[|b| - 1]
  }

  // ----- folding

  /** Adding the carries back in. */
  function Fold(sum: nat): (r: nat)
    ensures r <= 0xffff
  {
    if sum <= 0xffff then sum else Fold(sum % 0x1_0000 + sum / 0x1_0000)
  }

  /** Folding keeps the sum modulo 65535, and only a sum of zero folds to zero. */
  lemma {:induction false} FoldKeeps(sum: nat)
    ensures Fold(sum) % 0xffff == sum % 0xffff
    ensures Fold(sum) == 0 <==> sum == 0
  {
    if sum > 0xffff {
      var q, r := sum / 0x1_0000, sum % 0x1_0000;
      assert sum == (r + q) + q * 0xffff;
      SameRemainder(r + q, q);
      FoldKeeps(r + q);
    }
  }

  lemma {:induction false} SameRemainder(x: nat, q: nat)
    ensures (x + q * 0xffff) % 0xffff == x % 0xffff
  {
    if q > 0 { SameRemainder(x, q - 1); }
  }

  /** A sum folds to 0xFFFF exactly if it is a positive multiple of 65535. */
  lemma FoldsToOnes(sum: nat)
    ensures Fold(sum) == 0xffff <==> sum > 0 && sum % 0xffff == 0
  {
    FoldKeeps(sum);
  }

  /** ~sum, cut to 16 bits. */
  function Complement(sum: nat): nat
    requires sum <= 0xffff
  {
    0xffff - sum
  }

  /** With the complement of its folded sum added, anything folds to 0xFFFF. */
  lemma ComplementCompletes(sum: nat)
    ensures Fold(sum + Complement(Fold(sum))) == 0xffff
  {
    hide Fold;
    FoldKeeps(sum);
    FoldsToOnes(sum + Complement(Fold(sum)));
    var q, r := sum / 0xffff, sum % 0xffff;
    assert sum == r + q * 0xffff;
    if r == 0 && sum > 0 {
      SameRemainder(0, q);
    } else {
      SameRemainder(0, q + 1);
    }
  }

  /** Reading the words in the other byte order multiplies the sum by 256, modulo 65535. */
  lemma {:induction false} OrderDoesNotMatter(b: seq<Byte>, n: nat)
    requires 2 * n <= |b|
    ensures SumBE(b, n) % 0xffff == (0x100 * SumLE(b, n)) % 0xffff
    ensures SumBE(b, n) == 0 <==> SumLE(b, n) == 0
  {
    if n > 0 {
      OrderDoesNotMatter(b, n - 1);
      var hi: nat, lo: nat := b[2 * n - 2], b[2 * n - 1];
      assert 0x100 * LEWord(b, n - 1) == BEWord(b, n - 1) + lo * 0xffff;
      AddRemainders(SumBE(b, n - 1), 0x100 * SumLE(b, n - 1), BEWord(b, n - 1), lo);
    }
  }

  lemma AddRemainders(x: nat, y: nat, w: nat, q: nat)
    requires x % 0xffff == y % 0xffff
    ensures (x + w) % 0xffff == (y + (w + q * 0xffff)) % 0xffff
  {
    SameRemainder(y + w, q);
  }

  lemma OnesInBothOrders(b: seq<Byte>, n: nat)
    requires 2 * n <= |b|
    ensures Fold(SumLE(b, n)) == 0xffff <==> Fold(SumBE(b, n)) == 0xffff
  {
    FoldsToOnes(SumLE(b, n));
    FoldsToOnes(SumBE(b, n));
    OrderDoesNotMatter(b, n);
    var s := SumLE(b, n);
    // 256 and 65535 have no common factor: 256 * 256 is one more than 65535
    if (0x100 * s) % 0xffff == 0 {
      var k := 0x100 * s / 0xffff;
      assert s == (0x100 * k - s) * 0xffff;
      assert 0x100 * k >= s;
      SameRemainder(0, 0x100 * k - s);
    }
    if s % 0xffff == 0 {
      var k := s / 0xffff;
      assert 0x100 * s == (0x100 * k) * 0xffff;
      SameRemainder(0, 0x100 * k);
    }
  }

  // ----- what changing a word does to the sums

  /** b' is b but for word k. */
  ghost predicate OneWord(b: seq<Byte>, b': seq<Byte>, k: nat) {
    && |b'| == |b| && 2 * k + 1 < |b|
    && forall i :: 0 <= i < |b| && i != 2 * k && i != 2 * k + 1 ==> b'[i] == b[i]
  }

  lemma {:induction false} OneWordSums(b: seq<Byte>, b': seq<Byte>, k: nat, n: nat)
    requires OneWord(b, b', k) && 2 * n <= |b|
    ensures k >= n ==> SumBE(b', n) == SumBE(b, n) && SumLE(b', n) == SumLE(b, n)
    ensures k < n ==> SumBE(b', n) + BEWord(b, k) == SumBE(b, n) + BEWord(b', k)
    ensures k < n ==> SumLE(b', n) + LEWord(b, k) == SumLE(b, n) + LEWord(b', k)
  {
    hide BEWord, LEWord;
    if n > 0 {
      OneWordSums(b, b', k, n - 1);
      if n - 1 != k { SameWord(b, b', k, n - 1); }
    }
  }

  lemma SameWord(b: seq<Byte>, b': seq<Byte>, k: nat, i: nat)
    requires OneWord(b, b', k) && 2 * i + 1 < |b| && i != k
    ensures BEWord(b', i) == BEWord(b, i) && LEWord(b', i) == LEWord(b, i)
  {
  }

  // ----- the headers

  const IP_HEADER := 20
  const TCP_HEADER := 20
  const IP_LEN := 2
  const IP_PROTO := 9
  const IP_CHKSUM := 10
  const TCP_CHKSUM := 16
  const PROTO_TCP := 6

  function Header(p: seq<Byte>, ip: nat): seq<Byte>
    requires ip + IP_HEADER <= |p|
  {
    p[ip..ip + IP_HEADER]
  }

  /** The checksum of the IP header holds, in either byte order. */
  ghost predicate HeaderOk(p: seq<Byte>, ip: nat)
    requires ip + IP_HEADER <= |p|
  {
    Fold(SumLE(Header(p, ip), 10)) == 0xffff && Fold(SumBE(Header(p, ip), 10)) == 0xffff
  }

  /** The four address words, the protocol and the length of the segment. */
  function PseudoSum(p: seq<Byte>, ip: nat, length: nat): nat
    requires ip + IP_HEADER <= |p|
  {
    BEWord(Header(p, ip), 6) + BEWord(Header(p, ip), 7) + BEWord(Header(p, ip), 8) + BEWord(Header(p, ip), 9)
    + PROTO_TCP + length
  }

  function Segment(p: seq<Byte>, ip: nat, payload: nat): seq<Byte>
    requires ip + IP_HEADER + TCP_HEADER + payload <= |p|
  {
    p[ip + IP_HEADER..ip + IP_HEADER + TCP_HEADER + payload]
  }

  /** The checksum of the TCP segment holds (RFC 793, section 3.1). */
  ghost predicate SegmentOk(p: seq<Byte>, ip: nat, payload: nat)
    requires ip + IP_HEADER + TCP_HEADER + payload <= |p|
  {
    Fold(PseudoSum(p, ip, TCP_HEADER + payload) + Sum16(Segment(p, ip, payload))) == 0xffff
  }

  // ----- the checksum as the RFCs have it

  /** The sum of the 16-bit numbers that the bytes make up, high byte first, with a zero byte behind
      them if one is missing. */
  function InternetSum(b: seq<Byte>): (s: nat)
    decreases |b|
  {
    if |b| == 0 then 0
    else if |b| == 1 then var hi: nat := b[0]; 256 * hi
    else var hi: nat, lo: nat := b[0], b[1]; 256 * hi + lo + InternetSum(b[2..])
  }

  lemma {:induction false} SumFromFront(b: seq<Byte>, n: nat)
    requires 2 <= 2 * n <= |b|
    ensures SumBE(b, n) == BEWord(b, 0) + SumBE(b[2..], n - 1)
  {
    if n > 1 {
      SumFromFront(b, n - 1);
      assert BEWord(b, n - 1) == BEWord(b[2..], n - 2);
    }
  }

  lemma {:induction false} SumIsInternetSum(b: seq<Byte>)
    ensures Sum16(b) == InternetSum(b)
    decreases |b|
  {
    if |b| >= 2 {
      SumFromFront(b, |b| / 2);
      SumIsInternetSum(b[2..]);
    }
  }

  /** Behind an even number of bytes the others are summed up as they are; a missing last byte is as
      good as a zero. */
  lemma {:induction false} InternetSumParts(a: seq<Byte>, b: seq<Byte>)
    requires |a| % 2 == 0
    ensures InternetSum(a + b) == InternetSum(a) + InternetSum(b)
    ensures |b| % 2 == 1 ==> InternetSum(b + [0]) == InternetSum(b)
    decreases |a| + |b|
  {
    if a == [] {
      assert a + b == b;
      if |b| >= 2 {
        InternetSumParts([], b[2..]);
        assert (b + [0])[2..] == b[2..] + [0];
      }
    } else {
      assert (a + b)[2..] == a[2..] + b;
      InternetSumParts(a[2..], b);
    }
  }

  /** The twelve bytes in front of a segment: both addresses, zero, the number of TCP, the length. */
  function PseudoHeader(p: seq<Byte>, ip: nat, length: nat): (b: seq<Byte>)
    requires ip + 20 <= |p| && length < 65536
    ensures |b| == 12
  {
    p[ip + 12..ip + 20] + [0, 6, length / 256, length % 256]
  }

  lemma PseudoIsInternetSum(p: seq<Byte>, ip: nat, length: nat)
    requires ip + 20 <= |p| && length < 65536
    ensures PseudoSum(p, ip, length) == InternetSum(PseudoHeader(p, ip, length))
  {
    var b := PseudoHeader(p, ip, length);
    SumIsInternetSum(b);
    var h := Header(p, ip);
    assert BEWord(b, 0) == BEWord(h, 6) && BEWord(b, 1) == BEWord(h, 7);
    assert BEWord(b, 2) == BEWord(h, 8) && BEWord(b, 3) == BEWord(h, 9);
    assert BEWord(b, 4) == 6 && BEWord(b, 5) == length;
    assert SumBE(b, 2) == BEWord(b, 0) + BEWord(b, 1);
    assert SumBE(b, 4) == BEWord(b, 0) + BEWord(b, 1) + BEWord(b, 2) + BEWord(b, 3);
    assert SumBE(b, 6) == SumBE(b, 4) + BEWord(b, 4) + BEWord(b, 5);
  }

  /** A packet whose checksums hold is one that the RFCs accept: the twenty bytes of the IP header sum
      up to ones (RFC 1071, section 1), and so do pseudo-header and segment (RFC 793, section 3.1). */
  lemma ChecksumsHold(p: seq<Byte>, ip: nat, payload: nat)
    requires ip + 40 + payload <= |p| && 20 + payload < 65536
    ensures HeaderOk(p, ip) <==> Fold(InternetSum(p[ip..ip + 20])) == 0xffff
    ensures SegmentOk(p, ip, payload) <==>
            Fold(InternetSum(PseudoHeader(p, ip, 20 + payload) + p[ip + 20..ip + 40 + payload])) == 0xffff
  {
    hide Fold, InternetSum, PseudoSum, SumBE, SumLE, PseudoHeader;
    SumIsInternetSum(p[ip..ip + 20]);
    OnesInBothOrders(Header(p, ip), 10);
    PseudoIsInternetSum(p, ip, 20 + payload);
    SumIsInternetSum(Segment(p, ip, payload));
    InternetSumParts(PseudoHeader(p, ip, 20 + payload), Segment(p, ip, payload));
  }

  method FoldLoop(sum0: nat) returns (sum: nat)
    ensures sum == Fold(sum0)
  {
    sum := sum0;
    while sum > 0xffff
      invariant Fold(sum) == Fold(sum0)
      decreases sum
    {
      var val := sum / 0x1_0000;
      sum := sum % 0x1_0000;
      sum := sum + val;
    }
  }

  /** Storing a word with its low byte first. */
  method StoreLE(buf: array<Byte>, at: nat, w: nat)
    requires at + 1 < buf.Length && w <= 0xffff
    modifies buf
    ensures buf[at] as int + 0x100 * buf[at + 1] as int == w
    ensures forall i :: 0 <= i < buf.Length && i != at && i != at + 1 ==> buf[i] == old(buf[i])
  {
    buf[at] := w % 0x100;
    buf[at + 1] := w / 0x100;
  }

  /** ip_calculate_checksum */
  method IpCalculateChecksum(buf: array<Byte>, ip: nat) returns (c: nat)
    requires ip + IP_HEADER <= buf.Length
    ensures c == Complement(Fold(SumLE(Header(buf[..], ip), 10)))
  {
    ghost var h := Header(buf[..], ip);
    var sum := 0;
    var i := 0;
    while i < 20 / 2
      invariant i <= 10 && sum == SumLE(h, i)
    {
      assert h[2 * i] == buf[ip + 2 * i] && h[2 * i + 1] == buf[ip + 2 * i + 1];
      sum := sum + (buf[ip + 2 * i] as int + 0x100 * buf[ip + 2 * i + 1] as int);
      i := i + 1;
    }
    sum := FoldLoop(sum);
    c := 0xffff - sum;
  }

  /** Clearing the checksum field and storing the checksum of the header in it. */
  method IpFixChecksum(buf: array<Byte>, ip: nat)
    requires ip + IP_HEADER <= buf.Length
    modifies buf
    ensures HeaderOk(buf[..], ip)
    ensures forall i :: 0 <= i < buf.Length && i != ip + IP_CHKSUM && i != ip + IP_CHKSUM + 1 ==> buf[i] == old(buf[i])
  {
    StoreLE(buf, ip + IP_CHKSUM, 0);
    ghost var h := Header(buf[..], ip);
    assert LEWord(h, 5) == 0;
    var c := IpCalculateChecksum(buf, ip);
    StoreLE(buf, ip + IP_CHKSUM, c);
    ghost var h' := Header(buf[..], ip);
    assert LEWord(h', 5) == c;
    OneWordSums(h, h', 5, 10);
    ComplementCompletes(SumLE(h, 10));
    OnesInBothOrders(h', 10);
  }

  /** ip_update_length: the length field is the header and len, cut to 16 bits. */
  method IpUpdateLength(buf: array<Byte>, ip: nat, len: nat)
    requires ip + IP_HEADER <= buf.Length
    modifies buf
    ensures HeaderOk(buf[..], ip) && BEWord(Header(buf[..], ip), 1) == (20 + len) % 0x1_0000
    ensures forall i :: 0 <= i < buf.Length && i !in {ip + 2, ip + 3, ip + 10, ip + 11} ==> buf[i] == old(buf[i])
  {
    hide Fold, SumBE, SumLE, Swap;
    var w := Swap((20 + len) % 0x1_0000);
    StoreLE(buf, ip + IP_LEN, w);
    assert LEWord(Header(buf[..], ip), 1) == w;
    SwapsOrder(Header(buf[..], ip), 1);
    SwapTwice((20 + len) % 0x1_0000);
    IpFixChecksum(buf, ip);
  }

  /** ip_set_proto: the field is one byte wide. */
  method IpSetProto(buf: array<Byte>, ip: nat, proto: nat)
    requires ip + IP_HEADER <= buf.Length
    modifies buf
    ensures HeaderOk(buf[..], ip) && buf[ip + IP_PROTO] == proto % 0x100
    ensures forall i :: 0 <= i < buf.Length && i !in {ip + 9, ip + 10, ip + 11} ==> buf[i] == old(buf[i])
  {
    buf[ip + IP_PROTO] := proto % 0x100;
    IpFixChecksum(buf, ip);
  }

  /** tcp_calculate_checksum, for segments short enough for an IP packet: the 32-bit sum does
      not overflow. */
  method TcpCalculateChecksum(buf: array<Byte>, ip: nat, payload: nat) returns (c: nat)
    requires ip + IP_HEADER + TCP_HEADER + payload <= buf.Length && TCP_HEADER + payload <= 0xffff
    ensures var sum := PseudoSum(buf[..], ip, TCP_HEADER + payload) + Sum16(Segment(buf[..], ip, payload));
            c == Swap(Complement(Fold(sum)))
  {
    hide Fold, SumBE, SumLE, Swap;
    var sum := SumSegment(buf, ip, payload);
    sum := SumAddresses(buf, ip, sum);
    sum := sum + 6;
    sum := sum + (20 + payload);
    SumsFit(Segment(buf[..], ip, payload));
    assert sum < 0x1_0000_0000;
    sum := FoldLoop(sum);
    c := Swap(0xffff - sum);
  }

  lemma SumsFit(b: seq<Byte>)
    ensures Sum16(b) <= 0xffff * (|b| / 2 + 1)
  {
  }

  /** The part of tcp_calculate_checksum that adds up the segment. */
  method SumSegment(buf: array<Byte>, ip: nat, payload: nat) returns (sum: nat)
    requires ip + IP_HEADER + TCP_HEADER + payload <= buf.Length
    ensures sum == Sum16(Segment(buf[..], ip, payload))
  {
    ghost var seg := Segment(buf[..], ip, payload);
    var tcp := ip + IP_HEADER;
    sum := 0;
    var i := 0;
    while i < (payload + 20) / 2
      invariant i <= (payload + 20) / 2 && sum == SumBE(seg, i)
    {
      sum := sum + SwappedAt(buf, tcp + 2 * i, seg, i);
      i := i + 1;
    }
    if (payload + 20) % 2 == 1 {
      var loc := 20 + payload - 1;
      assert seg[loc] == buf[tcp + loc];
      sum := sum + buf[tcp + loc] as int * 0x100;
    }
  }

  /** to_be_16 of the word at a place in the buffer, which is word i of b. */
  function SwappedAt(buf: array<Byte>, at: nat, ghost b: seq<Byte>, ghost i: nat): (w: nat)
    requires at + 1 < buf.Length && 2 * i + 1 < |b| && b[2 * i] == buf[at] && b[2 * i + 1] == buf[at + 1]
    reads buf
    ensures w == BEWord(b, i)
  {
    SwapsOrder(b, i);
    Swap(buf[at] as int + 0x100 * buf[at + 1] as int)
  }

  /** The part that adds the four address words. */
  method SumAddresses(buf: array<Byte>, ip: nat, sum0: nat) returns (sum: nat)
    requires ip + IP_HEADER <= buf.Length
    ensures var h := Header(buf[..], ip); sum == sum0 + BEWord(h, 6) + BEWord(h, 7) + BEWord(h, 8) + BEWord(h, 9)
  {
    ghost var h := Header(buf[..], ip);
    sum := sum0 + SwappedAt(buf, ip + 12, h, 6);
    sum := sum + SwappedAt(buf, ip + 14, h, 7);
    sum := sum + SwappedAt(buf, ip + 16, h, 8);
    sum := sum + SwappedAt(buf, ip + 18, h, 9);
  }

  /** tcp_finalize_packet: the segment and the header in front of it get checksums that hold. */
  method TcpFinalizePacket(buf: array<Byte>, ip: nat, payload: nat)
    requires ip + IP_HEADER + TCP_HEADER + payload <= buf.Length && TCP_HEADER + payload <= 0xffff
    modifies buf
    ensures SegmentOk(buf[..], ip, payload) && HeaderOk(buf[..], ip)
    ensures Fold(InternetSum(buf[ip..ip + 20])) == 0xffff
    ensures Fold(InternetSum(PseudoHeader(buf[..], ip, 20 + payload) + buf[ip + 20..ip + 40 + payload])) == 0xffff
    ensures BEWord(Header(buf[..], ip), 1) == (40 + payload) % 0x1_0000
    ensures forall i :: 0 <= i < buf.Length && i !in {ip + 2, ip + 3, ip + 10, ip + 11, ip + 36, ip + 37} ==>
              buf[i] == old(buf[i])
  {
    hide Fold, SumBE, SumLE, InternetSum, PseudoHeader;
    var tcp := ip + IP_HEADER;
    StoreLE(buf, tcp + TCP_CHKSUM, 0);
    ghost var p := buf[..];
    var c := TcpCalculateChecksum(buf, ip, payload);
    StoreLE(buf, tcp + TCP_CHKSUM, c);
    ghost var p1 := buf[..];
    SegmentCompleted(p, p1, ip, payload, c);
    IpUpdateLength(buf, ip, 20 + payload);
    SameSegment(p1, buf[..], ip, payload);
    ChecksumsHold(buf[..], ip, payload);
    assert buf[..][ip..ip + 20] == buf[ip..ip + 20];
    assert buf[..][ip + 20..ip + 40 + payload] == buf[ip + 20..ip + 40 + payload];
  }

  lemma SegmentCompleted(p: seq<Byte>, p': seq<Byte>, ip: nat, payload: nat, c: nat)
    requires |p'| == |p| && ip + IP_HEADER + TCP_HEADER + payload <= |p|
    requires forall i :: 0 <= i < |p| && i != ip + 36 && i != ip + 37 ==> p'[i] == p[i]
    requires p[ip + 36] == 0 && p[ip + 37] == 0
    requires c == Swap(Complement(Fold(PseudoSum(p, ip, TCP_HEADER + payload) + Sum16(Segment(p, ip, payload)))))
    requires p'[ip + 36] as int + 0x100 * p'[ip + 37] as int == c
    ensures SegmentOk(p', ip, payload)
  {
    hide Fold, SumBE, SumLE, Swap, PseudoSum, OneWord;
    var s, s' := Segment(p, ip, payload), Segment(p', ip, payload);
    assert Header(p', ip) == Header(p, ip);
    SamePseudo(p, p', ip, TCP_HEADER + payload);
    assert BEWord(s, 8) == 0 && LEWord(s', 8) == c;
    SwapsOrder(s', 8);
    SegmentWord(p, p', ip, payload);
    OneWordSums(s, s', 8, |s| / 2);
    var sum := PseudoSum(p, ip, TCP_HEADER + payload) + Sum16(s);
    SwapTwice(Complement(Fold(sum)));
    ComplementCompletes(sum);
  }

  lemma SamePseudo(p: seq<Byte>, p': seq<Byte>, ip: nat, length: nat)
    requires ip + IP_HEADER <= |p| && |p'| == |p| && Header(p', ip) == Header(p, ip)
    ensures PseudoSum(p', ip, length) == PseudoSum(p, ip, length)
  {
  }

  lemma SegmentWord(p: seq<Byte>, p': seq<Byte>, ip: nat, payload: nat)
    requires |p'| == |p| && ip + IP_HEADER + TCP_HEADER + payload <= |p|
    requires forall i :: 0 <= i < |p| && i != ip + 36 && i != ip + 37 ==> p'[i] == p[i]
    ensures OneWord(Segment(p, ip, payload), Segment(p', ip, payload), 8)
  {
  }

  lemma SameSegment(p: seq<Byte>, p': seq<Byte>, ip: nat, payload: nat)
    requires |p'| == |p| && ip + IP_HEADER + TCP_HEADER + payload <= |p|
    requires forall i :: 0 <= i < |p| && i !in {ip + 2, ip + 3, ip + 10, ip + 11} ==> p'[i] == p[i]
    requires SegmentOk(p, ip, payload)
    ensures SegmentOk(p', ip, payload)
  {
    hide Fold, SumBE, SumLE;
    assert Segment(p', ip, payload) == Segment(p, ip, payload);
    assert forall i :: 12 <= i < 20 ==> Header(p', ip)[i] == Header(p, ip)[i];
  }
}
