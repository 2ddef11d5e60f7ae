/** IP headers: how ip_build_header fills them and what ip_rx checks (kernel/net/tcpip.c). */
module IpHeader {
  import opened Prelude
  import opened InternetChecksum

  // ----- Storing the checksum -----

  lemma {:induction false} WordCount(data: seq<Byte>)
    requires |data| % 2 == 0
    ensures |Words(data)| == |data| / 2
    decreases |data|
  {
    if data != [] {
      WordCount(data[2..]);
    }
  }

  lemma {:induction false} WordAt(data: seq<Byte>, i: nat)
    requires |data| % 2 == 0 && 2 * i < |data|
    ensures |Words(data)| == |data| / 2 && Words(data)[i] == Load(data[2 * i], data[2 * i + 1])
    decreases |data|
  {
    hide Load;
    WordCount(data);
    var rest := data[2..];
    if i > 0 {
      WordAt(rest, i - 1);
      assert rest[2 * (i - 1)] == data[2 * i] && rest[2 * (i - 1) + 1] == data[2 * i + 1];
      assert Words(data) == [Load(data[0], data[1])] + Words(rest);
    }
  }

  /** A 16-bit store at word `i`. */
  function Store(data: seq<Byte>, i: nat, w: Word): seq<Byte>
    requires 2 * i + 1 < |data|
  {
    data[2 * i := w % 256][2 * i + 1 := w / 256]
  }

  lemma StoreChangesOneWord(data: seq<Byte>, i: nat, w: Word)
    requires |data| % 2 == 0 && 2 * i + 1 < |data|
    ensures i < |Words(data)| && Words(Store(data, i, w)) == Words(data)[i := w]
  {
    var d := Store(data, i, w);
    WordAt(data, i);
    WordAt(d, i);
    hide Words;
    forall j | 0 <= j < |Words(data)| ensures Words(d)[j] == Words(data)[i := w][j] {
      WordAt(data, j);
      WordAt(d, j);
    }
  }

  lemma {:induction false} SumBound(data: seq<Byte>)
    ensures 2 * Sum(Words(data)) <= 65535 * (|data| + 1)
    decreases |data|
  {
    if |data| >= 2 {
      SumBound(data[2..]);
      assert Words(data)[1..] == Words(data[2..]);
    } else if |data| == 1 {
      assert Words(data)[1..] == [];
    }
  }

  /** A buffer with a zero word verifies once its checksum is stored there. */
  lemma StoredChecksumVerifies(data: seq<Byte>, i: nat)
    requires |data| % 2 == 0 && 2 * i + 1 < |data| <= 131072 && data[2 * i] == 0 && data[2 * i + 1] == 0
    ensures Checksum(Store(data, i, Checksum(data))) == 0
  {
    var c := Checksum(data);
    var d := Store(data, i, c);
    StoreChangesOneWord(data, i, c);
    WordAt(data, i);
    SumUpdate(Words(data), i, c);
    SumBound(data);
    SumBound(d);
    ChecksumPlain(data);
    VerifiesIff(d);
    Complement(Sum(Words(data)));
    hide Checksum, Words, Sum, Store, Fold;
  }

  lemma Complement(s: nat)
    ensures (s + 65535 - Fold(s)) % 65535 == 0 && s + 65535 - Fold(s) > 0
  {
    FoldIsUnique(s, 0);
    if s > 0 {
      assert s - Fold(s) == (s - 1) / 65535 * 65535;
    }
  }

  // ----- ip_build_header and ip_rx -----

  const HEADER_SIZE: nat := 20

  /** The header with a zero checksum field. */
  function Unsummed(src: seq<Byte>, dest: seq<Byte>, proto: Byte, payloadLen: Word): (h: seq<Byte>)
    requires |src| == 4 && |dest| == 4
    ensures |h| == HEADER_SIZE
  {
    var total: nat := (HEADER_SIZE + payloadLen) % 0x1_0000;
    [0x45, 0, total / 256, total % 256, 0, 0, 0x40, 0, 64, proto, 0, 0] + src + dest
  }

  function Header(src: seq<Byte>, dest: seq<Byte>, proto: Byte, payloadLen: Word): seq<Byte>
    requires |src| == 4 && |dest| == 4
  {
    var h := Unsummed(src, dest, proto, payloadLen);
    Store(h, 5, Checksum(h))
  }

  /** ip_htons */
  function Htons(w: Word): Word {
    w % 256 * 256 + w / 256
  }

  /** A 16-bit store to a field of the header, in place. */
  method StoreField(hdr: array<Byte>, i: nat, w: Word)
    requires 2 * i + 1 < hdr.Length
    modifies hdr
    ensures hdr[..] == Store(old(hdr[..]), i, w)
    ensures hdr[2 * i] == w % 256 && hdr[2 * i + 1] == w / 256
    ensures forall k :: 0 <= k < hdr.Length && k != 2 * i && k != 2 * i + 1 ==> hdr[k] == old(hdr[k])
  {
    hdr[2 * i] := w % 256;
    hdr[2 * i + 1] := w / 256;
  }

  method StoreAddress(hdr: array<Byte>, at: nat, addr: seq<Byte>)
    requires |addr| == 4 && at + 4 <= hdr.Length
    modifies hdr
    ensures hdr[..] == old(hdr[..])[..at] + addr + old(hdr[..])[at + 4..]
  {
    hdr[at], hdr[at + 1], hdr[at + 2], hdr[at + 3] := addr[0], addr[1], addr[2], addr[3];
  }

  lemma HtonsBytes(w: Word)
    ensures Htons(w) % 256 == w / 256 && Htons(w) / 256 == w % 256
  {
  }

  /** The fields before the addresses. */
  method FillFields(hdr: array<Byte>, proto: Byte, total: Word)
    requires hdr.Length == HEADER_SIZE && forall i :: 0 <= i < HEADER_SIZE ==> hdr[i] == 0
    modifies hdr
    ensures hdr[..12] == [0x45, 0, total / 256, total % 256, 0, 0, 0x40, 0, 64, proto, 0, 0]
  {
    HtonsBytes(total);
    HtonsBytes(0x4000);
    hdr[0] := 4 * 16 + HEADER_SIZE / 4;
    StoreField(hdr, 1, Htons(total));
    StoreField(hdr, 2, Htons(0));
    StoreField(hdr, 3, Htons(0x4000));
    hide Htons;
    hdr[8] := 64;
    hdr[9] := proto;
    StoreField(hdr, 5, 0);
  }

  /** ip_build_header */
  method BuildHeader(src: seq<Byte>, dest: seq<Byte>, proto: Byte, payloadLen: Word) returns (hdr: array<Byte>)
    requires |src| == 4 && |dest| == 4
    ensures fresh(hdr) && hdr.Length == 20 && hdr[..] == Header(src, dest, proto, payloadLen)
    ensures hdr[0] == 0x45 && hdr[1] == 0 && hdr[2] as nat * 256 + hdr[3] as nat == (20 + payloadLen) % 0x1_0000
    ensures hdr[4] == hdr[5] == 0 && hdr[6] as nat * 256 + hdr[7] as nat == 0x4000 && hdr[8] == 64 && hdr[9] == proto
    ensures hdr[12..16] == src && hdr[16..20] == dest
    ensures Checksum(hdr[..]) == 0
  {
    hide Checksum;
    hdr := new Byte[HEADER_SIZE](_ => 0);
    FillFields(hdr, proto, (HEADER_SIZE + payloadLen) % 0x1_0000);
    ghost var fields := hdr[..12];
    StoreAddress(hdr, 12, src);
    StoreAddress(hdr, 16, dest);
    assert hdr[..] == fields + src + dest;
    StoredChecksumVerifies(hdr[..], 5);
    var sum := IpChecksum(hdr[..]);
    StoreField(hdr, 5, sum);
  }

  /** The checks of ip_rx that decide whether a packet is passed on. */
  predicate Accepted(packet: seq<Byte>) {
    && |packet| >= HEADER_SIZE && packet[0] / 16 == 4
    && |packet| >= packet[0] % 16 * 4
    && Checksum(packet[..packet[0] % 16 * 4]) == 0
  }

  /** Which packets pass, in numbers: version 4, a header of 1 to 15 words that is all there, and its checksum. */
  lemma AcceptedIff(packet: seq<Byte>)
    ensures Accepted(packet) <==>
            && |packet| >= 20 && 0x41 <= packet[0] <= 0x4F
            && |packet| >= 4 * (packet[0] - 0x40) && Checksum(packet[..4 * (packet[0] - 0x40)]) == 0
  {
    if |packet| >= 20 && packet[0] == 0x40 {
      EmptyHeaderIsRejected(packet);
    }
    hide Checksum;
  }

  /** No packet whose header length field is zero passes: the empty sum does not verify. */
  lemma EmptyHeaderIsRejected(packet: seq<Byte>)
    requires |packet| >= HEADER_SIZE && packet[0] % 16 == 0
    ensures !Accepted(packet)
  {
    assert packet[..0] == [];
    var none: seq<Byte> := [];
    assert Words(none) == [] && Sum(Words(none)) == 0;
  }

  /** ip_rx up to the dispatch: what it passes on is the packet without its header. */
  method Receive(packet: seq<Byte>) returns (passed: bool, payload: seq<Byte>)
    ensures passed <==> Accepted(packet)
    ensures passed ==> |packet| >= packet[0] % 16 * 4 && payload == packet[packet[0] % 16 * 4..]
  {
    if |packet| < HEADER_SIZE {
      return false, [];
    }
    var version := packet[0] / 16 % 16;
    if version != 4 {
      return false, [];
    }
    var headerLen: nat := packet[0] % 16 * 4;
    if |packet| < headerLen {
      return false, [];
    }
    var sum := IpChecksum(packet[..headerLen]);
    if sum != 0 {
      return false, [];
    }
    return true, packet[headerLen..];
  }

  /** Every packet with a header from ip_build_header passes the checks of ip_rx, and its payload comes through. */
  lemma BuiltHeadersAreAccepted(src: seq<Byte>, dest: seq<Byte>, proto: Byte, payloadLen: Word, payload: seq<Byte>)
    requires |src| == 4 && |dest| == 4
    ensures var packet := Header(src, dest, proto, payloadLen) + payload;
            && Accepted(packet) && |packet| >= packet[0] % 16 * 4 && packet[packet[0] % 16 * 4..] == payload
  {
    var h := Header(src, dest, proto, payloadLen);
    StoredChecksumVerifies(Unsummed(src, dest, proto, payloadLen), 5);
    hide Checksum;
    assert (h + payload)[..HEADER_SIZE] == h;
  }

  lemma WordChanged(h: seq<Byte>, i: nat, w: Word)
    requires |h| % 2 == 0 && 2 * i + 1 < |h| <= 131072 && Checksum(h) == 0
    requires Store(h, i, w)[0] != 0 && w != Load(h[2 * i], h[2 * i + 1])
    ensures Checksum(Store(h, i, w)) == 0 <==> {Load(h[2 * i], h[2 * i + 1]), w} == {0, 65535}
  {
    var changed := Store(h, i, w);
    WordAt(h, i);
    StoreChangesOneWord(h, i, w);
    SumBound(h);
    SumBound(changed);
    WordAt(changed, 0);
    SumContains(Words(changed), 0);
    hide Store, Checksum, Words, Sum;
    SingleWordDetection(h, changed, i);
  }

  lemma StoreInPrefix(packet: seq<Byte>, n: nat, i: nat, w: Word)
    requires 2 * i + 1 < n <= |packet|
    ensures |Store(packet, i, w)| == |packet| && Store(packet, i, w)[..n] == Store(packet[..n], i, w)
    ensures Store(packet[..n], i, w)[0] == Store(packet, i, w)[0]
    ensures packet[..n][2 * i] == packet[2 * i] && packet[..n][2 * i + 1] == packet[2 * i + 1]
  {
  }

  /**
   * A packet that passes and then has one word of its header changed, not the byte with version and length,
   * is rejected unless the change swaps 0x0000 and 0xFFFF.
   */
  lemma CorruptionIsRejected(packet: seq<Byte>, i: nat, w: Word)
    requires Accepted(packet) && 2 * i + 1 < packet[0] % 16 * 4
    requires Store(packet, i, w)[0] == packet[0] && w != Load(packet[2 * i], packet[2 * i + 1])
    ensures Accepted(Store(packet, i, w)) <==> {Load(packet[2 * i], packet[2 * i + 1]), w} == {0, 65535}
  {
    hide Checksum, Store, Load;
    var n: nat := packet[0] % 16 * 4;
    StoreInPrefix(packet, n, i, w);
    WordChanged(packet[..n], i, w);
  }
}
