/**
 * The captive-portal DNS responder (lib/DNSServer). Every query that reaches
 * it is turned, in place in a 512-byte buffer, into a reply that carries a
 * fixed address record pointing at the portal, whatever name was asked for.
 *
 * The original writes the reply without looking at the packet size, so a
 * packet shorter than the 12-byte header or longer than 255 bytes makes it
 * write outside its buffer (`AsWrittenWrites`, `AsWrittenStaysInBuffer`).
 * `DNSServer.ProcessNextRequest` is the guarded version: it drops such packets
 * and otherwise produces exactly the bytes the original produces.
 */
module DnsServer {
  import opened Arduino

  /** A UDP datagram: its payload and the peer it came from or is sent to. */
  datatype Datagram = Datagram(payload: seq<byte>, peerIP: IPv4, peerPort: nat)

  const BufferSize: nat := 512
  const HeaderSize: nat := 12

  /**
   * The ten bytes written after the copied question: TYPE A (1), CLASS IN (1),
   * TTL 60 seconds and RDLENGTH 4 (sections 3.2.2, 3.2.4 and 4.1.3 of RFC 1035).
   */
  const RecordTail: seq<byte> := [0x00, 0x01, 0x00, 0x01, 0x00, 0x00, 0x00, 0x3C, 0x00, 0x04]

  /** The sizes for which every write of the reply stays inside the buffer. */
  predicate FitsBuffer(packetSize: int)
  {
    HeaderSize <= packetSize && 2 * packetSize + 2 <= BufferSize
  }

  /** Byte `i` of the reply to query `q`. */
  function ReplyByte(q: seq<byte>, ip: IPv4, i: nat): byte
    requires HeaderSize <= |q| && i < 2 * |q| + 2
  {
    var n := |q|;
    if i == 2 || i == 3 then q[i] | 0x80
    else if i == 7 || i == 9 then 1
    else if i < n then q[i]
    else if i < 2 * n - HeaderSize then q[i - n + HeaderSize]
    else Trailer(ip)[i - (2 * n - HeaderSize)]
  }

  /** The fourteen bytes that end every reply: the fixed record fields, then the address. */
  function Trailer(ip: IPv4): (t: seq<byte>)
    ensures |t| == 14
  {
    RecordTail + ip.Octets()
  }

  /**
   * The reply to query `q` when the portal address is `ip`. Header flags and
   * counts follow section 4.1.1 of RFC 1035: byte 2 holds QR, byte 3 holds RA,
   * bytes 6-7 are ANCOUNT and bytes 8-9 NSCOUNT.
   */
  function AnswerFor(q: seq<byte>, ip: IPv4): (r: seq<byte>)
    requires HeaderSize <= |q|
    ensures |r| == 2 * |q| + 2
    // the ID is kept
    ensures r[..2] == q[..2]
    // QR and RA are set; every other flag bit is kept
    ensures r[2] & 0x80 == 0x80 && r[2] & 0x7F == q[2] & 0x7F
    ensures r[3] & 0x80 == 0x80 && r[3] & 0x7F == q[3] & 0x7F
    // only the low bytes at offsets 7 and 9 are forced to 1
    ensures r[4..7] == q[4..7] && r[7] == 1 && r[8] == q[8] && r[9] == 1 && r[10..12] == q[10..12]
    // everything after the header is kept, then copied verbatim once more
    ensures r[HeaderSize..|q|] == q[HeaderSize..]
    ensures r[|q|..2 * |q| - HeaderSize] == q[HeaderSize..]
    // then the fixed record fields and the portal address
    ensures r[2 * |q| - HeaderSize..2 * |q| - 2] == RecordTail
    ensures r[2 * |q| - 2..] == ip.Octets()
  {
    seq(2 * |q| + 2, i requires 0 <= i < 2 * |q| + 2 => ReplyByte(q, ip, i))
  }

  /**
   * The reply depends on the query and the address only: two queries of the
   * same length get the same address bytes in the same place, whatever names
   * they ask for.
   */
  lemma AnswerIgnoresName(q1: seq<byte>, q2: seq<byte>, ip: IPv4)
    requires HeaderSize <= |q1| == |q2|
    ensures AnswerFor(q1, ip)[2 * |q1| - 2..] == AnswerFor(q2, ip)[2 * |q2| - 2..] == ip.Octets()
  {
  }

  /**
   * What a resolver reads from the reply to a query whose question section
   * (QNAME, QTYPE, QCLASS) fills bytes 12 to the end. Because the copy includes
   * QTYPE and QCLASS, the answer record that starts at offset |q| has the
   * query's QTYPE as its TYPE, the bytes 00 01 00 01 as its TTL and 00 00 as
   * its RDLENGTH; the portal address then falls outside that record.
   */
  lemma AnswerRecordAsRead(q: seq<byte>, ip: IPv4)
    requires HeaderSize + 4 <= |q|
    ensures var r, n := AnswerFor(q, ip), |q|;
      && r[2 * n - 16..2 * n - 14] == q[n - 4..n - 2]
      && r[2 * n - 14..2 * n - 12] == q[n - 2..n]
      && r[2 * n - 12..2 * n - 8] == [0x00, 0x01, 0x00, 0x01]
      && r[2 * n - 8..2 * n - 6] == [0x00, 0x00]
  {
    var r, n := AnswerFor(q, ip), |q|;
    assert r[2 * n - 16..2 * n - 14] == r[n..2 * n - HeaderSize][n - 16..n - 14];
    assert r[2 * n - 14..2 * n - 12] == r[n..2 * n - HeaderSize][n - 14..n - 12];
    assert r[2 * n - 12..2 * n - 8] == RecordTail[..4];
    assert r[2 * n - 8..2 * n - 6] == RecordTail[4..6];
  }

  /**
   * Whether the original code writes buffer offset `offset` for a packet of
   * `packetSize` bytes: bytes 2, 3, 7 and 9, the `memcpy` destination (its
   * length `packetSize - 12` taken as the ESP32's 32-bit `size_t`), and the
   * fourteen `idx++` writes after it.
   */
  ghost predicate AsWrittenWrites(packetSize: int, offset: int): (w: bool)
    ensures FitsBuffer(packetSize) ==>
      (w <==> offset in {2, 3, 7, 9} || packetSize <= offset < 2 * packetSize + 2)
  {
    || offset in {2, 3, 7, 9}
    || packetSize <= offset < packetSize + AsUnsigned(packetSize - HeaderSize)
    || 2 * packetSize - HeaderSize <= offset < 2 * packetSize + 2
  }

  /**
   * The original code stays inside its 512-byte buffer exactly for the sizes
   * `FitsBuffer` accepts: a 256-byte query makes it write offset 513, and an
   * 11-byte packet makes its `memcpy` length wrap to 2^32 - 1.
   */
  lemma AsWrittenStaysInBuffer(packetSize: int)
    requires 0 < packetSize < ClockModulus
    ensures (forall w :: AsWrittenWrites(packetSize, w) ==> 0 <= w < BufferSize)
            <==> FitsBuffer(packetSize)
  {
    var n := packetSize;
    if n < HeaderSize {
      var w := n + AsUnsigned(n - HeaderSize) - 1;
      assert AsWrittenWrites(n, w) && w >= BufferSize;
    } else if 2 * n + 2 > BufferSize {
      assert AsWrittenWrites(n, 2 * n + 1);
    } else {
      assert AsUnsigned(n - HeaderSize) == n - HeaderSize;
    }
  }

  class DNSServer {
    var port: nat
    var resolvedIP: IPv4
    var started: bool

    /** A server that has not been started. */
    constructor ()
      ensures !started && port == 0 && resolvedIP == Unspecified
    {
      port, resolvedIP, started := 0, Unspecified, false;
    }

    /**
     * `start(port, domainName, resolvedIP)`: the port and address are stored
     * even when binding fails; `bindOk` is the outcome of binding the UDP port.
     * The domain name is ignored.
     */
    method Start(port': nat, domainName: string, resolvedIP': IPv4, bindOk: bool) returns (ok: bool)
      modifies this
      ensures port == port' && resolvedIP == resolvedIP'
      ensures ok == bindOk
      ensures started == (bindOk || old(started))
    {
      port := port';
      resolvedIP := resolvedIP';
      if !bindOk {
        return false;
      }
      started := true;
      return true;
    }

    method Stop()
      modifies this
      ensures !started && port == old(port) && resolvedIP == old(resolvedIP)
    {
      started := false;
    }

    /**
     * `processNextRequest()`: `incoming` is the datagram the UDP socket holds,
     * if any. A started server answers a query that fits the buffer, sending
     * the reply back to the peer it came from; anything else gets no reply.
     */
    method ProcessNextRequest(incoming: Option<Datagram>) returns (reply: Option<Datagram>)
      ensures reply.Some? <==> started && incoming.Some? && FitsBuffer(|incoming.value.payload|)
      ensures reply.Some? ==>
        reply.value == Datagram(AnswerFor(incoming.value.payload, resolvedIP),
                                incoming.value.peerIP, incoming.value.peerPort)
    {
      reply := None;
      if !started || incoming.None? {
        return;
      }
      var packet := incoming.value.payload;
      var packetSize := |packet|;
      if !FitsBuffer(packetSize) {
        return;
      }
      var ip := resolvedIP;
      var buffer := new byte[BufferSize];
      ReadAndMarkHeader(buffer, packet, ip);
      CopyQuestion(buffer, packet, ip);
      var idx := WriteTrailer(buffer, 2 * packetSize - HeaderSize, ip);
      forall j | 0 <= j < idx
        ensures buffer[j] == ReplyByte(packet, ip, j)
      {
        if j >= 2 * packetSize - HeaderSize {
          assert buffer[j] == buffer[2 * packetSize - HeaderSize..idx][j - (2 * packetSize - HeaderSize)];
        }
      }
      assert buffer[..idx] == AnswerFor(packet, ip);
      reply := Some(Datagram(buffer[..idx], incoming.value.peerIP, incoming.value.peerPort));
    }

    /**
     * The packet is read into the buffer, then QR and RA are set and the low
     * bytes at offsets 7 and 9 forced to 1.
     */
    static method ReadAndMarkHeader(buffer: array<byte>, packet: seq<byte>, ip: IPv4)
      requires buffer.Length == BufferSize && FitsBuffer(|packet|)
      modifies buffer
      ensures forall j :: 0 <= j < |packet| ==> buffer[j] == ReplyByte(packet, ip, j)
    {
      for i := 0 to |packet|
        invariant forall j :: 0 <= j < i ==> buffer[j] == packet[j]
      {
        buffer[i] := packet[i];
      }
      buffer[2] := buffer[2] | 0x80;
      buffer[3] := buffer[3] | 0x80;
      buffer[7] := 1;
      buffer[9] := 1;
      forall j | 0 <= j < |packet|
        ensures buffer[j] == ReplyByte(packet, ip, j)
      {
        if j !in {2, 3, 7, 9} {
          assert buffer[j] == packet[j];
        }
      }
    }

    /** The `memcpy` of the question section, bytes 12 onwards, to the end of the packet. */
    static method CopyQuestion(buffer: array<byte>, packet: seq<byte>, ip: IPv4)
      requires buffer.Length == BufferSize && FitsBuffer(|packet|)
      requires forall j :: 0 <= j < |packet| ==> buffer[j] == ReplyByte(packet, ip, j)
      modifies buffer
      ensures forall j :: 0 <= j < 2 * |packet| - HeaderSize ==> buffer[j] == ReplyByte(packet, ip, j)
    {
      var qlen := |packet| - HeaderSize;
      var ansStart := |packet|;
      for k := 0 to qlen
        invariant forall j :: 0 <= j < ansStart + k ==> buffer[j] == ReplyByte(packet, ip, j)
      {
        buffer[ansStart + k] := buffer[HeaderSize + k];
      }
    }

    /**
     * The fourteen `buffer[idx++] = ...` writes that end the reply, starting at
     * `start`: TYPE A, CLASS IN, TTL 60, RDLENGTH 4, then the four octets.
     */
    static method WriteTrailer(buffer: array<byte>, start: nat, ip: IPv4) returns (idx: nat)
      requires start + 14 <= buffer.Length
      modifies buffer
      ensures idx == start + 14
      ensures buffer[start..idx] == Trailer(ip)
      ensures forall j :: 0 <= j < start ==> buffer[j] == old(buffer[j])
    {
      var bytes := Trailer(ip);
      idx := start;
      while idx < start + 14
        invariant start <= idx <= start + 14
        invariant forall j :: start <= j < idx ==> buffer[j] == bytes[j - start]
        invariant forall j :: 0 <= j < start ==> buffer[j] == old(buffer[j])
      {
        buffer[idx] := bytes[idx - start];
        idx := idx + 1;
      }
    }
  }
}
