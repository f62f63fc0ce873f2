/** The text of one log line: IP_FORMAT of pcap.h and `makeCsvLog` of logger.cpp. */
module PacketLine {
  import opened Words

  type Port = x: int | 0 <= x < 0x1_0000

  /** The fields of a captured packet that reach the log. */
  datatype Packet = Packet(srcIp: Word, dstIp: Word, srcPort: Port, dstPort: Port)

  function Digit(d: nat): char
    requires d < 10
  {
    "0123456789"[d]
  }

  /** `%d` of a natural number. */
  function Decimal(n: nat): string {
    if n < 10 then [Digit(n)] else Decimal(n / 10) + [Digit(n % 10)]
  }

  /** IP_FORMAT: the four bytes of an address. */
  function Address(ip: Word): string {
    Decimal(ip / 0x100_0000) + "." + Decimal(ip / 0x1_0000 % 0x100) + "."
    + Decimal(ip / 0x100 % 0x100) + "." + Decimal(ip % 0x100)
  }

  function Line(p: Packet): string {
    "src ip=" + Address(p.srcIp) + ", " + "dst ip=" + Address(p.dstIp) + ", "
    + "src port = " + Decimal(p.srcPort) + ", dst port= " + Decimal(p.dstPort) + " \n"
  }

  function PowerOfTen(k: nat): nat {
    if k == 0 then 1 else 10 * PowerOfTen(k - 1)
  }

  lemma {:induction false} DecimalLength(n: nat, k: nat)
    requires k > 0 && n < PowerOfTen(k)
    ensures |Decimal(n)| <= k && (PowerOfTen(k - 1) <= n ==> |Decimal(n)| == k)
  {
    if n >= 10 {
      DecimalLength(n / 10, k - 1);
    }
  }

  lemma AddressLength(ip: Word)
    ensures |Address(ip)| <= 15 && (ip == 0xFFFF_FFFF ==> |Address(ip)| == 15)
  {
    ByteLength(ip / 0x100_0000);
    ByteLength(ip / 0x1_0000 % 0x100);
    ByteLength(ip / 0x100 % 0x100);
    ByteLength(ip % 0x100);
  }

  lemma ByteLength(b: nat)
    requires b < 0x100
    ensures |Decimal(b)| <= 3 && (b == 0xFF ==> |Decimal(b)| == 3)
  {
    assert PowerOfTen(3) == 1000 && PowerOfTen(2) == 100;
    DecimalLength(b, 3);
  }

  const LONGEST_LINE: nat := 83

  /** No line is longer than 83 bytes, so the 1024-byte buffers never cut one short; the largest
      packet has a line of exactly that length. */
  lemma LineLength(p: Packet)
    ensures |Line(p)| <= LONGEST_LINE
    ensures p == Packet(0xFFFF_FFFF, 0xFFFF_FFFF, 0xFFFF, 0xFFFF) ==> |Line(p)| == LONGEST_LINE
  {
    AddressLength(p.srcIp);
    AddressLength(p.dstIp);
    DecimalLength(p.srcPort, 5);
    DecimalLength(p.dstPort, 5);
  }
}
