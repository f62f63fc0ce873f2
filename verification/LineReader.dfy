/** What a log line says: a reader that gets the packet back from its line, and the packets of a
    whole log from its text. */
module LineReader {
  import opened Words
  import opened LogText
  import opened PacketLine

  // ------------------------------------------------------------------------ numbers

  predicate IsDigit(c: char) {
    '0' <= c <= '9'
  }

  predicate AllDigits(s: string) {
    forall k :: 0 <= k < |s| ==> IsDigit(s[k])
  }

  /** The value of decimal digits, by their places. */
  function Value(digits: string): nat
    requires AllDigits(digits)
  {
    if digits == "" then 0
    else 10 * Value(digits[..|digits| - 1]) + (digits[|digits| - 1] as int - '0' as int)
  }

  /** `%d` writes the number that its digits have as value, without a leading zero. */
  lemma {:induction false} ValueOfDecimal(n: nat)
    ensures var d := Decimal(n);
            && d != "" && AllDigits(d) && Value(d) == n && (n > 0 ==> d[0] != '0') && (n == 0 ==> d == "0")
  {
    if n >= 10 {
      var front, last := Decimal(n / 10), n % 10;
      ValueOfDecimal(n / 10);
      DigitReads(last);
      assert (front + [Digit(last)])[..|front|] == front;
    } else {
      DigitReads(n);
      assert [Digit(n)][..0] == "";
    }
  }

  lemma DigitReads(d: nat)
    requires d < 10
    ensures IsDigit(Digit(d)) && Digit(d) as int - '0' as int == d && (d > 0 ==> Digit(d) != '0')
    ensures d == 0 ==> [Digit(d)] == "0"
  {
  }

  /** How many digits a text starts with. */
  function Digits(s: string): (n: nat)
    ensures n <= |s| && AllDigits(s[..n]) && (n < |s| ==> !IsDigit(s[n]))
  {
    if s == "" || !IsDigit(s[0]) then 0
    else
      var n := 1 + Digits(s[1..]);
      assert s[..n] == [s[0]] + s[1..][..n - 1];
      n
  }

  /** What a reader has got from the front of a text, and the rest of the text. */
  datatype Got<T> = Got(value: T, rest: string)

  datatype Reading<T> = Failed | Read(got: Got<T>) {
    predicate IsFailure() {
      Failed?
    }

    function PropagateFailure<U>(): Reading<U>
      requires IsFailure()
    {
      Failed
    }

    function Extract(): Got<T>
      requires !IsFailure()
    {
      got
    }
  }

  /** A number in front of a text. */
  function ReadNumber(s: string): Reading<nat> {
    var n := Digits(s);
    if n == 0 then Failed else Read(Got(Value(s[..n]), s[n..]))
  }

  lemma NumberReads(n: nat, rest: string)
    requires rest != "" && !IsDigit(rest[0])
    ensures ReadNumber(Decimal(n) + rest) == Read(Got(n, rest))
  {
    var d := Decimal(n);
    var s := d + rest;
    ValueOfDecimal(n);
    DigitsOf(d, rest);
    assert s[..|d|] == d && s[|d|..] == rest;
  }

  lemma {:induction false} DigitsOf(d: string, rest: string)
    requires AllDigits(d) && rest != "" && !IsDigit(rest[0])
    ensures Digits(d + rest) == |d|
  {
    if d == "" {
      assert d + rest == rest;
    } else {
      DigitsOf(d[1..], rest);
      assert (d + rest)[1..] == d[1..] + rest;
    }
  }

  // ---------------------------------------------------------------- addresses and lines

  /** The words `front` in front of a text. */
  function Skip(s: string, front: string): Reading<()> {
    if front <= s then Read(Got((), s[|front|..])) else Failed
  }

  lemma Skips(front: string, rest: string)
    ensures Skip(front + rest, front) == Read(Got((), rest))
  {
    assert (front + rest)[|front|..] == rest;
  }

  function ReadByte(s: string): Reading<nat> {
    var b :- ReadNumber(s);
    if b.value < 256 then Read(b) else Failed
  }

  /** A byte and the dot behind it. */
  function ReadDotted(s: string): Reading<nat> {
    var b :- ReadByte(s);
    var dot :- Skip(b.rest, ".");
    Read(Got(b.value, dot.rest))
  }

  /** The number whose bytes are these, highest first. */
  function FromBytes(a: nat, b: nat, c: nat, d: nat): nat {
    a * 0x100_0000 + b * 0x1_0000 + c * 0x100 + d
  }

  /** Four numbers below 256 with dots between them. */
  function ReadAddress(s: string): Reading<nat> {
    var a :- ReadDotted(s);
    var b :- ReadDotted(a.rest);
    var c :- ReadDotted(b.rest);
    var d :- ReadByte(c.rest);
    Read(Got(FromBytes(a.value, b.value, c.value, d.value), d.rest))
  }

  lemma Bytes(ip: Word)
    ensures var (a, b, c, d) := (ip / 0x100_0000, ip / 0x1_0000 % 0x100, ip / 0x100 % 0x100, ip % 0x100);
            a < 256 && b < 256 && c < 256 && d < 256 && FromBytes(a, b, c, d) == ip
  {
    var q1 := ip / 0x100;
    var q2 := q1 / 0x100;
    assert q2 == ip / 0x1_0000 && q2 / 0x100 == ip / 0x100_0000;
  }

  lemma ByteReads(b: nat, rest: string)
    requires b < 256 && rest != "" && !IsDigit(rest[0])
    ensures ReadByte(Decimal(b) + rest) == Read(Got(b, rest))
  {
    NumberReads(b, rest);
  }

  lemma DottedReads(b: nat, rest: string)
    requires b < 256
    ensures ReadDotted(Decimal(b) + ("." + rest)) == Read(Got(b, rest))
  {
    ByteReads(b, "." + rest);
    Skips(".", rest);
  }

  lemma FourReads(s: string, a: nat, b: nat, c: nat, d: nat, s1: string, s2: string, s3: string, rest: string)
    requires ReadDotted(s) == Read(Got(a, s1)) && ReadDotted(s1) == Read(Got(b, s2))
    requires ReadDotted(s2) == Read(Got(c, s3)) && ReadByte(s3) == Read(Got(d, rest))
    ensures ReadAddress(s) == Read(Got(FromBytes(a, b, c, d), rest))
  {
  }

  lemma AddressReads(ip: Word, rest: string)
    requires rest != "" && !IsDigit(rest[0])
    ensures ReadAddress(Address(ip) + rest) == Read(Got(ip, rest))
  {
    Bytes(ip);
    PartsRead(ip / 0x100_0000, ip / 0x1_0000 % 0x100, ip / 0x100 % 0x100, ip % 0x100, rest);
  }

  lemma PartsRead(a: nat, b: nat, c: nat, d: nat, rest: string)
    requires a < 256 && b < 256 && c < 256 && d < 256 && rest != "" && !IsDigit(rest[0])
    ensures ReadAddress(Decimal(a) + "." + Decimal(b) + "." + Decimal(c) + "." + Decimal(d) + rest)
            == Read(Got(FromBytes(a, b, c, d), rest))
  {
    var s3 := Decimal(d) + rest;
    var s2 := Decimal(c) + ("." + s3);
    var s1 := Decimal(b) + ("." + s2);
    DottedReads(a, s1);
    DottedReads(b, s2);
    DottedReads(c, s3);
    ByteReads(d, rest);
    FourReads(Decimal(a) + ("." + s1), a, b, c, d, s1, s2, s3, rest);
    Dotted(Decimal(a), Decimal(b), Decimal(c), Decimal(d), rest);
  }

  lemma Dotted(a: string, b: string, c: string, d: string, rest: string)
    ensures a + "." + b + "." + c + "." + d + rest == a + ("." + (b + ("." + (c + ("." + (d + rest))))))
  {
  }

  function ReadPort(s: string): Reading<Port> {
    var n :- ReadNumber(s);
    if n.value < 0x1_0000 then Read(Got(n.value, n.rest)) else Failed
  }

  /** One line in front of a text: each field stands behind its own name. */
  function ReadLine(s: string): Reading<Packet> {
    var l1 :- Skip(s, "src ip=");
    var src :- ReadAddress(l1.rest);
    var l2 :- Skip(src.rest, ", dst ip=");
    var dst :- ReadAddress(l2.rest);
    var l3 :- Skip(dst.rest, ", src port = ");
    var srcPort :- ReadPort(l3.rest);
    var l4 :- Skip(srcPort.rest, ", dst port= ");
    var dstPort :- ReadPort(l4.rest);
    var end :- Skip(dstPort.rest, " \n");
    if src.value >= MODULUS || dst.value >= MODULUS then Failed
    else Read(Got(Packet(src.value, dst.value, srcPort.value, dstPort.value), end.rest))
  }

  /** The line of a packet, in front of anything, reads as that packet. */
  lemma LineReads(p: Packet, rest: string)
    ensures ReadLine(Line(p) + rest) == Read(Got(p, rest))
  {
    var s5 := " \n" + rest;
    var s4 := ", dst port= " + (Decimal(p.dstPort) + s5);
    var s3 := ", src port = " + (Decimal(p.srcPort) + s4);
    var s2 := ", dst ip=" + (Address(p.dstIp) + s3);
    var s1 := "src ip=" + (Address(p.srcIp) + s2);
    LineParts(Address(p.srcIp), Address(p.dstIp), Decimal(p.srcPort), Decimal(p.dstPort), rest);
    assert Line(p) + rest == s1;
    Skips("src ip=", Address(p.srcIp) + s2);
    AddressReads(p.srcIp, s2);
    Skips(", dst ip=", Address(p.dstIp) + s3);
    AddressReads(p.dstIp, s3);
    Skips(", src port = ", Decimal(p.srcPort) + s4);
    NumberReads(p.srcPort, s4);
    Skips(", dst port= ", Decimal(p.dstPort) + s5);
    NumberReads(p.dstPort, s5);
    Skips(" \n", rest);
  }

  lemma LineParts(src: string, dst: string, srcPort: string, dstPort: string, rest: string)
    ensures "src ip=" + src + ", " + "dst ip=" + dst + ", "
            + "src port = " + srcPort + ", dst port= " + dstPort + " \n" + rest
            == "src ip=" + (src + (", dst ip=" + (dst + (", src port = "
               + (srcPort + (", dst port= " + (dstPort + (" \n" + rest))))))))
  {
    assert ", " + "dst ip=" == ", dst ip=" && ", " + "src port = " == ", src port = ";
  }

  // ------------------------------------------------------------------- the whole log

  /** All packets of a text that is made of lines. */
  function ReadAll(s: string): Reading<seq<Packet>>
    decreases |s|
  {
    if s == "" then Read(Got([], ""))
    else
      var first :- ReadLine(s);
      if |first.rest| >= |s| then Failed
      else
        var others :- ReadAll(first.rest);
        Read(Got([first.value] + others.value, others.rest))
  }

  lemma {:induction false} LogReads(ps: seq<Packet>)
    ensures ReadAll(Concat(LinesOf(Line, ps))) == Read(Got(ps, ""))
  {
    if ps != [] {
      var first, others := ps[0], Concat(LinesOf(Line, ps[1..]));
      LogReads(ps[1..]);
      LinesOfAppend(Line, [first], ps[1..]);
      assert [first] + ps[1..] == ps;
      assert Concat(LinesOf(Line, [first])) == "" + Line(first) == Line(first);
      LineReads(first, others);
    }
  }
}
