/**
 * Text forms Go's `fmt` and `net` packages give to the numbers the agent
 * prints: an unsigned decimal, and the dotted-decimal form of a 4-byte
 * IPv4 address (`net.IP.String`).
 */
module NetText {
  predicate IsDigit(c: char) {
    '0' <= c <= '9'
  }

  predicate AllDigits(s: string) {
    forall k :: 0 <= k < |s| ==> IsDigit(s[k])
  }

  function DigitChar(d: nat): (c: char)
    requires d < 10
    ensures IsDigit(c) && c as int - '0' as int == d
  {
    ('0' as int + d) as char
  }

  /** n in decimal: at least one digit, and no leading zero unless n is 0. */
  function Decimal(n: nat): (s: string)
    ensures |s| >= 1 && AllDigits(s)
    ensures |s| > 1 ==> s[0] != '0'
  {
    if n < 10 then [DigitChar(n)] else Decimal(n / 10) + [DigitChar(n % 10)]
  }

  /** The number a string of decimal digits denotes. */
  function DecimalValue(s: string): (n: nat)
    requires AllDigits(s)
  {
    if s == [] then 0 else 10 * DecimalValue(s[..|s| - 1]) + (s[|s| - 1] as int - '0' as int)
  }

  /** Reading back a rendered number gives the number, so distinct numbers render differently. */
  lemma {:induction false} DecimalRoundTrip(n: nat)
    ensures DecimalValue(Decimal(n)) == n
  {
    if n >= 10 {
      var s := Decimal(n);
      assert s[..|s| - 1] == Decimal(n / 10);
      DecimalRoundTrip(n / 10);
    }
  }

  /** The four bytes of an IPv4 address, most significant (first on the wire) first. */
  type IPv4Bytes = s: seq<bv8> | |s| == 4 witness [0, 0, 0, 0]

  /** The value of one octet, 0 to 255. */
  function OctetValue(b: bv8): (n: nat)
    ensures n < 256
  {
    b as nat
  }

  /** `net.IP.String` of a 4-byte address: "b0.b1.b2.b3", each byte in decimal. */
  function DottedQuad(ip: IPv4Bytes): string {
    Decimal(OctetValue(ip[0])) + "." + Decimal(OctetValue(ip[1])) + "." + Decimal(OctetValue(ip[2])) + "." + Decimal(OctetValue(ip[3]))
  }

  /** In digits + "." + rest, the first dot stands right after the digits. */
  lemma FirstDot(x: string, y: string)
    requires AllDigits(x)
    ensures (x + "." + y)[|x|] == '.'
    ensures forall k :: 0 <= k < |x| ==> (x + "." + y)[k] != '.'
  {
  }

  /** A digit string followed by a dot can be split off only one way. */
  lemma SplitAtDot(x: string, y: string, x': string, y': string)
    requires AllDigits(x) && AllDigits(x')
    requires x + "." + y == x' + "." + y'
    ensures x == x' && y == y'
  {
    var s := x + "." + y;
    FirstDot(x, y);
    FirstDot(x', y');
    assert |x| == |x'|;
    assert x == s[..|x|] == x';
    assert y == s[|x| + 1..] == y';
  }

  lemma DecimalInjective(m: nat, n: nat)
    requires Decimal(m) == Decimal(n)
    ensures m == n
  {
    DecimalRoundTrip(m);
    DecimalRoundTrip(n);
  }

  lemma OctetInjective(x: bv8, y: bv8)
    requires Decimal(OctetValue(x)) == Decimal(OctetValue(y))
    ensures x == y
  {
    DecimalInjective(OctetValue(x), OctetValue(y));
  }

  /** Four digit strings joined by dots can be split back only one way. */
  lemma SplitQuad(a0: string, a1: string, a2: string, a3: string, b0: string, b1: string, b2: string, b3: string)
    requires AllDigits(a0) && AllDigits(a1) && AllDigits(a2)
    requires AllDigits(b0) && AllDigits(b1) && AllDigits(b2)
    requires a0 + "." + a1 + "." + a2 + "." + a3 == b0 + "." + b1 + "." + b2 + "." + b3
    ensures a0 == b0 && a1 == b1 && a2 == b2 && a3 == b3
  {
    var ra, rb := a2 + "." + a3, b2 + "." + b3;
    var sa, sb := a1 + "." + ra, b1 + "." + rb;
    assert a0 + "." + a1 + "." + a2 + "." + a3 == a0 + "." + sa;
    assert b0 + "." + b1 + "." + b2 + "." + b3 == b0 + "." + sb;
    SplitAtDot(a0, sa, b0, sb);
    SplitAtDot(a1, ra, b1, rb);
    SplitAtDot(a2, a3, b2, b3);
  }

  /** Different addresses never print the same: DottedQuad is one-to-one. */
  lemma DottedQuadInjective(a: IPv4Bytes, b: IPv4Bytes)
    requires DottedQuad(a) == DottedQuad(b)
    ensures a == b
  {
    SplitQuad(Decimal(OctetValue(a[0])), Decimal(OctetValue(a[1])), Decimal(OctetValue(a[2])), Decimal(OctetValue(a[3])),
              Decimal(OctetValue(b[0])), Decimal(OctetValue(b[1])), Decimal(OctetValue(b[2])), Decimal(OctetValue(b[3])));
    OctetInjective(a[0], b[0]);
    OctetInjective(a[1], b[1]);
    OctetInjective(a[2], b[2]);
    OctetInjective(a[3], b[3]);
  }
}
