/**
  IPv4 addresses as naturals below 2^32, with the dotted-decimal text form
  that Python's `ipaddress.IPv4Address` prints and accepts.
 */
module IPv4 {
  import opened Wrappers
  import opened Text

  const AddressSpace: nat := 0x1_0000_0000

  /** The address whose octets are `o0.o1.o2.o3`. */
  function Combine(o0: nat, o1: nat, o2: nat, o3: nat): nat {
    ((o0 * 256 + o1) * 256 + o2) * 256 + o3
  }

  /** The four octets of an address, most significant first. */
  function Octets(a: nat): (o: seq<nat>)
    requires a < AddressSpace
    ensures |o| == 4
    ensures forall i :: 0 <= i < 4 ==> o[i] < 256
    ensures Combine(o[0], o[1], o[2], o[3]) == a
  {
    var b := a / 256;
    var c := b / 256;
    assert c < 65536;
    [c / 256, c % 256, b % 256, a % 256]
  }

  /** `str(ipaddress.IPv4Address(a))`: the octets in decimal, joined by dots. */
  function Format(a: nat): string
    requires a < AddressSpace
  {
    var o := Octets(a);
    Join([NatToString(o[0]), NatToString(o[1]), NatToString(o[2]), NatToString(o[3])], ".")
  }

  /** One octet as `ipaddress` accepts it: one to three ASCII digits, no leading zero, at most 255. */
  function ParseOctet(p: string): (r: Option<nat>)
    ensures r.Some? ==> r.value < 256
  {
    if 1 <= |p| <= 3 && AllDigits(p) && !(|p| > 1 && p[0] == '0') && DigitsValue(p) <= 255
    then Some(DigitsValue(p))
    else None
  }

  /** `int(ipaddress.IPv4Address(s))`, or None where that raises `AddressValueError`. */
  function Parse(s: string): (r: Option<nat>)
    ensures r.Some? ==> r.value < AddressSpace
  {
    var parts := Split(s, '.');
    if |parts| != 4 then None
    else
      match (ParseOctet(parts[0]), ParseOctet(parts[1]), ParseOctet(parts[2]), ParseOctet(parts[3]))
      case (Some(o0), Some(o1), Some(o2), Some(o3)) => Some(Combine(o0, o1, o2, o3))
      case _ => None
  }

  lemma OctetRoundTrip(n: nat)
    requires n < 256
    ensures ParseOctet(NatToString(n)) == Some(n)
  {
  }

  /** The text of each octet, most significant first. */
  function OctetTexts(a: nat): (parts: seq<string>)
    requires a < AddressSpace
    ensures |parts| == 4
  {
    var o := Octets(a);
    [NatToString(o[0]), NatToString(o[1]), NatToString(o[2]), NatToString(o[3])]
  }

  lemma FormatSplits(a: nat)
    requires a < AddressSpace
    ensures Split(Format(a), '.') == OctetTexts(a)
  {
    var parts := OctetTexts(a);
    forall i | 0 <= i < 4
      ensures '.' !in parts[i]
    {
      assert AllDigits(parts[i]);
    }
    SplitJoin(parts, '.');
  }

  /** Reading back a formatted address gives the address: the text form is faithful. */
  lemma FormatParse(a: nat)
    requires a < AddressSpace
    ensures Parse(Format(a)) == Some(a)
  {
    var o := Octets(a);
    var parts := OctetTexts(a);
    FormatSplits(a);
    OctetRoundTrip(o[0]);
    OctetRoundTrip(o[1]);
    OctetRoundTrip(o[2]);
    OctetRoundTrip(o[3]);
    ParseOfParts(Format(a), o[0], o[1], o[2], o[3]);
  }

  lemma ParseOfParts(s: string, o0: nat, o1: nat, o2: nat, o3: nat)
    requires |Split(s, '.')| == 4
    requires ParseOctet(Split(s, '.')[0]) == Some(o0)
    requires ParseOctet(Split(s, '.')[1]) == Some(o1)
    requires ParseOctet(Split(s, '.')[2]) == Some(o2)
    requires ParseOctet(Split(s, '.')[3]) == Some(o3)
    ensures Parse(s) == Some(Combine(o0, o1, o2, o3))
  {
  }

  /** An octet `ipaddress` accepts is printed back as the same text. */
  lemma OctetCanonical(p: string)
    requires ParseOctet(p).Some?
    ensures NatToString(ParseOctet(p).value) == p
  {
    CanonicalDigits(p);
  }

  /** Splitting an address into octets undoes `Combine`. */
  lemma OctetsCombine(o0: nat, o1: nat, o2: nat, o3: nat)
    requires o0 < 256 && o1 < 256 && o2 < 256 && o3 < 256
    ensures Combine(o0, o1, o2, o3) < AddressSpace
    ensures Octets(Combine(o0, o1, o2, o3)) == [o0, o1, o2, o3]
  {
    var c := o0 * 256 + o1;
    var b := c * 256 + o2;
    var a := b * 256 + o3;
    DivMod256(o0, o1);
    DivMod256(c, o2);
    DivMod256(b, o3);
  }

  lemma DivMod256(x: nat, y: nat)
    requires y < 256
    ensures (x * 256 + y) / 256 == x && (x * 256 + y) % 256 == y
  {
  }

  /**
    Only the canonical text is accepted: whatever parses is exactly the text
    printed for the address it denotes, so `Parse(s) == Some(a)` holds iff
    `s == Format(a)`.
   */
  lemma ParseFormat(s: string)
    ensures Parse(s).Some? ==> Format(Parse(s).value) == s
  {
    var parts := Split(s, '.');
    if Parse(s).Some? {
      var p0, p1, p2, p3 := parts[0], parts[1], parts[2], parts[3];
      var o0, o1, o2, o3 := ParseOctet(p0).value, ParseOctet(p1).value, ParseOctet(p2).value, ParseOctet(p3).value;
      OctetCanonical(p0);
      OctetCanonical(p1);
      OctetCanonical(p2);
      OctetCanonical(p3);
      OctetsCombine(o0, o1, o2, o3);
      var a := Combine(o0, o1, o2, o3);
      assert Parse(s) == Some(a);
      assert OctetTexts(a) == parts;
      JoinSplit(s, '.');
    }
  }

  /** `ipaddress` accepts a text for an address exactly when it is that address's printed form. */
  lemma ParseIffFormat(s: string, a: nat)
    requires a < AddressSpace
    ensures Parse(s) == Some(a) <==> s == Format(a)
  {
    ParseFormat(s);
    FormatParse(a);
  }

  /** Distinct addresses print differently. */
  lemma FormatInjective(a: nat, b: nat)
    requires a < AddressSpace && b < AddressSpace
    requires Format(a) == Format(b)
    ensures a == b
  {
    FormatParse(a);
    FormatParse(b);
  }

  /** The printed form holds only digits and dots. */
  lemma FormatChars(a: nat)
    requires a < AddressSpace
    ensures forall i :: 0 <= i < |Format(a)| ==> IsDigit(Format(a)[i]) || Format(a)[i] == '.'
  {
    var t := OctetTexts(a);
    var l2 := [t[2], t[3]];
    var l1 := [t[1], t[2], t[3]];
    assert l2[1..] == [t[3]];
    assert Join(l2, ".") == t[2] + "." + t[3];
    assert l1[1..] == l2;
    assert t[1..] == l1;
    assert Format(a) == Join(t, ".");
    assert Format(a) == t[0] + "." + (t[1] + "." + (t[2] + "." + t[3]));
    assert AllDigits(t[0]) && AllDigits(t[1]) && AllDigits(t[2]) && AllDigits(t[3]);
  }
}
