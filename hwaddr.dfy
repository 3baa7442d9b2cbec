/** Hardware (MAC) addresses: their canonical text form, the parser that
    reads it back, the comparison the library uses, and the fixed-width
    name field of the kernel requests. */
module HwAddr {
  import opened Wrappers

  type Byte = bv8

  /** An IEEE 802 48-bit address: exactly six octets. */
  type Mac6 = s: seq<Byte> | |s| == 6 witness [0, 0, 0, 0, 0, 0]

  /** Lower-case hexadecimal digit of a nibble. */
  function HexDigit(n: Byte): (c: char)
    requires n < 16
    ensures c in "0123456789abcdef"
  {
    if n < 10 then ('0' as int + n as int) as char
    else ('a' as int + n as int - 10) as char
  }

  /** Value of a hexadecimal digit, either case; None for any other character. */
  function HexValue(c: char): (r: Option<Byte>)
    ensures r.Some? ==> r.value < 16
  {
    if '0' <= c <= '9' then Some((c as int - '0' as int) as Byte)
    else if 'a' <= c <= 'f' then Some((c as int - 'a' as int + 10) as Byte)
    else if 'A' <= c <= 'F' then Some((c as int - 'A' as int + 10) as Byte)
    else None
  }

  lemma HexValueOfDigit(n: Byte)
    requires n < 16
    ensures HexValue(HexDigit(n)) == Some(n)
  {
  }

  /** The two digits of one octet, high nibble first. */
  function Octet(b: Byte): (s: string)
  {
    [HexDigit(b >> 4), HexDigit(b & 0x0F)]
  }

  /** The canonical text of an address as Go's HardwareAddr.String builds it:
      two lower-case hex digits per octet, octets separated by ':'. */
  function Format(a: seq<Byte>): (s: string)
    ensures |a| == 0 ==> s == ""
    ensures |a| > 0 ==> |s| == 3 * |a| - 1
  {
    if |a| == 0 then ""
    else if |a| == 1 then Octet(a[0])
    else Octet(a[0]) + [':'] + Format(a[1..])
  }

  /** How the text of a non-empty address starts, and what follows the
      first separator. */
  lemma FormatHead(a: seq<Byte>)
    requires |a| > 0
    ensures Format(a)[..2] == Octet(a[0])
    ensures |a| > 1 ==> Format(a)[2] == ':' && Format(a)[3..] == Format(a[1..])
  {
  }

  /** Octet k of an address is written at positions 3k and 3k+1 of its text. */
  lemma {:induction false} FormatOctetAt(a: seq<Byte>, k: nat)
    requires k < |a|
    ensures Format(a)[3 * k] == Octet(a[k])[0] && Format(a)[3 * k + 1] == Octet(a[k])[1]
  {
    var s := Format(a);
    FormatHead(a);
    if k > 0 {
      FormatOctetAt(a[1..], k - 1);
      assert s[3 * k] == s[3..][3 * (k - 1)] && s[3 * k + 1] == s[3..][3 * (k - 1) + 1];
    } else {
      assert s[0] == s[..2][0] && s[1] == s[..2][1];
    }
  }

  /** Every octet but the last is followed by ':'. */
  lemma {:induction false} FormatSeparatorAt(a: seq<Byte>, k: nat)
    requires k < |a| - 1
    ensures Format(a)[3 * k + 2] == ':'
  {
    FormatHead(a);
    if k > 0 {
      FormatSeparatorAt(a[1..], k - 1);
      assert Format(a)[3 * k + 2] == Format(a)[3..][3 * (k - 1) + 2];
    }
  }

  /** The whole text: two lower-case hex digits per octet, high nibble first,
      in order, with ':' between octets. */
  lemma FormatText(a: seq<Byte>)
    ensures forall k :: 0 <= k < |a| ==>
      Format(a)[3 * k] == HexDigit(a[k] >> 4) && Format(a)[3 * k + 1] == HexDigit(a[k] & 0x0F)
    ensures forall k :: 0 <= k < |a| - 1 ==> Format(a)[3 * k + 2] == ':'
  {
    forall k | 0 <= k < |a|
      ensures Format(a)[3 * k] == HexDigit(a[k] >> 4) && Format(a)[3 * k + 1] == HexDigit(a[k] & 0x0F)
    {
      FormatOctetAt(a, k);
    }
    forall k | 0 <= k < |a| - 1
      ensures Format(a)[3 * k + 2] == ':'
    {
      FormatSeparatorAt(a, k);
    }
  }

  lemma OctetInjective(a: Byte, b: Byte)
    requires Octet(a) == Octet(b)
    ensures a == b
  {
  }

  /** Two addresses have the same canonical text only if they are the same
      octet sequence. */
  lemma {:induction false} FormatInjective(a: seq<Byte>, b: seq<Byte>)
    requires Format(a) == Format(b)
    ensures a == b
  {
    var s := Format(a);
    if |a| > 0 {
      assert |b| > 0;
      FormatHead(a);
      FormatHead(b);
      OctetInjective(a[0], b[0]);
      if |a| > 1 {
        assert |b| > 1;
        FormatInjective(a[1..], b[1..]);
        assert a == [a[0]] + a[1..] && b == [b[0]] + b[1..];
      } else {
        assert |b| == 1;
      }
    }
  }

  /** CompareMacs: equality of the canonical texts of two addresses, which is
      exactly equality of the addresses. */
  function CompareMacs(first: seq<Byte>, second: seq<Byte>): (same: bool)
    ensures same <==> first == second
  {
    if Format(first) == Format(second) then
      FormatInjective(first, second);
      true
    else
      false
  }

  /** Reads octets written as two hex digits each, separated by `sep`, up to
      the end of `s`; every separator must be `sep`. */
  function ParseOctets(s: string, sep: char): (r: Option<seq<Byte>>)
    ensures r.Some? ==> |r.value| > 0 && |s| == 3 * |r.value| - 1
    decreases |s|
  {
    if |s| < 2 || HexValue(s[0]).None? || HexValue(s[1]).None? then None
    else
      var b := (HexValue(s[0]).value << 4) | HexValue(s[1]).value;
      if |s| == 2 then Some([b])
      else if s[2] != sep then None
      else
        match ParseOctets(s[3..], sep)
        case None => None
        case Some(rest) => Some([b] + rest)
  }

  /** The 48-bit part of net.ParseMAC: "xx:xx:xx:xx:xx:xx" or
      "xx-xx-xx-xx-xx-xx", hex digits in either case. The text is `char`s
      rather than bytes: Go reads it byte by byte and this model character by
      character, and both accept only ASCII digits and separators. */
  function ParseMac(s: string): (r: Option<Mac6>)
    ensures r.Some? ==> |s| == 17 && (s[2] == ':' || s[2] == '-')
  {
    if |s| < 14 then None
    else if s[2] == ':' || s[2] == '-' then
      if |s| != 17 then None
      else
        match ParseOctets(s, s[2])
        case None => None
        case Some(a) => Some(a)
    else None
  }

  lemma OctetRoundTrip(b: Byte)
    ensures HexValue(Octet(b)[0]) == Some(b >> 4)
    ensures HexValue(Octet(b)[1]) == Some(b & 0x0F)
    ensures ((b >> 4) << 4) | (b & 0x0F) == b
  {
    HexValueOfDigit(b >> 4);
    HexValueOfDigit(b & 0x0F);
  }

  /** The first octet of the text of an address, and the octets after it,
      read back by ParseOctets. */
  lemma ParseOctetsHead(a: seq<Byte>, s: string)
    requires |a| > 0 && s == Format(a)
    ensures |s| >= 2 && HexValue(s[0]).Some? && HexValue(s[1]).Some?
    ensures (HexValue(s[0]).value << 4) | HexValue(s[1]).value == a[0]
  {
    FormatHead(a);
    OctetRoundTrip(a[0]);
    assert s[0] == Octet(a[0])[0] && s[1] == Octet(a[0])[1];
  }

  /** ParseOctets on a text that starts with two hex digits and a separator
      and goes on with text it accepts. */
  lemma ParseOctetsCons(s: string, sep: char, b: Byte, rest: seq<Byte>)
    requires |s| > 2 && HexValue(s[0]).Some? && HexValue(s[1]).Some? && s[2] == sep
    requires b == (HexValue(s[0]).value << 4) | HexValue(s[1]).value
    requires ParseOctets(s[3..], sep) == Some(rest)
    ensures ParseOctets(s, sep) == Some([b] + rest)
  {
  }

  lemma {:induction false} ParseOctetsOfFormat(a: seq<Byte>)
    requires |a| > 0
    ensures ParseOctets(Format(a), ':') == Some(a)
  {
    var s := Format(a);
    ParseOctetsHead(a, s);
    if |a| > 1 {
      FormatHead(a);
      ParseOctetsOfFormat(a[1..]);
      ParseOctetsCons(s, ':', a[0], a[1..]);
      assert a == [a[0]] + a[1..];
    } else {
      assert |s| == 2 && a == [a[0]];
    }
  }

  /** Reading back the canonical text of a 48-bit address gives the address:
      the text RevertMac hands to SetMac parses to the permanent address. */
  lemma ParseFormat(m: Mac6)
    ensures ParseMac(Format(m)) == Some(m)
  {
    ParseOctetsOfFormat(m);
  }

  /** A character of an accepted address text as the canonical text writes
      it: upper-case hex digits lower-cased, '-' turned into ':'. */
  function CanonicalChar(c: char): char
  {
    if c == '-' then ':'
    else if 'A' <= c <= 'F' then (c as int - 'A' as int + 'a' as int) as char
    else c
  }

  function CanonicalText(s: string): (t: string)
    ensures |t| == |s|
  {
    seq(|s|, i requires 0 <= i < |s| => CanonicalChar(s[i]))
  }

  /** Writing back the octet read from two hex digits gives those digits in
      lower case. */
  lemma OctetOfDigits(c0: char, c1: char)
    requires HexValue(c0).Some? && HexValue(c1).Some?
    ensures Octet((HexValue(c0).value << 4) | HexValue(c1).value) == [CanonicalChar(c0), CanonicalChar(c1)]
  {
    var h, l := HexValue(c0).value, HexValue(c1).value;
    NibbleSplit(h, l);
    DigitOfValue(c0);
    DigitOfValue(c1);
  }

  lemma NibbleSplit(h: Byte, l: Byte)
    requires h < 16 && l < 16
    ensures ((h << 4) | l) >> 4 == h && ((h << 4) | l) & 0x0F == l
  {
  }

  /** A hex digit read and written back comes out in lower case. */
  lemma DigitOfValue(c: char)
    requires HexValue(c).Some?
    ensures HexDigit(HexValue(c).value) == CanonicalChar(c)
  {
    if '0' <= c <= '9' {
      DecimalDigit(c, HexValue(c).value);
    } else if 'a' <= c <= 'f' {
      LetterDigit(c, HexValue(c).value);
    } else {
      LetterDigit(CanonicalChar(c), HexValue(c).value);
    }
  }

  lemma DecimalDigit(c: char, n: Byte)
    requires '0' <= c <= '9' && n == (c as int - '0' as int) as Byte
    ensures HexDigit(n) == c
  {
    assert n as int == c as int - '0' as int;
  }

  lemma LetterDigit(c: char, n: Byte)
    requires 'a' <= c <= 'f' && n == (c as int - 'a' as int + 10) as Byte
    ensures HexDigit(n) == c
  {
    assert n as int == c as int - 'a' as int + 10;
  }

  /** The canonical text of a text with a separator after its first two
      characters, piece by piece. */
  lemma CanonicalTextSplit(s: string)
    requires |s| > 2 && (s[2] == ':' || s[2] == '-')
    ensures CanonicalText(s) == [CanonicalChar(s[0]), CanonicalChar(s[1]), ':'] + CanonicalText(s[3..])
  {
  }

  /** One step of ParseOctets on an accepted text. */
  lemma ParseOctetsStep(s: string, sep: char)
    requires ParseOctets(s, sep).Some?
    ensures |s| >= 2 && HexValue(s[0]).Some? && HexValue(s[1]).Some?
    ensures ParseOctets(s, sep).value[0] == (HexValue(s[0]).value << 4) | HexValue(s[1]).value
    ensures |s| == 2 ==> |ParseOctets(s, sep).value| == 1
    ensures |s| > 2 ==>
      (s[2] == sep && ParseOctets(s[3..], sep).Some? &&
       ParseOctets(s, sep).value[1..] == ParseOctets(s[3..], sep).value)
  {
  }

  /** The canonical text of an address, built from its first octet and the
      text of the rest. */
  lemma CanonicalTextCons(s: string, a: seq<Byte>)
    requires |s| > 2 && |a| > 1 && (s[2] == ':' || s[2] == '-')
    requires Octet(a[0]) == [CanonicalChar(s[0]), CanonicalChar(s[1])]
    requires Format(a[1..]) == CanonicalText(s[3..])
    ensures Format(a) == CanonicalText(s)
  {
    CanonicalTextSplit(s);
  }

  lemma CanonicalTextSingle(s: string, a: seq<Byte>)
    requires |s| == 2 && |a| == 1
    requires Octet(a[0]) == [CanonicalChar(s[0]), CanonicalChar(s[1])]
    ensures Format(a) == CanonicalText(s)
  {
  }

  lemma {:induction false} ParseOctetsText(s: string, sep: char)
    requires sep == ':' || sep == '-'
    requires ParseOctets(s, sep).Some?
    ensures Format(ParseOctets(s, sep).value) == CanonicalText(s)
    decreases |s|
  {
    var a := ParseOctets(s, sep).value;
    ParseOctetsStep(s, sep);
    OctetOfDigits(s[0], s[1]);
    if |s| > 2 {
      ParseOctetsText(s[3..], sep);
      CanonicalTextCons(s, a);
    } else {
      CanonicalTextSingle(s, a);
    }
  }

  /** The other round trip: an accepted text is the canonical text of the
      address read from it, up to the case of its letters and the choice of
      separator. */
  lemma ParseMacText(s: string)
    requires ParseMac(s).Some?
    ensures Format(ParseMac(s).value) == CanonicalText(s)
  {
    ParseOctetsText(s, s[2]);
  }

  /** The 16-byte name field of the ifreq / NetInfo requests, filled as Go's
      `copy` fills a zeroed array: the name's first 16 bytes, then zeros. */
  function NameField(name: seq<Byte>): (field: seq<Byte>)
    ensures |field| == 16
    ensures forall i :: 0 <= i < 16 ==> field[i] == if i < |name| then name[i] else 0
  {
    if |name| >= 16 then name[..16] else name + seq(16 - |name|, _ => 0)
  }

  /** The C-string prefix of a name field: the bytes before the first zero
      byte. */
  function FieldName(field: seq<Byte>): (name: seq<Byte>)
    ensures |name| <= |field|
  {
    if field == [] || field[0] == 0 then [] else [field[0]] + FieldName(field[1..])
  }

  /** The C-string prefix holds no zero byte. */
  lemma {:induction false} FieldNameNoZero(field: seq<Byte>)
    ensures forall k :: 0 <= k < |FieldName(field)| ==> FieldName(field)[k] != 0
  {
    if field != [] && field[0] != 0 {
      FieldNameNoZero(field[1..]);
    }
  }

  lemma {:induction false} FieldNameOfPrefix(name: seq<Byte>, field: seq<Byte>)
    requires |name| <= |field| && field[..|name|] == name
    requires forall i :: 0 <= i < |name| ==> name[i] != 0
    requires |name| < |field| ==> field[|name|] == 0
    ensures FieldName(field) == name
  {
    if name != [] {
      FieldNameOfPrefix(name[1..], field[1..]);
      assert name == [name[0]] + name[1..];
    }
  }

  /** A name without zero bytes is read back from its field intact, cut to
      16 bytes when it is longer. */
  lemma NameFieldRoundTrip(name: seq<Byte>)
    requires forall i :: 0 <= i < |name| ==> name[i] != 0
    ensures |name| < 16 ==> FieldName(NameField(name)) == name
    ensures |name| >= 16 ==> FieldName(NameField(name)) == name[..16]
  {
    var field := NameField(name);
    if |name| < 16 {
      FieldNameOfPrefix(name, field);
    } else {
      FieldNameOfPrefix(name[..16], field);
    }
  }
}
