/**
 The text form of a Float128: `debugDescription` prints the four 32-bit limbs,
 most significant first, each as eight lower-case hexadecimal digits
 (`%08x`), joined by commas; `description` is the same text. The parser here is
 not part of the source: it is the inverse against which the format is proved
 faithful, so that the text names exactly one bit pattern.
 */
module DebugText {
  import opened Limbs
  import opened Quad

  datatype Option<T> = None | Some(value: T)

  // ---------------------------------------------------------------------------
  // One hexadecimal digit

  const HEX_DIGITS: string := "0123456789abcdef"

  predicate IsHexDigit(c: char)
  {
    '0' <= c <= '9' || 'a' <= c <= 'f'
  }

  /** The lower-case digit of a nibble, as `%x` prints it. */
  function HexDigit(d: bv4): (c: char)
    ensures IsHexDigit(c)
  {
    HEX_DIGITS[d as int]
  }

  /** The nibble a lower-case hexadecimal digit stands for; nothing for any other character. */
  function DigitValue(c: char): (r: Option<bv4>)
    ensures r.Some? <==> IsHexDigit(c)
  {
    match c
    case '0' => Some(0)
    case '1' => Some(1)
    case '2' => Some(2)
    case '3' => Some(3)
    case '4' => Some(4)
    case '5' => Some(5)
    case '6' => Some(6)
    case '7' => Some(7)
    case '8' => Some(8)
    case '9' => Some(9)
    case 'a' => Some(10)
    case 'b' => Some(11)
    case 'c' => Some(12)
    case 'd' => Some(13)
    case 'e' => Some(14)
    case 'f' => Some(15)
    case _ => None
  }

  /** Reading a printed digit gives its nibble back. */
  lemma DigitRoundTrip(d: bv4)
    ensures DigitValue(HexDigit(d)) == Some(d)
  {
  }

  /** Printing a read digit gives the character back: every nibble has exactly one digit. */
  lemma DigitPrintedBack(c: char)
    requires IsHexDigit(c)
    ensures HexDigit(DigitValue(c).value) == c
  {
  }

  // ---------------------------------------------------------------------------
  // Digit strings

  /** The digits of a sequence of nibbles, one character each. */
  function Digits(ns: seq<bv4>): (s: string)
    ensures |s| == |ns|
    ensures forall i :: 0 <= i < |s| ==> IsHexDigit(s[i])
  {
    seq(|ns|, i requires 0 <= i < |ns| => HexDigit(ns[i]))
  }

  /** The nibbles of a string of hexadecimal digits; nothing when any character is not one. */
  function ParseDigits(s: string): Option<seq<bv4>>
  {
    if forall i :: 0 <= i < |s| ==> IsHexDigit(s[i])
    then Some(seq(|s|, i requires 0 <= i < |s| && IsHexDigit(s[i]) => DigitValue(s[i]).value))
    else None
  }

  /** Reading printed digits gives the nibbles back. */
  lemma {:induction false} DigitsRoundTrip(ns: seq<bv4>)
    ensures ParseDigits(Digits(ns)) == Some(ns)
  {
    var s := Digits(ns);
    forall i | 0 <= i < |ns|
      ensures DigitValue(s[i]) == Some(ns[i])
    {
      DigitRoundTrip(ns[i]);
    }
    assert ParseDigits(s).Some?;
    assert ParseDigits(s).value == ns;
  }

  /** Printing read digits gives the string back. */
  lemma {:induction false} DigitsCanonical(s: string)
    requires ParseDigits(s).Some?
    ensures Digits(ParseDigits(s).value) == s
  {
    forall i | 0 <= i < |s|
      ensures HexDigit(DigitValue(s[i]).value) == s[i]
    {
      DigitPrintedBack(s[i]);
    }
  }

  // ---------------------------------------------------------------------------
  // One limb: `String(format: "%08x", w)`

  /** The eight nibbles of `w`, most significant first. */
  function Nibbles(w: bv32): (ns: seq<bv4>)
    ensures |ns| == 8
  {
    [(w >> 28) as bv4, ((w >> 24) & 0xf) as bv4, ((w >> 20) & 0xf) as bv4, ((w >> 16) & 0xf) as bv4,
     ((w >> 12) & 0xf) as bv4, ((w >> 8) & 0xf) as bv4, ((w >> 4) & 0xf) as bv4, (w & 0xf) as bv4]
  }

  /** Eight nibbles, most significant first, put together into a 32-bit value. */
  function FromNibbles(ns: seq<bv4>): (w: bv32)
    requires |ns| == 8
    ensures Nibbles(w) == ns
  {
    NibbleFields(ns[0], ns[1], ns[2], ns[3], ns[4], ns[5], ns[6], ns[7]);
    assert ns == [ns[0], ns[1], ns[2], ns[3], ns[4], ns[5], ns[6], ns[7]];
    Combine(ns[0], ns[1], ns[2], ns[3], ns[4], ns[5], ns[6], ns[7])
  }

  function Combine(n0: bv4, n1: bv4, n2: bv4, n3: bv4, n4: bv4, n5: bv4, n6: bv4, n7: bv4): bv32
  {
    ((n0 as bv32) << 28) | ((n1 as bv32) << 24) | ((n2 as bv32) << 20) | ((n3 as bv32) << 16)
    | ((n4 as bv32) << 12) | ((n5 as bv32) << 8) | ((n6 as bv32) << 4) | (n7 as bv32)
  }

  lemma NibbleFields(n0: bv4, n1: bv4, n2: bv4, n3: bv4, n4: bv4, n5: bv4, n6: bv4, n7: bv4)
    ensures Nibbles(Combine(n0, n1, n2, n3, n4, n5, n6, n7)) == [n0, n1, n2, n3, n4, n5, n6, n7]
  {
  }

  /** A 32-bit value is the combination of its own eight nibbles. */
  lemma NibblesDetermine(w: bv32)
    ensures FromNibbles(Nibbles(w)) == w
  {
  }

  /** `%08x`: exactly eight lower-case digits, zero-padded, most significant first. */
  function Hex8(w: bv32): (s: string)
    ensures |s| == 8
    ensures forall i :: 0 <= i < 8 ==> IsHexDigit(s[i])
  {
    Digits(Nibbles(w))
  }

  /** The value of eight hexadecimal digits; nothing for any other string. */
  function ParseHex8(s: string): Option<bv32>
  {
    if |s| != 8 then None
    else match ParseDigits(s)
      case Some(ns) => Some(FromNibbles(ns))
      case None => None
  }

  /** Reading the eight digits printed for `w` gives `w`. */
  lemma {:induction false} Hex8RoundTrip(w: bv32)
    ensures ParseHex8(Hex8(w)) == Some(w)
  {
    DigitsRoundTrip(Nibbles(w));
    NibblesDetermine(w);
  }

  /** Any eight digits that read as `w` are the digits printed for `w`: the format is canonical. */
  lemma {:induction false} Hex8Canonical(s: string)
    requires ParseHex8(s).Some?
    ensures Hex8(ParseHex8(s).value) == s
  {
    DigitsCanonical(s);
  }

  // ---------------------------------------------------------------------------
  // The whole value

  /** `debugDescription`: the four limbs as `%08x`, joined by ",". */
  function DebugDescription(x: Float128): (s: string)
    ensures |s| == 35
    ensures s[8] == ',' && s[17] == ',' && s[26] == ','
    ensures forall i :: 0 <= i < 35 && i != 8 && i != 17 && i != 26 ==> IsHexDigit(s[i])
    ensures s[0..8] == Hex8(Limb0(x.value))
    ensures s[9..17] == Hex8(Limb1(x.value))
    ensures s[18..26] == Hex8(Limb2(x.value))
    ensures s[27..35] == Hex8(Limb3(x.value))
  {
    var a, b, c, d := Hex8(Limb0(x.value)), Hex8(Limb1(x.value)), Hex8(Limb2(x.value)), Hex8(Limb3(x.value));
    JoinGroups(a, b, c, d);
    a + "," + b + "," + c + "," + d
  }

  /** Four groups of eight digits joined by commas: where each group and each comma lands. */
  lemma JoinGroups(a: string, b: string, c: string, d: string)
    requires |a| == 8 && |b| == 8 && |c| == 8 && |d| == 8
    requires forall i :: 0 <= i < 8 ==> IsHexDigit(a[i]) && IsHexDigit(b[i]) && IsHexDigit(c[i]) && IsHexDigit(d[i])
    ensures var s := a + "," + b + "," + c + "," + d;
            && |s| == 35
            && s[8] == ',' && s[17] == ',' && s[26] == ','
            && (forall i :: 0 <= i < 35 && i != 8 && i != 17 && i != 26 ==> IsHexDigit(s[i]))
            && s[0..8] == a && s[9..17] == b && s[18..26] == c && s[27..35] == d
  {
    var s := a + "," + b + "," + c + "," + d;
    assert s[9..17] == b by {
      assert forall i :: 0 <= i < 8 ==> s[9..17][i] == s[9 + i] == b[i];
    }
    assert s[18..26] == c by {
      assert forall i :: 0 <= i < 8 ==> s[18..26][i] == s[18 + i] == c[i];
    }
    forall i | 0 <= i < 35 && i != 8 && i != 17 && i != 26
      ensures IsHexDigit(s[i])
    {
      if i < 8 { assert s[i] == a[i]; }
      else if i < 17 { assert s[i] == b[i - 9]; }
      else if i < 26 { assert s[i] == c[i - 18]; }
      else { assert s[i] == d[i - 27]; }
    }
  }

  /** The Float128 a debug text names: four groups of eight digits separated by commas. */
  function ParseDebug(s: string): Option<Float128>
  {
    if |s| != 35 || s[8] != ',' || s[17] != ',' || s[26] != ',' then None
    else
      match (ParseHex8(s[0..8]), ParseHex8(s[9..17]), ParseHex8(s[18..26]), ParseHex8(s[27..35]))
      case (Some(l0), Some(l1), Some(l2), Some(l3)) => Some(Float128(FromLimbs(l0, l1, l2, l3)))
      case _ => None
  }

  /** The text names the value it was printed from: reading it back gives the same 128 bits. */
  lemma {:induction false} DebugRoundTrip(x: Float128)
    ensures ParseDebug(DebugDescription(x)) == Some(x)
  {
    var s := DebugDescription(x);
    Hex8RoundTrip(Limb0(x.value));
    Hex8RoundTrip(Limb1(x.value));
    Hex8RoundTrip(Limb2(x.value));
    Hex8RoundTrip(Limb3(x.value));
    LimbsDetermine(x.value);
  }

  /** Any text that reads as a value is exactly the text printed for that value. */
  lemma {:induction false} DebugCanonical(s: string)
    requires ParseDebug(s).Some?
    ensures DebugDescription(ParseDebug(s).value) == s
  {
    var l0, l1, l2, l3 := ParseHex8(s[0..8]).value, ParseHex8(s[9..17]).value,
                          ParseHex8(s[18..26]).value, ParseHex8(s[27..35]).value;
    var u := ParseDebug(s).value.value;
    assert u == FromLimbs(l0, l1, l2, l3);
    Hex8Canonical(s[0..8]);
    Hex8Canonical(s[9..17]);
    Hex8Canonical(s[18..26]);
    Hex8Canonical(s[27..35]);
    GroupsDetermine(DebugDescription(ParseDebug(s).value), s);
  }

  /** Two texts of 35 characters with commas at 8, 17 and 26 and the same four groups are equal. */
  lemma GroupsDetermine(s: string, t: string)
    requires |s| == 35 && |t| == 35
    requires s[8] == t[8] && s[17] == t[17] && s[26] == t[26]
    requires s[0..8] == t[0..8] && s[9..17] == t[9..17] && s[18..26] == t[18..26] && s[27..35] == t[27..35]
    ensures s == t
  {
    forall i | 0 <= i < 35
      ensures s[i] == t[i]
    {
      if i < 8 { assert s[i] == s[0..8][i]; }
      else if 8 < i < 17 { assert s[i] == s[9..17][i - 9] && t[i] == t[9..17][i - 9]; }
      else if 17 < i < 26 { assert s[i] == s[18..26][i - 18] && t[i] == t[18..26][i - 18]; }
      else if 26 < i { assert s[i] == s[27..35][i - 27] && t[i] == t[27..35][i - 27]; }
    }
  }

  /** Two values print alike only when they are the same bit pattern, so -0 and +0 print apart. */
  lemma DebugInjective(x: Float128, y: Float128)
    requires DebugDescription(x) == DebugDescription(y)
    ensures x == y
  {
    DebugRoundTrip(x);
    DebugRoundTrip(y);
  }

  /** `description`: the debug text, which names the value exactly. */
  function Description(x: Float128): (s: string)
    ensures |s| == 35
    ensures ParseDebug(s) == Some(x)
  {
    DebugRoundTrip(x);
    DebugDescription(x)
  }
}
