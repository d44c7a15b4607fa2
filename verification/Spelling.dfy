/** Which texts the concrete types accept, and as which values: numbers as they are written, the words of
    a truth value, hexadecimal pairs and addresses. */
module Spelling {
  import opened Wrappers
  import opened Bytes
  import opened Types

  // ---- Decimal numbers ----

  function Zeros(z: nat): Text {
    seq(z, k => 48)
  }

  /** A number in decimal, with a sign in front and leading zeros, if any. */
  function Written(sign: Text, z: nat, n: nat): Text {
    sign + (Zeros(z) + Decimal(n))
  }

  lemma {:induction false} ZerosCount(z: nat, digits: Text)
    requires AllDigits(digits)
    ensures AllDigits(Zeros(z) + digits) && Value(Zeros(z) + digits) == Value(digits)
  {
    var s := Zeros(z) + digits;
    if digits == [] {
      assert s == Zeros(z);
      NothingButZeros(z);
    } else {
      var init := digits[..|digits| - 1];
      ZerosCount(z, init);
      assert s[..|s| - 1] == Zeros(z) + init;
    }
  }

  lemma {:induction false} NothingButZeros(z: nat)
    ensures AllDigits(Zeros(z)) && Value(Zeros(z)) == 0
  {
    if z > 0 {
      NothingButZeros(z - 1);
      assert Zeros(z)[..z - 1] == Zeros(z - 1);
    }
  }

  lemma DecimalPush(v: nat, last: Byte)
    requires v > 0 && IsDigit(last)
    ensures Decimal(10 * v + (last - 48)) == Decimal(v) + [last]
  {
    var n := 10 * v + (last - 48);
    assert n / 10 == v && n % 10 == last - 48;
  }

  lemma DecimalDigit(last: Byte)
    requires IsDigit(last)
    ensures Decimal(last - 48) == [last]
  {}

  /** Digits are leading zeros and the number they denote in decimal. */
  lemma {:induction false} DigitsWritten(digits: Text) returns (z: nat)
    requires digits != [] && AllDigits(digits)
    ensures digits == Zeros(z) + Decimal(Value(digits))
  {
    var n := |digits| - 1;
    var init, last := digits[..n], digits[n];
    assert digits == init + [last];
    if init == [] {
      DecimalDigit(last);
      z := 0;
    } else {
      z := DigitsWritten(init);
      var v := Value(init);
      if v == 0 {
        DecimalDigit(48);
        DecimalDigit(last);
        z := z + 1;
        assert Zeros(z) == Zeros(z - 1) + [48];
      } else {
        DecimalPush(v, last);
        assert Zeros(z) + (Decimal(v) + [last]) == Zeros(z) + Decimal(v) + [last];
      }
    }
  }

  lemma WrittenDigits(z: nat, n: nat)
    ensures var digits := Zeros(z) + Decimal(n);
            digits != [] && AllDigits(digits) && Value(digits) == n && digits[0] != 43 && digits[0] != 45
  {
    DecimalValue(n);
    ZerosCount(z, Decimal(n));
  }

  predicate UnsignedAs(s: Text, n: nat, plus: bool, z: nat) {
    s == Written(if plus then [43] else [], z, n)
  }

  /** An unsigned parse reads exactly the decimals below two to the power of 64, zeros and a plus sign in
      front allowed. */
  lemma UnsignedIff(s: Text, n: nat)
    ensures ParseUsize(s) == Some(n) <==>
            n < 0x1_0000_0000_0000_0000 && exists plus, z :: UnsignedAs(s, n, plus, z)
  {
    hide Value, Decimal, AllDigits;
    if ParseUsize(s) == Some(n) {
      var plus := s != [] && s[0] == 43;
      var digits := if plus then s[1..] else s;
      var z := DigitsWritten(digits);
      assert s == (if plus then [43] else []) + digits;
      assert UnsignedAs(s, n, plus, z);
    }
    if n < 0x1_0000_0000_0000_0000 && exists plus, z :: UnsignedAs(s, n, plus, z) {
      var plus, z :| UnsignedAs(s, n, plus, z);
      WrittenDigits(z, n);
      var digits := Zeros(z) + Decimal(n);
      assert s == if plus then [43] + digits else digits;
      assert plus ==> s[1..] == digits;
    }
  }

  datatype Sign = Bare | Plus | Minus

  function SignText(sign: Sign): Text {
    match sign
    case Bare => []
    case Plus => [43]
    case Minus => [45]
  }

  predicate SignedAs(s: Text, n: int, sign: Sign, z: nat) {
    (if sign == Minus then n <= 0 else n >= 0) && s == Written(SignText(sign), z, if n < 0 then -n else n)
  }

  /** A signed parse reads exactly the decimals of 64-bit numbers, zeros and a sign in front allowed. */
  lemma SignedIff(s: Text, n: int)
    ensures ParseI64(s) == Some(n) <==>
            -0x8000_0000_0000_0000 <= n < 0x8000_0000_0000_0000 && exists sign, z :: SignedAs(s, n, sign, z)
  {
    hide ParseI64, SignedAs;
    if ParseI64(s) == Some(n) {
      var sign, z := SignedParts(s, n);
    }
    if -0x8000_0000_0000_0000 <= n < 0x8000_0000_0000_0000 && exists sign, z :: SignedAs(s, n, sign, z) {
      var sign, z :| SignedAs(s, n, sign, z);
      SignedParses(s, n, sign, z);
    }
  }

  lemma SignedParts(s: Text, n: int) returns (sign: Sign, z: nat)
    requires ParseI64(s) == Some(n)
    ensures -0x8000_0000_0000_0000 <= n < 0x8000_0000_0000_0000 && SignedAs(s, n, sign, z)
  {
    hide Value, Decimal, AllDigits;
    sign := if s != [] && s[0] == 45 then Minus else if s != [] && s[0] == 43 then Plus else Bare;
    var digits := if sign == Bare then s else s[1..];
    z := DigitsWritten(digits);
    assert s == SignText(sign) + digits;
  }

  lemma SignedParses(s: Text, n: int, sign: Sign, z: nat)
    requires -0x8000_0000_0000_0000 <= n < 0x8000_0000_0000_0000 && SignedAs(s, n, sign, z)
    ensures ParseI64(s) == Some(n)
  {
    hide Value, Decimal, AllDigits, Zeros;
    var size := if n < 0 then -n else n;
    var digits := Zeros(z) + Decimal(size);
    WrittenDigits(z, size);
    match sign
    case Bare => assert s == digits by { assert [] + digits == digits; }
    case Plus => assert s == [43] + digits && s[1..] == digits;
    case Minus => assert s == [45] + digits && s[1..] == digits;
  }

  // ---- Words ----

  /** The letter, small or capital. */
  predicate Letter(b: Byte, small: Byte) {
    b == small || b == small - 32
  }

  predicate SpellsTrue(s: Text) {
    |s| == 4 && Letter(s[0], 116) && Letter(s[1], 114) && Letter(s[2], 117) && Letter(s[3], 101)
  }

  predicate SpellsFalse(s: Text) {
    |s| == 5 && Letter(s[0], 102) && Letter(s[1], 97) && Letter(s[2], 108) && Letter(s[3], 115) && Letter(s[4], 101)
  }

  predicate SpellsYes(s: Text) {
    |s| == 3 && Letter(s[0], 121) && Letter(s[1], 101) && Letter(s[2], 115)
  }

  lemma LowerLetter(b: Byte, small: Byte)
    requires 97 <= small <= 122
    ensures LowerByte(b) == small <==> Letter(b, small)
  {}

  lemma LowerTrue(s: Text)
    ensures Lower(s) == TRUE <==> SpellsTrue(s)
  {
    if |s| == 4 {
      assert Lower(s) == [LowerByte(s[0]), LowerByte(s[1]), LowerByte(s[2]), LowerByte(s[3])];
    }
  }

  lemma LowerFalse(s: Text)
    ensures Lower(s) == FALSE <==> SpellsFalse(s)
  {
    if |s| == 5 {
      assert Lower(s) == [LowerByte(s[0]), LowerByte(s[1]), LowerByte(s[2]), LowerByte(s[3]), LowerByte(s[4])];
    }
  }

  lemma LowerYes(s: Text)
    ensures Lower(s) == YES <==> SpellsYes(s)
  {
    if |s| == 3 {
      assert Lower(s) == [LowerByte(s[0]), LowerByte(s[1]), LowerByte(s[2])];
    }
  }

  lemma LowerDigit(s: Text)
    ensures Lower(s) == ONE <==> s == [49]
    ensures Lower(s) == NIL <==> s == [48]
  {
    if |s| == 1 {
      assert Lower(s) == [LowerByte(s[0])];
    }
  }

  /** A truth value is one of four words, letters in either case. */
  lemma BoolIff(s: Text)
    ensures ParseBool(s) == Some(true) <==> s == [49] || SpellsTrue(s)
    ensures ParseBool(s) == Some(false) <==> s == [48] || SpellsFalse(s)
  {
    hide Lower, SpellsTrue, SpellsFalse;
    LowerTrue(s);
    LowerFalse(s);
    LowerDigit(s);
  }

  // ---- Hexadecimal pairs and addresses ----

  /** `0` to `9`, `a` to `f`; and with capitals. */
  const SMALL: Text := [48, 49, 50, 51, 52, 53, 54, 55, 56, 57, 97, 98, 99, 100, 101, 102]
  const CAPITAL: Text := [48, 49, 50, 51, 52, 53, 54, 55, 56, 57, 65, 66, 67, 68, 69, 70]

  predicate Digit(b: Byte, v: nat) {
    v < 16 && (b == SMALL[v] || b == CAPITAL[v])
  }

  lemma HexDigitIff(b: Byte, v: Byte)
    ensures HexDigit(b) == Some(v) <==> Digit(b, v)
  {
    if v < 10 {
      assert SMALL[v] == 48 + v && CAPITAL[v] == 48 + v;
    } else if v < 16 {
      assert SMALL[v] == 87 + v && CAPITAL[v] == 55 + v;
    }
  }

  /** A pair is two hexadecimal digits, or a plus sign and one. */
  lemma HexPairIff(a: Byte, b: Byte, v: Byte)
    ensures HexPair(a, b) == Some(v) <==> (Digit(a, v / 16) && Digit(b, v % 16)) || (a == 43 && Digit(b, v))
  {
    hide HexDigit, Digit;
    NoDigit(v / 16);
    if a == 43 {
      HexDigitIff(b, v);
    } else {
      PairDigits(a, b, v);
    }
  }

  lemma NoDigit(v: nat)
    ensures !Digit(43, v)
  {}

  lemma PairDigits(a: Byte, b: Byte, v: Byte)
    requires a != 43
    ensures HexPair(a, b) == Some(v) <==> Digit(a, v / 16) && Digit(b, v % 16)
  {
    hide HexDigit, Digit;
    HexDigitIff(a, v / 16);
    HexDigitIff(b, v % 16);
    match (HexDigit(a), HexDigit(b)) {
      case (Some(x), Some(y)) =>
        HexDigitIff(a, x);
        HexDigitIff(b, y);
        assert x < 16 && y < 16 by { DigitSmall(a, x); DigitSmall(b, y); }
        assert (16 * x + y) / 16 == x && (16 * x + y) % 16 == y;
        assert 16 * (v / 16) + v % 16 == v;
      case _ =>
    }
  }

  lemma DigitSmall(b: Byte, v: nat)
    requires Digit(b, v)
    ensures v < 16
  {}

  /** The bytes of an address are its pairs', in order. */
  lemma MacPairs(s: Text)
    requires IsMac(s)
    ensures |s| == 17 && |MacBytes(s)| == 6
    ensures forall k :: 0 <= k < 6 ==> HexPair(s[3 * k], s[3 * k + 1]) == Some(MacBytes(s)[k])
  {
    hide HexPair;
    var x := MacSeparator(s);
    JoinSplit(s, x);
    hide Split, MacSeparator;
    JoinPairs(Split(s, x), x);
  }

  function SmallPair(b: Byte): Text {
    [SMALL[b / 16], SMALL[b % 16]]
  }

  /** Six bytes as six pairs of small digits. */
  function MacText(bytes: seq<Byte>, separator: Byte): Text
    requires |bytes| == 6
  {
    Join(seq(6, k requires 0 <= k < 6 => SmallPair(bytes[k])), separator)
  }

  /** Every address written with colons, or with hyphens, reads back. */
  lemma MacRoundTrip(bytes: seq<Byte>, separator: Byte)
    requires |bytes| == 6 && (separator == 58 || separator == 45)
    ensures IsMac(MacText(bytes, separator)) && MacBytes(MacText(bytes, separator)) == bytes
  {
    hide HexPair, IsMac;
    var pairs := seq(6, k requires 0 <= k < 6 => SmallPair(bytes[k]));
    var s := MacText(bytes, separator);
    JoinPairs(pairs, separator);
    forall k | 0 <= k < 6 ensures HexPair(s[3 * k], s[3 * k + 1]) == Some(bytes[k]) {
      assert s[3 * k] == pairs[k][0] && s[3 * k + 1] == pairs[k][1];
      HexPairIff(s[3 * k], s[3 * k + 1], bytes[k]);
    }
    assert MacForm(s) by { SixPairs(s); }
    MacShape(s);
    MacPairs(s);
    assert MacBytes(s) == bytes;
  }

  lemma SixPairs(s: Text)
    requires |s| == 17 && (s[2] == 58 || s[2] == 45)
    requires forall k :: 0 <= k < 5 ==> s[3 * k + 2] == s[2]
    requires forall k :: 0 <= k < 6 ==> HexPair(s[3 * k], s[3 * k + 1]).Some?
    ensures MacForm(s)
  {}

  // ---- What a capture accepts ----

  /** A string capture takes every text, and no other capture takes the empty one. */
  lemma StringAccepts(lib: Library, ty: TypeName, s: Text)
    ensures Accepts(lib, String, s)
    ensures Accepts(lib, ty, []) <==> ty == String
  {}

  lemma IntAccepts(lib: Library, s: Text)
    ensures Accepts(lib, Int, s) <==>
            exists n, sign, z :: -0x8000_0000_0000_0000 <= n < 0x8000_0000_0000_0000 && SignedAs(s, n, sign, z)
  {
    hide ParseI64, SignedAs;
    if Accepts(lib, Int, s) {
      SignedIff(s, ParseI64(s).value);
    }
    if n: int, sign: Sign, z: nat :|
      -0x8000_0000_0000_0000 <= n < 0x8000_0000_0000_0000 && SignedAs(s, n, sign, z)
    {
      SignedIff(s, n);
      NothingParses();
    }
  }

  lemma NothingParses()
    ensures ParseI64([]) == None && ParseUsize([]) == None
  {}

  lemma UintAccepts(lib: Library, s: Text)
    ensures Accepts(lib, Uint, s) <==>
            exists n, plus, z :: n < 0x1_0000_0000_0000_0000 && UnsignedAs(s, n, plus, z)
  {
    hide ParseUsize, UnsignedAs;
    NothingParses();
    if Accepts(lib, Uint, s) {
      UnsignedIff(s, ParseUsize(s).value);
    }
    if n: nat, plus: bool, z: nat :| n < 0x1_0000_0000_0000_0000 && UnsignedAs(s, n, plus, z) {
      UnsignedIff(s, n);
    }
  }

  lemma BoolAccepts(lib: Library, s: Text)
    ensures Accepts(lib, Bool, s) <==> s == [49] || s == [48] || SpellsTrue(s) || SpellsFalse(s)
  {
    hide ParseBool, SpellsTrue, SpellsFalse;
    BoolIff(s);
    if ParseBool(s).Some? {
      var truth := ParseBool(s).value;
      assert ParseBool(s) == Some(truth) && (truth || !truth);
    }
    NoWord();
  }

  lemma NoWord()
    ensures !SpellsTrue([]) && !SpellsFalse([])
  {}

  /** The other types are what their parsers accept, which never includes the empty text. */
  lemma ParsedAccepts(lib: Library, s: Text)
    ensures Accepts(lib, Float, s) <==> s != [] && lib.float(s).Some?
    ensures Accepts(lib, Ipv4, s) <==> s != [] && lib.ipv4(s).Some?
    ensures Accepts(lib, Ipv6, s) <==> s != [] && lib.ipv6(s).Some?
    ensures Accepts(lib, Ip, s) <==> s != [] && lib.ip(s).Some?
    ensures Accepts(lib, Timestamp, s) <==> s != [] && lib.timestamp(s).Some?
    ensures Accepts(lib, Mac, s) <==> MacForm(s)
  {
    hide IsMac, MacForm;
    MacShape(s);
    assert MacForm([]) == false by { NoMac(); }
  }

  lemma NoMac()
    ensures !MacForm([])
  {}
}
