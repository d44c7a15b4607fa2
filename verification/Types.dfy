/** The scalar types a capture can declare, and which texts they accept. */
module Types {
  import opened Wrappers
  import opened Bytes

  /** One line, literal or value: ASCII, one byte a character. */
  type Text = seq<Byte>

  datatype TypeName = Int | Uint | Float | Bool | String | Ipv4 | Ipv6 | Ip | Mac | Timestamp

  /** The parsers the matcher calls but does not contain; a parsed value is named by a number. */
  datatype Library = Library(
    float: Text -> Option<int>, ipv4: Text -> Option<int>, ipv6: Text -> Option<int>, ip: Text -> Option<int>,
    timestamp: Text -> Option<int>, hash: Text -> Text)

  const MINUS: Byte := 45
  const COLON: Byte := 58
  const TRUE: Text := [116, 114, 117, 101]
  const FALSE: Text := [102, 97, 108, 115, 101]
  const YES: Text := [121, 101, 115]
  const ONE: Text := [49]
  const NIL: Text := [48]

  function LowerByte(b: Byte): Byte {
    if 65 <= b <= 90 then b + 32 else b
  }

  function Lower(s: Text): Text {
    seq(|s|, k requires 0 <= k < |s| => LowerByte(s[k]))
  }

  /** `str::parse::<i64>`: an optional sign, at least one digit, no overflow. */
  function ParseI64(s: Text): Option<int> {
    var negative := s != [] && s[0] == MINUS;
    var digits := if s != [] && (s[0] == MINUS || s[0] == PLUS) then s[1..] else s;
    if digits == [] || !AllDigits(digits) then None
    else
      var n: int := if negative then 0 - Value(digits) else Value(digits);
      if -0x8000_0000_0000_0000 <= n < 0x8000_0000_0000_0000 then Some(n) else None
  }

  /** `str::parse::<u64>`; the same as `usize` on the targets modelled. */
  function ParseU64(s: Text): Option<nat> {
    ParseUsize(s)
  }

  function ParseBool(s: Text): Option<bool> {
    var low := Lower(s);
    if low == TRUE || low == ONE then Some(true) else if low == FALSE || low == NIL then Some(false) else None
  }

  // ---- MAC addresses ----

  function HexDigit(b: Byte): Option<Byte> {
    if IsDigit(b) then Some(b - ZERO)
    else if 97 <= LowerByte(b) <= 102 then Some(LowerByte(b) - 87)
    else None
  }

  /** `u8::from_str_radix` on two characters: a leading `+` is a sign, not a digit. */
  function HexPair(a: Byte, b: Byte): Option<Byte> {
    if a == PLUS then HexDigit(b)
    else match (HexDigit(a), HexDigit(b))
      case (Some(x), Some(y)) => Some(16 * x + y)
      case _ => None
  }

  function MacSeparator(s: Text): Byte {
    if COLON in s then COLON else MINUS
  }

  predicate MacPart(part: Text) {
    |part| == 2 && HexPair(part[0], part[1]).Some?
  }

  predicate IsMac(s: Text) {
    var parts := Split(s, MacSeparator(s));
    |parts| == 6 && forall k :: 0 <= k < 6 ==> MacPart(parts[k])
  }

  function MacBytes(s: Text): seq<Byte>
    requires IsMac(s)
  {
    var parts := Split(s, MacSeparator(s));
    seq(6, k requires 0 <= k < 6 => HexPair(parts[k][0], parts[k][1]).value)
  }

  /** The parts of a candidate address, read one after the other into a six-byte buffer. */
  method ParseMac(s: Text) returns (r: Option<seq<Byte>>)
    ensures r == if IsMac(s) then Some(MacBytes(s)) else None
  {
    var parts := Split(s, MacSeparator(s));
    var out: seq<Byte> := [];
    for i := 0 to |parts|
      invariant |out| == i <= 6
      invariant forall k :: 0 <= k < i ==> MacPart(parts[k]) && out[k] == HexPair(parts[k][0], parts[k][1]).value
    {
      if i >= 6 || |parts[i]| != 2 {
        return None;
      }
      var byte := HexPair(parts[i][0], parts[i][1]);
      if byte.None? {
        return None;
      }
      out := out + [byte.value];
    }
    if |parts| == 6 {
      assert out == MacBytes(s);
      return Some(out);
    }
    return None;
  }

  predicate Pairs(parts: seq<Text>) {
    parts != [] && forall k :: 0 <= k < |parts| ==> |parts[k]| == 2
  }

  lemma {:induction false} JoinPairsLength(parts: seq<Text>, x: Byte)
    requires Pairs(parts)
    ensures |Join(parts, x)| == 3 * |parts| - 1
  {
    if |parts| > 1 {
      JoinPairsLength(parts[1..], x);
    }
  }

  /** What is `n` characters into `tail` is three further on behind a pair and a separator. */
  lemma BehindPair(pair: Text, x: Byte, tail: Text, n: nat)
    requires |pair| == 2 && n < |tail|
    ensures (pair + [x] + tail)[n + 3] == tail[n]
  {}

  lemma AfterPair(pair: Text, x: Byte, tail: Text)
    requires |pair| == 2
    ensures var s := pair + [x] + tail;
            s[0] == pair[0] && s[1] == pair[1] && s[2] == x
  {}

  lemma JoinMore(parts: seq<Text>, x: Byte)
    requires |parts| > 1
    ensures Join(parts, x) == parts[0] + [x] + Join(parts[1..], x)
  {}

  lemma {:induction false} JoinPairAt(parts: seq<Text>, x: Byte, k: nat)
    requires Pairs(parts) && k < |parts|
    ensures |Join(parts, x)| == 3 * |parts| - 1
    ensures Join(parts, x)[3 * k] == parts[k][0] && Join(parts, x)[3 * k + 1] == parts[k][1]
    ensures k + 1 < |parts| ==> Join(parts, x)[3 * k + 2] == x
  {
    JoinPairsLength(parts, x);
    if |parts| > 1 {
      hide Join;
      var tail := Join(parts[1..], x);
      JoinMore(parts, x);
      if k == 0 {
        AfterPair(parts[0], x, tail);
      } else {
        JoinPairAt(parts[1..], x, k - 1);
        assert parts[1..][k - 1] == parts[k];
        BehindPair(parts[0], x, tail, 3 * (k - 1));
        BehindPair(parts[0], x, tail, 3 * (k - 1) + 1);
        if k + 1 < |parts| {
          BehindPair(parts[0], x, tail, 3 * (k - 1) + 2);
        }
      }
    }
  }

  lemma JoinPairs(parts: seq<Text>, x: Byte)
    requires Pairs(parts)
    ensures var s := Join(parts, x);
            && |s| == 3 * |parts| - 1
            && (forall k :: 0 <= k < |parts| ==> s[3 * k] == parts[k][0] && s[3 * k + 1] == parts[k][1])
            && (forall k :: 0 <= k < |parts| - 1 ==> s[3 * k + 2] == x)
  {
    hide Join;
    JoinPairsLength(parts, x);
    forall k | 0 <= k < |parts|
      ensures Join(parts, x)[3 * k] == parts[k][0] && Join(parts, x)[3 * k + 1] == parts[k][1]
      ensures k + 1 < |parts| ==> Join(parts, x)[3 * k + 2] == x
    {
      JoinPairAt(parts, x, k);
    }
  }

  predicate MacForm(s: Text) {
    && |s| == 17
    && (s[2] == COLON || s[2] == MINUS)
    && (forall k :: 0 <= k < 5 ==> s[3 * k + 2] == s[2])
    && (forall k :: 0 <= k < 6 ==> HexPair(s[3 * k], s[3 * k + 1]).Some?)
  }

  lemma MacFormParts(s: Text) returns (parts: seq<Text>)
    requires MacForm(s)
    ensures |parts| == 6 && Join(parts, s[2]) == s
    ensures forall k :: 0 <= k < 6 ==> MacPart(parts[k])
  {
    parts := seq(6, k requires 0 <= k < 6 => [s[3 * k], s[3 * k + 1]]);
    JoinPairs(parts, s[2]);
    var j := Join(parts, s[2]);
    forall i | 0 <= i < 17
      ensures s[i] == j[i]
    {
      var k := i / 3;
      if i == 3 * k || i == 3 * k + 1 {
        assert j[3 * k] == parts[k][0] && j[3 * k + 1] == parts[k][1];
      } else {
        assert i == 3 * k + 2;
      }
    }
  }

  lemma {:induction false} JoinFree(parts: seq<Text>, x: Byte, y: Byte)
    requires parts != [] && FreeOf(parts, y) && x != y
    ensures y !in Join(parts, x)
  {
    if |parts| > 1 {
      JoinFree(parts[1..], x, y);
    }
  }

  lemma MacFormIsMac(s: Text)
    requires MacForm(s)
    ensures IsMac(s)
  {
    var parts := MacFormParts(s);
    assert FreeOf(parts, COLON) && FreeOf(parts, MINUS);
    if s[2] == MINUS {
      JoinFree(parts, MINUS, COLON);
    }
    SplitJoin(parts, s[2]);
  }

  /** The texts that are addresses, character by character: six pairs, and one separator throughout. */
  lemma MacShape(s: Text)
    ensures IsMac(s) <==> MacForm(s)
  {
    if IsMac(s) {
      var x := MacSeparator(s);
      JoinSplit(s, x);
      JoinPairs(Split(s, x), x);
    }
    if MacForm(s) {
      MacFormIsMac(s);
    }
  }

  /** `+f:00:00:00:00:00`. */
  const SIGNED_MAC: Text := [43, 102, 58, 48, 48, 58, 48, 48, 58, 48, 48, 58, 48, 48, 58, 48, 48]

  /** A pair may be a plus sign and one digit. */
  lemma SignedMac()
    ensures IsMac(SIGNED_MAC) && SIGNED_MAC[0] == PLUS
  {
    hide IsMac;
    forall k | 0 <= k < 5 ensures SIGNED_MAC[3 * k + 2] == COLON {
      assert k == 0 || k == 1 || k == 2 || k == 3 || k == 4;
    }
    forall k | 0 <= k < 6 ensures HexPair(SIGNED_MAC[3 * k], SIGNED_MAC[3 * k + 1]).Some? {
      assert k == 0 || k == 1 || k == 2 || k == 3 || k == 4 || k == 5;
    }
    MacShape(SIGNED_MAC);
  }

  // ---- Acceptance ----

  /** `type_matches`. */
  predicate TypeMatches(lib: Library, ty: TypeName, s: Text) {
    s != [] &&
    match ty
    case Int => ParseI64(s).Some?
    case Uint => ParseU64(s).Some?
    case Float => lib.float(s).Some?
    case Bool => ParseBool(s).Some?
    case String => true
    case Ipv4 => lib.ipv4(s).Some?
    case Ipv6 => lib.ipv6(s).Some?
    case Ip => lib.ip(s).Some?
    case Mac => IsMac(s)
    case Timestamp => lib.timestamp(s).Some?
  }

  /** What a capture takes: a text of its type, or nothing if it is a string. */
  predicate Accepts(lib: Library, ty: TypeName, s: Text) {
    if s == [] then ty == String else TypeMatches(lib, ty, s)
  }
}
