/** Texts in UTF-8, and finding one text in another by characters or by bytes. */
module Utf8 {
  import opened Bytes

  predicate OccursAt<T(==)>(needle: seq<T>, s: seq<T>, i: nat) {
    i + |needle| <= |s| && s[i..i + |needle|] == needle
  }

  /** `needle` occurs somewhere in `s`. */
  ghost predicate Occurs<T>(needle: seq<T>, s: seq<T>) {
    exists i: nat :: OccursAt(needle, s, i)
  }

  function Utf8(c: char): seq<Byte> {
    var n := c as int;
    if n < 0x80 then [n]
    else if n < 0x800 then [0xC0 + n / 64, 0x80 + n % 64]
    else if n < 0x1_0000 then [0xE0 + n / 4096, 0x80 + n / 64 % 64, 0x80 + n % 64]
    else [0xF0 + n / 26_2144, 0x80 + n / 4096 % 64, 0x80 + n / 64 % 64, 0x80 + n % 64]
  }

  function Encode(s: string): seq<Byte> {
    if s == "" then [] else Utf8(s[0]) + Encode(s[1..])
  }

  lemma {:induction false} EncodeAppend(a: string, b: string)
    ensures Encode(a + b) == Encode(a) + Encode(b)
  {
    hide Utf8;
    if a == "" {
      assert a + b == b;
    } else {
      assert (a + b)[1..] == a[1..] + b;
      EncodeAppend(a[1..], b);
    }
  }

  /** A text that occurs also occurs byte for byte. */
  lemma OccursInBytes(needle: string, s: string)
    requires Occurs(needle, s)
    ensures Occurs(Encode(needle), Encode(s))
  {
    var i: nat :| OccursAt(needle, s, i);
    var before, after := s[..i], s[i + |needle|..];
    assert s == before + needle + after;
    EncodeAppend(before + needle, after);
    EncodeAppend(before, needle);
    hide Encode;
    assert OccursAt(Encode(needle), Encode(s), |Encode(before)|);
  }

  // ---- Reading UTF-8 ----

  /** The low bits of a byte, read as a number. */
  function Low(b: Byte, size: nat): nat
    requires size > 0
  {
    b % size
  }

  /** The character a sequence of bytes stands for. */
  function CodePoint(b: seq<Byte>): nat
    requires 1 <= |b| <= 4
  {
    if |b| == 1 then b[0]
    else if |b| == 2 then Low(b[0], 32) * 64 + Low(b[1], 64)
    else if |b| == 3 then Low(b[0], 16) * 4096 + Low(b[1], 64) * 64 + Low(b[2], 64)
    else Low(b[0], 8) * 26_2144 + Low(b[1], 64) * 4096 + Low(b[2], 64) * 64 + Low(b[3], 64)
  }

  /** The byte is not one that continues a character. */
  predicate Leads(b: Byte) {
    b < 0x80 || b >= 0xC0
  }

  /** How many bytes a character has, told by its first. */
  function Width(b: Byte): nat {
    if b < 0x80 then 1 else if b < 0xE0 then 2 else if b < 0xF0 then 3 else 4
  }

  lemma SixBits(n: nat)
    ensures n == n / 64 * 64 + n % 64 && n / 64 / 64 == n / 4096 && n / 4096 / 64 == n / 26_2144
  {}

  lemma Utf8Two(c: char)
    requires 0x80 <= c as int < 0x800
    ensures Utf8Well(c)
  {
    var n := c as int;
    SixBits(n);
    assert Low(0xC0 + n / 64, 32) == n / 64 && Low(0x80 + n % 64, 64) == n % 64;
  }

  lemma Utf8Three(c: char)
    requires 0x800 <= c as int < 0x1_0000
    ensures Utf8Well(c)
  {
    var n := c as int;
    SixBits(n);
    SixBits(n / 64);
    assert Low(0xE0 + n / 4096, 16) == n / 4096;
    assert Low(0x80 + n / 64 % 64, 64) == n / 64 % 64 && Low(0x80 + n % 64, 64) == n % 64;
  }

  lemma FourBytes(n: nat)
    requires 0x1_0000 <= n < 0x11_0000
    ensures n == n / 26_2144 * 26_2144 + n / 4096 % 64 * 4096 + n / 64 % 64 * 64 + n % 64 && n / 26_2144 < 5
  {
    SixBits(n);
    SixBits(n / 64);
    SixBits(n / 4096);
  }

  lemma Utf8Four(c: char)
    requires 0x1_0000 <= c as int
    ensures Utf8Well(c)
  {
    var n := c as int;
    FourBytes(n);
    var a, x, y, z := n / 26_2144, n / 4096 % 64, n / 64 % 64, n % 64;
    assert Utf8(c) == [0xF0 + a, 0x80 + x, 0x80 + y, 0x80 + z];
    LowBits(a, x, y, z);
  }

  lemma LowBits(a: nat, x: nat, y: nat, z: nat)
    requires a < 8 && x < 64 && y < 64 && z < 64
    ensures Low(0xF0 + a, 8) == a && Low(0x80 + x, 64) == x && Low(0x80 + y, 64) == y && Low(0x80 + z, 64) == z
  {}

  /** The bytes of a character read back as it, the first tells how many they are, and only it leads. */
  predicate Utf8Well(c: char) {
    var b := Utf8(c);
    && 1 <= |b| <= 4 && CodePoint(b) == c as int && Leads(b[0]) && |b| == Width(b[0])
    && forall k :: 1 <= k < |b| ==> !Leads(b[k])
  }

  lemma Utf8Reads(c: char)
    ensures Utf8Well(c)
  {
    if 0x80 <= c as int < 0x800 {
      Utf8Two(c);
    } else if 0x800 <= c as int < 0x1_0000 {
      Utf8Three(c);
    } else if 0x1_0000 <= c as int {
      Utf8Four(c);
    }
  }

  lemma Front(a: seq<Byte>, x: seq<Byte>)
    ensures (a + x)[..|a|] == a && (a + x)[|a|..] == x
    ensures a != [] ==> (a + x)[0] == a[0]
  {}

  lemma Utf8PrefixFree(c: char, d: char, x: seq<Byte>, y: seq<Byte>)
    requires Utf8(c) + x == Utf8(d) + y
    ensures c == d && x == y
  {
    Utf8Reads(c);
    Utf8Reads(d);
    hide Utf8, CodePoint, Width;
    Front(Utf8(c), x);
    Front(Utf8(d), y);
  }

  lemma EncodeFirst(s: string)
    requires s != ""
    ensures Encode(s) == Utf8(s[0]) + Encode(s[1..]) && Utf8(s[0]) != []
  {
    Utf8Reads(s[0]);
    hide Utf8;
  }

  lemma Regroup(a: seq<Byte>, b: seq<Byte>, x: seq<Byte>)
    ensures a + b + x == a + (b + x)
  {}

  /** Bytes that begin with the bytes of a text come from characters that begin with it. */
  lemma {:induction false} EncodedPrefix(needle: string, s: string, x: seq<Byte>)
    requires Encode(s) == Encode(needle) + x
    ensures needle <= s
  {
    hide Encode, Utf8;
    if needle != "" {
      EncodeFirst(needle);
      if s == "" {
        NoBytes();
        assert false;
      } else {
        EncodeFirst(s);
        Regroup(Utf8(needle[0]), Encode(needle[1..]), x);
        Utf8PrefixFree(needle[0], s[0], Encode(needle[1..]) + x, Encode(s[1..]));
        EncodedPrefix(needle[1..], s[1..], x);
        assert needle == [needle[0]] + needle[1..] && s == [s[0]] + s[1..];
      }
    }
  }

  lemma NoBytes()
    ensures Encode("") == []
  {}

  /** A byte that leads begins a character. */
  lemma {:induction false} LeadsAt(s: string, i: nat) returns (k: nat)
    requires i < |Encode(s)| && Leads(Encode(s)[i])
    ensures k <= |s| && i == |Encode(s[..k])|
  {
    k := 0;
    hide Encode, Utf8, Leads;
    NoBytes();
    EncodeFirst(s);
    var first, later := Utf8(s[0]), Encode(s[1..]);
    if i < |first| {
      assert Encode(s)[i] == first[i];
      OnlyFirstLeads(s[0], i);
      assert s[..0] == "";
    } else {
      assert Encode(s)[i] == later[i - |first|];
      k := LeadsAt(s[1..], i - |first|);
      k := k + 1;
      assert s[..k][0] == s[0] && s[..k][1..] == s[1..][..k - 1];
      EncodeFirst(s[..k]);
    }
  }

  lemma OnlyFirstLeads(c: char, i: nat)
    requires i < |Utf8(c)| && Leads(Utf8(c)[i])
    ensures i == 0
  {
    Utf8Reads(c);
    hide Utf8, CodePoint, Width;
  }

  /** A text occurs exactly when its bytes do. */
  lemma OccursIff(needle: string, s: string)
    requires needle != ""
    ensures Occurs(Encode(needle), Encode(s)) <==> Occurs(needle, s)
  {
    hide Encode;
    if Occurs(needle, s) {
      OccursInBytes(needle, s);
    }
    if Occurs(Encode(needle), Encode(s)) {
      var i: nat :| OccursAt(Encode(needle), Encode(s), i);
      OccursHere(needle, s, i);
    }
  }

  lemma OccursHere(needle: string, s: string, i: nat)
    requires needle != "" && OccursAt(Encode(needle), Encode(s), i)
    ensures Occurs(needle, s)
  {
    hide Encode;
    FirstLeads(needle);
    assert Encode(s)[i] == Encode(s)[i..i + |Encode(needle)|][0];
    var k := LeadsAt(s, i);
    var before, here := s[..k], s[k..];
    assert s == before + here;
    EncodeAppend(before, here);
    SliceBehind(Encode(before), Encode(here), |Encode(needle)|);
    EncodedPrefix(needle, here, Encode(here)[|Encode(needle)|..]);
    assert s[k..k + |needle|] == here[..|needle|] == needle;
    assert OccursAt(needle, s, k);
  }

  lemma SliceBehind(a: seq<Byte>, b: seq<Byte>, n: nat)
    requires |a| + n <= |a + b|
    ensures (a + b)[|a|..|a| + n] == b[..n] && b == b[..n] + b[n..]
  {}

  lemma FirstLeads(needle: string)
    requires needle != ""
    ensures Encode(needle) != [] && Leads(Encode(needle)[0])
  {
    hide Encode, Utf8;
    EncodeFirst(needle);
    LeadsFirst(needle[0]);
    Front(Utf8(needle[0]), Encode(needle[1..]));
  }

  lemma LeadsFirst(c: char)
    ensures Utf8(c) != [] && Leads(Utf8(c)[0])
  {
    Utf8Reads(c);
  }
}
