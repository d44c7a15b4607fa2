/** Octets, the machine word, and the few sequence operations the byte engines share. */
module Bytes {
  import opened Wrappers

  type Byte = b: int | 0 <= b < 256

  const SP: Byte := 32
  const LF: Byte := 10
  const CR: Byte := 13
  const PLUS: Byte := 43
  const ZERO: Byte := 48
  const NINE: Byte := 57

  /** `usize::MAX` on the 64-bit targets the server is built for. */
  const USIZE_MAX: nat := 0xFFFF_FFFF_FFFF_FFFF

  /** The index of the first occurrence of `x`, or the length when there is none. */
  function IndexOf<T(==)>(s: seq<T>, x: T): (i: nat)
    ensures i <= |s|
    ensures forall k :: 0 <= k < i ==> s[k] != x
    ensures i < |s| ==> s[i] == x
  {
    if s == [] || s[0] == x then 0 else 1 + IndexOf(s[1..], x)
  }

  lemma IndexOfAppend<T>(s: seq<T>, t: seq<T>, x: T)
    ensures IndexOf(s + t, x) == if IndexOf(s, x) < |s| then IndexOf(s, x) else |s| + IndexOf(t, x)
  {
    var i := IndexOf(s + t, x);
    assert i < |s| ==> s[i] == (s + t)[i];
    assert forall k :: 0 <= k < |s| ==> s[k] == (s + t)[k];
    assert forall k :: 0 <= k < |t| ==> t[k] == (s + t)[|s| + k];
  }

  /** Drop one CR at the end of a line. */
  function StripCr(line: seq<Byte>): seq<Byte> {
    if line != [] && line[|line| - 1] == CR then line[..|line| - 1] else line
  }

  function Flatten<T>(ss: seq<seq<T>>): seq<T> {
    if ss == [] then [] else ss[0] + Flatten(ss[1..])
  }

  lemma FlattenAppend<T>(a: seq<seq<T>>, b: seq<seq<T>>)
    ensures Flatten(a + b) == Flatten(a) + Flatten(b)
  {
    if a == [] {
      assert a + b == b;
    } else {
      assert (a + b)[1..] == a[1..] + b;
      FlattenAppend(a[1..], b);
    }
  }

  // ---- Splitting on a separator, and its inverse ----

  function Split<T(==)>(s: seq<T>, x: T): (parts: seq<seq<T>>)
    ensures parts != []
    decreases |s|
  {
    var i := IndexOf(s, x);
    if i == |s| then [s] else [s[..i]] + Split(s[i + 1..], x)
  }

  function Join<T>(parts: seq<seq<T>>, x: T): seq<T>
    requires parts != []
  {
    if |parts| == 1 then parts[0] else parts[0] + [x] + Join(parts[1..], x)
  }

  predicate FreeOf<T(==)>(parts: seq<seq<T>>, x: T) {
    forall k :: 0 <= k < |parts| ==> x !in parts[k]
  }

  lemma {:induction false} JoinSplit<T>(s: seq<T>, x: T)
    ensures Join(Split(s, x), x) == s && FreeOf(Split(s, x), x)
    decreases |s|
  {
    var i := IndexOf(s, x);
    if i < |s| {
      JoinSplit(s[i + 1..], x);
      var later := Split(s[i + 1..], x);
      assert Split(s, x) == [s[..i]] + later && ([s[..i]] + later)[1..] == later;
      hide Split, IndexOf;
      assert s == s[..i] + [x] + s[i + 1..];
    }
  }

  lemma {:induction false} SplitJoin<T>(parts: seq<seq<T>>, x: T)
    requires parts != [] && FreeOf(parts, x)
    ensures Split(Join(parts, x), x) == parts
  {
    var head, s := parts[0], Join(parts, x);
    if |parts| == 1 {
      assert s + [] == s;
      IndexOfAppend(s, [], x);
    } else {
      var tail := Join(parts[1..], x);
      assert s == head + ([x] + tail);
      IndexOfAppend(head, [x] + tail, x);
      assert s[..|head|] == head && s[|head| + 1..] == tail;
      SplitJoin(parts[1..], x);
    }
  }

  // ---- Decimal numbers: `str::parse::<usize>` and the decimal rendering ----

  predicate IsDigit(b: Byte) {
    ZERO <= b <= NINE
  }

  predicate AllDigits(s: seq<Byte>) {
    forall k :: 0 <= k < |s| ==> IsDigit(s[k])
  }

  /** The number a run of decimal digits denotes. */
  function Value(s: seq<Byte>): nat
    requires AllDigits(s)
  {
    if s == [] then 0 else 10 * Value(s[..|s| - 1]) + (s[|s| - 1] - ZERO)
  }

  /** An optional `+`, at least one digit, nothing else, and no overflow. */
  function ParseUsize(s: seq<Byte>): (r: Option<nat>) {
    var digits := if s != [] && s[0] == PLUS then s[1..] else s;
    if digits != [] && AllDigits(digits) && Value(digits) <= USIZE_MAX then Some(Value(digits)) else None
  }

  function Decimal(n: nat): (s: seq<Byte>)
    ensures s != [] && AllDigits(s)
  {
    var last: Byte := ZERO + n % 10;
    if n < 10 then [last] else Decimal(n / 10) + [last]
  }

  lemma {:induction false} DecimalValue(n: nat)
    ensures Value(Decimal(n)) == n
  {
    var s := Decimal(n);
    if n >= 10 {
      DecimalValue(n / 10);
      assert s[..|s| - 1] == Decimal(n / 10);
    }
  }

  lemma DecimalParses(n: nat)
    ensures ParseUsize(Decimal(n)) == if n <= USIZE_MAX then Some(n) else None
  {
    DecimalValue(n);
  }
}
