/** The parts of Go's `strconv` and `strings` the wire formats are built from. */
module Text {
  import opened Prelude

  // ---------------------------------------------------------------------
  // Decimal numbers
  // ---------------------------------------------------------------------

  predicate IsDigit(c: byte) {
    ZERO <= c <= NINE
  }

  predicate AllDigits(s: bytes) {
    forall i :: 0 <= i < |s| ==> IsDigit(s[i])
  }

  /** `strconv.FormatUint(n, 10)`. */
  function FormatUint(n: nat): (s: bytes)
    ensures s != [] && AllDigits(s)
    ensures n > 0 ==> s[0] != ZERO
  {
    if n < 10 then [ZERO + n] else FormatUint(n / 10) + [ZERO + n % 10]
  }

  function DigitsValue(s: bytes): nat
    requires AllDigits(s)
  {
    if s == [] then 0 else 10 * DigitsValue(s[..|s| - 1]) + (s[|s| - 1] - ZERO)
  }

  /** `strconv.ParseUint(s, 10, bits)`, with the largest value of that width. */
  function ParseUint(s: bytes, max: nat): Option<nat> {
    if s == [] || !AllDigits(s) || DigitsValue(s) > max then None else Some(DigitsValue(s))
  }

  lemma {:induction false} FormatValue(n: nat)
    ensures DigitsValue(FormatUint(n)) == n
  {
    if n >= 10 {
      FormatValue(n / 10);
      assert FormatUint(n)[..|FormatUint(n)| - 1] == FormatUint(n / 10);
    }
  }

  lemma FormatParse(n: nat, max: nat)
    requires n <= max
    ensures ParseUint(FormatUint(n), max) == Some(n)
  {
    FormatValue(n);
  }

  /** The digits are decimal, the most significant first. */
  lemma LastDigit(s: bytes, c: byte)
    requires AllDigits(s) && 0x30 <= c <= 0x39
    ensures DigitsValue([]) == 0
    ensures AllDigits(s + [c]) && DigitsValue(s + [c]) == 10 * DigitsValue(s) + (c - 0x30)
  {
    assert (s + [c])[..|s|] == s;
  }

  // ---------------------------------------------------------------------
  // Splitting and joining
  // ---------------------------------------------------------------------

  /** The index of the first `sep`, or |s| when there is none. */
  function IndexByte(s: bytes, sep: byte): (i: nat)
    ensures i <= |s|
    ensures sep !in s[..i]
    ensures i < |s| ==> s[i] == sep
  {
    if s == [] || s[0] == sep then 0
    else
      var i := 1 + IndexByte(s[1..], sep);
      assert s[..i] == [s[0]] + s[1..][..i - 1];
      i
  }

  /** `strings.Split(s, sep)` for a one-byte separator: never empty. */
  function Split(s: bytes, sep: byte): (items: seq<bytes>)
    ensures items != []
    decreases |s|
  {
    var i := IndexByte(s, sep);
    if i == |s| then [s] else [s[..i]] + Split(s[i + 1..], sep)
  }

  function Join(items: seq<bytes>, sep: byte): bytes
    requires items != []
  {
    if |items| == 1 then items[0] else items[0] + [sep] + Join(items[1..], sep)
  }

  lemma {:induction false} IndexByteAt(a: bytes, sep: byte, b: bytes)
    requires sep !in a
    ensures IndexByte(a + [sep] + b, sep) == |a|
  {
    if a != [] {
      IndexByteAt(a[1..], sep, b);
      assert (a + [sep] + b)[1..] == a[1..] + [sep] + b;
    }
  }

  lemma IndexByteNone(a: bytes, sep: byte)
    requires sep !in a
    ensures IndexByte(a, sep) == |a|
  {
  }

  lemma SplitFirst(a: bytes, sep: byte, b: bytes)
    requires sep !in a
    ensures Split(a + [sep] + b, sep) == [a] + Split(b, sep)
  {
    IndexByteAt(a, sep, b);
    var s := a + [sep] + b;
    assert s[..|a|] == a && s[|a| + 1..] == b;
  }

  lemma {:induction false} SplitJoin(items: seq<bytes>, sep: byte)
    requires items != []
    requires forall i :: 0 <= i < |items| ==> sep !in items[i]
    ensures Split(Join(items, sep), sep) == items
    decreases |items|
  {
    if |items| == 1 {
      IndexByteNone(items[0], sep);
    } else {
      SplitFirst(items[0], sep, Join(items[1..], sep));
      SplitJoin(items[1..], sep);
      assert items == [items[0]] + items[1..];
    }
  }

  /** Splitting cuts at every separator and loses nothing. */
  lemma {:induction false} JoinSplit(s: bytes, sep: byte)
    ensures Join(Split(s, sep), sep) == s
    ensures forall item <- Split(s, sep) :: sep !in item
    decreases |s|
  {
    var i := IndexByte(s, sep);
    if i == |s| {
      assert s[..i] == s;
    } else {
      JoinSplit(s[i + 1..], sep);
      var rest := Split(s[i + 1..], sep);
      assert ([s[..i]] + rest)[1..] == rest;
      assert s == s[..i] + [sep] + s[i + 1..];
    }
  }

  lemma {:induction false} JoinSnoc(items: seq<bytes>, x: bytes, sep: byte)
    requires items != []
    ensures Join(items + [x], sep) == Join(items, sep) + [sep] + x
    decreases |items|
  {
    var more := items + [x];
    if |items| == 1 {
      assert more[1..] == [x];
    } else {
      assert more[1..] == items[1..] + [x];
      JoinSnoc(items[1..], x, sep);
      assert Join(more, sep) == items[0] + [sep] + (Join(items[1..], sep) + [sep] + x);
    }
  }
}
