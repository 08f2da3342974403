/** The Kotlin string operations main relies on: `split(" ")`, `toIntOrNull()`
    and `lowercase()`, on strings of chars. */
module Text {
  import opened Wrappers

  const IntMin: int := -0x8000_0000
  const IntMax: int := 0x7fff_ffff

  /** Number of occurrences of `c` in `s`. */
  function Count(s: string, c: char): (n: nat)
    ensures n <= |s|
    ensures n == 0 <==> c !in s
  {
    if s == [] then 0 else (if s[0] == c then 1 else 0) + Count(s[1..], c)
  }

  /** `s.split(sep)`: every occurrence of the delimiter splits, empty pieces
      (leading, inner and trailing) are kept, so there is always one piece more
      than there are delimiters. */
  function Split(s: string, sep: char): (parts: seq<string>)
    ensures |parts| == Count(s, sep) + 1
    ensures forall i :: 0 <= i < |parts| ==> sep !in parts[i]
  {
    if s == [] then [""]
    else
      var rest := Split(s[1..], sep);
      if s[0] == sep then [""] + rest
      else [[s[0]] + rest[0]] + rest[1..]
  }

  /** The inverse of Split: the pieces with the delimiter between them. */
  function Join(parts: seq<string>, sep: char): string
    requires |parts| >= 1
  {
    if |parts| == 1 then parts[0] else parts[0] + [sep] + Join(parts[1..], sep)
  }

  lemma {:induction false} JoinSplit(s: string, sep: char)
    ensures Join(Split(s, sep), sep) == s
  {
    if s != [] {
      var rest := Split(s[1..], sep);
      JoinSplit(s[1..], sep);
      if s[0] == sep {
        assert ([""] + rest)[1..] == rest;
      } else {
        var parts := [[s[0]] + rest[0]] + rest[1..];
        if |rest| > 1 {
          assert parts[1..] == rest[1..];
          assert Join(rest, sep) == rest[0] + [sep] + Join(rest[1..], sep);
        }
      }
    }
  }

  /** Splitting text that starts with a delimiter-free piece. */
  lemma {:induction false} SplitAfterPiece(p: string, t: string, sep: char)
    requires sep !in p
    ensures Split(p + t, sep) == [p + Split(t, sep)[0]] + Split(t, sep)[1..]
  {
    if p != [] {
      var tail := Split(t, sep);
      SplitAfterPiece(p[1..], t, sep);
      assert (p + t)[0] == p[0] && p[0] != sep;
      assert (p + t)[1..] == p[1..] + t;
      var rest := Split(p[1..] + t, sep);
      assert rest[0] == p[1..] + tail[0] && rest[1..] == tail[1..];
      assert Split(p + t, sep) == [[p[0]] + rest[0]] + rest[1..];
      assert [p[0]] + (p[1..] + tail[0]) == p + tail[0];
    } else {
      var tail := Split(t, sep);
      assert p + t == t && p + tail[0] == tail[0];
      assert tail == [tail[0]] + tail[1..];
    }
  }

  lemma {:induction false} SplitJoin(parts: seq<string>, sep: char)
    requires |parts| >= 1
    requires forall i :: 0 <= i < |parts| ==> sep !in parts[i]
    ensures Split(Join(parts, sep), sep) == parts
  {
    if |parts| == 1 {
      SplitAfterPiece(parts[0], "", sep);
      assert parts[0] + "" == parts[0];
    } else {
      var tail := Join(parts[1..], sep);
      SplitJoin(parts[1..], sep);
      SplitAfterPiece(parts[0], [sep] + tail, sep);
      assert ([sep] + tail)[1..] == tail;
      assert parts[0] + [sep] + tail == parts[0] + ([sep] + tail);
      assert Split([sep] + tail, sep) == [""] + parts[1..];
      assert parts[0] + "" == parts[0];
    }
  }

  predicate IsDigit(c: char) { '0' <= c <= '9' }

  predicate AllDigits(s: string) {
    forall i :: 0 <= i < |s| ==> IsDigit(s[i])
  }

  /** The value of a run of decimal digits, most significant first. */
  function DigitsValue(s: string): nat
    requires AllDigits(s)
  {
    if s == [] then 0 else 10 * DigitsValue(s[..|s| - 1]) + (s[|s| - 1] as int - '0' as int)
  }

  /** `toIntOrNull()`: an optional `-` or `+` sign followed by at least one
      decimal digit, whose value must fit in a 32-bit Int; anything else is
      null. */
  function ParseInt(s: string): (r: Option<int>)
    ensures r.Some? ==> IntMin <= r.value <= IntMax
    ensures r.Some? ==> s != [] && (s[0] == '-' || s[0] == '+' ==> |s| >= 2)
    ensures r.Some? && s != [] && s[0] == '-' ==> AllDigits(s[1..]) && r.value == 0 - DigitsValue(s[1..])
    ensures r.Some? && s != [] && s[0] == '+' ==> AllDigits(s[1..]) && r.value == DigitsValue(s[1..])
    ensures r.Some? && s != [] && s[0] != '-' && s[0] != '+' ==> AllDigits(s) && r.value == DigitsValue(s)
    ensures |s| >= 2 && s[0] == '-' && AllDigits(s[1..]) && DigitsValue(s[1..]) <= -IntMin ==>
      r == Some(0 - DigitsValue(s[1..]))
    ensures |s| >= 2 && s[0] == '+' && AllDigits(s[1..]) && DigitsValue(s[1..]) <= IntMax ==>
      r == Some(DigitsValue(s[1..]))
    ensures s != [] && AllDigits(s) && DigitsValue(s) <= IntMax ==> r == Some(DigitsValue(s))
  {
    if s == [] then None
    else if s[0] == '-' || s[0] == '+' then
      var digits := s[1..];
      if digits == [] || !AllDigits(digits) then None
      else
        var n: int := DigitsValue(digits);
        var v := if s[0] == '-' then -n else n;
        if IntMin <= v <= IntMax then Some(v) else None
    else if AllDigits(s) && DigitsValue(s) <= IntMax then Some(DigitsValue(s))
    else None
  }

  /** Decimal rendering of a natural number, without leading zeros. */
  function Decimal(n: nat): (s: string)
    ensures s != [] && AllDigits(s)
  {
    var last := ['0' + (n % 10) as char];
    if n < 10 then last else Decimal(n / 10) + last
  }

  lemma {:induction false} DecimalValue(n: nat)
    ensures DigitsValue(Decimal(n)) == n
  {
    var s := Decimal(n);
    if n >= 10 {
      DecimalValue(n / 10);
      assert s[..|s| - 1] == Decimal(n / 10);
    }
  }

  /** `Int.toString()`. */
  function Render(n: int): string {
    if n < 0 then "-" + Decimal(-n) else Decimal(n)
  }

  /** Every 32-bit Int reads back from its decimal rendering. */
  lemma ParseRender(n: int)
    requires IntMin <= n <= IntMax
    ensures ParseInt(Render(n)) == Some(n)
  {
    DecimalValue(if n < 0 then -n else n);
    if n < 0 {
      assert Render(n)[1..] == Decimal(-n);
    }
  }

  /** `Char.lowercaseChar()` on ASCII letters. */
  function LowerChar(c: char): char {
    if 'A' <= c <= 'Z' then (c as int + 32) as char else c
  }

  /** `lowercase()`, letter by letter. */
  function LowerCase(s: string): (r: string)
    ensures |r| == |s|
    ensures forall i :: 0 <= i < |s| ==> r[i] == LowerChar(s[i])
  {
    seq(|s|, i requires 0 <= i < |s| => LowerChar(s[i]))
  }
}
