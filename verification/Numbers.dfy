/** Numbers to text and back (lib/src/stdlib): utoa, itoa, strtoul and strtol, with an int and a long of 32 bits. */
module Numbers {

  const U32 := 0x1_0000_0000
  const INT_MIN := -0x8000_0000
  const INT_MAX := 0x7fff_ffff
  const NUL := '\0'

  // ---------------------------------------------------------------- digits

  function DigitChar(d: nat): (c: char)
    requires d < 36
  {
    if d < 10 then '0' + d as char else 'a' + (d - 10) as char
  }

  /** The value of a digit, of either case; none for any other character. */
  function DigitOf(c: char): (d: int)
    ensures -1 <= d < 36
  {
    if '0' <= c <= '9' then c as int - '0' as int
    else if 'A' <= c <= 'Z' then c as int - 'A' as int + 10
    else if 'a' <= c <= 'z' then c as int - 'a' as int + 10
    else -1
  }

  predicate IsDigit(c: char, b: nat) {
    0 <= DigitOf(c) < b
  }

  lemma DigitRoundTrip(d: nat)
    requires d < 36
    ensures DigitOf(DigitChar(d)) == d && DigitChar(d) != NUL && !IsSpace(DigitChar(d))
    ensures DigitChar(d) != '-' && DigitChar(d) != '+'
  {
  }

  /** The value of digits in base b. */
  function ValueOf(s: seq<char>, b: nat): (v: nat)
    requires b >= 2 && forall i :: 0 <= i < |s| ==> IsDigit(s[i], b)
  {
    if s == [] then 0
    else
      assert IsDigit(s[|s| - 1], b);
      Append(ValueOf(s[..|s| - 1], b), b, DigitOf(s[|s| - 1]))
  }

  /** A number with one more digit. */
  function Append(v: nat, b: nat, d: nat): (r: nat)
    ensures b >= 1 ==> r >= v
  {
    Times(v, b);
    v * b + d
  }

  lemma Times(v: nat, b: nat)
    ensures v * b >= 0 && (b >= 1 ==> v * b >= v)
  {
    if b >= 1 {
      assert v * b == v * (b - 1) + v;
    }
  }

  lemma DivMod(v: nat, b: nat)
    requires b >= 2
    ensures 0 <= v % b < b && Append(v / b, b, v % b) == v && (v >= b ==> v / b < v) && v / b >= 0
  {
    var q, r := v / b, v % b;
    assert q * b + r == v;
    Twice(q, b);
  }

  lemma Twice(q: nat, b: nat)
    requires b >= 2
    ensures q * b >= 2 * q
  {
    assert q * b == q * (b - 2) + 2 * q;
    Times(q, b - 2);
  }

  /** The digits of v in base b, without leading zeros. */
  function Numeral(v: nat, b: nat): (s: seq<char>)
    requires 2 <= b <= 36
    ensures |s| > 0
    decreases v
  {
    if v < b then [DigitChar(v)] else Numeral(v / b, b) + [DigitChar(v % b)]
  }

  lemma {:induction false} NumeralDigits(v: nat, b: nat)
    requires 2 <= b <= 36
    ensures forall i :: 0 <= i < |Numeral(v, b)| ==> IsDigit(Numeral(v, b)[i], b) && Plain(Numeral(v, b)[i])
    decreases v
  {
    if v < b {
      DigitRoundTrip(v);
    } else {
      DivMod(v, b);
      DigitRoundTrip(v % b);
      NumeralDigits(v / b, b);
    }
  }

  lemma {:induction false} NumeralValue(v: nat, b: nat)
    requires 2 <= b <= 36
    ensures forall i :: 0 <= i < |Numeral(v, b)| ==> IsDigit(Numeral(v, b)[i], b)
    ensures ValueOf(Numeral(v, b), b) == v
    decreases v
  {
    NumeralDigits(v, b);
    DivMod(v, b);
    var s := Numeral(v, b);
    if v < b {
      DigitRoundTrip(v);
      assert s[..0] == [];
    } else {
      DigitRoundTrip(v % b);
      NumeralValue(v / b, b);
      assert s[..|s| - 1] == Numeral(v / b, b);
    }
  }

  /** No character but the ten digits and the small letters, and no zero before another digit. */
  lemma {:induction false} NumeralCanonical(v: nat, b: nat)
    requires 2 <= b <= 36
    ensures forall i :: 0 <= i < |Numeral(v, b)| ==> '0' <= Numeral(v, b)[i] <= '9' || 'a' <= Numeral(v, b)[i] <= 'z'
    ensures Numeral(v, b)[0] == '0' ==> Numeral(v, b) == "0" && v == 0
    decreases v
  {
    DivMod(v, b);
    if v >= b {
      NumeralCanonical(v / b, b);
      assert Numeral(v, b)[0] == Numeral(v / b, b)[0];
      NotZero(v, b);
    }
  }

  lemma NotZero(v: nat, b: nat)
    requires b >= 2 && v >= b
    ensures v / b > 0
  {
    DivMod(v, b);
  }

  /** Neither the end of a string, nor white space, nor a sign. */
  predicate Plain(c: char) {
    c != NUL && !IsSpace(c) && c != '-' && c != '+'
  }

  predicate IsSpace(c: char) {
    c == ' ' || c == '\t' || c == '\n'
  }

  // ---------------------------------------------------------------- utoa and itoa

  /** What str holds from `at` on, up to the first n characters. */
  ghost predicate Holds(str: array<char>, at: nat, s: seq<char>)
    reads str
  {
    at + |s| <= str.Length && forall k :: at <= k < at + |s| ==> str[k] == s[k - at]
  }

  /** The second loop of utoa. */
  method ReverseInPlace(str: array<char>, at: nat, n: nat)
    requires at + n <= str.Length
    modifies str
    ensures forall k :: 0 <= k < str.Length ==>
              str[k] == if at <= k < at + n then old(str[at + n - 1 - (k - at)]) else old(str[k])
  {
    var j, i := 0, n - 1;
    while j < i
      invariant 0 <= j && i + j == n - 1 && (n == 0 || i >= -1)
      invariant forall k :: 0 <= k < str.Length ==>
                  str[k] == if at <= k < at + n && (k < at + j || k > at + i) then old(str[at + n - 1 - (k - at)]) else old(str[k])
    {
      str[at + j], str[at + i] := str[at + i], str[at + j];
      j, i := j + 1, i - 1;
    }
  }

  lemma LastDigit(v: nat, b: nat)
    requires 2 <= b <= 36
    ensures v % b < 36 && var s := Numeral(v, b); s[|s| - 1] == DigitChar(v % b)
    ensures v >= b ==> Numeral(v / b, b) == Numeral(v, b)[..|Numeral(v, b)| - 1]
    ensures v < b ==> |Numeral(v, b)| == 1
    ensures (v / b != 0) <==> v >= b
  {
    DivMod(v, b);
  }

  /** The first loop of utoa: the digits, least significant first. */
  method DigitsBackward(value: nat, str: array<char>, at: nat, base: nat) returns (i: nat)
    requires 2 <= base <= 36 && at + |Numeral(value, base)| < str.Length
    modifies str
    ensures i == |Numeral(value, base)|
    ensures forall k :: 0 <= k < str.Length ==>
              str[k] == if at <= k < at + i then Numeral(value, base)[i - 1 - (k - at)] else old(str[k])
  {
    var v: nat := value;
    ghost var out := Numeral(value, base);
    i := 0;
    var more := true;
    while more
      invariant 0 <= i <= |out| && (more <==> i < |out|)
      invariant more ==> Numeral(v, base) == out[..|out| - i]
      invariant forall k :: 0 <= k < str.Length ==>
                  str[k] == if at <= k < at + i then out[|out| - 1 - (k - at)] else old(str[k])
      decreases |out| - i
    {
      hide Numeral;
      LastDigit(v, base);
      var remainder := v % base;
      str[at + i] := DigitChar(remainder);
      i := i + 1;
      v := v / base;
      more := v != 0;
    }
  }

  /** utoa into str from `at` on: the digits of the value, most significant first, and a NUL. */
  method Utoa(value: nat, str: array<char>, at: nat, base: int) returns (ok: bool)
    requires value < U32 && at < str.Length
    requires 2 <= base <= 36 ==> at + |Numeral(value, base)| < str.Length
    modifies str
    ensures ok <==> 2 <= base <= 36
    ensures ok ==> Holds(str, at, Numeral(value, base) + [NUL])
    ensures !ok ==> str[at] == NUL
    ensures forall k :: 0 <= k < str.Length && !(at <= k <= at + (if ok then |Numeral(value, base)| else 0)) ==>
              str[k] == old(str[k])
  {
    hide Numeral;
    if base < 2 || base > 36 {
      str[at] := NUL;
      return false;
    }
    var i := DigitsBackward(value, str, at, base);
    str[at + i] := NUL;
    ReverseInPlace(str, at, i);
    ok := true;
  }

  /** What itoa writes: in base ten a sign and the magnitude, in any other base the digits of the value as unsigned. */
  function Itoa(value: int, base: nat): seq<char>
    requires INT_MIN <= value <= INT_MAX && 2 <= base <= 36
  {
    if base == 10 && value < 0 then ['-'] + Numeral(-value, base)
    else Numeral(Unsigned(value), base)
  }

  /** An int as an unsigned int. */
  function Unsigned(value: int): (u: nat)
    requires INT_MIN <= value <= -INT_MIN
    ensures u < U32 && u == if value < 0 then value + U32 else value
  {
    value % U32
  }

  method ItoaInto(value: int, str: array<char>, base: int) returns (ok: bool)
    requires INT_MIN <= value <= INT_MAX && str.Length > 0
    requires 2 <= base <= 36 ==> |Itoa(value, base)| < str.Length
    modifies str
    ensures ok <==> 2 <= base <= 36
    ensures ok ==> Holds(str, 0, Itoa(value, base) + [NUL])
    ensures !ok ==> str[0] == NUL
  {
    hide Numeral;
    if base < 2 || base > 36 {
      str[0] := NUL;
      return false;
    }
    if base == 10 && value < 0 {
      str[0] := '-';
      var _ := Utoa(Unsigned(-value), str, 1, base);
    } else {
      var _ := Utoa(Unsigned(value), str, 0, base);
    }
    ok := true;
  }

  // ---------------------------------------------------------------- strtoul and strtol

  /** A C string: its first NUL is its last character. */
  predicate CString(s: seq<char>) {
    |s| > 0 && s[|s| - 1] == NUL && forall i :: 0 <= i < |s| - 1 ==> s[i] != NUL
  }

  /** How many characters from i on are white space. */
  function Spaces(s: seq<char>, i: nat): (n: nat)
    requires CString(s) && i < |s|
    ensures i + n < |s| && !IsSpace(s[i + n])
    decreases |s| - i
  {
    if IsSpace(s[i]) then Spaces(s, i + 1) + 1 else 0
  }

  /** How many characters from i on are digits in base b. */
  function Run(s: seq<char>, i: nat, b: nat): (n: nat)
    requires CString(s) && i < |s| && b <= 36
    ensures i + n < |s| && !IsDigit(s[i + n], b) && forall j :: i <= j < i + n ==> IsDigit(s[j], b)
    decreases |s| - i
  {
    if IsDigit(s[i], b) then Run(s, i + 1, b) + 1 else 0
  }

  /** Where the digits begin, whether there is a minus sign, and the base. */
  datatype Head = Head(start: nat, neg: bool, base: nat)

  predicate GoodBase(base: int) {
    base == 0 || 2 <= base <= 36
  }

  function HeadOf(s: seq<char>, base: int): (h: Head)
    requires CString(s) && GoodBase(base)
    ensures h.start < |s| && 2 <= h.base <= 36
  {
    var i := Spaces(s, 0);
    var signed := s[i] == '-' || s[i] == '+';
    var j := if signed then i + 1 else i;
    var hex := (base == 0 || base == 16) && s[j] == '0' && (s[j + 1] == 'x' || s[j + 1] == 'X');
    Head(if hex then j + 2 else j, s[i] == '-',
         if hex then 16 else if base != 0 then base else if s[j] == '0' then 8 else 10)
  }

  /** The digits that count, and where they end: where the number ends, or at the beginning if there are none. */
  function DigitsAt(s: seq<char>, h: Head): (d: seq<char>)
    requires CString(s) && h.start < |s| && 2 <= h.base <= 36
    ensures forall i :: 0 <= i < |d| ==> IsDigit(d[i], h.base)
  {
    s[h.start..h.start + Run(s, h.start, h.base)]
  }

  function EndOf(s: seq<char>, h: Head): nat
    requires CString(s) && h.start < |s| && 2 <= h.base <= 36
  {
    if Run(s, h.start, h.base) == 0 then 0 else h.start + Run(s, h.start, h.base)
  }

  function Magnitude(s: seq<char>, h: Head): nat
    requires CString(s) && h.start < |s| && 2 <= h.base <= 36
  {
    ValueOf(DigitsAt(s, h), h.base)
  }

  /** The overflow test of both functions is exact: one more digit passes the limit just if it says so. */
  lemma Cutoff(acc: nat, c: nat, b: nat, limit: nat)
    requires b >= 2 && c < b
    ensures Append(acc, b, c) > limit <==> acc > limit / b || (acc == limit / b && c > limit % b)
  {
    DivMod(limit, b);
    var q := limit / b;
    if acc > q {
      MulMono(q + 1, acc, b);
      assert (q + 1) * b == q * b + b;
    } else if acc < q {
      MulMono(acc + 1, q, b);
      assert (acc + 1) * b == acc * b + b;
    }
  }

  lemma MulMono(x: nat, y: nat, b: nat)
    requires x <= y
    ensures x * b <= y * b
  {
  }

  /** The head that both functions read: white space, a sign, and a prefix that may fix the base. */
  method ReadHead(s: seq<char>, base: int) returns (start: nat, neg: bool, b: nat)
    requires CString(s) && GoodBase(base)
    ensures Head(start, neg, b) == HeadOf(s, base)
  {
    var i := 0;
    var c := s[i];
    while IsSpace(c)
      invariant i < |s| && c == s[i] && Spaces(s, 0) == i + Spaces(s, i)
      decreases |s| - i
    {
      i := i + 1;
      c := s[i];
    }
    neg := false;
    if c == '-' {
      neg := true;
      i := i + 1;
    } else if c == '+' {
      i := i + 1;
    }
    c := s[i];
    b := base;
    if (base == 0 || base == 16) && c == '0' && (s[i + 1] == 'x' || s[i + 1] == 'X') {
      i := i + 2;
      b := 16;
    }
    if b == 0 {
      b := if c == '0' then 8 else 10;
    }
    start := i;
  }

  lemma NoValue(s: seq<char>, b: nat)
    requires b >= 2 && s == []
    ensures ValueOf(s, b) == 0
  {
  }

  function Digit(c: char, b: nat): (d: nat)
    requires IsDigit(c, b)
    ensures d < b
  {
    DigitOf(c)
  }

  lemma NextValue(s: seq<char>, start: nat, end: nat, b: nat)
    requires b >= 2 && start <= end < |s| && IsDigit(s[end], b) && forall j :: start <= j < end ==> IsDigit(s[j], b)
    ensures ValueOf(s[start..end + 1], b) == Append(ValueOf(s[start..end], b), b, Digit(s[end], b))
    ensures ValueOf(s[start..end + 1], b) >= ValueOf(s[start..end], b)
  {
    var d := s[start..end + 1];
    assert d[..|d| - 1] == s[start..end];
  }

  /** The loop of both: the value so far while it is within the limit, and -1 once it was passed. */
  method Accumulate(s: seq<char>, start: nat, b: nat, limit: nat) returns (acc: nat, any: int, end: nat)
    requires CString(s) && start < |s| && 2 <= b <= 36 && limit < U32
    ensures end == start + Run(s, start, b) && (any == 0 <==> end == start)
    ensures var v := Magnitude(s, Head(start, false, b)); if v > limit then any < 0 else any >= 0 && acc == v
  {
    hide ValueOf, Append, DigitOf, IsDigit;
    var cutoff, cutlim := limit / b, limit % b;
    acc, any, end := 0, 0, start;
    NoValue(s[start..start], b);
    var more := IsDigit(s[end], b);
    while more
      invariant start <= end < |s| && (more <==> IsDigit(s[end], b))
      invariant Run(s, start, b) == end - start + Run(s, end, b)
      invariant forall j :: start <= j < end ==> IsDigit(s[j], b)
      invariant any == 0 <==> end == start
      invariant var v := ValueOf(s[start..end], b); if v > limit then any < 0 else any >= 0 && acc == v
      decreases |s| - end
    {
      var c := Digit(s[end], b);
      NextValue(s, start, end, b);
      if any >= 0 {
        Cutoff(acc, c, b, limit);
      }
      if any < 0 || acc > cutoff || (acc == cutoff && c > cutlim) {
        any := -1;
      } else {
        any := 1;
        acc := Append(acc, b, c);
      }
      end := end + 1;
      more := IsDigit(s[end], b);
    }
  }

  /** The value as strtoul gives it: at most ULONG_MAX, and with a minus sign its negation in 32 bits. */
  function Unclamped(v: nat, neg: bool): nat {
    if v > U32 - 1 then U32 - 1 else if neg && v > 0 then U32 - v else v
  }

  /** strtoul: the value of the longest run of digits after the head, and where it ends. */
  method Strtoul(s: seq<char>, base: int) returns (r: nat, end: nat)
    requires CString(s) && GoodBase(base)
    ensures var h := HeadOf(s, base); r == Unclamped(Magnitude(s, h), h.neg) && end == EndOf(s, h)
  {
    hide ValueOf;
    var start, neg, b := ReadHead(s, base);
    var acc, any, stop := Accumulate(s, start, b, U32 - 1);
    if any < 0 {
      acc := U32 - 1;
    } else if neg {
      acc := (U32 - acc) % U32;
    }
    r := acc;
    end := if any != 0 then stop else 0;
  }

  /** The mathematical value, clamped to the range of a long. */
  function Clamped(v: nat, neg: bool): (r: int)
    ensures INT_MIN <= r <= INT_MAX
  {
    if neg then (if v > -INT_MIN then INT_MIN else 0 - v) else if v > INT_MAX then INT_MAX else v
  }

  /** The bits of an unsigned long read as a long. */
  function Signed(acc: nat): (r: int)
    requires acc < U32
    ensures INT_MIN <= r <= INT_MAX
  {
    if acc > INT_MAX then acc - U32 else acc
  }

  /** strtol: the mathematical value of the longest run of digits after the head, clamped to the range of a long, and
      where it ends; 0 for a base there is not, and then the end is not given. */
  method Strtol(s: seq<char>, base: int) returns (r: int, end: nat)
    requires CString(s)
    ensures !GoodBase(base) ==> r == 0
    ensures GoodBase(base) ==>
              var h := HeadOf(s, base); r == Clamped(Magnitude(s, h), h.neg) && end == EndOf(s, h)
  {
    hide ValueOf;
    if base < 0 || base == 1 || base > 36 {
      return 0, 0;
    }
    var start, neg, b := ReadHead(s, base);
    var acc, any, stop := Accumulate(s, start, b, if neg then -INT_MIN else INT_MAX);
    if any < 0 {
      acc := if neg then -INT_MIN else INT_MAX;
    } else if neg {
      acc := (U32 - acc) % U32;
    }
    r := Signed(acc);
    end := if any != 0 then stop else 0;
  }

  // ---------------------------------------------------------------- round trips

  lemma {:induction false} RunAll(s: seq<char>, i: nat, n: nat, b: nat)
    requires CString(s) && i + n < |s| && b <= 36 && !IsDigit(s[i + n], b) && forall j :: i <= j < i + n ==> IsDigit(s[j], b)
    ensures Run(s, i, b) == n
    decreases n
  {
    if n > 0 {
      RunAll(s, i + 1, n - 1, b);
    }
  }

  /** A numeral with at most a minus sign before it is read as what it is: no character of it is taken for anything else. */
  lemma NumeralRead(pre: seq<char>, v: nat, b: nat)
    requires 2 <= b <= 36 && (pre == [] || pre == ['-'])
    ensures var s := pre + Numeral(v, b) + [NUL];
            CString(s) && HeadOf(s, b) == Head(|pre|, pre == ['-'], b)
            && Magnitude(s, HeadOf(s, b)) == v && EndOf(s, HeadOf(s, b)) == |s| - 1
  {
    hide Numeral, ValueOf, HeadOf;
    var d := Numeral(v, b);
    var s := pre + d + [NUL];
    NumeralDigits(v, b);
    NumeralValue(v, b);
    DigitsHead(pre, d, b);
    forall j | |pre| <= j < |pre| + |d|
      ensures IsDigit(s[j], b)
    {
      assert s[j] == d[j - |pre|];
    }
    RunAll(s, |pre|, |d|, b);
    assert s[|pre|..|pre| + |d|] == d;
  }

  lemma DigitsHead(pre: seq<char>, d: seq<char>, b: nat)
    requires 2 <= b <= 36 && (pre == [] || pre == ['-']) && |d| > 0
    requires forall i :: 0 <= i < |d| ==> IsDigit(d[i], b) && Plain(d[i])
    ensures var s := pre + d + [NUL]; CString(s) && HeadOf(s, b) == Head(|pre|, pre == ['-'], b)
  {
    var s := pre + d + [NUL];
    forall i | 0 <= i < |s| - 1
      ensures s[i] != NUL
    {
      assert i >= |pre| ==> s[i] == d[i - |pre|];
    }
    assert s[|pre|] == d[0] && s[|pre| + 1] == if |d| > 1 then d[1] else NUL;
    NotHex(s[|pre| + 1], b);
    assert Spaces(s, 0) == 0;
  }

  lemma NotHex(c: char, b: nat)
    ensures c == NUL || (b == 16 && IsDigit(c, b)) ==> c != 'x' && c != 'X'
  {
  }

  /** strtoul undoes utoa, for every value and every base. */
  lemma UtoaStrtoul(v: nat, b: nat)
    requires v < U32 && 2 <= b <= 36
    ensures var s := Numeral(v, b) + [NUL];
            CString(s) && Unclamped(Magnitude(s, HeadOf(s, b)), HeadOf(s, b).neg) == v && EndOf(s, HeadOf(s, b)) == |s| - 1
  {
    NumeralRead([], v, b);
    assert [] + Numeral(v, b) + [NUL] == Numeral(v, b) + [NUL];
  }

  /** In base ten strtol undoes itoa, the smallest int included; in any other base it does so just for values that are
      not negative. */
  lemma ItoaStrtol(v: int, b: nat)
    requires INT_MIN <= v <= INT_MAX && 2 <= b <= 36
    ensures var s := Itoa(v, b) + [NUL];
            CString(s) && (Clamped(Magnitude(s, HeadOf(s, b)), HeadOf(s, b).neg) == v <==> b == 10 || v >= 0)
  {
    hide Numeral;
    if b == 10 && v < 0 {
      NumeralRead(['-'], -v, b);
    } else {
      NumeralRead([], Unsigned(v), b);
      assert [] + Numeral(Unsigned(v), b) + [NUL] == Itoa(v, b) + [NUL];
    }
  }

  // ---------------------------------------------------------------- whatever is in the string

  // A string taken apart: white space, a sign, a prefix, digits, and what is left.
  datatype Parts = Parts(blanks: seq<char>, sign: seq<char>, prefix: seq<char>, digits: seq<char>, rest: seq<char>)

  function Body(p: Parts): seq<char> {
    p.prefix + p.digits + p.rest
  }

  function TextOf(p: Parts): seq<char> {
    p.blanks + p.sign + Body(p) + [NUL]
  }

  predicate HexPrefix(body: seq<char>) {
    |body| >= 2 && body[0] == '0' && (body[1] == 'x' || body[1] == 'X')
  }

  /** All white space comes first, then at most one sign. */
  predicate Leads(blanks: seq<char>, sign: seq<char>, body: seq<char>) {
    && (forall i :: 0 <= i < |blanks| ==> IsSpace(blanks[i]))
    && (sign == [] || sign == ['-'] || sign == ['+'])
    && (forall i :: 0 <= i < |body| ==> body[i] != NUL)
    && (sign == [] && body != [] ==> Plain(body[0]))
  }

  /** 0x or 0X is a prefix in base 16, and makes it base 16 in base 0, where a 0 alone makes it base 8. */
  predicate Prefixed(prefix: seq<char>, body: seq<char>, base: nat, b: nat) {
    if (base == 0 || base == 16) && HexPrefix(body) then |prefix| == 2 && b == 16
    else prefix == [] && b == if base != 0 then base else if body != [] && body[0] == '0' then 8 else 10
  }

  /** As many digits as there are. */
  predicate AllDigits(digits: seq<char>, rest: seq<char>, b: nat) {
    (forall i :: 0 <= i < |digits| ==> IsDigit(digits[i], b)) && (rest != [] ==> !IsDigit(rest[0], b))
  }

  /** How a string is to be read in a base, 0 being any. */
  predicate Splits(p: Parts, base: nat, b: nat) {
    Leads(p.blanks, p.sign, Body(p)) && Prefixed(p.prefix, Body(p), base, b) && AllDigits(p.digits, p.rest, b)
  }

  lemma {:induction false} SpacesAre(s: seq<char>, i: nat, n: nat)
    requires CString(s) && i + n < |s| && !IsSpace(s[i + n]) && forall j :: i <= j < i + n ==> IsSpace(s[j])
    ensures Spaces(s, i) == n
    decreases n
  {
    if n > 0 {
      SpacesAre(s, i + 1, n - 1);
    }
  }

  /** Where the parts are in the string. */
  lemma TextAt(p: Parts)
    ensures var s, k := TextOf(p), |p.blanks| + |p.sign|;
            && |s| == k + |Body(p)| + 1 && s[|s| - 1] == NUL
            && (forall i :: 0 <= i < |p.blanks| ==> s[i] == p.blanks[i])
            && (forall i :: 0 <= i < |p.sign| ==> s[|p.blanks| + i] == p.sign[i])
            && (forall i :: 0 <= i < |Body(p)| ==> s[k + i] == Body(p)[i])
  {
  }

  lemma TextIsString(p: Parts, base: nat, b: nat)
    requires Splits(p, base, b)
    ensures CString(TextOf(p))
  {
    hide Body, TextOf, Prefixed, AllDigits;
    TextAt(p);
    var s, k := TextOf(p), |p.blanks| + |p.sign|;
    forall i | 0 <= i < |s| - 1
      ensures s[i] != NUL
    {
      if i < |p.blanks| {
        assert s[i] == p.blanks[i];
      } else if i < k {
        assert s[i] == p.sign[i - |p.blanks|];
      } else {
        assert s[i] == Body(p)[i - k];
      }
    }
  }

  lemma HeadSplit(p: Parts, base: nat, b: nat)
    requires GoodBase(base) && Splits(p, base, b)
    ensures CString(TextOf(p)) && HeadOf(TextOf(p), base) == Head(|p.blanks| + |p.sign| + |p.prefix|, p.sign == ['-'], b)
  {
    hide IsDigit, Body, TextOf, AllDigits;
    TextIsString(p, base, b);
    TextAt(p);
    var s, n, k := TextOf(p), |p.blanks|, |p.blanks| + |p.sign|;
    assert s[k] == if Body(p) == [] then NUL else Body(p)[0];
    assert |Body(p)| >= 1 ==> s[k + 1] == if |Body(p)| == 1 then NUL else Body(p)[1];
    assert p.sign != [] ==> s[n] == p.sign[0];
    SpacesAre(s, 0, n);
  }

  /** The value of the digits with the sign, and where the digits end; without digits nothing is read. */
  lemma DigitsSplit(p: Parts, base: nat, b: nat)
    requires GoodBase(base) && Splits(p, base, b)
    ensures CString(TextOf(p))
    ensures var h := HeadOf(TextOf(p), base);
            && h.base == b && (h.neg <==> p.sign == ['-']) && Magnitude(TextOf(p), h) == ValueOf(p.digits, b)
            && EndOf(TextOf(p), h) == if p.digits == [] then 0 else |p.blanks| + |p.sign| + |p.prefix| + |p.digits|
  {
    hide IsDigit, ValueOf, HeadOf, Leads, Prefixed;
    HeadSplit(p, base, b);
    var s, at, n := TextOf(p), |p.blanks| + |p.sign| + |p.prefix|, |p.digits|;
    NulNoDigit(b);
    assert s[at + n] == if p.rest == [] then NUL else p.rest[0];
    assert forall j :: at <= j < at + n ==> s[j] == p.digits[j - at];
    RunAll(s, at, n, b);
    assert s[at..at + n] == p.digits;
  }

  lemma NulNoDigit(b: nat)
    ensures !IsDigit(NUL, b)
  {
  }

  /** strtol on any string: the value of the digits, negated after a minus sign, or the nearer end of the range of a long. */
  lemma StrtolReads(p: Parts, base: nat, b: nat)
    requires GoodBase(base) && Splits(p, base, b)
    ensures CString(TextOf(p))
    ensures var h := HeadOf(TextOf(p), base);
            var x := if p.sign == ['-'] then 0 - ValueOf(p.digits, b) as int else ValueOf(p.digits, b);
            && Clamped(Magnitude(TextOf(p), h), h.neg) == (if x < -0x8000_0000 then -0x8000_0000 else if x > 0x7fff_ffff then 0x7fff_ffff else x)
            && EndOf(TextOf(p), h) == if p.digits == [] then 0 else |p.blanks| + |p.sign| + |p.prefix| + |p.digits|
  {
    hide ValueOf, HeadOf, Magnitude, EndOf, Splits, TextOf;
    DigitsSplit(p, base, b);
  }

  /** strtoul on any string: the value of the digits up to ULONG_MAX, and modulo 2^32 its negation after a minus sign. */
  lemma StrtoulReads(p: Parts, base: nat, b: nat)
    requires GoodBase(base) && Splits(p, base, b)
    ensures CString(TextOf(p))
    ensures var h := HeadOf(TextOf(p), base);
            var v := ValueOf(p.digits, b);
            && Unclamped(Magnitude(TextOf(p), h), h.neg) ==
               (if v >= 0x1_0000_0000 then 0xffff_ffff else if p.sign == ['-'] then (0x1_0000_0000 - v) % 0x1_0000_0000 else v)
            && EndOf(TextOf(p), h) == if p.digits == [] then 0 else |p.blanks| + |p.sign| + |p.prefix| + |p.digits|
  {
    hide ValueOf, HeadOf, Magnitude, EndOf, Splits, TextOf;
    DigitsSplit(p, base, b);
  }

  /** Every string can be taken apart so. */
  lemma EveryStringSplits(s: seq<char>, base: nat) returns (p: Parts, b: nat)
    requires CString(s) && GoodBase(base)
    ensures Splits(p, base, b) && TextOf(p) == s
  {
    hide Leads, Prefixed, AllDigits;
    var blanks, sign, body := SplitLead(s);
    NoNuls(blanks, sign, body);
    var at, base2 := SplitPrefix(body, base);
    var digits, rest := SplitDigits(body[at..], base2);
    p, b := Parts(blanks, sign, body[..at], digits, rest), base2;
    assert Body(p) == body[..at] + (digits + rest) == body;
  }

  lemma NoNuls(blanks: seq<char>, sign: seq<char>, body: seq<char>)
    requires Leads(blanks, sign, body)
    ensures forall i :: 0 <= i < |body| ==> body[i] != NUL
  {
  }

  lemma SplitLead(s: seq<char>) returns (blanks: seq<char>, sign: seq<char>, body: seq<char>)
    requires CString(s)
    ensures Leads(blanks, sign, body) && s == blanks + sign + body + [NUL]
  {
    var n := Spaces(s, 0);
    AllSpaces(s, 0);
    var k := if s[n] == '-' || s[n] == '+' then n + 1 else n;
    blanks, sign, body := s[..n], s[n..k], s[k..|s| - 1];
    assert body != [] ==> body[0] == s[k];
  }

  lemma SplitPrefix(body: seq<char>, base: nat) returns (at: nat, b: nat)
    requires GoodBase(base)
    ensures at <= |body| && 2 <= b <= 36 && Prefixed(body[..at], body, base, b)
  {
    at, b := 0, if base != 0 then base else if body != [] && body[0] == '0' then 8 else 10;
    if (base == 0 || base == 16) && HexPrefix(body) {
      at, b := 2, 16;
    }
  }

  lemma SplitDigits(body: seq<char>, b: nat) returns (digits: seq<char>, rest: seq<char>)
    requires b <= 36 && forall i :: 0 <= i < |body| ==> body[i] != NUL
    ensures AllDigits(digits, rest, b) && body == digits + rest
  {
    hide IsDigit, Run;
    var s := body + [NUL];
    var n := Run(s, 0, b);
    digits, rest := body[..n], body[n..];
    assert forall i :: 0 <= i < n ==> digits[i] == s[i];
    assert rest != [] ==> rest[0] == s[n];
  }

  lemma {:induction false} AllSpaces(s: seq<char>, i: nat)
    requires CString(s) && i < |s|
    ensures forall j :: i <= j < i + Spaces(s, i) ==> IsSpace(s[j])
    decreases |s| - i
  {
    if IsSpace(s[i]) {
      AllSpaces(s, i + 1);
    }
  }
}
