/** Strings as the program uses them: byte order, splitting, lines and decimal numbers.
    One `char` stands for one byte. */
module Text {

  datatype Option<+T> = None | Some(value: T)

  const MAX_INT64 := 0x7fff_ffff_ffff_ffff
  const MIN_INT64 := -0x8000_0000_0000_0000

  // ----- order -----

  /** The order `std::map` and `std::set` keep their string keys in. */
  predicate Less(a: string, b: string) {
    if b == "" then false
    else if a == "" then true
    else a[0] < b[0] || (a[0] == b[0] && Less(a[1..], b[1..]))
  }

  lemma {:induction false} LessTotal(a: string, b: string)
    ensures Less(a, b) || a == b || Less(b, a)
  {
    if a != "" && b != "" && a[0] == b[0] {
      LessTotal(a[1..], b[1..]);
      assert a == [a[0]] + a[1..] && b == [b[0]] + b[1..];
    }
  }

  lemma {:induction false} LessAsymmetric(a: string, b: string)
    requires Less(a, b)
    ensures !Less(b, a) && a != b
  {
    if a != "" && a[0] == b[0] {
      LessAsymmetric(a[1..], b[1..]);
    }
  }

  lemma {:induction false} LessTransitive(a: string, b: string, c: string)
    requires Less(a, b) && Less(b, c)
    ensures Less(a, c)
  {
    if a != "" && a[0] == b[0] == c[0] {
      LessTransitive(a[1..], b[1..], c[1..]);
    }
  }

  /** `a` and `b` agree before position `n`, and there `a` ends or has the smaller byte. */
  ghost predicate DiffersAt(a: string, b: string, n: nat) {
    n <= |a| && n < |b| && a[..n] == b[..n] && (n == |a| || a[n] < b[n])
  }

  /** The order is decided at the first place where the two differ. */
  lemma {:induction false} LessExactly(a: string, b: string)
    ensures Less(a, b) <==> exists n: nat :: DiffersAt(a, b, n)
  {
    if a == "" && b != "" {
      assert DiffersAt(a, b, 0);
    } else if a != "" && b != "" {
      if a[0] < b[0] {
        assert DiffersAt(a, b, 0);
      }
      LessExactly(a[1..], b[1..]);
      if n: nat :| DiffersAt(a[1..], b[1..], n) && a[0] == b[0] {
        assert a[..n + 1] == [a[0]] + a[1..][..n] && b[..n + 1] == [b[0]] + b[1..][..n];
        assert DiffersAt(a, b, n + 1);
      }
      if n: nat :| DiffersAt(a, b, n) && n > 0 {
        assert a[..n][0] == b[..n][0];
        assert a[1..][..n - 1] == a[..n][1..] && b[1..][..n - 1] == b[..n][1..];
        assert DiffersAt(a[1..], b[1..], n - 1);
      }
    }
  }

  predicate IsLeast(x: string, s: set<string>) {
    x in s && forall y :: y in s && y != x ==> Less(x, y)
  }

  lemma {:induction false} LeastExists(s: set<string>) returns (x: string)
    requires s != {}
    ensures IsLeast(x, s)
    decreases |s|
  {
    var y :| y in s;
    if s == {y} {
      return y;
    }
    var z := LeastExists(s - {y});
    LessTotal(y, z);
    if Less(y, z) {
      forall w | w in s && w != y ensures Less(y, w) {
        if w != z {
          LessTransitive(y, z, w);
        }
      }
      return y;
    }
    return z;
  }

  lemma LeastUnique(x: string, y: string, s: set<string>)
    requires IsLeast(x, s) && IsLeast(y, s)
    ensures x == y
  {
    if x != y {
      LessAsymmetric(x, y);
    }
  }

  function Least(s: set<string>): (x: string)
    requires s != {}
    ensures IsLeast(x, s)
  {
    assert exists x :: IsLeast(x, s) by { var w := LeastExists(s); }
    assert forall x, y :: IsLeast(x, s) && IsLeast(y, s) ==> x == y by {
      forall x, y | IsLeast(x, s) && IsLeast(y, s) ensures x == y { LeastUnique(x, y, s); }
    }
    var x :| IsLeast(x, s);
    x
  }

  predicate Ascending(r: seq<string>) {
    forall a, b :: 0 <= a < b < |r| ==> Less(r[a], r[b])
  }

  lemma AscendingDistinct(r: seq<string>)
    requires Ascending(r)
    ensures forall a, b :: 0 <= a < b < |r| ==> r[a] != r[b]
  {
    forall a, b | 0 <= a < b < |r| ensures r[a] != r[b] {
      LessAsymmetric(r[a], r[b]);
    }
  }

  /** The elements of a `std::set` (or the keys of a `std::map`) in iteration order. */
  function Sorted(s: set<string>): (r: seq<string>)
    ensures Ascending(r)
    ensures forall x :: x in r <==> x in s
    ensures |r| == |s|
    decreases |s|
  {
    if s == {} then []
    else
      var x := Least(s);
      var rest := Sorted(s - {x});
      assert forall y :: y in rest ==> Less(x, y);
      [x] + rest
  }

  // ----- splitting -----

  /** `find(c, from)`, with `|s|` in place of `npos`. */
  function Find(s: string, c: char, from: nat): (i: nat)
    requires from <= |s|
    ensures from <= i <= |s|
    decreases |s| - from
  {
    if from == |s| || s[from] == c then from else Find(s, c, from + 1)
  }

  lemma {:induction false} FindExact(s: string, c: char, from: nat, i: nat)
    requires from <= i <= |s|
    ensures Find(s, c, from) == i <==> (forall k :: from <= k < i ==> s[k] != c) && (i < |s| ==> s[i] == c)
    decreases |s| - from
  {
    if from < i && s[from] != c {
      FindExact(s, c, from + 1, i);
    }
  }

  /** `s` is what `t` holds from `x` on. */
  ghost predicate Tail(t: string, x: nat, s: string) {
    |t| == x + |s| && forall k :: 0 <= k < |s| ==> t[x + k] == s[k]
  }

  lemma TailSlice(t: string, x: nat, s: string, a: nat, b: nat)
    requires a <= b <= |s| && Tail(t, x, s)
    ensures t[x + a..x + b] == s[a..b]
  {
  }

  lemma {:induction false} FindAfter(t: string, x: nat, s: string, c: char, from: nat)
    requires from <= |s| && Tail(t, x, s)
    ensures Find(t, c, x + from) == x + Find(s, c, from)
    decreases |s| - from
  {
    if from < |s| && s[from] != c {
      FindAfter(t, x, s, c, from + 1);
    }
  }

  /** The parts of `s[from..]` between separators; without one the rest is the only part. */
  function SplitFrom(s: string, c: char, from: nat): (r: seq<string>)
    requires from <= |s|
    ensures |r| >= 1
    decreases |s| - from
  {
    var i := Find(s, c, from);
    if i == |s| then [s[from..i]] else [s[from..i]] + SplitFrom(s, c, i + 1)
  }

  function Split(s: string, c: char): (r: seq<string>)
    ensures |r| >= 1
  {
    SplitFrom(s, c, 0)
  }

  lemma {:induction false} SplitAfter(t: string, x: nat, s: string, c: char, from: nat)
    requires from <= |s| && Tail(t, x, s)
    ensures SplitFrom(t, c, x + from) == SplitFrom(s, c, from)
    decreases |s| - from
  {
    var i := Find(s, c, from);
    FindAfter(t, x, s, c, from);
    TailSlice(t, x, s, from, i);
    if i < |s| {
      SplitAfter(t, x, s, c, i + 1);
    }
  }

  /** `Find` in a string whose first `c` closes the part `a`. */
  lemma FindFirst(a: string, b: string, c: char)
    requires c !in a
    ensures Find(a + [c] + b, c, 0) == |a|
  {
    var s := a + [c] + b;
    FindExact(s, c, 0, |a|);
    assert s[|a|] == c && forall k :: 0 <= k < |a| ==> s[k] == a[k] && a[k] in a;
  }

  lemma SplitCons(a: string, b: string, c: char)
    requires c !in a
    ensures Split(a + [c] + b, c) == [a] + Split(b, c)
  {
    FindFirst(a, b, c);
    SplitAfter(a + [c] + b, |a| + 1, b, c, 0);
    assert (a + [c] + b)[0..|a|] == a;
  }

  lemma SplitSingle(a: string, c: char)
    requires c !in a
    ensures Split(a, c) == [a]
  {
    FindExact(a, c, 0, |a|);
    assert a[0..|a|] == a;
  }

  function Join(parts: seq<string>, c: char): string
    requires parts != []
  {
    if |parts| == 1 then parts[0] else parts[0] + [c] + Join(parts[1..], c)
  }

  lemma {:induction false} SplitJoin(parts: seq<string>, c: char)
    requires parts != [] && forall p :: p in parts ==> c !in p
    ensures Split(Join(parts, c), c) == parts
  {
    if |parts| == 1 {
      SplitSingle(parts[0], c);
    } else {
      SplitJoin(parts[1..], c);
      SplitCons(parts[0], Join(parts[1..], c), c);
    }
  }

  /** The parts of a split have no separator, and joined again they are the text. */
  lemma {:induction false} JoinSplit(s: string, c: char, from: nat)
    requires from <= |s|
    ensures Join(SplitFrom(s, c, from), c) == s[from..] && forall p :: p in SplitFrom(s, c, from) ==> c !in p
    decreases |s| - from
  {
    var i := Find(s, c, from);
    FindExact(s, c, from, i);
    assert c !in s[from..i];
    if i < |s| {
      JoinSplit(s, c, i + 1);
      assert SplitFrom(s, c, from)[1..] == SplitFrom(s, c, i + 1);
      assert s[from..] == s[from..i] + [c] + s[i + 1..];
    }
  }

  function DropEmptyLast(parts: seq<string>): seq<string>
    requires parts != []
  {
    if parts[|parts| - 1] == "" then parts[..|parts| - 1] else parts
  }

  /** What repeated `std::getline` yields from `from` on: no last empty line after a final newline. */
  function LinesFrom(text: string, from: nat): seq<string>
    requires from <= |text|
  {
    DropEmptyLast(SplitFrom(text, '\n', from))
  }

  function Lines(text: string): seq<string> {
    LinesFrom(text, 0)
  }

  lemma LastOf(first: string, rest: seq<string>)
    requires rest != []
    ensures DropEmptyLast([first] + rest) == [first] + DropEmptyLast(rest)
  {
  }

  /** One `std::getline` with `from` characters already read. */
  lemma LinesStep(text: string, from: nat)
    requires from <= |text|
    ensures var end := Find(text, '\n', from);
      var next := if end < |text| then end + 1 else end;
      LinesFrom(text, from) == if from == |text| then [] else [text[from..end]] + LinesFrom(text, next)
  {
    var end := Find(text, '\n', from);
    if end < |text| {
      var rest := SplitFrom(text, '\n', end + 1);
      LastOf(text[from..end], rest);
    } else {
      assert text[|text|..|text|] == "";
    }
  }

  lemma LinesCons(a: string, b: string)
    requires '\n' !in a
    ensures Lines(a + "\n" + b) == [a] + Lines(b)
  {
    SplitCons(a, b, '\n');
    LastOf(a, Split(b, '\n'));
  }

  /** The lines are what `LinesCons` peels off, and at the end a text without a newline is one line,
      unless it is empty. */
  lemma LinesOfLast(a: string)
    requires '\n' !in a
    ensures Lines(a) == if a == "" then [] else [a]
  {
    SplitSingle(a, '\n');
  }

  // ----- characters -----

  predicate IsDigit(c: char) { '0' <= c <= '9' }

  predicate AllDigits(s: string) { forall c :: c in s ==> IsDigit(c) }

  predicate IsAlnum(c: char) { IsDigit(c) || 'a' <= c <= 'z' || 'A' <= c <= 'Z' }

  predicate IsSpace(c: char) { c == ' ' || '\t' <= c <= '\r' }

  function LowerChar(c: char): char {
    if 'A' <= c <= 'Z' then c - 'A' + 'a' else c
  }

  function Lower(s: string): (r: string)
    ensures |r| == |s| && forall i :: 0 <= i < |s| ==> r[i] == LowerChar(s[i])
  {
    seq(|s|, i requires 0 <= i < |s| => LowerChar(s[i]))
  }

  /** The character classes and the lower-casing of the C locale, by their ASCII codes. */
  lemma ClassesExactly(c: char)
    ensures IsDigit(c) <==> 48 <= c as int <= 57
    ensures IsAlnum(c) <==> 48 <= c as int <= 57 || 65 <= c as int <= 90 || 97 <= c as int <= 122
    ensures IsSpace(c) <==> c as int == 32 || 9 <= c as int <= 13
    ensures LowerChar(c) as int == if 65 <= c as int <= 90 then c as int + 32 else c as int
  {
  }

  // ----- decimal numbers -----

  function DigitOf(d: nat): char
    requires d < 10
  {
    '0' + d as char
  }

  function Digits(n: nat): (s: string)
    ensures |s| >= 1 && AllDigits(s)
  {
    if n < 10 then [DigitOf(n)] else Digits(n / 10) + [DigitOf(n % 10)]
  }

  function DigitsValue(s: string): nat
    requires AllDigits(s)
  {
    if s == "" then 0
    else
      assert IsDigit(s[|s| - 1]);
      DigitsValue(s[..|s| - 1]) * 10 + (s[|s| - 1] - '0') as nat
  }

  lemma {:induction false} DigitsValueInverse(n: nat)
    ensures DigitsValue(Digits(n)) == n
  {
    var s := Digits(n);
    if n < 10 {
      assert s[..0] == "";
    } else {
      DigitsValueInverse(n / 10);
      assert s[..|s| - 1] == Digits(n / 10);
    }
  }

  /** Each further digit counts ten times what stands before it plus itself. */
  lemma {:induction false} DecimalExactly(s: string, d: nat)
    requires AllDigits(s) && d < 10
    ensures DigitsValue("") == 0
    ensures AllDigits(s + ["0123456789"[d]]) && DigitsValue(s + ["0123456789"[d]]) == 10 * DigitsValue(s) + d
  {
    var c := "0123456789"[d];
    assert (s + [c])[..|s|] == s;
  }

  /** Numbers are printed without leading zeros, and such a numeral is the print of its value. */
  lemma {:induction false} PrintedExactly(s: string)
    requires AllDigits(s) && s != ""
    ensures Digits(DigitsValue(s)) == s <==> |s| == 1 || s[0] != '0'
  {
    var k := |s| - 1;
    assert s[k] in s && s == s[..k] + [s[k]];
    if k > 0 {
      PrintedExactly(s[..k]);
      var v := DigitsValue(s[..k]);
      assert s[0] in s;
      if s[0] != '0' {
        FirstDigit(s[..k]);
      }
      assert DigitsValue(s) / 10 == v && DigitsValue(s) % 10 == (s[k] - '0') as nat;
      if s[0] == '0' {
        if v == 0 {
          assert |Digits(DigitsValue(s))| == 1;
        } else {
          assert Digits(DigitsValue(s)) == Digits(v) + [s[k]];
          NoLeadingZero(v);
        }
      }
    }
  }

  lemma {:induction false} NoLeadingZero(n: nat)
    requires n > 0
    ensures Digits(n)[0] != '0'
  {
    if n >= 10 {
      NoLeadingZero(n / 10);
    }
  }

  lemma {:induction false} FirstDigit(s: string)
    requires AllDigits(s) && s != "" && s[0] != '0'
    ensures DigitsValue(s) > 0
  {
    if |s| == 1 {
      assert s[..0] == "" && s[0] in s;
    } else {
      assert forall c :: c in s[..|s| - 1] ==> c in s;
      FirstDigit(s[..|s| - 1]);
    }
  }

  function SkipSpace(s: string): (r: string)
    ensures r == "" || !IsSpace(r[0])
  {
    if s != "" && IsSpace(s[0]) then SkipSpace(s[1..]) else s
  }

  predicate HasSign(s: string) { s != "" && (s[0] == '-' || s[0] == '+') }

  function Signed(s: string, magnitude: int): int {
    if s != "" && s[0] == '-' then -magnitude else magnitude
  }

  /** `strtoll(s, &end, 10)` accepted only when it consumes the whole string without overflow. */
  function ParseNumber(s: string): (r: Option<int>)
    ensures r.Some? ==> MIN_INT64 <= r.value <= MAX_INT64
  {
    var t := SkipSpace(s);
    var u := if HasSign(t) then t[1..] else t;
    if u == "" || !AllDigits(u) then None
    else
      var v := Signed(t, DigitsValue(u));
      if MIN_INT64 <= v <= MAX_INT64 then Some(v) else None
  }

  /** What `strtoll` takes for a number: white space, at most one sign, digits. */
  ghost predicate IsNumeral(s: string, blanks: string, sign: string, digits: string, v: int) {
    && s == blanks + sign + digits
    && (forall c :: c in blanks ==> IsSpace(c))
    && (sign == "" || sign == "+" || sign == "-")
    && digits != "" && AllDigits(digits)
    && v == Signed(sign, DigitsValue(digits))
  }

  ghost predicate Numeral(s: string, v: int) {
    exists blanks, sign, digits :: IsNumeral(s, blanks, sign, digits, v)
  }

  lemma {:induction false} SkipSpaceSuffix(s: string) returns (blanks: string)
    ensures s == blanks + SkipSpace(s) && forall c :: c in blanks ==> IsSpace(c)
  {
    if s != "" && IsSpace(s[0]) {
      var rest := SkipSpaceSuffix(s[1..]);
      blanks := [s[0]] + rest;
    } else {
      blanks := "";
    }
  }

  lemma {:induction false} SkipBlanks(blanks: string, t: string)
    requires (forall c :: c in blanks ==> IsSpace(c)) && (t == "" || !IsSpace(t[0]))
    ensures SkipSpace(blanks + t) == t
  {
    if blanks == "" {
      assert blanks + t == t;
    } else {
      assert (blanks + t)[1..] == blanks[1..] + t;
      assert blanks[0] in blanks && forall c :: c in blanks[1..] ==> c in blanks;
      SkipBlanks(blanks[1..], t);
    }
  }

  lemma {:induction false} ParsedIsNumeral(s: string)
    requires ParseNumber(s).Some?
    ensures Numeral(s, ParseNumber(s).value)
  {
    var blanks := SkipSpaceSuffix(s);
    var t := SkipSpace(s);
    var sign := if HasSign(t) then t[..1] else "";
    var digits := if HasSign(t) then t[1..] else t;
    assert t == sign + digits;
    assert s == blanks + sign + digits by { assert blanks + (sign + digits) == blanks + sign + digits; }
    assert IsNumeral(s, blanks, sign, digits, ParseNumber(s).value);
  }

  lemma {:induction false} NumeralIsParsed(s: string, v: int)
    requires MIN_INT64 <= v <= MAX_INT64 && Numeral(s, v)
    ensures ParseNumber(s) == Some(v)
  {
    var blanks, sign, digits :| IsNumeral(s, blanks, sign, digits, v);
    var t := sign + digits;
    assert digits[0] in digits;
    assert s == blanks + t;
    SkipBlanks(blanks, t);
    assert digits == if HasSign(t) then t[1..] else t;
  }

  /** A text is accepted exactly when it is a numeral from end to end whose value fits 64 bits. */
  lemma {:induction false} ParsedExactly(s: string, v: int)
    ensures ParseNumber(s) == Some(v) <==> -0x8000_0000_0000_0000 <= v <= 0x7fff_ffff_ffff_ffff && Numeral(s, v)
  {
    if ParseNumber(s) == Some(v) {
      ParsedIsNumeral(s);
    }
    if MIN_INT64 <= v <= MAX_INT64 && Numeral(s, v) {
      NumeralIsParsed(s, v);
    }
  }

  lemma NumberRoundTrip(n: nat)
    requires n <= MAX_INT64
    ensures ParseNumber(Digits(n)) == Some(n)
  {
    var s := Digits(n);
    assert s[0] in s;
    DigitsValueInverse(n);
  }
}
