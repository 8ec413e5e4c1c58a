/** The JavaScript string built-ins the handlers and the pages rely on:
    `trim`, `toLowerCase`, integer `toString`, `Array.prototype.join` and,
    as the inverse used to state round trips, `split` on one character. */
module JsText {
  import opened Common

  // ---------------------------------------------------------------- trim

  /** ECMAScript WhiteSpace or LineTerminator: exactly what `String.prototype.trim` removes. */
  predicate IsSpace(c: char) {
    c == '\t' || c == '\n' || c == '\U{B}' || c == '\U{C}' || c == '\r' || c == ' '
    || c == '\U{A0}' || c == '\U{1680}' || ('\U{2000}' <= c <= '\U{200A}')
    || c == '\U{2028}' || c == '\U{2029}' || c == '\U{202F}' || c == '\U{205F}'
    || c == '\U{3000}' || c == '\U{FEFF}'
  }

  predicate AllSpace(s: string) {
    forall i :: 0 <= i < |s| ==> IsSpace(s[i])
  }

  /** Drops leading white space: the result is a suffix of `s`, what was dropped is white space,
      and the result does not start with white space. */
  function TrimStart(s: string): (r: string)
    ensures |r| <= |s| && r == s[|s| - |r|..]
    ensures AllSpace(s[..|s| - |r|])
    ensures r == [] || !IsSpace(r[0])
  {
    if |s| > 0 && IsSpace(s[0]) then
      var r := TrimStart(s[1..]);
      assert s[..|s| - |r|] == [s[0]] + s[1..][..|s| - 1 - |r|];
      r
    else s
  }

  /** Drops trailing white space: the result is a prefix of `s`, what was dropped is white space,
      and the result does not end with white space. */
  function TrimEnd(s: string): (r: string)
    ensures |r| <= |s| && r == s[..|r|]
    ensures AllSpace(s[|r|..])
    ensures r == [] || !IsSpace(r[|r| - 1])
  {
    if |s| > 0 && IsSpace(s[|s| - 1]) then
      var r := TrimEnd(s[..|s| - 1]);
      assert s[|r|..] == s[..|s| - 1][|r|..] + [s[|s| - 1]];
      r
    else s
  }

  /** `String.prototype.trim`: no white space is left at either end (`TrimIsSlice` says what is kept). */
  function Trim(s: string): (r: string)
    ensures |r| <= |s|
    ensures r == [] || (!IsSpace(r[0]) && !IsSpace(r[|r| - 1]))
  {
    TrimEnd(TrimStart(s))
  }

  /** `t` is `s` with only white space removed around it, and none is left at its ends. */
  predicate IsTrimmedFrom(t: string, s: string) {
    (t == [] || (!IsSpace(t[0]) && !IsSpace(t[|t| - 1])))
    && exists i :: 0 <= i <= |s| - |t| && s[i..i + |t|] == t && AllSpace(s[..i]) && AllSpace(s[i + |t|..])
  }

  /** What `trim` keeps is a slice of the input with nothing but white space around it. */
  lemma TrimIsSlice(s: string)
    ensures IsTrimmedFrom(Trim(s), s)
  {
    var t := TrimStart(s);
    var r := TrimEnd(t);
    var i := |s| - |t|;
    SliceOfSuffix(s, i, t, r);
    assert AllSpace(s[i + |r|..]) by {
      assert AllSpace(t[|r|..]);
    }
    assert AllSpace(s[..i]);
    assert r == Trim(s);
    TrimmedFromAt(r, s, i);
  }

  /** A witnessed slice is a trimmed form. */
  lemma TrimmedFromAt(t: string, s: string, i: nat)
    requires t == [] || (!IsSpace(t[0]) && !IsSpace(t[|t| - 1]))
    requires i <= |s| - |t| && s[i..i + |t|] == t && AllSpace(s[..i]) && AllSpace(s[i + |t|..])
    ensures IsTrimmedFrom(t, s)
  {
  }

  /** A prefix `r` of the suffix `t` of `s` from `i` on is the slice of `s` from `i`, and what
      follows it in `t` is what follows it in `s`. */
  lemma SliceOfSuffix<T>(s: seq<T>, i: nat, t: seq<T>, r: seq<T>)
    requires i <= |s| && t == s[i..] && |r| <= |t| && r == t[..|r|]
    ensures i + |r| <= |s| && s[i..i + |r|] == r && s[i + |r|..] == t[|r|..]
  {
  }

  /** Text whose ends are not white space trims to itself. */
  lemma TrimUnpadded(s: string)
    requires s == [] || (!IsSpace(s[0]) && !IsSpace(s[|s| - 1]))
    ensures Trim(s) == s
  {
    assert TrimStart(s) == s;
    assert TrimEnd(s) == s;
  }

  lemma {:induction false} TrimStartPadded(w: string, x: string)
    requires AllSpace(w)
    ensures TrimStart(w + x) == TrimStart(x)
    decreases |w|
  {
    if w != [] {
      assert (w + x)[1..] == w[1..] + x;
      TrimStartPadded(w[1..], x);
    } else {
      assert w + x == x;
    }
  }

  lemma {:induction false} TrimEndPadded(x: string, w: string)
    requires AllSpace(w)
    ensures TrimEnd(x + w) == TrimEnd(x)
    decreases |w|
  {
    if w != [] {
      assert (x + w)[..|x + w| - 1] == x + w[..|w| - 1];
      TrimEndPadded(x, w[..|w| - 1]);
    } else {
      assert x + w == x;
    }
  }

  lemma {:induction false} TrimStartAppend(s: string, w: string)
    ensures TrimStart(s + w) == if TrimStart(s) == [] then TrimStart(w) else TrimStart(s) + w
    decreases |s|
  {
    if s == [] {
      assert s + w == w;
    } else if IsSpace(s[0]) {
      assert (s + w)[1..] == s[1..] + w;
      TrimStartAppend(s[1..], w);
    }
  }

  /** White space around the input never changes what `trim` returns. */
  lemma TrimPadded(w1: string, s: string, w2: string)
    requires AllSpace(w1) && AllSpace(w2)
    ensures Trim(w1 + s + w2) == Trim(s)
  {
    assert w1 + s + w2 == w1 + (s + w2);
    TrimStartPadded(w1, s + w2);
    TrimStartAppend(s, w2);
    if TrimStart(s) == [] {
      TrimStartPadded(w2, []);
      assert w2 + [] == w2;
    } else {
      TrimEndPadded(TrimStart(s), w2);
    }
  }

  /** Trimming twice is trimming once. */
  lemma TrimIdempotent(s: string)
    ensures Trim(Trim(s)) == Trim(s)
  {
    var r := Trim(s);
    assert TrimStart(r) == r;
    assert TrimEnd(r) == r;
  }

  // ---------------------------------------------------------- toLowerCase

  /** `toLowerCase` on one character, for the ASCII letters (the only letters an address holds). */
  function LowerChar(c: char): (d: char)
    ensures IsSpace(d) <==> IsSpace(c)
    ensures 'A' <= c <= 'Z' ==> 'a' <= d <= 'z'
  {
    if 'A' <= c <= 'Z' then (c as int + 32) as char else c
  }

  function Lower(s: string): (r: string)
    ensures |r| == |s|
    ensures forall i :: 0 <= i < |s| ==> r[i] == LowerChar(s[i])
  {
    seq(|s|, i requires 0 <= i < |s| => LowerChar(s[i]))
  }

  lemma LowerIdempotent(s: string)
    ensures Lower(Lower(s)) == Lower(s)
  {
  }

  lemma {:induction false} TrimStartLower(s: string)
    ensures TrimStart(Lower(s)) == Lower(TrimStart(s))
    decreases |s|
  {
    if |s| > 0 && IsSpace(s[0]) {
      assert Lower(s)[1..] == Lower(s[1..]);
      TrimStartLower(s[1..]);
    }
  }

  lemma {:induction false} TrimEndLower(s: string)
    ensures TrimEnd(Lower(s)) == Lower(TrimEnd(s))
    decreases |s|
  {
    if |s| > 0 && IsSpace(s[|s| - 1]) {
      assert Lower(s)[..|s| - 1] == Lower(s[..|s| - 1]);
      TrimEndLower(s[..|s| - 1]);
    }
  }

  /** Lower-casing and trimming commute, so `s.trim().toLowerCase()` equals `s.toLowerCase().trim()`. */
  lemma TrimLower(s: string)
    ensures Trim(Lower(s)) == Lower(Trim(s))
  {
    TrimStartLower(s);
    TrimEndLower(TrimStart(s));
  }

  // ------------------------------------------------------ decimal rendering

  predicate IsDigit(c: char) {
    '0' <= c <= '9'
  }

  predicate AllDigits(s: string) {
    forall i :: 0 <= i < |s| ==> IsDigit(s[i])
  }

  function DigitChar(d: nat): (c: char)
    requires d < 10
    ensures IsDigit(c)
  {
    (48 + d) as char
  }

  function DigitValue(c: char): (d: nat)
    requires IsDigit(c)
    ensures d < 10 && DigitChar(d) == c
  {
    c as int - 48
  }

  /** `toString()` of a non-negative BigInt: non-empty decimal digits with no leading zero. */
  function NatToDecimal(n: nat): (s: string)
    ensures |s| >= 1 && AllDigits(s)
    ensures s[0] == '0' ==> n == 0
    decreases n
  {
    if n < 10 then [DigitChar(n)] else NatToDecimal(n / 10) + [DigitChar(n % 10)]
  }

  /** `String(i)` of an integer. */
  function IntToString(i: int): (s: string)
    ensures |s| >= 1
    ensures i >= 0 ==> AllDigits(s)
  {
    if i < 0 then "-" + NatToDecimal(-i) else NatToDecimal(i)
  }

  /** The integer a string of decimal digits denotes. */
  function DecimalValue(s: string): nat
    requires AllDigits(s)
    decreases |s|
  {
    if s == [] then 0 else 10 * DecimalValue(s[..|s| - 1]) + DigitValue(s[|s| - 1])
  }

  /** Reading decimal text back as an integer, as `BigInt(text)` does for digit strings. */
  function ParseDecimal(s: string): Option<nat> {
    if s != [] && AllDigits(s) then Some(DecimalValue(s)) else None
  }

  /** Decimal text reads back as the exact integer it was rendered from (no precision loss). */
  lemma {:induction false} DecimalRoundTrip(n: nat)
    ensures ParseDecimal(NatToDecimal(n)) == Some(n)
    decreases n
  {
    if n >= 10 {
      DecimalRoundTrip(n / 10);
      var s := NatToDecimal(n / 10);
      assert (s + [DigitChar(n % 10)])[..|s|] == s;
      assert DigitValue(DigitChar(n % 10)) == n % 10;
    } else {
      var s := [DigitChar(n)];
      assert s[..|s| - 1] == [];
      assert DecimalValue(s) == 10 * DecimalValue([]) + DigitValue(s[0]);
      assert DigitValue(DigitChar(n)) == n;
    }
  }

  lemma {:induction false} LeadingDigitPositive(s: string)
    requires s != [] && AllDigits(s) && s[0] != '0'
    ensures DecimalValue(s) >= 1
    decreases |s|
  {
    if |s| > 1 {
      LeadingDigitPositive(s[..|s| - 1]);
    }
  }

  /** The other direction: canonical decimal text (no leading zero) is the rendering of its value. */
  lemma {:induction false} DecimalCanonical(s: string)
    requires s != [] && AllDigits(s) && (s[0] != '0' || |s| == 1)
    ensures NatToDecimal(DecimalValue(s)) == s
    decreases |s|
  {
    if |s| > 1 {
      var p := s[..|s| - 1];
      var d := DigitValue(s[|s| - 1]);
      DecimalCanonical(p);
      LeadingDigitPositive(p);
      var v := DecimalValue(s);
      assert v == 10 * DecimalValue(p) + d;
      assert v / 10 == DecimalValue(p) && v % 10 == d;
      assert s == p + [s[|s| - 1]];
    }
  }

  // ------------------------------------------------------------ join/split

  /** `Array.prototype.join(sep)` for a one-character separator. */
  function Join(parts: seq<string>, sep: char): string
    decreases |parts|
  {
    if |parts| == 0 then "" else if |parts| == 1 then parts[0]
    else parts[0] + [sep] + Join(parts[1..], sep)
  }

  /** `String.prototype.split(sep)` for a one-character separator. */
  function Split(s: string, sep: char): (r: seq<string>)
    ensures |r| >= 1
    decreases |s|
  {
    if s == [] then [""]
    else
      var rest := Split(s[1..], sep);
      if s[0] == sep then [""] + rest else [[s[0]] + rest[0]] + rest[1..]
  }

  lemma {:induction false} SplitPrefix(p: string, t: string, sep: char)
    requires sep !in p
    ensures Split(p + t, sep) == [p + Split(t, sep)[0]] + Split(t, sep)[1..]
    decreases |p|
  {
    if p == [] {
      assert p + t == t;
      var st := Split(t, sep);
      assert p + st[0] == st[0];
      assert st == [st[0]] + st[1..];
    } else {
      assert (p + t)[1..] == p[1..] + t;
      SplitPrefix(p[1..], t, sep);
      var st := Split(t, sep);
      var rest := Split((p + t)[1..], sep);
      assert rest[0] == p[1..] + st[0] && rest[1..] == st[1..];
      assert (p + t)[0] == p[0] != sep;
      assert [p[0]] + (p[1..] + st[0]) == p + st[0];
    }
  }

  /** Splitting the joined text gives the parts back when no part holds the separator. */
  lemma {:induction false} SplitJoin(parts: seq<string>, sep: char)
    requires |parts| >= 1
    requires forall k :: 0 <= k < |parts| ==> sep !in parts[k]
    ensures Split(Join(parts, sep), sep) == parts
    decreases |parts|
  {
    if |parts| == 1 {
      SplitPrefix(parts[0], "", sep);
      assert parts[0] + "" == parts[0];
    } else {
      var tail := Join(parts[1..], sep);
      SplitJoin(parts[1..], sep);
      assert parts[0] + [sep] + tail == parts[0] + ([sep] + tail);
      assert ([sep] + tail)[1..] == tail;
      assert Split([sep] + tail, sep) == [""] + Split(tail, sep);
      SplitPrefix(parts[0], [sep] + tail, sep);
      assert parts[0] + "" == parts[0];
      assert parts == [parts[0]] + parts[1..];
    }
  }

  /** `Split` on a text that starts with the separator. */
  lemma SplitAtSep(w: string, sep: char)
    ensures Split([sep] + w, sep) == [""] + Split(w, sep)
  {
    assert ([sep] + w)[1..] == w;
  }

  /** `Split` on a text that starts with another character. */
  lemma SplitAtOther(c: char, w: string, sep: char)
    requires c != sep
    ensures Split([c] + w, sep) == [[c] + Split(w, sep)[0]] + Split(w, sep)[1..]
  {
    assert ([c] + w)[0] == c && ([c] + w)[1..] == w;
  }

  /** Splitting at a separator placed between two texts splits each of them on its own. */
  lemma {:induction false} SplitAround(x: string, y: string, sep: char)
    ensures Split(x + [sep] + y, sep) == Split(x, sep) + Split(y, sep)
    decreases |x|
  {
    if x == [] {
      assert x + [sep] + y == [sep] + y;
      SplitAtSep(y, sep);
    } else {
      SplitAround(x[1..], y, sep);
      if x[0] == sep {
        SplitAroundSep(x[1..], y, sep);
      } else {
        SplitAroundOther(x[0], x[1..], y, sep);
      }
      assert x == [x[0]] + x[1..];
    }
  }

  /** One step of `SplitAround`: a separator in front of the first text. */
  lemma SplitAroundSep(x: string, y: string, sep: char)
    requires Split(x + [sep] + y, sep) == Split(x, sep) + Split(y, sep)
    ensures Split([sep] + x + [sep] + y, sep) == Split([sep] + x, sep) + Split(y, sep)
  {
    var z := x + [sep] + y;
    assert [sep] + x + [sep] + y == [sep] + z;
    SplitAtSep(z, sep);
    SplitAtSep(x, sep);
    ConsAppend("", Split(x, sep), Split(y, sep));
  }

  lemma ConsAppend(p: string, a: seq<string>, b: seq<string>)
    ensures [p] + (a + b) == ([p] + a) + b
  {
  }

  /** One step of `SplitAround`: another character in front of the first text. */
  lemma SplitAroundOther(c: char, x: string, y: string, sep: char)
    requires c != sep
    requires Split(x + [sep] + y, sep) == Split(x, sep) + Split(y, sep)
    ensures Split([c] + x + [sep] + y, sep) == Split([c] + x, sep) + Split(y, sep)
  {
    var z := x + [sep] + y;
    assert [c] + x + [sep] + y == [c] + z;
    SplitAtOther(c, z, sep);
    SplitAtOther(c, x, sep);
    HeadMerge([c], Split(x, sep), Split(y, sep));
  }

  /** Prefixing the first piece of `a + b` is prefixing the first piece of `a`, then appending `b`. */
  lemma HeadMerge(p: string, a: seq<string>, b: seq<string>)
    requires |a| >= 1
    ensures [p + (a + b)[0]] + (a + b)[1..] == ([p + a[0]] + a[1..]) + b
  {
    assert (a + b)[0] == a[0] && (a + b)[1..] == a[1..] + b;
  }

  /** The pieces of every part, in order. */
  function SplitEach(parts: seq<string>, sep: char): (r: seq<string>)
    ensures |r| >= |parts|
    decreases |parts|
  {
    if parts == [] then [] else Split(parts[0], sep) + SplitEach(parts[1..], sep)
  }

  /** Splitting a join gives the pieces of each part, in order, whatever the parts hold. */
  lemma {:induction false} SplitJoinPieces(parts: seq<string>, sep: char)
    requires |parts| >= 1
    ensures Split(Join(parts, sep), sep) == SplitEach(parts, sep)
    decreases |parts|
  {
    if |parts| == 1 {
      assert SplitEach(parts, sep) == Split(parts[0], sep) + SplitEach([], sep);
    } else {
      SplitJoinPieces(parts[1..], sep);
      SplitAround(parts[0], Join(parts[1..], sep), sep);
    }
  }
}
