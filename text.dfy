/**
  The two pieces of Python's string handling that the business-hours engine
  relies on: `str.split` with a one-character separator, and `int()` applied to
  a string (base 10).
 */
module Text {
  import opened Wrappers

  // ---------------------------------------------------------------------------
  // str.split(sep)
  // ---------------------------------------------------------------------------

  /** Python's `s.split(sep)` for a one-character separator: the pieces of `s`
      between separators, always at least one (the empty string gives [""]). */
  function Split(s: string, sep: char): (parts: seq<string>)
    ensures |parts| == multiset(s)[sep] + 1
    ensures forall i :: 0 <= i < |parts| ==> sep !in parts[i]
    decreases |s|
  {
    if s == [] then [""]
    else
      var rest := Split(s[1..], sep);
      assert s == [s[0]] + s[1..];
      if s[0] == sep then [""] + rest
      else [[s[0]] + rest[0]] + rest[1..]
  }

  /** Python's `sep.join(parts)`, the inverse of `Split`. */
  function Join(parts: seq<string>, sep: char): string
    requires |parts| >= 1
  {
    if |parts| == 1 then parts[0] else parts[0] + [sep] + Join(parts[1..], sep)
  }

  lemma JoinCons(first: string, rest: seq<string>, sep: char)
    requires |rest| >= 1
    ensures Join([first] + rest, sep) == first + [sep] + Join(rest, sep)
  {
    assert ([first] + rest)[1..] == rest;
  }

  /** A character put in front of the first piece goes in front of the join. */
  lemma JoinPrepend(c: char, parts: seq<string>, sep: char)
    requires |parts| >= 1
    ensures Join([[c] + parts[0]] + parts[1..], sep) == [c] + Join(parts, sep)
  {
    if |parts| > 1 {
      JoinCons([c] + parts[0], parts[1..], sep);
      assert parts == [parts[0]] + parts[1..];
      JoinCons(parts[0], parts[1..], sep);
    }
  }

  /** Joining the pieces gives back the string that was split. */
  lemma {:induction false} JoinSplit(s: string, sep: char)
    ensures Join(Split(s, sep), sep) == s
    decreases |s|
  {
    if s != [] {
      JoinSplit(s[1..], sep);
      var rest := Split(s[1..], sep);
      assert s == [s[0]] + s[1..];
      if s[0] == sep {
        JoinCons("", rest, sep);
      } else {
        JoinPrepend(s[0], rest, sep);
      }
    }
  }

  /** A string without the separator splits into itself alone. */
  lemma SplitWithoutSeparator(s: string, sep: char)
    requires sep !in s
    ensures Split(s, sep) == [s]
  {
    assert multiset(s)[sep] == 0;
    JoinSplit(s, sep);
  }

  /** Splitting distributes over a separator: the pieces of `a + sep + b` are
      the pieces of `a` followed by the pieces of `b`. */
  lemma {:induction false} SplitAround(a: string, b: string, sep: char)
    ensures Split(a + [sep] + b, sep) == Split(a, sep) + Split(b, sep)
    decreases |a|
  {
    var s := a + [sep] + b;
    if a == [] {
      assert s[1..] == b;
    } else {
      assert s[0] == a[0];
      assert s[1..] == a[1..] + [sep] + b;
      SplitAround(a[1..], b, sep);
    }
  }

  /** The first piece of `a + sep + b` is `a`, when `a` has no separator. */
  lemma SplitFirst(a: string, b: string, sep: char)
    requires sep !in a
    ensures Split(a + [sep] + b, sep)[0] == a
  {
    SplitAround(a, b, sep);
    SplitWithoutSeparator(a, sep);
  }

  /** The last piece of `a + sep + c` is `c`, when `c` has no separator. */
  lemma SplitLast(a: string, c: string, sep: char)
    requires sep !in c
    ensures var parts := Split(a + [sep] + c, sep); parts[|parts| - 1] == c
  {
    SplitAround(a, c, sep);
    SplitWithoutSeparator(c, sep);
  }

  /** The first piece of a split is the longest prefix without the
      separator: it is the whole string, or the separator follows it. */
  lemma {:induction false} SplitHead(s: string, sep: char)
    ensures var first := Split(s, sep)[0];
      && first <= s && sep !in first
      && (|first| == |s| || s[|first|] == sep)
    decreases |s|
  {
    if s != [] && s[0] != sep {
      SplitHead(s[1..], sep);
      assert s == [s[0]] + s[1..];
    }
  }

  /** `last` is the longest suffix of `s` without the separator: the whole
      string, or the separator precedes it. */
  predicate LongestTail(s: string, sep: char, last: string) {
    && |last| <= |s| && last == s[|s| - |last|..] && sep !in last
    && (|last| == |s| || s[|s| - |last| - 1] == sep)
  }

  /** The last piece of a split is the longest suffix without the separator:
      it is the whole string, or the separator precedes it. */
  lemma {:induction false} SplitTail(s: string, sep: char)
    ensures var parts := Split(s, sep); var last := parts[|parts| - 1];
      && |last| <= |s| && last == s[|s| - |last|..] && sep !in last
      && (|last| == |s| || s[|s| - |last| - 1] == sep)
    decreases |s|
  {
    if s != [] {
      SplitTail(s[1..], sep);
      var rest := Split(s[1..], sep);
      if s[0] != sep && |rest| == 1 {
        SplitTailWhole(s, sep);
      } else {
        SplitTailInherited(s, sep);
      }
    }
  }

  /** With no separator after the first character, the last piece is all of `s`. */
  lemma SplitTailWhole(s: string, sep: char)
    requires s != [] && s[0] != sep && |Split(s[1..], sep)| == 1
    ensures var parts := Split(s, sep); LongestTail(s, sep, parts[|parts| - 1])
  {
    SplitWithoutSeparatorIff(s[1..], sep);
    SplitWithoutSeparator(s[1..], sep);
    assert s == [s[0]] + s[1..];
  }

  /** Otherwise the last piece of `s` is the last piece of `s[1..]`. */
  lemma SplitTailInherited(s: string, sep: char)
    requires s != [] && (s[0] == sep || |Split(s[1..], sep)| > 1)
    requires var rest := Split(s[1..], sep); LongestTail(s[1..], sep, rest[|rest| - 1])
    ensures var parts := Split(s, sep); LongestTail(s, sep, parts[|parts| - 1])
  {
    var rest := Split(s[1..], sep);
    var last := rest[|rest| - 1];
    var parts := Split(s, sep);
    assert parts[|parts| - 1] == last;
    assert s[1..][|s| - 1 - |last|..] == s[|s| - |last|..];
  }

  /** A single piece means no separator at all. */
  lemma SplitWithoutSeparatorIff(s: string, sep: char)
    ensures |Split(s, sep)| == 1 <==> sep !in s
  {
    assert sep in s <==> multiset(s)[sep] > 0;
  }

  /** Splitting a joined list gives back the list, when no piece holds the
      separator. */
  lemma {:induction false} SplitJoin(parts: seq<string>, sep: char)
    requires |parts| >= 1
    requires forall i :: 0 <= i < |parts| ==> sep !in parts[i]
    ensures Split(Join(parts, sep), sep) == parts
    decreases |parts|
  {
    SplitWithoutSeparator(parts[0], sep);
    if |parts| > 1 {
      SplitJoin(parts[1..], sep);
      SplitAround(parts[0], Join(parts[1..], sep), sep);
      assert parts == [parts[0]] + parts[1..];
    }
  }

  // ---------------------------------------------------------------------------
  // int(s)
  // ---------------------------------------------------------------------------

  /** The whitespace `int()` skips around a number: space, tab, line feed,
      vertical tab, form feed and carriage return. */
  predicate IsSpace(c: char) {
    var n := c as int;
    n == 32 || 9 <= n <= 13
  }

  predicate IsDigit(c: char) { 48 <= c as int <= 57 }

  /** The value of a digit character. */
  function DigitValue(c: char): (v: nat)
    requires IsDigit(c)
    ensures v < 10
  {
    c as int - 48
  }

  /** Drops leading whitespace. */
  function TrimStart(s: string): (r: string)
    ensures |r| <= |s| && r == s[|s| - |r|..]
    ensures r == [] || !IsSpace(r[0])
    ensures forall i :: 0 <= i < |s| - |r| ==> IsSpace(s[i])
  {
    if s != [] && IsSpace(s[0]) then
      var r := TrimStart(s[1..]);
      SpacesBefore(s, r);
      r
    else s
  }

  /** Leading whitespace of `s[1..]` before its suffix `r`, after a leading
      space of `s`, is leading whitespace of `s`. */
  lemma SpacesBefore(s: string, r: string)
    requires s != [] && IsSpace(s[0])
    requires |r| <= |s| - 1 && r == s[1..][|s| - 1 - |r|..]
    requires forall i :: 0 <= i < |s| - 1 - |r| ==> IsSpace(s[1..][i])
    ensures r == s[|s| - |r|..]
    ensures forall i :: 0 <= i < |s| - |r| ==> IsSpace(s[i])
  {
    forall i | 0 < i < |s| - |r|
      ensures IsSpace(s[i])
    {
      assert s[i] == s[1..][i - 1];
    }
  }

  /** Drops trailing whitespace. */
  function TrimEnd(s: string): (r: string)
    ensures |r| <= |s| && r == s[..|r|]
    ensures r == [] || !IsSpace(r[|r| - 1])
    ensures forall i :: |r| <= i < |s| ==> IsSpace(s[i])
  {
    if s != [] && IsSpace(s[|s| - 1]) then TrimEnd(s[..|s| - 1]) else s
  }

  /** `r` is the stretch of `s` from position `a`, with only whitespace
      before and after it. */
  predicate SpacesAround(s: string, a: int, r: string) {
    && 0 <= a <= |s| - |r|
    && r == s[a..a + |r|]
    && (forall i :: 0 <= i < a ==> IsSpace(s[i]))
    && (forall i :: a + |r| <= i < |s| ==> IsSpace(s[i]))
  }

  /** The text `int()` reads: `s` with the whitespace it skips removed from
      both ends. */
  function Strip(s: string): (r: string)
    ensures |r| <= |s| && forall c :: c in r ==> c in s
    ensures r == [] || (!IsSpace(r[0]) && !IsSpace(r[|r| - 1]))
    ensures exists a :: SpacesAround(s, a, r)
  {
    var r := TrimEnd(TrimStart(s));
    TrimBoth(s);
    r
  }

  /** Trimming both ends leaves the stretch of `s` after its leading whitespace. */
  lemma TrimBoth(s: string)
    ensures SpacesAround(s, |s| - |TrimStart(s)|, TrimEnd(TrimStart(s)))
  {
    TrimmedInside(s, TrimStart(s), TrimEnd(TrimStart(s)));
  }

  /** A whitespace-bounded suffix `t` of `s`, cut down to a prefix `r` with
      only whitespace after it, sits in `s` between whitespace. */
  lemma TrimmedInside(s: string, t: string, r: string)
    requires |t| <= |s| && t == s[|s| - |t|..]
    requires forall i :: 0 <= i < |s| - |t| ==> IsSpace(s[i])
    requires |r| <= |t| && r == t[..|r|]
    requires forall i :: |r| <= i < |t| ==> IsSpace(t[i])
    ensures SpacesAround(s, |s| - |t|, r)
  {
    var a := |s| - |t|;
    assert r == s[a..a + |r|];
    forall i | a + |r| <= i < |s|
      ensures IsSpace(s[i])
    {
      assert s[i] == t[i - a];
    }
  }

  /** A decimal literal as `int()` accepts it: digits, with single underscores
      allowed between two digits. */
  predicate IsDigitLiteral(s: string) {
    && |s| > 0
    && IsDigit(s[0])
    && IsDigit(s[|s| - 1])
    && (forall i :: 0 <= i < |s| ==> IsDigit(s[i]) || s[i] == '_')
    && (forall i :: 0 <= i < |s| - 1 ==> IsDigit(s[i]) || IsDigit(s[i + 1]))
  }

  /** The value of a decimal literal, ignoring its underscores. */
  function DigitsValue(s: string): nat {
    if s == [] then 0
    else if s[|s| - 1] == '_' then DigitsValue(s[..|s| - 1])
    else
      var c := s[|s| - 1];
      DigitsValue(s[..|s| - 1]) * 10 + (if IsDigit(c) then DigitValue(c) else 0)
  }

  /** Python's `int(s)`: surrounding whitespace, then an optional sign, then a
      decimal literal; `None` where Python raises ValueError. */
  function ParseInt(s: string): (r: Option<int>)
    ensures r.Some? ==> exists i :: 0 <= i < |s| && IsDigit(s[i])
    ensures r.Some? && r.value < 0 ==> '-' in s
  {
    var t := Strip(s);
    var r := ParseSigned(t);
    if r.Some? then
      var i :| 0 <= i < |t| && IsDigit(t[i]);
      assert t[i] in s;
      assert r.value < 0 ==> t[0] in s;
      r
    else r
  }

  /** An optional sign followed by a decimal literal, with nothing around. */
  function ParseSigned(t: string): (r: Option<int>)
    ensures r.Some? ==> exists i :: 0 <= i < |t| && IsDigit(t[i])
    ensures r.Some? && r.value < 0 ==> |t| > 0 && t[0] == '-'
  {
    if |t| > 0 && (t[0] == '+' || t[0] == '-') then
      if IsDigitLiteral(t[1..]) then
        var v: int := DigitsValue(t[1..]);
        Some(if t[0] == '-' then -v else v)
      else None
    else if IsDigitLiteral(t) then Some(DigitsValue(t))
    else None
  }

  function DigitChar(n: nat): char
    requires n < 10
  {
    (48 + n) as char
  }

  /** The decimal rendering of a natural number, as Python's `str(n)`. */
  function Decimal(n: nat): (s: string)
    ensures IsDigitLiteral(s)
  {
    if n < 10 then [DigitChar(n)] else Decimal(n / 10) + [DigitChar(n % 10)]
  }

  /** Two digits with a leading zero, the `HH` and `MM` of a clock time. */
  function Pad2(n: nat): (s: string)
    requires n < 100
    ensures |s| == 2 && IsDigitLiteral(s)
  {
    [DigitChar(n / 10), DigitChar(n % 10)]
  }

  lemma {:induction false} DigitsValueDecimal(n: nat)
    ensures DigitsValue(Decimal(n)) == n
  {
    if n >= 10 {
      DigitsValueDecimal(n / 10);
      var s := Decimal(n);
      assert s[..|s| - 1] == Decimal(n / 10);
    }
  }

  lemma DigitsValueAppend(s: string, c: char)
    requires IsDigit(c)
    ensures DigitsValue(s + [c]) == DigitsValue(s) * 10 + DigitValue(c)
  {
    assert (s + [c])[..|s|] == s;
  }

  lemma StripNoSpace(s: string)
    requires forall i :: 0 <= i < |s| ==> !IsSpace(s[i])
    ensures Strip(s) == s
  {
  }

  /** `int()` reads back the decimal rendering `str(n)` of any natural
      number. */
  lemma ParseIntDecimal(n: nat)
    ensures ParseInt(Decimal(n)) == Some(n)
  {
    DigitsValueDecimal(n);
    ParseIntLiteral(Decimal(n));
  }

  /** `int()` reads a minus sign before a decimal literal as its negation. */
  lemma ParseIntNegative(s: string)
    requires IsDigitLiteral(s)
    ensures ParseInt("-" + s) == Some(-(DigitsValue(s) as int))
  {
    var m := "-" + s;
    assert m[1..] == s;
    assert m[0] == '-';
    assert !IsSpace(m[0]);
    assert forall i :: 1 <= i < |m| ==> m[i] == s[i - 1];
    StripNoSpace(m);
  }

  /** `int()` reads an unsigned decimal literal as its value. */
  lemma ParseIntLiteral(s: string)
    requires IsDigitLiteral(s)
    ensures ParseInt(s) == Some(DigitsValue(s))
  {
    StripNoSpace(s);
    assert !(s[0] == '+' || s[0] == '-');
  }

  lemma DigitCharValue(d: nat)
    requires d < 10
    ensures IsDigit(DigitChar(d)) && DigitValue(DigitChar(d)) == d
  {
  }

  lemma DigitsValueTwo(hi: char, lo: char)
    requires IsDigit(hi) && IsDigit(lo)
    ensures DigitsValue([hi, lo]) == DigitValue(hi) * 10 + DigitValue(lo)
  {
    DigitsValueAppend([], hi);
    DigitsValueAppend([hi], lo);
    assert [] + [hi] == [hi] && [hi] + [lo] == [hi, lo];
  }

  /** `int()` reads a zero-padded two-digit field as its number. */
  lemma ParseIntPad2(n: nat)
    requires n < 100
    ensures ParseInt(Pad2(n)) == Some(n)
  {
    var q, r := n / 10, n % 10;
    var hi, lo := DigitChar(q), DigitChar(r);
    DigitCharValue(q);
    DigitCharValue(r);
    DigitsValueTwo(hi, lo);
    ParseIntLiteral([hi, lo]);
    assert Pad2(n) == [hi, lo];
    assert DigitsValue([hi, lo]) == q * 10 + r;
    assert q * 10 + r == n;
    assert ParseInt(Pad2(n)) == ParseInt([hi, lo]);
    var v: int := DigitsValue([hi, lo]);
    assert v == n;
  }

  /** A string with no digit at all is not an integer. */
  lemma ParseIntNeedsDigit(s: string)
    requires forall i :: 0 <= i < |s| ==> !IsDigit(s[i])
    ensures ParseInt(s).None?
  {
    var t := Strip(s);
    assert forall c :: c in t ==> !IsDigit(c);
    if |t| > 0 {
      assert t[0] in t;
      if |t| > 1 {
        assert t[1] in t;
      }
    }
  }

  // ---------------------------------------------------------------------------
  // What int() accepts
  // ---------------------------------------------------------------------------

  predicate AllSpace(w: string) {
    forall i :: 0 <= i < |w| ==> IsSpace(w[i])
  }

  /** The sign `int()` allows before the digits: none, `+` or `-`. */
  predicate IsSign(sign: string) {
    sign == "" || sign == "+" || sign == "-"
  }

  /** The value of `sign` followed by the decimal literal `lit`. */
  function SignedValue(sign: string, lit: string): int {
    if sign == "-" then -(DigitsValue(lit) as int) else DigitsValue(lit)
  }

  /** Leading whitespace is dropped up to the first other character. */
  lemma {:induction false} TrimStartSpaces(w: string, x: string)
    requires AllSpace(w) && (x == [] || !IsSpace(x[0]))
    ensures TrimStart(w + x) == x
    decreases |w|
  {
    if w != [] {
      assert (w + x)[0] == w[0];
      assert (w + x)[1..] == w[1..] + x;
      TrimStartSpaces(w[1..], x);
    }
  }

  /** Trailing whitespace is dropped back to the last other character. */
  lemma {:induction false} TrimEndSpaces(y: string, w: string)
    requires AllSpace(w) && (y == [] || !IsSpace(y[|y| - 1]))
    ensures TrimEnd(y + w) == y
    decreases |w|
  {
    if w == [] {
      assert y + w == y;
    } else {
      var yw := y + w;
      assert yw[|yw| - 1] == w[|w| - 1];
      assert yw[..|yw| - 1] == y + w[..|w| - 1];
      TrimEndSpaces(y, w[..|w| - 1]);
    }
  }

  /** Stripping whitespace from around a text that neither starts nor ends
      with whitespace gives back that text. */
  lemma StripAround(w1: string, t: string, w2: string)
    requires AllSpace(w1) && AllSpace(w2)
    requires t != [] && !IsSpace(t[0]) && !IsSpace(t[|t| - 1])
    ensures Strip(w1 + t + w2) == t
  {
    assert w1 + t + w2 == w1 + (t + w2);
    assert (t + w2)[0] == t[0];
    TrimStartSpaces(w1, t + w2);
    TrimEndSpaces(t, w2);
  }

  /** An optional sign followed by a decimal literal reads as its signed value. */
  lemma ParseSignedOf(sign: string, lit: string)
    requires IsSign(sign) && IsDigitLiteral(lit)
    ensures ParseSigned(sign + lit) == Some(SignedValue(sign, lit))
  {
    var t := sign + lit;
    if sign == "" {
      assert t == lit;
    } else {
      assert t[0] == sign[0] && t[1..] == lit;
    }
  }

  /** `int()` accepts whitespace, an optional sign, a decimal literal and
      whitespace, and reads the signed literal. */
  lemma ParseIntOf(w1: string, sign: string, lit: string, w2: string)
    requires AllSpace(w1) && AllSpace(w2) && IsSign(sign) && IsDigitLiteral(lit)
    ensures ParseInt(w1 + sign + lit + w2) == Some(SignedValue(sign, lit))
  {
    var t := sign + lit;
    assert t[|t| - 1] == lit[|lit| - 1];
    assert t[0] == if sign == "" then lit[0] else sign[0];
    assert w1 + sign + lit + w2 == w1 + t + w2;
    StripAround(w1, t, w2);
    ParseSignedOf(sign, lit);
  }

  lemma ConcatRegroup(a: string, b: string, c: string, d: string)
    ensures a + (b + c) + d == a + b + c + d
  {
  }

  /** The whitespace around the stripped text. */
  lemma StripShape(s: string) returns (w1: string, w2: string)
    ensures AllSpace(w1) && AllSpace(w2) && s == w1 + Strip(s) + w2
  {
    var t := Strip(s);
    var a :| SpacesAround(s, a, t);
    var b := a + |t|;
    w1, w2 := s[..a], s[b..];
    assert AllSpace(w1) by {
      forall i | 0 <= i < |w1| ensures IsSpace(w1[i]) { assert w1[i] == s[i]; }
    }
    assert AllSpace(w2) by {
      forall i | 0 <= i < |w2| ensures IsSpace(w2[i]) { assert w2[i] == s[b + i]; }
    }
    SliceThree(s, a, b);
  }

  lemma SliceThree(s: string, a: nat, b: nat)
    requires a <= b <= |s|
    ensures s == s[..a] + s[a..b] + s[b..]
  {
  }

  /** Every text `ParseSigned` accepts is an optional sign and a literal. */
  lemma ParseSignedShape(t: string) returns (sign: string, lit: string)
    requires ParseSigned(t).Some?
    ensures IsSign(sign) && IsDigitLiteral(lit) && t == sign + lit
  {
    if |t| > 0 && (t[0] == '+' || t[0] == '-') {
      sign, lit := t[..1], t[1..];
      assert t == t[..1] + t[1..];
    } else {
      sign, lit := "", t;
    }
  }

  /** Conversely, every text `int()` accepts has that shape: whitespace, an
      optional sign, a decimal literal and whitespace, and its value is the
      signed literal. */
  lemma ParseIntShape(s: string) returns (w1: string, sign: string, lit: string, w2: string)
    requires ParseInt(s).Some?
    ensures AllSpace(w1) && AllSpace(w2) && IsSign(sign) && IsDigitLiteral(lit)
    ensures s == w1 + sign + lit + w2
    ensures ParseInt(s) == Some(SignedValue(sign, lit))
  {
    var t := Strip(s);
    assert ParseSigned(t).Some?;
    w1, w2 := StripShape(s);
    sign, lit := ParseSignedShape(t);
    ConcatRegroup(w1, sign, lit, w2);
    ParseIntOf(w1, sign, lit, w2);
  }
}
