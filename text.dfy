/**
 * The JavaScript string built-ins the upload handler relies on:
 * `String.prototype.split` on one character, `String.prototype.trim`,
 * `Array.prototype.join`, `parseInt(s, 10)` and the decimal rendering
 * of a number inside a template literal.
 */
module Text {
  import opened Wrappers

  /** The WhiteSpace and LineTerminator code points of ECMAScript,
      which both `trim` and `parseInt` skip. */
  predicate IsSpace(c: char) {
    c == '\t' || c == '\n' || c == '\U{B}' || c == '\U{C}' || c == '\r' || c == ' '
    || c == '\U{A0}' || c == '\U{1680}' || ('\U{2000}' <= c <= '\U{200A}')
    || c == '\U{2028}' || c == '\U{2029}' || c == '\U{202F}' || c == '\U{205F}'
    || c == '\U{3000}' || c == '\U{FEFF}'
  }

  predicate AllSpace(s: string) {
    forall k :: 0 <= k < |s| ==> IsSpace(s[k])
  }

  // ------------------------------------------------------------------
  // trim

  /** Drops the leading white space: the result is the suffix of `s`
      that starts at its first non-space character. */
  function TrimStart(s: string): (r: string)
    ensures |r| <= |s| && r == s[|s| - |r|..]
    ensures forall k :: 0 <= k < |s| - |r| ==> IsSpace(s[k])
    ensures r == [] || !IsSpace(r[0])
  {
    if s != [] && IsSpace(s[0]) then TrimStart(s[1..]) else s
  }

  /** Drops the trailing white space: the result is the prefix of `s`
      that ends at its last non-space character. */
  function TrimEnd(s: string): (r: string)
    ensures |r| <= |s| && r == s[..|r|]
    ensures forall k :: |r| <= k < |s| ==> IsSpace(s[k])
    ensures r == [] || !IsSpace(r[|r| - 1])
  {
    if s != [] && IsSpace(s[|s| - 1]) then TrimEnd(s[..|s| - 1]) else s
  }

  /** `s.trim()`: `s` without its leading and its trailing white space. */
  function Trim(s: string): (r: string)
    ensures r == [] || (!IsSpace(r[0]) && !IsSpace(r[|r| - 1]))
  {
    TrimEnd(TrimStart(s))
  }

  /** Trimming only removes characters: one absent before is absent after. */
  lemma TrimKeepsOut(s: string, c: char)
    requires c !in s
    ensures c !in Trim(s)
  {
    var t := TrimStart(s);
    SliceKeepsOut(s, |s| - |t|, |s|, c);
    SliceKeepsOut(t, 0, |TrimEnd(t)|, c);
  }

  lemma SliceKeepsOut(s: string, i: nat, j: nat, c: char)
    requires i <= j <= |s| && c !in s
    ensures c !in s[i..j]
  {
    forall k | 0 <= k < j - i ensures s[i..j][k] != c {
      assert s[i..j][k] == s[i + k];
    }
  }

  /** Trimming is insensitive to the white space around a string whose
      ends are not white space, so it recovers that string exactly. */
  lemma {:induction false} TrimPadded(p: string, s: string, q: string)
    requires AllSpace(p) && AllSpace(q)
    requires s == [] || (!IsSpace(s[0]) && !IsSpace(s[|s| - 1]))
    ensures Trim(p + s + q) == s
  {
    if s == [] {
      assert p + s + q == p + q;
      assert AllSpace(p + q);
      TrimStartPadded(p + q, []);
      assert p + q + [] == p + q;
    } else {
      assert p + s + q == p + (s + q);
      TrimStartPadded(p, s + q);
      TrimEndPadded(s, q);
    }
  }

  lemma {:induction false} TrimStartPadded(p: string, t: string)
    requires AllSpace(p)
    requires t == [] || !IsSpace(t[0])
    ensures TrimStart(p + t) == t
  {
    if p != [] {
      assert (p + t)[1..] == p[1..] + t;
      TrimStartPadded(p[1..], t);
    }
  }

  lemma {:induction false} TrimEndPadded(s: string, q: string)
    requires AllSpace(q)
    requires s == [] || !IsSpace(s[|s| - 1])
    ensures TrimEnd(s + q) == s
  {
    if q != [] {
      var q' := q[..|q| - 1];
      assert (s + q)[..|s + q| - 1] == s + q';
      TrimEndPadded(s, q');
    } else {
      assert s + q == s;
    }
  }

  /** Trimming twice is trimming once. */
  lemma {:induction false} TrimIdempotent(s: string)
    ensures Trim(Trim(s)) == Trim(s)
  {
    var t := Trim(s);
    assert [] + t + [] == t;
    TrimPadded([], t, []);
  }

  // ------------------------------------------------------------------
  // split and join

  /** Number of occurrences of `c` in `s`. */
  function Count(s: string, c: char): nat {
    if s == [] then 0 else (if s[0] == c then 1 else 0) + Count(s[1..], c)
  }

  /** `s.split(sep)` for a one-character separator: the pieces of `s`
      between separators, empty pieces included. */
  function Split(s: string, sep: char): (r: seq<string>)
    ensures |r| >= 1
  {
    if s == [] then [""]
    else
      var rest := Split(s[1..], sep);
      if s[0] == sep then [""] + rest
      else [[s[0]] + rest[0]] + rest[1..]
  }

  /** No piece contains the separator. */
  lemma {:induction false} SplitPiecesFree(s: string, sep: char)
    ensures forall k :: 0 <= k < |Split(s, sep)| ==> sep !in Split(s, sep)[k]
  {
    if s != [] {
      SplitPiecesFree(s[1..], sep);
      var rest := Split(s[1..], sep);
      if s[0] != sep {
        assert sep !in [s[0]] + rest[0];
      }
    }
  }

  /** There is one piece more than there are separators: an empty piece
      is kept, never dropped. */
  lemma {:induction false} SplitCount(s: string, sep: char)
    ensures |Split(s, sep)| == Count(s, sep) + 1
  {
    if s != [] {
      SplitCount(s[1..], sep);
    }
  }

  /** `xs.join(sep)`. */
  function Join(xs: seq<string>, sep: string): string {
    if xs == [] then ""
    else if |xs| == 1 then xs[0]
    else xs[0] + sep + Join(xs[1..], sep)
  }

  /** Joining the pieces with the separator gives back the original text. */
  lemma {:induction false} JoinSplit(s: string, sep: char)
    ensures Join(Split(s, sep), [sep]) == s
  {
    if s != [] {
      var rest := Split(s[1..], sep);
      JoinSplit(s[1..], sep);
      if s[0] == sep {
        assert ([""] + rest)[1..] == rest;
      } else if |rest| > 1 {
        assert ([[s[0]] + rest[0]] + rest[1..])[1..] == rest[1..];
        assert Join(rest, [sep]) == rest[0] + [sep] + Join(rest[1..], [sep]);
      }
      assert s == [s[0]] + s[1..];
    }
  }

  /** How one more leading character changes a split: a separator opens a new
      empty piece, any other character joins the first piece. */
  function ConsPiece(x: char, pieces: seq<string>, sep: char): seq<string>
    requires |pieces| >= 1
  {
    if x == sep then [""] + pieces else [[x] + pieces[0]] + pieces[1..]
  }

  lemma {:induction false} SplitCons(x: char, s: string, sep: char)
    ensures Split([x] + s, sep) == ConsPiece(x, Split(s, sep), sep)
  {
    assert ([x] + s)[1..] == s;
  }

  lemma ConsPieceAppend(x: char, pieces: seq<string>, tail: seq<string>, sep: char)
    requires |pieces| >= 1
    ensures ConsPiece(x, pieces + tail, sep) == ConsPiece(x, pieces, sep) + tail
  {
    if x != sep {
      assert (pieces + tail)[0] == pieces[0];
      assert (pieces + tail)[1..] == pieces[1..] + tail;
    }
  }

  /** Splitting at one separator splits the two sides independently. */
  lemma {:induction false} SplitAppend(a: string, b: string, sep: char)
    ensures Split(a + [sep] + b, sep) == Split(a, sep) + Split(b, sep)
  {
    SplitAt(a, [sep] + b, b, sep);
    assert a + [sep] + b == a + ([sep] + b);
  }

  lemma {:induction false} SplitAt(a: string, t: string, b: string, sep: char)
    requires t == [sep] + b
    ensures Split(a + t, sep) == Split(a, sep) + Split(b, sep)
  {
    if a == [] {
      assert a + t == t;
      SplitCons(sep, b, sep);
    } else {
      var x, a' := a[0], a[1..];
      assert a + t == [x] + (a' + t);
      assert a == [x] + a';
      SplitAt(a', t, b, sep);
      SplitCons(x, a' + t, sep);
      SplitCons(x, a', sep);
      ConsPieceAppend(x, Split(a', sep), Split(b, sep), sep);
    }
  }

  lemma {:induction false} SplitNoSeparator(s: string, sep: char)
    requires sep !in s
    ensures Split(s, sep) == [s]
  {
    if s != [] {
      SplitNoSeparator(s[1..], sep);
      assert s == [s[0]] + s[1..];
    }
  }

  /** Splitting a join of separator-free pieces gives back the pieces. */
  lemma {:induction false} SplitJoin(xs: seq<string>, sep: char)
    requires |xs| >= 1
    requires forall k :: 0 <= k < |xs| ==> sep !in xs[k]
    ensures Split(Join(xs, [sep]), sep) == xs
  {
    if |xs| == 1 {
      SplitNoSeparator(xs[0], sep);
    } else {
      SplitJoin(xs[1..], sep);
      SplitAppend(xs[0], Join(xs[1..], [sep]), sep);
      SplitNoSeparator(xs[0], sep);
      assert xs == [xs[0]] + xs[1..];
    }
  }

  // ------------------------------------------------------------------
  // decimal numbers

  predicate IsDigit(c: char) {
    '0' <= c <= '9'
  }

  predicate AllDigits(s: string) {
    forall k :: 0 <= k < |s| ==> IsDigit(s[k])
  }

  function DigitChar(d: nat): (c: char)
    requires d < 10
    ensures IsDigit(c) && c as int - '0' as int == d
  {
    ('0' as int + d) as char
  }

  /** Value of a string of decimal digits, most significant first. */
  function DigitsValue(s: string): nat
    requires AllDigits(s)
  {
    if s == [] then 0
    else DigitsValue(s[..|s| - 1]) * 10 + (s[|s| - 1] as int - '0' as int)
  }

  /** The decimal rendering of a natural number, as `${n}` produces it:
      at least one digit and no leading zero. */
  function Decimal(n: nat): (r: string)
    ensures |r| >= 1 && AllDigits(r)
    ensures r[0] == '0' ==> n == 0
  {
    if n < 10 then [DigitChar(n)] else Decimal(n / 10) + [DigitChar(n % 10)]
  }

  /** Reading the rendering back gives the number. */
  lemma {:induction false} DecimalValue(n: nat)
    ensures DigitsValue(Decimal(n)) == n
  {
    if n >= 10 {
      DecimalValue(n / 10);
      var d := Decimal(n);
      assert d[..|d| - 1] == Decimal(n / 10);
    }
  }

  /** Distinct numbers have distinct renderings. */
  lemma {:induction false} DecimalInjective(m: nat, n: nat)
    requires Decimal(m) == Decimal(n)
    ensures m == n
  {
    DecimalValue(m);
    DecimalValue(n);
  }

  /** The longest prefix of `s` made of decimal digits. */
  function DigitPrefix(s: string): (r: string)
    ensures |r| <= |s| && r == s[..|r|] && AllDigits(r)
    ensures |r| == |s| || !IsDigit(s[|r|])
  {
    if s != [] && IsDigit(s[0]) then [s[0]] + DigitPrefix(s[1..]) else []
  }

  lemma {:induction false} DigitPrefixOf(d: string, t: string)
    requires AllDigits(d)
    requires t == [] || !IsDigit(t[0])
    ensures DigitPrefix(d + t) == d
  {
    if d != [] {
      assert (d + t)[1..] == d[1..] + t;
      DigitPrefixOf(d[1..], t);
      assert d == [d[0]] + d[1..];
    } else {
      assert d + t == t;
    }
  }

  /** `parseInt(s, 10)`: skip leading white space, take an optional sign,
      then the longest run of decimal digits; no digit at all gives NaN,
      written `None`. The value is the exact integer: JavaScript rounds it
      to a double, which changes nothing up to `ExactDoubleLimit`. */
  function ParseInt(s: string): Option<int> {
    ParseSigned(TrimStart(s))
  }

  /** `parseInt` once the white space is skipped. */
  function ParseSigned(t: string): Option<int> {
    if t != [] && t[0] == '-' then
      match ParseDigits(t[1..])
      case None => None
      case Some(v) => Some(-v)
    else if t != [] && t[0] == '+' then ParseDigits(t[1..])
    else ParseDigits(t)
  }

  /** The value of the leading digits, `None` when there are none. */
  function ParseDigits(body: string): Option<int> {
    var digits := DigitPrefix(body);
    if digits == [] then None else Some(DigitsValue(digits))
  }

  /** 2^53: every integer up to it is a double, so `parseInt` is exact there. */
  const ExactDoubleLimit: nat := 0x20_0000_0000_0000

  lemma {:induction false} ParseDigitsDecimal(n: nat, t: string)
    requires t == [] || !IsDigit(t[0])
    ensures ParseDigits(Decimal(n) + t) == Some(n)
  {
    DecimalValue(n);
    DigitPrefixOf(Decimal(n), t);
  }

  /** `parseInt` reads back a rendered number, after any leading white
      space and before any trailing text that does not start with a digit. */
  lemma {:induction false} ParseIntDecimal(p: string, n: nat, t: string)
    requires n <= ExactDoubleLimit
    requires AllSpace(p)
    requires t == [] || !IsDigit(t[0])
    ensures ParseInt(p + Decimal(n) + t) == Some(n)
  {
    var u := Decimal(n) + t;
    assert p + Decimal(n) + t == p + u;
    assert IsDigit(u[0]);
    TrimStartPadded(p, u);
    ParseDigitsDecimal(n, t);
  }

  /** The same with a sign in front of the digits. */
  lemma {:induction false} ParseIntSignedDecimal(p: string, sign: char, n: nat, t: string)
    requires n <= ExactDoubleLimit
    requires AllSpace(p) && (sign == '-' || sign == '+')
    requires t == [] || !IsDigit(t[0])
    ensures ParseInt(p + [sign] + Decimal(n) + t) == Some(if sign == '-' then -(n as int) else n)
  {
    var body := Decimal(n) + t;
    var u := [sign] + body;
    assert p + [sign] + Decimal(n) + t == p + u;
    assert !IsSpace(u[0]);
    TrimStartPadded(p, u);
    assert u[1..] == body;
    ParseDigitsDecimal(n, t);
  }

  /** A text with no digit right after the white space and the optional
      sign is NaN. */
  lemma {:induction false} ParseIntNoDigits(s: string)
    requires var t := TrimStart(s);
      var body := if t != [] && (t[0] == '-' || t[0] == '+') then t[1..] else t;
      body == [] || !IsDigit(body[0])
    ensures ParseInt(s) == None
  {
  }
}
