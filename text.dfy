/**
  The pieces of Python's string handling that the scripts rely on when they
  name and rediscover files: `str.split` with a one-character separator,
  `os.path.basename`, `int()` on a run of digits, the zero-padded `%0Nd`
  format, and the ordering `<` on strings.
 */
module Text {
  import opened Wrappers

  // ---------------------------------------------------------------------
  // Digits
  // ---------------------------------------------------------------------

  predicate IsDigit(c: char) { '0' <= c <= '9' }

  predicate AllDigits(s: string) { forall k :: 0 <= k < |s| ==> IsDigit(s[k]) }

  function DigitChar(d: nat): (c: char)
    requires d < 10
    ensures IsDigit(c) && c as int - '0' as int == d
  {
    ('0' as int + d) as char
  }

  function Pow10(w: nat): (p: nat)
    ensures p >= 1
  {
    if w == 0 then 1 else 10 * Pow10(w - 1)
  }

  /** The value of a string of decimal digits, as Python's `int()` reads it. */
  function DigitsValue(s: string): nat
    requires AllDigits(s)
  {
    if s == [] then 0
    else 10 * DigitsValue(s[..|s| - 1]) + (s[|s| - 1] as int - '0' as int)
  }

  /** The last `w` decimal digits of `n`, most significant first. */
  function Fixed(n: nat, w: nat): (s: string)
    ensures |s| == w && AllDigits(s)
  {
    if w == 0 then [] else Fixed(n / 10, w - 1) + [DigitChar(n % 10)]
  }

  /** The shortest decimal representation of `n`, as `str(n)` prints it. */
  function Decimal(n: nat): (s: string)
    ensures |s| >= 1 && AllDigits(s)
    ensures n > 0 ==> s[0] != '0'
  {
    if n < 10 then [DigitChar(n)] else Decimal(n / 10) + [DigitChar(n % 10)]
  }

  /**
    Python's `f"{n:0wd}"` for `n >= 0`: at least `w` digits, left-padded with
    zeros, and all the digits of `n` when it has more than `w`.
   */
  function ZeroPad(n: nat, w: nat): (s: string)
    requires w >= 1
    ensures AllDigits(s) && |s| >= w
    ensures n < Pow10(w) ==> |s| == w
    ensures |s| > w ==> s[0] != '0'
  {
    if n < Pow10(w) then Fixed(n, w) else DecimalLength(n, w); Decimal(n)
  }

  lemma {:induction false} DecimalLength(n: nat, w: nat)
    requires n >= Pow10(w)
    ensures |Decimal(n)| > w
  {
    if w > 0 {
      DecimalLength(n / 10, w - 1);
    }
  }

  lemma {:induction false} FixedValue(n: nat, w: nat)
    requires n < Pow10(w)
    ensures DigitsValue(Fixed(n, w)) == n
  {
    if w > 0 {
      FixedValue(n / 10, w - 1);
      var s := Fixed(n, w);
      assert s[..|s| - 1] == Fixed(n / 10, w - 1);
    }
  }

  lemma {:induction false} DecimalValue(n: nat)
    ensures DigitsValue(Decimal(n)) == n
  {
    var s := Decimal(n);
    if n < 10 {
      assert s[..|s| - 1] == [];
    } else {
      DecimalValue(n / 10);
      assert s[..|s| - 1] == Decimal(n / 10);
    }
  }

  /** Reading back a zero-padded number gives the number. */
  lemma ZeroPadValue(n: nat, w: nat)
    requires w >= 1
    ensures DigitsValue(ZeroPad(n, w)) == n
  {
    if n < Pow10(w) { FixedValue(n, w); } else { DecimalValue(n); }
  }

  /** Python's `int(s)` restricted to plain ASCII digit strings. */
  function ParseInt(s: string): (r: Option<nat>)
    ensures r.Some? <==> s != [] && AllDigits(s)
  {
    if s != [] && AllDigits(s) then Some(DigitsValue(s)) else None
  }

  // ---------------------------------------------------------------------
  // str.split and os.path.basename
  // ---------------------------------------------------------------------

  /** Python's `s.split(c)` for a one-character separator `c`. */
  function Split(s: string, c: char): (parts: seq<string>)
    ensures |parts| >= 1
    ensures forall k :: 0 <= k < |parts| ==> c !in parts[k]
  {
    if s == [] then [[]]
    else
      var rest := Split(s[1..], c);
      if s[0] == c then [[]] + rest
      else [[s[0]] + rest[0]] + rest[1..]
  }

  /** Python's `c.join(parts)`, the inverse of `Split`. */
  function Join(parts: seq<string>, c: char): string
    requires |parts| >= 1
  {
    if |parts| == 1 then parts[0] else parts[0] + [c] + Join(parts[1..], c)
  }

  lemma {:induction false} SplitJoin(s: string, c: char)
    ensures Join(Split(s, c), c) == s
  {
    if s != [] {
      SplitJoin(s[1..], c);
      var rest := Split(s[1..], c);
      if s[0] != c {
        var parts := Split(s, c);
        if |rest| > 1 {
          assert parts[1..] == rest[1..];
        }
      }
    }
  }

  lemma {:induction false} SplitNoSeparator(s: string, c: char)
    requires c !in s
    ensures Split(s, c) == [s]
  {
    if s != [] {
      SplitNoSeparator(s[1..], c);
      assert [s[0]] + s[1..] == s;
    }
  }

  /** Splitting at an occurrence of the separator splits the two sides independently. */
  lemma {:induction false} SplitAround(a: string, b: string, c: char)
    ensures Split(a + [c] + b, c) == Split(a, c) + Split(b, c)
  {
    if a == [] {
      assert a + [c] + b == [c] + b;
      assert ([c] + b)[1..] == b;
    } else {
      assert (a + [c] + b)[1..] == a[1..] + [c] + b;
      SplitAround(a[1..], b, c);
    }
  }

  /** `os.path.basename`: what follows the last `/`. */
  function Basename(path: string): (r: string)
    ensures '/' !in r
  {
    var parts := Split(path, '/');
    parts[|parts| - 1]
  }

  lemma BasenameOfJoin(dir: string, name: string)
    requires '/' !in name
    ensures Basename(dir + "/" + name) == name
  {
    SplitAround(dir, name, '/');
    SplitNoSeparator(name, '/');
  }

  // ---------------------------------------------------------------------
  // Python's ordering of strings: lexicographic by code point
  // ---------------------------------------------------------------------

  predicate LexLess(a: string, b: string)
  {
    if a == [] then b != []
    else if b == [] then false
    else a[0] < b[0] || (a[0] == b[0] && LexLess(a[1..], b[1..]))
  }

  lemma {:induction false} LexIrreflexive(a: string)
    ensures !LexLess(a, a)
  {
    if a != [] { LexIrreflexive(a[1..]); }
  }

  lemma {:induction false} LexAsymmetric(a: string, b: string)
    ensures !(LexLess(a, b) && LexLess(b, a))
  {
    if a != [] && b != [] && a[0] == b[0] { LexAsymmetric(a[1..], b[1..]); }
  }

  lemma {:induction false} LexTransitive(a: string, b: string, d: string)
    requires LexLess(a, b) && LexLess(b, d)
    ensures LexLess(a, d)
  {
    if a != [] && a[0] == b[0] && b[0] == d[0] {
      LexTransitive(a[1..], b[1..], d[1..]);
    }
  }

  lemma {:induction false} LexTotal(a: string, b: string)
    ensures a == b || LexLess(a, b) || LexLess(b, a)
  {
    if a != [] && b != [] && a[0] == b[0] {
      LexTotal(a[1..], b[1..]);
      if a[1..] == b[1..] {
        assert a == [a[0]] + a[1..] && b == [b[0]] + b[1..];
      }
    }
  }

  /** Two strings of equal length already ordered stay ordered whatever follows them. */
  lemma {:induction false} LexExtend(a: string, b: string, s: string, t: string)
    requires |a| == |b| && LexLess(a, b)
    ensures LexLess(a + s, b + t)
  {
    if a[0] == b[0] {
      assert (a + s)[1..] == a[1..] + s && (b + t)[1..] == b[1..] + t;
      LexExtend(a[1..], b[1..], s, t);
    }
  }

  /** A common prefix does not change the order. */
  lemma {:induction false} LexCommonPrefix(p: string, a: string, b: string)
    requires LexLess(a, b)
    ensures LexLess(p + a, p + b)
  {
    if p == [] {
      assert p + a == a && p + b == b;
    } else {
      assert (p + a)[1..] == p[1..] + a && (p + b)[1..] == p[1..] + b;
      LexCommonPrefix(p[1..], a, b);
    }
  }

  /** Fixed-width digit strings sort in numeric order, in both directions. */
  lemma {:induction false} FixedLexOrder(m: nat, n: nat, w: nat)
    requires m < Pow10(w) && n < Pow10(w)
    ensures LexLess(Fixed(m, w), Fixed(n, w)) <==> m < n
  {
    if m < n {
      FixedLexMonotone(m, n, w);
    } else if m == n {
      LexIrreflexive(Fixed(m, w));
    } else {
      FixedLexMonotone(n, m, w);
      LexAsymmetric(Fixed(m, w), Fixed(n, w));
    }
  }

  lemma {:induction false} FixedLexMonotone(m: nat, n: nat, w: nat)
    requires m < n < Pow10(w)
    ensures LexLess(Fixed(m, w), Fixed(n, w))
  {
    var hm, hn := Fixed(m / 10, w - 1), Fixed(n / 10, w - 1);
    var dm, dn := DigitChar(m % 10), DigitChar(n % 10);
    if m / 10 < n / 10 {
      FixedLexMonotone(m / 10, n / 10, w - 1);
      LexExtend(hm, hn, [dm], [dn]);
    } else {
      assert hm == hn && dm < dn;
      assert LexLess([dm], [dn]);
      LexCommonPrefix(hm, [dm], [dn]);
    }
  }
}
