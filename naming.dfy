/** String helpers shared by the pipeline: pathlib suffixes, str.endswith, os.path.splitext,
    Python's decimal formatting (f"{n}" and f"{n:03d}") and Python's ordering of strings. */
module Naming {

  // ---------------------------------------------------------------- case and suffixes

  /** str.lower() restricted to ASCII letters: other letters are left as they are. */
  function LowerChar(c: char): char {
    if 'A' <= c <= 'Z' then (c as int + 32) as char else c
  }

  function Lower(s: string): (r: string)
    ensures |r| == |s|
    ensures forall i :: 0 <= i < |s| ==> r[i] == LowerChar(s[i])
  {
    seq(|s|, i requires 0 <= i < |s| => LowerChar(s[i]))
  }

  /** str.rfind('.'): the index of the last dot, or -1. */
  function LastDot(s: string): (r: int)
    ensures -1 <= r < |s|
    ensures r >= 0 ==> s[r] == '.'
    ensures forall i :: r < i < |s| ==> s[i] != '.'
    decreases |s|
  {
    if |s| == 0 then -1
    else if s[|s| - 1] == '.' then |s| - 1
    else LastDot(s[..|s| - 1])
  }

  /** PurePath.suffix: from the last dot on, provided that dot is neither the first nor the
      last character of the name; otherwise empty. */
  function Suffix(name: string): (r: string)
    ensures r == [] || (r[0] == '.' && '.' !in r[1..] && 1 < |r| < |name|)
  {
    var i := LastDot(name);
    if 0 < i < |name| - 1 then name[i..] else ""
  }

  /** str.endswith. */
  predicate EndsWith(s: string, tail: string) {
    |tail| <= |s| && s[|s| - |tail|..] == tail
  }

  /** A name that does not end in a dot gets, after "x" + ".jpg", the suffix ".jpg". */
  lemma SuffixOfAppended(stem: string, ext: string)
    requires |stem| > 0 && |ext| >= 2 && ext[0] == '.' && '.' !in ext[1..]
    ensures Suffix(stem + ext) == ext
  {
    var s := stem + ext;
    assert s[|stem|] == '.';
    assert forall i :: |stem| < i < |s| ==> s[i] == ext[1..][i - |stem| - 1];
    assert LastDot(s) == |stem|;
    assert s[|stem|..] == ext;
  }

  /** os.path.splitext(name)[0] for a base name: the last extension is cut off only when some
      character before the last dot is not itself a dot (leading dots do not start an extension). */
  function SplitExtRoot(name: string): (r: string)
    ensures |r| <= |name| && r == name[..|r|]
    ensures |r| < |name| ==>
              && name[|r|] == '.'
              && (forall i :: |r| < i < |name| ==> name[i] != '.')
              && (exists i :: 0 <= i < |r| && name[i] != '.')
    ensures |r| == |name| ==> forall i, j :: 0 <= j < i < |name| && name[i] == '.' ==> name[j] == '.'
  {
    var d := LastDot(name);
    if d > 0 && !(forall i :: 0 <= i < d ==> name[i] == '.') then name[..d] else name
  }

  /** The stem of <stem>.mp4 is <stem>, for any stem that is not made of dots alone. */
  lemma SplitExtRootMp4(stem: string)
    requires exists i :: 0 <= i < |stem| && stem[i] != '.'
    ensures SplitExtRoot(stem + ".mp4") == stem
  {
    var s := stem + ".mp4";
    assert s[|stem|] == '.' && s[|stem| + 1] == 'm' && s[|stem| + 2] == 'p' && s[|stem| + 3] == '4';
    assert LastDot(s) == |stem| by {
      var d := LastDot(s);
      assert d >= |stem|;
      assert d != |stem| + 1 && d != |stem| + 2 && d != |stem| + 3;
    }
    var k :| 0 <= k < |stem| && stem[k] != '.';
    assert s[k] != '.';
    assert s[..|stem|] == stem;
  }

  // ---------------------------------------------------------------- decimal numbers

  function Pow10(w: nat): (p: nat)
    ensures p >= 1
  {
    if w == 0 then 1 else 10 * Pow10(w - 1)
  }

  function DigitChar(d: nat): (c: char)
    requires d < 10
    ensures '0' <= c <= '9'
  {
    ('0' as int + d) as char
  }

  /** The last w decimal digits of n, most significant first. */
  function Fixed(n: nat, w: nat): (r: string)
    ensures |r| == w
    ensures forall i :: 0 <= i < w ==> '0' <= r[i] <= '9'
  {
    if w == 0 then "" else Fixed(n / 10, w - 1) + [DigitChar(n % 10)]
  }

  /** The number of decimal digits of n (1 for zero). */
  function NumDigits(n: nat): (w: nat)
    ensures w >= 1
  {
    if n < 10 then 1 else 1 + NumDigits(n / 10)
  }

  /** f"{n}" */
  function Str(n: nat): (r: string)
    ensures |r| == NumDigits(n)
  {
    Fixed(n, NumDigits(n))
  }

  /** f"{n:03d}": zero-padded to at least three digits. */
  function Pad3(n: nat): (r: string)
    ensures |r| == if NumDigits(n) < 3 then 3 else NumDigits(n)
  {
    Fixed(n, if NumDigits(n) < 3 then 3 else NumDigits(n))
  }

  lemma {:induction false} NumDigitsBound(n: nat)
    ensures n < Pow10(NumDigits(n))
  {
    if n >= 10 {
      NumDigitsBound(n / 10);
    }
  }

  lemma {:induction false} FixedInjective(a: nat, b: nat, w: nat)
    requires a < Pow10(w) && b < Pow10(w)
    requires Fixed(a, w) == Fixed(b, w)
    ensures a == b
  {
    if w == 0 {
    } else {
      var fa, fb := Fixed(a, w), Fixed(b, w);
      assert fa[w - 1] == DigitChar(a % 10) && fb[w - 1] == DigitChar(b % 10);
      assert a % 10 == b % 10;
      assert fa[..w - 1] == Fixed(a / 10, w - 1);
      assert fb[..w - 1] == Fixed(b / 10, w - 1);
      FixedInjective(a / 10, b / 10, w - 1);
    }
  }

  lemma LongerFixed(n: nat, w: nat)
    requires NumDigits(n) <= w
    ensures n < Pow10(w)
  {
    NumDigitsBound(n);
    Pow10Monotone(NumDigits(n), w);
  }

  lemma {:induction false} Pow10Monotone(u: nat, w: nat)
    requires u <= w
    ensures Pow10(u) <= Pow10(w)
  {
    if u < w {
      Pow10Monotone(u, w - 1);
    }
  }

  /** Distinct numbers print differently. */
  lemma StrInjective(a: nat, b: nat)
    requires Str(a) == Str(b)
    ensures a == b
  {
    LongerFixed(a, NumDigits(a));
    LongerFixed(b, NumDigits(a));
    FixedInjective(a, b, NumDigits(a));
  }

  /** Distinct numbers print differently when zero-padded too. */
  lemma Pad3Injective(a: nat, b: nat)
    requires Pad3(a) == Pad3(b)
    ensures a == b
  {
    var w := |Pad3(a)|;
    LongerFixed(a, w);
    LongerFixed(b, w);
    FixedInjective(a, b, w);
  }

  /** Two strings built as p + x + q and p + y + q with |x| == |y| are equal only if x == y. */
  lemma MiddleInjective(p: string, x: string, y: string, q: string, q': string)
    requires p + x + q == p + y + q'
    requires |x| == |y|
    ensures x == y
  {
    assert x == (p + x + q)[|p|..|p| + |x|];
    assert y == (p + y + q')[|p|..|p| + |y|];
  }

  // ---------------------------------------------------------------- Python's string order

  /** a <= b for Python strings: code-point lexicographic order. */
  predicate LexLe(a: string, b: string)
    decreases |a|
  {
    |a| == 0 || (|b| > 0 && (a[0] < b[0] || (a[0] == b[0] && LexLe(a[1..], b[1..]))))
  }

  lemma {:induction false} LexTotal(a: string, b: string)
    ensures LexLe(a, b) || LexLe(b, a)
    decreases |a|
  {
    if |a| > 0 && |b| > 0 && a[0] == b[0] {
      LexTotal(a[1..], b[1..]);
    }
  }

  lemma {:induction false} LexTransitive(a: string, b: string, c: string)
    requires LexLe(a, b) && LexLe(b, c)
    ensures LexLe(a, c)
    decreases |a|
  {
    if |a| > 0 && a[0] == b[0] && b[0] == c[0] {
      LexTransitive(a[1..], b[1..], c[1..]);
    }
  }

  predicate SortedLex(s: seq<string>) {
    forall i, j :: 0 <= i < j < |s| ==> LexLe(s[i], s[j])
  }

  function Insert(x: string, s: seq<string>): (r: seq<string>)
    requires SortedLex(s)
    ensures SortedLex(r)
    ensures multiset(r) == multiset(s) + multiset{x}
  {
    if s == [] then [x]
    else if LexLe(x, s[0]) then
      forall y | y in s ensures LexLe(x, y) {
        var j :| 0 <= j < |s| && s[j] == y;
        if j > 0 { LexTransitive(x, s[0], s[j]); }
      }
      SortedCons(x, s);
      [x] + s
    else
      var rest := Insert(x, s[1..]);
      LexTotal(x, s[0]);
      assert s == [s[0]] + s[1..];
      forall y | y in rest ensures LexLe(s[0], y) {
        assert y in multiset(rest);
        if y != x {
          assert y in multiset(s[1..]);
          var k :| 0 <= k < |s[1..]| && s[1..][k] == y;
          assert s[k + 1] == y;
        }
      }
      SortedCons(s[0], rest);
      [s[0]] + rest
  }

  /** A string no greater than any of a sorted list goes in front of it. */
  lemma SortedCons(y: string, s: seq<string>)
    requires SortedLex(s) && forall z :: z in s ==> LexLe(y, z)
    ensures SortedLex([y] + s)
  {
    var r := [y] + s;
    forall i, j | 0 <= i < j < |r| ensures LexLe(r[i], r[j]) {
      assert r[j] == s[j - 1] && r[j] in s;
      if i > 0 {
        assert r[i] == s[i - 1];
      }
    }
  }

  /** sorted(names) */
  function SortNames(s: seq<string>): (r: seq<string>)
    ensures SortedLex(r)
    ensures multiset(r) == multiset(s)
  {
    if s == [] then []
    else
      assert s == [s[0]] + s[1..];
      Insert(s[0], SortNames(s[1..]))
  }
}
