/**
 The pieces of Go's standard library that the compressor's decisions depend on:
 `filepath.Join`, `filepath.Ext`, `strings.LastIndex`, `strings.ToLower` and the
 `%d` verb of `fmt.Sprintf`, together with a decimal parser that undoes `%d`.

 Go strings are byte strings indexed by byte; here a `string` stands for such a
 byte string, one `char` per byte. The path separator is '/'.
 */
module GoLib {

  datatype Option<T> = None | Some(value: T)

  /** `filepath.Join(dir, name)`, modelled as concatenation around one separator. */
  function Join(dir: string, name: string): string
  {
    dir + "/" + name
  }

  /** Joining is injective in the name: distinct names under one directory are distinct paths. */
  lemma JoinInjective(dir: string, a: string, b: string)
    requires Join(dir, a) == Join(dir, b)
    ensures a == b
  {
    assert a == (dir + "/" + a)[|dir| + 1..];
    assert b == (dir + "/" + b)[|dir| + 1..];
  }

  /** `strings.LastIndex(s, string(c))`: the position of the last `c` in `s`, or -1. */
  function LastIndex(s: string, c: char): (r: int)
    ensures -1 <= r < |s|
    ensures r >= 0 ==> s[r] == c
    ensures forall k :: r < k < |s| ==> s[k] != c
  {
    if |s| == 0 then -1
    else if s[|s| - 1] == c then |s| - 1
    else LastIndex(s[..|s| - 1], c)
  }

  /**
   The scan inside `filepath.Ext`: walk down from position `i` until a separator
   (no extension) or a dot (the extension starts there). Everything above `i` has
   already been seen to be neither.
   */
  function ExtScan(path: string, i: int): (e: string)
    requires -1 <= i < |path|
    requires forall k :: i < k < |path| ==> path[k] != '.' && path[k] != '/'
    ensures |e| <= |path| && e == path[|path| - |e|..]
    ensures e != [] ==> path[|path| - |e|] == '.'
    ensures e != [] ==> e[0] == '.' && forall k :: |path| - |e| < k < |path| ==> path[k] != '.' && path[k] != '/'
    ensures e == [] ==> forall k :: LastIndex(path, '/') < k < |path| ==> path[k] != '.'
    decreases i + 1
  {
    if i < 0 then
      ""
    else if path[i] == '/' then
      ""
    else if path[i] == '.' then
      path[i..]
    else
      ExtScan(path, i - 1)
  }

  /**
   `filepath.Ext(path)`: the suffix starting at the last '.' of the final path
   element, or "" when that element holds no dot.
   */
  function Ext(path: string): (e: string)
    ensures |e| <= |path| && e == path[|path| - |e|..]
    ensures e != [] ==> path[|path| - |e|] == '.'
    ensures e != [] ==> e[0] == '.' && forall k :: |path| - |e| < k < |path| ==> path[k] != '.' && path[k] != '/'
    ensures e == [] ==> forall k :: LastIndex(path, '/') < k < |path| ==> path[k] != '.'
  {
    ExtScan(path, |path| - 1)
  }

  /** A non-empty extension starts exactly at the last dot of the whole path. */
  lemma ExtStartsAtLastDot(path: string)
    requires Ext(path) != []
    ensures LastIndex(path, '.') == |path| - |Ext(path)|
  {
    var e := Ext(path);
    var p := |path| - |e|;
    assert path[p] == e[0];
  }

  /** The extension is fixed by its dot: the last dot of the path with no separator after it. */
  lemma ExtAt(path: string, p: nat)
    requires p < |path| && path[p] == '.'
    requires forall k :: p < k < |path| ==> path[k] != '.' && path[k] != '/'
    ensures Ext(path) == path[p..] && LastIndex(path, '.') == p
  {
    assert Ext(path) == [] ==> LastIndex(path, '/') < p;
    ExtStartsAtLastDot(path);
  }

  /** A path without a dot has no extension. */
  lemma ExtNone(path: string)
    requires forall k :: 0 <= k < |path| ==> path[k] != '.'
    ensures Ext(path) == ""
  {
  }

  /** ASCII lower-casing of one byte. */
  function LowerByte(c: char): char
  {
    if 'A' <= c <= 'Z' then (c as int + 32) as char else c
  }

  predicate IsUpper(c: char)
  {
    'A' <= c <= 'Z'
  }

  /**
   `strings.ToLower`, restricted to ASCII letters: no upper-case letter is left, and
   each byte is kept or is an upper-case letter moved 32 code points up.
   */
  function ToLower(s: string): (r: string)
    ensures |r| == |s|
    ensures forall k :: 0 <= k < |r| ==> !IsUpper(r[k])
    ensures forall k :: 0 <= k < |s| ==> r[k] == s[k] || (IsUpper(s[k]) && r[k] as int == s[k] as int + 32)
  {
    seq(|s|, k requires 0 <= k < |s| => LowerByte(s[k]))
  }

  /**
   ASCII case-insensitive equality of `a` with `b`, stated without `ToLower`: equal
   lengths, and at each position the same byte, or an upper-case letter in `a`
   against the letter 32 code points above it in `b`.
   */
  predicate FoldEq(a: string, b: string)
  {
    && |a| == |b|
    && forall k :: 0 <= k < |a| ==> a[k] == b[k] || (IsUpper(a[k]) && b[k] as int == a[k] as int + 32)
  }

  /** Lower-casing `a` gives a text `t` without upper-case letters exactly when `a` folds to `t`. */
  lemma ToLowerFoldEq(a: string, t: string)
    requires forall k :: 0 <= k < |t| ==> !IsUpper(t[k])
    ensures ToLower(a) == t <==> FoldEq(a, t)
  {
    var r := ToLower(a);
    if FoldEq(a, t) {
      forall k | 0 <= k < |a|
        ensures r[k] == t[k]
      {
        if a[k] == t[k] {
          assert !IsUpper(a[k]);
        }
      }
    }
  }

  predicate IsDigit(c: char)
  {
    '0' <= c <= '9'
  }

  predicate AllDigits(s: string)
  {
    forall k :: 0 <= k < |s| ==> IsDigit(s[k])
  }

  function Digit(d: nat): (c: char)
    requires d < 10
    ensures IsDigit(c)
  {
    ('0' as int + d) as char
  }

  function DigitValue(c: char): nat
    requires IsDigit(c)
  {
    c as int - '0' as int
  }

  /** The decimal digits of a natural number, most significant first. */
  function NatDec(n: nat): (s: string)
    ensures |s| >= 1 && AllDigits(s)
    ensures |s| > 1 ==> s[0] != '0'
  {
    if n < 10 then [Digit(n)] else NatDec(n / 10) + [Digit(n % 10)]
  }

  /** `fmt.Sprintf("%d", n)`: a '-' for negative numbers, then the digits of |n|. */
  function Dec(n: int): (s: string)
  {
    if n < 0 then "-" + NatDec(-n) else NatDec(n)
  }

  /** The value of a non-empty run of decimal digits. */
  function ParseNat(s: string): nat
    requires |s| >= 1 && AllDigits(s)
  {
    if |s| == 1 then DigitValue(s[0])
    else ParseNat(s[..|s| - 1]) * 10 + DigitValue(s[|s| - 1])
  }

  /** Reads a decimal integer with an optional leading '-'; anything else is rejected. */
  function ParseInt(s: string): Option<int>
  {
    if |s| >= 2 && s[0] == '-' && AllDigits(s[1..]) then Some(-(ParseNat(s[1..]) as int))
    else if |s| >= 1 && AllDigits(s) then Some(ParseNat(s))
    else None
  }

  lemma {:induction false} NatDecRoundTrip(n: nat)
    ensures ParseNat(NatDec(n)) == n
  {
    if n >= 10 {
      var s := NatDec(n);
      assert s[..|s| - 1] == NatDec(n / 10);
      NatDecRoundTrip(n / 10);
    }
  }

  /** Reading back what `%d` printed gives the original integer, of any sign or size. */
  lemma DecRoundTrip(n: int)
    ensures ParseInt(Dec(n)) == Some(n)
  {
    var s := Dec(n);
    if n < 0 {
      assert s[1..] == NatDec(-n);
      assert |s| >= 2 && s[0] == '-' && AllDigits(s[1..]);
      NatDecRoundTrip(-n);
    } else {
      assert IsDigit(s[0]);
      NatDecRoundTrip(n);
    }
  }

  /** Distinct integers print differently. */
  lemma DecInjective(a: int, b: int)
    requires Dec(a) == Dec(b)
    ensures a == b
  {
    DecRoundTrip(a);
    DecRoundTrip(b);
  }
}
