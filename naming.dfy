/**
 The names of the outputs: `icon_{n:03}.png` for the icon of the n-th upload
 (n counted from 1), the archive name, and POSIX `os.path.join` for putting
 them in the batch's temporary directory.
 */
module Naming {

  predicate IsDigit(c: char) {
    '0' <= c <= '9'
  }

  predicate AllDigits(s: string) {
    forall i | 0 <= i < |s| :: IsDigit(s[i])
  }

  function DigitChar(d: nat): (c: char)
    requires d < 10
    ensures IsDigit(c)
  {
    (('0' as int) + d) as char
  }

  function DigitValue(c: char): nat
    requires IsDigit(c)
  {
    (c as int) - ('0' as int)
  }

  /** The decimal notation of `n`, without leading zeros (`str(n)`). */
  function Decimal(n: nat): (s: string)
    ensures |s| >= 1 && AllDigits(s)
    ensures |s| == 1 <==> n < 10
    ensures n >= 10 ==> s[0] != '0'
  {
    if n < 10 then [DigitChar(n)] else Decimal(n / 10) + [DigitChar(n % 10)]
  }

  /** The number a string of decimal digits denotes, leading zeros allowed. */
  function ValueOf(s: string): nat
    requires AllDigits(s)
  {
    if s == [] then 0 else ValueOf(s[..|s| - 1]) * 10 + DigitValue(s[|s| - 1])
  }

  lemma {:induction false} ValueOfDecimal(n: nat)
    ensures ValueOf(Decimal(n)) == n
  {
    if n >= 10 {
      var s := Decimal(n);
      assert s[..|s| - 1] == Decimal(n / 10);
      ValueOfDecimal(n / 10);
    }
  }

  function Zeros(k: nat): (z: string)
    ensures |z| == k && AllDigits(z)
  {
    seq(k, _ => '0')
  }

  lemma {:induction false} ValueOfZeros(k: nat)
    ensures ValueOf(Zeros(k)) == 0
  {
    if k > 0 {
      assert Zeros(k)[..k - 1] == Zeros(k - 1);
      ValueOfZeros(k - 1);
    }
  }

  lemma {:induction false} ValueOfLeadingZeros(k: nat, s: string)
    requires AllDigits(s)
    ensures AllDigits(Zeros(k) + s) && ValueOf(Zeros(k) + s) == ValueOf(s)
  {
    var t := Zeros(k) + s;
    assert AllDigits(t) by {
      forall i | 0 <= i < |t| ensures IsDigit(t[i]) {
        if i >= k { assert t[i] == s[i - k]; }
      }
    }
    if s == [] {
      assert t == Zeros(k);
      ValueOfZeros(k);
    } else {
      assert t[..|t| - 1] == Zeros(k) + s[..|s| - 1];
      ValueOfLeadingZeros(k, s[..|s| - 1]);
    }
  }

  /** Python's `format(s, "0w")` on a digit string: zeros in front up to `width` characters, never cut. */
  function ZeroPad(s: string, width: nat): (r: string)
    requires AllDigits(s)
    ensures AllDigits(r)
    ensures |r| == if |s| >= width then |s| else width
  {
    if |s| >= width then s
    else
      ValueOfLeadingZeros(width - |s|, s);
      Zeros(width - |s|) + s
  }

  /** The padded string is the digits themselves, preceded by nothing but zeros. */
  lemma ZeroPadShape(s: string, width: nat)
    requires AllDigits(s)
    ensures var r := ZeroPad(s, width);
      && r[|r| - |s|..] == s
      && forall i | 0 <= i < |r| - |s| :: r[i] == '0'
  {
    if |s| < width {
      var z := Zeros(width - |s|);
      assert (z + s)[|z|..] == s;
    }
  }

  /** Padding never changes the number that is written. */
  lemma ValueOfPadded(n: nat, width: nat)
    ensures ValueOf(ZeroPad(Decimal(n), width)) == n
  {
    ValueOfDecimal(n);
    var s := Decimal(n);
    if |s| < width {
      ValueOfLeadingZeros(width - |s|, s);
    }
  }

  const Prefix: string := "icon_"
  const Suffix: string := ".png"

  /** `f"icon_{n:03}.png"`. */
  function FileName(n: nat): string {
    Prefix + ZeroPad(Decimal(n), 3) + Suffix
  }

  /** The three digits of an index below 1000, hundreds first. */
  function ThreeDigits(n: nat): string
    requires n < 1000
  {
    [DigitChar(n / 100), DigitChar(n / 10 % 10), DigitChar(n % 10)]
  }

  lemma PadOneDigit(n: nat)
    requires n < 10
    ensures ZeroPad(Decimal(n), 3) == ThreeDigits(n)
  {
    assert Zeros(2) == ['0', '0'];
  }

  lemma PadTwoDigits(n: nat)
    requires 10 <= n < 100
    ensures ZeroPad(Decimal(n), 3) == ThreeDigits(n)
  {
    assert Decimal(n) == [DigitChar(n / 10), DigitChar(n % 10)];
    assert Zeros(1) == ['0'];
  }

  lemma PadThreeDigits(n: nat)
    requires 100 <= n < 1000
    ensures ZeroPad(Decimal(n), 3) == ThreeDigits(n)
  {
    assert Decimal(n / 10) == [DigitChar(n / 100), DigitChar(n / 10 % 10)];
  }

  /** Below 1000 the index is written as exactly three digits; from 1000 on as all its digits. */
  lemma FileNameFormat(n: nat)
    ensures n < 1000 ==> FileName(n) == Prefix + ThreeDigits(n) + Suffix
    ensures n >= 1000 ==> FileName(n) == Prefix + Decimal(n) + Suffix
  {
    if n < 10 {
      PadOneDigit(n);
    } else if n < 100 {
      PadTwoDigits(n);
    } else if n < 1000 {
      PadThreeDigits(n);
    } else {
      assert |Decimal(n / 10)| >= 1;
    }
  }

  /** Distinct indices never share a file name, so archive entries do not collide. */
  lemma FileNameInjective(m: nat, n: nat)
    requires FileName(m) == FileName(n)
    ensures m == n
  {
    var a, b := FileName(m), FileName(n);
    assert a[5..|a| - 4] == ZeroPad(Decimal(m), 3);
    assert b[5..|b| - 4] == ZeroPad(Decimal(n), 3);
    ValueOfPadded(m, 3);
    ValueOfPadded(n, 3);
  }

  /** Different indices give different file names. */
  lemma FileNamesDiffer(m: nat, n: nat)
    requires m != n
    ensures FileName(m) != FileName(n)
  {
    if FileName(m) == FileName(n) {
      FileNameInjective(m, n);
    }
  }

  /** The name of the archive inside the batch's directory. */
  const ArchiveName: string := "processed_icons.zip"

  predicate Absolute(path: string) {
    |path| > 0 && path[0] == '/'
  }

  /** The separator `os.path.join` puts between a directory and a relative name. */
  function Separator(dir: string): string {
    if dir == [] || dir[|dir| - 1] == '/' then "" else "/"
  }

  /** A relative name placed inside a directory. */
  function PathInDir(dir: string, name: string): string {
    dir + Separator(dir) + name
  }

  /** POSIX `os.path.join(dir, name)`: an absolute name replaces the directory. */
  function JoinPath(dir: string, name: string): (p: string)
    ensures !Absolute(name) ==> p == PathInDir(dir, name)
    ensures Absolute(name) ==> p == name
  {
    if Absolute(name) then name else PathInDir(dir, name)
  }

  /** Within one directory, different names give different paths, and the path ends with the name. */
  lemma PathInDirInjective(dir: string, a: string, b: string)
    requires PathInDir(dir, a) == PathInDir(dir, b)
    ensures a == b
  {
    var k := |dir + Separator(dir)|;
    assert PathInDir(dir, a)[k..] == a;
    assert PathInDir(dir, b)[k..] == b;
  }

  /** For relative names, `os.path.join` into one directory is injective. */
  lemma JoinPathInjective(dir: string, a: string, b: string)
    requires !Absolute(a) && !Absolute(b) && JoinPath(dir, a) == JoinPath(dir, b)
    ensures a == b
  {
    PathInDirInjective(dir, a, b);
  }

  /** Different indices give different paths inside one directory. */
  lemma PathsDiffer(dir: string, m: nat, n: nat)
    requires m != n
    ensures PathInDir(dir, FileName(m)) != PathInDir(dir, FileName(n))
  {
    FileNamesDiffer(m, n);
    if PathInDir(dir, FileName(m)) == PathInDir(dir, FileName(n)) {
      PathInDirInjective(dir, FileName(m), FileName(n));
    }
  }

  lemma FileNameIsRelative(n: nat)
    ensures !Absolute(FileName(n))
  {
  }
}
