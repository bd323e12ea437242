/**
 * The Python string and bytes operations the scraper relies on, modelled on
 * sequences: `find`, `in`, `str.replace` of one character, `os.path.join`
 * (POSIX), `hexdigest` and ASCII encoding.
 */
module Text {
  import opened Wrappers

  /** One element of a Python `bytes` value. */
  type byte = b: int | 0 <= b < 256

  /** `pat` occurs in `s` starting at index `i`. */
  predicate OccursAt<T(==)>(s: seq<T>, pat: seq<T>, i: int)
  {
    0 <= i && i + |pat| <= |s| && s[i..i + |pat|] == pat
  }

  /** `s.find(pat, i)`: the first index at or after `i` where `pat` occurs, or -1. */
  function FindFrom<T(==)>(s: seq<T>, pat: seq<T>, i: nat): (r: int)
    ensures r == -1 || (i <= r && OccursAt(s, pat, r))
    ensures forall j :: i <= j && (r == -1 || j < r) ==> !OccursAt(s, pat, j)
    decreases |s| - i
  {
    if i + |pat| > |s| then -1
    else if s[i..i + |pat|] == pat then i
    else FindFrom(s, pat, i + 1)
  }

  /** `s.find(pat)`: -1 exactly when `pat` does not occur, otherwise its first occurrence. */
  function Find<T(==)>(s: seq<T>, pat: seq<T>): (r: int)
    ensures r == -1 <==> forall j :: !OccursAt(s, pat, j)
    ensures r != -1 ==> OccursAt(s, pat, r) && forall j :: 0 <= j < r ==> !OccursAt(s, pat, j)
  {
    FindFrom(s, pat, 0)
  }

  /** `pat in s` for strings and bytes: a substring test. */
  predicate Contains<T(==)>(s: seq<T>, pat: seq<T>)
    ensures Contains(s, pat) <==> exists j :: OccursAt(s, pat, j)
  {
    Find(s, pat) != -1
  }

  /** `s.replace(from, to)` where both arguments are single characters. */
  function ReplaceChar(s: string, from: char, to: char): (r: string)
    ensures |r| == |s|
    ensures forall i :: 0 <= i < |s| ==> r[i] == (if s[i] == from then to else s[i])
  {
    if s == [] then []
    else [if s[0] == from then to else s[0]] + ReplaceChar(s[1..], from, to)
  }

  /** A path that `os.path.join` treats as absolute. */
  predicate IsAbsolute(p: string)
  {
    p != [] && p[0] == '/'
  }

  /** `os.path.join(a, b)` on POSIX. */
  function Join(a: string, b: string): (r: string)
    ensures |b| <= |r| && r[|r| - |b|..] == b
    ensures IsAbsolute(b) ==> r == b
    ensures !IsAbsolute(b) ==> |a| <= |r| && r[..|a|] == a
  {
    if IsAbsolute(b) then b
    else if a == [] || a[|a| - 1] == '/' then a + b
    else a + "/" + b
  }

  /**
   * A relative second part is joined with exactly one `/` between the parts:
   * one is added unless the first part is empty or already ends with `/`.
   */
  lemma JoinExact(a: string, b: string)
    requires !IsAbsolute(b)
    ensures a != [] && a[|a| - 1] != '/' ==> Join(a, b) == a + "/" + b
    ensures a == [] || a[|a| - 1] == '/' ==> Join(a, b) == a + b
  {
  }

  /** Under one directory, `os.path.join` keeps relative names apart. */
  lemma JoinCancel(a: string, b1: string, b2: string)
    requires !IsAbsolute(b1) && !IsAbsolute(b2)
    requires Join(a, b1) == Join(a, b2)
    ensures b1 == b2
  {
    var sep := if a == [] || a[|a| - 1] == '/' then "" else "/";
    assert Join(a, b1) == (a + sep) + b1;
    assert Join(a, b2) == (a + sep) + b2;
    assert b1 == Join(a, b1)[|a + sep|..];
  }

  predicate IsHexDigit(c: char)
  {
    '0' <= c <= '9' || 'a' <= c <= 'f'
  }

  /** The lower-case hexadecimal digit for `n`. */
  function HexDigit(n: int): (c: char)
    requires 0 <= n < 16
    ensures IsHexDigit(c)
  {
    if n < 10 then ('0' as int + n) as char else ('a' as int + n - 10) as char
  }

  lemma HexDigitInjective(m: int, n: int)
    requires 0 <= m < 16 && 0 <= n < 16
    requires HexDigit(m) == HexDigit(n)
    ensures m == n
  {
  }

  /** `hexdigest()`: two lower-case hexadecimal digits per byte, high nibble first. */
  function HexDigest(d: seq<byte>): (h: string)
    ensures |h| == 2 * |d|
    ensures forall i :: 0 <= i < |h| ==> IsHexDigit(h[i])
  {
    if d == [] then ""
    else [HexDigit(d[0] / 16), HexDigit(d[0] % 16)] + HexDigest(d[1..])
  }

  /** Distinct digests have distinct hexadecimal spellings. */
  lemma {:induction false} HexDigestInjective(d1: seq<byte>, d2: seq<byte>)
    requires HexDigest(d1) == HexDigest(d2)
    ensures d1 == d2
  {
    if d1 != [] {
      var h := HexDigest(d1);
      assert |d2| == |d1|;
      assert h == [HexDigit(d1[0] / 16), HexDigit(d1[0] % 16)] + HexDigest(d1[1..]);
      assert h == [HexDigit(d2[0] / 16), HexDigit(d2[0] % 16)] + HexDigest(d2[1..]);
      assert h[0] == HexDigit(d1[0] / 16) && h[0] == HexDigit(d2[0] / 16);
      assert h[1] == HexDigit(d1[0] % 16) && h[1] == HexDigit(d2[0] % 16);
      HexDigitInjective(d1[0] / 16, d2[0] / 16);
      HexDigitInjective(d1[0] % 16, d2[0] % 16);
      assert d1[0] == d2[0];
      assert HexDigest(d1[1..]) == h[2..] == HexDigest(d2[1..]);
      HexDigestInjective(d1[1..], d2[1..]);
      assert d1 == [d1[0]] + d1[1..];
      assert d2 == [d2[0]] + d2[1..];
    }
  }

  /** `bytes(s, 'ascii')`: `None` stands for the UnicodeEncodeError raised on a non-ASCII character. */
  function AsciiEncode(s: string): (r: Option<seq<byte>>)
    ensures r.Some? ==> |r.value| == |s|
  {
    if forall i :: 0 <= i < |s| ==> s[i] as int < 128
    then Some(seq(|s|, i requires 0 <= i < |s| => s[i] as int))
    else None
  }

  /** `b.decode('ascii')` for bytes below 128. */
  function AsciiDecode(b: seq<byte>): (s: string)
    requires forall i :: 0 <= i < |b| ==> b[i] < 128
    ensures |s| == |b|
  {
    seq(|b|, i requires 0 <= i < |b| => b[i] as char)
  }

  /** ASCII encoding succeeds exactly on ASCII text and decoding undoes it, in both directions. */
  lemma AsciiRoundTrip(s: string, b: seq<byte>)
    ensures AsciiEncode(s).Some? <==> forall i :: 0 <= i < |s| ==> s[i] as int < 128
    ensures AsciiEncode(s) == Some(b) ==>
              (forall i :: 0 <= i < |b| ==> b[i] < 128) && AsciiDecode(b) == s
    ensures (forall i :: 0 <= i < |b| ==> b[i] < 128) ==> AsciiEncode(AsciiDecode(b)) == Some(b)
  {
    if forall i :: 0 <= i < |b| ==> b[i] < 128 {
      var t := AsciiDecode(b);
      assert forall i :: 0 <= i < |t| ==> t[i] as int == b[i];
      assert AsciiEncode(t).Some?;
      assert forall i :: 0 <= i < |b| ==> AsciiEncode(t).value[i] == b[i];
      assert AsciiEncode(t).value == b;
    }
  }
}
