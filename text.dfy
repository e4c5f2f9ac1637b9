/** Character classes, decimal rendering and the Python string operations
    (slicing, strip, isdigit) that the string builders of all three GUI
    variants use. Character classes follow Python's definitions restricted to
    ASCII. */
module Text {

  datatype Option<T> = None | Some(value: T)

  /** `str.isdigit()` on one ASCII character. */
  predicate IsDigit(c: char) {
    '0' <= c <= '9'
  }

  predicate IsLetter(c: char) {
    'a' <= c <= 'z' || 'A' <= c <= 'Z'
  }

  /** `str.isalnum()` on one ASCII character. */
  predicate IsAlnum(c: char) {
    IsLetter(c) || IsDigit(c)
  }

  /** Python's `\w` on an ASCII character. */
  predicate IsWord(c: char) {
    IsAlnum(c) || c == '_'
  }

  /** Python's `\s` and `str.isspace()` on an ASCII character: tab, line feed,
      vertical tab, form feed, carriage return, the four separators 0x1C-0x1F
      and the space. */
  predicate IsSpace(c: char) {
    9 <= c as int <= 13 || 28 <= c as int <= 32
  }

  /** `[a-zA-Z0-9_-]`, the same class as `[\w-]` on ASCII. */
  predicate IsIdChar(c: char) {
    IsWord(c) || c == '-'
  }

  predicate IsAscii(c: char) {
    c as int < 128
  }

  /** `s.isdigit()`: non-empty and every character a digit. */
  predicate IsDecimal(s: string) {
    |s| > 0 && forall k :: 0 <= k < |s| ==> IsDigit(s[k])
  }

  predicate AllDigits(s: string) {
    forall k :: 0 <= k < |s| ==> IsDigit(s[k])
  }

  predicate NoSpace(s: string) {
    forall k :: 0 <= k < |s| ==> !IsSpace(s[k])
  }

  function DigitChar(d: nat): (c: char)
    requires d < 10
    ensures IsDigit(c)
  {
    (48 + d) as char
  }

  function DigitValue(c: char): (d: nat)
    requires IsDigit(c)
    ensures d < 10 && DigitChar(d) == c
  {
    c as int - 48
  }

  /** Python's `str(n)` / `f"{n}"` for a non-negative integer. */
  function NatToString(n: nat): (r: string)
    ensures |r| >= 1 && IsDecimal(r)
    ensures r[0] == '0' <==> n == 0
    decreases n
  {
    if n < 10 then [DigitChar(n)] else NatToString(n / 10) + [DigitChar(n % 10)]
  }

  /** `int(s)` for a string of decimal digits. */
  function DigitsValue(s: string): nat
    requires AllDigits(s)
  {
    if |s| == 0 then 0 else DigitsValue(s[..|s| - 1]) * 10 + DigitValue(s[|s| - 1])
  }

  /** Reading back a rendered number gives the number. */
  lemma {:induction false} DigitsValueOfNatToString(n: nat)
    ensures DigitsValue(NatToString(n)) == n
    decreases n
  {
    if n >= 10 {
      var r := NatToString(n);
      assert r[..|r| - 1] == NatToString(n / 10);
      DigitsValueOfNatToString(n / 10);
    }
  }

  /** Distinct numbers render differently. */
  lemma NatToStringInjective(m: nat, n: nat)
    requires NatToString(m) == NatToString(n)
    ensures m == n
  {
    DigitsValueOfNatToString(m);
    DigitsValueOfNatToString(n);
  }

  /** `f"{n:02d}"` for `n < 100`. */
  function Pad2(n: nat): (r: string)
    requires n < 100
    ensures |r| == 2 && AllDigits(r) && DigitsValue(r) == n
  {
    DigitsValueOfNatToString(n);
    if n < 10 then "0" + NatToString(n) else NatToString(n)
  }

  /** Python's slice `s[:n]`. */
  function Take(s: string, n: nat): (r: string)
    ensures |r| == if |s| <= n then |s| else n
    ensures r <= s
  {
    if |s| <= n then s else s[..n]
  }

  function RStrip(s: string): (r: string)
    ensures r <= s && NoSpaceAtEnd(r)
  {
    if |s| > 0 && IsSpace(s[|s| - 1]) then RStrip(s[..|s| - 1]) else s
  }

  /** Everything `RStrip` drops is whitespace. */
  lemma {:induction false} RStripDropsSpace(s: string)
    ensures forall k :: |RStrip(s)| <= k < |s| ==> IsSpace(s[k])
  {
    if |s| > 0 && IsSpace(s[|s| - 1]) {
      RStripDropsSpace(s[..|s| - 1]);
    }
  }

  function LStrip(s: string): (r: string)
    ensures |r| <= |s| && r == s[|s| - |r|..] && NoSpaceAtStart(r)
  {
    if |s| > 0 && IsSpace(s[0]) then LStrip(s[1..]) else s
  }

  /** Everything `LStrip` drops is whitespace. */
  lemma {:induction false} LStripDropsSpace(s: string)
    ensures forall k :: 0 <= k < |s| - |LStrip(s)| ==> IsSpace(s[k])
  {
    if |s| > 0 && IsSpace(s[0]) {
      LStripDropsSpace(s[1..]);
      forall k | 1 <= k < |s| - |LStrip(s)| ensures IsSpace(s[k]) {
        assert s[k] == s[1..][k - 1];
      }
    }
  }

  predicate NoSpaceAtStart(s: string) {
    |s| > 0 ==> !IsSpace(s[0])
  }

  predicate NoSpaceAtEnd(s: string) {
    |s| > 0 ==> !IsSpace(s[|s| - 1])
  }

  /** `s.strip()`: the run of `s` between its leading and trailing whitespace. */
  function Strip(s: string): (r: string)
    ensures NoSpaceAtStart(r) && NoSpaceAtEnd(r)
  {
    LStrip(RStrip(s))
  }

  /** The strip is a slice of `s` with only whitespace around it. */
  lemma StripSlice(s: string)
    ensures exists i :: StrippedAt(s, i, Strip(s))
  {
    var t := RStrip(s);
    var r := LStrip(t);
    RStripDropsSpace(s);
    LStripDropsSpace(t);
    var i := |t| - |r|;
    PrefixKeeps(s, t, i, r);
    assert StrippedAt(s, i, Strip(s));
  }

  /** What holds of a prefix `t` of `s` up to `i + |r|` holds of `s`. */
  lemma PrefixKeeps(s: string, t: string, i: nat, r: string)
    requires t <= s && i + |r| <= |t| && r == t[i..i + |r|]
    requires forall k :: 0 <= k < i ==> IsSpace(t[k])
    ensures r == s[i..i + |r|]
    ensures forall k :: 0 <= k < i ==> IsSpace(s[k])
  {
    assert t == s[..|t|];
    forall k | 0 <= k < i ensures IsSpace(s[k]) {
      assert s[k] == t[k];
    }
  }

  /** `r` is `s[i..i + |r|]` and everything of `s` around it is whitespace. */
  predicate StrippedAt(s: string, i: int, r: string) {
    && 0 <= i <= |s| - |r|
    && r == s[i..i + |r|]
    && (forall k :: 0 <= k < i ==> IsSpace(s[k]))
    && (forall k :: i + |r| <= k < |s| ==> IsSpace(s[k]))
  }

  lemma NoSpaceConcat(a: string, b: string)
    requires NoSpace(a) && NoSpace(b)
    ensures NoSpace(a + b)
  {
    forall k | 0 <= k < |a + b| ensures !IsSpace((a + b)[k]) {
      if k >= |a| { assert (a + b)[k] == b[k - |a|]; }
    }
  }

  lemma StripOfNoSpace(s: string)
    requires NoSpace(s)
    ensures Strip(s) == s
  {
    if |s| > 0 {
      assert !IsSpace(s[0]) && !IsSpace(s[|s| - 1]);
    }
    StripOfTrimmed(s);
  }

  /** Text without whitespace at either end is its own strip. */
  lemma StripOfTrimmed(s: string)
    requires NoSpaceAtStart(s) && NoSpaceAtEnd(s)
    ensures Strip(s) == s
  {
    assert RStrip(s) == s;
  }

  /** Literal `lit` occurs in `s` at position `p`. */
  predicate At(s: string, p: nat, lit: string) {
    p + |lit| <= |s| && s[p..p + |lit|] == lit
  }

  predicate StartsWith(s: string, lit: string) {
    At(s, 0, lit)
  }

  /** Python's `lit in s`. */
  predicate Contains(s: string, lit: string) {
    exists p: nat :: p <= |s| && At(s, p, lit)
  }

  /** The shortening the subprocess variants apply to an url or a title in the
      queue display: `s[:50] + "..." if len(s) > 50 else s`. */
  function Shorten(s: string): (r: string)
    ensures |s| <= 50 ==> r == s
    ensures |s| > 50 ==> |r| == 53 && r == s[..50] + "..."
    ensures |r| <= 53
  {
    if |s| > 50 then s[..50] + "..." else s
  }

  /** Shortening a shortened text changes nothing more. */
  lemma ShortenIdempotent(s: string)
    ensures Shorten(Shorten(s)) == Shorten(s)
  {
    if |s| > 50 {
      assert Shorten(s)[..50] == s[..50];
    }
  }

  /** The leftmost position in `p..n` where `m` holds: how `re.search` picks
      its match among the candidate start positions. */
  function FirstFrom(n: nat, p: nat, m: nat -> bool): (r: Option<nat>)
    ensures r.Some? ==> p <= r.value <= n && m(r.value)
    ensures r.Some? ==> forall j: nat :: p <= j < r.value ==> !m(j)
    ensures r.None? ==> forall j: nat :: p <= j <= n ==> !m(j)
    decreases n - p
  {
    if p > n then None
    else if m(p) then Some(p)
    else FirstFrom(n, p + 1, m)
  }

  /** The length of the longest prefix of `s[i..]` whose characters satisfy
      `c`: how far a greedy `[...]+` or `[...]*` reaches. */
  function RunLength(s: string, i: nat, c: char -> bool): (n: nat)
    requires i <= |s|
    ensures i + n <= |s|
    ensures forall k :: i <= k < i + n ==> c(s[k])
    ensures i + n < |s| ==> !c(s[i + n])
    decreases |s| - i
  {
    if i < |s| && c(s[i]) then 1 + RunLength(s, i + 1, c) else 0
  }

  /** The run of `c` from `p` is exactly `n` long when `n` characters satisfy
      `c` and the next one (if any) does not. */
  lemma RunLengthIs(s: string, p: nat, c: char -> bool, n: nat)
    requires p + n <= |s|
    requires forall k :: p <= k < p + n ==> c(s[k])
    requires p + n < |s| ==> !c(s[p + n])
    ensures RunLength(s, p, c) == n
  {
  }

  /** What is left after `(?:https?://)?(?:www\.)?`. A present scheme or `www.`
      must be consumed: skipping it cannot let the host name match. */
  function AfterHostPrefix(u: string): (r: string)
    ensures |r| <= |u| && r == u[|u| - |r|..]
  {
    SkipWww(SkipScheme(u))
  }

  /** `(?:https?://)?`. */
  function SkipScheme(u: string): (r: string)
    ensures |r| <= |u| && r == u[|u| - |r|..]
  {
    if StartsWith(u, "https://") then u[8..] else if StartsWith(u, "http://") then u[7..] else u
  }

  /** `(?:www\.)?`. */
  function SkipWww(a: string): (r: string)
    ensures |r| <= |a| && r == a[|a| - |r|..]
  {
    if StartsWith(a, "www.") then a[4..] else a
  }

  predicate IsScheme(s: string) {
    s == "" || s == "http://" || s == "https://"
  }

  predicate IsWww(w: string) {
    w == "" || w == "www."
  }

  /** A scheme in front of a text starting with `w` or `y` is skipped whole. */
  lemma SkipSchemeOf(scheme: string, a: string)
    requires IsScheme(scheme) && |a| > 0 && (a[0] == 'w' || a[0] == 'y')
    ensures SkipScheme(scheme + a) == a
  {
    var u := scheme + a;
    if scheme == "https://" {
      assert u[..8] == scheme;
      assert u[8..] == a;
    } else if scheme == "http://" {
      assert u[4] == ':';
      assert !StartsWith(u, "https://");
      assert u[..7] == scheme;
      assert u[7..] == a;
    } else {
      assert u == a;
      assert !StartsWith(u, "https://") && !StartsWith(u, "http://");
    }
  }

  /** A `www.` in front of a text starting with `y` is skipped whole. */
  lemma SkipWwwOf(www: string, tail: string)
    requires IsWww(www) && |tail| > 0 && tail[0] == 'y'
    ensures SkipWww(www + tail) == tail
  {
    var a := www + tail;
    if www == "www." {
      assert a[..4] == www;
      assert a[4..] == tail;
    } else {
      assert a == tail;
      assert !StartsWith(a, "www.");
    }
  }

  /** Skipping the prefixes of a url built from parts leaves the host path. */
  lemma AfterHostPrefixOfParts(scheme: string, www: string, tail: string)
    requires IsScheme(scheme) && IsWww(www) && |tail| > 0 && tail[0] == 'y'
    ensures AfterHostPrefix(scheme + www + tail) == tail
  {
    var a := www + tail;
    SkipWwwOf(www, tail);
    assert a[0] == 'w' || a[0] == 'y';
    SkipSchemeOf(scheme, a);
    Assoc(scheme, www, tail);
  }

  /** The optional scheme and `www.` that `AfterHostPrefix` skips. */
  lemma PrefixSplit(url: string) returns (scheme: string, www: string)
    ensures IsScheme(scheme) && IsWww(www)
    ensures url == scheme + www + AfterHostPrefix(url)
  {
    scheme := if StartsWith(url, "https://") then "https://" else if StartsWith(url, "http://") then "http://" else "";
    var a := SkipScheme(url);
    assert url == scheme + a;
    www := if StartsWith(a, "www.") then "www." else "";
    var t := SkipWww(a);
    assert a == www + t;
    assert AfterHostPrefix(url) == t;
    Assoc(scheme, www, t);
  }

  lemma Assoc(a: string, b: string, c: string)
    ensures a + b + c == a + (b + c)
  {
  }
}
