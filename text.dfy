/**
 * The handful of Python string operations the downloader relies on, over
 * `string` (= `seq<char>`): `startswith`, substring `in`, `lower`, `lstrip`
 * and `rstrip` of one character, `rfind`, `os.path.splitext` (POSIX flavour)
 * and decimal formatting of a non-negative integer.
 */
module Text {

  /** `s.startswith(prefix)`. */
  predicate StartsWith(s: string, prefix: string) {
    |prefix| <= |s| && s[..|prefix|] == prefix
  }

  /** `sub` occurs in `s` at position `i`. */
  predicate OccursAt(s: string, sub: string, i: int) {
    0 <= i && i + |sub| <= |s| && s[i..i + |sub|] == sub
  }

  /** `sub in s` on Python strings. */
  predicate Contains(s: string, sub: string) {
    exists i :: 0 <= i <= |s| - |sub| && OccursAt(s, sub, i)
  }

  predicate IsUpperChar(c: char) {
    'A' <= c <= 'Z'
  }

  /** No ASCII upper-case letter in `s`. */
  predicate IsLower(s: string) {
    forall i :: 0 <= i < |s| ==> !IsUpperChar(s[i])
  }

  function LowerChar(c: char): char {
    if IsUpperChar(c) then (c as int + 32) as char else c
  }

  /** `s.lower()`, restricted to the ASCII letters. */
  function ToLower(s: string): (r: string)
    ensures |r| == |s| && IsLower(r)
    ensures forall i :: 0 <= i < |s| ==>
      if IsUpperChar(s[i]) then r[i] as int == s[i] as int + 32 else r[i] == s[i]
  {
    seq(|s|, i requires 0 <= i < |s| => LowerChar(s[i]))
  }

  /** Lower-casing twice is lower-casing once. */
  lemma ToLowerOfLower(s: string)
    requires IsLower(s)
    ensures ToLower(s) == s
  {
    assert forall i :: 0 <= i < |s| ==> ToLower(s)[i] == s[i];
  }

  /** Lower-casing commutes with dropping a prefix. */
  lemma ToLowerSuffix(s: string, i: nat)
    requires i <= |s|
    ensures ToLower(s[i..]) == ToLower(s)[i..]
  {
  }

  /** `s.lstrip(c)`: every leading `c` is dropped, nothing else. */
  function LStrip(s: string, c: char): (r: string)
    ensures |r| <= |s| && r == s[|s| - |r|..]
    ensures r == [] || r[0] != c
    ensures forall i :: 0 <= i < |s| - |r| ==> s[i] == c
  {
    if |s| > 0 && s[0] == c then LStrip(s[1..], c) else s
  }

  /** `s.rstrip(c)`: every trailing `c` is dropped, nothing else. */
  function RStrip(s: string, c: char): (r: string)
    ensures |r| <= |s| && r == s[..|r|]
    ensures r == [] || r[|r| - 1] != c
    ensures forall i :: |r| <= i < |s| ==> s[i] == c
  {
    if |s| > 0 && s[|s| - 1] == c then RStrip(s[..|s| - 1], c) else s
  }

  /** `s.rfind(c)`: the last position of `c`, or -1 when there is none. */
  function RFind(s: string, c: char): (r: int)
    ensures -1 <= r < |s|
    ensures r >= 0 ==> s[r] == c
    ensures forall j :: r < j < |s| ==> s[j] != c
  {
    if |s| == 0 then -1
    else if s[|s| - 1] == c then |s| - 1
    else RFind(s[..|s| - 1], c)
  }

  /**
   * `p[d]` is the last dot of `p`, no separator follows it, and some
   * character other than a dot comes before it in its path component: where
   * `splitext` starts the extension.
   */
  predicate ExtensionStart(p: string, d: int) {
    && 0 <= d < |p| && p[d] == '.'
    && (forall j :: d < j < |p| ==> p[j] != '.' && p[j] != '/')
    && exists k :: RFind(p, '/') < k < d && p[k] != '.'
  }

  /**
   * `os.path.splitext(p)` with `/` as separator: the extension starts at the
   * last dot of the last path component, unless everything in that component
   * before the dot is a dot too (a name such as `.hidden` has no extension).
   */
  function SplitExt(p: string): (r: (string, string))
    ensures r.0 + r.1 == p
    ensures r.1 == [] || (r.1[0] == '.' && '.' !in r.1[1..] && '/' !in r.1[1..])
    ensures '.' !in p ==> r.1 == []
    ensures |p| > 0 && p[0] == '.' && '.' !in p[1..] ==> r.1 == []
    ensures r.1 != [] ==> ExtensionStart(p, |r.0|)
    ensures forall d :: ExtensionStart(p, d) ==> r == (p[..d], p[d..])
  {
    var sep := RFind(p, '/');
    var dot := RFind(p, '.');
    if dot > sep && exists k :: sep + 1 <= k < dot && p[k] != '.' then
      assert forall j :: dot < j < |p| ==> p[j] != '.' && p[j] != '/';
      (p[..dot], p[dot..])
    else
      (p, [])
  }

  /** The last `c` of `s`, when `c` occurs no more from position `d` on, lies before `d`. */
  lemma RFindBefore(s: string, c: char, d: nat)
    requires d <= |s| && forall j :: d <= j < |s| ==> s[j] != c
    ensures RFind(s, c) == RFind(s[..d], c)
  {
    var a := RFind(s[..d], c);
    var b := RFind(s, c);
    if b >= 0 {
      assert b < d && s[..d][b] == c;
    }
    if a >= 0 {
      assert s[a] == s[..d][a];
    }
  }

  /** Where an extension starts, `splitext` splits. */
  lemma SplitExtAt(p: string, d: int)
    requires ExtensionStart(p, d)
    ensures SplitExt(p) == (p[..d], p[d..])
  {
  }

  /** After the dot of `stem.suffix` comes no dot and no separator. */
  lemma SuffixHasNoDot(stem: string, suffix: string)
    requires '.' !in suffix && '/' !in suffix
    ensures forall j :: |stem| < j < |stem + "." + suffix| ==>
      (stem + "." + suffix)[j] != '.' && (stem + "." + suffix)[j] != '/'
  {
    var p := stem + "." + suffix;
    forall j | |stem| < j < |p| ensures p[j] != '.' && p[j] != '/' {
      assert p[j] == suffix[j - |stem| - 1];
    }
  }

  /** A last dot with a non-dot before it, after the last separator of the text before it, starts the extension. */
  lemma ExtensionStartAt(p: string, d: int)
    requires 0 <= d < |p| && p[d] == '.'
    requires forall j :: d < j < |p| ==> p[j] != '.' && p[j] != '/'
    requires exists k :: RFind(p[..d], '/') < k < d && p[k] != '.'
    ensures ExtensionStart(p, d)
  {
    RFindBefore(p, '/', d);
  }

  /** In `stem.suffix` the dot before the suffix starts the extension. */
  lemma ExtensionStartOfName(stem: string, suffix: string)
    requires '.' !in suffix && '/' !in suffix
    requires exists k :: RFind(stem, '/') < k < |stem| && stem[k] != '.'
    ensures ExtensionStart(stem + "." + suffix, |stem|)
  {
    var p := stem + "." + suffix;
    var d := |stem|;
    SuffixHasNoDot(stem, suffix);
    assert p[..d] == stem;
    var k :| RFind(stem, '/') < k < d && stem[k] != '.';
    assert p[k] == stem[k];
    assert RFind(p[..d], '/') < k < d && p[k] != '.';
    ExtensionStartAt(p, d);
  }

  /**
   * The converse of `SplitExt`'s shape: a stem whose last component holds a
   * character other than a dot, then a dot, then a suffix with no dot and no
   * separator, splits into that stem and the dotted suffix.
   */
  lemma SplitExtOfName(stem: string, suffix: string)
    requires '.' !in suffix && '/' !in suffix
    requires exists k :: RFind(stem, '/') < k < |stem| && stem[k] != '.'
    ensures SplitExt(stem + "." + suffix) == (stem, "." + suffix)
  {
    var p := stem + "." + suffix;
    ExtensionStartOfName(stem, suffix);
    SplitExtAt(p, |stem|);
    assert p[..|stem|] == stem && p[|stem|..] == "." + suffix;
  }

  function DigitChar(d: nat): char
    requires d < 10
  {
    ('0' as int + d) as char
  }

  predicate IsDigits(s: string) {
    forall i :: 0 <= i < |s| ==> '0' <= s[i] <= '9'
  }

  /** `str(n)` for a non-negative integer: its decimal digits, no leading zero. */
  function Decimal(n: nat): (s: string)
    ensures |s| > 0 && IsDigits(s)
    ensures s[0] == '0' ==> n == 0
  {
    if n < 10 then [DigitChar(n)] else Decimal(n / 10) + [DigitChar(n % 10)]
  }

  /** The value of a string of decimal digits. */
  function DecimalValue(s: string): nat
    requires IsDigits(s)
  {
    if s == [] then 0 else DecimalValue(s[..|s| - 1]) * 10 + (s[|s| - 1] as int - '0' as int)
  }

  /** Reading back the digits of `n` gives `n`. */
  lemma {:induction false} DecimalRoundTrip(n: nat)
    ensures DecimalValue(Decimal(n)) == n
  {
    if n >= 10 {
      DecimalRoundTrip(n / 10);
      var s := Decimal(n);
      assert s[..|s| - 1] == Decimal(n / 10);
    }
  }
}
