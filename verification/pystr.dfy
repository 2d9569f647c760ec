/** The handful of Python `str` operations the modelled code relies on. */
module PyStr {
  import opened Base

  /** `str.isspace()` for a single character (the Unicode White_Space set CPython uses). */
  predicate IsSpace(c: char) {
    || c == ' '
    || ('\U{9}' <= c <= '\U{D}')
    || ('\U{1C}' <= c <= '\U{1F}')
    || c == '\U{85}' || c == '\U{A0}' || c == '\U{1680}'
    || ('\U{2000}' <= c <= '\U{200A}')
    || c == '\U{2028}' || c == '\U{2029}' || c == '\U{202F}' || c == '\U{205F}' || c == '\U{3000}'
  }

  /** ASCII decimal digit. */
  predicate IsDigit(c: char) {
    '0' <= c <= '9'
  }

  predicate AllSpace(s: string) {
    forall i :: 0 <= i < |s| ==> IsSpace(s[i])
  }

  /** `any(ch.isdigit() for ch in s)` */
  predicate HasDigit(s: string) {
    exists i :: 0 <= i < |s| && IsDigit(s[i])
  }

  /** `str.lstrip()` */
  function LStrip(s: string): (r: string)
    ensures |r| <= |s| && r == s[|s| - |r|..]
    ensures AllSpace(s[..|s| - |r|])
    ensures r == [] || !IsSpace(r[0])
  {
    if |s| > 0 && IsSpace(s[0]) then
      var r := LStrip(s[1..]);
      var n := |s| - |r|;
      assert s[1..][n - 1..] == s[n..];
      assert AllSpace(s[..n]) by {
        forall i | 0 <= i < n ensures IsSpace(s[..n][i]) {
          if i > 0 {
            assert s[..n][i] == s[1..][..n - 1][i - 1];
          }
        }
      }
      r
    else s
  }

  /** `str.rstrip()` */
  function RStrip(s: string): (r: string)
    ensures |r| <= |s| && r == s[..|r|]
    ensures AllSpace(s[|r|..])
    ensures r == [] || !IsSpace(r[|r| - 1])
  {
    if |s| > 0 && IsSpace(s[|s| - 1]) then
      var t := s[..|s| - 1];
      var r := RStrip(t);
      assert t[..|r|] == s[..|r|];
      assert AllSpace(t[|r|..]);
      assert s[|r|..] == t[|r|..] + [s[|s| - 1]];
      r
    else s
  }

  /** `str.strip()`: the longest middle part that neither starts nor ends with whitespace. */
  function Strip(s: string): (r: string)
  {
    RStrip(LStrip(s))
  }

  /** Stripping a whitespace prefix in front of a text that does not start with whitespace
      gives that text back. */
  lemma {:induction false} LStripSpacePrefix(w: string, x: string)
    requires AllSpace(w)
    requires x == [] || !IsSpace(x[0])
    ensures LStrip(w + x) == x
  {
    if w != [] {
      assert (w + x)[1..] == w[1..] + x;
      LStripSpacePrefix(w[1..], x);
    }
  }

  /** Right-stripping `x + y` keeps all of `x` when `x` ends with a non-space character. */
  lemma {:induction false} RStripKeepsHead(x: string, y: string)
    requires x != [] && !IsSpace(x[|x| - 1])
    ensures RStrip(x + y) == x + RStrip(y)
    decreases |y|
  {
    if y == [] {
      assert x + y == x;
    } else if IsSpace(y[|y| - 1]) {
      assert (x + y)[..|x + y| - 1] == x + y[..|y| - 1];
      RStripKeepsHead(x, y[..|y| - 1]);
    } else {
      assert (x + y)[|x + y| - 1] == y[|y| - 1];
    }
  }

  /** `Strip` leaves nothing to strip. */
  lemma StripIdempotent(s: string)
    ensures Strip(Strip(s)) == Strip(s)
  {
    var r := Strip(s);
    if r != [] {
      LStripSpacePrefix([], r);
      assert [] + r == r;
    }
  }

  /** `sep` occurs in `s` starting at index `k`. */
  predicate OccursAt(s: string, sep: string, k: nat) {
    k + |sep| <= |s| && s[k..k + |sep|] == sep
  }

  /** The index of the first occurrence of `sep` in `s` (`str.find`, with `None` for -1). */
  function Find(s: string, sep: string): (r: Option<nat>)
    ensures r.Some? ==> OccursAt(s, sep, r.value)
    ensures r.Some? ==> forall k: nat :: k < r.value ==> !OccursAt(s, sep, k)
    ensures r.None? ==> forall k: nat :: !OccursAt(s, sep, k)
    decreases |s|
  {
    if |s| < |sep| then None
    else if s[..|sep|] == sep then Some(0)
    else
      var rest := Find(s[1..], sep);
      assert forall k: nat :: 1 <= k ==> (OccursAt(s, sep, k) <==> OccursAt(s[1..], sep, k - 1)) by {
        forall k: nat | 1 <= k ensures OccursAt(s, sep, k) <==> OccursAt(s[1..], sep, k - 1) {
          OccursShift(s, sep, k);
        }
      }
      assert !OccursAt(s, sep, 0);
      match rest
      case None => None
      case Some(i) => Some(i + 1)
  }

  /** An occurrence at `k >= 1` is an occurrence at `k - 1` in the text without its head. */
  lemma OccursShift(s: string, sep: string, k: nat)
    requires 1 <= k && 1 <= |s|
    ensures OccursAt(s, sep, k) <==> OccursAt(s[1..], sep, k - 1)
  {
    if k + |sep| <= |s| {
      assert s[1..][k - 1..k - 1 + |sep|] == s[k..k + |sep|];
    }
  }

  /** `sep in s` */
  predicate Contains(s: string, sep: string) {
    Find(s, sep).Some?
  }

  /** `sep.join(parts)` */
  function Join(sep: string, parts: seq<string>): string
  {
    if |parts| == 0 then ""
    else if |parts| == 1 then parts[0]
    else parts[0] + sep + Join(sep, parts[1..])
  }

  /** Joining at a cut point: the first `k` parts joined, the separator, the rest joined. */
  lemma {:induction false} JoinAt(sep: string, xs: seq<string>, k: nat)
    requires 1 <= k < |xs|
    ensures Join(sep, xs) == Join(sep, xs[..k]) + sep + Join(sep, xs[k..])
  {
    if k > 1 {
      JoinAt(sep, xs[1..], k - 1);
      assert xs[1..][..k - 1] == xs[..k][1..];
      assert xs[1..][k - 1..] == xs[k..];
    }
  }

  /** Appending one part to a non-empty join adds the separator and the part. */
  lemma JoinSnoc(sep: string, xs: seq<string>, x: string)
    requires xs != []
    ensures Join(sep, xs + [x]) == Join(sep, xs) + sep + x
  {
    JoinAt(sep, xs + [x], |xs|);
    assert (xs + [x])[..|xs|] == xs;
    assert (xs + [x])[|xs|..] == [x];
  }

  /** Pieces and a separator without digits join to a text without digits. */
  lemma {:induction false} JoinNoDigit(sep: string, xs: seq<string>)
    requires !HasDigit(sep)
    requires forall j :: 0 <= j < |xs| ==> !HasDigit(xs[j])
    ensures !HasDigit(Join(sep, xs))
  {
    if |xs| > 1 {
      JoinNoDigit(sep, xs[1..]);
      var r := Join(sep, xs);
      assert r == xs[0] + sep + Join(sep, xs[1..]);
      forall i | 0 <= i < |r| ensures !IsDigit(r[i]) {
        if i < |xs[0]| {
          assert r[i] == xs[0][i];
        } else if i < |xs[0]| + |sep| {
          assert r[i] == sep[i - |xs[0]|];
        } else {
          assert r[i] == Join(sep, xs[1..])[i - |xs[0]| - |sep|];
        }
      }
    }
  }

  /** `s.split(sep)` for a non-empty separator (Python raises ValueError on an empty one):
      cut at every occurrence, scanning left to right. */
  function Split(s: string, sep: string): (r: seq<string>)
    requires |sep| > 0
    ensures |r| >= 1
    ensures |r| >= 2 <==> Contains(s, sep)
    ensures Find(s, sep).None? ==> r == [s]
    ensures Find(s, sep).Some? ==> r[0] == s[..Find(s, sep).value]
    decreases |s|
  {
    match Find(s, sep)
    case None => [s]
    case Some(i) => [s[..i]] + Split(s[i + |sep|..], sep)
  }

  /** `last` is what follows the last `c` in `s`: a suffix free of `c`, preceded by `c`
      unless it is the whole text. */
  predicate TextAfterLast(s: string, c: char, last: string) {
    |last| <= |s| && last == s[|s| - |last|..] && c !in last &&
    (|last| < |s| ==> s[|s| - |last| - 1] == c)
  }

  /** Putting a `c`-terminated prefix in front keeps the text after the last `c`. */
  lemma AfterLastShift(s: string, i: nat, c: char, last: string)
    requires i < |s| && s[i] == c
    requires TextAfterLast(s[i + 1..], c, last)
    ensures TextAfterLast(s, c, last)
  {
    var tail := s[i + 1..];
    assert tail[|tail| - |last|..] == s[|s| - |last|..];
    if |last| < |tail| {
      assert tail[|tail| - |last| - 1] == s[|s| - |last| - 1];
    }
  }

  /** The last piece of a split at one character is the text after the last occurrence of
      that character. */
  lemma {:induction false} SplitCharLast(s: string, c: char)
    ensures var r := Split(s, [c]); TextAfterLast(s, c, r[|r| - 1])
    decreases |s|
  {
    match Find(s, [c])
    case None =>
      SplitCharNone(s, c);
    case Some(i) =>
      SplitCharLast(s[i + 1..], c);
      SplitAtFirst(s, [c], i);
      FoundChar(s, c);
      SplitCharStep(s, c, i, Split(s, [c]), Split(s[i + 1..], [c]));
  }

  /** Without `c`, the only piece is the whole text. */
  lemma SplitCharNone(s: string, c: char)
    requires Find(s, [c]).None?
    ensures var r := Split(s, [c]); TextAfterLast(s, c, r[|r| - 1])
  {
    ContainsChar(s, c);
    var r := Split(s, [c]);
    assert r == [s];
    assert r[|r| - 1] == s;
    assert s[|s| - |s|..] == s;
  }

  /** Pieces `[s[..i]] + rt` with `s[i] == c` end like `rt` does. */
  lemma SplitCharStep(s: string, c: char, i: nat, r: seq<string>, rt: seq<string>)
    requires i < |s| && s[i] == c
    requires |rt| >= 1 && r == [s[..i]] + rt
    requires TextAfterLast(s[i + 1..], c, rt[|rt| - 1])
    ensures TextAfterLast(s, c, r[|r| - 1])
  {
    assert r[|r| - 1] == rt[|rt| - 1];
    AfterLastShift(s, i, c, rt[|rt| - 1]);
  }

  /** The first occurrence of a one-character separator is that character. */
  lemma FoundChar(s: string, c: char)
    requires Find(s, [c]).Some?
    ensures Find(s, [c]).value < |s| && s[Find(s, [c]).value] == c
  {
    var i := Find(s, [c]).value;
    FoundOccurs(s, [c]);
    assert s[i] == s[i..i + 1][0];
  }

  /** One cut of a split: the text before the first occurrence, then the pieces of the
      text after it. */
  lemma SplitAtFirst(s: string, sep: string, i: nat)
    requires |sep| > 0 && Find(s, sep) == Some(i)
    ensures Split(s, sep) == [s[..i]] + Split(s[i + |sep|..], sep)
  {
  }

  /** `Find` reports an occurrence. */
  lemma FoundOccurs(s: string, sep: string)
    requires Find(s, sep).Some?
    ensures Find(s, sep).value + |sep| <= |s|
    ensures s[Find(s, sep).value..Find(s, sep).value + |sep|] == sep
  {
    assert OccursAt(s, sep, Find(s, sep).value);
  }

  /** A text is its prefix, a middle part and the rest, put back together. */
  lemma CutAround(s: string, i: nat, n: nat)
    requires i + n <= |s|
    ensures s[..i] + s[i..i + n] + s[i + n..] == s
  {
  }

  /** Joining the pieces of a split with the same separator gives back the original text. */
  lemma {:induction false} SplitJoin(s: string, sep: string)
    requires |sep| > 0
    ensures Join(sep, Split(s, sep)) == s
    decreases |s|
  {
    match Find(s, sep)
    case None =>
    case Some(i) =>
      var tail := s[i + |sep|..];
      SplitAtFirst(s, sep, i);
      FoundOccurs(s, sep);
      SplitJoin(tail, sep);
      var rt := Split(tail, sep);
      assert ([s[..i]] + rt)[1..] == rt;
      CutAround(s, i, |sep|);
  }


  /** The text before the first occurrence holds no occurrence. */
  lemma PrefixBeforeFirstFree(s: string, sep: string)
    requires |sep| > 0 && Find(s, sep).Some?
    ensures !Contains(s[..Find(s, sep).value], sep)
  {
    var i := Find(s, sep).value;
    var head := s[..i];
    forall j: nat ensures !OccursAt(head, sep, j) {
      if j + |sep| <= |head| {
        assert !OccursAt(s, sep, j);
        assert head[j..j + |sep|] == s[j..j + |sep|];
      }
    }
  }

  /** No piece of a split contains the separator. */
  lemma {:induction false} SplitPiecesFree(s: string, sep: string)
    requires |sep| > 0
    ensures forall k :: 0 <= k < |Split(s, sep)| ==> !Contains(Split(s, sep)[k], sep)
    decreases |s|
  {
    match Find(s, sep)
    case None =>
    case Some(i) =>
      PrefixBeforeFirstFree(s, sep);
      var tail := s[i + |sep|..];
      SplitPiecesFree(tail, sep);
      var r := Split(s, sep);
      assert r[1..] == Split(tail, sep);
      forall k | 1 <= k < |r| ensures !Contains(r[k], sep) {
        assert r[k] == Split(tail, sep)[k - 1];
      }
  }

  /** `sep in s` for a one-character separator: the character occurs in `s`. */
  lemma ContainsChar(s: string, c: char)
    ensures Contains(s, [c]) <==> c in s
  {
    if c in s {
      var k :| 0 <= k < |s| && s[k] == c;
      assert OccursAt(s, [c], k);
    } else {
      forall k: nat ensures !OccursAt(s, [c], k) {
        if k + 1 <= |s| {
          assert s[k..k + 1] == [s[k]];
        }
      }
    }
  }

  /** A text with exactly one occurrence of a one-character separator splits into the text
      before it and the text after it. */
  lemma SplitAtSole(a: string, c: char, b: string)
    requires c !in a && c !in b
    ensures Split(a + [c] + b, [c]) == [a, b]
  {
    var s := a + [c] + b;
    assert OccursAt(s, [c], |a|) by {
      assert s[|a|..|a| + 1] == [c];
    }
    forall k: nat | k < |a| ensures !OccursAt(s, [c], k) {
      assert s[k..k + 1] == [a[k]];
    }
    assert Find(s, [c]) == Some(|a|);
    ContainsChar(b, c);
    assert s[..|a|] == a && s[|a| + 1..] == b;
  }

  /** `s.startswith(prefix)` */
  predicate StartsWith(s: string, prefix: string) {
    |prefix| <= |s| && s[..|prefix|] == prefix
  }

  /** `s.endswith(suffix)` */
  predicate EndsWith(s: string, suffix: string) {
    |suffix| <= |s| && s[|s| - |suffix|..] == suffix
  }

  function DigitChar(d: nat): char
    requires d < 10
  {
    ['0', '1', '2', '3', '4', '5', '6', '7', '8', '9'][d]
  }

  /** `str(n)` for a non-negative integer. */
  function NatToString(n: nat): (r: string)
    ensures |r| >= 1
    ensures forall i :: 0 <= i < |r| ==> IsDigit(r[i])
    ensures |r| > 1 ==> r[0] != '0'
  {
    if n < 10 then [DigitChar(n)] else NatToString(n / 10) + [DigitChar(n % 10)]
  }

  /** The value of a decimal digit string; the inverse of `NatToString`. */
  function ParseNat(s: string): nat
    requires forall i :: 0 <= i < |s| ==> IsDigit(s[i])
  {
    if s == [] then 0 else 10 * ParseNat(s[..|s| - 1]) + DigitValue(s[|s| - 1])
  }

  function DigitValue(c: char): nat
    requires IsDigit(c)
  {
    c as int - '0' as int
  }

  lemma DigitRoundTrip(d: nat)
    requires d < 10
    ensures IsDigit(DigitChar(d)) && DigitValue(DigitChar(d)) == d
  {
  }

  lemma {:induction false} ParseNatToString(n: nat)
    ensures ParseNat(NatToString(n)) == n
  {
    DigitRoundTrip(n % 10);
    if n >= 10 {
      var s := NatToString(n);
      assert s[..|s| - 1] == NatToString(n / 10);
      assert s[|s| - 1] == DigitChar(n % 10);
      ParseNatToString(n / 10);
    }
  }

  /** Distinct numbers print as distinct strings. */
  lemma NatToStringInjective(m: nat, n: nat)
    requires NatToString(m) == NatToString(n)
    ensures m == n
  {
    ParseNatToString(m);
    ParseNatToString(n);
  }
}
