/**
  The JavaScript string primitives the recorder relies on, stated over
  `string` (= `seq<char>`): the `\s` character class, `trim()`,
  `replace(/\s+/g, " ")`, ASCII `toLowerCase()`, substring search, `join`,
  and `String(n)` / `slice(-k)` on non-negative integers.
*/
module Text {

  /** One character of JavaScript's `\s` class (WhiteSpace and LineTerminator);
      `trim()` strips exactly these. */
  predicate IsSpace(c: char) {
    c == ' ' || c == '\t' || c == '\n' || c == '\r' || c == '\U{000B}' || c == '\U{000C}'
    || c == '\U{00A0}' || c == '\U{1680}' || ('\U{2000}' <= c <= '\U{200A}')
    || c == '\U{2028}' || c == '\U{2029}' || c == '\U{202F}' || c == '\U{205F}'
    || c == '\U{3000}' || c == '\U{FEFF}'
  }

  predicate AllSpace(s: string) {
    forall i :: 0 <= i < |s| ==> IsSpace(s[i])
  }

  /** The characters of `s` that are not white space, in order. */
  function NonSpace(s: string): string {
    if s == [] then [] else (if IsSpace(s[0]) then [] else [s[0]]) + NonSpace(s[1..])
  }

  lemma {:induction false} NonSpaceAppend(a: string, b: string)
    ensures NonSpace(a + b) == NonSpace(a) + NonSpace(b)
  {
    if a != [] {
      var x := if IsSpace(a[0]) then [] else [a[0]];
      assert (a + b)[0] == a[0];
      assert (a + b)[1..] == a[1..] + b;
      NonSpaceAppend(a[1..], b);
      calc {
        NonSpace(a + b);
        x + NonSpace(a[1..] + b);
        x + (NonSpace(a[1..]) + NonSpace(b));
        (x + NonSpace(a[1..])) + NonSpace(b);
        NonSpace(a) + NonSpace(b);
      }
    } else {
      assert a + b == b;
    }
  }

  lemma {:induction false} NonSpaceOfSpaces(s: string)
    requires AllSpace(s)
    ensures NonSpace(s) == []
  {
    if s != [] {
      NonSpaceOfSpaces(s[1..]);
    }
  }

  /** The number of white-space characters at the start of `s`. */
  function LeadingSpaces(s: string): (k: nat)
    ensures k <= |s|
    ensures forall i :: 0 <= i < k ==> IsSpace(s[i])
    ensures k == |s| || !IsSpace(s[k])
  {
    if |s| > 0 && IsSpace(s[0]) then
      var k' := LeadingSpaces(s[1..]);
      assert forall i :: 1 <= i < 1 + k' ==> s[i] == s[1..][i - 1];
      1 + k'
    else 0
  }

  /** The number of white-space characters at the end of `s`. */
  function TrailingSpaces(s: string): (k: nat)
    ensures k <= |s|
    ensures forall i :: |s| - k <= i < |s| ==> IsSpace(s[i])
    ensures k == |s| || !IsSpace(s[|s| - k - 1])
  {
    if |s| > 0 && IsSpace(s[|s| - 1]) then
      var k' := TrailingSpaces(s[..|s| - 1]);
      assert forall i :: |s| - 1 - k' <= i < |s| - 1 ==> s[i] == s[..|s| - 1][i];
      1 + k'
    else 0
  }

  /** `String.prototype.trim`: the result is the slice of `s` left between a run
      of white space at the start and one at the end, and it neither starts nor
      ends with white space. */
  function Trim(s: string): (r: string)
    ensures |r| <= |s|
    ensures r == [] || (!IsSpace(r[0]) && !IsSpace(r[|r| - 1]))
    ensures exists a, b :: 0 <= a <= b <= |s| && r == s[a..b]
                           && (forall i :: 0 <= i < a ==> IsSpace(s[i]))
                           && (forall i :: b <= i < |s| ==> IsSpace(s[i]))
  {
    var a := LeadingSpaces(s);
    if a == |s| then
      assert [] == s[a..a];
      []
    else
      var b := |s| - TrailingSpaces(s);
      assert a < b;
      s[a..b]
  }

  /** Trimming removes white space only: every other character of `s` survives, in order. */
  lemma TrimKeepsText(s: string)
    ensures NonSpace(Trim(s)) == NonSpace(s)
  {
    var r := Trim(s);
    var a := LeadingSpaces(s);
    var b := if a == |s| then a else |s| - TrailingSpaces(s);
    assert r == s[a..b];
    assert AllSpace(s[..a]);
    assert AllSpace(s[b..]);
    assert s == s[..a] + r + s[b..];
    NonSpaceAppend(s[..a] + r, s[b..]);
    NonSpaceAppend(s[..a], r);
    NonSpaceOfSpaces(s[..a]);
    NonSpaceOfSpaces(s[b..]);
  }

  /** `s.replace(/\s+/g, " ")`: every maximal run of white space becomes one blank. */
  function CollapseSpaces(s: string): string
    decreases |s|
  {
    if s == [] then []
    else if IsSpace(s[0]) then [' '] + CollapseSpaces(s[1 + LeadingSpaces(s[1..])..])
    else [s[0]] + CollapseSpaces(s[1..])
  }

  /** Collapsing leaves a string empty exactly when it was empty, and starts
      (ends) it with white space exactly when it did. */
  lemma {:induction false} CollapseEnds(s: string)
    ensures var r := CollapseSpaces(s);
      && (|r| == 0 <==> |s| == 0)
      && (|r| > 0 ==> (IsSpace(r[0]) <==> IsSpace(s[0])))
      && (|r| > 0 ==> (IsSpace(r[|r| - 1]) <==> IsSpace(s[|s| - 1])))
    decreases |s|
  {
    if s == [] {
    } else if IsSpace(s[0]) {
      var k := 1 + LeadingSpaces(s[1..]);
      var t := s[k..];
      CollapseEnds(t);
      if t == [] {
        if |s| > 1 {
          assert s[|s| - 1] == s[1..][|s| - 2];
        }
      } else {
        assert t[|t| - 1] == s[|s| - 1];
      }
    } else {
      CollapseEnds(s[1..]);
    }
  }

  /** The only white space in `r` is blanks, and no two of them are adjacent. */
  predicate SingleBlanks(r: string) {
    && (forall i :: 0 <= i < |r| && IsSpace(r[i]) ==> r[i] == ' ')
    && (forall i :: 0 <= i < |r| - 1 && IsSpace(r[i]) ==> !IsSpace(r[i + 1]))
  }

  /** After collapsing, the only white space is single blanks. */
  lemma {:induction false} CollapseSpacing(s: string)
    ensures SingleBlanks(CollapseSpaces(s))
    decreases |s|
  {
    var r := CollapseSpaces(s);
    if s == [] {
    } else {
      var c, first;
      if IsSpace(s[0]) {
        var k := 1 + LeadingSpaces(s[1..]);
        var t := s[k..];
        c, first := CollapseSpaces(t), ' ';
        CollapseSpacing(t);
        CollapseEnds(t);
        assert t != [] ==> t[0] == s[1..][k - 1];
      } else {
        c, first := CollapseSpaces(s[1..]), s[0];
        CollapseSpacing(s[1..]);
      }
      assert r == [first] + c;
      assert forall i :: 1 <= i < |r| ==> r[i] == c[i - 1];
      forall i | 1 <= i < |r| - 1 && IsSpace(r[i]) ensures !IsSpace(r[i + 1]) {
        assert r[i] == c[i - 1] && r[i + 1] == c[i];
      }
    }
  }

  /** Collapsing keeps every character that is not white space, in order. */
  lemma {:induction false} CollapseKeepsText(s: string)
    ensures NonSpace(CollapseSpaces(s)) == NonSpace(s)
    decreases |s|
  {
    if s == [] {
    } else if IsSpace(s[0]) {
      var k := 1 + LeadingSpaces(s[1..]);
      assert s == s[..k] + s[k..];
      NonSpaceAppend(s[..k], s[k..]);
      NonSpaceOfSpaces(s[..k]);
      CollapseKeepsText(s[k..]);
      NonSpaceAppend([' '], CollapseSpaces(s[k..]));
    } else {
      CollapseKeepsText(s[1..]);
      NonSpaceAppend([s[0]], CollapseSpaces(s[1..]));
    }
  }

  /** The label normalisation `s.trim().replace(/\s+/g, " ")`. */
  function Normalize(s: string): string {
    CollapseSpaces(Trim(s))
  }

  /** A normalised text has no white space at either end, its only white space
      is single blanks between words, and it keeps every other character of `s`. */
  lemma NormalizeShape(s: string)
    ensures var r := Normalize(s);
      && (r == [] || (!IsSpace(r[0]) && !IsSpace(r[|r| - 1])))
      && SingleBlanks(r)
      && NonSpace(r) == NonSpace(s)
  {
    TrimKeepsText(s);
    CollapseKeepsText(Trim(s));
    CollapseEnds(Trim(s));
    CollapseSpacing(Trim(s));
  }

  /** The number of characters before the first white space of `s`. */
  function WordLength(s: string): (k: nat)
    ensures k <= |s|
    ensures forall i :: 0 <= i < k ==> !IsSpace(s[i])
    ensures k == |s| || IsSpace(s[k])
  {
    if |s| > 0 && !IsSpace(s[0]) then
      var k' := WordLength(s[1..]);
      assert forall i :: 1 <= i < 1 + k' ==> s[i] == s[1..][i - 1];
      1 + k'
    else 0
  }

  /** The words of `s`: its maximal runs of characters other than white space, in order. */
  function Words(s: string): seq<string>
    decreases |s|
  {
    if s == [] then []
    else if IsSpace(s[0]) then Words(s[1..])
    else var k := WordLength(s); [s[..k]] + Words(s[k..])
  }

  /** White space in front of a text does not change its words. */
  lemma {:induction false} WordsSkipSpaces(s: string, j: nat)
    requires j <= |s| && forall i :: 0 <= i < j ==> IsSpace(s[i])
    ensures Words(s) == Words(s[j..])
  {
    if j > 0 {
      assert s[1..][j - 1..] == s[j..];
      WordsSkipSpaces(s[1..], j - 1);
    }
  }

  /** Nor does white space behind a text that ends in a word. */
  lemma {:induction false} WordsDropTrailing(u: string, sp: string)
    requires AllSpace(sp) && (u == [] || !IsSpace(u[|u| - 1]))
    ensures Words(u + sp) == Words(u)
    decreases |u|
  {
    var t := u + sp;
    if u == [] {
      assert t == sp;
      WordsSkipSpaces(sp, |sp|);
      assert sp[|sp|..] == [];
    } else if IsSpace(u[0]) {
      assert t[1..] == u[1..] + sp;
      WordsDropTrailing(u[1..], sp);
    } else {
      var k := WordLength(u);
      assert k < |u| ==> IsSpace(t[k]);
      assert k == |u| ==> k == |t| || IsSpace(t[k]);
      WordLengthOf(t, k);
      assert t[..k] == u[..k] && t[k..] == u[k..] + sp;
      WordsDropTrailing(u[k..], sp);
    }
  }

  /** The run of non-space characters that starts `s` and stops at white space
      or at the end has length `k`. */
  lemma WordLengthOf(s: string, k: nat)
    requires k <= |s| && (forall i :: 0 <= i < k ==> !IsSpace(s[i])) && (k == |s| || IsSpace(s[k]))
    ensures WordLength(s) == k
  {
  }

  /** Collapsing never touches a leading run of non-space characters. */
  lemma {:induction false} CollapseAfterWord(s: string, k: nat)
    requires k <= |s| && forall i :: 0 <= i < k ==> !IsSpace(s[i])
    ensures CollapseSpaces(s) == s[..k] + CollapseSpaces(s[k..])
  {
    if k > 0 {
      assert s[1..][k - 1..] == s[k..];
      CollapseAfterWord(s[1..], k - 1);
      assert s[..k] == [s[0]] + s[1..][..k - 1];
    }
  }

  /** A run of white space that a word follows: it ends at `j`, and collapses to one blank. */
  lemma GapBeforeWord(r: string) returns (j: nat)
    requires r != [] && IsSpace(r[0]) && !IsSpace(r[|r| - 1])
    ensures 0 < j < |r| && !IsSpace(r[j]) && forall i :: 0 <= i < j ==> IsSpace(r[i])
    ensures CollapseSpaces(r) == [' '] + CollapseSpaces(r[j..])
  {
    j := 1 + LeadingSpaces(r[1..]);
    assert forall i :: 1 <= i < j ==> r[i] == r[1..][i - 1];
    if j == |r| {
      assert false;
    }
    assert r[j] == r[1..][j - 1];
    assert r[1..][j - 1..] == r[j..];
  }

  /** A text that neither starts nor ends with white space collapses to its
      words joined by single blanks. */
  lemma {:induction false} CollapseIsJoinedWords(s: string)
    requires s == [] || (!IsSpace(s[0]) && !IsSpace(s[|s| - 1]))
    ensures CollapseSpaces(s) == Join(Words(s), " ")
    ensures s != [] ==> Words(s) != []
    decreases |s|
  {
    if s != [] {
      var k := WordLength(s);
      var w := s[..k];
      CollapseAfterWord(s, k);
      assert Words(s) == [w] + Words(s[k..]);
      if k < |s| {
        var r := s[k..];
        assert r[|r| - 1] == s[|s| - 1];
        var j := GapBeforeWord(r);
        var t := r[j..];
        CollapseIsJoinedWords(t);
        WordsSkipSpaces(r, j);
        assert Words(s) == [w] + Words(t);
        assert ([w] + Words(t))[1..] == Words(t);
      } else {
        assert s[k..] == [];
        assert w == s;
      }
    }
  }

  /** The label normalisation joins the words of `s` with single blanks:
      every inner run of white space becomes exactly one blank. */
  lemma NormalizeIsJoinedWords(s: string)
    ensures Normalize(s) == Join(Words(s), " ")
  {
    TrimWords(s);
    CollapseIsJoinedWords(Trim(s));
  }

  /** Trimming keeps the words. */
  lemma TrimWords(s: string)
    ensures Words(Trim(s)) == Words(s)
  {
    var r := Trim(s);
    var a, b :| 0 <= a <= b <= |s| && r == s[a..b]
                && (forall i :: 0 <= i < a ==> IsSpace(s[i]))
                && (forall i :: b <= i < |s| ==> IsSpace(s[i]));
    if r == [] {
      assert forall i :: 0 <= i < |s| ==> IsSpace(s[i]);
      WordsSkipSpaces(s, |s|);
      assert s[|s|..] == [];
    } else {
      WordsSkipSpaces(s, a);
      SplitAt(s, a, b);
      SpacesToEnd(s, b);
      WordsOfSplit(s[a..], r, s[b..]);
    }
  }

  lemma SplitAt(s: string, a: nat, b: nat)
    requires a <= b <= |s|
    ensures s[a..] == s[a..b] + s[b..]
  {
  }

  lemma SpacesToEnd(s: string, b: nat)
    requires b <= |s| && forall i :: b <= i < |s| ==> IsSpace(s[i])
    ensures AllSpace(s[b..])
  {
    assert forall i :: 0 <= i < |s[b..]| ==> s[b..][i] == s[b + i];
  }

  lemma WordsOfSplit(x: string, t: string, sp: string)
    requires x == t + sp && AllSpace(sp) && t != [] && !IsSpace(t[|t| - 1])
    ensures Words(x) == Words(t)
  {
    WordsDropTrailing(t, sp);
  }

  /** ASCII `toLowerCase` of one character. */
  function LowerChar(c: char): char {
    if 'A' <= c <= 'Z' then (c as int + 32) as char else c
  }

  /** `toLowerCase()` restricted to the ASCII letters. */
  function LowerAscii(s: string): (r: string)
    ensures |r| == |s|
    ensures forall i :: 0 <= i < |s| ==> r[i] == LowerChar(s[i])
  {
    seq(|s|, i requires 0 <= i < |s| => LowerChar(s[i]))
  }

  /** `p` occurs in `s` starting at position `i`. */
  predicate OccursAt(s: string, p: string, i: nat) {
    i + |p| <= |s| && s[i..i + |p|] == p
  }

  /** `s.includes(p)`, searched left to right as a regular-expression test does. */
  predicate Contains(s: string, p: string)
    ensures Contains(s, p) <==> exists i: nat :: OccursAt(s, p, i)
    decreases |s|
  {
    if p <= s then
      assert OccursAt(s, p, 0) by { assert s[..|p|] == p; }
      true
    else if |s| == 0 then
      assert forall i: nat :: !OccursAt(s, p, i);
      false
    else
      var rest := Contains(s[1..], p);
      assert forall i: nat :: OccursAt(s[1..], p, i) <==> OccursAt(s, p, i + 1) by {
        forall i: nat ensures OccursAt(s[1..], p, i) <==> OccursAt(s, p, i + 1) {
          if i + |p| <= |s| - 1 {
            assert s[1..][i..i + |p|] == s[i + 1..i + 1 + |p|];
          }
        }
      }
      assert !OccursAt(s, p, 0);
      assert (exists i: nat :: OccursAt(s, p, i)) ==> exists i: nat :: OccursAt(s[1..], p, i) by {
        if exists i: nat :: OccursAt(s, p, i) {
          var i: nat :| OccursAt(s, p, i);
          assert i > 0;
          assert OccursAt(s[1..], p, i - 1);
        }
      }
      rest
  }

  /** `parts.join(sep)`. */
  function Join(parts: seq<string>, sep: string): string {
    if |parts| == 0 then ""
    else if |parts| == 1 then parts[0]
    else parts[0] + sep + Join(parts[1..], sep)
  }

  predicate IsDigit(c: char) {
    '0' <= c <= '9'
  }

  predicate AllDigits(s: string) {
    forall i :: 0 <= i < |s| ==> IsDigit(s[i])
  }

  function DigitChar(d: nat): (c: char)
    requires d < 10
    ensures IsDigit(c)
  {
    (48 + d) as char
  }

  function DigitValue(c: char): nat
    requires IsDigit(c)
  {
    c as int - 48
  }

  /** `String(n)` for a non-negative integer: decimal digits, no leading zero. */
  function NatToString(n: nat): (r: string)
    ensures |r| >= 1 && AllDigits(r)
    ensures r[0] == '0' ==> n == 0
  {
    if n < 10 then [DigitChar(n)] else NatToString(n / 10) + [DigitChar(n % 10)]
  }

  /** `String(i)` for any integer. */
  function IntToString(i: int): string {
    if i < 0 then "-" + NatToString(-i) else NatToString(i)
  }

  /** The value of a string of decimal digits. */
  function ParseNat(s: string): nat
    requires AllDigits(s)
  {
    if s == [] then 0 else ParseNat(s[..|s| - 1]) * 10 + DigitValue(s[|s| - 1])
  }

  /** Reading back the digits written by `NatToString` gives the number again. */
  lemma {:induction false} ParseNatToString(n: nat)
    ensures ParseNat(NatToString(n)) == n
  {
    var r := NatToString(n);
    if n >= 10 {
      assert r[..|r| - 1] == NatToString(n / 10);
      ParseNatToString(n / 10);
    } else {
      assert r[..0] == [];
    }
  }

  function Pow10(k: nat): (r: nat)
    ensures r >= 1
  {
    if k == 0 then 1 else 10 * Pow10(k - 1)
  }

  /** `s.slice(-k)` for `k > 0`: the last `k` characters, or all of `s`. */
  function Suffix(s: string, k: nat): (r: string)
    ensures |r| == if |s| <= k then |s| else k
    ensures r == s[|s| - |r|..]
  {
    if |s| <= k then s else s[|s| - k..]
  }

  lemma ModStep(n: nat, m: nat)
    requires m > 0
    ensures (n / 10) % m * 10 + n % 10 == n % (10 * m)
  {
    var q, d := n / 10, n % 10;
    var a, b := q / m, q % m;
    assert n == 10 * q + d;
    assert q == m * a + b;
    assert n == (10 * m) * a + (10 * b + d) by {
      calc {
        n;
        10 * q + d;
        10 * (m * a + b) + d;
        { assert 10 * (m * a) == (10 * m) * a; }
        (10 * m) * a + (10 * b + d);
      }
    }
    DivModUnique(n, 10 * m, a, 10 * b + d);
  }

  lemma DivModUnique(n: nat, k: nat, a: nat, b: nat)
    requires k > 0 && b < k && n == k * a + b
    ensures n % k == b
  {
    var q, m := n / k, n % k;
    assert k * (a - q) == m - b;
    MulTrichotomy(k, a - q);
  }

  lemma MulTrichotomy(k: int, d: int)
    requires k > 0
    ensures d == 0 || k * d >= k || k * d <= -k
  {
    if d > 0 {
      MulAtLeast(k, d);
    } else if d < 0 {
      MulAtLeast(k, -d);
      assert k * d == -(k * -d);
    }
  }

  lemma {:induction false} MulAtLeast(k: int, d: nat)
    requires k > 0 && d > 0
    ensures k * d >= k
  {
    if d > 1 {
      MulAtLeast(k, d - 1);
      assert k * d == k * (d - 1) + k;
    }
  }

  /** The last `k` digits of `String(n)` spell `n % 10^k`. */
  lemma {:induction false} NatSuffixValue(n: nat, k: nat)
    requires k <= |NatToString(n)|
    ensures ParseNat(NatToString(n)[|NatToString(n)| - k..]) == n % Pow10(k)
  {
    var r := NatToString(n);
    if k == 0 {
      assert r[|r|..] == [];
    } else if n < 10 {
      assert r[|r| - k..] == r;
      assert r[..0] == [];
    } else {
      var r' := NatToString(n / 10);
      assert r == r' + [DigitChar(n % 10)];
      var t := r[|r| - k..];
      assert t[..|t| - 1] == r'[|r'| - (k - 1)..];
      NatSuffixValue(n / 10, k - 1);
      ModStep(n, Pow10(k - 1));
    }
  }

  /** `String(n)` has just enough digits for `n`. */
  lemma {:induction false} NatBelowPow10(n: nat)
    ensures n < Pow10(|NatToString(n)|)
  {
    if n >= 10 {
      NatBelowPow10(n / 10);
    }
  }
}
