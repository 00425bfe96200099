/** The parts of Go's `strings`, `unicode` and `fmt` packages that the engine
    relies on: substring search, splitting on the document separator, space
    trimming, lower-casing, string ordering and `%d` formatting. Strings are
    sequences of Unicode scalar values; comparing them by code point orders
    them exactly as Go orders their UTF-8 bytes. */
module Text {

  import opened Values
  import opened Seqs

  // ---------------------------------------------------------------------
  // strings.Contains

  /** `sub` occurs in `s` starting at index `i`. */
  predicate OccursAt(s: string, sub: string, i: nat)
  {
    i + |sub| <= |s| && s[i..i + |sub|] == sub
  }

  /** strings.Contains(s, sub) */
  predicate Contains(s: string, sub: string)
  {
    exists i :: 0 <= i <= |s| && OccursAt(s, sub, i)
  }

  /** A string lacking one of the characters of `sub` does not contain it. */
  lemma LacksCharNotContains(s: string, sub: string, k: nat)
    requires k < |sub|
    requires forall i :: 0 <= i < |s| ==> s[i] != sub[k]
    ensures !Contains(s, sub)
  {
    forall i | 0 <= i <= |s|
      ensures !OccursAt(s, sub, i)
    {
      if i + |sub| <= |s| {
        assert s[i..i + |sub|][k] == s[i + k];
      }
    }
  }

  // ---------------------------------------------------------------------
  // strings.Split(s, "---") and its inverse strings.Join(parts, "---")

  const Separator: string := "---"

  /** strings.Split(s, Separator): the pieces between the non-overlapping
      occurrences of the separator found scanning left to right. */
  function Split(s: string): (parts: seq<string>)
    ensures |parts| >= 1
    ensures !Contains(s, Separator) ==> parts == [s]
    decreases |s|
  {
    if |s| < |Separator| then [s]
    else if s[..|Separator|] == Separator then
      assert OccursAt(s, Separator, 0);
      [""] + Split(s[|Separator|..])
    else
      var rest := Split(s[1..]);
      assert forall i :: 0 <= i <= |s[1..]| && OccursAt(s[1..], Separator, i) ==> OccursAt(s, Separator, i + 1);
      assert [s[0]] + s[1..] == s;
      [[s[0]] + rest[0]] + rest[1..]
  }

  /** The first piece of a split is a prefix of the string. */
  lemma {:induction false} SplitHeadPrefix(s: string)
    ensures Split(s)[0] <= s
    decreases |s|
  {
    if |s| >= |Separator| && s[..|Separator|] != Separator {
      SplitHeadPrefix(s[1..]);
      assert s == [s[0]] + s[1..];
    }
  }

  /** strings.Join(parts, Separator) */
  function Join(parts: seq<string>): string
    requires |parts| >= 1
  {
    if |parts| == 1 then parts[0] else parts[0] + Separator + Join(parts[1..])
  }

  /** Prepending a character that does not start a separator to a string
      free of separators keeps it free of separators. */
  lemma ConsNoSeparator(c: char, p: string, s: string)
    requires p <= s
    requires !Contains(p, Separator)
    requires |[c] + s| >= |Separator| && ([c] + s)[..|Separator|] != Separator
    ensures !Contains([c] + p, Separator)
  {
    var q := [c] + p;
    forall i | 1 <= i <= |q|
      ensures OccursAt(q, Separator, i) == OccursAt(p, Separator, i - 1)
    {
      if i + 3 <= |q| {
        assert q[i..i + 3] == p[i - 1..i + 2];
      }
    }
  }

  lemma TailOfCons(x: string, parts: seq<string>)
    requires |parts| >= 1
    ensures ([x] + parts[1..])[1..] == parts[1..]
  {
  }

  /** Joining after extending the first piece by one character extends the
      joined string by that character. */
  lemma JoinConsHead(c: char, parts: seq<string>)
    requires |parts| >= 1
    ensures Join([[c] + parts[0]] + parts[1..]) == [c] + Join(parts)
  {
    if |parts| > 1 {
      TailOfCons([c] + parts[0], parts);
      AppendAssoc([c], parts[0], Separator);
      AppendAssoc([c], parts[0] + Separator, Join(parts[1..]));
    }
  }

  /** Splitting is undone by joining. */
  lemma {:induction false} SplitJoin(s: string)
    ensures Join(Split(s)) == s
    decreases |s|
  {
    if |s| < |Separator| {
    } else if s[..|Separator|] == Separator {
      SplitJoin(s[|Separator|..]);
      var rest := Split(s[|Separator|..]);
      assert Split(s) == [""] + rest;
      assert ([""] + rest)[1..] == rest;
      assert s == "" + Separator + s[|Separator|..];
    } else {
      SplitJoin(s[1..]);
      JoinConsHead(s[0], Split(s[1..]));
      assert [s[0]] + s[1..] == s;
    }
  }

  /** No piece of a split contains the separator. */
  lemma {:induction false} SplitPiecesFree(s: string)
    ensures forall k :: 0 <= k < |Split(s)| ==> !Contains(Split(s)[k], Separator)
    decreases |s|
  {
    var parts := Split(s);
    if |s| < |Separator| {
      forall i | 0 <= i <= |s| ensures !OccursAt(s, Separator, i) { }
    } else if s[..|Separator|] == Separator {
      SplitPiecesFree(s[|Separator|..]);
      assert !OccursAt("", Separator, 0);
    } else {
      var rest := Split(s[1..]);
      SplitPiecesFree(s[1..]);
      SplitHeadPrefix(s[1..]);
      ConsNoSeparator(s[0], rest[0], s[1..]);
      assert [s[0]] + s[1..] == s;
      forall k | 0 <= k < |parts|
        ensures !Contains(parts[k], Separator)
      {
        if k > 0 { assert parts[k] == rest[k]; }
      }
    }
  }

  // ---------------------------------------------------------------------
  // strings.TrimSpace

  /** unicode.IsSpace: the ASCII spaces, NEL, NBSP and the Unicode space
      separators. */
  const SpaceChars: set<char> := {
    '\t', '\n', '\U{B}', '\U{C}', '\r', ' ', '\U{85}', '\U{A0}', '\U{1680}',
    '\U{2000}', '\U{2001}', '\U{2002}', '\U{2003}', '\U{2004}', '\U{2005}',
    '\U{2006}', '\U{2007}', '\U{2008}', '\U{2009}', '\U{200A}',
    '\U{2028}', '\U{2029}', '\U{202F}', '\U{205F}', '\U{3000}' }

  predicate IsSpace(c: char)
  {
    c in SpaceChars
  }

  predicate AllSpace(s: string)
  {
    forall i :: 0 <= i < |s| ==> IsSpace(s[i])
  }

  /** The index of the first non-space at or after `k`, or |s|. */
  function SpaceRunEnd(s: string, k: nat): (r: nat)
    requires k <= |s|
    ensures k <= r <= |s|
    ensures forall i :: k <= i < r ==> IsSpace(s[i])
    ensures r == |s| || !IsSpace(s[r])
    decreases |s| - k
  {
    if k < |s| && IsSpace(s[k]) then SpaceRunEnd(s, k + 1) else k
  }

  /** Going down from `k` but not below `lo`, the index just past the last
      non-space, or `lo`. */
  function SpaceRunStart(s: string, lo: nat, k: nat): (r: nat)
    requires lo <= k <= |s|
    ensures lo <= r <= k
    ensures forall i :: r <= i < k ==> IsSpace(s[i])
    ensures r == lo || !IsSpace(s[r - 1])
    decreases k
  {
    if k > lo && IsSpace(s[k - 1]) then SpaceRunStart(s, lo, k - 1) else k
  }

  /** strings.TrimSpace: the text between the first and the last non-space,
      found by scanning in from the start and then back from the end. */
  function TrimSpace(s: string): (t: string)
    ensures |t| <= |s|
    ensures t == [] || (!IsSpace(t[0]) && !IsSpace(t[|t| - 1]))
    ensures AllSpace(s) <==> t == []
  {
    var start := SpaceRunEnd(s, 0);
    s[start..SpaceRunStart(s, start, |s|)]
  }

  /** TrimSpace leaves the substring of `s` that remains once its leading and
      trailing spaces are removed. */
  lemma TrimSpaceShape(s: string)
    ensures exists i ::
              0 <= i <= |s| && OccursAt(s, TrimSpace(s), i) && AllSpace(s[..i]) && AllSpace(s[i + |TrimSpace(s)|..])
  {
    var start := SpaceRunEnd(s, 0);
    var stop := SpaceRunStart(s, start, |s|);
    assert OccursAt(s, TrimSpace(s), start);
    assert AllSpace(s[..start]);
    assert AllSpace(s[stop..]);
  }

  /** Trimming an already trimmed string changes nothing. */
  lemma TrimSpaceIdempotent(s: string)
    ensures TrimSpace(TrimSpace(s)) == TrimSpace(s)
  {
    var t := TrimSpace(s);
    TrimSpaceShape(s);
    assert SpaceRunEnd(t, 0) == 0;
    assert SpaceRunStart(t, 0, |t|) == |t|;
  }

  /** A substring of a string free of separators is free of them too. */
  lemma SubstringNoSeparator(s: string, t: string, i: nat)
    requires OccursAt(s, t, i)
    requires !Contains(s, Separator)
    ensures !Contains(t, Separator)
  {
    if Contains(t, Separator) {
      var j :| 0 <= j <= |t| && OccursAt(t, Separator, j);
      assert |Separator| == 3;
      forall m | 0 <= m < 3 ensures s[i + j + m] == Separator[m] {
        assert t[j + m] == s[i + j + m];
      }
      assert OccursAt(s, Separator, i + j);
    }
  }

  // ---------------------------------------------------------------------
  // strings.ToLower

  /** unicode.ToLower restricted to what decides whether an ASCII word occurs
      in the result: ASCII capitals, U+0130 (lower-cased to 'i') and the
      Kelvin sign U+212A (lower-cased to 'k') are mapped; every other
      character is kept, since Go lower-cases it to a non-ASCII character. */
  function LowerChar(c: char): char
  {
    if 'A' <= c <= 'Z' then (c as int + 32) as char
    else if c == '\U{130}' then 'i'
    else if c == '\U{212A}' then 'k'
    else c
  }

  /** strings.ToLower, character by character. */
  function ToLower(s: string): (t: string)
    ensures |t| == |s|
    ensures forall i :: 0 <= i < |t| ==> !('A' <= t[i] <= 'Z')
    ensures forall i :: 0 <= i < |s| && !('A' <= s[i] <= 'Z') && s[i] != '\U{130}' && s[i] != '\U{212A}' ==> t[i] == s[i]
    ensures forall i :: 0 <= i < |s| && 'A' <= s[i] <= 'Z' ==> t[i] as int == s[i] as int + 32
    ensures forall i :: 0 <= i < |s| && s[i] == '\U{130}' ==> t[i] == 'i'
    ensures forall i :: 0 <= i < |s| && s[i] == '\U{212A}' ==> t[i] == 'k'
  {
    seq(|s|, i requires 0 <= i < |s| => LowerChar(s[i]))
  }

  /** Lower-casing twice is lower-casing once. */
  lemma ToLowerIdempotent(s: string)
    ensures ToLower(ToLower(s)) == ToLower(s)
  {
    var t := ToLower(s);
    forall i | 0 <= i < |t| ensures ToLower(t)[i] == t[i] {
      assert LowerChar(t[i]) == t[i];
    }
  }

  // ---------------------------------------------------------------------
  // Go's `<` on strings

  /** Lexicographic order by character code. */
  predicate Less(a: string, b: string)
  {
    if |a| == 0 then |b| > 0
    else if |b| == 0 then false
    else if a[0] != b[0] then a[0] < b[0]
    else Less(a[1..], b[1..])
  }

  lemma {:induction false} LessIrreflexive(a: string)
    ensures !Less(a, a)
  {
    if |a| > 0 { LessIrreflexive(a[1..]); }
  }

  lemma {:induction false} LessTransitive(a: string, b: string, c: string)
    requires Less(a, b) && Less(b, c)
    ensures Less(a, c)
  {
    if |a| > 0 && |b| > 0 && |c| > 0 && a[0] == b[0] == c[0] {
      LessTransitive(a[1..], b[1..], c[1..]);
    }
  }

  lemma {:induction false} LessTotal(a: string, b: string)
    ensures a == b || Less(a, b) || Less(b, a)
  {
    if |a| > 0 && |b| > 0 && a[0] == b[0] {
      LessTotal(a[1..], b[1..]);
      if a[1..] == b[1..] {
        assert a == [a[0]] + a[1..] && b == [b[0]] + b[1..];
      }
    }
  }

  /** `a` is a proper prefix of `b`. */
  predicate ProperPrefix(a: string, b: string)
  {
    |a| < |b| && a == b[..|a|]
  }

  /** At the first index where `a` and `b` differ, `a` has the smaller
      character. */
  predicate SmallerAtFirstDifference(a: string, b: string)
  {
    exists i :: 0 <= i < |a| && i < |b| && a[..i] == b[..i] && a[i] < b[i]
  }

  lemma ProperPrefixShift(a: string, b: string)
    requires |a| > 0 && |b| > 0 && a[0] == b[0]
    ensures ProperPrefix(a, b) <==> ProperPrefix(a[1..], b[1..])
  {
    if ProperPrefix(a, b) {
      assert a[1..] == b[1..][..|a| - 1];
    }
    if ProperPrefix(a[1..], b[1..]) {
      assert a == [a[0]] + a[1..] && b[..|a|] == [b[0]] + b[1..][..|a| - 1];
    }
  }

  lemma SmallerShift(a: string, b: string)
    requires |a| > 0 && |b| > 0 && a[0] == b[0]
    ensures SmallerAtFirstDifference(a, b) <==> SmallerAtFirstDifference(a[1..], b[1..])
  {
    if SmallerAtFirstDifference(a, b) {
      var i :| 0 <= i < |a| && i < |b| && a[..i] == b[..i] && a[i] < b[i];
      assert i > 0;
      assert a[1..][..i - 1] == a[..i][1..] && b[1..][..i - 1] == b[..i][1..];
      assert a[1..][i - 1] < b[1..][i - 1];
    }
    if SmallerAtFirstDifference(a[1..], b[1..]) {
      var i :| 0 <= i < |a[1..]| && i < |b[1..]| && a[1..][..i] == b[1..][..i] && a[1..][i] < b[1..][i];
      assert a[..i + 1] == [a[0]] + a[1..][..i] && b[..i + 1] == [b[0]] + b[1..][..i];
      assert a[i + 1] < b[i + 1];
    }
  }

  /** Go compares strings at their first difference: `a < b` exactly when
      `a` is a proper prefix of `b`, or at the first index where they differ
      `a` has the smaller character. */
  lemma {:induction false} LessFirstDifference(a: string, b: string)
    ensures Less(a, b) <==> ProperPrefix(a, b) || SmallerAtFirstDifference(a, b)
  {
    if |a| > 0 && |b| > 0 {
      if a[0] == b[0] {
        LessFirstDifference(a[1..], b[1..]);
        ProperPrefixShift(a, b);
        SmallerShift(a, b);
      } else {
        assert a[..0] == b[..0];
      }
    }
  }

  lemma {:induction false} LessAsymmetric(a: string, b: string)
    requires Less(a, b)
    ensures !Less(b, a)
  {
    if |a| > 0 && |b| > 0 && a[0] == b[0] {
      LessAsymmetric(a[1..], b[1..]);
    }
  }

  // ---------------------------------------------------------------------
  // fmt's %d

  predicate IsDigit(c: char)
  {
    '0' <= c <= '9'
  }

  function DigitChar(d: nat): (c: char)
    requires d < 10
    ensures IsDigit(c) && c as int - '0' as int == d
  {
    ('0' as int + d) as char
  }

  /** The decimal digits of `n`, most significant first, without leading zeros. */
  function NatText(n: nat): (s: string)
    ensures |s| >= 1
    ensures forall i :: 0 <= i < |s| ==> IsDigit(s[i])
    ensures s[0] == '0' ==> n == 0 && |s| == 1
  {
    if n < 10 then [DigitChar(n)] else NatText(n / 10) + [DigitChar(n % 10)]
  }

  /** fmt.Sprintf("%d", n) */
  function IntText(n: int): (s: string)
    ensures |s| >= 1
    ensures forall i :: 0 <= i < |s| ==> IsDigit(s[i]) || s[i] == '-'
    ensures s[0] == '-' <==> n < 0
    ensures forall i :: 1 <= i < |s| ==> IsDigit(s[i])
    ensures n >= 0 ==> CanonicalDigits(s)
    ensures n < 0 ==> CanonicalDigits(s[1..]) && s[1] != '0'
  {
    if n < 0 then
      var t := NatText(-n);
      assert ("-" + t)[1..] == t;
      "-" + t
    else NatText(n)
  }

  /** The number a string of decimal digits denotes. */
  function DigitsValue(s: string): nat
    requires forall i :: 0 <= i < |s| ==> IsDigit(s[i])
  {
    if s == [] then 0
    else
      assert IsDigit(s[|s| - 1]);
      DigitsValue(s[..|s| - 1]) * 10 + (s[|s| - 1] as int - '0' as int)
  }

  /** Reading back the digits `%d` writes gives the number again. */
  lemma {:induction false} NatTextRoundTrip(n: nat)
    ensures DigitsValue(NatText(n)) == n
  {
    if n >= 10 {
      NatTextRoundTrip(n / 10);
      var s := NatText(n);
      assert s[..|s| - 1] == NatText(n / 10);
    }
  }

  /** Digits as `%d` writes them: at least one, and no leading zero unless the
      number is zero. */
  predicate CanonicalDigits(s: string)
  {
    && |s| > 0
    && (forall i :: 0 <= i < |s| ==> IsDigit(s[i]))
    && (s[0] == '0' ==> |s| == 1)
  }

  /** Reads back exactly the texts `%d` writes, sign included: no leading
      zeros, no "-0". */
  function ParseInt(s: string): (r: Option<int>)
  {
    if |s| > 1 && s[0] == '-' && CanonicalDigits(s[1..]) && s[1] != '0' then
      Some(0 - DigitsValue(s[1..]) as int)
    else if CanonicalDigits(s) then
      Some(DigitsValue(s))
    else None
  }

  lemma IntTextRoundTrip(n: int)
    ensures ParseInt(IntText(n)) == Some(n)
  {
    var t := IntText(n);
    if n < 0 {
      NatTextRoundTrip(-n);
      assert t[1..] == NatText(-n);
      assert CanonicalDigits(t[1..]);
      assert t[1] == NatText(-n)[0];
      assert ParseInt(t) == Some(0 - DigitsValue(t[1..]) as int);
    } else {
      NatTextRoundTrip(n);
      assert CanonicalDigits(t);
      assert ParseInt(t) == Some(DigitsValue(t));
    }
  }

  /** Digits that do not start with '0' denote a positive number. */
  lemma {:induction false} DigitsValuePositive(s: string)
    requires CanonicalDigits(s) && s[0] != '0'
    ensures DigitsValue(s) >= 1
  {
    if |s| > 1 {
      DigitsValuePositive(s[..|s| - 1]);
    }
  }

  /** Appending digit `d` to the decimal number `q`. */
  lemma LastDigit(q: nat, d: int)
    requires 0 <= d < 10
    ensures (q * 10 + d) / 10 == q && (q * 10 + d) % 10 == d
  {
  }

  /** Canonical digits are what `%d` writes for the number they denote. */
  lemma {:induction false} NatTextOfDigits(s: string)
    requires CanonicalDigits(s)
    ensures NatText(DigitsValue(s)) == s
  {
    if |s| > 1 {
      var init := s[..|s| - 1];
      var last := s[|s| - 1];
      assert IsDigit(last);
      assert CanonicalDigits(init) && init[0] != '0';
      DigitsValuePositive(init);
      NatTextOfDigits(init);
      var d := last as int - '0' as int;
      assert DigitsValue(s) == DigitsValue(init) * 10 + d;
      LastDigit(DigitsValue(init), d);
      assert DigitChar(d) == last;
      assert s == init + [last];
    }
  }

  /** The only text that reads back as `n` is the one `%d` writes for it. */
  lemma ParseIntExact(s: string, n: int)
    requires ParseInt(s) == Some(n)
    ensures s == IntText(n)
  {
    if |s| > 1 && s[0] == '-' && CanonicalDigits(s[1..]) && s[1] != '0' {
      NatTextOfDigits(s[1..]);
      DigitsValuePositive(s[1..]);
      assert s == "-" + s[1..];
    } else {
      NatTextOfDigits(s);
    }
  }
}
