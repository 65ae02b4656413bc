/**
  The handful of Python string operations the resolution parser relies on,
  written out with the semantics Python gives them: `str.split` with a
  non-empty separator, `str.replace` with an empty replacement, `int()` on a
  plain decimal literal, `str()` of a non-negative integer and `str.lower`
  (restricted to ASCII letters).
*/
module Text {

  /** `sep` occurs in `s` at position `k`. */
  predicate OccursAt(s: string, sep: string, k: int)
  {
    0 <= k && k + |sep| <= |s| && s[k..k + |sep|] == sep
  }

  predicate Contains(s: string, sep: string)
  {
    exists k :: 0 <= k <= |s| && OccursAt(s, sep, k)
  }

  /** `s.split(sep)`: cut at every occurrence, scanning left to right, occurrences not overlapping. */
  function Split(s: string, sep: string): (parts: seq<string>)
    requires |sep| > 0
    decreases |s|
  {
    if |s| < |sep| then [s]
    else if s[..|sep|] == sep then [""] + Split(s[|sep|..], sep)
    else
      var rest := Split(s[1..], sep);
      [[s[0]] + rest[0]] + rest[1..]
  }

  /** `sep.join(parts)`, the inverse of `Split`. */
  function Join(parts: seq<string>, sep: string): string
  {
    if |parts| == 0 then ""
    else if |parts| == 1 then parts[0]
    else parts[0] + sep + Join(parts[1..], sep)
  }

  lemma {:induction false} SplitNonEmpty(s: string, sep: string)
    requires |sep| > 0
    ensures |Split(s, sep)| >= 1
    decreases |s|
  {
    if |s| < |sep| {
    } else if s[..|sep|] == sep {
    } else {
      SplitNonEmpty(s[1..], sep);
    }
  }

  /** Gluing a character onto the first piece glues it onto the joined string. */
  lemma {:induction false} JoinPrepend(c: char, parts: seq<string>, sep: string)
    requires |parts| >= 1
    ensures Join([[c] + parts[0]] + parts[1..], sep) == [c] + Join(parts, sep)
  {
    var glued := [[c] + parts[0]] + parts[1..];
    if |parts| > 1 {
      assert glued[1..] == parts[1..];
    }
  }

  /** Joining the pieces back with the separator gives the original string. */
  lemma {:induction false} SplitJoin(s: string, sep: string)
    requires |sep| > 0
    ensures Join(Split(s, sep), sep) == s
    decreases |s|
  {
    if |s| < |sep| {
    } else if s[..|sep|] == sep {
      var tail := Split(s[|sep|..], sep);
      SplitNonEmpty(s[|sep|..], sep);
      SplitJoin(s[|sep|..], sep);
      assert ([""] + tail)[1..] == tail;
      assert Join([""] + tail, sep) == "" + sep + Join(tail, sep);
      assert s == s[..|sep|] + s[|sep|..];
    } else {
      var rest := Split(s[1..], sep);
      SplitNonEmpty(s[1..], sep);
      SplitJoin(s[1..], sep);
      JoinPrepend(s[0], rest, sep);
      assert Split(s, sep) == [[s[0]] + rest[0]] + rest[1..];
      assert s == [s[0]] + s[1..];
    }
  }

  /** A string that does not contain the separator comes back as a single piece. */
  lemma {:induction false} SplitWithoutSeparator(s: string, sep: string)
    requires |sep| > 0
    requires !Contains(s, sep)
    ensures Split(s, sep) == [s]
    decreases |s|
  {
    if |s| < |sep| {
    } else {
      assert !OccursAt(s, sep, 0);
      forall k | 0 <= k <= |s[1..]| && OccursAt(s[1..], sep, k) ensures OccursAt(s, sep, k + 1) {
        assert s[k + 1..k + 1 + |sep|] == s[1..][k..k + |sep|];
      }
      SplitWithoutSeparator(s[1..], sep);
      assert s == [s[0]] + s[1..];
    }
  }

  /** Splitting `a + sep + b` cuts right after `a` when `a` holds no character starting `sep`. */
  lemma {:induction false} SplitAfterPrefix(a: string, sep: string, b: string)
    requires |sep| > 0
    requires sep[0] !in a
    ensures Split(a + sep + b, sep) == [a] + Split(b, sep)
    decreases |a|
  {
    var s := a + sep + b;
    if |a| == 0 {
      assert s == sep + b;
      assert s[..|sep|] == sep;
      assert s[|sep|..] == b;
    } else {
      assert s[0] == a[0];
      assert s[..|sep|][0] == a[0];
      assert s[1..] == a[1..] + sep + b;
      SplitAfterPrefix(a[1..], sep, b);
      assert [s[0]] + a[1..] == a;
    }
  }

  /** A string free of the separator's first character comes back whole. */
  lemma {:induction false} SplitFreeOfFirst(a: string, sep: string)
    requires |sep| > 0
    requires sep[0] !in a
    ensures Split(a, sep) == [a]
  {
    forall k | 0 <= k <= |a| ensures !OccursAt(a, sep, k) {
      if k + |sep| <= |a| {
        assert a[k..k + |sep|][0] == a[k];
      }
    }
    SplitWithoutSeparator(a, sep);
  }
  /**
    The first piece of `a + sep + b` is `a` when no occurrence of a
    two-character separator can start inside `a`: its second character is
    not in `a` and differs from its first.
  */
  lemma {:induction false} SplitFirstPiece(a: string, sep: string, b: string)
    requires |sep| >= 2 && sep[0] != sep[1] && sep[1] !in a
    ensures Split(a + sep + b, sep)[0] == a
    decreases |a|
  {
    var s := a + sep + b;
    SplitNonEmpty(s, sep);
    if |a| == 0 {
      assert s[..|sep|] == sep;
    } else {
      var second := if |a| >= 2 then a[1] else sep[0];
      assert s[1] == second != sep[1];
      assert s[..|sep|][1] != sep[1];
      assert s[1..] == a[1..] + sep + b;
      SplitFirstPiece(a[1..], sep, b);
      SplitNonEmpty(s[1..], sep);
      assert [s[0]] + a[1..] == a;
    }
  }


  /** `s.replace(pat, "")`: drop every occurrence of `pat`, scanning left to right. */
  function RemoveAll(s: string, pat: string): (r: string)
    requires |pat| > 0
    decreases |s|
  {
    if |s| < |pat| then s
    else if s[..|pat|] == pat then RemoveAll(s[|pat|..], pat)
    else [s[0]] + RemoveAll(s[1..], pat)
  }

  /** Removing a trailing occurrence after text free of the pattern's first character leaves that text. */
  lemma {:induction false} RemoveAllSuffix(a: string, pat: string)
    requires |pat| > 0
    requires pat[0] !in a
    ensures RemoveAll(a + pat, pat) == a
    decreases |a|
  {
    var s := a + pat;
    if |a| == 0 {
      assert s == pat;
      assert s[|pat|..] == [];
    } else {
      assert s[..|pat|][0] == a[0];
      assert s[1..] == a[1..] + pat;
      RemoveAllSuffix(a[1..], pat);
      assert [a[0]] + a[1..] == a;
    }
  }

  predicate IsDigit(c: char)
  {
    '0' <= c <= '9'
  }

  /** What `int()` accepts in this model: a non-empty run of ASCII decimal digits. */
  predicate IsDecimal(s: string)
  {
    |s| > 0 && forall i :: 0 <= i < |s| ==> IsDigit(s[i])
  }

  /** The value of a string of decimal digits (leading zeros allowed, as `int()` allows them). */
  function DecimalValue(s: string): nat
    requires forall i :: 0 <= i < |s| ==> IsDigit(s[i])
    decreases |s|
  {
    if |s| == 0 then 0
    else
      assert IsDigit(s[|s| - 1]);
      DecimalValue(s[..|s| - 1]) * 10 + (s[|s| - 1] as int - '0' as int)
  }

  function DigitChar(d: nat): (c: char)
    requires d < 10
    ensures IsDigit(c) && c as int - '0' as int == d
  {
    ('0' as int + d) as char
  }

  /** `str(n)` for a non-negative integer: its decimal digits without leading zeros. */
  function NatToDecimal(n: nat): (s: string)
    ensures IsDecimal(s)
    ensures |s| > 1 ==> s[0] != '0'
    decreases n
  {
    if n < 10 then [DigitChar(n)]
    else NatToDecimal(n / 10) + [DigitChar(n % 10)]
  }

  /** Reading back the digits `str` writes gives the number. */
  lemma {:induction false} DecimalRoundTrip(n: nat)
    ensures DecimalValue(NatToDecimal(n)) == n
    decreases n
  {
    var s := NatToDecimal(n);
    if n < 10 {
    } else {
      DecimalRoundTrip(n / 10);
      assert s[..|s| - 1] == NatToDecimal(n / 10);
    }
  }

  function LowerChar(c: char): (l: char)
  {
    if 'A' <= c <= 'Z' then (c as int - 'A' as int + 'a' as int) as char else c
  }

  /** `s.lower()` on ASCII letters; every other character is kept. */
  function Lower(s: string): (r: string)
    ensures |r| == |s|
    ensures forall i :: 0 <= i < |s| ==> r[i] == LowerChar(s[i])
  {
    seq(|s|, i requires 0 <= i < |s| => LowerChar(s[i]))
  }

  /** The same letter in two cases, or the same character. */
  predicate CaseVariants(a: char, b: char)
  {
    a == b
    || ('A' <= a <= 'Z' && b as int == a as int + 32)
    || ('A' <= b <= 'Z' && a as int == b as int + 32)
  }

  /**
    Lower-casing identifies two strings exactly when they have the same
    length and differ at most in the case of ASCII letters.
  */
  lemma LowerEqualIffCaseVariants(s: string, t: string)
    ensures Lower(s) == Lower(t) <==> |s| == |t| && forall i :: 0 <= i < |s| ==> CaseVariants(s[i], t[i])
  {
    if Lower(s) == Lower(t) {
      forall i | 0 <= i < |s| ensures CaseVariants(s[i], t[i]) {
        assert Lower(s)[i] == Lower(t)[i];
      }
    }
    if |s| == |t| && forall i :: 0 <= i < |s| ==> CaseVariants(s[i], t[i]) {
      forall i | 0 <= i < |s| ensures Lower(s)[i] == Lower(t)[i] {
        assert CaseVariants(s[i], t[i]);
      }
    }
  }
}
