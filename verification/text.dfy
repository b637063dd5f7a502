/** Text operations the collector relies on: literal search and replace (the way
    Python's `re.sub` behaves on a pattern without metacharacters), pieces of text
    laid end to end, ASCII lower-casing and decimal rendering of integers. */
module Text {
  import opened Wrappers

  /* ---------------------------------------------------------------------------
     Occurrences
     ------------------------------------------------------------------------- */

  /** `pat` occurs in `s` starting at index `i`. */
  predicate OccursAt(s: string, pat: string, i: int)
  {
    0 <= i && i + |pat| <= |s| && s[i..i + |pat|] == pat
  }

  /** `pat` occurs nowhere in `s`. */
  predicate Free(s: string, pat: string)
  {
    forall i | 0 <= i <= |s| - |pat| :: !OccursAt(s, pat, i)
  }

  /** No occurrence of `pat` in `a + b` can straddle the seam between `a` and `b`:
      one of the two characters that meet there is not a character of `pat`. */
  predicate Seam(a: string, b: string, pat: string)
  {
    (|a| > 0 && a[|a| - 1] !in pat) || (|b| > 0 && b[0] !in pat)
  }

  /** A pattern cannot occur in a text lacking one of its characters. */
  lemma FreeMissing(s: string, pat: string, c: char)
    requires c in pat && c !in s
    ensures Free(s, pat)
  {
    var k :| 0 <= k < |pat| && pat[k] == c;
    forall i | 0 <= i <= |s| - |pat|
      ensures !OccursAt(s, pat, i)
    {
      assert i + k < |s|;
    }
  }

  /** Dropping the first character keeps a text free of `pat`. */
  lemma FreeTail(s: string, pat: string)
    requires |s| > 0 && Free(s, pat)
    ensures Free(s[1..], pat)
  {
    forall i | 0 <= i <= |s[1..]| - |pat|
      ensures !OccursAt(s[1..], pat, i)
    {
      if OccursAt(s[1..], pat, i) {
        assert s[1..][i..i + |pat|] == s[i + 1..i + 1 + |pat|];
        assert OccursAt(s, pat, i + 1);
      }
    }
  }

  /** At a seam `pat` cannot straddle, no occurrence of `pat` covers both sides. */
  lemma NoStraddle(a: string, b: string, pat: string, i: int)
    requires Seam(a, b, pat) && 0 <= i < |a| < i + |pat|
    ensures !OccursAt(a + b, pat, i)
  {
    StraddleChars(a, b, pat, i);
  }

  /** An occurrence covering the seam between `a` and `b` has both characters
      that meet there among its own. */
  lemma StraddleChars(a: string, b: string, pat: string, i: int)
    requires 0 <= i < |a| < i + |pat|
    ensures OccursAt(a + b, pat, i) ==> |b| > 0 && a[|a| - 1] in pat && b[0] in pat
  {
    var s := a + b;
    if OccursAt(s, pat, i) {
      assert a[|a| - 1] == s[i..i + |pat|][|a| - 1 - i];
      assert b[0] == s[i..i + |pat|][|a| - i];
    }
  }

  /** Two texts free of `pat`, joined at a seam `pat` cannot straddle, are free of it. */
  lemma FreeAppend(a: string, b: string, pat: string)
    requires Free(a, pat) && Free(b, pat) && Seam(a, b, pat)
    ensures Free(a + b, pat)
  {
    var s := a + b;
    forall i | 0 <= i <= |s| - |pat|
      ensures !OccursAt(s, pat, i)
    {
      if OccursAt(s, pat, i) {
        if i + |pat| <= |a| {
          assert s[i..i + |pat|] == a[i..i + |pat|];
          assert OccursAt(a, pat, i);
        } else if i >= |a| {
          assert s[i..i + |pat|] == b[i - |a|..i - |a| + |pat|];
          assert OccursAt(b, pat, i - |a|);
        } else {
          NoStraddle(a, b, pat, i);
        }
      }
    }
  }

  /** Putting a character that cannot start `pat` in front keeps a text free of `pat`. */
  lemma FreeCons(c: char, s: string, pat: string)
    requires |pat| > 0 && c != pat[0] && Free(s, pat)
    ensures Free([c] + s, pat)
  {
    var t := [c] + s;
    forall i | 0 <= i <= |t| - |pat|
      ensures !OccursAt(t, pat, i)
    {
      if OccursAt(t, pat, i) {
        if i > 0 {
          assert t[i..i + |pat|] == s[i - 1..i - 1 + |pat|];
          assert OccursAt(s, pat, i - 1);
        }
      }
    }
  }

  /* ---------------------------------------------------------------------------
     Replace-all
     ------------------------------------------------------------------------- */

  /** `re.sub(pat, rep, s)` for a pattern with no regular-expression metacharacters
      and a replacement with no backslash: scanning from the left, every
      occurrence of `pat` that does not overlap an earlier replaced one becomes
      `rep`, and the inserted text is not scanned again. */
  function ReplaceAll(s: string, pat: string, rep: string): string
    requires |pat| > 0
    decreases |s|
  {
    if |s| < |pat| then s
    else if s[..|pat|] == pat then rep + ReplaceAll(s[|pat|..], pat, rep)
    else [s[0]] + ReplaceAll(s[1..], pat, rep)
  }

  /** A text in which `pat` does not occur comes back unchanged. */
  lemma {:induction false} ReplaceAllFree(s: string, pat: string, rep: string)
    requires |pat| > 0 && Free(s, pat)
    ensures ReplaceAll(s, pat, rep) == s
    decreases |s|
  {
    if |s| >= |pat| {
      assert !OccursAt(s, pat, 0);
      FreeTail(s, pat);
      ReplaceAllFree(s[1..], pat, rep);
      assert s == [s[0]] + s[1..];
    }
  }

  /** Replacing a pattern by itself changes nothing, whatever the text. */
  lemma {:induction false} ReplaceAllSame(s: string, pat: string)
    requires |pat| > 0
    ensures ReplaceAll(s, pat, pat) == s
    decreases |s|
  {
    if |s| >= |pat| {
      if s[..|pat|] == pat {
        ReplaceAllSame(s[|pat|..], pat);
        assert s == s[..|pat|] + s[|pat|..];
      } else {
        ReplaceAllSame(s[1..], pat);
        assert s == [s[0]] + s[1..];
      }
    }
  }

  /** The pattern itself is replaced by the replacement. */
  lemma ReplaceAllWhole(pat: string, rep: string)
    requires |pat| > 0
    ensures ReplaceAll(pat, pat, rep) == rep
  {
    assert pat[..|pat|] == pat;
    assert pat[|pat|..] == "";
  }

  /** Replacing in two texts joined at a seam the pattern cannot straddle is
      replacing in each of them. */
  lemma {:induction false} ReplaceAllSplit(a: string, b: string, pat: string, rep: string)
    requires |pat| > 0 && Seam(a, b, pat)
    ensures ReplaceAll(a + b, pat, rep) == ReplaceAll(a, pat, rep) + ReplaceAll(b, pat, rep)
    decreases |a|, 1
  {
    var s := a + b;
    if |a| == 0 {
      assert s == b;
    } else if |s| < |pat| {
      assert ReplaceAll(a, pat, rep) == a;
      assert ReplaceAll(b, pat, rep) == b;
    } else if s[..|pat|] == pat {
      SplitAtMatch(a, b, pat, rep);
    } else {
      SplitAtMiss(a, b, pat, rep);
    }
  }

  /** `ReplaceAllSplit` when `a + b` starts with the pattern: the match lies inside `a`. */
  lemma {:induction false} SplitAtMatch(a: string, b: string, pat: string, rep: string)
    requires |pat| > 0 && Seam(a, b, pat) && |a| > 0
    requires |a + b| >= |pat| && (a + b)[..|pat|] == pat
    ensures ReplaceAll(a + b, pat, rep) == ReplaceAll(a, pat, rep) + ReplaceAll(b, pat, rep)
    decreases |a|, 0
  {
    var s := a + b;
    var n := |pat|;
    if n > |a| {
      NoStraddle(a, b, pat, 0);
    }
    assert a[..n] == s[..n];
    var a' := a[n..];
    assert s[n..] == a' + b;
    if |a'| == 0 {
      assert s[n..] == b;
    } else {
      assert a'[|a'| - 1] == a[|a| - 1];
      ReplaceAllSplit(a', b, pat, rep);
    }
  }

  /** `ReplaceAllSplit` when `a + b` does not start with the pattern. */
  lemma {:induction false} SplitAtMiss(a: string, b: string, pat: string, rep: string)
    requires |pat| > 0 && Seam(a, b, pat) && |a| > 0
    requires |a + b| >= |pat| && (a + b)[..|pat|] != pat
    ensures ReplaceAll(a + b, pat, rep) == ReplaceAll(a, pat, rep) + ReplaceAll(b, pat, rep)
    decreases |a|, 0
  {
    var s := a + b;
    var n := |pat|;
    var a' := a[1..];
    assert s[1..] == a' + b;
    if |a| >= n {
      assert a[..n] == s[..n];
    }
    if |a'| == 0 {
      assert s[1..] == b;
      if |a| < n {
        assert a == [a[0]];
      }
    } else {
      assert a'[|a'| - 1] == a[|a| - 1];
      ReplaceAllSplit(a', b, pat, rep);
      if |a| < n {
        assert ReplaceAll(a', pat, rep) == a';
        assert a == [a[0]] + a';
      }
    }
  }

  /* ---------------------------------------------------------------------------
     Texts made of pieces
     ------------------------------------------------------------------------- */

  /** The pieces laid end to end. */
  function Concat(ps: seq<string>): string
  {
    if |ps| == 0 then "" else Concat(ps[..|ps| - 1]) + ps[|ps| - 1]
  }

  lemma {:induction false} ConcatAppend(xs: seq<string>, ys: seq<string>)
    ensures Concat(xs + ys) == Concat(xs) + Concat(ys)
    decreases |ys|
  {
    if |ys| > 0 {
      var zs := xs + ys;
      assert zs[..|zs| - 1] == xs + ys[..|ys| - 1];
      ConcatAppend(xs, ys[..|ys| - 1]);
    } else {
      assert xs + ys == xs;
    }
  }

  lemma ConcatCons(p: string, ps: seq<string>)
    ensures Concat([p] + ps) == p + Concat(ps)
  {
    ConcatAppend([p], ps);
    assert [p][..0] == [];
  }

  /** Two adjacent pieces may be merged into one. */
  lemma ConcatMerge(xs: seq<string>, p: string, q: string, ys: seq<string>)
    ensures Concat(xs + [p, q] + ys) == Concat(xs + [p + q] + ys)
  {
    ConcatAppend(xs + [p, q], ys);
    ConcatAppend(xs + [p + q], ys);
    ConcatAppend(xs, [p, q]);
    ConcatAppend(xs, [p + q]);
    assert [p, q][..1] == [p];
    assert [p + q][..0] == [];
    assert [p][..0] == [];
  }

  /** A character found in no piece is not in their concatenation. */
  lemma {:induction false} LacksConcat(ps: seq<string>, c: char)
    requires forall k | 0 <= k < |ps| :: c !in ps[k]
    ensures c !in Concat(ps)
    decreases |ps|
  {
    if |ps| > 0 {
      LacksConcat(ps[..|ps| - 1], c);
    }
  }

  /** Every seam between consecutive pieces is one that `pat` cannot straddle. */
  predicate Joinable(ps: seq<string>, pat: string)
  {
    forall k | 0 < k < |ps| :: Seam(ps[k - 1], ps[k], pat)
  }

  lemma JoinablePrefix(ps: seq<string>, pat: string, n: nat)
    requires Joinable(ps, pat) && n <= |ps|
    ensures Joinable(ps[..n], pat)
  {
  }

  /** The seam after the last piece carries over to the concatenation. */
  lemma SeamConcat(ps: seq<string>, b: string, pat: string)
    requires |ps| > 0 && Seam(ps[|ps| - 1], b, pat)
    ensures Seam(Concat(ps), b, pat)
  {
    var last := ps[|ps| - 1];
    if |last| > 0 && last[|last| - 1] !in pat {
      var s := Concat(ps);
      assert s == Concat(ps[..|ps| - 1]) + last;
      assert s[|s| - 1] == last[|last| - 1];
    }
  }

  /** Pieces free of `pat`, joined at seams it cannot straddle, make a text free of it. */
  lemma {:induction false} FreeConcat(ps: seq<string>, pat: string)
    requires |pat| > 0
    requires forall k | 0 <= k < |ps| :: Free(ps[k], pat)
    requires Joinable(ps, pat)
    ensures Free(Concat(ps), pat)
    decreases |ps|
  {
    if |ps| == 0 {
    } else if |ps| == 1 {
      assert Concat(ps) == "" + ps[0];
      assert "" + ps[0] == ps[0];
    } else {
      var init := ps[..|ps| - 1];
      JoinablePrefix(ps, pat, |ps| - 1);
      FreeConcat(init, pat);
      SeamConcat(init, ps[|ps| - 1], pat);
      FreeAppend(Concat(init), ps[|ps| - 1], pat);
    }
  }

  /** Replacing in a text made of pieces, where the pattern is exactly piece `j`
      and occurs in no other piece, swaps piece `j` for the replacement. */
  lemma {:induction false} ReplaceSlot(ps: seq<string>, j: nat, pat: string, rep: string)
    requires |pat| > 0 && j < |ps| && ps[j] == pat
    requires forall k | 0 <= k < |ps| && k != j :: Free(ps[k], pat)
    requires Joinable(ps, pat)
    ensures ReplaceAll(Concat(ps), pat, rep) == Concat(ps[j := rep])
    decreases |ps|
  {
    var n := |ps|;
    var init := ps[..n - 1];
    var last := ps[n - 1];
    assert Concat(ps) == Concat(init) + last;
    assert ps[j := rep][..n - 1] == if j == n - 1 then init else init[j := rep];
    if n == 1 {
      ReplaceAllWhole(pat, rep);
      assert Concat(ps) == pat;
      assert Concat(ps[j := rep]) == "" + rep;
    } else {
      JoinablePrefix(ps, pat, n - 1);
      SeamConcat(init, last, pat);
      ReplaceAllSplit(Concat(init), last, pat, rep);
      if j == n - 1 {
        FreeConcat(init, pat);
        ReplaceAllFree(Concat(init), pat, rep);
        ReplaceAllWhole(pat, rep);
      } else {
        ReplaceSlot(init, j, pat, rep);
        ReplaceAllFree(last, pat, rep);
      }
    }
  }

  /* ---------------------------------------------------------------------------
     Lower case
     ------------------------------------------------------------------------- */

  predicate IsUpper(c: char)
  {
    'A' <= c <= 'Z'
  }

  function LowerChar(c: char): char
  {
    if IsUpper(c) then (c as int + 32) as char else c
  }

  /** Python's `str.lower()` on ASCII letters: each upper-case letter becomes
      its lower-case partner and every other character stays. */
  function Lower(s: string): (r: string)
    ensures |r| == |s|
    ensures forall i | 0 <= i < |r| :: !IsUpper(r[i])
    ensures forall i | 0 <= i < |r| :: r[i] == s[i] || (IsUpper(s[i]) && r[i] as int == s[i] as int + 32)
  {
    seq(|s|, i requires 0 <= i < |s| => LowerChar(s[i]))
  }

  /** Lower-casing twice is lower-casing once. */
  lemma LowerIdempotent(s: string)
    ensures Lower(Lower(s)) == Lower(s)
  {
  }

  /* ---------------------------------------------------------------------------
     Decimal numbers
     ------------------------------------------------------------------------- */

  predicate IsDigit(c: char)
  {
    '0' <= c <= '9'
  }

  predicate AllDigits(s: string)
  {
    forall i | 0 <= i < |s| :: IsDigit(s[i])
  }

  function DigitChar(d: nat): char
    requires d < 10
  {
    ('0' as int + d) as char
  }

  function DigitValue(c: char): nat
    requires IsDigit(c)
  {
    c as int - '0' as int
  }

  /** `str(n)` for a non-negative integer: its decimal digits, with no leading zero. */
  function NatToString(n: nat): (r: string)
    ensures |r| > 0 && AllDigits(r)
    ensures r[0] == '0' ==> n == 0
    decreases n
  {
    if n < 10 then [DigitChar(n)] else NatToString(n / 10) + [DigitChar(n % 10)]
  }

  /** The number a run of decimal digits denotes. */
  function ParseNat(s: string): nat
    requires AllDigits(s)
  {
    if |s| == 0 then 0 else ParseNat(s[..|s| - 1]) * 10 + DigitValue(s[|s| - 1])
  }

  /** Reading back the decimal digits of `n` gives `n`. */
  lemma {:induction false} ParseNatToString(n: nat)
    ensures ParseNat(NatToString(n)) == n
    decreases n
  {
    if n >= 10 {
      var r := NatToString(n);
      assert r[..|r| - 1] == NatToString(n / 10);
      ParseNatToString(n / 10);
    }
  }

  /** `str(n)` for any integer: a minus sign in front of the digits of a negative one. */
  function IntToString(n: int): (r: string)
    ensures |r| > 0
    ensures forall i | 0 <= i < |r| :: IsDigit(r[i]) || r[i] == '-'
  {
    if n < 0 then "-" + NatToString(-n) else NatToString(n)
  }

  /** `int(s)` for the canonical decimal forms `str` produces. */
  function ParseInt(s: string): Option<int>
  {
    if |s| > 1 && s[0] == '-' && AllDigits(s[1..]) then Some(-(ParseNat(s[1..]) as int))
    else if |s| > 0 && AllDigits(s) then Some(ParseNat(s))
    else None
  }

  /** `int(str(n)) == n`. */
  lemma IntToStringRoundTrip(n: int)
    ensures ParseInt(IntToString(n)) == Some(n)
  {
    if n < 0 {
      var r := IntToString(n);
      assert r[1..] == NatToString(-n);
      ParseNatToString(-n);
    } else {
      ParseNatToString(n);
      assert NatToString(n)[0] != '-';
    }
  }
}
