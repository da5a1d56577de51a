/** Small string facilities the cache relies on: the Go standard library's
    strings.HasPrefix, strings.Contains, strings.Replace (with n = -1) and
    strconv.Itoa, each with an independent characterisation or an inverse. */
module Text {

  datatype Option<+T> = None | Some(value: T)

  /** strings.HasPrefix(s, p): `s` is `p` followed by something. */
  predicate HasPrefix(s: string, p: string)
    ensures HasPrefix(s, p) <==> exists t :: s == p + t
  {
    var b := |p| <= |s| && s[..|p|] == p;
    assert b ==> s == p + s[|p|..];
    assert forall t :: s == p + t ==> b;
    b
  }

  /** strings.Contains(s, sub), scanning from the left. The empty string
      is in every string, and nothing longer than `s` is in it. */
  predicate Contains(s: string, sub: string)
    ensures sub == [] ==> Contains(s, sub)
    ensures Contains(s, sub) ==> |sub| <= |s|
    decreases |s|
  {
    HasPrefix(s, sub) || (|s| > 0 && Contains(s[1..], sub))
  }

  /** `sub` occurs in `s` starting at index `i`. */
  predicate OccursAt(s: string, sub: string, i: int) {
    0 <= i <= |s| - |sub| && s[i..i + |sub|] == sub
  }

  /** Contains agrees with "sub occurs at some position of s". */
  lemma {:induction false} ContainsIffOccurs(s: string, sub: string)
    ensures Contains(s, sub) <==> exists i :: OccursAt(s, sub, i)
    decreases |s|
  {
    if HasPrefix(s, sub) {
      assert OccursAt(s, sub, 0);
    } else if |s| == 0 {
    } else {
      ContainsIffOccurs(s[1..], sub);
      if exists i :: OccursAt(s, sub, i) {
        var i :| OccursAt(s, sub, i);
        assert i != 0;
        assert s[1..][i - 1..i - 1 + |sub|] == sub;
        assert OccursAt(s[1..], sub, i - 1);
      }
      if Contains(s[1..], sub) {
        var j :| OccursAt(s[1..], sub, j);
        assert s[j + 1..j + 1 + |sub|] == sub;
        assert OccursAt(s, sub, j + 1);
      }
    }
  }

  /** strings.Replace(s, pat, rep, -1): every non-overlapping occurrence of
      `pat`, found left to right, is replaced by `rep`. A string without
      `pat` comes back as it is. */
  function ReplaceAll(s: string, pat: string, rep: string): (r: string)
    requires pat != []
    ensures !Contains(s, pat) ==> r == s
    decreases |s|
  {
    if HasPrefix(s, pat) then rep + ReplaceAll(s[|pat|..], pat, rep)
    else if s == [] then []
    else [s[0]] + ReplaceAll(s[1..], pat, rep)
  }

  /** Replacing by a string of the same length keeps the length. */
  lemma {:induction false} ReplaceAllLength(s: string, pat: string, rep: string)
    requires pat != [] && |rep| == |pat|
    ensures |ReplaceAll(s, pat, rep)| == |s|
    decreases |s|
  {
    if HasPrefix(s, pat) {
      ReplaceAllLength(s[|pat|..], pat, rep);
    } else if s != [] {
      ReplaceAllLength(s[1..], pat, rep);
    }
  }

  /** With a distinct replacement of the same length, the string is left
      as it is exactly when `pat` does not occur in it. */
  lemma {:induction false} ReplaceAllIsIdentityIff(s: string, pat: string, rep: string)
    requires pat != [] && |rep| == |pat| && rep != pat
    ensures ReplaceAll(s, pat, rep) == s <==> !Contains(s, pat)
    decreases |s|
  {
    var r := ReplaceAll(s, pat, rep);
    if HasPrefix(s, pat) {
      assert r[..|pat|] == rep;
      assert s[..|pat|] == pat;
    } else if s != [] {
      ReplaceAllIsIdentityIff(s[1..], pat, rep);
      assert r == [s[0]] + ReplaceAll(s[1..], pat, rep);
      assert r[1..] == ReplaceAll(s[1..], pat, rep);
      assert s == [s[0]] + s[1..];
    }
  }

  /** No proper suffix of `p` is also a prefix of it, so two occurrences
      of `p` never overlap ("gif" is such a pattern). */
  predicate NoSelfOverlap(p: string) {
    forall k :: 0 < k < |p| ==> !HasPrefix(p, p[k..])
  }

  /** Position `i` of `s` lies inside some occurrence of `pat`. */
  ghost predicate Covered(s: string, pat: string, i: int) {
    exists j :: OccursAt(s, pat, j) && j <= i < j + |pat|
  }

  /** An occurrence of `pat` in `s` is one in `s[k..]`, shifted by `k`. */
  lemma OccursShift(s: string, pat: string, k: int, j: int)
    requires 0 <= k <= |s|
    ensures k <= j && OccursAt(s, pat, j) ==> OccursAt(s[k..], pat, j - k)
    ensures OccursAt(s[k..], pat, j - k) ==> OccursAt(s, pat, j)
  {
    if k <= j && OccursAt(s, pat, j) {
      assert s[k..][j - k..j - k + |pat|] == s[j..j + |pat|];
    }
    if OccursAt(s[k..], pat, j - k) {
      assert s[k..][j - k..j - k + |pat|] == s[j..j + |pat|];
    }
  }

  /** A position covered in `s[k..]` is covered in `s`, `k` further on. */
  lemma CoveredShift(s: string, pat: string, k: int, i: int)
    requires 0 <= k <= |s|
    ensures Covered(s[k..], pat, i) ==> Covered(s, pat, i + k)
  {
    if Covered(s[k..], pat, i) {
      var j :| OccursAt(s[k..], pat, j) && j <= i < j + |pat|;
      OccursShift(s, pat, k, j + k);
    }
  }

  /** A second occurrence starting inside the first one makes a suffix of
      `pat` a prefix of it. */
  lemma OverlapIsBorder(s: string, pat: string, j: int)
    requires HasPrefix(s, pat) && OccursAt(s, pat, j)
    ensures 0 < j < |pat| ==> HasPrefix(pat, pat[j..])
  {
    if 0 < j < |pat| {
      forall i | 0 <= i < |pat| - j ensures pat[i] == pat[j..][i] {
        assert s[j..j + |pat|][i] == s[j + i];
      }
    }
  }

  /** `r` is `s` with every rune inside an occurrence of `pat` replaced by
      the corresponding rune of `rep`, and every other rune kept. */
  ghost predicate Positionwise(s: string, pat: string, rep: string, r: string) {
    && |r| == |s|
    && (forall j, i :: OccursAt(s, pat, j) && j <= i < j + |pat| && 0 <= i - j < |rep| ==> r[i] == rep[i - j])
    && (forall i :: 0 <= i < |s| && !Covered(s, pat, i) ==> r[i] == s[i])
  }

  /** The step of ReplaceAllPositions where `s` starts with `pat`. */
  lemma PositionsAfterMatch(s: string, pat: string, rep: string, rt: string)
    requires pat != [] && |rep| == |pat| && NoSelfOverlap(pat) && HasPrefix(s, pat)
    requires Positionwise(s[|pat|..], pat, rep, rt)
    ensures Positionwise(s, pat, rep, rep + rt)
  {
    var t, r := s[|pat|..], rep + rt;
    forall j, i | OccursAt(s, pat, j) && j <= i < j + |pat| && 0 <= i - j < |rep| ensures r[i] == rep[i - j] {
      OverlapIsBorder(s, pat, j);
      if j != 0 {
        OccursShift(s, pat, |pat|, j);
        assert r[i] == rt[i - |pat|];
      }
    }
    assert OccursAt(s, pat, 0);
    forall i | 0 <= i < |s| && !Covered(s, pat, i) ensures r[i] == s[i] {
      CoveredShift(s, pat, |pat|, i - |pat|);
      assert r[i] == rt[i - |pat|];
    }
  }

  /** The step of ReplaceAllPositions where `s` does not start with `pat`. */
  lemma PositionsAfterMiss(s: string, pat: string, rep: string, rt: string)
    requires pat != [] && s != [] && !HasPrefix(s, pat)
    requires Positionwise(s[1..], pat, rep, rt)
    ensures Positionwise(s, pat, rep, [s[0]] + rt)
  {
    var r := [s[0]] + rt;
    forall j, i | OccursAt(s, pat, j) && j <= i < j + |pat| && 0 <= i - j < |rep| ensures r[i] == rep[i - j] {
      OccursShift(s, pat, 1, j);
      assert r[i] == rt[i - 1];
    }
    forall i | 0 <= i < |s| && !Covered(s, pat, i) ensures r[i] == s[i] {
      if i > 0 {
        CoveredShift(s, pat, 1, i - 1);
        assert r[i] == rt[i - 1];
      }
    }
  }

  /** For a pattern that cannot overlap itself, ReplaceAll works position
      by position: every rune inside an occurrence of `pat` becomes the
      corresponding rune of `rep`, and every other rune stays as it is. */
  lemma {:induction false} ReplaceAllPositions(s: string, pat: string, rep: string)
    requires pat != [] && |rep| == |pat| && NoSelfOverlap(pat)
    ensures Positionwise(s, pat, rep, ReplaceAll(s, pat, rep))
    decreases |s|
  {
    if HasPrefix(s, pat) {
      ReplaceAllPositions(s[|pat|..], pat, rep);
      PositionsAfterMatch(s, pat, rep, ReplaceAll(s[|pat|..], pat, rep));
    } else if s != [] {
      ReplaceAllPositions(s[1..], pat, rep);
      PositionsAfterMiss(s, pat, rep, ReplaceAll(s[1..], pat, rep));
    }
  }

  /** Index of the last occurrence of `c` in `s`. */
  function LastIndex(s: string, c: char): (r: Option<nat>)
    ensures r.Some? ==> r.value < |s| && s[r.value] == c && c !in s[r.value + 1..]
    ensures r.None? ==> c !in s
    decreases |s|
  {
    if s == [] then None
    else if s[|s| - 1] == c then Some(|s| - 1)
    else
      var r := LastIndex(s[..|s| - 1], c);
      assert s == s[..|s| - 1] + [s[|s| - 1]];
      if r.Some? then
        assert s[r.value + 1..] == s[..|s| - 1][r.value + 1..] + [s[|s| - 1]];
        r
      else r
  }

  /** The separator placed between `a` and a `c`-free `b` is the last `c`. */
  lemma LastIndexOfSeparator(a: string, c: char, b: string)
    requires c !in b
    ensures LastIndex(a + [c] + b, c) == Some(|a|)
  {
    var s := a + [c] + b;
    assert s[|a|] == c;
    assert s[|a| + 1..] == b;
  }

  predicate IsDigit(c: char) {
    '0' <= c <= '9'
  }

  predicate AllDigits(s: string) {
    forall i :: 0 <= i < |s| ==> IsDigit(s[i])
  }

  /** Decimal digits of a natural number, most significant first, without
      leading zeros. */
  function NatToDecimal(n: nat): (r: string)
    ensures |r| > 0 && AllDigits(r)
    ensures r[0] == '0' ==> n == 0
    decreases n
  {
    var d := (('0' as int) + n % 10) as char;
    if n < 10 then [d] else NatToDecimal(n / 10) + [d]
  }

  /** Value of a string of decimal digits. */
  function DecimalValue(s: string): nat
    requires AllDigits(s)
    decreases |s|
  {
    if s == [] then 0
    else 10 * DecimalValue(s[..|s| - 1]) + (s[|s| - 1] as int - '0' as int)
  }

  lemma {:induction false} DecimalValueOfNatToDecimal(n: nat)
    ensures DecimalValue(NatToDecimal(n)) == n
    decreases n
  {
    var s := NatToDecimal(n);
    if n >= 10 {
      DecimalValueOfNatToDecimal(n / 10);
      assert s[..|s| - 1] == NatToDecimal(n / 10);
    }
  }

  /** strconv.Itoa: a leading '-' for negative numbers, then the digits. */
  function Itoa(n: int): (r: string)
    ensures |r| > 0
    ensures forall i :: 0 <= i < |r| ==> IsDigit(r[i]) || (i == 0 && r[i] == '-')
    ensures (r[0] == '-') <==> n < 0
  {
    if n < 0 then "-" + NatToDecimal(-n) else NatToDecimal(n)
  }

  /** strconv.Atoi on unbounded integers: an optional sign and at least one
      digit. */
  function Atoi(s: string): (r: Option<int>)
    ensures r.Some? ==> |s| > 0
  {
    if |s| > 0 && (s[0] == '-' || s[0] == '+') then
      var digits := s[1..];
      if |digits| > 0 && AllDigits(digits) then
        var v: int := DecimalValue(digits);
        Some(if s[0] == '-' then -v else v)
      else None
    else if |s| > 0 && AllDigits(s) then Some(DecimalValue(s))
    else None
  }

  /** Atoi inverts Itoa. */
  lemma AtoiItoa(n: int)
    ensures Atoi(Itoa(n)) == Some(n)
  {
    if n < 0 {
      DecimalValueOfNatToDecimal(-n);
      assert Itoa(n)[1..] == NatToDecimal(-n);
    } else {
      DecimalValueOfNatToDecimal(n);
    }
  }

  /** Itoa output never holds one of the URL delimiters '?' and '&'. */
  lemma ItoaHasNoDelimiters(n: int)
    ensures '?' !in Itoa(n) && '&' !in Itoa(n)
  {
    var r := Itoa(n);
    assert forall i :: 0 <= i < |r| ==> r[i] != '?' && r[i] != '&';
  }
}
