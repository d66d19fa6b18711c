/** String helpers for the checks and queries of the catalogue: Jakarta's
    @NotBlank, SQL LOWER and LIKE, Java's equalsIgnoreCase, substring search.
    Case mapping covers ASCII letters only. */
module Text {

  /** @NotBlank as Hibernate Validator checks it: a string is blank when
      String.trim() leaves nothing, that is when every character is at or
      below U+0020. */
  predicate IsBlank(s: string) {
    forall i | 0 <= i < |s| :: s[i] <= ' '
  }

  /** Lower-case one character (ASCII letters only). */
  function LowerChar(c: char): char {
    if 'A' <= c <= 'Z' then (c as int + 32) as char else c
  }

  /** SQL LOWER / String.toLowerCase over ASCII letters: the result holds no
      upper-case letter, every other character is kept, and it equals the
      input ignoring case. */
  function Lower(s: string): (r: string)
    ensures |r| == |s|
    ensures forall i | 0 <= i < |r| :: !('A' <= r[i] <= 'Z')
    ensures forall i | 0 <= i < |s| && !('A' <= s[i] <= 'Z') :: r[i] == s[i]
    ensures EqualsIgnoreCase(r, s)
  {
    seq(|s|, i requires 0 <= i < |s| => LowerChar(s[i]))
  }

  /** Lower-casing twice is lower-casing once. */
  lemma LowerIsIdempotent(s: string)
    ensures Lower(Lower(s)) == Lower(s)
  {
  }

  /** String.equalsIgnoreCase over ASCII letters. */
  predicate EqualsIgnoreCase(a: string, b: string) {
    |a| == |b| && forall i | 0 <= i < |a| :: LowerChar(a[i]) == LowerChar(b[i])
  }

  lemma EqualsIgnoreCaseIsLowerEquality(a: string, b: string)
    ensures EqualsIgnoreCase(a, b) <==> Lower(a) == Lower(b)
  {
    if Lower(a) == Lower(b) {
      assert |a| == |b|;
      forall i | 0 <= i < |a| ensures LowerChar(a[i]) == LowerChar(b[i]) {
        assert Lower(a)[i] == Lower(b)[i];
      }
    }
  }

  predicate IsPrefix(n: string, s: string) {
    |n| <= |s| && s[..|n|] == n
  }

  /** `n` occurs in `s` starting at position `i`. */
  predicate OccursAt(s: string, n: string, i: nat) {
    i + |n| <= |s| && s[i..i + |n|] == n
  }

  /** `n` occurs in `s` as a contiguous substring. */
  predicate Contains(s: string, n: string) {
    exists i: nat | i <= |s| :: OccursAt(s, n, i)
  }

  lemma {:induction false} ContainsStep(s: string, n: string)
    ensures Contains(s, n) <==> IsPrefix(n, s) || (s != [] && Contains(s[1..], n))
  {
    if Contains(s, n) && !IsPrefix(n, s) {
      var i: nat :| i <= |s| && OccursAt(s, n, i);
      assert i != 0;
      assert s[1..][i - 1..i - 1 + |n|] == n;
      assert OccursAt(s[1..], n, i - 1);
    }
    if s != [] && Contains(s[1..], n) {
      var j: nat :| j <= |s[1..]| && OccursAt(s[1..], n, j);
      assert s[j + 1..j + 1 + |n|] == n;
      assert OccursAt(s, n, j + 1);
    }
    if IsPrefix(n, s) {
      assert OccursAt(s, n, 0);
    }
  }

  lemma EmptyNeedleIsContained(s: string)
    ensures Contains(s, "")
  {
    assert OccursAt(s, "", 0);
  }

  /** SQL `s LIKE p` with no escape character: '%' matches any run of
      characters, '_' any single character, every other character itself. */
  predicate Like(s: string, p: string)
    decreases |s| + |p|
  {
    if p == [] then s == []
    else if p[0] == '%' then Like(s, p[1..]) || (s != [] && Like(s[1..], p))
    else s != [] && (p[0] == '_' || p[0] == s[0]) && Like(s[1..], p[1..])
  }

  /** `n` holds neither of LIKE's wildcard characters. */
  predicate NoWildcard(n: string) {
    forall i | 0 <= i < |n| :: n[i] != '%' && n[i] != '_'
  }

  lemma {:induction false} LikePercentMatchesAll(s: string)
    ensures Like(s, "%")
    decreases |s|
  {
    assert "%"[1..] == "";
    if s != [] {
      LikePercentMatchesAll(s[1..]);
    }
  }

  lemma {:induction false} LikeLiteralThenPercent(s: string, n: string)
    requires NoWildcard(n)
    ensures Like(s, n + "%") <==> IsPrefix(n, s)
    decreases |n|
  {
    if n == [] {
      assert n + "%" == "%";
      LikePercentMatchesAll(s);
    } else {
      var p := n + "%";
      assert p[0] == n[0] && p[1..] == n[1..] + "%";
      assert n[0] != '%' && n[0] != '_';
      assert NoWildcard(n[1..]) by {
        forall i | 0 <= i < |n[1..]| ensures n[1..][i] != '%' && n[1..][i] != '_' {
          assert n[1..][i] == n[i + 1];
        }
      }
      if s != [] {
        LikeLiteralThenPercent(s[1..], n[1..]);
        if IsPrefix(n, s) {
          assert s[1..][..|n[1..]|] == s[..|n|][1..];
        }
        if IsPrefix(n[1..], s[1..]) && n[0] == s[0] {
          assert s[..|n|] == [s[0]] + s[1..][..|n[1..]|];
        }
      }
    }
  }

  /** With a needle free of wildcards, `LIKE '%' || n || '%'` is exactly
      substring containment. */
  lemma {:induction false} LikeSurroundedIsContains(s: string, n: string)
    requires NoWildcard(n)
    ensures Like(s, "%" + n + "%") <==> Contains(s, n)
    decreases |s|
  {
    var p := "%" + n + "%";
    assert p[0] == '%' && p[1..] == n + "%";
    LikeLiteralThenPercent(s, n);
    ContainsStep(s, n);
    if s != [] {
      LikeSurroundedIsContains(s[1..], n);
    }
  }
}
