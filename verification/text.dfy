/** String operations the scraper borrows from Python: the two regular-expression
    tests of the row filter (for patterns free of metacharacters), `str.replace`
    with an empty replacement, and the character filter `re.sub(r"[^a-zA-Z0-9\-]", "", s)`. */
module Text {

  // ---------------------------------------------------------------------------
  // Matching. `re.match(p, s)` anchors at the start of `s`; for a pattern `p`
  // without regular-expression metacharacters it succeeds exactly when `p` is a
  // prefix of `s`. `re.match(".*" + p + ".*", s, re.DOTALL)` lets `.` cross line
  // breaks, so it succeeds exactly when `p` occurs anywhere in `s`.
  // ---------------------------------------------------------------------------

  /** `p` is a prefix of `s`. */
  predicate StartsWith(s: string, p: string) {
    |p| <= |s| && s[..|p|] == p
  }

  /** `p` occurs somewhere in `s`, searching from the left. */
  predicate Contains(s: string, p: string)
    decreases |s|
  {
    StartsWith(s, p) || (|s| > 0 && Contains(s[1..], p))
  }

  /** `p` occurs in `s` at offset `k`. */
  ghost predicate OccursAt(s: string, p: string, k: int) {
    0 <= k && k + |p| <= |s| && s[k..k + |p|] == p
  }

  /** An occurrence found by the search has a position. */
  lemma {:induction false} ContainsHasOffset(s: string, p: string)
    requires Contains(s, p)
    ensures exists k :: OccursAt(s, p, k)
    decreases |s|
  {
    if StartsWith(s, p) {
      assert OccursAt(s, p, 0);
    } else {
      ContainsHasOffset(s[1..], p);
      var k :| OccursAt(s[1..], p, k);
      assert s[1..][k..k + |p|] == s[k + 1..k + 1 + |p|];
      assert OccursAt(s, p, k + 1);
    }
  }

  /** The search finds an occurrence at any position. */
  lemma {:induction false} OffsetIsContained(s: string, p: string, k: int)
    requires OccursAt(s, p, k)
    ensures Contains(s, p)
    decreases k
  {
    if k > 0 {
      assert s[1..][k - 1..k - 1 + |p|] == s[k..k + |p|];
      OffsetIsContained(s[1..], p, k - 1);
    }
  }

  /** The search agrees with the positional definition of an occurrence. */
  lemma ContainsIff(s: string, p: string)
    ensures Contains(s, p) <==> exists k :: OccursAt(s, p, k)
  {
    if Contains(s, p) {
      ContainsHasOffset(s, p);
    }
    forall k | OccursAt(s, p, k) ensures Contains(s, p) {
      OffsetIsContained(s, p, k);
    }
  }

  /** The year test succeeds wherever the token sits, whatever surrounds it,
      line breaks included. */
  lemma ContainsInfix(before: string, p: string, after: string)
    ensures Contains(before + p + after, p)
  {
    var s := before + p + after;
    assert s[|before|..|before| + |p|] == p;
    assert OccursAt(s, p, |before|);
    ContainsIff(s, p);
  }

  // ---------------------------------------------------------------------------
  // Removal. `s.replace(pat, "")` scans `s` from the left and drops every
  // occurrence of `pat` it meets, skipping past each one; occurrences do not
  // overlap and text that only becomes an occurrence after a removal stays.
  // An empty `pat` leaves `s` as it is.
  // ---------------------------------------------------------------------------

  /** Python's `s.replace(pat, "")`. */
  function RemoveAll(s: string, pat: string): (r: string)
    ensures |r| <= |s|
    decreases |s|
  {
    if |pat| == 0 || |s| < |pat| then s
    else if s[..|pat|] == pat then RemoveAll(s[|pat|..], pat)
    else [s[0]] + RemoveAll(s[1..], pat)
  }

  /** `s` with every `c` dropped, the other characters in order. */
  function Without(s: string, c: char): (r: string)
    ensures c !in r
  {
    if s == [] then []
    else if s[0] == c then Without(s[1..], c)
    else [s[0]] + Without(s[1..], c)
  }

  /** Every other character keeps its number of occurrences. */
  lemma {:induction false} WithoutCounts(s: string, c: char, d: char)
    requires d != c
    ensures multiset(Without(s, c))[d] == multiset(s)[d]
    decreases |s|
  {
    if s != [] {
      WithoutCounts(s[1..], c, d);
      assert s == [s[0]] + s[1..];
    }
  }

  /** Dropping a character works piece by piece. */
  lemma {:induction false} WithoutAppend(a: string, b: string, c: char)
    ensures Without(a + b, c) == Without(a, c) + Without(b, c)
    decreases |a|
  {
    if a == [] {
      assert a + b == b;
    } else {
      WithoutAppend(a[1..], b, c);
      assert (a + b)[0] == a[0] && (a + b)[1..] == a[1..] + b;
    }
  }

  /** Text without the character is left unchanged. */
  lemma {:induction false} WithoutAbsent(s: string, c: char)
    requires c !in s
    ensures Without(s, c) == s
    decreases |s|
  {
    if s != [] {
      WithoutAbsent(s[1..], c);
      assert s == [s[0]] + s[1..];
    }
  }

  /** Removing a one-character pattern drops exactly that character. */
  lemma {:induction false} RemoveCharIsWithout(s: string, c: char)
    ensures RemoveAll(s, [c]) == Without(s, c)
    decreases |s|
  {
    if s != [] {
      RemoveCharIsWithout(s[1..], c);
      assert s[..1] == [s[0]];
    }
  }

  /** A stretch that holds no first character of `pat` passes through unchanged. */
  lemma {:induction false} RemoveSkipsPrefix(a: string, b: string, pat: string)
    requires |pat| > 0 && pat[0] !in a
    ensures RemoveAll(a + b, pat) == a + RemoveAll(b, pat)
    decreases |a|
  {
    if a == [] {
      assert a + b == b;
    } else {
      var s := a + b;
      assert a[0] in a;
      assert s[0] == a[0] && s[1..] == a[1..] + b;
      RemoveSkipsPrefix(a[1..], b, pat);
      assert !StartsWith(s, pat) by {
        if |pat| <= |s| { assert s[..|pat|][0] == s[0]; }
      }
      RemoveKeepsHead(s, pat);
      assert a == [a[0]] + a[1..];
    }
  }

  /** When the text does not start with the pattern, its first character is
      kept and removal goes on from the next one. */
  lemma RemoveKeepsHead(s: string, pat: string)
    requires |pat| > 0 && |s| > 0 && !StartsWith(s, pat)
    ensures RemoveAll(s, pat) == [s[0]] + RemoveAll(s[1..], pat)
  {
    if |s| < |pat| {
      assert s == [s[0]] + s[1..];
    }
  }

  /** Text without an occurrence of `pat` is left unchanged. */
  lemma {:induction false} RemoveAbsent(s: string, pat: string)
    requires !Contains(s, pat)
    ensures RemoveAll(s, pat) == s
    decreases |s|
  {
    if |pat| > 0 && |s| >= |pat| {
      assert !StartsWith(s, pat);
      RemoveAbsent(s[1..], pat);
    }
  }

  /** An occurrence at the front is removed, and removal goes on after it. */
  lemma RemoveDropsHead(pat: string, rest: string)
    requires |pat| > 0
    ensures RemoveAll(pat + rest, pat) == RemoveAll(rest, pat)
  {
    var s := pat + rest;
    assert s[..|pat|] == pat && s[|pat|..] == rest;
  }

  /** A stretch in which no occurrence of `pat` starts passes through
      removal unchanged, and removal goes on after it. */
  lemma {:induction false} RemoveSkipsUnmatched(a: string, rest: string, pat: string)
    requires |pat| > 0
    requires forall k :: 0 <= k < |a| ==> !OccursAt(a + rest, pat, k)
    ensures RemoveAll(a + rest, pat) == a + RemoveAll(rest, pat)
    decreases |a|
  {
    if a == [] {
      assert a + rest == rest;
    } else {
      var s := a + rest;
      assert s[1..] == a[1..] + rest;
      forall k | 0 <= k < |a[1..]| ensures !OccursAt(a[1..] + rest, pat, k) {
        assert !OccursAt(s, pat, k + 1);
        if k + |pat| <= |s[1..]| {
          assert s[1..][k..k + |pat|] == s[k + 1..k + 1 + |pat|];
        }
      }
      RemoveSkipsUnmatched(a[1..], rest, pat);
      assert !StartsWith(s, pat) by {
        assert !OccursAt(s, pat, 0);
        if |pat| <= |s| { assert s[0..|pat|] == s[..|pat|]; }
      }
      RemoveKeepsHead(s, pat);
      assert s[0] == a[0] && a == [a[0]] + a[1..];
      ConcatAssoc([a[0]], a[1..], RemoveAll(rest, pat));
    }
  }

  /** Removal takes occurrences leftmost first: the first occurrence of `pat`
      goes, everything before it stays, and removal goes on after it. */
  lemma RemoveLeftmost(a: string, b: string, pat: string)
    requires forall k :: 0 <= k < |a| ==> !OccursAt(a + pat + b, pat, k)
    ensures RemoveAll(a + pat + b, pat) == a + RemoveAll(b, pat)
  {
    if |pat| == 0 {
      // The empty pattern occurs everywhere, so nothing can precede it.
      assert a == [] by {
        if a != [] {
          assert OccursAt(a + pat + b, pat, 0);
        }
      }
      assert a + pat + b == b;
    } else {
      ConcatAssoc(a, pat, b);
      RemoveSkipsUnmatched(a, pat + b, pat);
      RemoveDropsHead(pat, b);
    }
  }

  /** The removal is one pass: when the pattern splits as `front + back` and
      sits between those two halves, the inner occurrence goes and the halves
      close up into an occurrence that stays ("AdoAdoptedpted" becomes
      "Adopted", with front "Ado" and back "pted"). */
  lemma RemoveSinglePass(front: string, back: string, pat: string)
    requires pat == front + back && front != [] && back != []
    requires pat[0] !in front[1..] && back[0] != pat[0]
    ensures RemoveAll(front + pat + back, pat) == pat
  {
    var s := front + pat + back;
    var rest := pat + back;
    assert s[0] == front[0] && s[1..] == front[1..] + rest;
    assert !StartsWith(s, pat) by {
      assert s[..|pat|][|front|] == pat[0] && pat[|front|] == back[0];
    }
    RemoveKeepsHead(s, pat);
    RemoveSkipsPrefix(front[1..], rest, pat);
    RemoveDropsHead(pat, back);
    assert RemoveAll(back, pat) == back;
    assert [front[0]] + front[1..] == front;
    ConcatAssoc([front[0]], front[1..], back);
  }

  lemma ConcatAssoc<T>(a: seq<T>, b: seq<T>, c: seq<T>)
    ensures (a + b) + c == a + (b + c)
  {
  }

  // ---------------------------------------------------------------------------
  // The character filter `re.sub(r"[^a-zA-Z0-9\-]", "", s)`.
  // ---------------------------------------------------------------------------

  /** The characters a file name may keep: ASCII letters, digits and `-`. */
  predicate IsSafe(c: char) {
    ('a' <= c <= 'z') || ('A' <= c <= 'Z') || ('0' <= c <= '9') || c == '-'
  }

  /** Every character of `s` is safe. */
  predicate AllSafe(s: string) {
    forall i :: 0 <= i < |s| ==> IsSafe(s[i])
  }

  /** `s` with every unsafe character deleted. */
  function Keep(s: string): (r: string)
    ensures AllSafe(r)
  {
    if s == [] then []
    else if IsSafe(s[0]) then [s[0]] + Keep(s[1..])
    else Keep(s[1..])
  }

  /** Each safe character is kept as often as it occurs; no unsafe one survives. */
  lemma {:induction false} KeepCounts(s: string, c: char)
    ensures multiset(Keep(s))[c] == if IsSafe(c) then multiset(s)[c] else 0
    decreases |s|
  {
    if s != [] {
      KeepCounts(s[1..], c);
      assert s == [s[0]] + s[1..];
    }
  }

  /** The filter works character by character, so it splits over concatenation. */
  lemma {:induction false} KeepAppend(a: string, b: string)
    ensures Keep(a + b) == Keep(a) + Keep(b)
    decreases |a|
  {
    if a != [] {
      KeepAppend(a[1..], b);
      var ab := a + b;
      assert ab[0] == a[0] && ab[1..] == a[1..] + b;
      if IsSafe(a[0]) {
        assert Keep(ab) == [a[0]] + Keep(a[1..] + b);
        assert Keep(a) == [a[0]] + Keep(a[1..]);
      } else {
        assert Keep(ab) == Keep(a[1..] + b);
      }
    } else {
      assert a + b == b;
    }
  }

  /** The filter leaves exactly the all-safe strings unchanged. */
  lemma {:induction false} KeepFixed(s: string)
    ensures Keep(s) == s <==> AllSafe(s)
    decreases |s|
  {
    if s != [] {
      KeepFixed(s[1..]);
      if !IsSafe(s[0]) {
        KeepShorter(s[1..]);
      } else {
        assert Keep(s) == [s[0]] + Keep(s[1..]);
        if Keep(s) == s {
          assert Keep(s[1..]) == Keep(s)[1..];
        }
        if AllSafe(s) {
          assert AllSafe(s[1..]) by {
            forall i | 0 <= i < |s[1..]| ensures IsSafe(s[1..][i]) { assert s[1..][i] == s[i + 1]; }
          }
        }
      }
    }
  }

  /** The filter never lengthens its input. */
  lemma {:induction false} KeepShorter(s: string)
    ensures |Keep(s)| <= |s|
    decreases |s|
  {
    if s != [] { KeepShorter(s[1..]); }
  }

  /** Filtering twice is filtering once. */
  lemma KeepIdempotent(s: string)
    ensures Keep(Keep(s)) == Keep(s)
  {
    KeepFixed(Keep(s));
  }
}
