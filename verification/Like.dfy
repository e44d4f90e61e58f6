/** LIKE and host-pattern matching: the last-star backtracking loop against the declarative match relation. */
module Like {

  type Runes = seq<char>

  // ----- the match relation ------------------------------------------------------------------

  /** `%` stands for any sequence, `_` for any one character, everything else for itself. */
  ghost predicate Matches(v: Runes, p: Runes)
    decreases |p|
  {
    if p == [] then v == []
    else if p[0] == '%' then exists k :: 0 <= k <= |v| && Matches(v[k..], p[1..])
    else v != [] && (p[0] == '_' || p[0] == v[0]) && Matches(v[1..], p[1..])
  }

  /** A leading `%` takes nothing, or one character and then stands for the rest. */
  lemma StarStep(v: Runes, p: Runes)
    requires p != [] && p[0] == '%'
    ensures Matches(v, p) <==> Matches(v, p[1..]) || (v != [] && Matches(v[1..], p))
  {
    assert v[0..] == v;
    if Matches(v, p) {
      var k :| 0 <= k <= |v| && Matches(v[k..], p[1..]);
      if k > 0 { assert v[1..][k - 1..] == v[k..]; }
    }
    if v != [] && Matches(v[1..], p) {
      var k :| 0 <= k <= |v[1..]| && Matches(v[1..][k..], p[1..]);
      assert v[k + 1..] == v[1..][k..];
    }
  }

  /** Dropping characters in front of a `%` that matches them anyway. */
  lemma StarAbsorbs(v: Runes, i: nat, k: nat, p: Runes)
    requires i <= k <= |v| && p != [] && p[0] == '%' && Matches(v[k..], p)
    ensures Matches(v[i..], p)
  {
    var m :| 0 <= m <= |v[k..]| && Matches(v[k..][m..], p[1..]);
    assert v[i..][k - i + m..] == v[k..][m..];
  }

  ghost predicate AllStars(p: Runes) { forall i :: 0 <= i < |p| ==> p[i] == '%' }

  /** Only a run of `%` matches the empty string. */
  lemma {:induction false} MatchesEmpty(p: Runes)
    ensures Matches([], p) <==> AllStars(p)
  {
    if p != [] {
      MatchesEmpty(p[1..]);
      if p[0] == '%' { StarStep([], p); }
      assert forall i :: 0 < i < |p| ==> p[i] == p[1..][i - 1];
    }
  }

  /** The number of characters a pattern needs at least. */
  function Needs(p: Runes): nat {
    if p == [] then 0 else (if p[0] == '%' then 0 else 1) + Needs(p[1..])
  }

  lemma {:induction false} MatchesNeeds(v: Runes, p: Runes)
    requires Matches(v, p)
    ensures |v| >= Needs(p)
    decreases |p|
  {
    if p != [] {
      if p[0] == '%' {
        var k :| 0 <= k <= |v| && Matches(v[k..], p[1..]);
        MatchesNeeds(v[k..], p[1..]);
      } else {
        MatchesNeeds(v[1..], p[1..]);
      }
    }
  }

  // ----- the loop ----------------------------------------------------------------------------

  predicate Agree(v: Runes, p: Runes, i: nat, j: nat) {
    i < |v| && j < |p| && (p[j] == '_' || p[j] == v[i])
  }

  /** likeMatchCaseSensitive from a loop state: `star` is one past the last `%` taken, or 0. */
  predicate Scan(v: Runes, p: Runes, i: nat, j: nat, star: nat, retry: nat)
    requires retry <= i <= |v| && star <= j <= |p|
    decreases |p| - star, |v| - retry, |v| - i
  {
    if i == |v| then forall k :: j <= k < |p| ==> p[k] == '%'
    else if Agree(v, p, i, j) then Scan(v, p, i + 1, j + 1, star, retry)
    else if j < |p| && p[j] == '%' then Scan(v, p, i, j + 1, j + 1, i)
    else if star > 0 then Scan(v, p, retry + 1, star, star, retry + 1)
    else false
  }

  predicate LikeMatch(v: Runes, p: Runes) { Scan(v, p, 0, 0, 0, 0) }

  /** The loop itself, with the trailing loop over the rest of the pattern. */
  method LikeMatchCaseSensitive(value: Runes, pattern: Runes) returns (matched: bool)
    ensures matched == LikeMatch(value, pattern)
    ensures matched ==> Matches(value, pattern)
    ensures '%' !in value || '%' !in pattern ==> matched == Matches(value, pattern)
  {
    LikeSound(value, pattern);
    if '%' !in value || '%' !in pattern { LikeExact(value, pattern); }
    var i, j, star, retry := 0, 0, -1, 0;
    while i < |value|
      invariant 0 <= retry <= i <= |value| && -1 <= star < j + 1 && 0 <= j <= |pattern| && star + 1 <= j
      invariant LikeMatch(value, pattern) == Scan(value, pattern, i, j, star + 1, retry)
      decreases |pattern| - star, |value| - retry, |value| - i
    {
      if j < |pattern| && (pattern[j] == '_' || pattern[j] == value[i]) {
        i, j := i + 1, j + 1;
      } else if j < |pattern| && pattern[j] == '%' {
        star, j, retry := j, j + 1, i;
      } else if star >= 0 {
        j, retry, i := star + 1, retry + 1, retry + 1;
      } else {
        return false;
      }
    }
    while j < |pattern| && pattern[j] == '%'
      invariant 0 <= j <= |pattern|
      invariant LikeMatch(value, pattern) == forall k :: j <= k < |pattern| ==> pattern[k] == '%'
    {
      j := j + 1;
    }
    matched := j == |pattern|;
  }

  // ----- soundness on all inputs -------------------------------------------------------------

  lemma AgreeMatches(v: Runes, p: Runes, i: nat, j: nat)
    requires Agree(v, p, i, j) && Matches(v[i + 1..], p[j + 1..])
    ensures Matches(v[i..], p[j..])
  {
    assert v[i..][1..] == v[i + 1..] && p[j..][1..] == p[j + 1..];
    assert v[i..][0] == v[i] && p[j..][0] == p[j];
    if p[j] == '%' {
      StarStep(v[i + 1..], p[j..]);
      StarStep(v[i..], p[j..]);
    }
  }

  /** `%` in front of a matched rest, and `%` that takes one character more. */
  lemma StarFrom(v: Runes, p: Runes, i: nat, j: nat)
    requires i <= |v| && j < |p| && p[j] == '%'
    ensures Matches(v[i..], p[j + 1..]) ==> Matches(v[i..], p[j..])
    ensures i < |v| && Matches(v[i + 1..], p[j..]) ==> Matches(v[i..], p[j..])
  {
    StarStep(v[i..], p[j..]);
    assert p[j..][1..] == p[j + 1..];
    if i < |v| { assert v[i..][1..] == v[i + 1..]; }
  }

  /** What the loop finds is a match, also when a `%` of the value met a `%` of the pattern. */
  lemma {:induction false} ScanSound(v: Runes, p: Runes, i: nat, j: nat, star: nat, retry: nat)
    requires retry <= i <= |v| && star <= j <= |p|
    requires star > 0 ==> p[star - 1] == '%'
    requires Scan(v, p, i, j, star, retry)
    ensures Matches(v[i..], p[j..]) || (star > 0 && Matches(v[retry..], p[star - 1..]))
    decreases |p| - star, |v| - retry, |v| - i
  {
    if i == |v| {
      MatchesEmpty(p[j..]);
      assert v[i..] == [];
    } else if Agree(v, p, i, j) {
      ScanSound(v, p, i + 1, j + 1, star, retry);
      if Matches(v[i + 1..], p[j + 1..]) { AgreeMatches(v, p, i, j); }
    } else if j < |p| && p[j] == '%' {
      ScanSound(v, p, i, j + 1, j + 1, i);
      StarFrom(v, p, i, j);
    } else {
      ScanSound(v, p, retry + 1, star, star, retry + 1);
      StarFrom(v, p, retry + 1, star - 1);
      StarFrom(v, p, retry, star - 1);
    }
  }

  lemma LikeSound(v: Runes, p: Runes)
    ensures LikeMatch(v, p) ==> Matches(v, p)
  {
    if LikeMatch(v, p) {
      ScanSound(v, p, 0, 0, 0, 0);
      assert v[0..] == v && p[0..] == p;
    }
  }

  // ----- exactness ---------------------------------------------------------------------------

  /** No `%` among the pattern characters from b up to e. */
  ghost predicate Plain(p: Runes, b: nat, e: nat) {
    e <= |p| && forall q :: b <= q < e ==> p[q] != '%'
  }

  /** The value from position a on agrees with the pattern characters from b up to e. */
  ghost predicate Agrees(v: Runes, p: Runes, a: nat, b: nat, e: nat) {
    b <= e <= |p| && a + (e - b) <= |v| && forall q :: b <= q < e ==> p[q] == '_' || p[q] == v[q - b + a]
  }

  /** The value from `retry` to i agrees with the pattern after the last `%`, which is plain up to j. */
  ghost predicate Literal(v: Runes, p: Runes, i: nat, j: nat, star: nat, retry: nat) {
    retry <= i <= |v| && star <= j && i - retry == j - star && Plain(p, star, j) && Agrees(v, p, retry, star, j)
  }

  /** Matching a plain stretch of pattern consumes as many characters. */
  lemma {:induction false} PlainConsumes(v: Runes, p: Runes, a: nat, b: nat, e: nat)
    requires a <= |v| && b <= e && Plain(p, b, e) && Matches(v[a..], p[b..])
    ensures a + (e - b) <= |v| && Matches(v[a + (e - b)..], p[e..])
    decreases e - b
  {
    if b < e {
      assert p[b..][0] == p[b] && p[b..][1..] == p[b + 1..];
      assert v[a..][1..] == v[a + 1..];
      PlainConsumes(v, p, a + 1, b + 1, e);
    }
  }

  /** Where the value agrees with the stretch, matching what follows is enough. */
  lemma {:induction false} AgreesExtends(v: Runes, p: Runes, a: nat, b: nat, e: nat)
    requires Agrees(v, p, a, b, e) && Plain(p, b, e) && Matches(v[a + (e - b)..], p[e..])
    ensures Matches(v[a..], p[b..])
    decreases e - b
  {
    if b < e {
      AgreesExtends(v, p, a + 1, b + 1, e);
      assert p[b..][0] == p[b] && p[b..][1..] == p[b + 1..];
      assert v[a..][0] == v[a] && v[a..][1..] == v[a + 1..];
    }
  }

  /** Taking a new `%` forgets the old one: the new one absorbs whatever the old one could. */
  lemma NewStar(v: Runes, p: Runes, i: nat, j: nat, star: nat, retry: nat)
    requires Literal(v, p, i, j, star, retry) && 0 < star && p[star - 1] == '%' && j < |p| && p[j] == '%'
    ensures Matches(v[retry..], p[star - 1..]) <==> Matches(v[i..], p[j..])
  {
    assert p[star - 1..][1..] == p[star..];
    if Matches(v[i..], p[j..]) {
      AgreesExtends(v, p, retry, star, j);
      assert v[retry..][0..] == v[retry..];
    }
    if Matches(v[retry..], p[star - 1..]) {
      var k :| 0 <= k <= |v[retry..]| && Matches(v[retry..][k..], p[star..]);
      assert v[retry..][k..] == v[retry + k..];
      PlainConsumes(v, p, retry + k, star, j);
      StarAbsorbs(v, i, retry + k + (j - star), p[j..]);
    }
  }

  /** A mismatch after the literal stretch makes the last `%` take one character more. */
  lemma Retry(v: Runes, p: Runes, i: nat, j: nat, star: nat, retry: nat)
    requires Literal(v, p, i, j, star, retry) && 0 < star && p[star - 1] == '%'
    requires i < |v| && !Agree(v, p, i, j) && !(j < |p| && p[j] == '%')
    ensures Matches(v[retry..], p[star - 1..]) <==> Matches(v[retry + 1..], p[star - 1..])
  {
    StarStep(v[retry..], p[star - 1..]);
    assert p[star - 1..][1..] == p[star..] && v[retry..][1..] == v[retry + 1..];
    if Matches(v[retry..], p[star..]) { PlainConsumes(v, p, retry, star, j); }
    NoMatchHere(v, p, i, j);
  }

  lemma NoMatchHere(v: Runes, p: Runes, i: nat, j: nat)
    requires i < |v| && j <= |p| && !Agree(v, p, i, j) && !(j < |p| && p[j] == '%')
    ensures !Matches(v[i..], p[j..])
  {
    if j < |p| { assert p[j..][0] == p[j] && v[i..][0] == v[i]; }
  }

  lemma {:induction false} NeedsShift(p: Runes, b: nat, e: nat)
    requires b <= e && Plain(p, b, e)
    ensures Needs(p[b..]) == (e - b) + Needs(p[e..])
    decreases e - b
  {
    if b < e {
      assert p[b..][0] == p[b] && p[b..][1..] == p[b + 1..];
      NeedsShift(p, b + 1, e);
    }
  }

  lemma {:induction false} NeedsZero(p: Runes)
    ensures Needs(p) == 0 <==> AllStars(p)
  {
    if p != [] {
      NeedsZero(p[1..]);
      assert forall i :: 0 < i < |p| ==> p[i] == p[1..][i - 1];
    }
  }

  /** At the end of the value only `%` may be left, wherever the last `%` started. */
  lemma AtEnd(v: Runes, p: Runes, j: nat, star: nat, retry: nat)
    requires Literal(v, p, |v|, j, star, retry) && 0 < star && p[star - 1] == '%'
    ensures Matches(v[retry..], p[star - 1..]) <==> AllStars(p[j..])
  {
    NeedsShift(p, star, j);
    NeedsZero(p[j..]);
    assert p[star - 1..][1..] == p[star..];
    if AllStars(p[j..]) {
      MatchesEmpty(p[j..]);
      assert v[|v|..] == [];
      AgreesExtends(v, p, retry, star, j);
      assert v[retry..][0..] == v[retry..];
    }
    if Matches(v[retry..], p[star - 1..]) { MatchesNeeds(v[retry..], p[star - 1..]); }
  }

  /** The target the loop keeps equivalent to the whole question. */
  ghost predicate Target(v: Runes, p: Runes, i: nat, j: nat, star: nat, retry: nat)
    requires retry <= i <= |v| && star <= j <= |p|
  {
    if star > 0 then Matches(v[retry..], p[star - 1..]) else Matches(v[i..], p[j..])
  }

  lemma {:induction false} ScanExact(v: Runes, p: Runes, i: nat, j: nat, star: nat, retry: nat)
    requires '%' !in v || '%' !in p
    requires retry <= i <= |v| && star <= j <= |p|
    requires star > 0 ==> p[star - 1] == '%' && Literal(v, p, i, j, star, retry)
    ensures Scan(v, p, i, j, star, retry) <==> Target(v, p, i, j, star, retry)
    decreases |p| - star, |v| - retry, |v| - i
  {
    if i == |v| {
      MatchesEmpty(p[j..]);
      assert v[i..] == [];
      assert AllStars(p[j..]) <==> forall k :: j <= k < |p| ==> p[k] == '%' by {
        assert forall k :: j <= k < |p| ==> p[k] == p[j..][k - j];
      }
      if star > 0 { AtEnd(v, p, j, star, retry); }
    } else if Agree(v, p, i, j) {
      assert p[j] != '%';
      ScanExact(v, p, i + 1, j + 1, star, retry);
      assert v[i..][1..] == v[i + 1..] && p[j..][1..] == p[j + 1..];
    } else if j < |p| && p[j] == '%' {
      ScanExact(v, p, i, j + 1, j + 1, i);
      if star > 0 { NewStar(v, p, i, j, star, retry); }
    } else if star > 0 {
      Retry(v, p, i, j, star, retry);
      ScanExact(v, p, retry + 1, star, star, retry + 1);
    } else {
      NoMatchHere(v, p, i, j);
    }
  }

  /** Without a `%` on one of the two sides, the loop decides the match relation. */
  lemma LikeExact(v: Runes, p: Runes)
    requires '%' !in v || '%' !in p
    ensures LikeMatch(v, p) <==> Matches(v, p)
  {
    ScanExact(v, p, 0, 0, 0, 0);
    assert v[0..] == v && p[0..] == p;
  }

  // ----- values with a `%` -------------------------------------------------------------------

  /** n copies of `_`. */
  function Blanks(n: nat): (r: Runes)
    ensures |r| == n && forall i :: 0 <= i < n ==> r[i] == '_'
  {
    seq(n, _ => '_')
  }

  lemma {:induction false} BlanksMatch(v: Runes)
    ensures Matches(v, Blanks(|v|))
  {
    if v != [] {
      BlanksMatch(v[1..]);
      assert Blanks(|v|)[1..] == Blanks(|v[1..]|);
    }
  }

  /** The pattern that shows a value with a `%` at position n being refused although it matches. */
  function Exposing(v: Runes, n: nat): Runes
    requires n < |v|
  {
    v[..n] + ['%'] + Blanks(|v| - n)
  }

  lemma ExposingMatches(v: Runes, n: nat)
    requires n < |v| && v[n] == '%' && '%' !in v[..n]
    ensures Matches(v, Exposing(v, n))
  {
    ExposingTail(v, n);
    ExposingPrefix(v, n);
    PrefixThenStar(v, Exposing(v, n), n);
  }

  lemma ExposingTail(v: Runes, n: nat)
    requires n < |v|
    ensures Matches(v[n..], Exposing(v, n)[n + 1..])
  {
    assert Exposing(v, n)[n + 1..] == Blanks(|v[n..]|);
    BlanksMatch(v[n..]);
  }

  lemma PrefixThenStar(v: Runes, p: Runes, n: nat)
    requires n <= |v| && n < |p| && p[n] == '%' && Plain(p, 0, n) && Agrees(v, p, 0, 0, n)
    requires Matches(v[n..], p[n + 1..])
    ensures Matches(v, p)
  {
    StarFrom(v, p, n, n);
    AgreesExtends(v, p, 0, 0, n);
    assert v[0..] == v && p[0..] == p;
  }

  lemma ExposingPrefix(v: Runes, n: nat)
    requires n < |v| && '%' !in v[..n]
    ensures Plain(Exposing(v, n), 0, n) && Agrees(v, Exposing(v, n), 0, 0, n)
  {
    var p := Exposing(v, n);
    forall q | 0 <= q < n ensures p[q] == v[q] && p[q] != '%' { assert v[q] == v[..n][q]; }
  }

  lemma {:induction false} ExposingScan(v: Runes, n: nat, i: nat)
    requires n < |v| && v[n] == '%' && i <= |v|
    ensures !Scan(v, Exposing(v, n), i, i, 0, 0)
    decreases |v| - i
  {
    var p := Exposing(v, n);
    assert p[|v|] == '_';
    if i < |v| {
      assert i < n ==> p[i] == v[i];
      assert i == n ==> p[i] == '%';
      assert i > n ==> p[i] == '_';
      ExposingScan(v, n, i + 1);
    }
  }

  /**
   The loop is right for a value under every pattern exactly when the value has no `%`: it compares for an
   equal character before it looks for a wildcard.
   */
  lemma LikeExactIffNoPercent(v: Runes)
    ensures (forall p :: LikeMatch(v, p) <==> Matches(v, p)) <==> '%' !in v
  {
    if '%' !in v {
      forall p ensures LikeMatch(v, p) <==> Matches(v, p) { LikeExact(v, p); }
    } else {
      var n := FirstPercent(v);
      ExposingMatches(v, n);
      ExposingScan(v, n, 0);
      assert !(LikeMatch(v, Exposing(v, n)) <==> Matches(v, Exposing(v, n)));
    }
  }

  function FirstPercent(v: Runes): (n: nat)
    requires '%' in v
    ensures n < |v| && v[n] == '%' && '%' !in v[..n]
  {
    if v[0] == '%' then 0 else
      var m := FirstPercent(v[1..]);
      assert v[..m + 1] == [v[0]] + v[1..][..m];
      m + 1
  }

  // ----- host patterns -----------------------------------------------------------------------

  /** hostMatches on lower-cased names: loopback addresses count as localhost, the rest is the same loop. */
  method HostMatches(pattern: Runes, host: Runes) returns (matched: bool)
    ensures '%' !in host ==>
            matched == ((pattern == "localhost" && host in ["127.0.0.1", "::1"]) || Matches(host, pattern))
    ensures matched ==> (pattern == "localhost" && host in ["127.0.0.1", "::1"]) || Matches(host, pattern)
  {
    if pattern == "localhost" && (host == "127.0.0.1" || host == "::1") { return true; }
    matched := LikeMatchCaseSensitive(host, pattern);
  }
}
