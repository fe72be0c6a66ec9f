/**
 Wildcard matching of file names: `*` stands for any run of characters, `?` for exactly one,
 and every other character for itself up to ASCII case.
 */
module Wildcard {

  /** `std::tolower` in the "C" locale. */
  function ToLower(c: char): char {
    if 'A' <= c <= 'Z' then c - 'A' + 'a' else c
  }

  predicate EqualsIgnoreCase(a: char, b: char) {
    ToLower(a) == ToLower(b)
  }

  /** Characters agree exactly if they are equal or the two cases of one ASCII letter. */
  lemma CaseIsIgnored(a: char, b: char)
    ensures EqualsIgnoreCase(a, b) <==>
            || a == b
            || ('A' <= a <= 'Z' && b as int == a as int + 32)
            || ('A' <= b <= 'Z' && a as int == b as int + 32)
  {
  }

  /** A pattern character other than `*` against one character of the text. */
  predicate MatchesOne(pc: char, c: char) {
    pc == '?' || EqualsIgnoreCase(pc, c)
  }

  /** The reference meaning of a pattern. */
  predicate Matches(pattern: string, text: string)
    decreases |pattern| + |text|
  {
    if pattern == [] then
      text == []
    else if pattern[0] == '*' then
      Matches(pattern[1..], text) || (text != [] && Matches(pattern, text[1..]))
    else
      text != [] && MatchesOne(pattern[0], text[0]) && Matches(pattern[1..], text[1..])
  }

  /** `pattern` is free of stars and matches `text` character by character. */
  ghost predicate Aligned(pattern: string, text: string) {
    && |pattern| == |text|
    && forall i :: 0 <= i < |pattern| ==> pattern[i] != '*' && MatchesOne(pattern[i], text[i])
  }

  /** A star may swallow any further prefix of the text. */
  lemma {:induction false} StarAbsorbs(pattern: string, text: string, k: nat)
    requires pattern != [] && pattern[0] == '*'
    requires k <= |text| && Matches(pattern, text[k..])
    ensures Matches(pattern, text)
  {
    if k != 0 {
      assert text[1..][k - 1..] == text[k..];
      StarAbsorbs(pattern, text[1..], k - 1);
    } else {
      assert text[0..] == text;
    }
  }

  /** A pattern that starts with a star matches exactly when its rest matches some suffix. */
  lemma {:induction false} StarMeansSomeSuffix(pattern: string, text: string) returns (k: nat)
    requires pattern != [] && pattern[0] == '*' && Matches(pattern, text)
    ensures k <= |text| && Matches(pattern[1..], text[k..])
    decreases |text|
  {
    if Matches(pattern[1..], text) {
      k := 0;
      assert text[0..] == text;
    } else {
      k := StarMeansSomeSuffix(pattern, text[1..]);
      assert text[1..][k..] == text[k + 1..];
      k := k + 1;
    }
  }

  /** A star-free prefix consumes exactly as many characters as it has. */
  lemma {:induction false} StarFreePrefix(pattern: string, n: nat, text: string)
    requires n <= |pattern| && (forall i :: 0 <= i < n ==> pattern[i] != '*')
    requires Matches(pattern, text)
    ensures n <= |text| && Matches(pattern[n..], text[n..])
  {
    if n != 0 {
      StarFreePrefix(pattern[1..], n - 1, text[1..]);
      assert pattern[1..][n - 1..] == pattern[n..];
      assert text[1..][n - 1..] == text[n..];
    } else {
      assert pattern[0..] == pattern && text[0..] == text;
    }
  }

  /** Prepending an aligned pair of strings does not change whether a pattern matches. */
  lemma {:induction false} AlignedPrefix(pattern: string, n: nat, text: string)
    requires n <= |pattern| && n <= |text| && Aligned(pattern[..n], text[..n])
    ensures Matches(pattern, text) == Matches(pattern[n..], text[n..])
  {
    if n != 0 {
      var p, t := pattern[..n], text[..n];
      assert p[0] != '*' && MatchesOne(p[0], t[0]);
      assert pattern[1..][..n - 1] == p[1..] && text[1..][..n - 1] == t[1..];
      AlignedPrefix(pattern[1..], n - 1, text[1..]);
      assert pattern[1..][n - 1..] == pattern[n..];
      assert text[1..][n - 1..] == text[n..];
    } else {
      assert pattern[0..] == pattern && text[0..] == text;
    }
  }

  /**
   Where the search stands: the whole question has been reduced to `pattern[star..]` against
   `text[mark..]`, and what follows the star has been aligned with `text[mark..t]`.
   */
  ghost predicate Attempt(pattern: string, text: string, star: nat, mark: nat, p: nat, t: nat) {
    && star < p <= |pattern| && mark <= t <= |text|
    && pattern[star] == '*'
    && Aligned(pattern[star + 1..p], text[mark..t])
  }

  /** Any match of the attempt's pattern goes through its aligned part, at some shift `k`. */
  lemma AttemptShift(pattern: string, text: string, star: nat, mark: nat, p: nat, t: nat) returns (k: nat)
    requires Attempt(pattern, text, star, mark, p, t)
    requires Matches(pattern[star..], text[mark..])
    ensures t + k <= |text| && Matches(pattern[p..], text[t + k..])
    ensures k == 0 || (mark < |text| && Matches(pattern[star..], text[mark + 1..]))
  {
    var rest, tail, n := pattern[star + 1..], text[mark..], p - star - 1;
    assert pattern[star..][1..] == rest;
    k := StarMeansSomeSuffix(pattern[star..], tail);
    assert tail[k..] == text[mark + k..];
    forall i | 0 <= i < n ensures rest[i] != '*' {
      assert rest[i] == pattern[star + 1..p][i];
    }
    StarFreePrefix(rest, n, tail[k..]);
    assert rest[n..] == pattern[p..];
    assert tail[k..][n..] == text[t + k..];
    if k != 0 {
      var next := text[mark + 1..];
      assert next[k - 1..] == text[mark + k..];
      assert next[k - 1..][0..] == next[k - 1..];
      assert Matches(pattern[star..], next[k - 1..]);
      StarAbsorbs(pattern[star..], next, k - 1);
    }
  }

  /** What matches after the aligned part matches from the star. */
  lemma AttemptSucceeds(pattern: string, text: string, star: nat, mark: nat, p: nat, t: nat)
    requires Attempt(pattern, text, star, mark, p, t)
    requires Matches(pattern[p..], text[t..])
    ensures Matches(pattern[star..], text[mark..])
  {
    var rest, tail, n := pattern[star + 1..], text[mark..], p - star - 1;
    assert rest[..n] == pattern[star + 1..p] && tail[..n] == text[mark..t];
    AlignedPrefix(rest, n, tail);
    assert rest[n..] == pattern[p..] && tail[n..] == text[t..];
    assert pattern[star..][1..] == rest;
  }

  /** A later star makes the earlier one irrelevant: only the last star need ever be retried. */
  lemma LaterStarWins(pattern: string, text: string, star: nat, mark: nat, p: nat, t: nat)
    requires Attempt(pattern, text, star, mark, p, t)
    requires p < |pattern| && pattern[p] == '*'
    ensures Matches(pattern[star..], text[mark..]) == Matches(pattern[p..], text[t..])
  {
    if Matches(pattern[star..], text[mark..]) {
      var k := AttemptShift(pattern, text, star, mark, p, t);
      assert text[t..][k..] == text[t + k..];
      StarAbsorbs(pattern[p..], text[t..], k);
    } else if Matches(pattern[p..], text[t..]) {
      AttemptSucceeds(pattern, text, star, mark, p, t);
    }
  }

  /** A failed alignment rules out this position of the star and no other. */
  lemma RetryLosesNothing(pattern: string, text: string, star: nat, mark: nat, p: nat, t: nat)
    requires Attempt(pattern, text, star, mark, p, t) && t < |text|
    requires !Matches(pattern[p..], text[t..])
    ensures Matches(pattern[star..], text[mark..]) == Matches(pattern[star..], text[mark + 1..])
  {
    assert text[mark..][1..] == text[mark + 1..];
    if Matches(pattern[star..], text[mark..]) {
      var k := AttemptShift(pattern, text, star, mark, p, t);
    }
  }

  /** At the end of the text, only the remaining pattern decides. */
  lemma EndDecides(pattern: string, text: string, star: nat, mark: nat, p: nat)
    requires Attempt(pattern, text, star, mark, p, |text|)
    ensures Matches(pattern[star..], text[mark..]) == Matches(pattern[p..], [])
  {
    assert text[|text|..] == [];
    if Matches(pattern[star..], text[mark..]) {
      var k := AttemptShift(pattern, text, star, mark, p, |text|);
    } else if Matches(pattern[p..], []) {
      AttemptSucceeds(pattern, text, star, mark, p, |text|);
    }
  }

  /** The loop's invariant: no star has been seen yet (`star < 0`), or an attempt is under way. */
  ghost predicate Search(pattern: string, text: string, star: int, mark: nat, p: nat, t: nat) {
    && p <= |pattern| && mark <= t <= |text|
    && if star < 0 then
         Matches(pattern, text) == Matches(pattern[p..], text[t..])
       else
         && Attempt(pattern, text, star, mark, p, t)
         && Matches(pattern, text) == Matches(pattern[star..], text[mark..])
  }

  lemma SearchStepsOne(pattern: string, text: string, star: int, mark: nat, p: nat, t: nat)
    requires Search(pattern, text, star, mark, p, t)
    requires p < |pattern| && t < |text| && pattern[p] != '*' && MatchesOne(pattern[p], text[t])
    ensures Search(pattern, text, star, mark, p + 1, t + 1)
  {
    if star < 0 {
      assert pattern[p..][1..] == pattern[p + 1..] && text[t..][1..] == text[t + 1..];
    } else {
      assert pattern[star + 1..p + 1] == pattern[star + 1..p] + [pattern[p]];
      assert text[mark..t + 1] == text[mark..t] + [text[t]];
    }
  }

  lemma SearchTakesStar(pattern: string, text: string, star: int, mark: nat, p: nat, t: nat)
    requires Search(pattern, text, star, mark, p, t)
    requires p < |pattern| && pattern[p] == '*'
    ensures Search(pattern, text, p, t, p + 1, t)
  {
    if star >= 0 {
      LaterStarWins(pattern, text, star, mark, p, t);
    }
  }

  lemma SearchFallsBack(pattern: string, text: string, star: int, mark: nat, p: nat, t: nat)
    requires Search(pattern, text, star, mark, p, t) && t < |text|
    requires p < |pattern| ==> pattern[p] != '*' && !MatchesOne(pattern[p], text[t])
    ensures star < 0 ==> !Matches(pattern, text)
    ensures star >= 0 ==> Search(pattern, text, star, mark + 1, star + 1, mark + 1)
  {
    assert !Matches(pattern[p..], text[t..]);
    if star >= 0 {
      RetryLosesNothing(pattern, text, star, mark, p, t);
    }
  }

  lemma SearchEnds(pattern: string, text: string, star: int, mark: nat, p: nat)
    requires Search(pattern, text, star, mark, p, |text|)
    ensures Matches(pattern, text) == Matches(pattern[p..], [])
  {
    assert text[|text|..] == [];
    if star >= 0 {
      EndDecides(pattern, text, star, mark, p);
    }
  }

  /** The matcher behind FindFirstFile: one loop, one remembered star, no recursion. */
  method WildcardMatchInsensitive(pattern: string, text: string) returns (result: bool)
    ensures result == Matches(pattern, text)
  {
    var p, t := 0, 0;
    var star, mark := -1, 0;
    assert pattern[0..] == pattern && text[0..] == text;
    while t < |text|
      invariant 0 <= p <= |pattern| && 0 <= mark <= t <= |text| && star < |pattern|
      invariant Search(pattern, text, star, mark, p, t)
      decreases |text| - mark, |text| - t, |pattern| - p
    {
      if p < |pattern| {
        var pc := pattern[p];
        if pc == '?' {
          SearchStepsOne(pattern, text, star, mark, p, t);
          p, t := p + 1, t + 1;
          continue;
        }
        if pc == '*' {
          SearchTakesStar(pattern, text, star, mark, p, t);
          star, p := p, p + 1;
          mark := t;
          continue;
        }
        if EqualsIgnoreCase(pc, text[t]) {
          SearchStepsOne(pattern, text, star, mark, p, t);
          p, t := p + 1, t + 1;
          continue;
        }
      }
      SearchFallsBack(pattern, text, star, mark, p, t);
      if star >= 0 {
        p := star + 1;
        mark := mark + 1;
        t := mark;
        continue;
      }
      return false;
    }
    SearchEnds(pattern, text, star, mark, p);
    p := SkipStars(pattern, p);
    return p == |pattern|;
  }

  /** The loop after the end of the text: the rest of the pattern matches if it is all stars. */
  method SkipStars(pattern: string, from: nat) returns (p: nat)
    requires from <= |pattern|
    ensures from <= p <= |pattern| && (p == |pattern| <==> Matches(pattern[from..], []))
  {
    p := from;
    while p < |pattern| && pattern[p] == '*'
      invariant from <= p <= |pattern|
      invariant Matches(pattern[from..], []) == Matches(pattern[p..], [])
    {
      assert pattern[p..][1..] == pattern[p + 1..];
      p := p + 1;
    }
  }

  // ----- what the meaning comes to for simple patterns

  /** `*` alone matches everything. */
  lemma StarMatchesAll(text: string)
    ensures Matches("*", text)
  {
    assert text[|text|..] == [] && "*"[1..] == [];
    assert Matches("*", []);
    StarAbsorbs("*", text, |text|);
  }

  /** A pattern without `*` matches character by character: `?` any one, anything else itself up to case. */
  lemma {:induction false} PlainPattern(pattern: string, text: string)
    requires '*' !in pattern
    ensures Matches(pattern, text) <==>
            && |pattern| == |text|
            && forall i :: 0 <= i < |pattern| ==>
                 || pattern[i] == '?' || pattern[i] == text[i]
                 || ('A' <= pattern[i] <= 'Z' && text[i] as int == pattern[i] as int + 32)
                 || ('A' <= text[i] <= 'Z' && pattern[i] as int == text[i] as int + 32)
    decreases |pattern|
  {
    if pattern != [] && text != [] {
      PlainPattern(pattern[1..], text[1..]);
      CaseIsIgnored(pattern[0], text[0]);
      assert forall i :: 1 <= i < |pattern| ==> pattern[i] == pattern[1..][i - 1];
      assert forall i :: 1 <= i < |text| ==> text[i] == text[1..][i - 1];
    }
  }

  /** A leading star matches exactly the texts with a suffix that the rest of the pattern matches. */
  lemma LeadingStar(pattern: string, text: string)
    requires pattern != [] && pattern[0] == '*'
    ensures Matches(pattern, text) <==> exists k :: 0 <= k <= |text| && Matches(pattern[1..], text[k..])
  {
    if Matches(pattern, text) {
      var k := StarMeansSomeSuffix(pattern, text);
    } else if k :| 0 <= k <= |text| && Matches(pattern[1..], text[k..]) {
      assert Matches(pattern, text[k..]);
      StarAbsorbs(pattern, text, k);
    }
  }
}
