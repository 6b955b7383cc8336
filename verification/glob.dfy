/** Key patterns: `?` stands for one byte, `*` for any number of bytes. */
module Glob {

  /** The meaning of a pattern. */
  ghost predicate Matches(key: string, pattern: string)
    decreases |pattern|, |key|
  {
    if pattern == "" then key == ""
    else if pattern[0] == '*' then Matches(key, pattern[1..]) || (key != "" && Matches(key[1..], pattern))
    else key != "" && (pattern[0] == '?' || pattern[0] == key[0]) && Matches(key[1..], pattern[1..])
  }

  /** The scan from key position `ki` and pattern position `pi`, to fall back to the star at `starPi`
      (-1 when none was passed), which then takes one byte more than up to `starKi`. */
  function Scan(key: string, pattern: string, pi: nat, ki: nat, starPi: int, starKi: nat): bool
    requires pi <= |pattern| && starKi <= ki <= |key| && -1 <= starPi < pi
    decreases |pattern| - starPi, |key| - starKi, |key| - ki
  {
    if ki < |key| then
      if pi < |pattern| && (pattern[pi] == '?' || pattern[pi] == key[ki]) then
        Scan(key, pattern, pi + 1, ki + 1, starPi, starKi)
      else if pi < |pattern| && pattern[pi] == '*' then
        Scan(key, pattern, pi + 1, ki, pi, ki)
      else if starPi != -1 then
        Scan(key, pattern, starPi + 1, starKi + 1, starPi, starKi + 1)
      else false
    else OnlyStars(pattern, pi)
  }

  predicate OnlyStars(pattern: string, pi: nat)
    requires pi <= |pattern|
  {
    forall i :: pi <= i < |pattern| ==> pattern[i] == '*'
  }

  function MatchResult(key: string, pattern: string): bool {
    pattern == "*" || Scan(key, pattern, 0, 0, -1, 0)
  }

  method Match(key: string, pattern: string) returns (r: bool)
    ensures r == MatchResult(key, pattern)
  {
    if |pattern| == 1 && pattern[0] == '*' {
      return true;
    }
    var pi, ki, starPi, starKi := 0, 0, -1, 0;
    while ki < |key|
      invariant pi <= |pattern| && starKi <= ki <= |key| && -1 <= starPi < pi
      invariant Scan(key, pattern, pi, ki, starPi, starKi) == Scan(key, pattern, 0, 0, -1, 0)
      decreases |pattern| - starPi, |key| - starKi, |key| - ki
    {
      if pi < |pattern| && (pattern[pi] == '?' || pattern[pi] == key[ki]) {
        pi, ki := pi + 1, ki + 1;
      } else if pi < |pattern| && pattern[pi] == '*' {
        starPi, starKi := pi, ki;
        pi := pi + 1;
      } else if starPi != -1 {
        starKi := starKi + 1;
        pi, ki := starPi + 1, starKi;
      } else {
        return false;
      }
    }
    ghost var end := pi;
    while pi < |pattern| && pattern[pi] == '*'
      invariant end <= pi <= |pattern| && forall i :: end <= i < pi ==> pattern[i] == '*'
    {
      pi := pi + 1;
    }
    r := pi == |pattern|;
  }

  // ---- a true result is right ----

  lemma {:induction false} OnlyStarsMatch(pattern: string, pi: nat)
    requires pi <= |pattern|
    ensures Matches("", pattern[pi..]) <==> OnlyStars(pattern, pi)
    decreases |pattern| - pi
  {
    if pi < |pattern| {
      OnlyStarsMatch(pattern, pi + 1);
    }
  }

  /** A leading star may take any `n` bytes. */
  lemma {:induction false} StarMatches(key: string, pattern: string, n: nat)
    requires pattern != "" && pattern[0] == '*' && n <= |key|
    requires Matches(key[n..], pattern[1..]) || Matches(key[n..], pattern)
    ensures Matches(key, pattern)
    decreases n
  {
    if n > 0 {
      assert key[1..][n - 1..] == key[n..];
      StarMatches(key[1..], pattern, n - 1);
    } else {
      assert key[0..] == key;
    }
  }

  /** One byte matched, whatever the pattern has for it. */
  lemma ByteMatches(key: string, pattern: string)
    requires key != "" && pattern != "" && (pattern[0] == '?' || pattern[0] == key[0])
    requires Matches(key[1..], pattern[1..])
    ensures Matches(key, pattern)
  {
    if pattern[0] == '*' {
      StarMatches(key, pattern, 1);
    }
  }

  /** If the scan succeeds, then what is left matches, or the star it may fall back to matches from
      further on. */
  lemma {:induction false} ScanSound(key: string, pattern: string, pi: nat, ki: nat, starPi: int, starKi: nat)
    requires pi <= |pattern| && starKi <= ki <= |key| && -1 <= starPi < pi
    requires starPi >= 0 ==> pattern[starPi] == '*'
    requires Scan(key, pattern, pi, ki, starPi, starKi)
    ensures Matches(key[ki..], pattern[pi..]) || (starPi >= 0 && Matches(key[starKi..], pattern[starPi..]))
    decreases |pattern| - starPi, |key| - starKi, |key| - ki
  {
    hide Matches;
    if ki == |key| {
      OnlyStarsMatch(pattern, pi);
      assert key[ki..] == "";
    } else if pi < |pattern| && (pattern[pi] == '?' || pattern[pi] == key[ki]) {
      ScanSound(key, pattern, pi + 1, ki + 1, starPi, starKi);
      assert key[ki..][1..] == key[ki + 1..] && pattern[pi..][1..] == pattern[pi + 1..];
      if Matches(key[ki + 1..], pattern[pi + 1..]) {
        ByteMatches(key[ki..], pattern[pi..]);
      }
    } else if pi < |pattern| && pattern[pi] == '*' {
      ScanSound(key, pattern, pi + 1, ki, pi, ki);
      assert key[ki..][0..] == key[ki..] && pattern[pi..][1..] == pattern[pi + 1..];
      StarMatches(key[ki..], pattern[pi..], 0);
    } else {
      ScanSound(key, pattern, starPi + 1, starKi + 1, starPi, starKi + 1);
      assert key[starKi..][1..] == key[starKi + 1..] && pattern[starPi..][1..] == pattern[starPi + 1..];
      StarMatches(key[starKi..], pattern[starPi..], 1);
    }
  }

  lemma MatchSound(key: string, pattern: string)
    requires MatchResult(key, pattern)
    ensures Matches(key, pattern)
  {
    if pattern == "*" {
      StarMatches(key, "*", |key|);
    } else {
      ScanSound(key, pattern, 0, 0, -1, 0);
      assert key[0..] == key && pattern[0..] == pattern;
    }
  }

  // ---- a false result is right for keys without a star ----

  /** A leading star must take some number of bytes. */
  lemma {:induction false} StarTakes(key: string, pattern: string) returns (n: nat)
    requires pattern != "" && pattern[0] == '*' && Matches(key, pattern)
    ensures n <= |key| && Matches(key[n..], pattern[1..])
    decreases |key|
  {
    if Matches(key, pattern[1..]) {
      n := 0;
      assert key[0..] == key;
    } else {
      var m := StarTakes(key[1..], pattern);
      assert key[1..][m..] == key[m + 1..];
      n := m + 1;
    }
  }

  /** A stretch of the pattern without stars takes as many bytes as it is long. */
  lemma {:induction false} PlainStretch(key: string, pattern: string, n: nat)
    requires n <= |pattern| && (forall i :: 0 <= i < n ==> pattern[i] != '*') && Matches(key, pattern)
    ensures n <= |key| && Matches(key[n..], pattern[n..])
    decreases n
  {
    if n > 0 {
      PlainStretch(key[1..], pattern[1..], n - 1);
      assert key[1..][n - 1..] == key[n..] && pattern[1..][n - 1..] == pattern[n..];
    } else {
      assert key[0..] == key && pattern[0..] == pattern;
    }
  }

  /** The stretch since the last star has been matched against as many bytes. */
  ghost predicate Aligned(pattern: string, pi: nat, ki: nat, starPi: int, starKi: nat)
    requires pi <= |pattern| && -1 <= starPi < pi
  {
    starPi >= 0 ==>
      && pattern[starPi] == '*' && ki - starKi == pi - (starPi + 1)
      && (forall i :: starPi < i < pi ==> pattern[i] != '*')
  }

  /** If the earlier star could still succeed by taking more, then so can the later one it led to: the
      pattern up to the later star fits at the earliest place, and the later star can take the rest. */
  lemma LaterStarSuffices(key: string, pattern: string, pi: nat, ki: nat, starPi: nat, starKi: nat)
    requires pi <= |pattern| && starKi <= ki <= |key| && starPi < pi && starKi < |key|
    requires Aligned(pattern, pi, ki, starPi, starKi)
    requires Matches(key[starKi + 1..], pattern[starPi..])
    ensures ki < |key| && (pi < |pattern| && pattern[pi] == '*' ==> Matches(key[ki..], pattern[pi..]))
  {
    var rest := key[starKi + 1..];
    var n := StarTakes(rest, pattern[starPi..]);
    assert pattern[starPi..][1..] == pattern[starPi + 1..];
    var len := pi - (starPi + 1);
    PlainStretch(rest[n..], pattern[starPi + 1..], len);
    assert pattern[starPi + 1..][len..] == pattern[pi..];
    assert rest[n..][len..] == key[ki..][n + 1..];
    if pi < |pattern| && pattern[pi] == '*' {
      StarMatches(key[ki..], pattern[pi..], n + 1);
    }
  }

  lemma {:induction false} ScanComplete(key: string, pattern: string, pi: nat, ki: nat, starPi: int, starKi: nat)
    requires pi <= |pattern| && starKi <= ki <= |key| && -1 <= starPi < pi
    requires '*' !in key && Aligned(pattern, pi, ki, starPi, starKi)
    requires Matches(key[ki..], pattern[pi..])
          || (starPi >= 0 && starKi < |key| && Matches(key[starKi + 1..], pattern[starPi..]))
    ensures Scan(key, pattern, pi, ki, starPi, starKi)
    decreases |pattern| - starPi, |key| - starKi, |key| - ki
  {
    if !Matches(key[ki..], pattern[pi..]) {
      LaterStarSuffices(key, pattern, pi, ki, starPi, starKi);
    }
    if ki == |key| {
      OnlyStarsMatch(pattern, pi);
    } else if pi < |pattern| && (pattern[pi] == '?' || pattern[pi] == key[ki]) {
      assert key[ki] in key;
      ScanComplete(key, pattern, pi + 1, ki + 1, starPi, starKi);
    } else if pi < |pattern| && pattern[pi] == '*' {
      ScanComplete(key, pattern, pi + 1, ki, pi, ki);
    } else {
      ScanComplete(key, pattern, starPi + 1, starKi + 1, starPi, starKi + 1);
    }
  }

  /** For keys without a star the result is the meaning of the pattern. */
  lemma MatchComplete(key: string, pattern: string)
    requires '*' !in key && Matches(key, pattern)
    ensures MatchResult(key, pattern)
  {
    assert key[0..] == key && pattern[0..] == pattern;
    ScanComplete(key, pattern, 0, 0, -1, 0);
  }

  // ---- and for no other keys ----

  function Marks(n: nat): string {
    if n == 0 then "" else "?" + Marks(n - 1)
  }

  lemma {:induction false} MarksLength(n: nat)
    ensures |Marks(n)| == n && forall i :: 0 <= i < n ==> Marks(n)[i] == '?'
  {
    if n > 0 {
      MarksLength(n - 1);
    }
  }

  lemma {:induction false} MarksMatch(key: string)
    ensures Matches(key, Marks(|key|))
  {
    if key != "" {
      MarksMatch(key[1..]);
      assert Marks(|key|)[1..] == Marks(|key| - 1);
    }
  }

  lemma {:induction false} PrefixMatches(prefix: string, key: string, pattern: string)
    requires '*' !in prefix && Matches(key, pattern)
    ensures Matches(prefix + key, prefix + pattern)
  {
    if prefix == "" {
      assert prefix + key == key && prefix + pattern == pattern;
    } else {
      assert prefix[0] in prefix;
      assert (prefix + key)[1..] == prefix[1..] + key && (prefix + pattern)[1..] == prefix[1..] + pattern;
      PrefixMatches(prefix[1..], key, pattern);
    }
  }

  /** With no star recorded, a scan whose remaining pattern takes every remaining byte one for one and has one
      item left over fails. */
  lemma {:induction false} OneTooMany(key: string, pattern: string, i: nat)
    requires i <= |key| && |pattern| == |key| + 1 && pattern[|key|] == '?'
    requires forall j :: 0 <= j < |key| ==> pattern[j] == '?' || pattern[j] == key[j]
    ensures !Scan(key, pattern, i, i, -1, 0)
    decreases |key| - i
  {
    if i < |key| {
      OneTooMany(key, pattern, i + 1);
    }
  }

  /** The pattern that shows it: the key up to and including its first star, then one `?` more than bytes are left. */
  function Witness(key: string, i: nat): string
    requires i < |key|
  {
    key[..i] + ("*" + Marks(|key| - i))
  }

  lemma StarThenMarks(rest: string)
    ensures Matches(rest, "*" + Marks(|rest|))
  {
    MarksMatch(rest);
    assert ("*" + Marks(|rest|))[1..] == Marks(|rest|);
  }

  lemma WitnessMatches(key: string, i: nat)
    requires i < |key| && key[i] == '*' && '*' !in key[..i]
    ensures Matches(key, Witness(key, i))
  {
    hide Matches, Marks;
    var rest := key[i..];
    var tail := "*" + Marks(|rest|);
    assert rest[0] == '*' && key == key[..i] + rest;
    StarThenMarks(rest);
    PrefixMatches(key[..i], rest, tail);
  }

  lemma WitnessShape(key: string, i: nat)
    requires i < |key| && key[i] == '*'
    ensures |Witness(key, i)| == |key| + 1 && Witness(key, i)[|key|] == '?'
    ensures forall j :: 0 <= j < |key| ==> Witness(key, i)[j] == '?' || Witness(key, i)[j] == key[j]
  {
    MarksLength(|key| - i);
  }

  lemma StarInKeyMisleads(key: string, i: nat)
    requires i < |key| && key[i] == '*' && '*' !in key[..i]
    ensures Matches(key, Witness(key, i)) && !MatchResult(key, Witness(key, i))
  {
    hide Scan, Matches, Witness;
    WitnessMatches(key, i);
    WitnessShape(key, i);
    OneTooMany(key, Witness(key, i), 0);
  }

  lemma FirstStar(key: string) returns (i: nat)
    requires '*' in key
    ensures i < |key| && key[i] == '*' && '*' !in key[..i]
  {
    i := 0;
    while key[i] != '*'
      invariant i < |key| && '*' !in key[..i] && '*' in key[i..]
      decreases |key| - i
    {
      assert key[..i + 1] == key[..i] + [key[i]];
      assert key[i..] == [key[i]] + key[i + 1..];
      i := i + 1;
    }
  }

  /** The matcher gives every pattern its meaning on a key if and only if the key contains no star. */
  lemma ExactlyForStarlessKeys(key: string)
    ensures (forall pattern: string :: MatchResult(key, pattern) <==> Matches(key, pattern)) <==> '*' !in key
  {
    if '*' in key {
      var i := FirstStar(key);
      StarInKeyMisleads(key, i);
    } else {
      forall pattern: string ensures MatchResult(key, pattern) <==> Matches(key, pattern) {
        if MatchResult(key, pattern) {
          MatchSound(key, pattern);
        } else if Matches(key, pattern) {
          MatchComplete(key, pattern);
        }
      }
    }
  }
}
