/** The three PHP string primitives the site mapping is built from:
    `str_replace` with a single search string, `strpos` with a one-character
    needle, and `substr` taken from offset 0. Strings are sequences of
    characters; PHP works on bytes, which makes no difference to these
    operations as long as the search strings are ASCII, as they are here. */
module PhpStrings {
  import opened Wrappers

  /** `pat` occurs in `s` starting at index `i`. */
  predicate OccursAt(s: string, pat: string, i: nat)
  {
    i + |pat| <= |s| && s[i..i + |pat|] == pat
  }

  /** `pat` occurs somewhere in `s`. */
  ghost predicate Occurs(s: string, pat: string)
  {
    exists i: nat :: OccursAt(s, pat, i)
  }

  /** `str_replace(pat, rep, s)`: scans `s` from left to right and replaces
      every non-overlapping occurrence of `pat` by `rep`; the text produced by
      a replacement is not scanned again. An empty search string leaves the
      subject unchanged. */
  function ReplaceAll(s: string, pat: string, rep: string): (r: string)
    ensures rep == [] ==> |r| <= |s|
    decreases |s|
  {
    if |pat| == 0 || |s| < |pat| then s
    else if s[..|pat|] == pat then rep + ReplaceAll(s[|pat|..], pat, rep)
    else [s[0]] + ReplaceAll(s[1..], pat, rep)
  }

  /** `strpos(s, c)`: the index of the first occurrence of `c` in `s`, or
      `None` where PHP returns `false`. */
  function IndexOf(s: string, c: char): (r: Option<nat>)
    ensures r.None? <==> c !in s
    ensures r.Some? ==> r.value < |s| && s[r.value] == c && c !in s[..r.value]
  {
    if |s| == 0 then None
    else if s[0] == c then Some(0)
    else match IndexOf(s[1..], c)
      case None => None
      case Some(i) => Some(i + 1)
  }

  /** The integer PHP passes on when the result of `strpos` is used as a
      length argument: `false` becomes 0. */
  function PositionAsLength(pos: Option<nat>): nat
  {
    match pos
    case None => 0
    case Some(i) => i
  }

  /** `substr(s, 0, n)` for a length `n >= 0`: the first `n` characters of
      `s`, or all of `s` when it is shorter. */
  function Prefix(s: string, n: nat): (r: string)
    ensures r <= s
    ensures |r| == if n <= |s| then n else |s|
  {
    if n <= |s| then s[..n] else s
  }

  /** Every character of the result comes from the subject or from the
      replacement. */
  lemma {:induction false} ReplaceAllCharacters(s: string, pat: string, rep: string, c: char)
    requires c in ReplaceAll(s, pat, rep)
    ensures c in s || c in rep
    decreases |s|
  {
    if |pat| == 0 || |s| < |pat| {
    } else if s[..|pat|] == pat {
      if c !in rep {
        ReplaceAllCharacters(s[|pat|..], pat, rep, c);
      }
    } else if c != s[0] {
      ReplaceAllCharacters(s[1..], pat, rep, c);
    }
  }

  /** A string without an occurrence of the search string is returned
      unchanged by `str_replace`. */
  lemma {:induction false} ReplaceAllNoOccurrence(s: string, pat: string, rep: string)
    requires !Occurs(s, pat)
    ensures ReplaceAll(s, pat, rep) == s
    decreases |s|
  {
    assert !OccursAt(s, pat, 0);
    if |pat| == 0 || |s| < |pat| {
    } else {
      assert s[..|pat|] != pat;
      forall i: nat | OccursAt(s[1..], pat, i) ensures false {
        assert s[i + 1..i + 1 + |pat|] == s[1..][i..i + |pat|];
        assert OccursAt(s, pat, i + 1);
      }
      ReplaceAllNoOccurrence(s[1..], pat, rep);
    }
  }

  /** Removing a non-empty search string that does occur makes the subject
      strictly shorter. */
  lemma {:induction false} ReplaceAllShrinks(s: string, pat: string)
    requires |pat| > 0 && Occurs(s, pat)
    ensures |ReplaceAll(s, pat, [])| < |s|
    decreases |s|
  {
    var i: nat :| OccursAt(s, pat, i);
    if s[..|pat|] == pat {
    } else {
      assert i != 0;
      assert s[1..][i - 1..i - 1 + |pat|] == s[i..i + |pat|];
      assert OccursAt(s[1..], pat, i - 1);
      ReplaceAllShrinks(s[1..], pat);
    }
  }

  /** Removing a non-empty search string leaves the subject unchanged exactly
      when the search string does not occur in it. */
  lemma ReplaceAllFixedIff(s: string, pat: string)
    requires |pat| > 0
    ensures ReplaceAll(s, pat, []) == s <==> !Occurs(s, pat)
  {
    if Occurs(s, pat) {
      ReplaceAllShrinks(s, pat);
    } else {
      ReplaceAllNoOccurrence(s, pat, []);
    }
  }

  /** Where no occurrence starts, the first character is kept and the scan
      moves on by one. */
  lemma ReplaceAllSkips(s: string, pat: string, rep: string)
    requires |pat| > 0 && |s| >= |pat| && s[..|pat|] != pat
    ensures ReplaceAll(s, pat, rep) == [s[0]] + ReplaceAll(s[1..], pat, rep)
  {
  }

  /** An occurrence at the very start is replaced, and the scan resumes
      right after it. */
  lemma ReplaceAllLeading(pat: string, t: string, rep: string)
    requires |pat| > 0
    ensures ReplaceAll(pat + t, pat, rep) == rep + ReplaceAll(t, pat, rep)
  {
    assert (pat + t)[..|pat|] == pat;
    assert (pat + t)[|pat|..] == t;
  }

  /** An occurrence in the tail `s[1..]` is an occurrence in `s` one place
      further on, and conversely. */
  lemma OccursAtTail(s: string, pat: string, j: nat)
    requires |s| > 0
    ensures OccursAt(s[1..], pat, j) <==> OccursAt(s, pat, j + 1)
  {
    if j + 1 + |pat| <= |s| {
      assert s[1..][j..j + |pat|] == s[j + 1..j + 1 + |pat|];
    }
  }

  /** Putting the first character back in front of a prefix of the tail. */
  lemma ConsPrefix(s: string, i: nat, x: string, y: string)
    requires 0 < i <= |s|
    ensures [s[0]] + (s[1..][..i - 1] + x + y) == s[..i] + x + y
  {
    assert [s[0]] + s[1..][..i - 1] == s[..i];
  }

  /** If the leftmost occurrence in `s` starts at `i > 0`, none starts at 0
      and the leftmost occurrence in `s[1..]` starts at `i - 1`. */
  lemma LeftmostInTail(s: string, pat: string, i: nat)
    requires |pat| > 0 && 0 < i && OccursAt(s, pat, i)
    requires forall j: nat :: j < i ==> !OccursAt(s, pat, j)
    ensures |s| >= |pat| && s[..|pat|] != pat
    ensures OccursAt(s[1..], pat, i - 1)
    ensures forall j: nat :: j < i - 1 ==> !OccursAt(s[1..], pat, j)
  {
    assert !OccursAt(s, pat, 0);
    OccursAtTail(s, pat, i - 1);
    forall j: nat | j < i - 1 ensures !OccursAt(s[1..], pat, j) {
      OccursAtTail(s, pat, j);
    }
  }

  /** The leftmost occurrence, wherever it starts, is replaced: everything
      before it is copied, `rep` takes its place, and the scan resumes right
      after it. */
  lemma {:induction false} ReplaceAllFirstOccurrence(s: string, pat: string, rep: string, i: nat)
    requires |pat| > 0 && OccursAt(s, pat, i)
    requires forall j: nat :: j < i ==> !OccursAt(s, pat, j)
    ensures ReplaceAll(s, pat, rep) == s[..i] + rep + ReplaceAll(s[i + |pat|..], pat, rep)
    decreases i
  {
    if i == 0 {
      assert s[..|pat|] == pat;
      assert s[..0] + rep == rep;
    } else {
      var t, rest := s[1..], s[i + |pat|..];
      LeftmostInTail(s, pat, i);
      ReplaceAllSkips(s, pat, rep);
      assert t[i - 1 + |pat|..] == rest;
      ReplaceAllFirstOccurrence(t, pat, rep, i - 1);
      assert ReplaceAll(t, pat, rep) == t[..i - 1] + rep + ReplaceAll(rest, pat, rep);
      ConsPrefix(s, i, rep, ReplaceAll(rest, pat, rep));
    }
  }
}
