/**
  Python's `str.replace(old, new)` (no count argument) and its one use in the
  service: turning an `Authorization` header into a token by deleting every
  `"Bearer "` in it.
 */
module TextReplace {

  /** `pat in s`: `pat` occurs somewhere in `s`. */
  predicate Occurs(pat: string, s: string)
    decreases |s|
  {
    |pat| <= |s| && (s[..|pat|] == pat || Occurs(pat, s[1..]))
  }

  /**
    `s.replace(pat, rep)`: scanning left to right, each occurrence of `pat`
    is replaced by `rep` and the scan resumes after it, so occurrences do
    not overlap. A string in which `pat` does not occur comes back as it is.
   */
  function ReplaceAll(s: string, pat: string, rep: string): (r: string)
    requires pat != []
    ensures !Occurs(pat, s) ==> r == s
    decreases |s|
  {
    if |s| < |pat| then s
    else if s[..|pat|] == pat then rep + ReplaceAll(s[|pat|..], pat, rep)
    else [s[0]] + ReplaceAll(s[1..], pat, rep)
  }

  /** A string that does not contain the first character of `pat` does not contain `pat`. */
  lemma {:induction false} AbsentFirstChar(pat: string, s: string)
    requires pat != [] && pat[0] !in s
    ensures !Occurs(pat, s)
    decreases |s|
  {
    if |pat| <= |s| {
      assert s[..|pat|][0] == s[0];
      AbsentFirstChar(pat, s[1..]);
    }
  }

  /** An occurrence at the front is replaced and the scan goes on after it. */
  lemma ReplaceLeading(pat: string, rep: string, t: string)
    requires pat != []
    ensures ReplaceAll(pat + t, pat, rep) == rep + ReplaceAll(t, pat, rep)
  {
    assert (pat + t)[..|pat|] == pat;
    assert (pat + t)[|pat|..] == t;
  }

  /**
    A prefix free of `pat`'s first character is copied unchanged, so an
    occurrence after it is replaced just like a leading one.
   */
  lemma {:induction false} ReplaceAfterPlainPrefix(a: string, pat: string, rep: string, b: string)
    requires pat != [] && pat[0] !in a
    ensures ReplaceAll(a + b, pat, rep) == a + ReplaceAll(b, pat, rep)
    decreases |a|
  {
    if a != [] {
      var s := a + b;
      assert a[0] != pat[0];
      if |pat| <= |s| {
        assert s[..|pat|][0] == a[0];
        assert s[..|pat|] != pat;
        assert s[1..] == a[1..] + b;
        ReplaceAfterPlainPrefix(a[1..], pat, rep, b);
        calc {
          ReplaceAll(s, pat, rep);
          [s[0]] + ReplaceAll(a[1..] + b, pat, rep);
          [a[0]] + (a[1..] + ReplaceAll(b, pat, rep));
          { assert a == [a[0]] + a[1..]; }
          a + ReplaceAll(b, pat, rep);
        }
      } else {
        assert ReplaceAll(s, pat, rep) == s;
        assert |b| < |pat|;
        assert ReplaceAll(b, pat, rep) == b;
      }
    } else {
      assert a + b == b;
    }
  }

  /**
    When no occurrence of `pat` starts inside `a`, the scan copies `a`,
    replaces the occurrence right after it, and goes on with `b`.
   */
  lemma {:induction false} ReplaceFirstOccurrence(a: string, pat: string, rep: string, b: string)
    requires pat != []
    requires forall i :: 0 <= i < |a| ==> (a + pat + b)[i..][..|pat|] != pat
    ensures ReplaceAll(a + pat + b, pat, rep) == a + rep + ReplaceAll(b, pat, rep)
    decreases |a|
  {
    var s := a + pat + b;
    if a == [] {
      assert s == pat + b;
      ReplaceLeading(pat, rep, b);
    } else {
      assert s[0..] == s;
      assert s[..|pat|] != pat;
      var t := a[1..] + pat + b;
      assert s[1..] == t;
      forall i | 0 <= i < |a[1..]|
        ensures t[i..][..|pat|] != pat
      {
        assert t[i..] == s[i + 1..];
      }
      ReplaceFirstOccurrence(a[1..], pat, rep, b);
      calc {
        ReplaceAll(s, pat, rep);
        [s[0]] + ReplaceAll(t, pat, rep);
        [a[0]] + (a[1..] + rep + ReplaceAll(b, pat, rep));
        { assert a == [a[0]] + a[1..]; }
        a + rep + ReplaceAll(b, pat, rep);
      }
    }
  }

  /** A string in which `pat` occurs has a leftmost occurrence, at some `k`. */
  lemma {:induction false} LeftmostOccurrence(pat: string, s: string) returns (k: nat)
    requires Occurs(pat, s)
    ensures k + |pat| <= |s| && s[k..k + |pat|] == pat
    ensures forall i :: 0 <= i < k ==> s[i..][..|pat|] != pat
    decreases |s|
  {
    if s[..|pat|] == pat {
      k := 0;
    } else {
      var k' := LeftmostOccurrence(pat, s[1..]);
      k := k' + 1;
      assert s[k..k + |pat|] == s[1..][k'..k' + |pat|];
      forall i | 0 <= i < k
        ensures s[i..][..|pat|] != pat
      {
        if i > 0 {
          assert s[i..] == s[1..][i - 1..];
        }
      }
    }
  }

  /**
    Together with `ReplaceAll`'s own contract this says what `str.replace`
    does with every string: a string containing `pat` is cut at the leftmost
    occurrence, the part before it is kept, the occurrence becomes `rep`,
    and the rest is replaced in turn.
   */
  lemma ReplaceAtLeftmost(pat: string, rep: string, s: string) returns (k: nat)
    requires pat != [] && Occurs(pat, s)
    ensures k + |pat| <= |s| && s[k..k + |pat|] == pat
    ensures forall i :: 0 <= i < k ==> s[i..][..|pat|] != pat
    ensures ReplaceAll(s, pat, rep) == s[..k] + rep + ReplaceAll(s[k + |pat|..], pat, rep)
  {
    k := LeftmostOccurrence(pat, s);
    var a, b := s[..k], s[k + |pat|..];
    assert s == a + pat + b;
    ReplaceFirstOccurrence(a, pat, rep, b);
  }

  /** A string in which `pat` does not occur has no position where `pat` starts. */
  lemma {:induction false} NotOccursAt(pat: string, s: string, i: nat)
    requires !Occurs(pat, s) && i + |pat| <= |s|
    ensures s[i..][..|pat|] != pat
    decreases i
  {
    if i == 0 {
      assert s[0..] == s;
    } else {
      assert s[i..] == s[1..][i - 1..];
      NotOccursAt(pat, s[1..], i - 1);
    }
  }

  const Bearer: string := "Bearer "

  /** `authorization.replace("Bearer ", "")`. */
  function StripBearer(header: string): (token: string)
    ensures !Occurs(Bearer, header) ==> token == header
  {
    ReplaceAll(header, Bearer, "")
  }

  /** A header built as `"Bearer " + token` gives back the token, when the token has no `"Bearer "` in it. */
  lemma BearerRoundTrip(token: string)
    requires !Occurs(Bearer, token)
    ensures StripBearer(Bearer + token) == token
  {
    ReplaceLeading(Bearer, "", token);
  }

  /**
    Every occurrence is deleted, not only a leading one: a `"Bearer "` is
    removed wherever it is the first one in the header.
   */
  lemma StripBearerInside(a: string, b: string)
    requires !Occurs(Bearer, a + Bearer[..|Bearer| - 1])
    ensures StripBearer(a + Bearer + b) == a + StripBearer(b)
  {
    var c := a + Bearer[..|Bearer| - 1];
    var s := a + Bearer + b;
    forall i | 0 <= i < |a|
      ensures s[i..][..|Bearer|] != Bearer
    {
      NotOccursAt(Bearer, c, i);
      assert s[i..][..|Bearer|] == c[i..][..|Bearer|];
    }
    ReplaceFirstOccurrence(a, Bearer, "", b);
  }

  /**
    The deletion is one pass: deleting an inner `"Bearer "` can join the
    pieces around it into a new one, which stays.
   */
  lemma StripBearerSinglePass()
    ensures StripBearer("Be" + Bearer + "arer ") == Bearer
  {
    assert !Occurs(Bearer, "Be" + Bearer[..|Bearer| - 1]) by {
      var c := "Be" + Bearer[..|Bearer| - 1];
      assert c[..|Bearer|] != Bearer by { assert c[2] != Bearer[2]; }
      assert !Occurs(Bearer, c[1..]);
    }
    StripBearerInside("Be", "arer ");
  }
}
