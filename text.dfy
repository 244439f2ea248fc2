/** The few string operations of Rust's standard library the core relies on:
    `find`, `join` and `replace`, on `seq<char>`. */
module Text {

  /** `pat` occurs in `s` starting at position `i`. */
  predicate OccursAt(s: string, pat: string, i: int)
  {
    0 <= i && i + |pat| <= |s| && s[i..i + |pat|] == pat
  }

  /** `xs.join(sep)`: the strings of `xs` with `sep` between neighbours. */
  function Join(xs: seq<string>, sep: string): string
  {
    if |xs| == 0 then ""
    else if |xs| == 1 then xs[0]
    else xs[0] + sep + Join(xs[1..], sep)
  }

  /** Joining two non-empty lists puts one separator between their joins. */
  lemma {:induction false} JoinConcat(a: seq<string>, b: seq<string>, sep: string)
    requires |a| > 0 && |b| > 0
    ensures Join(a + b, sep) == Join(a, sep) + sep + Join(b, sep)
    decreases |a|
  {
    if |a| == 1 {
      assert (a + b)[1..] == b;
    } else {
      assert (a + b)[1..] == a[1..] + b;
      JoinConcat(a[1..], b, sep);
    }
  }

  /** `s.replace(pat, rep)`: every leftmost, non-overlapping occurrence of
      `pat` replaced by `rep`, scanning left to right. */
  function ReplaceAll(s: string, pat: string, rep: string): (r: string)
    requires |pat| > 0
    ensures |s| > 0 && |rep| > 0 ==> |r| > 0
    decreases |s|
  {
    if |s| < |pat| then s
    else if s[..|pat|] == pat then rep + ReplaceAll(s[|pat|..], pat, rep)
    else [s[0]] + ReplaceAll(s[1..], pat, rep)
  }

  /** Where `pat` does not occur, `replace` changes nothing. */
  lemma {:induction false} ReplaceAllAbsent(s: string, pat: string, rep: string)
    requires |pat| > 0 && forall i :: !OccursAt(s, pat, i)
    ensures ReplaceAll(s, pat, rep) == s
    decreases |s|
  {
    if |s| >= |pat| {
      assert !OccursAt(s, pat, 0);
      var t := s[1..];
      forall i ensures !OccursAt(t, pat, i) {
        if 0 <= i && i + |pat| <= |t| {
          assert t[i..i + |pat|] == s[i + 1..i + 1 + |pat|];
          assert !OccursAt(s, pat, i + 1);
        }
      }
      ReplaceAllAbsent(s[1..], pat, rep);
    }
  }

  /** `s` with every parenthesis deleted. */
  function Strip(s: string): (r: string)
    ensures forall k :: 0 <= k < |r| ==> r[k] != '(' && r[k] != ')'
  {
    if |s| == 0 then ""
    else (if s[0] == '(' || s[0] == ')' then "" else [s[0]]) + Strip(s[1..])
  }

  lemma {:induction false} StripConcat(a: string, b: string)
    ensures Strip(a + b) == Strip(a) + Strip(b)
    decreases |a|
  {
    if |a| > 0 {
      assert (a + b)[1..] == a[1..] + b;
      StripConcat(a[1..], b);
    } else {
      assert a + b == b;
    }
  }

  /** `s` holds no parenthesis. */
  predicate NoParens(s: string)
  {
    forall k :: 0 <= k < |s| ==> s[k] != '(' && s[k] != ')'
  }

  /** A string with no parenthesis is its own stripped form. */
  lemma {:induction false} StripNoParens(s: string)
    requires NoParens(s)
    ensures Strip(s) == s
    decreases |s|
  {
    if |s| > 0 {
      StripNoParens(s[1..]);
      assert s == [s[0]] + s[1..];
    }
  }

  /** Wrapping every occurrence of `pat` in parentheses deletes to the same
      text as the original. */
  lemma {:induction false} WrapKeepsStripped(s: string, pat: string)
    requires |pat| > 0
    ensures Strip(ReplaceAll(s, pat, "(" + pat + ")")) == Strip(s)
    decreases |s|
  {
    var rep := "(" + pat + ")";
    if |s| >= |pat| {
      if s[..|pat|] == pat {
        var rest := s[|pat|..];
        WrapKeepsStripped(rest, pat);
        StripConcat(rep, ReplaceAll(rest, pat, rep));
        assert rep == "(" + (pat + ")");
        StripConcat("(", pat + ")");
        StripConcat(pat, ")");
        assert Strip("(") == "" && Strip(")") == "";
        assert Strip(rep) == Strip(pat);
        assert s == pat + rest;
        StripConcat(pat, rest);
      } else {
        WrapKeepsStripped(s[1..], pat);
        StripConcat([s[0]], ReplaceAll(s[1..], pat, rep));
        assert s == [s[0]] + s[1..];
        StripConcat([s[0]], s[1..]);
      }
    }
  }

  /** An occurrence at the front is replaced and the scan resumes after it. */
  lemma ReplaceHit(pat: string, rest: string, rep: string)
    requires |pat| > 0
    ensures ReplaceAll(pat + rest, pat, rep) == rep + ReplaceAll(rest, pat, rep)
  {
    var s := pat + rest;
    assert s[..|pat|] == pat && s[|pat|..] == rest;
  }

  /** A character that cannot start an occurrence is copied. */
  lemma ReplaceMiss(c: char, rest: string, pat: string, rep: string)
    requires |pat| > 0
    requires c != pat[0] || (|pat| > 1 && |rest| > 0 && rest[0] != pat[1])
    ensures ReplaceAll([c] + rest, pat, rep) == [c] + ReplaceAll(rest, pat, rep)
  {
    var s := [c] + rest;
    assert s[1..] == rest;
    if |s| >= |pat| {
      assert s[..|pat|][0] == c;
      if c == pat[0] {
        assert s[..|pat|][1] == rest[0];
      }
      assert s[..|pat|] != pat;
    }
  }

  /** A stretch none of whose characters starts `pat` is copied. */
  lemma {:induction false} ReplaceSkip(a: string, rest: string, pat: string, rep: string)
    requires |pat| > 0 && forall k :: 0 <= k < |a| ==> a[k] != pat[0]
    ensures ReplaceAll(a + rest, pat, rep) == a + ReplaceAll(rest, pat, rep)
    decreases |a|
  {
    if |a| > 0 {
      assert a + rest == [a[0]] + (a[1..] + rest);
      ReplaceMiss(a[0], a[1..] + rest, pat, rep);
      ReplaceSkip(a[1..], rest, pat, rep);
      assert a == [a[0]] + a[1..];
    } else {
      assert a + rest == rest;
    }
  }
}
