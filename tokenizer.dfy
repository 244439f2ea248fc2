/** `strtok` of src/main.rs and the loops that use it to cut the input into
    rows and each row into fields. */
module Tokenizer {
  import opened Util
  import opened Text

  /** The first occurrence of `d` in `s` at or after `from`. */
  function FindFrom(s: string, d: string, from: nat): (r: Option<nat>)
    requires |d| > 0
    ensures r.Some? ==> from <= r.value && OccursAt(s, d, r.value)
    ensures r.Some? ==> forall j :: from <= j < r.value ==> !OccursAt(s, d, j)
    ensures r.None? ==> forall j :: from <= j ==> !OccursAt(s, d, j)
    decreases |s| - from
  {
    if from + |d| > |s| then None
    else if s[from..from + |d|] == d then Some(from)
    else FindFrom(s, d, from + 1)
  }

  /** `str::find`: the first position where `d` occurs, if any. */
  function Find(s: string, d: string): (r: Option<nat>)
    requires |d| > 0
    ensures r.Some? ==> OccursAt(s, d, r.value)
    ensures r.Some? ==> forall j :: 0 <= j < r.value ==> !OccursAt(s, d, j)
    ensures r.None? ==> forall j :: !OccursAt(s, d, j)
  {
    FindFrom(s, d, 0)
  }

  /** An occurrence inside a prefix is an occurrence in the whole string. */
  lemma OccursInPrefix(s: string, d: string, i: nat, j: int)
    requires i <= |s| && OccursAt(s[..i], d, j)
    ensures OccursAt(s, d, j) && j + |d| <= i
  {
    assert s[..i][j..j + |d|] == s[j..j + |d|];
  }

  /** `strtok(s, d)` as the pair (returned prefix, new value of `s`): cut at
      the first delimiter, or take everything when there is none. */
  function Strtok(s: string, d: string): (r: (string, string))
    requires |d| > 0
    ensures Find(s, d).Some? ==> r.0 + d + r.1 == s
    ensures Find(s, d).None? ==> r.0 == s && r.1 == ""
    ensures forall j :: !OccursAt(r.0, d, j)
    ensures |s| > 0 ==> |r.1| < |s|
  {
    match Find(s, d)
    case Some(i) =>
      var prefix := s[..i];
      var suffix := s[i + |d|..];
      assert prefix + d + suffix == s by {
        assert s[i..i + |d|] == d;
        assert s == s[..i] + s[i..i + |d|] + s[i + |d|..];
      }
      assert forall j :: !OccursAt(prefix, d, j) by {
        forall j | OccursAt(prefix, d, j) ensures false {
          OccursInPrefix(s, d, i, j);
        }
      }
      (prefix, suffix)
    case None => (s, "")
  }

  /** What the loop `while row.len() > 0 { v.push(strtok(&mut row, d)) }`
      collects. */
  function Tokens(s: string, d: string): seq<string>
    requires |d| > 0
    decreases |s|
  {
    if |s| == 0 then [] else [Strtok(s, d).0] + Tokens(Strtok(s, d).1, d)
  }

  /** The loop of src/main.rs:64-66 (and the one of lines 60-62). */
  method SplitRow(row: string, d: string) returns (fields: seq<string>)
    requires |d| > 0
    ensures fields == Tokens(row, d)
  {
    fields := [];
    var rest := row;
    while |rest| > 0
      invariant fields + Tokens(rest, d) == Tokens(row, d)
      decreases |rest|
    {
      var prefix := Strtok(rest, d).0;
      rest := Strtok(rest, d).1;
      fields := fields + [prefix];
    }
  }

  /** No token contains the delimiter. */
  lemma {:induction false} TokensHaveNoDelimiter(s: string, d: string)
    requires |d| > 0
    ensures forall k, j :: 0 <= k < |Tokens(s, d)| ==> !OccursAt(Tokens(s, d)[k], d, j)
    decreases |s|
  {
    if |s| > 0 {
      TokensHaveNoDelimiter(Strtok(s, d).1, d);
    }
  }

  predicate EndsWith(s: string, d: string)
  {
    |d| <= |s| && s[|s| - |d|..] == d
  }

  /** For a one-character delimiter, joining the tokens with it gives back
      the input, up to a trailing delimiter the loop drops. */
  lemma {:induction false} TokensJoin(s: string, d: string)
    requires |d| == 1
    ensures Join(Tokens(s, d), d) + (if EndsWith(s, d) then d else "") == s
    decreases |s|
  {
    if |s| > 0 {
      if Find(s, d).None? {
        NoCutToken(s, d);
      } else {
        var r := Strtok(s, d).1;
        CutToken(s, d);
        if r != "" {
          TokensJoin(r, d);
          JoinCons(Strtok(s, d).0, Tokens(r, d), d);
        }
      }
    }
  }

  /** Without a delimiter the whole string is the one token. */
  lemma NoCutToken(s: string, d: string)
    requires |d| == 1 && |s| > 0 && Find(s, d).None?
    ensures Tokens(s, d) == [s] && !EndsWith(s, d)
  {
    assert !OccursAt(s, d, |s| - 1);
    assert Tokens("", d) == [];
  }

  /** With a delimiter the first token is cut off before it. */
  lemma CutToken(s: string, d: string)
    requires |d| == 1 && |s| > 0 && Find(s, d).Some?
    ensures var (p, r) := Strtok(s, d);
      s == p + d + r && Tokens(s, d) == [p] + Tokens(r, d) &&
      (r == "" ==> Tokens(r, d) == [] && EndsWith(s, d)) &&
      (r != "" ==> |Tokens(r, d)| > 0 && EndsWith(s, d) == EndsWith(r, d))
  {
    var (p, r) := Strtok(s, d);
    if r == "" {
      assert s[|s| - 1..] == d;
    } else {
      assert s[|s| - 1..] == r[|r| - 1..];
    }
  }

  lemma JoinCons(p: string, ts: seq<string>, d: string)
    requires |ts| > 0
    ensures Join([p] + ts, d) == p + d + Join(ts, d)
  {
    assert ([p] + ts)[1..] == ts;
  }
}
