/** String operations the filter uses on record fields, written out over
    `seq<char>`: substring search (`str::contains`), splitting on a character
    (`str::split`, `str::split_once`) and deleting every occurrence of a
    character (`str::replace(c, "")`). */
module Text {

  import opened Wrappers

  /** True when `pat` occurs in `s` starting at index `i`. */
  predicate OccursAt(s: string, pat: string, i: nat)
  {
    i + |pat| <= |s| && s[i..i + |pat|] == pat
  }

  /** Substring search, scanning `s` from the left (the empty pattern occurs
      everywhere, as with `str::contains("")`). */
  predicate Contains(s: string, pat: string)
    decreases |s|
  {
    |pat| <= |s| && (s[..|pat|] == pat || (|s| > 0 && Contains(s[1..], pat)))
  }

  /** The scan agrees with the declarative definition: some index is the start
      of an occurrence. */
  lemma {:induction false} ContainsIff(s: string, pat: string)
    ensures Contains(s, pat) <==> exists i: nat :: OccursAt(s, pat, i)
    decreases |s|
  {
    if Contains(s, pat) {
      if s[..|pat|] == pat {
        assert OccursAt(s, pat, 0);
      } else {
        ContainsIff(s[1..], pat);
        var i: nat :| OccursAt(s[1..], pat, i);
        assert s[1..][i..i + |pat|] == s[i + 1..i + 1 + |pat|];
        assert OccursAt(s, pat, i + 1);
      }
    } else {
      forall i: nat | OccursAt(s, pat, i)
        ensures false
      {
        if i > 0 {
          assert s[1..][i - 1..i - 1 + |pat|] == s[i..i + |pat|];
          assert OccursAt(s[1..], pat, i - 1);
          ContainsIff(s[1..], pat);
        }
      }
    }
  }

  /** A pattern that occurs in a piece of a string occurs in the whole. */
  lemma ContainsInConcat(a: string, b: string, pat: string)
    ensures Contains(b, pat) ==> Contains(a + b, pat)
  {
    if Contains(b, pat) {
      ContainsIff(b, pat);
      var i: nat :| OccursAt(b, pat, i);
      assert (a + b)[|a| + i..|a| + i + |pat|] == b[i..i + |pat|];
      assert OccursAt(a + b, pat, |a| + i);
      ContainsIff(a + b, pat);
    }
  }

  /** Index of the first occurrence of `c` in `s`. */
  function IndexOf(s: string, c: char): (i: nat)
    requires c in s
    ensures i < |s| && s[i] == c && c !in s[..i]
  {
    if s[0] == c then 0 else 1 + IndexOf(s[1..], c)
  }

  /** `str::split(sep)`: the pieces between occurrences of `sep`, from left to
      right. There is always at least one piece; the empty string gives `[""]`
      and a string that is only `sep` gives `["", ""]`. */
  function Split(s: string, sep: char): (parts: seq<string>)
    ensures |parts| >= 1
    ensures (|parts| > 1) <==> sep in s
    ensures parts[0] <= s && (|parts[0]| == |s| || s[|parts[0]|] == sep)
    ensures forall k :: 0 <= k < |parts| ==> sep !in parts[k]
    decreases |s|
  {
    if sep !in s then [s]
    else
      var i := IndexOf(s, sep);
      [s[..i]] + Split(s[i + 1..], sep)
  }

  /** Concatenation of `parts` with `sep` between neighbours (the inverse of
      `Split`). */
  function Join(parts: seq<string>, sep: char): string
  {
    if |parts| == 0 then ""
    else if |parts| == 1 then parts[0]
    else parts[0] + [sep] + Join(parts[1..], sep)
  }

  /** Splitting loses nothing: joining the pieces back gives the input. */
  lemma {:induction false} JoinSplit(s: string, sep: char)
    ensures Join(Split(s, sep), sep) == s
    decreases |s|
  {
    if sep in s {
      var i := IndexOf(s, sep);
      JoinSplit(s[i + 1..], sep);
      assert s == s[..i] + [sep] + s[i + 1..];
    }
  }

  /** `str::split_once(c)`: the text before and after the first `c`, or `None`
      when `s` has no `c`. */
  function SplitOnce(s: string, c: char): (r: Option<(string, string)>)
    ensures r.None? <==> c !in s
    ensures r.Some? ==> r.value.0 + [c] + r.value.1 == s && c !in r.value.0
  {
    if c !in s then None
    else
      var i := IndexOf(s, c);
      assert s == s[..i] + [c] + s[i + 1..];
      Some((s[..i], s[i + 1..]))
  }

  /** `str::replace(c, "")`: `s` with every `c` deleted and everything else
      kept, in order. */
  function RemoveAll(s: string, c: char): (r: string)
    ensures c !in r
    ensures c !in s ==> r == s
    decreases |s|
  {
    if |s| == 0 then ""
    else
      var tail := RemoveAll(s[1..], c);
      if s[0] == c then tail else [s[0]] + tail
  }

  /** Deleting `c` keeps every other character as often as it occurs. */
  lemma {:induction false} RemoveAllKeepsOthers(s: string, c: char)
    ensures forall x :: x != c ==> multiset(RemoveAll(s, c))[x] == multiset(s)[x]
    decreases |s|
  {
    if |s| > 0 {
      RemoveAllKeepsOthers(s[1..], c);
      assert s == [s[0]] + s[1..];
    }
  }

  /** `SplitOnce` splits at the first `c` and nowhere else. */
  lemma SplitOnceAt(a: string, c: char, b: string)
    requires c !in a
    ensures SplitOnce(a + [c] + b, c) == Some((a, b))
  {
    var s := a + [c] + b;
    var r := SplitOnce(s, c);
    var x := r.value.0;
    assert s[|x|] == c && s[|a|] == c;
    assert forall k :: 0 <= k < |a| ==> s[k] == a[k];
    assert forall k :: 0 <= k < |x| ==> s[k] == x[k];
    assert x == s[..|x|] == a;
    assert r.value.1 == s[|a| + 1..] == b;
  }

  /** Deleting a character commutes with concatenation, so what is kept stays
      in its original order. */
  lemma {:induction false} RemoveAllConcat(a: string, b: string, c: char)
    ensures RemoveAll(a + b, c) == RemoveAll(a, c) + RemoveAll(b, c)
    decreases |a|
  {
    if |a| > 0 {
      assert (a + b)[0] == a[0] && (a + b)[1..] == a[1..] + b;
      RemoveAllConcat(a[1..], b, c);
    } else {
      assert a + b == b;
    }
  }
}
