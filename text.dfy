/**
 * The JavaScript string operations the glossary front-end relies on:
 * `String.prototype.indexOf`, `String.prototype.replace` with a string
 * pattern (first occurrence only) and `Array.prototype.join`. This model of
 * `replace` inserts the replacement literally; the `$`-patterns JavaScript
 * expands in a replacement string (`$&`, `$$`, `` $` ``, `$'`) are not
 * modelled. `Split` is not used by the program; it is the
 * inverse against which `Join` is checked.
 */
module Text {
  import opened Wrappers

  /** `p` occurs in `s` starting at position `i`. */
  predicate OccursAt(s: string, p: string, i: int) {
    0 <= i && i + |p| <= |s| && s[i..i + |p|] == p
  }

  /** No occurrence of `p` in `s` starts before position `n`. */
  predicate NoOccurrenceBefore(s: string, p: string, n: int) {
    forall j :: 0 <= j < n ==> !OccursAt(s, p, j)
  }

  /** `p` occurs nowhere in `s`. */
  predicate Absent(s: string, p: string) {
    forall j :: 0 <= j <= |s| ==> !OccursAt(s, p, j)
  }

  /** The search of `indexOf`, resumed at position `k`. */
  function IndexOfFrom(s: string, p: string, k: nat): (r: Option<nat>)
    requires NoOccurrenceBefore(s, p, k)
    ensures r.Some? ==> k <= r.value && OccursAt(s, p, r.value) && NoOccurrenceBefore(s, p, r.value)
    ensures r.None? ==> Absent(s, p)
    decreases |s| - k
  {
    if k + |p| > |s| then None
    else if s[k..k + |p|] == p then Some(k)
    else IndexOfFrom(s, p, k + 1)
  }

  /** `s.indexOf(p)`: the first position at which `p` occurs (0 for the empty pattern). */
  function IndexOf(s: string, p: string): (r: Option<nat>)
    ensures r.Some? ==> OccursAt(s, p, r.value) && NoOccurrenceBefore(s, p, r.value)
    ensures r.None? <==> Absent(s, p)
  {
    IndexOfFrom(s, p, 0)
  }

  /**
   * `s.replace(p, v)` for a string pattern `p`: only the first occurrence
   * is replaced. The model inserts `v` literally, whereas JavaScript would
   * expand `$`-patterns in it.
   */
  function ReplaceFirst(s: string, p: string, v: string): (r: string)
    ensures Absent(s, p) ==> r == s
    ensures forall i :: OccursAt(s, p, i) && NoOccurrenceBefore(s, p, i) ==>
              r == s[..i] + v + s[i + |p|..]
  {
    match IndexOf(s, p)
    case None => s
    case Some(i) => s[..i] + v + s[i + |p|..]
  }

  /** A pattern at the very start of the string is the one replaced. */
  lemma ReplaceAtStart(s: string, p: string, v: string)
    requires OccursAt(s, p, 0)
    ensures ReplaceFirst(s, p, v) == v + s[|p|..]
  {
    assert NoOccurrenceBefore(s, p, 0);
    assert ReplaceFirst(s, p, v) == s[..0] + v + s[|p|..];
    assert s[..0] + v == v;
  }

  /** How the text after a replacement at `i` lines up with the text before it, past the replacement. */
  lemma AfterReplacement(s: string, p: string, v: string, i: nat, k: nat)
    requires i + |p| <= k <= |s|
    ensures var t := s[..i] + v + s[i + |p|..];
      var m := k - |p| + |v|;
      m <= |t| && t[..m] == s[..i] + v + s[i + |p|..k] && t[m..] == s[k..]
  {
    var prefix, u := s[..i] + v, s[i + |p|..];
    var d := k - (i + |p|);
    assert (prefix + u)[|prefix| + d..] == u[d..] == s[k..];
    assert (prefix + u)[..|prefix| + d] == prefix + u[..d];
    assert u[..d] == s[i + |p|..k];
  }

  /**
   * Two successive replacements of the same pattern fill its first two
   * occurrences, provided the first replacement did not itself create an
   * earlier occurrence (inside `v` or across its edges).
   */
  lemma ReplaceFirstTwice(s: string, p: string, v: string, w: string, i: nat, k: nat)
    requires OccursAt(s, p, i) && NoOccurrenceBefore(s, p, i)
    requires OccursAt(s, p, k) && i + |p| <= k
    requires NoOccurrenceBefore(s[..i] + v + s[i + |p|..], p, k - |p| + |v|)
    ensures ReplaceFirst(ReplaceFirst(s, p, v), p, w)
         == s[..i] + v + s[i + |p|..k] + w + s[k + |p|..]
  {
    var t := s[..i] + v + s[i + |p|..];
    var m := k - |p| + |v|;
    AfterReplacement(s, p, v, i, k);
    assert ReplaceFirst(s, p, v) == t;
    assert t[m..m + |p|] == t[m..][..|p|] == s[k..][..|p|] == s[k..k + |p|];
    assert OccursAt(t, p, m);
    assert t[m + |p|..] == t[m..][|p|..] == s[k..][|p|..] == s[k + |p|..];
    assert ReplaceFirst(t, p, w) == t[..m] + w + t[m + |p|..];
  }

  /** `xs.join(sep)`: the pieces in order, with `sep` between neighbours. */
  function Join(xs: seq<string>, sep: string): (r: string)
    ensures xs == [] ==> r == ""
    ensures |xs| >= 1 ==> |xs[0]| <= |r| && r[..|xs[0]|] == xs[0]
    ensures |xs| >= 1 ==> |xs[|xs| - 1]| <= |r| && r[|r| - |xs[|xs| - 1]|..] == xs[|xs| - 1]
    ensures |xs| >= 2 ==> |r| >= |xs[0]| + |sep| + |xs[|xs| - 1]| && r[|xs[0]|..|xs[0]| + |sep|] == sep
    decreases |xs|
  {
    if |xs| == 0 then ""
    else if |xs| == 1 then xs[0]
    else xs[0] + sep + Join(xs[1..], sep)
  }

  /**
   * With a non-empty separator the join is empty exactly for the empty list
   * and for a list holding one empty string.
   */
  lemma JoinEmptyIff(xs: seq<string>, sep: string)
    requires sep != ""
    ensures Join(xs, sep) == "" <==> xs == [] || xs == [""]
  {
    if |xs| >= 2 {
      assert |Join(xs, sep)| >= |sep|;
    }
  }

  /** `s.split(c)` for a one-character separator. */
  function Split(s: string, c: char): (r: seq<string>)
    ensures |r| >= 1
    decreases |s|
  {
    if s == [] then [""]
    else if s[0] == c then [""] + Split(s[1..], c)
    else
      var rest := Split(s[1..], c);
      [[s[0]] + rest[0]] + rest[1..]
  }

  lemma {:induction false} SplitNoSeparator(x: string, c: char)
    requires c !in x
    ensures Split(x, c) == [x]
    decreases |x|
  {
    if x != [] {
      assert x[0] != c && c !in x[1..];
      SplitNoSeparator(x[1..], c);
      assert [x[0]] + x[1..] == x;
    }
  }

  lemma {:induction false} SplitAtSeparator(x: string, c: char, rest: string)
    requires c !in x
    ensures Split(x + [c] + rest, c) == [x] + Split(rest, c)
    decreases |x|
  {
    if x == [] {
      assert x + [c] + rest == [c] + rest;
      assert ([c] + rest)[1..] == rest;
    } else {
      var y := x + [c] + rest;
      assert y[0] == x[0] && x[0] != c;
      assert y[1..] == x[1..] + [c] + rest;
      SplitAtSeparator(x[1..], c, rest);
      assert [x[0]] + x[1..] == x;
    }
  }

  /** Splitting a join on its separator gives back the pieces, when no piece holds it. */
  lemma {:induction false} SplitJoin(xs: seq<string>, c: char)
    requires |xs| >= 1
    requires forall k :: 0 <= k < |xs| ==> c !in xs[k]
    ensures Split(Join(xs, [c]), c) == xs
    decreases |xs|
  {
    if |xs| == 1 {
      SplitNoSeparator(xs[0], c);
    } else {
      SplitJoin(xs[1..], c);
      SplitAtSeparator(xs[0], c, Join(xs[1..], [c]));
      assert xs == [xs[0]] + xs[1..];
    }
  }
}
