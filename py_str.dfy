/** Python's built-in string operations as the chat manager uses them:
    `sub in s`, `any(...)` over a list of substrings, `str.lower`, `str.strip`,
    `str.split()` and `sep.join(...)`. */
module PyStr {

  // ------------------------------------------------------------------
  // Substring test
  // ------------------------------------------------------------------

  predicate StartsWith(s: string, prefix: string) {
    |prefix| <= |s| && s[..|prefix|] == prefix
  }

  /** Python's `sub in s`. */
  predicate Contains(s: string, sub: string) {
    exists i :: 0 <= i <= |s| && StartsWith(s[i..], sub)
  }

  /** Python's `any(sub in s for sub in subs)`, tried left to right. */
  function AnyIn(subs: seq<string>, s: string): (r: bool)
    ensures r <==> exists k :: 0 <= k < |subs| && Contains(s, subs[k])
  {
    if subs == [] then false
    else
      var rest := AnyIn(subs[1..], s);
      assert forall k :: 1 <= k < |subs| ==> subs[k] == subs[1..][k - 1];
      Contains(s, subs[0]) || rest
  }

  /** A witness for `Contains`. */
  lemma ContainsAt(s: string, sub: string, i: nat)
    requires i + |sub| <= |s| && s[i..i + |sub|] == sub
    ensures Contains(s, sub)
  {
    assert StartsWith(s[i..], sub);
  }

  /** Substring containment survives any text added around the container. */
  lemma ContainsWithin(a: string, s: string, b: string, sub: string)
    requires Contains(s, sub)
    ensures Contains(a + s + b, sub)
  {
    var i :| 0 <= i <= |s| && StartsWith(s[i..], sub);
    assert (a + s + b)[|a| + i..|a| + i + |sub|] == s[i..i + |sub|];
    ContainsAt(a + s + b, sub, |a| + i);
  }

  /** `s` has no occurrence of the character `c`. */
  predicate Avoids(s: string, c: char) {
    forall j :: 0 <= j < |s| ==> s[j] != c
  }

  /** `s` never holds `c` immediately followed by `d`. */
  predicate AvoidsPair(s: string, c: char, d: char) {
    forall j :: 0 <= j < |s| - 1 ==> !(s[j] == c && s[j + 1] == d)
  }

  lemma AvoidsAppend(a: string, b: string, c: char)
    requires Avoids(a, c) && Avoids(b, c)
    ensures Avoids(a + b, c)
  {
  }

  lemma AvoidsPairAppend(a: string, b: string, c: char, d: char)
    requires AvoidsPair(a, c, d) && AvoidsPair(b, c, d)
    requires a != [] && b != [] ==> !(a[|a| - 1] == c && b[0] == d)
    ensures AvoidsPair(a + b, c, d)
  {
    forall j | 0 <= j < |a + b| - 1
      ensures !((a + b)[j] == c && (a + b)[j + 1] == d)
    {
      if j < |a| - 1 {
        assert (a + b)[j] == a[j] && (a + b)[j + 1] == a[j + 1];
      } else if j == |a| - 1 {
        assert (a + b)[j] == a[|a| - 1] && (a + b)[j + 1] == b[0];
      } else {
        assert (a + b)[j] == b[j - |a|] && (a + b)[j + 1] == b[j - |a| + 1];
      }
    }
  }

  /** A string can only be contained where each of its characters occurs. */
  lemma NotContainedAvoiding(s: string, sub: string, k: nat)
    requires k < |sub| && Avoids(s, sub[k])
    ensures !Contains(s, sub)
  {
    forall i | 0 <= i <= |s| ensures !StartsWith(s[i..], sub) {
      if i + |sub| <= |s| {
        assert s[i..][k] == s[i + k];
      }
    }
  }

  /** A string can only be contained where each pair of its adjacent characters occurs. */
  lemma NotContainedAvoidingPair(s: string, sub: string, k: nat)
    requires k + 1 < |sub| && AvoidsPair(s, sub[k], sub[k + 1])
    ensures !Contains(s, sub)
  {
    forall i | 0 <= i <= |s| ensures !StartsWith(s[i..], sub) {
      if i + |sub| <= |s| {
        assert s[i..][k] == s[i + k] && s[i..][k + 1] == s[i + k + 1];
      }
    }
  }

  // ------------------------------------------------------------------
  // Case folding: `str.lower` restricted to ASCII
  // ------------------------------------------------------------------

  predicate IsUpper(c: char) {
    'A' <= c <= 'Z'
  }

  /** The ASCII lower-case form of one character. */
  function LowerChar(c: char): (r: char)
    ensures !IsUpper(r)
    ensures !IsUpper(c) ==> r == c
    ensures IsUpper(c) ==> r as int == c as int + 32
  {
    if IsUpper(c) then (c as int + 32) as char else c
  }

  /** Python's `s.lower()`, folding the ASCII capitals. */
  function Lower(s: string): string {
    seq(|s|, i requires 0 <= i < |s| => LowerChar(s[i]))
  }

  lemma LowerAppend(a: string, b: string)
    ensures Lower(a + b) == Lower(a) + Lower(b)
  {
    assert forall i :: 0 <= i < |a + b| ==> Lower(a + b)[i] == (Lower(a) + Lower(b))[i];
  }

  lemma LowerSlice(s: string, i: nat, j: nat)
    requires i <= j <= |s|
    ensures Lower(s)[i..j] == Lower(s[i..j])
  {
  }

  /** Lower-casing twice is lower-casing once. */
  lemma LowerIdempotent(s: string)
    ensures Lower(Lower(s)) == Lower(s)
  {
  }

  /** Lower-casing preserves containment. */
  lemma LowerContains(s: string, sub: string)
    requires Contains(s, sub)
    ensures Contains(Lower(s), Lower(sub))
  {
    var i :| 0 <= i <= |s| && StartsWith(s[i..], sub);
    LowerSlice(s, i, i + |sub|);
    ContainsAt(Lower(s), Lower(sub), i);
  }

  /** A string with an ASCII capital never occurs in lower-cased text. */
  lemma CapitalNeverContained(s: string, sub: string, k: nat)
    requires k < |sub| && IsUpper(sub[k])
    ensures !Contains(Lower(s), sub)
  {
    NotContainedAvoiding(Lower(s), sub, k);
  }

  // ------------------------------------------------------------------
  // Whitespace: `str.strip()` and `str.split()`
  // ------------------------------------------------------------------

  /** Python's `str.isspace` on one character. */
  predicate IsSpace(c: char) {
    || c == ' '
    || '\t' <= c <= '\r'
    || '\U{1C}' <= c <= '\U{1F}'
    || c == '\U{85}' || c == '\U{A0}' || c == '\U{1680}'
    || '\U{2000}' <= c <= '\U{200A}'
    || c == '\U{2028}' || c == '\U{2029}' || c == '\U{202F}' || c == '\U{205F}' || c == '\U{3000}'
  }

  predicate AllSpace(s: string) {
    forall i :: 0 <= i < |s| ==> IsSpace(s[i])
  }

  predicate NoSpace(s: string) {
    forall i :: 0 <= i < |s| ==> !IsSpace(s[i])
  }

  /** Python's `s.lstrip()`. */
  function TrimStart(s: string): (r: string)
    ensures |r| <= |s| && r == s[|s| - |r|..]
    ensures AllSpace(s[..|s| - |r|])
    ensures r != [] ==> !IsSpace(r[0])
    decreases |s|
  {
    if s != [] && IsSpace(s[0]) then
      var r := TrimStart(s[1..]);
      assert forall i :: 0 < i < |s| - |r| ==> s[i] == s[1..][..|s| - 1 - |r|][i - 1];
      r
    else s
  }

  /** Python's `s.rstrip()`. */
  function TrimEnd(s: string): (r: string)
    ensures |r| <= |s| && r == s[..|r|]
    ensures AllSpace(s[|r|..])
    ensures r != [] ==> !IsSpace(r[|r| - 1])
    decreases |s|
  {
    if s != [] && IsSpace(s[|s| - 1]) then
      var r := TrimEnd(s[..|s| - 1]);
      assert s[..|s| - 1][..|r|] == s[..|r|];
      assert s[|r|..] == s[..|s| - 1][|r|..] + [s[|s| - 1]];
      r
    else s
  }

  /** Python's `s.strip()`: `s` without its leading and trailing whitespace
      (`TrimStart` and `TrimEnd` say which characters go). */
  function Strip(s: string): (r: string)
    ensures |r| <= |s|
    ensures r == [] <==> AllSpace(s)
    ensures r != [] ==> !IsSpace(r[0]) && !IsSpace(r[|r| - 1])
  {
    var t := TrimStart(s);
    var r := TrimEnd(t);
    StripBlank(s, t, r, |s| - |t|);
    r
  }

  /** `strip()` keeps the slice of `s` between a leading and a trailing run
      of whitespace. */
  lemma StripIsSlice(s: string)
    ensures exists i, j :: 0 <= i <= j <= |s| && Strip(s) == s[i..j] && AllSpace(s[..i]) && AllSpace(s[j..])
  {
    var i, j := |s| - |TrimStart(s)|, |s| - |TrimStart(s)| + |Strip(s)|;
    assert 0 <= i <= j <= |s| && Strip(s) == s[i..j] && AllSpace(s[..i]) && AllSpace(s[j..]) by {
      StripTrims(s);
      TrimmedSlice(s, TrimStart(s), Strip(s), i, j);
    }
  }

  /** What `lstrip()` and then `rstrip()` cut off is whitespace. */
  lemma StripTrims(s: string)
    ensures var t, r := TrimStart(s), Strip(s);
      |t| <= |s| && t == s[|s| - |t|..] && AllSpace(s[..|s| - |t|])
      && |r| <= |t| && r == t[..|r|] && AllSpace(t[|r|..])
  {
    assert Strip(s) == TrimEnd(TrimStart(s));
  }

  /** A prefix `r` of a suffix `t` of `s`, cut at whitespace on both sides,
      is the slice `s[i..j]` between those two runs. */
  lemma TrimmedSlice(s: string, t: string, r: string, i: nat, j: nat)
    requires |t| <= |s| && t == s[|s| - |t|..] && AllSpace(s[..|s| - |t|])
    requires |r| <= |t| && r == t[..|r|] && AllSpace(t[|r|..])
    requires i == |s| - |t| && j == i + |r|
    ensures i <= j <= |s| && r == s[i..j] && AllSpace(s[..i]) && AllSpace(s[j..])
  {
    assert s[j..] == t[|r|..];
  }

  /** Each item followed by `suffix`, in order. */
  function EachFollowedBy(xs: seq<string>, suffix: string): (r: seq<string>)
    ensures |r| == |xs|
  {
    if xs == [] then [] else [xs[0] + suffix] + EachFollowedBy(xs[1..], suffix)
  }

  /** Item `i` of the result is item `i` of the input with the suffix after it. */
  lemma {:induction false} EachFollowedByAt(xs: seq<string>, suffix: string, i: nat)
    requires i < |xs|
    ensures EachFollowedBy(xs, suffix)[i] == xs[i] + suffix
  {
    if i > 0 {
      EachFollowedByAt(xs[1..], suffix, i - 1);
    }
  }

  /** Text with no whitespace at either end is its own `strip()`. */
  lemma StripKeeps(s: string)
    requires s != [] && !IsSpace(s[0]) && !IsSpace(s[|s| - 1])
    ensures Strip(s) == s
  {
    assert TrimStart(s) == s;
  }

  lemma StripBlank(s: string, t: string, r: string, i: nat)
    requires i <= |s| && t == s[i..] && |r| <= |t| && r == t[..|r|]
    requires AllSpace(s[..i]) && AllSpace(t[|r|..])
    requires t != [] ==> !IsSpace(t[0])
    requires r != [] ==> !IsSpace(r[|r| - 1])
    ensures r == [] <==> AllSpace(s)
    ensures r != [] ==> !IsSpace(r[0])
  {
    if r == [] {
      assert t[|r|..] == t;
      assert t == [];
      assert s[..i] == s;
    } else {
      assert s[i] == t[0] == r[0];
    }
  }

  /** The longest prefix of `s` that holds no whitespace. */
  function LeadingWord(s: string): (w: string)
    ensures StartsWith(s, w) && NoSpace(w)
    ensures |w| < |s| ==> IsSpace(s[|w|])
    decreases |s|
  {
    if s == [] || IsSpace(s[0]) then [] else [s[0]] + LeadingWord(s[1..])
  }

  /** Python's `s.split()`: the maximal runs of non-whitespace characters, in order. */
  function Split(s: string): (words: seq<string>)
    ensures forall k :: 0 <= k < |words| ==> words[k] != [] && NoSpace(words[k])
    decreases |s|
  {
    if s == [] then []
    else if IsSpace(s[0]) then Split(s[1..])
    else
      var w := LeadingWord(s);
      [w] + Split(s[|w|..])
  }

  /** Splitting stops a word at any whitespace character. */
  lemma {:induction false} LeadingWordStopsAtSpace(a: string, c: char, b: string)
    requires IsSpace(c)
    ensures LeadingWord(a + [c] + b) == LeadingWord(a)
    decreases |a|
  {
    if a == [] {
    } else if IsSpace(a[0]) {
    } else {
      assert (a + [c] + b)[1..] == a[1..] + [c] + b;
      LeadingWordStopsAtSpace(a[1..], c, b);
    }
  }

  /** A whitespace character separates the words on its two sides. */
  lemma {:induction false} SplitAtSpace(a: string, c: char, b: string)
    requires IsSpace(c)
    ensures Split(a + [c] + b) == Split(a) + Split(b)
    decreases |a|
  {
    var s := a + [c] + b;
    if a == [] {
      assert s[1..] == b;
    } else if IsSpace(a[0]) {
      assert s[0] == a[0] && s[1..] == a[1..] + [c] + b;
      SplitAtSpace(a[1..], c, b);
    } else {
      assert s[0] == a[0];
      var w := LeadingWord(a);
      assert LeadingWord(s) == w by {
        LeadingWordStopsAtSpace(a, c, b);
      }
      assert s[|w|..] == a[|w|..] + [c] + b;
      SplitAtSpace(a[|w|..], c, b);
    }
  }

  /** A non-empty run without whitespace splits into itself. */
  lemma {:induction false} SplitWord(w: string)
    requires w != [] && NoSpace(w)
    ensures Split(w) == [w]
  {
    LeadingWordWhole(w);
    assert w[|w|..] == [];
  }

  lemma {:induction false} LeadingWordWhole(w: string)
    requires NoSpace(w)
    ensures LeadingWord(w) == w
    decreases |w|
  {
    if w != [] {
      LeadingWordWhole(w[1..]);
    }
  }

  // ------------------------------------------------------------------
  // Joining
  // ------------------------------------------------------------------

  /** Python's `sep.join(xs)`. */
  function Join(sep: string, xs: seq<string>): string {
    if xs == [] then ""
    else if |xs| == 1 then xs[0]
    else xs[0] + sep + Join(sep, xs[1..])
  }

  /** Where `xs[j]` starts inside `Join(sep, xs)`. */
  function JoinOffset(sep: string, xs: seq<string>, j: nat): nat
    requires j < |xs|
  {
    if j == 0 then 0 else |xs[0]| + |sep| + JoinOffset(sep, xs[1..], j - 1)
  }

  /** In `Join(sep, xs)`, item `j` sits at its offset; when another item
      follows, exactly `sep` lies between the two, and otherwise the joined
      text ends there. */
  predicate JoinPlaced(sep: string, xs: seq<string>, j: nat)
    requires j < |xs|
  {
    var o := JoinOffset(sep, xs, j);
    && o + |xs[j]| <= |Join(sep, xs)|
    && Join(sep, xs)[o..o + |xs[j]|] == xs[j]
    && (j + 1 < |xs| ==>
          && JoinOffset(sep, xs, j + 1) == o + |xs[j]| + |sep|
          && o + |xs[j]| + |sep| <= |Join(sep, xs)|
          && Join(sep, xs)[o + |xs[j]|..o + |xs[j]| + |sep|] == sep)
    && (j + 1 == |xs| ==> o + |xs[j]| == |Join(sep, xs)|)
  }

  /** An item placed in the join of the tail is placed, moved by the head
      and its separator, in the whole join. */
  lemma JoinPlacedStep(sep: string, xs: seq<string>, j: nat)
    requires 0 < j < |xs| && JoinPlaced(sep, xs[1..], j - 1)
    ensures JoinPlaced(sep, xs, j)
  {
    var head, tail := xs[0] + sep, Join(sep, xs[1..]);
    assert Join(sep, xs) == head + tail;
    var o', n := JoinOffset(sep, xs[1..], j - 1), |xs[j]|;
    assert JoinOffset(sep, xs, j) == |head| + o';
    assert xs[1..][j - 1] == xs[j];
    WindowAfter(head, tail, o', o' + n);
    if j + 1 < |xs| {
      assert JoinOffset(sep, xs, j + 1) == |head| + JoinOffset(sep, xs[1..], j);
      WindowAfter(head, tail, o' + n, o' + n + |sep|);
    }
  }

  /** `Join` lays the items out in order. */
  lemma {:induction false} JoinLayout(sep: string, xs: seq<string>, j: nat)
    requires j < |xs|
    ensures JoinPlaced(sep, xs, j)
  {
    if j > 0 {
      JoinLayout(sep, xs[1..], j - 1);
      JoinPlacedStep(sep, xs, j);
    } else if |xs| > 1 {
      assert Join(sep, xs) == xs[0] + sep + Join(sep, xs[1..]);
    }
  }

  /** No non-empty piece occurs in the empty string. */
  lemma NoneInEmpty(subs: seq<string>)
    requires forall k :: 0 <= k < |subs| ==> subs[k] != []
    ensures !AnyIn(subs, [])
  {
    forall k | 0 <= k < |subs| ensures !Contains([], subs[k]) {
      assert |subs[k]| > 0;
    }
  }

  /** A window of `a` is the same window of `a + t`. */
  lemma WindowBefore(a: string, t: string, x: nat, y: nat)
    requires x <= y <= |a|
    ensures (a + t)[x..y] == a[x..y]
  {
    forall i | 0 <= i < y - x ensures (a + t)[x..y][i] == a[x..y][i] {
      assert (a + t)[x + i] == a[x + i];
    }
  }

  /** A window of `t` is the same window of `a + t`, moved by `|a|`. */
  lemma WindowAfter(a: string, t: string, x: nat, y: nat)
    requires x <= y <= |t|
    ensures (a + t)[|a| + x..|a| + y] == t[x..y]
  {
    forall i | 0 <= i < y - x ensures (a + t)[|a| + x..|a| + y][i] == t[x..y][i] {
      assert (a + t)[|a| + x + i] == t[x + i];
    }
  }

  /** A window of a window of `s` is a window of `s`. */
  lemma WindowOfWindow(s: string, lo: nat, hi: nat, x: nat, y: nat)
    requires lo <= hi <= |s| && x <= y <= hi - lo
    ensures s[lo..hi][x..y] == s[lo + x..lo + y]
  {
    forall t | 0 <= t < y - x ensures s[lo..hi][x..y][t] == s[lo + x..lo + y][t] {
      assert s[lo..hi][x + t] == s[lo + x + t];
    }
  }

  /** Concatenation of a list of strings (what a streamed reply adds up to). */
  function Concat(xs: seq<string>): string {
    if xs == [] then "" else xs[0] + Concat(xs[1..])
  }
}
