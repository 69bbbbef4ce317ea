/**
 * The string building blocks graph.cpp relies on: appending `item + sep` in a
 * loop, cutting the last three characters off with `substr`, and reading a
 * stream line by line or up to a delimiter with `getline`.
 */
module Text {

  /** `s.substr(0, s.length() - 3)`.  The length is an unsigned size, so for
      a string shorter than three characters the count wraps around and the
      whole string is kept. */
  function Trim3(s: string): (r: string)
    ensures r <= s && |r| == if |s| >= 3 then |s| - 3 else |s|
  {
    if |s| >= 3 then s[..|s| - 3] else s
  }

  /** Every item followed by `sep`: what `result += item + sep` builds. */
  function Suffixed(xs: seq<string>, sep: string): string
  {
    if xs == [] then "" else Suffixed(xs[..|xs| - 1], sep) + xs[|xs| - 1] + sep
  }

  /** Appending one more item and separator. */
  lemma SuffixedSnoc(xs: seq<string>, x: string, sep: string)
    ensures Suffixed(xs + [x], sep) == Suffixed(xs, sep) + x + sep
  {
    assert (xs + [x])[..|xs|] == xs;
  }

  /** The items with `sep` between consecutive ones. */
  function Interleaved(xs: seq<string>, sep: string): string
  {
    if xs == [] then ""
    else if |xs| == 1 then xs[0]
    else Interleaved(xs[..|xs| - 1], sep) + sep + xs[|xs| - 1]
  }

  lemma {:induction false} SuffixedInterleaved(xs: seq<string>, sep: string)
    requires xs != []
    ensures Suffixed(xs, sep) == Interleaved(xs, sep) + sep
  {
    if |xs| > 1 {
      var init := xs[..|xs| - 1];
      SuffixedInterleaved(init, sep);
      assert Suffixed(xs, sep) == Interleaved(init, sep) + sep + xs[|xs| - 1] + sep;
    } else {
      assert xs[..0] == [];
    }
  }

  /** Cutting three characters off a list built with a four-character
      separator leaves the separated items followed by the separator's first
      character: for " -> " and " <- " one trailing space. */
  lemma TrimmedList(xs: seq<string>, sep: string)
    requires |sep| == 4
    ensures xs == [] ==> Trim3(Suffixed(xs, sep)) == ""
    ensures xs != [] ==> Trim3(Suffixed(xs, sep)) == Interleaved(xs, sep) + [sep[0]]
  {
    if xs != [] {
      SuffixedInterleaved(xs, sep);
      var t := Interleaved(xs, sep);
      assert (t + sep)[..|t + sep| - 3] == t + [sep[0]];
    }
  }

  /** Dropping the last element, then the first, or the other way round. */
  lemma InitTail<T>(xs: seq<T>)
    requires |xs| > 1
    ensures xs[..|xs| - 1][0] == xs[0]
    ensures xs[..|xs| - 1][1..] == xs[1..][..|xs| - 2]
    ensures xs[1..][|xs| - 2] == xs[|xs| - 1]
  {
  }

  /** Concatenation is associative. */
  lemma Assoc<T>(a: seq<T>, b: seq<T>, c: seq<T>)
    ensures a + (b + c) == a + b + c
  {
  }

  /** Concatenation is associative, for five parts. */
  lemma Regroup<T>(a: seq<T>, b: seq<T>, c: seq<T>, d: seq<T>, e: seq<T>)
    ensures a + b + (c + d + e) == a + b + c + d + e
  {
  }

  /** Suffixed, read from the front. */
  lemma {:induction false} SuffixedCons(xs: seq<string>, sep: string)
    requires xs != []
    ensures Suffixed(xs, sep) == xs[0] + sep + Suffixed(xs[1..], sep)
    decreases |xs|
  {
    if |xs| > 1 {
      var init := xs[..|xs| - 1];
      SuffixedCons(init, sep);
      InitTail(xs);
      assert Suffixed(xs[1..], sep) == Suffixed(init[1..], sep) + xs[|xs| - 1] + sep;
      Regroup(xs[0], sep, Suffixed(init[1..], sep), xs[|xs| - 1], sep);
    } else {
      assert xs[..0] == [] && xs[1..] == [];
    }
  }

  /** Position of the first `c` in `s`. */
  function FirstIndex(s: string, c: char): (i: nat)
    requires c in s
    ensures i < |s| && s[i] == c
  {
    if s[0] == c then 0 else 1 + FirstIndex(s[1..], c)
  }

  /** No `c` comes before the first one. */
  lemma {:induction false} FirstIndexFirst(s: string, c: char)
    requires c in s
    ensures c !in s[..FirstIndex(s, c)]
  {
    if s[0] != c {
      FirstIndexFirst(s[1..], c);
      assert s[..FirstIndex(s, c)] == [s[0]] + s[1..][..FirstIndex(s[1..], c)];
    }
  }

  lemma FirstIndexOf(a: string, c: char, b: string)
    requires c !in a
    ensures FirstIndex(a + [c] + b, c) == |a|
  {
    var s := a + [c] + b;
    assert s[|a|] == c;
    FirstIndexFirst(s, c);
    assert forall k :: 0 <= k < |a| ==> s[k] == a[k];
    assert forall k :: |a| < k <= |s| ==> s[..k][|a|] == c;
  }

  /** `getline(stream, out, c)` on the rest of a stream: the text up to the
      first `c`, and what follows it (nothing is left when there is no `c`). */
  function SplitAt(s: string, c: char): (string, string)
  {
    if c in s then
      var i := FirstIndex(s, c);
      (s[..i], s[i + 1..])
    else (s, "")
  }

  /** The two parts around the first `c`, or the whole text when there is none. */
  lemma SplitAtParts(s: string, c: char)
    ensures c in s ==> SplitAt(s, c).0 + [c] + SplitAt(s, c).1 == s && c !in SplitAt(s, c).0
    ensures c !in s ==> SplitAt(s, c) == (s, "")
  {
    if c in s {
      var i := FirstIndex(s, c);
      FirstIndexFirst(s, c);
      assert s == s[..i] + [c] + s[i + 1..];
    }
  }

  /** A text built by `+= item + sep` starts with its first item and the
      separator and ends with the separator. */
  lemma SuffixedEnds(xs: seq<string>, sep: string)
    requires xs != [] && sep != []
    ensures xs[0] + sep <= Suffixed(xs, sep)
    ensures Suffixed(xs, sep)[|Suffixed(xs, sep)| - 1] == sep[|sep| - 1]
  {
    SuffixedCons(xs, sep);
    var t := Suffixed(xs, sep);
    assert t == Suffixed(xs[..|xs| - 1], sep) + xs[|xs| - 1] + sep;
    assert t == (xs[0] + sep) + Suffixed(xs[1..], sep);
  }

  /** The text cut at every newline: the lines of a file, the last one being
      what follows the final newline (empty for a file that ends in one). */
  function SplitLines(s: string): (r: seq<string>)
    ensures |r| >= 1
    decreases |s|
  {
    if '\n' in s then
      var i := FirstIndex(s, '\n');
      [s[..i]] + SplitLines(s[i + 1..])
    else [s]
  }

  /** The head, then the tail followed by one more element. */
  lemma ConsSnoc<T>(xs: seq<T>, y: T)
    requires xs != []
    ensures [xs[0]] + (xs[1..] + [y]) == xs + [y]
  {
  }

  /** A line without a newline, then a newline, is the first line. */
  lemma SplitLinesCons(a: string, rest: string)
    requires '\n' !in a
    ensures SplitLines(a + "\n" + rest) == [a] + SplitLines(rest)
  {
    var s := a + "\n" + rest;
    FirstIndexOf(a, '\n', rest);
    assert s[..|a|] == a;
    assert s[|a| + 1..] == rest;
  }

  /** The lines of a text made of newline-terminated lines are those lines,
      followed by the empty remainder. */
  lemma {:induction false} SplitLinesOfSuffixed(ls: seq<string>)
    requires forall k :: 0 <= k < |ls| ==> '\n' !in ls[k]
    ensures SplitLines(Suffixed(ls, "\n")) == ls + [""]
    decreases |ls|
  {
    if ls == [] {
      assert Suffixed(ls, "\n") == "";
    } else {
      SuffixedCons(ls, "\n");
      SplitLinesCons(ls[0], Suffixed(ls[1..], "\n"));
      SplitLinesOfSuffixed(ls[1..]);
      ConsSnoc(ls, "");
    }
  }

  /** Splitting at the first `c` undoes joining with `c` when the first part
      holds no `c`. */
  lemma SplitAtJoin(a: string, c: char, b: string)
    requires c !in a
    ensures SplitAt(a + [c] + b, c) == (a, b)
  {
    var s := a + [c] + b;
    FirstIndexOf(a, c, b);
    assert s[..|a|] == a && s[|a| + 1..] == b;
  }
}
