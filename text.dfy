/**
 * The string primitives the tool relies on: Python's `str.strip`/`str.rstrip`,
 * substring search (`in`, `str.index`), `str.startswith`/`str.endswith`,
 * `"\n".join` and `str.splitlines`, on `string` (a sequence of code points).
 */
module Text {
  import opened Wrappers
  import opened Seqs

  /** A character Python's `str.isspace` accepts; `str.strip` and the `\s` of a
      `str` regular expression both use this set. */
  predicate IsSpace(c: char) {
    || ('\U{9}' <= c <= '\U{D}')
    || ('\U{1C}' <= c <= '\U{20}')
    || c == '\U{85}' || c == '\U{A0}' || c == '\U{1680}'
    || ('\U{2000}' <= c <= '\U{200A}')
    || c == '\U{2028}' || c == '\U{2029}' || c == '\U{202F}' || c == '\U{205F}'
    || c == '\U{3000}'
  }

  predicate AllSpace(s: string) {
    forall i :: 0 <= i < |s| ==> IsSpace(s[i])
  }

  /** `s` is its own trimmed form: empty, or not starting or ending with whitespace. */
  predicate Stripped(s: string) {
    s == [] || (!IsSpace(s[0]) && !IsSpace(s[|s| - 1]))
  }

  /** Python's `s.rstrip()`: the longest prefix of `s` that does not end in whitespace. */
  function TrimEnd(s: string): (r: string)
    ensures |r| <= |s| && r == s[..|r|]
    ensures forall i :: |r| <= i < |s| ==> IsSpace(s[i])
    ensures r == [] || !IsSpace(r[|r| - 1])
  {
    if s != [] && IsSpace(s[|s| - 1]) then TrimEnd(s[..|s| - 1]) else s
  }

  /** Python's `s.lstrip()`: the longest suffix of `s` that does not start with whitespace. */
  function TrimStart(s: string): (r: string)
    ensures |r| <= |s| && r == s[|s| - |r|..]
    ensures forall i :: 0 <= i < |s| - |r| ==> IsSpace(s[i])
    ensures r == [] || !IsSpace(r[0])
  {
    if s != [] && IsSpace(s[0]) then TrimStart(s[1..]) else s
  }

  /** Python's `s.strip()`. */
  function Trim(s: string): (r: string)
    ensures |r| <= |s| && Stripped(r)
  {
    TrimStart(TrimEnd(s))
  }

  /** `lstrip` removes only leading whitespace. */
  lemma TrimStartSplit(s: string) returns (lead: string)
    ensures s == lead + TrimStart(s) && AllSpace(lead)
  {
    lead := s[..|s| - |TrimStart(s)|];
    forall i | 0 <= i < |lead| ensures IsSpace(lead[i]) {
      assert lead[i] == s[i];
    }
  }

  /** `rstrip` removes only trailing whitespace. */
  lemma TrimEndSplit(s: string) returns (trail: string)
    ensures s == TrimEnd(s) + trail && AllSpace(trail)
  {
    trail := s[|TrimEnd(s)|..];
    forall i | 0 <= i < |trail| ensures IsSpace(trail[i]) {
      assert trail[i] == s[|TrimEnd(s)| + i];
    }
  }

  /** `s` is `Trim(s)` with whitespace on either side: `strip` only removes padding. */
  lemma TrimSplit(s: string) returns (lead: string, trail: string)
    ensures s == lead + Trim(s) + trail
    ensures AllSpace(lead) && AllSpace(trail)
  {
    trail := TrimEndSplit(s);
    lead := TrimStartSplit(TrimEnd(s));
  }

  /** Whatever whitespace surrounds a stripped core, `rstrip` gives back everything up to the core's end. */
  lemma TrimEndPadded(m: string, c: string)
    requires m == [] || !IsSpace(m[|m| - 1])
    requires AllSpace(c)
    ensures TrimEnd(m + c) == m
  {
    var s := m + c;
    var r := TrimEnd(s);
    if m != [] {
      assert s[|m| - 1] == m[|m| - 1];
    }
    if r != [] {
      assert r[|r| - 1] == s[|r| - 1];
    }
  }

  lemma TrimStartPadded(a: string, m: string)
    requires AllSpace(a)
    requires m == [] || !IsSpace(m[0])
    ensures TrimStart(a + m) == m
  {
    var s := a + m;
    var r := TrimStart(s);
    var k := |s| - |r|;
    if m != [] {
      assert s[|a|] == m[0];
    }
    if r != [] {
      assert r[0] == s[k];
    }
  }

  /** `strip` recovers a stripped core from any whitespace padding around it. */
  lemma TrimPadded(a: string, m: string, c: string)
    requires AllSpace(a) && AllSpace(c) && Stripped(m)
    ensures Trim(a + m + c) == m
  {
    if m == [] {
      assert a + m + c == [] + (a + c);
      TrimEndPadded([], a + c);
    } else {
      assert a + m + c == (a + m) + c;
      TrimEndPadded(a + m, c);
      TrimStartPadded(a, m);
    }
  }

  /** Stripping ignores surrounding whitespace: `(a + x + c).strip() == x.strip()`. */
  lemma TrimIgnoresPadding(a: string, x: string, c: string)
    requires AllSpace(a) && AllSpace(c)
    ensures Trim(a + x + c) == Trim(x)
  {
    var m := Trim(x);
    var lead, trail := TrimSplit(x);
    Regroup(a, lead, m, trail, c);
    AllSpaceConcat(a, lead);
    AllSpaceConcat(trail, c);
    TrimPadded(a + lead, m, trail + c);
  }

  lemma AllSpaceConcat(u: string, v: string)
    requires AllSpace(u) && AllSpace(v)
    ensures AllSpace(u + v)
  {
    forall i | 0 <= i < |u + v| ensures IsSpace((u + v)[i]) {
      if i >= |u| { assert (u + v)[i] == v[i - |u|]; }
    }
  }

  /** `strip` is idempotent. */
  lemma TrimIdempotent(s: string)
    ensures Trim(Trim(s)) == Trim(s)
  {
    var m := Trim(s);
    assert TrimEnd(m) == m;
    assert TrimStart(m) == m;
  }

  predicate StartsWith(s: string, prefix: string) {
    |prefix| <= |s| && s[..|prefix|] == prefix
  }

  predicate EndsWith(s: string, suffix: string) {
    |suffix| <= |s| && s[|s| - |suffix|..] == suffix
  }

  /** `pat` occurs in `s` starting at index `i`. */
  predicate OccursAt(s: string, pat: string, i: nat) {
    i + |pat| <= |s| && s[i..i + |pat|] == pat
  }

  /** `i` is the lowest index at which `pat` occurs in `s`. */
  predicate FirstAt(s: string, pat: string, i: nat) {
    OccursAt(s, pat, i) && forall j :: 0 <= j < i ==> !OccursAt(s, pat, j)
  }

  function IndexOfFrom(s: string, pat: string, from: nat): (r: Option<nat>)
    ensures r.Some? ==> from <= r.value && OccursAt(s, pat, r.value)
    ensures r.Some? ==> forall j :: from <= j < r.value ==> !OccursAt(s, pat, j)
    ensures r.None? ==> forall j :: from <= j ==> !OccursAt(s, pat, j)
    decreases |s| - from
  {
    if from + |pat| > |s| then None
    else if OccursAt(s, pat, from) then Some(from)
    else IndexOfFrom(s, pat, from + 1)
  }

  /** Python's `s.index(pat)` when `pat in s`, and None when it is not. */
  function IndexOf(s: string, pat: string): (r: Option<nat>)
    ensures r.Some? ==> FirstAt(s, pat, r.value)
    ensures r.None? ==> forall j: nat :: !OccursAt(s, pat, j)
  {
    IndexOfFrom(s, pat, 0)
  }

  /** Python's `pat in s`. */
  predicate Contains(s: string, pat: string) {
    IndexOf(s, pat).Some?
  }

  /** The first occurrence is unique, so any index with the first-occurrence property is the one `IndexOf` finds. */
  lemma FirstAtIsIndexOf(s: string, pat: string, i: nat)
    requires FirstAt(s, pat, i)
    ensures IndexOf(s, pat) == Some(i)
  {
    var r := IndexOf(s, pat);
    assert r.Some? && OccursAt(s, pat, r.value) && OccursAt(s, pat, i);
  }

  /** A slash-free head followed by "/" puts the first "/" right after the head. */
  lemma FirstSlash(head: string, tail: string)
    requires '/' !in head
    ensures IndexOf(head + "/" + tail, "/") == Some(|head|)
  {
    var s := head + "/" + tail;
    assert OccursAt(s, "/", |head|) by { assert s[|head|..|head| + 1] == "/"; }
    forall j | 0 <= j < |head| ensures !OccursAt(s, "/", j) {
      assert s[j..j + 1] == [head[j]];
    }
    FirstAtIsIndexOf(s, "/", |head|);
  }

  /** Python's `sep.join(xs)`: the elements in order, `sep` between each two, so
      the text opens with the first element and closes with the last. */
  function Join(xs: seq<string>, sep: string): (r: string)
    ensures xs == [] ==> r == ""
    ensures xs != [] ==> StartsWith(r, xs[0]) && EndsWith(r, xs[|xs| - 1])
  {
    if |xs| == 0 then ""
    else if |xs| == 1 then xs[0]
    else
      var j := Join(xs[1..], sep);
      var w := xs[|xs| - 1];
      assert (xs[0] + sep + j)[|xs[0] + sep + j| - |w|..] == j[|j| - |w|..];
      xs[0] + sep + j
  }

  /** A join of two or more elements is the first, the separator and the join of the rest. */
  lemma JoinCons(xs: seq<string>, sep: string)
    requires |xs| >= 2
    ensures Join(xs, sep) == xs[0] + sep + Join(xs[1..], sep)
  {
  }

  /** A text starts with any of its prefixes. */
  lemma StartsWithConcat(a: string, b: string)
    ensures StartsWith(a + b, a)
  {
    assert (a + b)[..|a|] == a;
  }

  /** Joining a sequence whose last element is empty leaves a trailing separator. */
  lemma {:induction false} JoinTrailingEmpty(xs: seq<string>, sep: string)
    requires xs != []
    ensures Join(xs + [""], sep) == Join(xs, sep) + sep
  {
    if |xs| > 1 {
      assert (xs + [""])[1..] == xs[1..] + [""];
      JoinTrailingEmpty(xs[1..], sep);
    }
  }

  /** A line boundary of Python's `str.splitlines`. */
  predicate IsLineBreak(c: char) {
    || c == '\n' || c == '\r' || c == '\U{B}' || c == '\U{C}'
    || ('\U{1C}' <= c <= '\U{1E}')
    || c == '\U{85}' || c == '\U{2028}' || c == '\U{2029}'
  }

  predicate NoLineBreak(s: string) {
    forall i :: 0 <= i < |s| ==> !IsLineBreak(s[i])
  }

  /** The index of the first line boundary at or after `i`, or `|s|` when there is none. */
  function LineEnd(s: string, i: nat): (r: nat)
    requires i <= |s|
    ensures i <= r <= |s|
    ensures NoLineBreak(s[i..r])
    ensures r < |s| ==> IsLineBreak(s[r])
    decreases |s| - i
  {
    if i == |s| || IsLineBreak(s[i]) then i else LineEnd(s, i + 1)
  }

  /** Python's `s.splitlines()`: the lines of `s` without their terminators, where
      "\r\n" is one terminator and a final terminator opens no further line. */
  function SplitLines(s: string): (r: seq<string>)
    ensures forall k :: 0 <= k < |r| ==> NoLineBreak(r[k])
    ensures s == [] <==> r == []
    decreases |s|
  {
    if s == [] then []
    else
      var i := LineEnd(s, 0);
      if i == |s| then [s]
      else
        var next := if s[i] == '\r' && i + 1 < |s| && s[i + 1] == '\n' then i + 2 else i + 1;
        [s[..i]] + SplitLines(s[next..])
  }

  /** Splitting undoes joining with "\n" and a final "\n", for lines free of boundaries. */
  lemma {:induction false} SplitJoinedLines(xs: seq<string>)
    requires xs != []
    requires forall k :: 0 <= k < |xs| ==> NoLineBreak(xs[k])
    ensures SplitLines(Join(xs, "\n") + "\n") == xs
  {
    var s := Join(xs, "\n") + "\n";
    var x := xs[0];
    var rest := if |xs| == 1 then [] else Join(xs[1..], "\n") + "\n";
    assert s == x + "\n" + rest;
    assert LineEnd(s, 0) == |x| by {
      assert s[..|x|] == x;
      LineEndPast(s, 0, |x|);
    }
    assert s[|x|] == '\n';
    assert s[..|x|] == x && s[|x| + 1..] == rest;
    if |xs| > 1 {
      SplitJoinedLines(xs[1..]);
    }
  }

  /** The "\n" that ends a text, if it ends in one. */
  function FinalNewline(s: string): string {
    if s != [] && s[|s| - 1] == '\n' then "\n" else ""
  }

  /** '\n' is the only line boundary in `s`. */
  predicate OnlyNewlineBreaks(s: string) {
    forall i :: 0 <= i < |s| && IsLineBreak(s[i]) ==> s[i] == '\n'
  }

  /** Joining the lines back with "\n" rebuilds a text whose only line boundary
      is '\n', up to a final "\n", which opens no further line. */
  lemma {:induction false} SplitLinesRejoin(s: string)
    requires OnlyNewlineBreaks(s)
    ensures Join(SplitLines(s), "\n") + FinalNewline(s) == s
    decreases |s|
  {
    if s != [] {
      if LineEnd(s, 0) == |s| {
        SingleLine(s);
      } else {
        var x, rest := FirstLine(s);
        if rest == [] {
          LastLine(x);
        } else {
          SplitLinesRejoin(rest);
          RejoinCons(x, rest, SplitLines(rest));
        }
      }
    }
  }

  /** A line and its final newline. */
  lemma LastLine(x: string)
    requires SplitLines(x + "\n") == [x]
    ensures Join(SplitLines(x + "\n"), "\n") + FinalNewline(x + "\n") == x + "\n"
  {
  }

  /** A text without a line boundary is one line, with no final newline. */
  lemma SingleLine(s: string)
    requires s != [] && LineEnd(s, 0) == |s|
    ensures SplitLines(s) == [s] && FinalNewline(s) == ""
  {
    assert s[0..|s|] == s;
    assert !IsLineBreak(s[|s| - 1]);
  }

  /** A text whose first boundary is '\n': its first line, then the lines of the rest. */
  lemma FirstLine(s: string) returns (x: string, rest: string)
    requires s != [] && LineEnd(s, 0) < |s| && OnlyNewlineBreaks(s)
    ensures s == x + "\n" + rest && SplitLines(s) == [x] + SplitLines(rest)
    ensures OnlyNewlineBreaks(rest)
  {
    var i := LineEnd(s, 0);
    x, rest := s[..i], s[i + 1..];
    SplitAround(s, i);
    forall j | 0 <= j < |rest| && IsLineBreak(rest[j]) ensures rest[j] == '\n' {
      assert rest[j] == s[i + 1 + j];
    }
  }

  /** One more line in front of a rebuilt text rebuilds the longer text. */
  lemma RejoinCons(x: string, rest: string, ls: seq<string>)
    requires rest != [] && ls != [] && Join(ls, "\n") + FinalNewline(rest) == rest
    ensures Join([x] + ls, "\n") + FinalNewline(x + "\n" + rest) == x + "\n" + rest
  {
    var j := Join(ls, "\n");
    JoinCons([x] + ls, "\n");
    assert ([x] + ls)[1..] == ls;
    var f := FinalNewline(rest);
    assert FinalNewline(x + "\n" + rest) == f by {
      var s := x + "\n" + rest;
      assert s[|s| - 1] == rest[|rest| - 1];
    }
    AppendAssoc(x + "\n", j, f);
  }

  /** `LineEnd` skips over a boundary-free stretch and stops at the boundary after it. */
  lemma {:induction false} LineEndPast(s: string, i: nat, k: nat)
    requires i <= k < |s|
    requires NoLineBreak(s[i..k]) && IsLineBreak(s[k])
    ensures LineEnd(s, i) == k
    decreases k - i
  {
    if i < k {
      assert s[i] == s[i..k][0];
      assert s[i + 1..k] == s[i..k][1..];
      LineEndPast(s, i + 1, k);
    }
  }

  /** The characters of a prefix `p + x + "\n"` of `s`, read off `s`. */
  lemma LineOf(s: string, p: string, x: string)
    requires StartsWith(s, p + x + "\n")
    ensures s[|p| + |x|] == '\n'
    ensures forall i :: |p| <= i < |p| + |x| ==> s[i] == x[i - |p|]
  {
    assert s[..|p + x + "\n"|] == p + x + "\n";
  }

  /** After a common prefix, the text up to the first newline is determined. */
  lemma SameFirstLine(s: string, p: string, a: string, b: string)
    requires StartsWith(s, p + a + "\n") && StartsWith(s, p + b + "\n")
    requires '\n' !in a && '\n' !in b
    ensures a == b
  {
    LineOf(s, p, a);
    LineOf(s, p, b);
    assert |a| == |b|;
    forall i | 0 <= i < |a| ensures a[i] == b[i] {
      assert s[|p| + i] == a[i];
    }
  }

  /** A text holding a non-whitespace character does not strip to nothing. */
  lemma NonSpaceSurvivesTrim(s: string, i: int)
    requires 0 <= i < |s| && !IsSpace(s[i])
    ensures Trim(s) != ""
  {
    var lead, trail := TrimSplit(s);
    AllSpaceConcat(lead, trail);
    ConcatEmpty(lead);
  }
}
