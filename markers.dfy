/**
 * Splicing a generated block into README.md between two fixed marker
 * comments (`_replace_between_markers`).
 */
module Markers {
  import opened Wrappers
  import opened Text
  import opened Seqs

  const BeginMarker := "<!-- ZIKUU_NOTEBOOKS_LIST:BEGIN -->"
  const EndMarker := "<!-- ZIKUU_NOTEBOOKS_LIST:END -->"

  /** The two `RuntimeError`s the substitution raises. */
  datatype MarkerError =
    | MarkersMissing      // BEGIN or END does not occur in the text
    | MarkersOutOfOrder   // the first END starts before the first BEGIN has ended

  /** The text lacks the BEGIN marker or lacks the END marker. */
  ghost predicate MissingMarker(text: string) {
    (forall i: nat :: !OccursAt(text, BeginMarker, i)) || (forall i: nat :: !OccursAt(text, EndMarker, i))
  }

  /** Replaces everything between the end of the first BEGIN marker and the start
      of the first END marker by a newline and `block`. */
  function ReplaceBetweenMarkers(text: string, block: string): (r: Result<string, MarkerError>)
    ensures r == Failure(MarkersMissing) <==> MissingMarker(text)
    ensures r == Failure(MarkersOutOfOrder) <==>
      exists b: nat, e: nat :: FirstAt(text, BeginMarker, b) && FirstAt(text, EndMarker, e) && e < b + |BeginMarker|
    ensures forall b: nat, e: nat :: r.Success? && FirstAt(text, BeginMarker, b) && FirstAt(text, EndMarker, e) ==>
      && b + |BeginMarker| <= e
      && r.value == text[..b + |BeginMarker|] + "\n" + block + text[e..]
  {
    var begin := IndexOf(text, BeginMarker);
    var end := IndexOf(text, EndMarker);
    if begin.None? || end.None? then
      Failure(MarkersMissing)
    else
      var beginIdx := begin.value + |BeginMarker|;
      var endIdx := end.value;
      FirstAtUnique(text, BeginMarker);
      FirstAtUnique(text, EndMarker);
      if endIdx < beginIdx then Failure(MarkersOutOfOrder)
      else Success(text[..beginIdx] + "\n" + block + text[endIdx..])
  }

  /** Only one index is the first occurrence. */
  lemma FirstAtUnique(s: string, pat: string)
    ensures forall i: nat, j: nat :: FirstAt(s, pat, i) && FirstAt(s, pat, j) ==> i == j
  {
    forall i: nat, j: nat | FirstAt(s, pat, i) && FirstAt(s, pat, j) ensures i == j {
      FirstAtIsIndexOf(s, pat, i);
      FirstAtIsIndexOf(s, pat, j);
    }
  }

  /** Marker safety: on success, the text up to and including the first BEGIN
      marker and the text from the first END marker on are kept byte for byte,
      whatever the block holds; the block sits between them after one newline. */
  lemma ReplaceKeepsOutside(text: string, block: string, b: nat, e: nat)
    requires FirstAt(text, BeginMarker, b) && FirstAt(text, EndMarker, e)
    requires ReplaceBetweenMarkers(text, block).Success?
    ensures var r := ReplaceBetweenMarkers(text, block).value;
      && |r| == b + |BeginMarker| + 1 + |block| + (|text| - e)
      && r[..b + |BeginMarker|] == text[..b + |BeginMarker|]
      && r[|r| - (|text| - e)..] == text[e..]
      && r[b + |BeginMarker|..b + |BeginMarker| + 1 + |block|] == "\n" + block
  {
    var r := ReplaceBetweenMarkers(text, block).value;
    var p := b + |BeginMarker|;
    assert r == text[..p] + ("\n" + block) + text[e..];
  }

  /** The END marker holds '>' only as its last character. */
  lemma EndMarkerShape()
    ensures |EndMarker| == 33 && EndMarker[0] == '<'
    ensures forall k :: 0 <= k < |EndMarker| - 1 ==> EndMarker[k] != '>'
    ensures '\n' !in EndMarker
    ensures BeginMarker[|BeginMarker| - 1] == '>'
  {
  }

  /** With both first occurrences known and in order, the substitution succeeds with the splice. */
  lemma ReplaceAt(text: string, block: string, b: nat, e: nat)
    requires FirstAt(text, BeginMarker, b) && FirstAt(text, EndMarker, e) && b + |BeginMarker| <= e
    ensures ReplaceBetweenMarkers(text, block) == Success(text[..b + |BeginMarker|] + "\n" + block + text[e..])
  {
    FirstAtIsIndexOf(text, BeginMarker, b);
    FirstAtIsIndexOf(text, EndMarker, e);
  }

  /** In `pre + "\n" + block + post` the first occurrence of `pat` is the one that
      opens `post`, when `pre` and `block` hold none, `pat` cannot straddle the end
      of `pre` (it ends in '>', and `pat` holds '>' only last) and cannot straddle
      the newlines (`pat` holds none). */
  lemma SplicedFirst(pat: string, pre: string, block: string, post: string)
    requires pat != [] && '\n' !in pat
    requires forall k :: 0 <= k < |pat| - 1 ==> pat[k] != '>'
    requires pre != [] && pre[|pre| - 1] == '>'
    requires forall j: nat :: !OccursAt(pre, pat, j)
    requires forall j: nat :: !OccursAt(block, pat, j)
    requires block == [] || block[|block| - 1] == '\n'
    requires StartsWith(post, pat)
    ensures FirstAt(pre + "\n" + block + post, pat, |pre| + 1 + |block|)
  {
    var s := pre + "\n" + block + post;
    var q := |pre| + 1 + |block|;
    var n := |pat|;
    assert s[q..q + n] == post[..n];
    assert s[..|pre|] == pre && s[|pre| + 1..q] == block;
    assert s[|pre| - 1] == '>' && s[|pre|] == '\n' && s[q - 1] == '\n';
    assert forall k :: 0 <= k < n ==> pat[k] != '\n' by {
      forall k | 0 <= k < n ensures pat[k] != '\n' {
        assert pat[k] in pat;
      }
    }
    forall j: nat | j < q ensures !OccursAt(s, pat, j) {
      if j + n > |s| {
      } else if j + n <= |pre| {
        Inside(s, pre, pat, j, 0);
      } else if j < |pre| {
        Mismatch(s, pat, j, |pre| - 1);
      } else if j == |pre| {
        Mismatch(s, pat, j, j);
      } else if j + n <= q {
        Inside(s, block, pat, j, |pre| + 1);
      } else {
        Mismatch(s, pat, j, q - 1);
      }
    }
  }

  /** A window of `s` that lies inside a piece without `pat` holds no `pat`. */
  lemma Inside(s: string, piece: string, pat: string, j: nat, at: nat)
    requires at <= j && j + |pat| <= at + |piece| <= |s| && s[at..at + |piece|] == piece
    requires forall i: nat :: !OccursAt(piece, pat, i)
    ensures !OccursAt(s, pat, j)
  {
    var i := j - at;
    var w, v := s[j..j + |pat|], piece[i..i + |pat|];
    forall k | 0 <= k < |pat| ensures w[k] == v[k] {
      assert s[at..at + |piece|][i + k] == s[j + k];
    }
    assert s[j..j + |pat|] == piece[i..i + |pat|];
    assert !OccursAt(piece, pat, i);
  }

  /** A window of `s` with a character that `pat` does not have at that place holds no `pat`. */
  lemma Mismatch(s: string, pat: string, j: nat, k: nat)
    requires j <= k < j + |pat| <= |s| && s[k] != pat[k - j]
    ensures !OccursAt(s, pat, j)
  {
    assert s[j..j + |pat|][k - j] == s[k];
  }

  /** In the spliced text the first BEGIN marker is where it was. */
  lemma SplicedFirstBegin(text: string, b: nat, rest: string)
    requires FirstAt(text, BeginMarker, b)
    ensures FirstAt(text[..b + |BeginMarker|] + rest, BeginMarker, b)
  {
    var p := b + |BeginMarker|;
    var s := text[..p] + rest;
    assert s[b..p] == text[b..p];
    forall j: nat | j < b ensures !OccursAt(s, BeginMarker, j) {
      assert s[j..j + |BeginMarker|] == text[j..j + |BeginMarker|];
      assert !OccursAt(text, BeginMarker, j);
    }
  }

  /** No END marker lies wholly inside the text before the first END marker. */
  lemma NoEndBefore(text: string, e: nat, p: nat)
    requires FirstAt(text, EndMarker, e) && p <= e
    ensures forall j: nat :: !OccursAt(text[..p], EndMarker, j)
  {
    forall j: nat ensures !OccursAt(text[..p], EndMarker, j) {
      if j + |EndMarker| <= p {
        assert text[..p][j..j + |EndMarker|] == text[j..j + |EndMarker|];
        assert !OccursAt(text, EndMarker, j);
      }
    }
  }

  /** Splicing depends only on the newest block: substituting `first` and then
      `second` is the same as substituting `second` directly, when `first` holds
      no END marker and ends in a newline. With `first == second` this is the
      idempotence of the substitution. */
  lemma ReplaceTwice(text: string, first: string, second: string)
    requires ReplaceBetweenMarkers(text, first).Success?
    requires !Contains(first, EndMarker) && (first == [] || first[|first| - 1] == '\n')
    ensures ReplaceBetweenMarkers(ReplaceBetweenMarkers(text, first).value, second)
         == ReplaceBetweenMarkers(text, second)
  {
    var b := IndexOf(text, BeginMarker).value;
    var e := IndexOf(text, EndMarker).value;
    ReplaceAt(text, first, b, e);
    ReplaceAt(text, second, b, e);
    ReplaceSpliced(text, b, e, first, second);
  }

  /** A different block always changes the file: after splicing `first`, splicing
      any other block succeeds and gives a different text. */
  lemma ReplaceChanges(text: string, first: string, second: string)
    requires ReplaceBetweenMarkers(text, first).Success?
    requires !Contains(first, EndMarker) && (first == [] || first[|first| - 1] == '\n')
    requires first != second
    ensures var once := ReplaceBetweenMarkers(text, first).value;
      ReplaceBetweenMarkers(once, second).Success? && ReplaceBetweenMarkers(once, second).value != once
  {
    var b := IndexOf(text, BeginMarker).value;
    var e := IndexOf(text, EndMarker).value;
    ReplaceTwice(text, first, second);
    ReplaceAt(text, first, b, e);
    ReplaceAt(text, second, b, e);
    var pre, post := text[..b + |BeginMarker|] + "\n", text[e..];
    if pre + second + post == pre + first + post {
      CancelEnds(pre, second, first, post);
      assert false;
    }
  }

  /** Splicing into an already spliced text, written out at the first markers. */
  lemma ReplaceSpliced(text: string, b: nat, e: nat, first: string, second: string)
    requires FirstAt(text, BeginMarker, b) && FirstAt(text, EndMarker, e) && b + |BeginMarker| <= e
    requires !Contains(first, EndMarker) && (first == [] || first[|first| - 1] == '\n')
    ensures var p := b + |BeginMarker|;
      ReplaceBetweenMarkers(text[..p] + "\n" + first + text[e..], second)
        == Success(text[..p] + "\n" + second + text[e..])
  {
    var p := b + |BeginMarker|;
    var pre, post := text[..p], text[e..];
    var r := pre + "\n" + first + post;
    assert pre[|pre| - 1] == '>' by {
      assert pre[b..p] == BeginMarker;
      EndMarkerShape();
    }
    NoEndBefore(text, e, p);
    assert StartsWith(post, EndMarker);
    EndMarkerShape();
    SplicedFirst(EndMarker, pre, first, post);
    var q := |pre| + 1 + |first|;
    SplitAt(pre, "\n" + first + post, r);
    SplicedFirstBegin(text, b, "\n" + first + post);
    ReplaceAt(r, second, b, q);
    SplitAt(pre + "\n" + first, post, r);
  }
}
