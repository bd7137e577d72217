/**
 * The Markdown block written between the markers (`_render_list`) and the
 * Colab URL of a notebook (`_colab_link`).
 */
module Render {
  import opened Wrappers
  import opened Text
  import opened Remote
  import opened Modules
  import opened Seqs

  const ColabBase := "https://colab.research.google.com/github/"

  /** `_colab_link`: the Colab URL of a notebook of a GitHub repository. It opens
      with Colab's GitHub prefix and the repository, and ends with the notebook path. */
  function ColabLink(githubRepo: string, notebookPath: string, branch: string := "main"): (r: string)
    ensures StartsWith(r, ColabBase + githubRepo + "/")
    ensures EndsWith(r, "/" + notebookPath)
  {
    ColabBase + githubRepo + "/blob/" + branch + "/" + notebookPath
  }

  /** Two slash-free heads before a slash are told apart by the first slash. */
  lemma SlashFreeHeads(a: string, x: string, b: string, y: string)
    requires '/' !in a && '/' !in b && a + "/" + x == b + "/" + y
    ensures a == b && x == y
  {
    FirstSlash(a, x);
    FirstSlash(b, y);
    var s := a + "/" + x;
    assert s[..|a|] == a && s[|a| + 1..] == x;
    assert s[..|b|] == b && s[|b| + 1..] == y;
  }

  /** An `OWNER/REPO` identifier split at its slash. */
  lemma RepoParts(id: string) returns (owner: string, name: string)
    requires IsRepoId(id)
    ensures id == owner + "/" + name && '/' !in owner && '/' !in name
  {
    var i :| 0 <= i < |id| && id[i] == '/' && Segment(id[..i]) && Segment(id[i + 1..]);
    owner, name := id[..i], id[i + 1..];
    assert id == owner + [id[i]] + name;
  }

  /** A Colab URL regrouped around the two slashes of the identifier. */
  lemma LinkRegroup(owner: string, name: string, path: string)
    ensures ColabLink(owner + "/" + name, path) == ColabBase + (owner + "/" + (name + "/" + ("blob/main/" + path)))
  {
  }

  /** With repository identifiers of the form `OWNER/REPO`, different notebooks
      (or repositories) never share a Colab URL: the URL determines both. */
  lemma ColabLinkInjective(repo1: string, path1: string, repo2: string, path2: string)
    requires IsRepoId(repo1) && IsRepoId(repo2)
    requires ColabLink(repo1, path1) == ColabLink(repo2, path2)
    ensures repo1 == repo2 && path1 == path2
  {
    var o1, n1 := RepoParts(repo1);
    var o2, n2 := RepoParts(repo2);
    LinkRegroup(o1, n1, path1);
    LinkRegroup(o2, n2, path2);
    var t1, t2 := "blob/main/" + path1, "blob/main/" + path2;
    DropPrefix(ColabBase, o1 + "/" + (n1 + "/" + t1), o2 + "/" + (n2 + "/" + t2));
    SlashFreeHeads(o1, n1 + "/" + t1, o2, n2 + "/" + t2);
    SlashFreeHeads(n1, t1, n2, t2);
    DropPrefix("blob/main/", path1, path2);
  }

  /** The whole block when there is no module. */
  const EmptyListText := "- （まだNotebookがありません）\n"

  /** What follows the notebook name when no repository is known. */
  const FallbackNote := "（Colabリンク生成には ZIKUU_GITHUB_REPO の設定が必要）"

  /** Python's truth value of `github_repo`: present and not empty. */
  predicate HasRepo(repo: Option<string>) {
    repo.Some? && repo.value != ""
  }

  /** A notebook line: a link to Colab when a repository is known, the bare name
      and a note otherwise. */
  function NotebookLine(dir: string, nb: string, repo: Option<string>): (r: string)
    ensures StartsWith(r, "  - ")
    ensures HasRepo(repo) ==> EndsWith(r, ColabLink(repo.value, dir + "/" + nb) + ")")
    ensures !HasRepo(repo) ==> EndsWith(r, FallbackNote)
  {
    if HasRepo(repo) then "  - [" + nb + "](" + ColabLink(repo.value, dir + "/" + nb) + ")"
    else "  - `" + nb + "`" + FallbackNote
  }

  /** The kinds of entries of the `lines` list. */
  datatype Line =
    | Stamp(now: string)                  // the update time (the clock's reading, passed in)
    | Heading(item: NotebookItem)         // `- **[title](./dir/)**`
    | Notebook(dir: string, nb: string)   // one notebook of a module
    | Blank                               // the blank line after a module

  /** The text of a line. The stamp carries its own newline, so joining leaves a
      blank line after it. */
  function LineText(l: Line, repo: Option<string>): string {
    match l
    case Stamp(now) => "更新: " + now + "\n"
    case Heading(it) => "- **[" + it.moduleTitle + "](./" + it.moduleDir + "/)**"
    case Notebook(dir, nb) => NotebookLine(dir, nb, repo)
    case Blank => ""
  }

  /** The texts of `ls`, in order. */
  function Texts(ls: seq<Line>, repo: Option<string>): (r: seq<string>)
    ensures |r| == |ls|
  {
    if ls == [] then [] else Texts(ls[..|ls| - 1], repo) + [LineText(ls[|ls| - 1], repo)]
  }

  /** Entry `k` of the texts is the text of line `k`. */
  lemma {:induction false} TextsPointwise(ls: seq<Line>, repo: Option<string>)
    ensures forall k :: 0 <= k < |ls| ==> Texts(ls, repo)[k] == LineText(ls[k], repo)
  {
    if ls != [] {
      var init := ls[..|ls| - 1];
      TextsPointwise(init, repo);
      forall k | 0 <= k < |ls| - 1 ensures Texts(ls, repo)[k] == LineText(ls[k], repo) {
        assert init[k] == ls[k];
      }
    }
  }

  /** `Texts` of a concatenation. */
  lemma {:induction false} TextsAppend(a: seq<Line>, b: seq<Line>, repo: Option<string>)
    ensures Texts(a + b, repo) == Texts(a, repo) + Texts(b, repo)
    decreases |b|
  {
    if b == [] {
      ConcatEmpty(a);
    } else {
      ConcatDropLast(a, b);
      TextsAppend(a, b[..|b| - 1], repo);
    }
  }

  /** One line per notebook, in order. */
  function NotebookEntries(dir: string, nbs: seq<string>): (r: seq<Line>)
    ensures |r| == |nbs| && forall k :: 0 <= k < |nbs| ==> r[k] == Notebook(dir, nbs[k])
  {
    if nbs == [] then [] else NotebookEntries(dir, nbs[..|nbs| - 1]) + [Notebook(dir, nbs[|nbs| - 1])]
  }

  /** The lines a module adds: its heading, its notebooks, a blank line. */
  function ItemLines(it: NotebookItem): seq<Line> {
    [Heading(it)] + NotebookEntries(it.moduleDir, it.notebooks) + [Blank]
  }

  /** The lines the modules add, in order. */
  function BodyLines(items: seq<NotebookItem>): seq<Line> {
    if items == [] then [] else BodyLines(items[..|items| - 1]) + ItemLines(items[|items| - 1])
  }

  /** The value of `_render_list`: the fixed line when there is no module;
      otherwise the lines joined with "\n", right-stripped, and one "\n". The
      block always ends in exactly one newline, with no whitespace before it. */
  function RenderText(items: seq<NotebookItem>, repo: Option<string>, now: string): (r: string)
    ensures items == [] ==> r == EmptyListText
    ensures |r| >= 2 && r[|r| - 1] == '\n' && !IsSpace(r[|r| - 2])
  {
    if items == [] then EmptyListText
    else
      var texts := Texts([Stamp(now)] + BodyLines(items), repo);
      StampFirst(now, BodyLines(items), repo);
      var joined := Join(texts, "\n");
      assert joined[0] == '更';
      TrimEnd(joined) + "\n"
  }

  /** The stamp's text comes first. */
  lemma StampFirst(now: string, body: seq<Line>, repo: Option<string>)
    ensures Texts([Stamp(now)] + body, repo) == [LineText(Stamp(now), repo)] + Texts(body, repo)
  {
    TextsAppend([Stamp(now)], body, repo);
    assert Texts([Stamp(now)], repo) == Texts([], repo) + [LineText(Stamp(now), repo)];
  }

  /** `_render_list`: builds the list of lines in two nested loops, then joins it. */
  method RenderList(items: seq<NotebookItem>, repo: Option<string>, now: string) returns (text: string)
    ensures text == RenderText(items, repo, now)
  {
    if |items| == 0 {
      return EmptyListText;
    }
    var lines: seq<string> := [];
    ghost var done: seq<Line> := [];
    lines, done := Append(lines, done, "更新: " + now + "\n", Stamp(now), repo);
    for i := 0 to |items|
      invariant done == [Stamp(now)] + BodyLines(items[..i])
      invariant lines == Texts(done, repo)
    {
      var it := items[i];
      ghost var before := done;
      lines, done := Append(lines, done, "- **[" + it.moduleTitle + "](./" + it.moduleDir + "/)**", Heading(it), repo);
      for j := 0 to |it.notebooks|
        invariant done == before + ([Heading(it)] + NotebookEntries(it.moduleDir, it.notebooks[..j]))
        invariant lines == Texts(done, repo)
      {
        var nb := it.notebooks[j];
        var relPath := it.moduleDir + "/" + nb;
        var line;
        if HasRepo(repo) {
          var colab := ColabLink(repo.value, relPath);
          line := "  - [" + nb + "](" + colab + ")";
        } else {
          line := "  - `" + nb + "`" + FallbackNote;
        }
        ghost var entries := NotebookEntries(it.moduleDir, it.notebooks[..j]);
        lines, done := Append(lines, done, line, Notebook(it.moduleDir, nb), repo);
        EntriesStep(it.moduleDir, it.notebooks, j);
        AppendAssoc(before, [Heading(it)] + entries, [Notebook(it.moduleDir, nb)]);
        AppendAssoc([Heading(it)], entries, [Notebook(it.moduleDir, nb)]);
      }
      WholePrefix(it.notebooks);
      lines, done := Append(lines, done, "", Blank, repo);
      AppendAssoc(before, [Heading(it)] + NotebookEntries(it.moduleDir, it.notebooks), [Blank]);
      AppendAssoc([Stamp(now)], BodyLines(items[..i]), ItemLines(it));
      BodyLinesStep(items, i);
    }
    WholePrefix(items);
    text := TrimEnd(Join(lines, "\n")) + "\n";
  }

  /** One more module adds its lines at the end. */
  lemma BodyLinesStep(items: seq<NotebookItem>, i: int)
    requires 0 <= i < |items|
    ensures BodyLines(items[..i + 1]) == BodyLines(items[..i]) + ItemLines(items[i])
  {
    PrefixOfPrefix(items, i);
  }

  /** One more notebook adds its line at the end. */
  lemma EntriesStep(dir: string, nbs: seq<string>, j: int)
    requires 0 <= j < |nbs|
    ensures NotebookEntries(dir, nbs[..j + 1]) == NotebookEntries(dir, nbs[..j]) + [Notebook(dir, nbs[j])]
  {
    PrefixOfPrefix(nbs, j);
  }

  /** `lines.append(text)`, where `text` is the text of the line `l`. */
  method Append(lines: seq<string>, ghost done: seq<Line>, text: string, ghost l: Line, repo: Option<string>)
    returns (lines': seq<string>, ghost done': seq<Line>)
    requires lines == Texts(done, repo) && text == LineText(l, repo)
    ensures lines' == lines + [text] && done' == done + [l] && lines' == Texts(done', repo)
  {
    lines' := lines + [text];
    done' := done + [l];
    assert done'[..|done'| - 1] == done;
  }

  /** The lines a reader sees in a non-empty block: the stamp, a blank line, then
      per module its heading and one line per notebook, with a blank line
      between two modules. */
  function DisplayLines(items: seq<NotebookItem>, repo: Option<string>, now: string): seq<string>
    requires items != []
  {
    var body := BodyLines(items);
    BodyLinesEnd(items);
    ["更新: " + now, ""] + Texts(body[..|body| - 1], repo)
  }

  /** A non-empty body ends with a blank line, after a heading or a notebook line. */
  lemma BodyLinesEnd(items: seq<NotebookItem>)
    requires items != []
    ensures var body := BodyLines(items);
      |body| >= 2 && body[|body| - 1] == Blank && (body[|body| - 2].Heading? || body[|body| - 2].Notebook?)
  {
    var it := items[|items| - 1];
    var nbs := NotebookEntries(it.moduleDir, it.notebooks);
    var body := BodyLines(items);
    assert body == BodyLines(items[..|items| - 1]) + ([Heading(it)] + nbs + [Blank]);
    if nbs != [] {
      assert body[|body| - 2] == nbs[|nbs| - 1];
    }
  }

  /** Headings and notebook lines are not blank and do not end in whitespace. */
  lemma VisibleEnd(l: Line, repo: Option<string>)
    requires l.Heading? || l.Notebook?
    ensures var s := LineText(l, repo); s != [] && !IsSpace(s[|s| - 1])
  {
  }

  /** The right strip in `_render_list` removes exactly the separator that the
      trailing blank line leaves: the block is its display lines, each followed
      by a newline. */
  lemma RenderedLines(items: seq<NotebookItem>, repo: Option<string>, now: string)
    requires items != []
    ensures RenderText(items, repo, now) == Join(DisplayLines(items, repo, now), "\n") + "\n"
  {
    var body := BodyLines(items);
    BodyLinesEnd(items);
    var shown := body[..|body| - 1];
    assert body == shown + [Blank];
    var texts := Texts(shown, repo);
    StampFirst(now, body, repo);
    TextsAppend(shown, [Blank], repo);
    assert Texts([Blank], repo) == [""];
    var lines := [LineText(Stamp(now), repo)] + texts;
    assert [LineText(Stamp(now), repo)] + Texts(body, repo) == lines + [""];
    JoinTrailingEmpty(lines, "\n");
    VisibleEnd(shown[|shown| - 1], repo);
    var j := Join(lines, "\n");
    var last := texts[|texts| - 1];
    assert last == LineText(shown[|shown| - 1], repo);
    assert j[|j| - 1] == last[|last| - 1];
    TrimEndPadded(j, "\n");
    StampJoin(now, texts);
  }

  /** Joining the stamp's text, which ends in a newline, is joining its bare text
      and a blank line. */
  lemma StampJoin(now: string, texts: seq<string>)
    requires texts != []
    ensures Join(["更新: " + now + "\n"] + texts, "\n") == Join(["更新: " + now, ""] + texts, "\n")
  {
    var xs := ["更新: " + now + "\n"] + texts;
    var ys := ["更新: " + now, ""] + texts;
    assert xs[1..] == texts;
    assert ys[1..] == [""] + texts && ([""] + texts)[1..] == texts;
  }

  /** Reading the block back with `splitlines` gives the display lines, when no
      name, title, timestamp or identifier holds a line boundary. */
  lemma SplitRendered(items: seq<NotebookItem>, repo: Option<string>, now: string)
    requires items != []
    requires forall k :: 0 <= k < |DisplayLines(items, repo, now)| ==> NoLineBreak(DisplayLines(items, repo, now)[k])
    ensures SplitLines(RenderText(items, repo, now)) == DisplayLines(items, repo, now)
  {
    RenderedLines(items, repo, now);
    SplitJoinedLines(DisplayLines(items, repo, now));
  }

  /** `BodyLines` of a concatenation. */
  lemma {:induction false} BodyLinesAppend(a: seq<NotebookItem>, b: seq<NotebookItem>)
    ensures BodyLines(a + b) == BodyLines(a) + BodyLines(b)
    decreases |b|
  {
    if b == [] {
      ConcatEmpty(a);
    } else {
      var init, x := b[..|b| - 1], ItemLines(b[|b| - 1]);
      ConcatDropLast(a, b);
      BodyLinesAppend(a, init);
      assert BodyLines(a + b) == BodyLines(a + init) + x;
      assert BodyLines(b) == BodyLines(init) + x;
      AppendAssoc(BodyLines(a), BodyLines(init), x);
    }
  }

  /** Layout: the modules' lines follow each other in item order, and module `i`
      contributes its heading, then one line per notebook in order, then a blank line. */
  lemma BodyLayout(items: seq<NotebookItem>, i: int)
    requires 0 <= i < |items|
    ensures BodyLines(items) ==
      BodyLines(items[..i])
      + ([Heading(items[i])] + NotebookEntries(items[i].moduleDir, items[i].notebooks) + [Blank])
      + BodyLines(items[i + 1..])
  {
    SplitAround(items, i);
    BodyLinesAppend(items[..i] + [items[i]], items[i + 1..]);
    BodyLinesAppend(items[..i], [items[i]]);
    assert BodyLines([items[i]]) == BodyLines([]) + ItemLines(items[i]);
  }

  /** With a repository identifier, the notebook line links the notebook's Colab
      URL on the `main` branch. */
  lemma NotebookLineLink(dir: string, nb: string, repo: Option<string>)
    requires HasRepo(repo)
    ensures NotebookLine(dir, nb, repo) == "  - [" + nb + "](" + ColabBase + repo.value + "/blob/main/" + dir + "/" + nb + ")"
  {
  }

  /** Without a repository identifier, a notebook name (which never holds a slash)
      gives a line with no URL at all. */
  lemma NotebookLineNoLink(dir: string, nb: string, repo: Option<string>)
    requires !HasRepo(repo) && '/' !in nb
    ensures !Contains(NotebookLine(dir, nb, repo), ColabBase)
  {
    assert '/' !in FallbackNote;
    NoSlashNoUrl(NotebookLine(dir, nb, repo));
  }

  /** A text without a slash holds no URL. */
  lemma NoSlashNoUrl(line: string)
    requires '/' !in line
    ensures !Contains(line, ColabBase)
  {
    forall j: nat ensures !OccursAt(line, ColabBase, j) {
      if j + |ColabBase| <= |line| {
        assert line[j..j + |ColabBase|][6] == line[j + 6] != ColabBase[6] by {
          assert line[j + 6] in line;
        }
      }
    }
  }

  /** A non-empty block opens with the stamp line. */
  lemma StampLeads(items: seq<NotebookItem>, repo: Option<string>, now: string)
    requires items != []
    ensures StartsWith(RenderText(items, repo, now), "更新: " + now + "\n")
  {
    RenderedLines(items, repo, now);
    var d := DisplayLines(items, repo, now);
    assert d[0] == "更新: " + now && |d| >= 2;
    JoinCons(d, "\n");
    var rest := Join(d[1..], "\n") + "\n";
    AppendAssoc(d[0] + "\n", Join(d[1..], "\n"), "\n");
    StartsWithConcat(d[0] + "\n", rest);
  }

  /** The stamp tells blocks apart: two non-empty blocks with stamps on one line
      each are equal only if their stamps are. */
  lemma StampDistinguishes(items1: seq<NotebookItem>, repo1: Option<string>, now1: string,
                           items2: seq<NotebookItem>, repo2: Option<string>, now2: string)
    requires items1 != [] && items2 != [] && '\n' !in now1 && '\n' !in now2
    requires RenderText(items1, repo1, now1) == RenderText(items2, repo2, now2)
    ensures now1 == now2
  {
    StampLeads(items1, repo1, now1);
    StampLeads(items2, repo2, now2);
    SameFirstLine(RenderText(items1, repo1, now1), "更新: ", now1, now2);
  }
}
