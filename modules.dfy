/**
 * The module listing (`_list_modules`): which top-level directories become
 * entries, in which order, with which notebooks and which title, the title
 * coming from the first level-one heading of the module's README.md
 * (`_first_h1_from_readme`).
 *
 * The file system is an input: a sequence of directory entries, each with the
 * entries directly inside it and the text of its README.md when that exists.
 */
module Modules {
  import opened Wrappers
  import opened Text
  import opened Order
  import opened Seqs

  // ---------------------------------------------------------------------------
  // Level-one headings
  // ---------------------------------------------------------------------------

  /** The way `^\s*#\s+(.+?)\s*$` reads a line: leading whitespace, one '#', at
      least one whitespace character, a non-empty capture holding no newline, and
      trailing whitespace. */
  ghost predicate H1Shape(line: string, lead: string, gap: string, capture: string, trail: string) {
    && line == lead + "#" + gap + capture + trail
    && AllSpace(lead) && gap != [] && AllSpace(gap) && AllSpace(trail)
    && capture != [] && '\n' !in capture
  }

  /** Matching a line against the heading expression and, on a match, the
      stripped capture group. */
  function MatchH1(line: string): (r: Option<string>)
    ensures r.Some? ==> Stripped(r.value)
  {
    var t := TrimStart(line);
    if t == [] || t[0] != '#' then None else MatchAfterHash(t[1..])
  }

  /** The part of the regular expression after '#', on the text after '#'. The
      greedy `\s+` takes every whitespace character; when nothing else follows,
      it gives one back so that the capture is that single whitespace character,
      which strips to the empty string. */
  function MatchAfterHash(rest: string): (r: Option<string>)
    ensures r.Some? ==> Stripped(r.value)
  {
    var body := TrimStart(rest);
    var gap := |rest| - |body|;
    if gap == 0 then None
    else if body != [] then Some(Trim(body))
    else if gap >= 2 then Some("")
    else None
  }

  /** Stripping the front first does not change what `strip` gives. */
  lemma TrimAfterTrimStart(x: string)
    ensures Trim(TrimStart(x)) == Trim(x)
  {
    var a := TrimStartSplit(x);
    ConcatEmpty(a + TrimStart(x));
    TrimIgnoresPadding(a, TrimStart(x), []);
  }

  /** Whitespace right-strips to nothing. */
  lemma {:induction false} TrimEndAllSpace(s: string)
    requires AllSpace(s)
    ensures TrimEnd(s) == []
  {
    if s != [] {
      assert IsSpace(s[|s| - 1]);
      TrimEndAllSpace(s[..|s| - 1]);
    }
  }

  /** Whitespace left-strips to nothing. */
  lemma {:induction false} TrimStartAllSpace(s: string)
    requires AllSpace(s)
    ensures TrimStart(s) == []
  {
    if s != [] {
      assert IsSpace(s[0]);
      TrimStartAllSpace(s[1..]);
    }
  }

  /** The text after '#' when the line has the shape of the regular expression. */
  lemma AfterHashComplete(rest: string, gap: string, capture: string, trail: string)
    requires rest == gap + capture + trail
    requires gap != [] && AllSpace(gap) && AllSpace(trail) && capture != []
    ensures MatchAfterHash(rest) == Some(Trim(capture))
  {
    assert IsSpace(rest[0]);
    if TrimStart(rest) != [] {
      AfterHashBody(rest, gap, capture, trail);
    } else {
      AfterHashBlank(rest, gap, capture, trail);
    }
  }

  /** Content after the whitespace: the match is the stripped content. */
  lemma AfterHashBody(rest: string, gap: string, capture: string, trail: string)
    requires rest == gap + capture + trail
    requires AllSpace(gap) && AllSpace(trail) && rest != [] && IsSpace(rest[0]) && TrimStart(rest) != []
    ensures MatchAfterHash(rest) == Some(Trim(capture))
  {
    TrimAfterTrimStart(rest);
    Regroup(gap, [], capture, [], trail);
    TrimIgnoresPadding(gap, capture, trail);
  }

  /** Only whitespace after '#': a capture of whitespace strips to nothing. */
  lemma AfterHashBlank(rest: string, gap: string, capture: string, trail: string)
    requires rest == gap + capture + trail
    requires gap != [] && capture != [] && TrimStart(rest) == []
    ensures MatchAfterHash(rest) == Some(Trim(capture))
  {
    forall i | 0 <= i < |capture| ensures IsSpace(capture[i]) {
      assert capture[i] == rest[|gap| + i];
    }
    TrimEndAllSpace(capture);
  }

  /** No whitespace right after '#': no match. */
  lemma AfterHashNoGap(rest: string)
    requires rest != [] && !IsSpace(rest[0])
    ensures MatchAfterHash(rest).None?
  {
  }

  /** Completeness: every way the regular expression can read a line yields a
      match, whose stripped capture is the stripped `capture` of that reading. */
  lemma H1Complete(line: string, lead: string, gap: string, capture: string, trail: string)
    requires H1Shape(line, lead, gap, capture, trail)
    ensures MatchH1(line) == Some(Trim(capture))
  {
    var m := "#" + (gap + capture + trail);
    assert line == lead + m;
    assert !IsSpace('#');
    TrimStartPadded(lead, m);
    assert m[1..] == gap + capture + trail;
    AfterHashComplete(gap + capture + trail, gap, capture, trail);
  }

  /** Soundness: a line that `MatchH1` accepts is read by the regular expression,
      and the result is the stripped capture of that reading. */
  lemma H1Sound(line: string)
    requires '\n' !in line
    requires MatchH1(line).Some?
    ensures exists lead, gap, capture, trail ::
      H1Shape(line, lead, gap, capture, trail) && MatchH1(line).value == Trim(capture)
  {
    var lead := TrimStartSplit(line);
    var t := TrimStart(line);
    var gap, capture, trail := AfterHashSplit(t[1..]);
    Uncons(t);
    LineOfParts(line, lead, gap, capture, trail);
    assert H1Shape(line, lead, gap, capture, trail) && MatchH1(line).value == Trim(capture);
  }

  /** Reassembles a line from its leading whitespace, '#', and the reading after '#'. */
  lemma LineOfParts(line: string, lead: string, gap: string, capture: string, trail: string)
    requires '\n' !in line
    requires line == lead + ("#" + (gap + capture + trail)) && AllSpace(lead)
    requires gap != [] && AllSpace(gap) && AllSpace(trail) && capture != []
    ensures H1Shape(line, lead, gap, capture, trail)
  {
    assert line == lead + "#" + gap + capture + trail;
    forall i | 0 <= i < |capture| ensures capture[i] != '\n' {
      assert capture[i] == line[|lead| + 1 + |gap| + i];
    }
  }

  /** The reading of the text after '#' that `H1Sound` exhibits. */
  lemma AfterHashSplit(rest: string) returns (gap: string, capture: string, trail: string)
    requires MatchAfterHash(rest).Some?
    ensures rest == gap + capture + trail
    ensures gap != [] && AllSpace(gap) && AllSpace(trail) && capture != []
    ensures MatchAfterHash(rest).value == Trim(capture)
  {
    var body := TrimStart(rest);
    var lead := TrimStartSplit(rest);
    assert |lead| == |rest| - |body|;
    if body != [] {
      gap := lead;
      capture, trail := BodySplit(body);
      AppendAssoc(gap, capture, trail);
    } else {
      ConcatEmpty(lead);
      gap, capture := LastSpaceSplit(lead);
      trail := [];
      ConcatEmpty(gap + capture);
    }
  }

  /** Whitespace of two or more characters is whitespace followed by a single
      whitespace character, which strips to nothing. */
  lemma LastSpaceSplit(lead: string) returns (gap: string, capture: string)
    requires |lead| >= 2 && AllSpace(lead)
    ensures lead == gap + capture && gap != [] && AllSpace(gap) && capture != [] && Trim(capture) == []
  {
    gap := lead[..|lead| - 1];
    capture := lead[|lead| - 1..];
    assert capture == [lead[|lead| - 1]];
    OneSpace(lead[|lead| - 1]);
  }

  /** A single whitespace character strips to nothing. */
  lemma OneSpace(c: char)
    requires IsSpace(c)
    ensures Trim([c]) == []
  {
    assert [c][..0] == [];
  }

  /** A right-stripped non-empty text that starts with a non-space splits into a
      capture that is its own strip and trailing whitespace. */
  lemma BodySplit(body: string) returns (capture: string, trail: string)
    requires body != [] && !IsSpace(body[0])
    ensures body == capture + trail && capture != [] && AllSpace(trail)
    ensures Trim(body) == capture == Trim(capture)
  {
    capture := TrimEnd(body);
    trail := body[|capture|..];
    assert capture != [] by {
      assert |body| > 0 && !IsSpace(body[0]);
    }
    forall i | 0 <= i < |trail| ensures IsSpace(trail[i]) {
      assert trail[i] == body[|capture| + i];
    }
    assert capture[0] == body[0];
    assert TrimStart(capture) == capture;
    assert TrimEnd(capture) == capture;
  }

  /** A line whose first non-blank characters are "##" is not a level-one heading. */
  lemma DoubleHashIsNoH1(line: string)
    requires StartsWith(TrimStart(line), "##")
    ensures MatchH1(line).None?
  {
    HashAfterHash(TrimStart(line));
    MatchAfterFirstHash(line);
  }

  /** After "##" the heading expression finds no whitespace following the first '#'. */
  lemma HashAfterHash(t: string)
    requires StartsWith(t, "##")
    ensures t[0] == '#' && MatchAfterHash(t[1..]).None?
  {
    assert t[..2] == "##";
    assert t[1..][0] == '#' && !IsSpace('#');
    AfterHashNoGap(t[1..]);
  }

  /** A line whose text starts with '#' is matched by what follows that '#'. */
  lemma MatchAfterFirstHash(line: string)
    requires TrimStart(line) != [] && TrimStart(line)[0] == '#'
    ensures MatchH1(line) == MatchAfterHash(TrimStart(line)[1..])
  {
  }

  /** The first present value of `ms`, if any. */
  function FirstSome<T(==)>(ms: seq<Option<T>>): (r: Option<T>)
    ensures r.None? <==> forall k :: 0 <= k < |ms| ==> ms[k].None?
    ensures r.Some? ==> exists k :: FirstSomeAt(ms, k) && ms[k] == r
  {
    if ms == [] then None
    else if ms[0].Some? then ms[0]
    else
      var r := FirstSome(ms[1..]);
      assert forall k :: 1 <= k < |ms| ==> ms[k] == ms[1..][k - 1];
      if r.Some? then
        var k :| FirstSomeAt(ms[1..], k) && ms[1..][k] == r;
        assert FirstSomeAt(ms, k + 1);
        r
      else r
  }

  /** `ms[k]` is present and everything before it is absent. */
  predicate FirstSomeAt<T>(ms: seq<Option<T>>, k: int) {
    0 <= k < |ms| && ms[k].Some? && forall j :: 0 <= j < k ==> ms[j].None?
  }

  /** Only one index is the first present one. */
  lemma {:induction false} FirstSomeIs<T>(ms: seq<Option<T>>, k: int)
    requires FirstSomeAt(ms, k)
    ensures FirstSome(ms) == ms[k]
  {
    if k > 0 {
      assert ms[0].None?;
      forall j | 0 <= j < k - 1 ensures ms[1..][j].None? {
        assert ms[1..][j] == ms[j + 1];
      }
      assert ms[1..][k - 1] == ms[k];
      FirstSomeIs(ms[1..], k - 1);
    }
  }

  /** The match results of `lines`, line by line. */
  function Matches(lines: seq<string>): (r: seq<Option<string>>)
    ensures |r| == |lines| && forall k :: 0 <= k < |lines| ==> r[k] == MatchH1(lines[k])
  {
    seq(|lines|, k requires 0 <= k < |lines| => MatchH1(lines[k]))
  }

  /** The result of the first line that `MatchH1` accepts, if any. */
  function FirstHeading(lines: seq<string>): Option<string> {
    FirstSome(Matches(lines))
  }

  /** What `_first_h1_from_readme` returns for a README.md with text `readme`
      (None when there is no such file). */
  function FirstH1(readme: Option<string>): (r: Option<string>)
    ensures readme.None? ==> r.None?
    ensures r.Some? ==> Stripped(r.value) && exists line :: line in SplitLines(readme.value) && MatchH1(line) == r
  {
    match readme
    case None => None
    case Some(text) => FirstHeading(SplitLines(text))
  }

  /** `_first_h1_from_readme`: None without a README.md, else the scan of its lines. */
  method FirstH1FromReadme(readme: Option<string>) returns (title: Option<string>)
    ensures title == FirstH1(readme)
  {
    if readme.None? {
      return None;
    }
    title := ScanLines(SplitLines(readme.value));
  }

  /** The loop of `_first_h1_from_readme`: returns at the first line that matches. */
  method ScanLines(lines: seq<string>) returns (title: Option<string>)
    ensures title == FirstHeading(lines)
  {
    for i := 0 to |lines|
      invariant forall j :: 0 <= j < i ==> MatchH1(lines[j]).None?
    {
      var m := MatchH1(lines[i]);
      if m.Some? {
        HeadingAt(lines, i);
        return m;
      }
    }
    NoHeading(lines);
    return None;
  }

  /** The first matching line gives the heading. */
  lemma HeadingAt(lines: seq<string>, i: int)
    requires 0 <= i < |lines| && MatchH1(lines[i]).Some?
    requires forall j :: 0 <= j < i ==> MatchH1(lines[j]).None?
    ensures FirstHeading(lines) == MatchH1(lines[i])
  {
    FirstSomeIs(Matches(lines), i);
  }

  /** Without a matching line there is no heading. */
  lemma NoHeading(lines: seq<string>)
    requires forall j :: 0 <= j < |lines| ==> MatchH1(lines[j]).None?
    ensures FirstHeading(lines).None?
  {
    var ms := Matches(lines);
    assert forall k :: 0 <= k < |ms| ==> ms[k].None?;
  }

  // ---------------------------------------------------------------------------
  // Module selection
  // ---------------------------------------------------------------------------

  /** Top-level directory names that are never modules. */
  const ExcludeDirs: set<string> :=
    {".git", ".github", "__pycache__", ".venv", "venv", "node_modules", "scripts", ".idea", ".vscode"}

  /** An entry directly inside a module directory. */
  datatype FileEntry = FileEntry(name: string, isFile: bool)

  /** A top-level entry: its name, whether it is a directory, what it holds, and
      the text of its README.md when that file exists. */
  datatype DirEntry = DirEntry(name: string, isDir: bool, children: seq<FileEntry>, readme: Option<string>)

  /** `NotebookItem`: a module directory, its title and its notebook file names. */
  datatype NotebookItem = NotebookItem(moduleDir: string, moduleTitle: string, notebooks: seq<string>)

  function FileName(f: FileEntry): string {
    f.name
  }

  function EntryName(e: DirEntry): string {
    e.name
  }

  function ItemDir(it: NotebookItem): string {
    it.moduleDir
  }

  /** A regular file whose name ends in `.ipynb`. */
  predicate IsNotebook(f: FileEntry) {
    f.isFile && EndsWith(f.name, ".ipynb")
  }

  /** The names of the notebook files among `children`, in their order; no name
      is collected twice when the children's names are distinct. */
  function NotebookFiles(children: seq<FileEntry>): (r: seq<string>)
    ensures forall n :: n in r <==> exists f :: f in children && IsNotebook(f) && f.name == n
    ensures DistinctBy(children, FileName) ==> DistinctBy(r, Identity)
  {
    if children == [] then []
    else
      var tail := NotebookFiles(children[1..]);
      assert forall f :: f in children <==> f == children[0] || f in children[1..];
      DistinctByTail(children, FileName);
      if IsNotebook(children[0]) then
        DistinctByCons(children[0].name, tail, Identity);
        [children[0].name] + tail
      else tail
  }

  /** The module's notebook names, sorted. */
  function Notebooks(e: DirEntry): (r: seq<string>)
    ensures multiset(r) == multiset(NotebookFiles(e.children)) && SortedBy(r, Identity)
    ensures DistinctBy(e.children, FileName) ==> DistinctBy(r, Identity)
  {
    var files := NotebookFiles(e.children);
    DistinctByPerm(files, SortBy(files, Identity), Identity);
    SortBy(files, Identity)
  }

  /** A module's title: its first heading when that is not empty, else the
      directory name. */
  function Title(e: DirEntry): (r: string)
    ensures r == e.name || FirstH1(e.readme) == Some(r)
    ensures e.name != "" ==> r != ""
  {
    var h := FirstH1(e.readme);
    if h.Some? && h.value != "" then h.value else e.name
  }

  /** The filters of the loop: a directory, not excluded, not hidden, holding a notebook. */
  predicate Qualifies(e: DirEntry) {
    e.isDir && e.name !in ExcludeDirs && !StartsWith(e.name, ".") && Notebooks(e) != []
  }

  function ItemOf(e: DirEntry): NotebookItem {
    NotebookItem(e.name, Title(e), Notebooks(e))
  }

  /** The items of the qualifying entries of `es`, in the order of `es`. */
  function Select(es: seq<DirEntry>): (r: seq<NotebookItem>)
    ensures |r| <= |es|
  {
    if es == [] then []
    else Select(es[..|es| - 1]) + if Qualifies(es[|es| - 1]) then [ItemOf(es[|es| - 1])] else []
  }

  /** Soundness of selection: every selected item is the item of a qualifying entry. */
  lemma {:induction false} SelectSound(es: seq<DirEntry>, it: NotebookItem) returns (k: int)
    requires it in Select(es)
    ensures 0 <= k < |es| && Qualifies(es[k]) && it == ItemOf(es[k])
  {
    assert es != [];
    var init := es[..|es| - 1];
    if it in Select(init) {
      k := SelectSound(init, it);
      assert init[k] == es[k];
    } else {
      k := |es| - 1;
    }
  }

  /** Completeness of selection: every qualifying entry's item is selected. */
  lemma {:induction false} SelectComplete(es: seq<DirEntry>, k: int)
    requires 0 <= k < |es| && Qualifies(es[k])
    ensures ItemOf(es[k]) in Select(es)
  {
    var init := es[..|es| - 1];
    if k < |es| - 1 {
      SelectComplete(init, k);
      assert init[k] == es[k];
    }
  }

  /** Selection from a rearrangement of `entries` picks exactly the items of the
      qualifying entries. */
  lemma SelectMembers(es: seq<DirEntry>, entries: seq<DirEntry>)
    requires multiset(es) == multiset(entries)
    ensures forall it :: it in Select(es) ==> exists e :: e in entries && Qualifies(e) && it == ItemOf(e)
    ensures forall e :: e in entries && Qualifies(e) ==> ItemOf(e) in Select(es)
  {
    forall it | it in Select(es) ensures exists e :: e in entries && Qualifies(e) && it == ItemOf(e) {
      var k := SelectSound(es, it);
      assert es[k] in multiset(es);
    }
    forall e | e in entries && Qualifies(e) ensures ItemOf(e) in Select(es) {
      assert e in multiset(entries);
      var k :| 0 <= k < |es| && es[k] == e;
      SelectComplete(es, k);
    }
  }

  /** Selection from entries with distinct names gives items with distinct directories. */
  lemma {:induction false} SelectDistinct(es: seq<DirEntry>)
    ensures DistinctBy(es, EntryName) ==> DistinctBy(Select(es), ItemDir)
  {
    if es != [] && DistinctBy(es, EntryName) {
      var init := es[..|es| - 1];
      var last := es[|es| - 1];
      assert DistinctBy(init, EntryName) by {
        forall i, j | 0 <= i < j < |init| ensures EntryName(init[i]) != EntryName(init[j]) {
          assert init[i] == es[i] && init[j] == es[j];
        }
      }
      SelectDistinct(init);
      var s := Select(init);
      forall i | 0 <= i < |s| ensures ItemDir(s[i]) != EntryName(last) {
        var k := SelectSound(init, s[i]);
        assert init[k] == es[k];
      }
      assert Select(es) == s + if Qualifies(last) then [ItemOf(last)] else [];
    }
  }

  /** Selection keeps the order of names. */
  lemma {:induction false} SelectSorted(es: seq<DirEntry>)
    requires SortedBy(es, EntryName)
    ensures SortedBy(Select(es), ItemDir)
  {
    if es != [] {
      var init := es[..|es| - 1];
      var last := es[|es| - 1];
      assert SortedBy(init, EntryName);
      SelectSorted(init);
      var s := Select(init);
      forall i | 0 <= i < |s| ensures StrLe(ItemDir(s[i]), EntryName(last)) {
        var k := SelectSound(init, s[i]);
        assert init[k] == es[k];
      }
      assert Select(es) == s + if Qualifies(last) then [ItemOf(last)] else [];
    }
  }

  /** The value of `_list_modules`: the items of the qualifying entries, by name. */
  function ModuleList(entries: seq<DirEntry>): (r: seq<NotebookItem>)
    ensures forall it :: it in r ==> exists e :: e in entries && Qualifies(e) && it == ItemOf(e)
    ensures forall e :: e in entries && Qualifies(e) ==> ItemOf(e) in r
    ensures SortedBy(r, ItemDir)
    ensures DistinctBy(entries, EntryName) ==> DistinctBy(r, ItemDir)
  {
    var sorted := SortBy(entries, EntryName);
    SelectMembers(sorted, entries);
    SelectSorted(sorted);
    DistinctByPerm(entries, sorted, EntryName);
    SelectDistinct(sorted);
    Select(sorted)
  }

  /** `_list_modules`: walks the entries sorted by name, skipping with `continue`
      whatever is not a module, and appends one item per module. */
  method ListModules(entries: seq<DirEntry>) returns (items: seq<NotebookItem>)
    ensures items == ModuleList(entries)
  {
    var sorted := SortBy(entries, EntryName);
    items := [];
    for i := 0 to |sorted|
      invariant items == Select(sorted[..i])
    {
      var p := sorted[i];
      SelectStep(sorted, i);
      if !p.isDir {
        continue;
      }
      if p.name in ExcludeDirs {
        continue;
      }
      if StartsWith(p.name, ".") {
        continue;
      }
      var notebooks := SortBy(NotebookFiles(p.children), Identity);
      if notebooks == [] {
        continue;
      }
      var h1 := FirstH1FromReadme(p.readme);
      var title := if h1.Some? && h1.value != "" then h1.value else p.name;
      items := items + [NotebookItem(p.name, title, notebooks)];
    }
    WholePrefix(sorted);
  }

  /** One more entry adds its item at the end when it qualifies. */
  lemma SelectStep(es: seq<DirEntry>, i: int)
    requires 0 <= i < |es|
    ensures Select(es[..i + 1]) == Select(es[..i]) + if Qualifies(es[i]) then [ItemOf(es[i])] else []
  {
    PrefixOfPrefix(es, i);
  }

  /** Every listed module is a non-hidden, non-excluded directory among the
      entries, holding at least one notebook; its notebooks are exactly that
      directory's notebook files, sorted. */
  lemma ListedModule(entries: seq<DirEntry>, it: NotebookItem)
    requires it in ModuleList(entries)
    ensures it.moduleDir !in ExcludeDirs && !StartsWith(it.moduleDir, ".")
    ensures it.notebooks != [] && SortedBy(it.notebooks, Identity)
    ensures forall nb :: nb in it.notebooks ==> EndsWith(nb, ".ipynb")
    ensures exists e :: e in entries && e.isDir && e.name == it.moduleDir &&
      multiset(it.notebooks) == multiset(NotebookFiles(e.children))
  {
    var e :| e in entries && Qualifies(e) && it == ItemOf(e);
    forall nb | nb in it.notebooks ensures EndsWith(nb, ".ipynb") {
      assert nb in multiset(Notebooks(e));
      assert nb in NotebookFiles(e.children);
    }
  }

  /** The title of a module is its first level-one heading when that is non-empty,
      and the directory name otherwise, in particular when README.md is missing
      or has no such heading. */
  lemma TitleChoice(e: DirEntry)
    ensures (exists t :: FirstH1(e.readme) == Some(t) && t != "") ==> Title(e) == FirstH1(e.readme).value
    ensures e.readme.None? ==> Title(e) == e.name
    ensures (forall line :: line in SplitLines(e.readme.GetOr("")) ==> MatchH1(line).None?) ==> Title(e) == e.name
  {
    if e.readme.Some? {
      var lines := SplitLines(e.readme.value);
      if forall line :: line in lines ==> MatchH1(line).None? {
        assert forall k :: 0 <= k < |lines| ==> lines[k] in lines;
      }
    }
  }

  /** A line of '#' and two or more whitespace characters is accepted with an
      empty title: the greedy `\s+` gives its last character back to the capture. */
  lemma BlankHeading(gap: string)
    requires |gap| >= 2 && AllSpace(gap)
    ensures MatchH1("#" + gap) == Some("")
  {
    var line := "#" + gap;
    assert TrimStart(line) == line by { assert !IsSpace(line[0]); }
    assert line[1..] == gap;
    TrimStartAllSpace(gap);
    var g, c := LastSpaceSplit(gap);
    ConcatEmpty(gap);
    AfterHashBlank(gap, g, c, []);
  }

  /** When the first accepted line of README.md strips to nothing, the scan ends
      there and the title is the directory name, whatever heading follows. */
  lemma EmptyHeadingHidesTitle(e: DirEntry, k: int)
    requires e.readme.Some?
    requires 0 <= k < |SplitLines(e.readme.value)| && MatchH1(SplitLines(e.readme.value)[k]) == Some("")
    requires forall j :: 0 <= j < k ==> MatchH1(SplitLines(e.readme.value)[j]).None?
    ensures Title(e) == e.name
  {
    var ms := Matches(SplitLines(e.readme.value));
    assert FirstSomeAt(ms, k);
    FirstSomeIs(ms, k);
  }
}
