# zikuu-notebooks README synchroniser, in Dafny

This is a model of `scripts/update_readme.py`, the script that keeps the notebook
list in the root README.md of the zikuu-notebooks repository up to date. The model
covers what one run does:

1. It finds the GitHub `OWNER/REPO` identifier. A non-blank `ZIKUU_GITHUB_REPO`
   wins; otherwise the origin remote URL is parsed, in HTTPS or SCP-style SSH form.
2. It lists the modules. These are the top-level directories that are not excluded,
   not hidden, and hold at least one `.ipynb` file. They come in name order, each
   with its notebooks sorted. A module's title comes from the first line of its
   README.md that the heading expression `^\s*#\s+(.+?)\s*$` accepts, stripped.
   The directory name is used instead when there is no README.md, when no line is
   accepted, or when that first accepted line strips to nothing. A line of `#`
   followed by two or more whitespace characters is such a line. It ends the scan
   with an empty title, so the directory name is used even when a real `# Title`
   line follows.
3. It renders the Markdown block: a timestamp line, then per module a heading link
   and one line per notebook. A notebook line carries a Colab URL when the
   identifier is known, and a fallback note otherwise.
4. It splices the block between the `<!-- ZIKUU_NOTEBOOKS_LIST:BEGIN -->` and
   `<!-- ZIKUU_NOTEBOOKS_LIST:END -->` markers, and writes the file only if the
   text changed.

Modules:

- `Wrappers`: Option and Result.
- `Seqs`: slicing facts.
- `Text`: Python's `strip`, `str.index`, `"\n".join` and `splitlines`.
- `Order`: Python string order and `sorted`.
- `Markers`: the splice.
- `Remote`: the identifier.
- `Modules`: headings and the module listing.
- `Render`: the block and the Colab URL.
- `Sync`: one run of `main`.

The three loops of the script are methods proved equal to specification functions:

- `Modules.ScanLines` and `Modules.FirstH1FromReadme` (`_first_h1_from_readme`);
- `Modules.ListModules` (`_list_modules`);
- `Render.RenderList` (`_render_list`).

The two regular expressions are described by ghost predicates of the strings they
match. `Remote.RemoteShape` covers every way a URL can be split into the groups, and
`Remote.LazyShape` picks the split the regex engine reports. For headings,
`Modules.H1Shape` plays the same role. The parsers are proved sound and complete
against these predicates.

## Model

| member | source | states |
|---|---|---|
| Text.TrimEnd | scripts/update_readme.py:174 | `rstrip` keeps a prefix of the text, drops only whitespace after it, and leaves no whitespace at the end |
| Text.Join | scripts/update_readme.py:174 | `"\n".join` of no lines is empty; otherwise the text opens with the first line and closes with the last |
| Text.Trim | scripts/update_readme.py:120 | `strip` leaves no whitespace at either end and never lengthens the text |
| Text.TrimIgnoresPadding | scripts/update_readme.py:79 | adding whitespace around a text does not change what `strip` gives |
| Text.TrimIdempotent | scripts/update_readme.py:134 | stripping twice is stripping once |
| Text.IndexOf | scripts/update_readme.py:182-183 | `str.index` finds an occurrence with none before it, and reports none only when there is no occurrence at all |
| Text.FirstAtIsIndexOf | scripts/update_readme.py:182-183 | the first occurrence is the one `str.index` reports |
| Text.SplitLines | scripts/update_readme.py:76 | `splitlines` gives lines free of line boundaries; it gives no lines exactly for the empty text |
| Text.SplitLinesRejoin | scripts/update_readme.py:76 | for a text whose only line boundary is '\n', joining the lines with "\n" and adding back a final "\n" gives the text again: the lines are the text's maximal boundary-free runs, in order |
| Text.SplitJoinedLines | scripts/update_readme.py:174 | splitting lines joined with "\n" plus a final "\n" gives the lines back |
| Order.StrLeTotal | scripts/update_readme.py:85 | any two strings are comparable in Python's order |
| Order.StrLeTransitive | scripts/update_readme.py:85 | Python's string order is transitive |
| Order.StrLeAntisymmetric | scripts/update_readme.py:85 | strings that are each at most the other are equal |
| Order.SortBy | scripts/update_readme.py:94 | `sorted` returns a permutation of its input, ordered by key |
| Markers.EndMarkerShape | scripts/update_readme.py:36-37 | the END marker holds '>' only last and no newline; the BEGIN marker ends in '>' |
| Markers.ReplaceBetweenMarkers | scripts/update_readme.py:177-191 | it fails with the missing-marker error exactly when either marker is absent. It fails with the order error exactly when the first END starts before the first BEGIN ends. Otherwise the result is the text through the first BEGIN, "\n", the block, and the text from the first END |
| Markers.ReplaceKeepsOutside | scripts/update_readme.py:187-191 | on success, the text up to the end of the first BEGIN and the text from the first END are kept unchanged, whatever the block holds; "\n" and the block sit between them |
| Markers.ReplaceAt | scripts/update_readme.py:181-191 | with the first BEGIN at `b` and the first END at `e` in order, the splice succeeds with exactly that text |
| Markers.ReplaceTwice | scripts/update_readme.py:177-191 | splicing one block and then a second gives the same text as splicing the second directly, when the first block holds no END marker and ends in a newline |
| Markers.ReplaceChanges | scripts/update_readme.py:177-191 | after a splice, splicing a different block always changes the text |
| Remote.RepoName | scripts/update_readme.py:122-126 | the lazy repository group is a slash-free, non-empty prefix of the rest of the URL, followed by an allowed tail (`.git` and/or `/` in HTTPS; `.git` in SSH) |
| Remote.RepoNameShortest | scripts/update_readme.py:122-126 | the lazy group is no longer than the name of any allowed split |
| Remote.OwnerRepo | scripts/update_readme.py:122-128 | a successful owner/repository match is an `OWNER/REPO` identifier |
| Remote.OwnerRepoComplete | scripts/update_readme.py:122-128 | every split into owner, repository and tail puts the owner before the first slash, and the match reports that owner with a repository name no longer than the split's |
| Remote.OwnerRepoSound | scripts/update_readme.py:122-128 | a successful match is one of the splits into owner, repository and tail |
| Remote.FormOf | scripts/update_readme.py:122-126 | the form found is one whose prefix opens the URL; no form is found only if no prefix opens it |
| Remote.PrefixesExclusive | scripts/update_readme.py:122-128 | no URL opens with two different forms' prefixes, so the order of the two expressions does not matter |
| Remote.MatchRemote | scripts/update_readme.py:122-130 | a match on a stripped URL is an `OWNER/REPO` identifier |
| Remote.MatchFindsShape | scripts/update_readme.py:122-130 | whenever an expression matches a stripped URL, the match succeeds and reports the lazy split |
| Remote.MatchIsLazy | scripts/update_readme.py:122-130 | a successful match on a stripped URL is the regex engine's match |
| Remote.ParseGithubRepoFromRemote | scripts/update_readme.py:112-130 | the parse result is an `OWNER/REPO` identifier: two non-empty segments around exactly one slash |
| Remote.ParseFindsMatch | scripts/update_readme.py:120-128 | completeness: whenever either expression matches the stripped URL, the parse succeeds, and it returns `owner/repo` of the lazy split |
| Remote.ParseIsLazyMatch | scripts/update_readme.py:120-130 | soundness: a successful parse is `owner/repo` of the regex engine's match of the stripped URL |
| Remote.NoShapeWhenUnparsed | scripts/update_readme.py:129-130 | when the parse fails, neither expression matches the stripped URL |
| Remote.EmptyUrlHasNoShape | scripts/update_readme.py:139 | the empty URL matches neither expression |
| Remote.RepoIdNotBlank | scripts/update_readme.py:139-142 | an identifier never strips to the empty string |
| Remote.DetectGithubRepo | scripts/update_readme.py:133-144 | a non-blank stripped variable is returned as is. Otherwise the result is the parse of the remote URL, or nothing when git gave no URL. An identifier is then returned exactly when the URL matches one of the two forms, and it is a valid `OWNER/REPO`. No blank identifier is ever returned |
| Modules.MatchH1 | scripts/update_readme.py:77-79 | a heading match yields a stripped title |
| Modules.MatchAfterHash | scripts/update_readme.py:77-79 | a match after '#' yields a stripped title |
| Modules.H1Complete | scripts/update_readme.py:77-79 | every reading of a line by `^\s*#\s+(.+?)\s*$` gives a match whose value is the stripped capture |
| Modules.H1Sound | scripts/update_readme.py:77-79 | every match on a single line comes from a reading by the regular expression, and its value is the stripped capture |
| Modules.DoubleHashIsNoH1 | scripts/update_readme.py:77 | a line whose text starts with "##" is not a level-one heading |
| Modules.FirstSome | scripts/update_readme.py:76-80 | the result is absent exactly when every value is absent; otherwise it is the value at an index with only absent values before it |
| Modules.FirstSomeIs | scripts/update_readme.py:76-79 | the first present value is the one returned |
| Modules.ScanLines | scripts/update_readme.py:76-80 | the loop returns the match of the first matching line, or nothing when no line matches |
| Modules.HeadingAt | scripts/update_readme.py:78-79 | the first matching line's result is the heading |
| Modules.NoHeading | scripts/update_readme.py:80 | without a matching line there is no heading |
| Modules.FirstH1 | scripts/update_readme.py:72-80 | no README.md gives no heading. A heading found is stripped, and it is the match of one of the README's `splitlines` |
| Modules.Title | scripts/update_readme.py:98 | the title is the directory name or the first heading; it is never empty for a named directory |
| Modules.BlankHeading | scripts/update_readme.py:77-79 | a line of `#` and two or more whitespace characters is accepted, with an empty title |
| Modules.EmptyHeadingHidesTitle | scripts/update_readme.py:76-98 | when the first accepted line of README.md strips to nothing, the title is the directory name, whatever heading follows |
| Modules.FirstH1FromReadme | scripts/update_readme.py:72-80 | there is no heading without a README.md; otherwise the result is the first heading among its `splitlines` |
| Modules.NotebookFiles | scripts/update_readme.py:94 | the names collected are exactly those of the regular files ending in `.ipynb`. When the directory's entries have distinct names, no name is collected twice |
| Modules.Notebooks | scripts/update_readme.py:94 | the notebook list is those names, rearranged in ascending order, and free of repeats when the entries' names are distinct |
| Order.DistinctByPerm | scripts/update_readme.py:94 | `sorted` keeps distinct keys distinct: a rearrangement repeats no key that the original did not |
| Modules.Select | scripts/update_readme.py:85-99 | selection never yields more items than entries |
| Modules.SelectSound | scripts/update_readme.py:86-99 | every selected item is the item of a qualifying entry |
| Modules.SelectComplete | scripts/update_readme.py:86-99 | every qualifying entry's item is selected |
| Modules.SelectMembers | scripts/update_readme.py:85-99 | selection from the name-sorted entries picks exactly the items of the qualifying entries |
| Modules.SelectSorted | scripts/update_readme.py:85 | selection from name-ordered entries gives items in directory-name order |
| Modules.ModuleList | scripts/update_readme.py:83-101 | the module list holds exactly the items of the qualifying entries: directories that are not excluded, not hidden and hold a notebook. The items are in ascending directory-name order. When the entries' names are distinct, no directory is listed twice: one item per module |
| Modules.SelectDistinct | scripts/update_readme.py:85-99 | selection from entries with distinct names gives items with distinct directories |
| Modules.ListModules | scripts/update_readme.py:83-101 | the loop with its `continue` filters builds exactly the module list |
| Modules.SelectStep | scripts/update_readme.py:86-99 | one more entry appends its item exactly when it qualifies |
| Modules.ListedModule | scripts/update_readme.py:85-99 | a listed module's name is not excluded and not hidden. Its notebook list is non-empty and sorted, and every name ends in `.ipynb`. Its notebooks are a rearrangement of the notebook files of a directory entry of that name |
| Modules.TitleChoice | scripts/update_readme.py:98 | the title is the first heading when that is non-empty. It is the directory name when README.md is missing or has no heading |
| Render.ColabLink | scripts/update_readme.py:147-149 | the URL opens with `https://colab.research.google.com/github/` and the repository, and ends with the notebook path |
| Render.NotebookLine | scripts/update_readme.py:164-171 | a notebook line is a nested list item. With an identifier it ends with the Colab link; without one it ends with the ZIKUU_GITHUB_REPO note |
| Render.ColabLinkInjective | scripts/update_readme.py:147-149 | for `OWNER/REPO` identifiers, the Colab URL determines both the repository and the notebook path |
| Render.NotebookLineLink | scripts/update_readme.py:161-165 | with an identifier, a notebook line links `https://colab.research.google.com/github/{repo}/blob/main/{dir}/{nb}` |
| Render.NotebookLineNoLink | scripts/update_readme.py:166-168 | without an identifier, a notebook line for a slash-free name holds no Colab URL |
| Render.TextsPointwise | scripts/update_readme.py:156-172 | entry `k` of the `lines` list is the text of the `k`-th line |
| Render.NotebookEntries | scripts/update_readme.py:162-171 | one line per notebook, in notebook order |
| Render.RenderText | scripts/update_readme.py:152-174 | no module gives the fixed line. Every block ends in exactly one "\n" with no whitespace before it |
| Render.RenderList | scripts/update_readme.py:152-174 | the nested loops compute the block |
| Render.BodyLayout | scripts/update_readme.py:160-172 | module `i` contributes its heading link, then one line per notebook in order, then a blank line, between the lines of the modules before and after it |
| Render.BodyLinesEnd | scripts/update_readme.py:160-172 | a non-empty body ends with a blank line after a heading or notebook line |
| Render.BodyLinesStep | scripts/update_readme.py:160-172 | one more module appends its lines |
| Render.EntriesStep | scripts/update_readme.py:162-171 | one more notebook appends its line |
| Render.VisibleEnd | scripts/update_readme.py:161-168 | heading and notebook lines are non-empty and do not end in whitespace |
| Render.RenderedLines | scripts/update_readme.py:158-174 | the right strip removes exactly the trailing separator: the block is the stamp line, a blank line, then the module lines, each followed by "\n" |
| Render.SplitRendered | scripts/update_readme.py:158-174 | reading the block back with `splitlines` gives those display lines, when no name, title, stamp or identifier holds a line boundary |
| Render.StampLeads | scripts/update_readme.py:158-159 | a non-empty block opens with `更新: <timestamp>` and a newline |
| Render.StampDistinguishes | scripts/update_readme.py:158-159 | equal non-empty blocks have equal single-line timestamps |
| Sync.Update | scripts/update_readme.py:194-216 | a missing README.md stops the run. The run fails exactly when the splice fails, and then with the splice's own error; a missing marker is reported exactly when the text lacks one. The run is up to date exactly when the splice gives back the file. Otherwise the spliced text, which differs from the file, is written, with the identifier hint exactly when no identifier was found |
| Sync.Run | scripts/update_readme.py:194-216 | `main`, with the listing and rendering loops, computes that outcome |
| Sync.WrittenIsSpliced | scripts/update_readme.py:206-213 | after a successful run the file holds the spliced text, written or not |
| Sync.SpliceAfterRun | scripts/update_readme.py:206-213 | after a run, later splices see only the text outside the markers: the previous block is forgotten |
| Sync.UpdateIdempotent | scripts/update_readme.py:206-211 | a second run with identical inputs, timestamp included, writes nothing |
| Sync.NewStampRewrites | scripts/update_readme.py:209-213 | with at least one module, a second run at a different timestamp always rewrites the file |

## Left out

- File system access is not modelled. Reading and writing files, `Path.exists`, `iterdir`, `glob`, `is_file` and `_get_repo_root` become inputs instead. A directory entry carries its name, whether it is a directory, its direct children, and its README.md text when that file exists.
- `_run_git` and the git subprocess are not modelled. The remote URL is an input, absent when git failed.
- The environment variable is an input (`env`).
- The clock is an input: the formatted UTC time string `now` (`%Y-%m-%d %H:%M:%SZ`). No format is imposed on it.
- Console output is not modelled, except that `Outcome.Rewritten.hint` records whether the ZIKUU_GITHUB_REPO note is printed. `SystemExit` is modelled as `ReadmeNotFound`, and the substitution's `RuntimeError`s as `MarkerProblem`.
- `readme_path.exists()` is true for a directory named README.md, after which reading fails; that I/O failure is not modelled.
- UTF-8 decoding is not modelled: strings are sequences of code points.
- The whitespace set of `strip` and `\s`, and the line boundaries of `splitlines`, are CPython's exact sets. Other Unicode behaviour of the `re` module is not modelled.
- Modules.Select: its own contract only bounds the length; soundness and completeness are stated by `SelectSound`, `SelectComplete` and `SelectMembers`.
- Text.SplitLines: it is tied back to the text by `Text.SplitLinesRejoin` only when '\n' is the text's sole line boundary. README.md is read with newline translation, so "\r\n" and "\r" arrive as '\n'; for the other boundaries (vertical tab, form feed, U+001C to U+001E, U+0085, U+2028, U+2029) the model states only that no line holds one.
- Newline translation by `read_text` and `write_text` (`_read_text` and `_write_text`) is not modelled. The model works on the decoded text. Once the file is rewritten, "\r\n" line ends outside the markers come back as "\n", so `Markers.ReplaceKeepsOutside` holds for the decoded text, not for the bytes on disk.
- Undecodable file names are not modelled. On POSIX such names arrive holding lone surrogates, which a Dafny `char` cannot hold, and writing them makes `_write_text` raise `UnicodeEncodeError`; the model has no such error path.
- Case-insensitive matching is not modelled. `Path.glob("*.ipynb")` matches without regard to case on Windows, while `Modules.IsNotebook` tests the suffix case-sensitively, as on POSIX.
- Modules.ModuleList: one item per module is promised only for entries with distinct names. A real directory listing always has them; the model takes that as a premise rather than building it into the input type. Modules.NotebookFiles and Modules.Notebooks make the same premise about a module's files.
- Sync.UpdateIdempotent: requires that the rendered block holds no END marker. The script does not enforce this: a module title, directory name or notebook name holding `<!-- ZIKUU_NOTEBOOKS_LIST:END -->` would break idempotence.
- Sync.NewStampRewrites: requires at least one module and single-line timestamps; the empty list's block has no timestamp.
