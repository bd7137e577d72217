/**
 * One run of the synchroniser (`main`): detect the repository identifier, list
 * the modules, render the block, splice it into README.md between the markers,
 * and write the file only when the text changed.
 */
module Sync {
  import opened Wrappers
  import opened Text
  import opened Markers
  import opened Remote
  import opened Modules
  import opened Render

  /** Why a run stops without writing. */
  datatype UpdateError =
    | ReadmeNotFound                  // README.md does not exist at the repository root
    | MarkerProblem(e: MarkerError)   // the substitution raised

  /** What a successful run does with README.md. */
  datatype Outcome =
    | UpToDate                            // the spliced text equals the file: nothing is written
    | Rewritten(text: string, hint: bool) // the new text is written; `hint`: the run prints the ZIKUU_GITHUB_REPO note

  /** Everything a run reads besides README.md: the ZIKUU_GITHUB_REPO value, the
      output of `git config --get remote.origin.url`, the top-level directory entries and
      the clock's formatted reading. */
  datatype Inputs = Inputs(env: Option<string>, remote: Option<string>, entries: seq<DirEntry>, now: string)

  /** The repository identifier a run uses. */
  function Repo(inp: Inputs): Option<string> {
    DetectGithubRepo(inp.env, inp.remote)
  }

  /** The block a run renders. */
  function Block(inp: Inputs): string {
    RenderText(ModuleList(inp.entries), Repo(inp), inp.now)
  }

  /** The outcome of a run on `readme` (None when README.md is missing): the
      marker errors surface, and the file is written exactly when the spliced
      text differs from it. */
  function Update(readme: Option<string>, inp: Inputs): (r: Result<Outcome, UpdateError>)
    ensures r == Failure(ReadmeNotFound) <==> readme.None?
    ensures readme.Some? ==> (r == Failure(MarkerProblem(MarkersMissing)) <==> MissingMarker(readme.value))
    ensures r.Success? <==> readme.Some? && ReplaceBetweenMarkers(readme.value, Block(inp)).Success?
    ensures readme.Some? && ReplaceBetweenMarkers(readme.value, Block(inp)).Failure? ==>
      r == Failure(MarkerProblem(ReplaceBetweenMarkers(readme.value, Block(inp)).error))
    ensures r == Success(UpToDate) <==> readme.Some? && ReplaceBetweenMarkers(readme.value, Block(inp)) == Success(readme.value)
    ensures r.Success? && r.value.Rewritten? ==>
      (&& r.value.text != readme.value
       && r.value.text == ReplaceBetweenMarkers(readme.value, Block(inp)).value
       && (r.value.hint <==> !HasRepo(Repo(inp))))
  {
    if readme.None? then Failure(ReadmeNotFound)
    else
      var updated := ReplaceBetweenMarkers(readme.value, Block(inp));
      if updated.Failure? then Failure(MarkerProblem(updated.error))
      else if updated.value == readme.value then Success(UpToDate)
      else Success(Rewritten(updated.value, !HasRepo(Repo(inp))))
  }

  /** `main`, with the directory listing and the rendering run as loops. */
  method Run(readme: Option<string>, inp: Inputs) returns (r: Result<Outcome, UpdateError>)
    ensures r == Update(readme, inp)
  {
    if readme.None? {
      return Failure(ReadmeNotFound);
    }
    var githubRepo := DetectGithubRepo(inp.env, inp.remote);
    var items := ListModules(inp.entries);
    var newBlock := RenderList(items, githubRepo, inp.now);
    var updated := ReplaceBetweenMarkers(readme.value, newBlock);
    if updated.Failure? {
      return Failure(MarkerProblem(updated.error));
    }
    if updated.value == readme.value {
      return Success(UpToDate);
    }
    r := Success(Rewritten(updated.value, !HasRepo(githubRepo)));
  }

  /** README.md's text after a successful run. */
  function Written(readme: string, o: Outcome): string {
    if o.Rewritten? then o.text else readme
  }

  /** After a successful run the file holds the spliced text, written or not. */
  lemma WrittenIsSpliced(readme: string, inp: Inputs)
    requires Update(Some(readme), inp).Success?
    ensures Written(readme, Update(Some(readme), inp).value) == ReplaceBetweenMarkers(readme, Block(inp)).value
  {
  }

  /** Only the newest run matters: after a successful run, splicing any block
      into the file gives what splicing it into the original would have, as long
      as the first block holds no END marker. */
  lemma SpliceAfterRun(readme: string, inp: Inputs, block: string)
    requires Update(Some(readme), inp).Success?
    requires !Contains(Block(inp), EndMarker)
    ensures ReplaceBetweenMarkers(Written(readme, Update(Some(readme), inp).value), block)
         == ReplaceBetweenMarkers(readme, block)
  {
    var first := Block(inp);
    WrittenIsSpliced(readme, inp);
    ReplaceTwice(readme, first, block);
  }

  /** Idempotence: a second run with the same inputs, timestamp included, finds
      the file up to date, when the block holds no END marker. */
  lemma UpdateIdempotent(readme: string, inp: Inputs)
    requires Update(Some(readme), inp).Success?
    requires !Contains(Block(inp), EndMarker)
    ensures Update(Some(Written(readme, Update(Some(readme), inp).value)), inp) == Success(UpToDate)
  {
    SpliceAfterRun(readme, inp, Block(inp));
    WrittenIsSpliced(readme, inp);
  }

  /** The same inputs at another time: when there is at least one module and
      the timestamps are single lines, a run at a different timestamp always
      rewrites the file, so the write-only-if-changed test never skips a run
      whose clock reading moved on. */
  lemma NewStampRewrites(readme: string, inp: Inputs, later: string)
    requires Update(Some(readme), inp).Success?
    requires !Contains(Block(inp), EndMarker)
    requires ModuleList(inp.entries) != []
    requires '\n' !in inp.now && '\n' !in later && later != inp.now
    ensures var r := Update(Some(Written(readme, Update(Some(readme), inp).value)), inp.(now := later));
      r.Success? && r.value.Rewritten?
  {
    var inp2 := inp.(now := later);
    WrittenIsSpliced(readme, inp);
    if Block(inp) == Block(inp2) {
      StampDistinguishes(ModuleList(inp.entries), Repo(inp), inp.now, ModuleList(inp.entries), Repo(inp), later);
      assert false;
    }
    ReplaceChanges(readme, Block(inp), Block(inp2));
  }
}
