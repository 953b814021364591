/**
 * `downloadEncryptedPages` (downloadSignedUrls.mjs): resolve the output
 * directory, create it, then walk the page URLs in order, handing each page
 * with its numbered file to the fetch-decrypt-write step and pausing after
 * it. The effects are recorded as a trace of events; whether a directory
 * can be created and whether a page step fails are the environment's
 * answers, given as parameters.
 */
module Downloader {
  import opened Wrappers
  import opened Hex
  import opened Extractor
  import opened PageNames

  /** The `dest` option: absent, an absolute path, or segments under the module's directory. */
  datatype Dest = Unspecified | Absolute(path: string) | Relative(paths: seq<string>)

  /**
   * `path.join`, left uninterpreted: Join is the call over the destination
   * segments, JoinFile the call that joins that directory with a file name.
   */
  datatype FilePath = Join(segments: seq<string>) | JoinFile(dir: FilePath, name: string)

  datatype Event =
    | MakeDirectory(dir: FilePath)
      /** One call of `decryptMangaPage`: the URL, the key and IV bytes, the file to write. */
    | DecryptPage(url: string, key: seq<Byte>, iv: seq<Byte>, file: FilePath)
    | Cooldown(ms: nat)

  datatype PageError = FetchFailed(status: int) | DecryptFailed | WriteFailed

  /** PageFailed records the position of the failing page. */
  datatype DownloadError = MakeDirectoryFailed | PageFailed(index: nat, cause: PageError)

  /** How the outside world answers: directory creation and each page step. */
  datatype Env = Env(makeDirectoryOk: FilePath -> bool, pageStep: Event -> Option<PageError>)

  const CooldownMs: nat := 500
  const ScratchSegment: string := "temp"

  /** The segments joined into the output directory. */
  function DestinationSegments(moduleDir: string, dest: Dest): (segments: seq<string>)
    ensures dest.Absolute? ==> segments == [dest.path]
    ensures !dest.Absolute? ==> |segments| >= 1 && segments[0] == moduleDir
    ensures dest.Unspecified? ==> segments[1..] == [ScratchSegment]
    ensures dest.Relative? ==> segments[1..] == dest.paths
  {
    match dest
    case Unspecified => [moduleDir, ScratchSegment]
    case Absolute(path) => [path]
    case Relative(paths) => [moduleDir] + paths
  }

  function ParentDir(moduleDir: string, dest: Dest): FilePath {
    Join(DestinationSegments(moduleDir, dest))
  }

  /** The file of the page at 0-based position index, joined onto the output directory. */
  function PageFile(dir: FilePath, index: nat): (file: FilePath)
    ensures file.JoinFile? && file.dir == dir
  {
    JoinFile(dir, PageFileName(index))
  }

  /** The page step for position index. */
  function PageStep(urls: seq<string>, data: DecryptData, dir: FilePath, index: nat): Event
    requires index < |urls|
  {
    DecryptPage(urls[index], HexDecode(data.hexKey), HexDecode(data.hexIv), PageFile(dir, index))
  }

  /** The events of the first n pages, each step followed by its cooldown. */
  function CompletedPages(urls: seq<string>, data: DecryptData, dir: FilePath, n: nat): seq<Event>
    requires n <= |urls|
  {
    if n == 0 then [] else CompletedPages(urls, data, dir, n - 1) + [PageStep(urls, data, dir, n - 1), Cooldown(CooldownMs)]
  }

  predicate StepSucceeds(env: Env, urls: seq<string>, data: DecryptData, dir: FilePath, index: nat)
    requires index < |urls|
  {
    env.pageStep(PageStep(urls, data, dir, index)).None?
  }

  /** The first n page steps all succeed. */
  predicate StepsSucceed(env: Env, urls: seq<string>, data: DecryptData, dir: FilePath, n: nat)
    requires n <= |urls|
  {
    forall i | 0 <= i < n :: StepSucceeds(env, urls, data, dir, i)
  }

  /** The page step at position f is the first to fail, and fails with cause. */
  predicate FirstFailure(env: Env, urls: seq<string>, data: DecryptData, dir: FilePath, f: nat, cause: PageError)
  {
    && f < |urls|
    && StepsSucceed(env, urls, data, dir, f)
    && env.pageStep(PageStep(urls, data, dir, f)) == Some(cause)
  }

  /** One more completed page appends its step and its cooldown. */
  lemma NextCompletedPage(urls: seq<string>, data: DecryptData, dir: FilePath, n: nat)
    requires n < |urls|
    ensures CompletedPages(urls, data, dir, n + 1)
         == CompletedPages(urls, data, dir, n) + [PageStep(urls, data, dir, n), Cooldown(CooldownMs)]
  {
  }

  lemma NextStepSucceeds(env: Env, urls: seq<string>, data: DecryptData, dir: FilePath, n: nat)
    requires n < |urls| && StepsSucceed(env, urls, data, dir, n) && StepSucceeds(env, urls, data, dir, n)
    ensures StepsSucceed(env, urls, data, dir, n + 1)
  {
  }

  /** A first failure at f rules out a run in which every step succeeds. */
  lemma FailureEndsRun(env: Env, urls: seq<string>, data: DecryptData, dir: FilePath, f: nat, cause: PageError)
    requires FirstFailure(env, urls, data, dir, f, cause)
    ensures !StepsSucceed(env, urls, data, dir, |urls|)
  {
    assert !StepSucceeds(env, urls, data, dir, f);
  }

  /** The branches that pick `pathToJoin`, then its `path.join`. */
  method ResolveDestination(moduleDir: string, dest: Dest) returns (parentDir: FilePath)
    ensures parentDir == ParentDir(moduleDir, dest)
  {
    var pathToJoin: seq<string> := [];
    if dest.Unspecified? {
      pathToJoin := [moduleDir, ScratchSegment];
    } else if dest.Absolute? {
      pathToJoin := [dest.path];
    } else {
      pathToJoin := [moduleDir] + dest.paths;
    }
    parentDir := Join(pathToJoin);
  }

  method DownloadEncryptedPages(urls: seq<string>, decryptData: DecryptData, dest: Dest, moduleDir: string, env: Env)
    returns (result: Result<(), DownloadError>, trace: seq<Event>)
    ensures |trace| >= 1 && trace[0] == MakeDirectory(ParentDir(moduleDir, dest))
    ensures result == Failure(MakeDirectoryFailed) <==> !env.makeDirectoryOk(ParentDir(moduleDir, dest))
    ensures result == Failure(MakeDirectoryFailed) ==> trace == [MakeDirectory(ParentDir(moduleDir, dest))]
    ensures result.Success? <==>
      env.makeDirectoryOk(ParentDir(moduleDir, dest)) && StepsSucceed(env, urls, decryptData, ParentDir(moduleDir, dest), |urls|)
    ensures result.Success? ==>
      trace == [MakeDirectory(ParentDir(moduleDir, dest))] + CompletedPages(urls, decryptData, ParentDir(moduleDir, dest), |urls|)
    ensures result.Failure? && result.error.PageFailed? ==>
      && env.makeDirectoryOk(ParentDir(moduleDir, dest))
      && FirstFailure(env, urls, decryptData, ParentDir(moduleDir, dest), result.error.index, result.error.cause)
      && trace == [MakeDirectory(ParentDir(moduleDir, dest))]
                  + CompletedPages(urls, decryptData, ParentDir(moduleDir, dest), result.error.index)
                  + [PageStep(urls, decryptData, ParentDir(moduleDir, dest), result.error.index)]
  {
    var parentDir := ResolveDestination(moduleDir, dest);
    trace := [MakeDirectory(parentDir)];
    if !env.makeDirectoryOk(parentDir) {
      return Failure(MakeDirectoryFailed), trace;
    }
    var pageTrace;
    result, pageTrace := DownloadPages(urls, decryptData, parentDir, env);
    trace := trace + pageTrace;
  }

  /**
   * The `for` loop of `downloadEncryptedPages`: page after page in order,
   * the step for the page's URL and numbered file, then the cooldown; the
   * first failing step ends the loop.
   */
  method DownloadPages(urls: seq<string>, decryptData: DecryptData, parentDir: FilePath, env: Env)
    returns (result: Result<(), DownloadError>, trace: seq<Event>)
    ensures result.Success? <==> StepsSucceed(env, urls, decryptData, parentDir, |urls|)
    ensures result.Success? ==> trace == CompletedPages(urls, decryptData, parentDir, |urls|)
    ensures result.Failure? ==>
      && result.error.PageFailed?
      && FirstFailure(env, urls, decryptData, parentDir, result.error.index, result.error.cause)
      && trace == CompletedPages(urls, decryptData, parentDir, result.error.index)
                  + [PageStep(urls, decryptData, parentDir, result.error.index)]
  {
    trace := [];
    var pageLength := |urls|;
    var index := 0;
    while index < pageLength
      invariant index <= pageLength
      invariant trace == CompletedPages(urls, decryptData, parentDir, index)
      invariant StepsSucceed(env, urls, decryptData, parentDir, index)
    {
      var url := urls[index];
      var absoluteDest := JoinFile(parentDir, PageFileName(index));
      var step := DecryptPage(url, HexDecode(decryptData.hexKey), HexDecode(decryptData.hexIv), absoluteDest);
      assert step == PageStep(urls, decryptData, parentDir, index);
      trace := trace + [step];
      var outcome := env.pageStep(step);
      if outcome.Some? {
        assert FirstFailure(env, urls, decryptData, parentDir, index, outcome.value);
        FailureEndsRun(env, urls, decryptData, parentDir, index, outcome.value);
        return Failure(PageFailed(index, outcome.value)), trace;
      }
      assert StepSucceeds(env, urls, decryptData, parentDir, index);
      trace := trace + [Cooldown(CooldownMs)];
      NextCompletedPage(urls, decryptData, parentDir, index);
      NextStepSucceeds(env, urls, decryptData, parentDir, index);
      index := index + 1;
    }
    return Success(()), trace;
  }
}

/** What the trace of a download run says about pages, names and pauses. */
module DownloaderProperties {
  import opened Wrappers
  import opened Hex
  import opened Extractor
  import opened ExtractorProperties
  import opened PageNames
  import opened Downloader

  /**
   * The events of n completed pages: for every position i < n, in order,
   * the step of page i (its URL, its 1-based file) and then a cooldown.
   */
  lemma {:induction false} CompletedPagesLayout(urls: seq<string>, data: DecryptData, dir: FilePath, n: nat)
    requires n <= |urls|
    ensures var evs := CompletedPages(urls, data, dir, n);
      && |evs| == 2 * n
      && forall i | 0 <= i < n ::
           evs[2 * i] == PageStep(urls, data, dir, i) && evs[2 * i + 1] == Cooldown(CooldownMs)
  {
    if n > 0 {
      var prev := CompletedPages(urls, data, dir, n - 1);
      var evs := CompletedPages(urls, data, dir, n);
      CompletedPagesLayout(urls, data, dir, n - 1);
      assert evs == prev + [PageStep(urls, data, dir, n - 1), Cooldown(CooldownMs)];
      forall i | 0 <= i < n
        ensures evs[2 * i] == PageStep(urls, data, dir, i) && evs[2 * i + 1] == Cooldown(CooldownMs)
      {
        if i < n - 1 {
          assert evs[2 * i] == prev[2 * i] && evs[2 * i + 1] == prev[2 * i + 1];
        }
      }
    }
  }

  /**
   * A run that fails at page f has emitted the steps of pages 0..f only:
   * the step of no later page appears in its trace.
   */
  lemma FailureStopsLoop(urls: seq<string>, data: DecryptData, dir: FilePath, f: nat)
    requires f < |urls|
    ensures var evs := CompletedPages(urls, data, dir, f) + [PageStep(urls, data, dir, f)];
      forall j | f < j < |urls| :: PageStep(urls, data, dir, j) !in evs
  {
    forall j | f < j < |urls|
      ensures PageStep(urls, data, dir, j) !in CompletedPages(urls, data, dir, f) + [PageStep(urls, data, dir, f)]
    {
      LaterStepAbsent(urls, data, dir, f, j);
    }
  }

  lemma LaterStepAbsent(urls: seq<string>, data: DecryptData, dir: FilePath, f: nat, j: nat)
    requires f < j < |urls|
    ensures PageStep(urls, data, dir, j) !in CompletedPages(urls, data, dir, f) + [PageStep(urls, data, dir, f)]
  {
    var done := CompletedPages(urls, data, dir, f);
    CompletedPagesLayout(urls, data, dir, f);
    forall x | 0 <= x < |done| ensures done[x] != PageStep(urls, data, dir, j) {
      EarlierEvent(urls, data, dir, f, j, x);
    }
    PageFilesDistinctInDir(dir, f, j);
  }

  /** Event x of the first f completed pages is a cooldown or the step of a page before f. */
  lemma EarlierEvent(urls: seq<string>, data: DecryptData, dir: FilePath, f: nat, j: nat, x: nat)
    requires f < j < |urls| && x < 2 * f
    ensures |CompletedPages(urls, data, dir, f)| == 2 * f
    ensures CompletedPages(urls, data, dir, f)[x] != PageStep(urls, data, dir, j)
  {
    var evs := CompletedPages(urls, data, dir, f);
    CompletedPagesLayout(urls, data, dir, f);
    var i := x / 2;
    if x == 2 * i {
      assert evs[2 * i] == PageStep(urls, data, dir, i);
      PageFilesDistinctInDir(dir, i, j);
    } else {
      assert evs[2 * i + 1] == Cooldown(CooldownMs);
    }
  }

  /** Every page file lies directly inside the directory created first, and no two pages share a file. */
  lemma PageFilesDistinctInDir(dir: FilePath, i: nat, j: nat)
    ensures PageFile(dir, i).dir == dir && PageFile(dir, i).name == PageFileName(i)
    ensures i != j ==> PageFile(dir, i) != PageFile(dir, j)
  {
    if i != j {
      PageFileNamesDistinct(i, j);
    }
  }

  /**
   * A step emitted for secrets returned by the extractor carries a 32-byte key
   * and a 16-byte IV.
   */
  lemma StepCarriesAesSizes(text: string, urls: seq<string>, dir: FilePath, i: nat)
    requires ExtractSecrets(text).Success? && i < |urls|
    ensures var e := PageStep(urls, ExtractSecrets(text).value, dir, i);
      |e.key| == 32 && |e.iv| == 16
  {
    SecretSizes(text);
  }

  /** The directory options of the source and two concrete cases. */
  lemma DestinationExamples(base: string)
    ensures DestinationSegments(base, Relative(["out", "ch1"])) == [base, "out", "ch1"]
    ensures DestinationSegments(base, Unspecified) == [base, "temp"]
    ensures DestinationSegments(base, Absolute("/data/ch")) == ["/data/ch"]
  {
  }
}
