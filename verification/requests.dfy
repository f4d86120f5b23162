/**
 * One transcoding request (`Requester`): resolving its input, choosing its
 * output path, window and options, the readiness rule, the `ffmpeg` command
 * line, and the classification of the file a run leaves behind.
 */
module Requests {
  import opened Wrappers
  import opened Text
  import Paths
  import TimeWindow
  import Options

  /** What the video downloader does with a reference. */
  datatype Download =
    | Saved(path: string)         // downloaded to `path`
    | BotDetection                // refused as a bot: the tool falls back to a local file
    | DownloadError(message: string)  // any other failure except an AssertionError: escapes the batch

  /**
   * The world a request is built against: configured folders, and oracles
   * for the file system, the probe and the downloader.
   */
  datatype Env = Env(
    inputFolder: string,
    outputFolder: string,
    isFile: string -> bool,      // the path names an existing file
    probe: string -> string,     // what the probe command prints for an input path
    download: string -> Download)

  /** The four fields of an instruction line, in the order the constructor takes them. */
  datatype Job = Job(input: string, output: string, start: string, end: string)

  /** A request ready to run. */
  datatype Requester = Requester(
    input: string,          // resolved input path
    output: string,         // output folder joined with the output name
    seek: string,           // "" or "-ss <start>"
    duration: string,       // "" or "-t HH:MM:SS"
    options: seq<string>)   // transcoding options, in order

  /** Why a request is not ready. */
  datatype Reason =
    | SourceNotFound(name: string)  // the input does not exist; `name` is its basename
    | DownloadNotFound(path: string)  // the downloaded file is not there
    | CheckDuration(name: string)   // empty or reversed window; `name` is the output basename
    | OptionLikeName                // the output name starts with `-`

  /** The outcome of building a request. */
  datatype Built =
    | Ready(requester: Requester)
    | NotReady(reason: Reason)
    | Raised(error: string)   // an exception the tool does not catch, ending the batch

  /** Where the input of a request comes from. */
  datatype Resolution = Resolved(path: string) | Missing(reason: Reason) | Escaped(error: string)

  /** The reference names a video on the video site. */
  predicate IsRemote(reference: string)
  {
    Contains(reference, "youtube.com")
  }

  /** The download of the reference is used: it is remote and was saved. */
  predicate Downloaded(reference: string, env: Env)
  {
    IsRemote(reference) && env.download(reference).Saved?
  }

  /**
   * The path whose existence decides the input: the downloaded file, or the
   * reference as a file name in the input folder.
   */
  function Candidate(reference: string, env: Env): string
  {
    if Downloaded(reference, env) then env.download(reference).path
    else Paths.Join(env.inputFolder, reference)
  }

  /**
   * `set_input_file`: a remote reference is downloaded; when that is refused
   * as a bot, or the reference is not remote, the reference is a file name in
   * the input folder. Either way the path must name an existing file, or
   * the request is not ready; any other download failure escapes.
   */
  function Resolve(reference: string, env: Env): (r: Resolution)
    ensures r.Escaped? <==> IsRemote(reference) && env.download(reference).DownloadError?
    ensures r.Escaped? ==> r.error == env.download(reference).message
    ensures !r.Escaped? ==> (r.Resolved? <==> env.isFile(Candidate(reference, env)))
    ensures r.Resolved? ==> r.path == Candidate(reference, env) && env.isFile(r.path)
    ensures r.Missing? && Downloaded(reference, env) ==> r.reason == DownloadNotFound(Candidate(reference, env))
    ensures r.Missing? && !Downloaded(reference, env) ==>
              r.reason == SourceNotFound(Paths.Basename(Candidate(reference, env)))
  {
    if Downloaded(reference, env) then
      var saved := env.download(reference).path;
      if env.isFile(saved) then Resolved(saved) else Missing(DownloadNotFound(saved))
    else if IsRemote(reference) && env.download(reference).DownloadError? then Escaped(env.download(reference).message)
    else
      var local := Paths.Join(env.inputFolder, reference);
      if env.isFile(local) then Resolved(local) else Missing(SourceNotFound(Paths.Basename(local)))
  }

  /** The message of the `ValueError` raised by `int()` on a malformed time slice. */
  const BadTimeMessage: string := "invalid literal for int()"

  /**
   * `Requester(input, output, start, end)`: the input is resolved, then the
   * output path and options are set, then the seek, then the duration; the
   * first failure stops the rest, and a request whose output name starts with
   * `-` is not ready either.
   */
  function Build(job: Job, env: Env): (b: Built)
    ensures b.Ready? <==>
              && Resolve(job.input, env).Resolved?
              && TimeWindow.Duration(job.start, job.end).Success?
              && !StartsWith(job.output, "-")
    ensures Resolve(job.input, env).Missing? ==> b == NotReady(Resolve(job.input, env).reason)
    ensures b.Raised? <==>
              Resolve(job.input, env).Escaped? ||
              (Resolve(job.input, env).Resolved? &&
               TimeWindow.Duration(job.start, job.end) == Failure(TimeWindow.NotAnInteger))
    ensures b.Ready? ==>
              var r := b.requester;
              && r.input == Resolve(job.input, env).path
              && r.output == Paths.Join(env.outputFolder, job.output)
              && r.seek == TimeWindow.Seek(job.start)
              && r.duration == TimeWindow.Duration(job.start, job.end).value
              && r.options == Options.Select(r.output, env.probe(r.input))
  {
    match Resolve(job.input, env)
    case Escaped(e) => Raised(e)
    case Missing(reason) => NotReady(reason)
    case Resolved(input) =>
      var output := Paths.Join(env.outputFolder, job.output);
      var options := Options.Select(output, env.probe(input));
      var seek := TimeWindow.Seek(job.start);
      match TimeWindow.Duration(job.start, job.end)
      case Failure(NotAnInteger) => Raised(BadTimeMessage)
      case Failure(CheckDuration) => NotReady(CheckDuration(Paths.Basename(output)))
      case Success(duration) =>
        if StartsWith(job.output, "-") then NotReady(OptionLikeName)
        else Ready(Requester(input, output, seek, duration, options))
  }

  /** The input of a ready request is an existing file: the download, or the file in the input folder. */
  lemma ReadyInputExists(job: Job, env: Env)
    requires Build(job, env).Ready?
    ensures env.isFile(Build(job, env).requester.input)
    ensures Downloaded(job.input, env) ==> Build(job, env).requester.input == env.download(job.input).path
    ensures !Downloaded(job.input, env) ==>
              Build(job, env).requester.input == Paths.Join(env.inputFolder, job.input)
  {
  }

  /** A download that leaves no file makes the request not ready, naming the missing path. */
  lemma VanishedDownloadNotReady(job: Job, env: Env)
    requires IsRemote(job.input) && env.download(job.input).Saved?
    requires !env.isFile(env.download(job.input).path)
    ensures Build(job, env) == NotReady(DownloadNotFound(env.download(job.input).path))
  {
  }

  /**
   * `later` is `env` once files have been written: the same folders, probe
   * and downloader, and every file that existed still exists.
   */
  ghost predicate Grown(env: Env, later: Env)
  {
    && later.inputFolder == env.inputFolder
    && later.outputFolder == env.outputFolder
    && later.probe == env.probe
    && later.download == env.download
    && forall p :: env.isFile(p) ==> later.isFile(p)
  }

  /** Once files have been written, a request builds as before unless its input candidate has appeared. */
  lemma BuildUnchanged(job: Job, env: Env, later: Env)
    requires Grown(env, later)
    requires later.isFile(Candidate(job.input, env)) == env.isFile(Candidate(job.input, env))
    ensures Build(job, later) == Build(job, env)
  {
    assert Candidate(job.input, later) == Candidate(job.input, env);
    assert Resolve(job.input, later) == Resolve(job.input, env);
  }

  /**
   * An input candidate that appears once files have been written turns a
   * request that was not ready into one that is ready whenever its window and
   * output name are accepted.
   */
  lemma InputAppears(job: Job, env: Env, later: Env)
    requires Grown(env, later)
    requires !env.isFile(Candidate(job.input, env)) && later.isFile(Candidate(job.input, env))
    requires !(IsRemote(job.input) && env.download(job.input).DownloadError?)
    ensures Build(job, env).NotReady?
    ensures Build(job, later).Ready? <==>
              TimeWindow.Duration(job.start, job.end).Success? && !StartsWith(job.output, "-")
  {
    assert Candidate(job.input, later) == Candidate(job.input, env);
  }

  /**
   * A ready request seeks exactly when its start is not `00:00:00`, its
   * output name cannot be read as an option, and the output folder leaves the
   * output's basename as the instruction gave it.
   */
  lemma ReadyNames(job: Job, env: Env)
    requires Build(job, env).Ready?
    ensures Build(job, env).requester.seek == "" <==> job.start == TimeWindow.NoTime
    ensures !StartsWith(job.output, "-")
    ensures Paths.Basename(Build(job, env).requester.output) == Paths.Basename(job.output)
  {
    Paths.BasenameOfJoin(env.outputFolder, job.output);
  }

  /** An empty or reversed window never makes a ready request. */
  lemma EmptyWindowNeverReady(job: Job, env: Env)
    requires job.end != TimeWindow.NoTime
    requires TimeWindow.Seconds(job.start).Some? && TimeWindow.Seconds(job.end).Some?
    requires TimeWindow.Seconds(job.end).value <= TimeWindow.Seconds(job.start).value
    ensures !Build(job, env).Ready? && !Build(job, env).Raised? ==>
              Build(job, env).NotReady? &&
              (Resolve(job.input, env).Resolved? ==>
                 Build(job, env).reason == CheckDuration(Paths.Basename(Paths.Join(env.outputFolder, job.output))))
    ensures !Build(job, env).Ready?
  {
    TimeWindow.EmptyWindowRejected(job.start, job.end);
  }

  /**
   * `Requester.run`: `ffmpeg`, the seek option, the quoted input, the duration
   * option, the options joined by spaces and the quoted output, separated by
   * single spaces — seek before `-i`, duration after it.
   */
  function Command(r: Requester): (command: string)
    ensures StartsWith(command, CommandHead(r))
    ensures EndsWith(command, CommandTail(r))
    ensures |CommandHead(r)| + |CommandTail(r)| <= |command|
    ensures command[|CommandHead(r)|..|command| - |CommandTail(r)|] == r.duration + " " + Join(r.options, " ")
  {
    CommandHead(r) + r.duration + " " + Join(r.options, " ") + CommandTail(r)
  }

  /** The command up to the quoted input: `ffmpeg`, the seek option, `-i` and the input. */
  function CommandHead(r: Requester): string
  {
    "ffmpeg " + r.seek + " -i \"" + r.input + "\" "
  }

  /** The command after the options: the quoted output. */
  function CommandTail(r: Requester): string
  {
    " \"" + r.output + "\""
  }

  /**
   * In the command of a ready request, `-ss` and the start come right after
   * `ffmpeg` (when the start is not `00:00:00`) and so before `-i`, and the
   * duration option stands right after the quoted input, starting with `-t `
   * when the end is not `00:00:00`.
   */
  lemma CommandOrder(job: Job, env: Env, r: Requester)
    requires Build(job, env) == Ready(r)
    ensures job.start != TimeWindow.NoTime ==> StartsWith(Command(r), "ffmpeg -ss " + job.start + " -i \"")
    ensures job.start == TimeWindow.NoTime ==> StartsWith(Command(r), "ffmpeg  -i \"")
    ensures OccursAt(Command(r), r.duration, |CommandHead(r)|)
    ensures job.end != TimeWindow.NoTime ==> StartsWith(r.duration, "-t ")
    ensures job.end == TimeWindow.NoTime ==> r.duration == ""
  {
    CommandLayout(r, job.start);
  }

  /** Where the seek and duration options stand in the command of a request seeking to `start`. */
  lemma CommandLayout(r: Requester, start: string)
    requires r.seek == TimeWindow.Seek(start)
    ensures start != TimeWindow.NoTime ==> StartsWith(Command(r), "ffmpeg -ss " + start + " -i \"")
    ensures start == TimeWindow.NoTime ==> StartsWith(Command(r), "ffmpeg  -i \"")
    ensures OccursAt(Command(r), r.duration, |CommandHead(r)|)
  {
    var c, head := Command(r), CommandHead(r);
    SeekText(r.seek, start);
    MiddleStart(c, head, CommandTail(r), r.duration, " " + Join(r.options, " "));
    var lead := "ffmpeg " + r.seek + " -i \"";
    assert head == lead + r.input + "\" ";
    PrefixOfPrefix(c, head, lead);
  }

  /** The seek option followed by ` -i`, as it reads for both kinds of start. */
  lemma SeekText(seek: string, start: string)
    requires seek == TimeWindow.Seek(start)
    ensures start != TimeWindow.NoTime ==> "ffmpeg " + seek + " -i \"" == "ffmpeg -ss " + start + " -i \""
    ensures start == TimeWindow.NoTime ==> "ffmpeg " + seek + " -i \"" == "ffmpeg  -i \""
  {
  }

  /** A prefix of a prefix is a prefix. */
  lemma PrefixOfPrefix(s: string, p: string, q: string)
    requires StartsWith(s, p) && StartsWith(p, q)
    ensures StartsWith(s, q)
  {
    assert s[..|q|] == p[..|q|];
  }

  /** The text between a head and a tail starts where the head ends. */
  lemma MiddleStart(c: string, head: string, tail: string, first: string, rest: string)
    requires StartsWith(c, head) && EndsWith(c, tail) && |head| + |tail| <= |c|
    requires c[|head|..|c| - |tail|] == first + rest
    ensures |head| + |first| <= |c| && c[|head|..|head| + |first|] == first
  {
    assert c[|head|..|head| + |first|] == c[|head|..|c| - |tail|][..|first|];
  }

  /** Smallest size, in bytes, of an output the tool accepts. */
  const MinSize: nat := 1024

  /** What the check after a run finds. */
  datatype RunCheck = NoFile | VerySmall | Created

  /** The check after a run: the output must exist and hold at least `MinSize` bytes. */
  function Check(present: bool, size: nat): (o: RunCheck)
    ensures o == Created <==> present && size >= MinSize
    ensures o == NoFile <==> !present
  {
    if !present then NoFile else if size < MinSize then VerySmall else Created
  }
}
