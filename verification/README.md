# ffmpeg_requester in Dafny

ffmpeg_requester is a batch driver for `ffmpeg`. It reads an instruction file of tab-separated lines. Each line gives an output name, a start time, an end time and an input reference. Every line that survives the filter is read into a job. In the default mode, each job whose output is not already indexed becomes a `Requester`; with `return_args` the jobs are returned as they are. A requester resolves its input, chooses the transcoding options from the output extension, and turns the time window into `-ss` / `-t` options. When it is ready, it yields one `ffmpeg` command line.

This project models the core of `src/requester.py` as pure functions over immutable data. The parts are:

- the line filter of `get_requesters`: comment and stop lines, collapsing runs of tabs, the four fields, and cleaning the output name;
- the time window: `set_start` and `set_duration`;
- option selection: `set_output_file` and `add_resize_option`, including the `1080` resize rule;
- readiness (`__init__`) and the command line (`run`);
- the index of existing outputs by basename (`get_exists`);
- the check after a run: no file, a very small file, or a created file.

The world outside the program becomes data. An `Env` record carries the configured folders and three oracles:

- whether a path is an existing file;
- what the probe prints for an input;
- what the video downloader does with a reference.

Python's string built-ins and `os.path` functions are defined in `Text` and `Paths`, each with the meaning the tool relies on.

Modules, from the bottom up:

- `Wrappers`: `Option` and `Result`.
- `Text`: `startswith`, `endswith`, `in`, `count`, one-character `replace`, `split`, `join`, `str(n)` and `int(s)`.
- `Paths`: `os.path.join`, `basename` and the root half of `splitext`, with the POSIX separator.
- `TimeWindow`: `set_start` and `set_duration`.
- `Options`: the option lists, the resize rule and the title tag.
- `Requests`: `Requester.__init__`, `set_input_file`, `run` and the check after a run.
- `Parser`: the per-line filter of `get_requesters`.
- `ExistingIndex`: `get_exists`.
- `Batch`: the loop of `get_requesters`. The loop is written once, as a method generic over the per-job decision, and is instantiated with the tool's decision. Its result is stated against a functional reference, `Select` applied to `Args`.

Behaviours of the code worth noting:

- A stop line is any line that *starts with* `STOP`, not only a line equal to it.
- The `-` readiness test looks at the cleaned output name as written in the instruction (it may contain folders), not at its basename.
- A downloaded input is checked for existence like a local one. A download that leaves no file makes the request not ready; it does not fall back to the input folder.
- An output that the index reports as existing is skipped without any size check. The size check, and the re-queueing of the raw line, happen only for outputs found on disk after a successful build. The re-queued lines go into a local list that `get_requesters` never returns, so they do not affect its result.
- The index holds only `.mkv` files.
- Running the same instruction file twice is not always idempotent. All requests are built before any `ffmpeg` runs. A line whose input is the output of an earlier line is therefore not ready on the first run, and it is selected on the second.

## Model

| member | source | states |
|---|---|---|
| Parser.MarkersArePrefixes | src/requester.py:212-215 | The comment test is exactly `startswith('#')` and the stop test is exactly `startswith('STOP')`. |
| Parser.ClassifyMarkers | src/requester.py:212-215 | A line is a comment iff it starts with `#`. It is a stop line iff it is not a comment and starts with `STOP`. The comment test comes first. |
| Parser.ReplaceDoubleTabs | src/requester.py:219 | One `replace('\t\t', '\t')` pass strictly shortens text that contains a double tab, so the collapse loop ends. It never lengthens text and keeps the first character. |
| Parser.CollapseTabs | src/requester.py:218-219 | After the loop no double tab remains. |
| Parser.CollapseIsSqueeze | src/requester.py:218-219 | The loop of replacement passes equals an independent definition: delete every tab that is followed by another tab. |
| Parser.SqueezeKeepsText | src/requester.py:218-219 | The collapse deletes tabs only. Every other character stays, in order, and a tab remains iff there was one. |
| Parser.ClassifyShape | src/requester.py:220-226 | A malformed line is one whose collapsed text splits into a field count other than 4, and that count is the number of tabs plus one. A job comes from exactly three tabs. Its start, end and input hold no tab, and its output name holds no `?` or `"`. |
| Parser.WarnsIff | src/requester.py:221-223 | The delimiter warning is given iff the line is neither a comment nor a stop line and splits into more than four fields. |
| Parser.FourFieldLine | src/requester.py:218-228 | Four non-empty tab-free fields separated by runs of tabs of any length are read as the job (input, cleaned output, start, end), unless the line starts as a comment or a stop line. |
| Parser.CleanName | src/requester.py:226 | The cleaned output name holds no `?` and no `"`. |
| Parser.CleanNameContents | src/requester.py:226 | The cleaned name has one `'` per `"` of the original. It is shorter by exactly the number of `?` and `'` removed. Every other character is kept, in order. |
| Batch.StopCutsOff | src/requester.py:214-215 | No line after the first stop line contributes a job, whatever it holds. |
| Batch.SkippedLineIgnored | src/requester.py:212-223 | Removing a comment or malformed line anywhere does not change the jobs read. |
| Batch.JobsAppend | src/requester.py:207-228 | Without a stop line, the jobs of two blocks of lines are the jobs of the first block followed by the jobs of the second. |
| Batch.ArgsCleanNames | src/requester.py:226-228 | Every job read has an output name free of `?` and `"`. |
| Batch.Admit | src/requester.py:229-241 | A job fails the batch iff its output is not indexed and building it raises. It yields a request iff its output is not indexed, it is ready, and its output path is not already a file. That request is the one built. |
| Batch.GetRequesters | src/requester.py:200-242 | With `return_args` the result is the jobs of all lines before the first stop line. Without it, the result is the requests admitted from those jobs in order, or the first exception. |
| Batch.Collect | src/requester.py:207-242 | The single pass with early stop and early exit computes the functional reference `Select(Args(lines), admit)` for any per-job decision `admit`. |
| Batch.Take | src/requester.py:229-241 | One job step aborts iff the job's admission raises, and then with that job's exception. Otherwise the requests become the requests so far followed by the job's contribution. Either way the step agrees with the selection of the job and the remaining jobs. |
| Batch.SelectSound | src/requester.py:232-241 | Every selected request is what the decision made of one of the jobs. |
| Batch.SelectComplete | src/requester.py:240-241 | Every request the decision makes of a job is selected. |
| Batch.SelectFails | src/requester.py:232 | The batch aborts iff building some job raises. |
| Batch.SelectedEach | src/requester.py:232-241 | In a batch that does not abort, every job was admitted, and its request, if any, is among those selected. |
| Batch.SelectNothing | src/requester.py:229-234 | When no job yields a request, nothing is selected. |
| Batch.AdmitAgain | src/requester.py:235-236 | Once the outputs of a run exist, a job admitted before is skipped as already processed. This holds when files are only ever added, the folders, probe and downloader are unchanged, and the job's input candidate has not appeared in between, so that the job builds as before. |
| Batch.RerunSelectsNothing | src/requester.py:229-241 | Running the same jobs again after the selected requests wrote their outputs selects nothing. This holds when files are only ever added, the folders, probe and downloader are unchanged, and no job's input candidate has appeared in between. |
| Batch.AppearedInputAdmitted | src/requester.py:88-94 | A job whose output is not in the index, whose download does not fail with an error other than a bot refusal, and whose input candidate appears between two runs, is passed over by the first run as not ready, and admitted by the second when its window and output name are accepted and its output is not on disk. |
| Batch.ChainedJobRunsOnRerun | src/requester.py:229-241 | With two jobs where the second job's local input is the first job's output, the first run selects only the first request and the rerun selects only the second. |
| ExistingIndex.ExistsIff | src/requester.py:185-198 | A name is reported as existing iff some found file, in any folder, has the same basename. |
| ExistingIndex.OnlyExtensionIndexed | src/requester.py:190 | When every found file ends in one extension, no name with another extension is reported as existing. |
| Requests.Resolve | src/requester.py:78-96 | The input escapes iff the reference is remote and its download fails with an error other than a bot refusal, and the escaped error is that failure's message. Otherwise the input resolves iff the candidate path names an existing file. The candidate is the downloaded file for a saved download, else the reference joined to the input folder. A resolved path is the candidate. A missing download names its path; a missing local file names its basename. |
| Requests.Build | src/requester.py:20-63 | A request is ready iff its input resolves, its window is accepted, and its output name does not start with `-`. A missing input gives the not-ready reason of its resolution. A raise happens iff the download escapes, or the input resolves and a time slice is not an integer. A ready request holds the resolved input, the joined output, the seek and duration options, and the options for its output. |
| Requests.ReadyInputExists | src/requester.py:72-96 | The input of a ready request is an existing file. It is the downloaded file for a saved download, else the file in the input folder. |
| Requests.BuildUnchanged | src/requester.py:54-63 | When files are only ever added and the folders, probe and downloader are unchanged, a request builds as before unless its input candidate has appeared. |
| Requests.InputAppears | src/requester.py:88-94 | A request whose download does not fail with an error other than a bot refusal, and whose input candidate was missing, is not ready. Once the candidate appears, it is ready iff its window is accepted and its output name does not start with `-`. |
| Requests.VanishedDownloadNotReady | src/requester.py:74 | A saved download that is not an existing file makes the request not ready, naming the downloaded path. |
| Requests.ReadyNames | src/requester.py:54-63 | A ready request seeks iff its start is not `00:00:00`. Its output name does not start with `-`. Its output path has the basename the instruction gave. |
| Requests.EmptyWindowNeverReady | src/requester.py:133-135 | An empty or reversed window is never ready. With a resolved input the reason is "check duration" for the output's basename. |
| Requests.Command | src/requester.py:160-161 | The command is `ffmpeg`, the seek option and the quoted input, then the duration option, a space and the options joined by single spaces, then the quoted output. |
| Requests.CommandLayout | src/requester.py:160-161 | In the command, `-ss` and the start follow `ffmpeg` directly when the start is not `00:00:00`, so they stand before `-i`; otherwise `-i` follows `ffmpeg` after two spaces. The duration option stands right after the quoted input. |
| Requests.CommandOrder | src/requester.py:138-161 | For a ready request, the seek part comes from the job's start and stands before `-i`. The duration option stands right after the quoted input: empty when the end is `00:00:00`, otherwise starting with `-t `. |
| Requests.Check | src/requester.py:167-170 | The check reports a created file iff it exists and holds at least 1024 bytes, and no file iff it does not exist. |
| Options.Select | src/requester.py:98-115 | Every option list starts with `-v quiet`. An `.mp3` output adds the two audio options and then a title tag. An `.mkv` output adds the ten video options and then the scaling filter. Any other output gets nothing more. |
| Options.ResizeOption | src/requester.py:148-155 | The filter scales to 720 lines iff the probe output contains `1080`. Otherwise it keeps an even size. |
| Options.FixedListsHaveNoFilter | src/requester.py:35-53 | None of the fixed option lists holds a `-vf` filter. |
| Options.OneFilterForVideo | src/requester.py:107-115 | A video output gets exactly one `-vf` filter. Every other output gets none. |
| Options.TitleIsBasename | src/requester.py:110-111 | The title tag of an `.mp3` output is its basename without `.mp3`, for a basename that has a non-dot character before `.mp3` (otherwise `splitext` does not split there). |
| Options.ResizeExamples | src/requester.py:152 | The substring rule scales both 1920x1080 and 1080x1920 to 720 lines, and leaves 1280x720 at its even size. |
| TimeWindow.Seek | src/requester.py:138-146 | There is no seek option iff the start is `00:00:00`. Otherwise it is `-ss ` followed by the start text, unchanged. |
| TimeWindow.Duration | src/requester.py:117-136 | There is no duration option when the end is `00:00:00`. A non-integer slice is an error. With both ends read, the option exists iff the end lies after the start, and it starts with `-t `. |
| TimeWindow.EmptyWindowRejected | src/requester.py:133-135 | An end at or before the start fails the duration check. |
| TimeWindow.DurationRoundTrip | src/requester.py:127-136 | The duration option of a window shorter than 100 hours, read back through the same slices after `-t `, gives exactly the elapsed seconds. |
| TimeWindow.ClockRoundTrip | src/requester.py:136 | The printed elapsed time below 100 hours is eight characters with colons at positions 2 and 5. It reads back as the same number of seconds, and its minutes and seconds are below 60. |
| TimeWindow.CanonicalRoundTrip | src/requester.py:128-136 | A canonical `HH:MM:SS` text is printed back exactly from the seconds it reads as. |
| TimeWindow.Pad2Format | src/requester.py:136 | `{n:02d}` is `str(n)` padded with one leading zero below 10, and unchanged from 10 on. |
| TimeWindow.DurationExample | src/requester.py:123-146 | The window 00:16:41 to 00:22:35 gives `-ss 00:16:41` and `-t 00:05:54`. |
| Paths.BasenameOfJoin | src/requester.py:104 | Joining a folder to a name never changes the name's basename. |
| Paths.BasenameUnique | src/requester.py:195 | The basename is the only separator-free suffix that is the whole path or that follows a separator. |
| Paths.StemOfExtension | src/requester.py:110 | The stem followed by the extension is the basename, for a basename that has a non-dot character before the extension. |
| Text.ContainsIff | src/requester.py:152 | Python's scanning `in` holds iff the pattern occurs at some offset. |
| Text.Split | src/requester.py:220 | `split` gives one more field than there are separators, and no field holds the separator. |
| Text.JoinSplit | src/requester.py:220 | Joining the fields of a split with the same separator gives the text back. |
| Text.SplitJoin | src/requester.py:220 | Splitting the join of separator-free fields gives the fields back. |
| Text.ReplaceKeepsOthers | src/requester.py:226 | A replacement leaves every character that is neither the pattern nor in the replacement in place, in order. |
| Text.DecimalRoundTrip | src/requester.py:136 | Reading back the printed decimal gives the number. |

## Left out

- Downloading from the video site (`get_input_from_youtube`, pytube) is an oracle in `Env`: saved to a path, refused as a bot, or failed with another error. A bot refusal falls back to the input folder. An `AssertionError` ends only that request, which is not ready; the one the code raises, the existence check of the saved file, is modelled as `DownloadNotFound`. `DownloadError` stands for every other exception, which escapes and aborts the batch.
- `ExistingFilename` and `assert_argument_types` come from an external helper package that is not part of this model. The existence check is the `isFile` oracle, and the argument types are Dafny's types. The logger's messages and warnings are not modelled.
- The probe (`subprocess.run` of `ffprobe` on the input path) is the `probe` oracle from input path to printed text. The text of the probe command is not modelled.
- Running `ffmpeg` (`os.system`) is left out. `Requests.Check` takes the existence and size of the output as parameters.
- `main`, its prerun listing, the execution loop, `backup` with its date-stamped file, `remove_black.bat`, `get_lines` and `fire` are outside the core and left out.
- The lines re-queued for revisiting (lines 237-239) go into a list that `get_requesters` never returns, so the model drops them.
- `get_exists` scans fixed roots with `glob`. The model takes the list of found paths as a parameter. The index's Windows root and `\` separators are left out, and paths use the POSIX separator `/` throughout.
- The file system is frozen for one call of `get_requesters`: a single `isFile` oracle answers for every line. Files that downloads create during the loop are not modelled. In the code, a local line placed before the remote line that downloads the same file is not ready, while the remote line is ready; the model resolves both alike.
- `os.path.exists` is also true for directories. The `isFile` oracle stands for whatever `os.path.exists` reports.
- TimeWindow.Int: accepts only non-empty runs of ASCII digits. Python's `int()` also accepts surrounding whitespace, a sign, underscores between digits and non-ASCII digits, so a slice such as ` 5` or `+5` is an error in the model but a number in the tool.
- TimeWindow.DurationRoundTrip: stated only for windows shorter than 100 hours. Longer windows print hours with three or more digits, which the fixed two-character slices would not read back.
- Batch.Args: its contract states only that there are no more jobs than lines. What the jobs are is stated by `Batch.StopCutsOff`, `Batch.SkippedLineIgnored`, `Batch.JobsAppend`, `Batch.ArgsCleanNames` and `Parser.FourFieldLine`.
