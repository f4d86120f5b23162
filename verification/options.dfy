/**
 * The transcoding options of one request (`Requester.set_output_file` and
 * `Requester.add_resize_option`), chosen by the extension of the output path
 * and, for video, by the probed resolution of the input.
 */
module Options {
  import opened Text
  import Paths

  /** The option every request starts with. */
  const Quiet: string := "-v quiet"

  /** Options of an `.mp3` output. */
  const AudioOptions: seq<string> := ["-codec:a libmp3lame", "-qscale:a 3"]

  /** Options of an `.mkv` output, before the scaling filter. */
  const VideoOptions: seq<string> := [
    "-c:v libsvtav1",
    "-c:s copy",
    "-c:a copy",
    "-map 0:a",
    "-map 0:v:0",
    "-map 0:s?",
    "-force_key_frames 0",
    "-crf 32",
    "-threads 3",
    "-pix_fmt yuv420p10le"
  ]

  /** Scale to 720 lines, keeping the width even. */
  const ScaleTo720: string := "-vf \"scale=trunc(iw/2)*2:720\""

  /** Keep the size, rounded down to even width and height. */
  const ScaleToEven: string := "-vf \"scale=trunc(iw/2)*2:trunc(ih/2)*2\""

  /** The text `1080` whose presence in the probe output selects `ScaleTo720`. */
  const Marker1080: string := "1080"

  /** The scaling filter: 720 lines when the probe output mentions `1080` anywhere. */
  function ResizeOption(probe: string): (option: string)
    ensures option == ScaleTo720 <==> Contains(probe, Marker1080)
    ensures option == ScaleTo720 || option == ScaleToEven
  {
    if Contains(probe, Marker1080) then ScaleTo720 else ScaleToEven
  }

  /** The title tag of an audio output: its file name without folder or extension. */
  function TitleTag(output: string): string
  {
    "-metadata title=\"" + Paths.Stem(output) + "\""
  }

  /** Entries of `options` that are a `-vf` filter. */
  function Filters(options: seq<string>): (n: nat)
    ensures n <= |options|
  {
    if |options| == 0 then 0
    else (if StartsWith(options[0], "-vf") then 1 else 0) + Filters(options[1..])
  }

  /**
   * The option list of a request writing `output`, `probe` being what the
   * probe prints for its input: always `-v quiet` first; for `.mp3` the audio
   * options and one title tag; for `.mkv` the video options followed by
   * exactly one scaling filter, last; otherwise nothing more.
   */
  function Select(output: string, probe: string): (options: seq<string>)
    ensures |options| >= 1 && options[0] == Quiet
    ensures EndsWith(output, ".mp3") ==>
              |options| == 4 && options[1..3] == AudioOptions && options[3] == TitleTag(output)
    ensures !EndsWith(output, ".mp3") && EndsWith(output, ".mkv") ==>
              |options| == 12 && options[1..11] == VideoOptions && options[11] == ResizeOption(probe)
    ensures !EndsWith(output, ".mp3") && !EndsWith(output, ".mkv") ==> options == [Quiet]
  {
    if EndsWith(output, ".mp3") then [Quiet] + AudioOptions + [TitleTag(output)]
    else if EndsWith(output, ".mkv") then [Quiet] + VideoOptions + [ResizeOption(probe)]
    else [Quiet]
  }

  lemma FiltersConcat(a: seq<string>, b: seq<string>)
    ensures Filters(a + b) == Filters(a) + Filters(b)
  {
    if |a| > 0 {
      assert (a + b)[1..] == a[1..] + b;
    } else {
      assert a + b == b;
    }
  }

  /*
   * The lemmas about fixed lists and sample texts take them as parameters
   * pinned by `requires`, so that the verifier meets each literal once and
   * does not unfold every function applied to it.
   */

  /** None of the fixed option lists holds a filter. */
  lemma FixedListsHaveNoFilter(video: seq<string>, audio: seq<string>)
    requires video == [Quiet] + VideoOptions && audio == [Quiet] + AudioOptions
    ensures Filters(video) == 0 && Filters(audio) == 0
  {
    QuietIsNoFilter([Quiet]);
    VideoHasNoFilter(VideoOptions);
    AudioHasNoFilter(AudioOptions);
    FiltersConcat([Quiet], VideoOptions);
    FiltersConcat([Quiet], AudioOptions);
  }

  lemma QuietIsNoFilter(quiet: seq<string>)
    requires quiet == [Quiet]
    ensures Filters(quiet) == 0
  {
    assert quiet[0][2] != 'f';
    NoFilter(quiet);
  }

  lemma VideoHasNoFilter(video: seq<string>)
    requires video == VideoOptions
    ensures Filters(video) == 0
  {
    assert forall i :: 0 <= i < |video| ==> |video[i]| >= 3 && video[i][2] != 'f';
    NoFilter(video);
  }

  lemma AudioHasNoFilter(audio: seq<string>)
    requires audio == AudioOptions
    ensures Filters(audio) == 0
  {
    assert forall i :: 0 <= i < |audio| ==> |audio[i]| >= 3 && audio[i][2] != 'f';
    NoFilter(audio);
  }

  /** A list whose entries all differ from `-vf` in their third character has no filter. */
  lemma NoFilter(options: seq<string>)
    requires forall i :: 0 <= i < |options| ==> |options[i]| >= 3 && options[i][2] != 'f'
    ensures Filters(options) == 0
  {
    if |options| > 0 {
      NoFilter(options[1..]);
    }
  }

  /**
   * A video output gets exactly one scaling filter, and an audio output or any
   * other output gets none.
   */
  lemma OneFilterForVideo(output: string, probe: string)
    ensures Filters(Select(output, probe)) ==
              (if !EndsWith(output, ".mp3") && EndsWith(output, ".mkv") then 1 else 0)
  {
    var video, audio := [Quiet] + VideoOptions, [Quiet] + AudioOptions;
    FixedListsHaveNoFilter(video, audio);
    if EndsWith(output, ".mp3") {
      LastFilter(audio, TitleTag(output));
      TitleIsNoFilter(output);
    } else if EndsWith(output, ".mkv") {
      LastFilter(video, ResizeOption(probe));
      ResizeIsFilter(probe);
    }
  }

  lemma ResizeIsFilter(probe: string)
    ensures StartsWith(ResizeOption(probe), "-vf")
  {
    var o := ResizeOption(probe);
    assert o[0] == '-' && o[1] == 'v' && o[2] == 'f';
    assert o[..3] == "-vf";
  }

  lemma TitleIsNoFilter(output: string)
    ensures !StartsWith(TitleTag(output), "-vf")
  {
    assert TitleTag(output)[1] == 'm';
  }

  lemma LastFilter(options: seq<string>, last: string)
    requires Filters(options) == 0
    ensures Filters(options + [last]) == (if StartsWith(last, "-vf") then 1 else 0)
  {
    FiltersConcat(options, [last]);
  }

  /**
   * The title tag of an `.mp3` output names its basename minus `.mp3`,
   * whenever that basename holds a non-dot character before the extension.
   */
  lemma TitleIsBasename(output: string)
    requires EndsWith(output, ".mp3")
    requires Paths.HasNonDot(output, |output| - |Paths.Basename(output)|, |output| - 4)
    ensures TitleTag(output) == "-metadata title=\"" + Paths.Basename(output)[..|Paths.Basename(output)| - 4] + "\""
  {
    var ext := ".mp3";
    assert ext[1..] == "mp3";
    Paths.StemOfExtension(output, ext);
    var b := Paths.Basename(output);
    assert b[..|b| - 4] == Paths.Stem(output);
  }

  /**
   * The `1080` rule reads the probe text only by substring: a landscape
   * 1920x1080 source and a portrait 1080x1920 source are both scaled to 720
   * lines, while 1280x720 keeps its even size. The sample texts are
   * parameters for the reason given above `FixedListsHaveNoFilter`.
   */
  lemma ResizeExamples(landscape: string, portrait: string, hd: string)
    requires landscape == "1920x1080" && portrait == "1080x1920" && hd == "1280x720"
    ensures ResizeOption(landscape) == ScaleTo720
    ensures ResizeOption(portrait) == ScaleTo720
    ensures ResizeOption(hd) == ScaleToEven
  {
    MarkerAt(landscape, 5);
    MarkerAt(portrait, 0);
    NoMarker(hd);
  }

  /** A probe text holding `1080` at a known offset mentions the marker. */
  lemma MarkerAt(probe: string, i: nat)
    requires i + 4 <= |probe| && probe[i..i + 4] == "1080"
    ensures Contains(probe, Marker1080)
  {
    ContainsIff(probe, Marker1080);
    assert OccursAt(probe, Marker1080, i);
  }

  /** `1280x720` does not mention the marker. */
  lemma NoMarker(hd: string)
    requires hd == "1280x720"
    ensures !Contains(hd, Marker1080)
  {
    ContainsIff(hd, Marker1080);
    forall i | 0 <= i <= |hd| - |Marker1080|
      ensures !OccursAt(hd, Marker1080, i)
    {
      if i == 0 {
        assert hd[1] != Marker1080[1];
      } else {
        assert hd[i] != Marker1080[0];
      }
    }
  }
}
