/**
 * The per-line filter of `get_requesters`: comment and stop lines, collapsing
 * runs of tabs, splitting into the four fields of a job, and cleaning the
 * output name.
 */
module Parser {
  import opened Text
  import Requests

  const Tab: char := '\t'
  const DoubleTab: string := "\t\t"

  /** One pass of `line.replace('\t\t', '\t')`: left to right, non-overlapping. */
  function ReplaceDoubleTabs(s: string): (r: string)
    ensures |r| <= |s|
    ensures Contains(s, DoubleTab) ==> |r| < |s|
    ensures |s| > 0 ==> |r| > 0 && r[0] == s[0]
  {
    if |s| >= 2 && s[0] == Tab && s[1] == Tab then [Tab] + ReplaceDoubleTabs(s[2..])
    else if |s| == 0 then ""
    else [s[0]] + ReplaceDoubleTabs(s[1..])
  }

  /** `while '\t\t' in line: line = line.replace('\t\t', '\t')` */
  function CollapseTabs(s: string): (r: string)
    ensures !Contains(r, DoubleTab)
    decreases |s|
  {
    if Contains(s, DoubleTab) then CollapseTabs(ReplaceDoubleTabs(s)) else s
  }

  /**
   * Reference definition of the collapse: every tab that is followed by
   * another tab is deleted, so each run of tabs becomes one tab.
   */
  function Squeeze(s: string): string
  {
    if |s| >= 2 && s[0] == Tab && s[1] == Tab then Squeeze(s[1..])
    else if |s| == 0 then ""
    else [s[0]] + Squeeze(s[1..])
  }

  lemma {:induction false} SqueezeHead(s: string)
    ensures |Squeeze(s)| > 0 <==> |s| > 0
    ensures |s| > 0 ==> Squeeze(s)[0] == s[0]
  {
    if |s| >= 2 && s[0] == Tab && s[1] == Tab {
      SqueezeHead(s[1..]);
    }
  }

  /** A tab in front of `x` survives exactly when `x` does not start with a tab. */
  lemma SqueezeAfterTab(x: string)
    ensures Squeeze([Tab] + x) == if |x| > 0 && x[0] == Tab then Squeeze(x) else [Tab] + Squeeze(x)
  {
    assert ([Tab] + x)[1..] == x;
  }

  /** One replacement pass does not change the squeezed text. */
  lemma {:induction false} SqueezeReplace(s: string)
    ensures Squeeze(ReplaceDoubleTabs(s)) == Squeeze(s)
  {
    if |s| >= 2 && s[0] == Tab && s[1] == Tab {
      var t := s[2..];
      SqueezeReplace(t);
      SqueezeAfterTab(ReplaceDoubleTabs(t));
      SqueezeAfterTab(t);
      assert s[1..] == [Tab] + t;
    } else if |s| > 0 {
      var t := s[1..];
      SqueezeReplace(t);
      assert ReplaceDoubleTabs(s) == [s[0]] + ReplaceDoubleTabs(t);
      assert ([s[0]] + ReplaceDoubleTabs(t))[1..] == ReplaceDoubleTabs(t);
    }
  }

  /** Text without a double tab is already squeezed. */
  lemma {:induction false} SqueezeIdle(s: string)
    requires !Contains(s, DoubleTab)
    ensures Squeeze(s) == s
  {
    if |s| > 0 {
      assert !StartsWith(s, DoubleTab);
      SqueezeIdle(s[1..]);
      assert s == [s[0]] + s[1..];
    }
  }

  /** The collapse loop computes the reference definition. */
  lemma {:induction false} CollapseIsSqueeze(s: string)
    ensures CollapseTabs(s) == Squeeze(s)
    decreases |s|
  {
    if Contains(s, DoubleTab) {
      CollapseIsSqueeze(ReplaceDoubleTabs(s));
      SqueezeReplace(s);
    } else {
      SqueezeIdle(s);
    }
  }

  /** The collapse deletes tabs only: the other characters stay, in order. */
  lemma {:induction false} SqueezeKeepsText(s: string)
    ensures Drop(Squeeze(s), {Tab}) == Drop(s, {Tab})
    ensures Tab in Squeeze(s) <==> Tab in s
  {
    if |s| >= 2 && s[0] == Tab && s[1] == Tab {
      SqueezeKeepsText(s[1..]);
      assert s[1] in s[1..];
    } else if |s| > 0 {
      SqueezeKeepsText(s[1..]);
      assert ([s[0]] + Squeeze(s[1..]))[1..] == Squeeze(s[1..]);
    }
  }

  /** Output-name cleaning: `?` and `'` are deleted, then `"` becomes `'`. */
  function CleanName(name: string): (clean: string)
    ensures '?' !in clean && '"' !in clean
  {
    Replace(Replace(Replace(name, '?', ""), '\'', ""), '"', "'")
  }

  /**
   * The cleaned name has one `'` for every `"` of the name, is shorter by the
   * deleted `?` and `'`, and keeps every other character in order.
   */
  lemma CleanNameContents(name: string)
    ensures Count(CleanName(name), '\'') == Count(name, '"')
    ensures |CleanName(name)| == |name| - Count(name, '?') - Count(name, '\'')
    ensures Drop(CleanName(name), {'\''}) == Drop(name, {'?', '\'', '"'})
  {
    var a := Replace(name, '?', "");
    var b := Replace(a, '\'', "");
    var c := Replace(b, '"', "'");
    ReplaceCount(name, '?', "", '\'');
    ReplaceCount(name, '?', "", '"');
    ReplaceCount(a, '\'', "", '"');
    ReplaceCount(b, '"', "'", '\'');
    assert Count(b, '\'') == 0;
    ReplaceByNothingLength(name, '?');
    ReplaceByNothingLength(a, '\'');
    ReplaceCount(name, '?', "", '\'');
    ReplaceByNothingLength(b, '"');
    CleanLength(b);
    ReplaceKeepsOthers(name, '?', "", {'?', '\'', '"'});
    ReplaceKeepsOthers(a, '\'', "", {'?', '\'', '"'});
    ReplaceKeepsOthers(b, '"', "'", {'?', '\'', '"'});
    DropQuotes(c, b);
  }

  /** Turning `"` into `'` keeps the length. */
  lemma {:induction false} CleanLength(s: string)
    ensures |Replace(s, '"', "'")| == |s|
  {
    if |s| > 0 {
      CleanLength(s[1..]);
    }
  }

  /** Once `?` and `"` are gone, dropping `'` drops all three. */
  lemma DropQuotes(c: string, b: string)
    requires '?' !in c && '"' !in c
    requires Drop(c, {'?', '\'', '"'}) == Drop(b, {'?', '\'', '"'})
    requires '?' !in b && '\'' !in b
    ensures Drop(c, {'\''}) == Drop(b, {'?', '\'', '"'})
  {
    DropSame(c, {'\''}, {'?', '\'', '"'});
  }

  /** Two deletion sets agree on text that holds none of the characters they differ on. */
  lemma {:induction false} DropSame(s: string, small: set<char>, large: set<char>)
    requires small <= large
    requires forall x :: x in s && x in large ==> x in small
    ensures Drop(s, small) == Drop(s, large)
  {
    if |s| > 0 {
      assert s[0] in s;
      DropSame(s[1..], small, large);
    }
  }

  /** What one instruction line is. */
  datatype Line =
    | Comment                         // starts with `#`
    | Stop                            // starts with `STOP`: ends the instructions
    | Malformed(fields: nat)          // does not split into four fields
    | Fields(job: Requests.Job)       // a job: output, start, end, input

  /** `line.startswith('#')`: the line is a comment. */
  predicate IsComment(line: string)
  {
    |line| >= 1 && line[0] == '#'
  }

  /** `line.startswith('STOP')`: the line ends the instructions. */
  predicate IsStop(line: string)
  {
    |line| >= 4 && line[0] == 'S' && line[1] == 'T' && line[2] == 'O' && line[3] == 'P'
  }

  /**
   * The two marker tests are the prefix tests on `#` and `STOP`; the markers
   * are parameters so that the prefix slices are taken of a variable.
   */
  lemma MarkersArePrefixes(line: string, hash: string, stop: string)
    requires hash == "#" && stop == "STOP"
    ensures IsComment(line) <==> StartsWith(line, hash)
    ensures IsStop(line) <==> StartsWith(line, stop)
  {
    if IsStop(line) {
      assert line[..4] == stop;
    }
  }

  /** Reading one line: comment, then stop, then the collapsed fields. */
  function Classify(line: string): Line
  {
    if IsComment(line) then Comment
    else if IsStop(line) then Stop
    else
      var fields := Split(CollapseTabs(line), Tab);
      if |fields| != 4 then Malformed(|fields|)
      else Fields(Requests.Job(fields[3], CleanName(fields[0]), fields[1], fields[2]))
  }

  /**
   * A malformed line is one whose tab-collapsed text does not split into four
   * fields; a line of fields splits into exactly four, none holding a tab, and
   * its output name is free of `?` and `"`.
   */
  lemma ClassifyShape(line: string)
    ensures Classify(line).Malformed? ==>
              Classify(line).fields != 4 && Classify(line).fields == Count(CollapseTabs(line), Tab) + 1
    ensures Classify(line).Fields? ==>
              var job := Classify(line).job;
              && Count(CollapseTabs(line), Tab) == 3
              && '?' !in job.output && '"' !in job.output
              && Tab !in job.start && Tab !in job.end && Tab !in job.input
  {
  }

  /**
   * A line is a comment exactly when it starts with `#`, and a stop line
   * exactly when it is no comment and starts with `STOP`.
   */
  lemma ClassifyMarkers(line: string)
    ensures Classify(line) == Comment <==> IsComment(line)
    ensures Classify(line) == Stop <==> !IsComment(line) && IsStop(line)
  {
  }

  /** The line makes the tool warn about its delimiters. */
  predicate Warns(line: string)
  {
    Classify(line).Malformed? && Classify(line).fields > 3
  }

  /** A line is warned about exactly when it is neither comment nor stop and has five or more fields. */
  lemma WarnsIff(line: string)
    ensures Warns(line) <==>
              !IsComment(line) && !IsStop(line) &&
              |Split(CollapseTabs(line), Tab)| > 4
  {
  }

  /** `n` tabs. */
  function Tabs(n: nat): (t: string)
    ensures |t| == n && forall i :: 0 <= i < n ==> t[i] == Tab
  {
    if n == 0 then "" else [Tab] + Tabs(n - 1)
  }

  lemma {:induction false} SqueezeTabRun(n: nat, rest: string)
    requires n >= 1 && |rest| > 0 && rest[0] != Tab
    ensures Squeeze(Tabs(n) + rest) == [Tab] + Squeeze(rest)
  {
    if n == 1 {
      assert Tabs(1) + rest == [Tab] + rest;
      SqueezeAfterTab(rest);
    } else {
      assert Tabs(n) + rest == [Tab] + (Tabs(n - 1) + rest);
      SqueezeTabRun(n - 1, rest);
      SqueezeAfterTab(Tabs(n - 1) + rest);
    }
  }

  lemma {:induction false} SqueezeNoTabPrefix(a: string, rest: string)
    requires Tab !in a
    ensures Squeeze(a + rest) == a + Squeeze(rest)
  {
    if |a| > 0 {
      assert (a + rest)[1..] == a[1..] + rest;
      assert a[0] in a;
      SqueezeNoTabPrefix(a[1..], rest);
      assert a == [a[0]] + a[1..];
    } else {
      assert a + rest == rest;
    }
  }

  lemma {:induction false} SqueezeNoTab(a: string)
    requires Tab !in a
    ensures Squeeze(a) == a
  {
    SqueezeNoTabPrefix(a, "");
    assert a + "" == a;
  }

  /** Squeezing a field, a run of tabs and the rest. */
  lemma SqueezeField(a: string, n: nat, rest: string)
    requires Tab !in a && n >= 1 && |rest| > 0 && rest[0] != Tab
    ensures Squeeze(a + Tabs(n) + rest) == a + [Tab] + Squeeze(rest)
  {
    assert a + Tabs(n) + rest == a + (Tabs(n) + rest);
    SqueezeNoTabPrefix(a, Tabs(n) + rest);
    SqueezeTabRun(n, rest);
  }

  /** Collapsing a line of four tab-free fields leaves one tab between fields. */
  lemma CollapseFourFields(output: string, start: string, end: string, input: string, n1: nat, n2: nat, n3: nat)
    requires output != "" && start != "" && end != "" && input != ""
    requires Tab !in output && Tab !in start && Tab !in end && Tab !in input
    requires n1 >= 1 && n2 >= 1 && n3 >= 1
    ensures CollapseTabs(output + Tabs(n1) + start + Tabs(n2) + end + Tabs(n3) + input) ==
              Join([output, start, end, input], [Tab])
  {
    var line := output + Tabs(n1) + start + Tabs(n2) + end + Tabs(n3) + input;
    var r3 := end + Tabs(n3) + input;
    var r2 := start + Tabs(n2) + r3;
    assert input[0] in input;
    var s3 := SqueezeTail(end, n3, input);
    SqueezeNoTab(input);
    assert r3[0] == end[0] && end[0] in end;
    var s2 := SqueezeTail(start, n2, r3);
    assert r2[0] == start[0] && start[0] in start;
    var s1 := SqueezeTail(output, n1, r2);
    assert line == output + Tabs(n1) + r2;
    CollapseIsSqueeze(line);
    JoinFour(output, start, end, input, [Tab]);
    assert s1 == output + [Tab] + (start + [Tab] + (end + [Tab] + input));
  }

  /** `Squeeze(a + Tabs(n) + rest)` for a tab-free `a` and a `rest` that does not start with a tab. */
  lemma SqueezeTail(a: string, n: nat, rest: string) returns (squeezed: string)
    requires Tab !in a && n >= 1 && |rest| > 0 && rest[0] != Tab
    ensures squeezed == Squeeze(a + Tabs(n) + rest)
    ensures squeezed == a + [Tab] + Squeeze(rest)
    ensures |squeezed| > 0 && (|a| > 0 ==> squeezed[0] == a[0])
  {
    SqueezeField(a, n, rest);
    squeezed := Squeeze(a + Tabs(n) + rest);
  }

  lemma JoinFour(a: string, b: string, c: string, d: string, sep: string)
    ensures Join([a, b, c, d], sep) == a + sep + (b + sep + (c + sep + d))
  {
    var fields := [a, b, c, d];
    assert fields[1..][1..][1..] == [d];
    assert fields[1..][1..] == [c, d];
    assert fields[1..] == [b, c, d];
    assert Join([c, d], sep) == c + sep + d;
    assert Join([b, c, d], sep) == b + sep + Join([c, d], sep);
  }

  /**
   * A line of four non-empty tab-free fields separated by runs of tabs (of
   * any lengths) is read as the job with those fields, the output name
   * cleaned — unless it starts as a comment or a stop line.
   */
  lemma FourFieldLine(line: string, output: string, start: string, end: string, input: string, n1: nat, n2: nat, n3: nat)
    requires output != "" && start != "" && end != "" && input != ""
    requires Tab !in output && Tab !in start && Tab !in end && Tab !in input
    requires n1 >= 1 && n2 >= 1 && n3 >= 1
    requires line == output + Tabs(n1) + start + Tabs(n2) + end + Tabs(n3) + input
    requires !IsComment(line) && !IsStop(line)
    ensures Classify(line) == Fields(Requests.Job(input, CleanName(output), start, end))
  {
    SplitFourFields(output, start, end, input, n1, n2, n3);
    ClassifyFields(line, [output, start, end, input]);
  }

  lemma SplitFourFields(output: string, start: string, end: string, input: string, n1: nat, n2: nat, n3: nat)
    requires output != "" && start != "" && end != "" && input != ""
    requires Tab !in output && Tab !in start && Tab !in end && Tab !in input
    requires n1 >= 1 && n2 >= 1 && n3 >= 1
    ensures Split(CollapseTabs(output + Tabs(n1) + start + Tabs(n2) + end + Tabs(n3) + input), Tab) ==
              [output, start, end, input]
  {
    var fields := [output, start, end, input];
    CollapseFourFields(output, start, end, input, n1, n2, n3);
    FieldsFreeOfTabs(output, start, end, input);
    SplitJoin(fields, Tab);
  }

  lemma FieldsFreeOfTabs(output: string, start: string, end: string, input: string)
    requires Tab !in output && Tab !in start && Tab !in end && Tab !in input
    ensures var fields := [output, start, end, input];
      forall i :: 0 <= i < |fields| ==> Tab !in fields[i]
  {
  }

  lemma ClassifyFields(line: string, fields: seq<string>)
    requires !IsComment(line) && !IsStop(line)
    requires |fields| == 4 && Split(CollapseTabs(line), Tab) == fields
    ensures Classify(line) == Fields(Requests.Job(fields[3], CleanName(fields[0]), fields[1], fields[2]))
  {
  }
}
