/**
  The log analyser's own logic: the keyword filter that picks error lines
  out of a log file, the prompts it builds for the language model, and the
  order in which `main` consults the model, up to the first call that
  raises. The file is given as its lines, each still ending in its newline
  if it had one; the model process is given as a function from the call
  number and the prompt to the text it prints, or None when the call raises.
 */
module Analyser {
  import opened Text
  import opened Wrappers

  /** The substrings that mark a log line as an error, in the source's order. */
  const ErrorKeywords: seq<string> := ["ERROR", "FATAL", "Exception", "CRITICAL"]

  /**
    Python's `any(keyword in line for keyword in keywords)`: tries the
    keywords in order and stops at the first one found.
   */
  function AnyOccurs(keywords: seq<string>, line: string): (r: bool)
    ensures r <==> exists k :: 0 <= k < |keywords| && Contains(line, keywords[k])
  {
    |keywords| > 0 && (Contains(line, keywords[0]) || AnyOccurs(keywords[1..], line))
  }

  /** A raw log line is kept when one of the error keywords occurs in it. */
  predicate IsErrorLine(line: string)
  {
    AnyOccurs(ErrorKeywords, line)
  }

  /** The four keywords, spelled out: a line is an error line exactly when one of them occurs in it. */
  lemma IsErrorLineIff(line: string)
    ensures IsErrorLine(line) <==>
              || Contains(line, "ERROR")
              || Contains(line, "FATAL")
              || Contains(line, "Exception")
              || Contains(line, "CRITICAL")
  {
    assert ErrorKeywords[0] == "ERROR" && ErrorKeywords[1] == "FATAL";
    assert ErrorKeywords[2] == "Exception" && ErrorKeywords[3] == "CRITICAL";
    if IsErrorLine(line) {
      var k :| 0 <= k < |ErrorKeywords| && Contains(line, ErrorKeywords[k]);
      assert k == 0 || k == 1 || k == 2 || k == 3;
    } else {
      assert !Contains(line, ErrorKeywords[0]) && !Contains(line, ErrorKeywords[1]);
      assert !Contains(line, ErrorKeywords[2]) && !Contains(line, ErrorKeywords[3]);
    }
  }

  /**
    What the filter produces for the lines read so far: the stripped form of
    each line that mentions a keyword, in file order.
   */
  function KeptLines(lines: seq<string>): (kept: seq<string>)
    ensures |kept| <= |lines|
  {
    if lines == [] then []
    else
      var last := lines[|lines| - 1];
      KeptLines(lines[..|lines| - 1]) + (if IsErrorLine(last) then [Strip(last)] else [])
  }

  /**
    The keyword filter of `main`: read the lines one at a time and append
    the stripped form of each matching line to `errors`.
   */
  method CollectErrors(lines: seq<string>) returns (errors: seq<string>)
    ensures errors == KeptLines(lines)
  {
    errors := [];
    for i := 0 to |lines|
      invariant errors == KeptLines(lines[..i])
    {
      assert lines[..i + 1][..i] == lines[..i];
      if AnyOccurs(ErrorKeywords, lines[i]) {
        errors := errors + [Strip(lines[i])];
      }
    }
    assert lines[..|lines|] == lines;
  }

  /**
    An independent description of which lines are kept: the positions of
    the matching lines, in increasing order.
   */
  function MatchingIndices(lines: seq<string>): (idx: seq<nat>)
    ensures forall j :: 0 <= j < |idx| ==> idx[j] < |lines| && IsErrorLine(lines[idx[j]])
    ensures forall j, j' :: 0 <= j < j' < |idx| ==> idx[j] < idx[j']
    ensures forall i :: 0 <= i < |lines| && IsErrorLine(lines[i]) ==> i in idx
  {
    if lines == [] then []
    else
      var n := |lines| - 1;
      MatchingIndices(lines[..n]) + (if IsErrorLine(lines[n]) then [n] else [])
  }

  /**
    The filter keeps exactly the matching lines, once each, in file order,
    each stripped: entry `j` of the result is the stripped `j`-th matching
    line.
   */
  lemma {:induction false} KeptLinesSelect(lines: seq<string>)
    ensures |KeptLines(lines)| == |MatchingIndices(lines)|
    ensures forall j :: 0 <= j < |KeptLines(lines)| ==>
              KeptLines(lines)[j] == Strip(lines[MatchingIndices(lines)[j]])
  {
    if lines != [] {
      var n := |lines| - 1;
      var init := lines[..n];
      KeptLinesSelect(init);
      var kept, idx := KeptLines(init), MatchingIndices(init);
      if IsErrorLine(lines[n]) {
        assert KeptLines(lines) == kept + [Strip(lines[n])];
        assert MatchingIndices(lines) == idx + [n];
      } else {
        assert KeptLines(lines) == kept;
        assert MatchingIndices(lines) == idx;
      }
      forall j | 0 <= j < |kept| ensures KeptLines(lines)[j] == Strip(lines[MatchingIndices(lines)[j]]) {
        assert idx[j] < n && init[idx[j]] == lines[idx[j]];
      }
    }
  }

  /** Filtering a concatenation filters each part: nothing is merged or dropped across the seam. */
  lemma {:induction false} KeptLinesAppend(a: seq<string>, b: seq<string>)
    ensures KeptLines(a + b) == KeptLines(a) + KeptLines(b)
    decreases |b|
  {
    if b == [] {
      assert a + b == a;
    } else {
      var n := |b| - 1;
      assert (a + b)[..|a + b| - 1] == a + b[..n];
      KeptLinesAppend(a, b[..n]);
    }
  }

  /** The result is empty exactly when no line mentions a keyword (in particular for an empty file). */
  lemma KeptLinesEmptyIff(lines: seq<string>)
    ensures KeptLines(lines) == [] <==> forall i :: 0 <= i < |lines| ==> !IsErrorLine(lines[i])
  {
    KeptLinesSelect(lines);
    var idx := MatchingIndices(lines);
    if idx != [] {
      assert IsErrorLine(lines[idx[0]]);
    }
  }

  /** No error keyword contains whitespace, so stripping never removes a match. */
  lemma StrippedErrorLineStillMatches(line: string)
    requires IsErrorLine(line)
    ensures IsErrorLine(Strip(line))
  {
    var k :| 0 <= k < |ErrorKeywords| && Contains(line, ErrorKeywords[k]);
    StripKeepsOccurrence(line, ErrorKeywords[k]);
  }

  /** Every kept line still mentions an error keyword after stripping. */
  lemma KeptLinesStillMatch(lines: seq<string>)
    ensures forall j :: 0 <= j < |KeptLines(lines)| ==> IsErrorLine(KeptLines(lines)[j])
  {
    KeptLinesSelect(lines);
    forall j | 0 <= j < |KeptLines(lines)| ensures IsErrorLine(KeptLines(lines)[j]) {
      StrippedErrorLineStillMatches(lines[MatchingIndices(lines)[j]]);
    }
  }

  /** A one-line file is kept, stripped, exactly when the line matches. */
  lemma KeptLinesSingle(line: string)
    ensures KeptLines([line]) == if IsErrorLine(line) then [Strip(line)] else []
  {
    assert [line][..0] == [];
  }

  /** Feeding the filter's output back through the filter changes nothing. */
  lemma {:induction false} KeptLinesIdempotent(lines: seq<string>)
    ensures KeptLines(KeptLines(lines)) == KeptLines(lines)
  {
    if lines != [] {
      var n := |lines| - 1;
      var last := lines[n];
      var init := KeptLines(lines[..n]);
      var tail := if IsErrorLine(last) then [Strip(last)] else [];
      assert KeptLines(lines) == init + tail;
      KeptLinesIdempotent(lines[..n]);
      KeptLinesAppend(init, tail);
      if IsErrorLine(last) {
        StrippedErrorLineStillMatches(last);
        StripIdempotent(last);
        KeptLinesSingle(Strip(last));
      }
      assert KeptLines(tail) == tail;
    }
  }

  /**
    Matching is case-sensitive: every keyword starts with a capital letter,
    so a line without capital letters (such as "error: disk full") is
    dropped.
   */
  lemma NoCapitalsNoMatch(line: string)
    requires forall i :: 0 <= i < |line| ==> !('A' <= line[i] <= 'Z')
    ensures !IsErrorLine(line)
  {
    forall k | 0 <= k < |ErrorKeywords| ensures !Contains(line, ErrorKeywords[k]) {
      assert 'A' <= ErrorKeywords[k][0] <= 'Z';
      CharAbsent(line, ErrorKeywords[k], 0);
    }
  }

  /**
    A file with an informational line, an ERROR line and a CRITICAL line
    yields the two error lines, in file order, without their newlines.
   */
  lemma ThreeLineScenario()
    ensures KeptLines(["INFO: ok\n", "ERROR: disk full\n", "CRITICAL: node down\n"])
         == ["ERROR: disk full", "CRITICAL: node down"]
  {
    DropsOneKeepsTwo("INFO: ok\n", "ERROR: disk full\n", "ERROR: disk full", "ERROR",
                     "CRITICAL: node down\n", "CRITICAL: node down", "CRITICAL");
  }

  /**
    The general form of `ThreeLineScenario`: a line without keywords
    followed by two lines that each start with a keyword and end in a
    newline leaves those two lines, in order, without their newlines.
   */
  lemma DropsOneKeepsTwo(info: string, x: string, a: string, ka: string, y: string, b: string, kb: string)
    requires forall k :: 0 <= k < |ErrorKeywords| ==> ErrorKeywords[k][1] !in info
    requires x == a + "\n" && ka in ErrorKeywords && |ka| <= |a| && a[..|ka|] == ka && IsTrimmed(a)
    requires y == b + "\n" && kb in ErrorKeywords && |kb| <= |b| && b[..|kb|] == kb && IsTrimmed(b)
    ensures KeptLines([info, x, y]) == [a, b]
  {
    DroppedWithoutKeywordLetters(info);
    KeptAsIs(a, ka);
    KeptAsIs(b, kb);
    KeptLinesAppend([info], [x]);
    assert [info] + [x] == [info, x];
    KeptLinesAppend([info, x], [y]);
    assert [info, x] + [y] == [info, x, y];
  }

  /** Used by `DropsOneKeepsTwo`: a line lacking the second letter of every keyword is dropped. */
  lemma DroppedWithoutKeywordLetters(line: string)
    requires forall k :: 0 <= k < |ErrorKeywords| ==> ErrorKeywords[k][1] !in line
    ensures KeptLines([line]) == []
  {
    forall k | 0 <= k < |ErrorKeywords| ensures !Contains(line, ErrorKeywords[k]) {
      CharAbsent(line, ErrorKeywords[k], 1);
    }
    assert !IsErrorLine(line);
    KeptLinesSingle(line);
  }

  /** A trimmed line that begins with an error keyword, read with its newline, is kept as it is. */
  lemma KeptAsIs(line: string, keyword: string)
    requires keyword in ErrorKeywords && |keyword| <= |line| && line[..|keyword|] == keyword
    requires IsTrimmed(line)
    ensures KeptLines([line + "\n"]) == [line]
  {
    var s := line + "\n";
    assert s[..|keyword|] == keyword;
    assert Contains(s, keyword);
    KeptLinesSingle(s);
    StrippedNewline(line);
  }

  /** Stripping a trimmed line followed by a newline gives the line back. */
  lemma StrippedNewline(line: string)
    requires IsTrimmed(line)
    ensures Strip(line + "\n") == line
  {
    var s := line + "\n";
    assert line == s[0..|line|] && SpaceBetween(s, 0, 0) && SpaceBetween(s, |line|, |s|);
    StripCharacterised(s, line);
  }

  /**
    Text put in front of each error line to ask for an explanation:
    "Explain this log error in simple terms: ", trailing space included. It
    is written as three pieces only so that `ExplainPrefixIsPrintable` can
    check its characters one short piece at a time.
   */
  const ExplainPrefix: string := "Explain this log " + "error in simple " + "terms: "

  /** The prompt `analyse_with_llm` sends for one error line. */
  function ExplainPrompt(errorText: string): (prompt: string)
    ensures |prompt| == |ExplainPrefix| + |errorText|
    ensures prompt[..|ExplainPrefix|] == ExplainPrefix
    ensures prompt[|ExplainPrefix|..] == errorText
  {
    ExplainPrefix + errorText
  }

  /** Recovers the error text from an explanation prompt, if it is one. */
  function ErrorTextOf(prompt: string): (e: Option<string>)
    ensures e.Some? <==> |ExplainPrefix| <= |prompt| && prompt[..|ExplainPrefix|] == ExplainPrefix
  {
    if |ExplainPrefix| <= |prompt| && prompt[..|ExplainPrefix|] == ExplainPrefix
    then Some(prompt[|ExplainPrefix|..])
    else None
  }

  /** The error text goes into the prompt unchanged and can be read back exactly. */
  lemma ExplainPromptRoundTrip(errorText: string, prompt: string)
    ensures ErrorTextOf(prompt) == Some(errorText) <==> prompt == ExplainPrompt(errorText)
  {
    if ErrorTextOf(prompt) == Some(errorText) {
      assert prompt == prompt[..|ExplainPrefix|] + prompt[|ExplainPrefix|..];
    }
  }

  /** Text that opens the summary prompt. */
  const SummaryHeader: string := "Here are multiple log errors. Provide a brief summary of the overall issue:"

  /**
    The prompt `generate_summary` sends: the header, a blank line, then the
    list of errors as Python renders a list, given here as `rendered`.
   */
  function SummaryPrompt(rendered: string): string
  {
    SummaryHeader + "\n\n" + rendered
  }

  /**
    The summary prompt opens with the fixed header and a blank line, and the
    rendered list follows unchanged, so it can be read back from the prompt.
   */
  lemma SummaryPromptShape(rendered: string)
    ensures |SummaryPrompt(rendered)| == |SummaryHeader| + 2 + |rendered|
    ensures SummaryPrompt(rendered)[..|SummaryHeader| + 2] == SummaryHeader + "\n\n"
    ensures SummaryPrompt(rendered)[|SummaryHeader| + 2..] == rendered
  {
  }

  /**
    The bytes Linux allows in one command-line argument, terminating NUL
    included: MAX_ARG_STRLEN, 32 pages, which is 131072 bytes with 4 KiB
    pages (512 KiB with 16 KiB pages, 2 MiB with 64 KiB pages).
   */
  const LinuxMaxArgStrLen: nat := 32 * 4096

  /**
    Whether `subprocess.run` can hand `prompt` to the model process as one
    argument. It raises ValueError ("embedded null byte") when the prompt
    holds a NUL character, and OSError (E2BIG, "Argument list too long")
    when the UTF-8 encoded prompt with its terminating NUL is over the
    platform's limit on one argument, `argLimit` (`Some(LinuxMaxArgStrLen)`
    on Linux with 4 KiB pages; None where there is no such limit).
   */
  predicate Passable(argLimit: Option<nat>, prompt: string)
  {
    '\0' !in prompt && (argLimit == None || Utf8Length(prompt) + 1 <= argLimit.value)
  }

  function CallModel(argLimit: Option<nat>, launch: (nat, string) -> Option<string>, n: nat, prompt: string): Option<string>
  {
    if Passable(argLimit, prompt) then launch(n, prompt) else None
  }

  /** Every character of the explanation prefix is printable ASCII. */
  lemma ExplainPrefixIsPrintable()
    ensures forall k :: 0 <= k < |ExplainPrefix| ==> ' ' <= ExplainPrefix[k] <= 'z'
  {
    var a, b, c := "Explain this log ", "error in simple ", "terms: ";
    assert forall k :: 0 <= k < |a| ==> ' ' <= a[k] <= 'z';
    assert forall k :: 0 <= k < |b| ==> ' ' <= b[k] <= 'z';
    assert forall k :: 0 <= k < |c| ==> ' ' <= c[k] <= 'z';
    assert ExplainPrefix == a + b + c;
  }

  /** The prompt holds a NUL character exactly when the error text does. */
  lemma ExplainPromptNul(errorText: string)
    ensures '\0' in ExplainPrompt(errorText) <==> '\0' in errorText
  {
    ExplainPrefixIsPrintable();
    var prompt := ExplainPrompt(errorText);
    if '\0' in prompt {
      var k :| 0 <= k < |prompt| && prompt[k] == '\0';
      assert errorText[k - |ExplainPrefix|] == '\0';
    }
    if '\0' in errorText {
      var k :| 0 <= k < |errorText| && errorText[k] == '\0';
      assert prompt[|ExplainPrefix| + k] == '\0';
    }
  }

  /** The encoded prompt is the 40 bytes of the prefix followed by the encoded error text. */
  lemma ExplainPromptBytes(errorText: string)
    ensures Utf8Length(ExplainPrompt(errorText)) == 40 + Utf8Length(errorText)
  {
    ExplainPrefixIsPrintable();
    Utf8LengthAscii(ExplainPrefix);
    Utf8LengthAppend(ExplainPrefix, errorText);
  }

  /**
    An explanation prompt can be handed over exactly when the error text
    holds no NUL character and its UTF-8 encoding leaves room for the
    40-byte prefix and the terminating NUL.
   */
  lemma ExplainPromptPassable(argLimit: Option<nat>, errorText: string)
    ensures Passable(argLimit, ExplainPrompt(errorText)) <==>
              '\0' !in errorText && (argLimit == None || Utf8Length(errorText) + 41 <= argLimit.value)
  {
    ExplainPromptNul(errorText);
    ExplainPromptBytes(errorText);
  }

  /**
    On Linux with 4 KiB pages, an error text whose UTF-8 encoding is over
    131031 bytes makes its call raise, whatever the model process would do.
   */
  lemma LinuxExplainPromptPassable(errorText: string)
    ensures Passable(Some(LinuxMaxArgStrLen), ExplainPrompt(errorText)) <==>
              '\0' !in errorText && Utf8Length(errorText) <= 131031
  {
    ExplainPromptPassable(Some(LinuxMaxArgStrLen), errorText);
  }

  /**
    What one run of `main` produces: the kept lines, the prompts it tried to
    send in order, the model's answer to each prompt that went through (the
    analyses printed), and the summary if the run got that far.
   */
  datatype Session = Session(errors: seq<string>, prompts: seq<string>, analyses: seq<string>, summary: Option<string>)

  /**
    `run` is what `main` does with the lines of a log file: it keeps the
    error lines, asks about each of them in file order, then asks for the
    summary; the first call that raises ends the run. Every call but the
    last one tried has an answer; the last one tried is either the call that
    raised or the summary call.
   */
  predicate IsRunOf(run: Session, lines: seq<string>, argLimit: Option<nat>, launch: (nat, string) -> Option<string>, listRepr: seq<string> -> string)
  {
    && run.errors == KeptLines(lines)
    && |run.analyses| <= |run.errors|
    && |run.prompts| == |run.analyses| + 1
    && (forall i :: 0 <= i < |run.prompts| && i < |run.errors| ==> run.prompts[i] == ExplainPrompt(run.errors[i]))
    && (|run.analyses| == |run.errors| ==> run.prompts[|run.errors|] == SummaryPrompt(listRepr(run.errors)))
    && (forall i :: 0 <= i < |run.analyses| ==> CallModel(argLimit, launch, i, run.prompts[i]) == Some(run.analyses[i]))
    && CallModel(argLimit, launch, |run.analyses|, run.prompts[|run.analyses|]) == run.summary
    && (|run.analyses| < |run.errors| ==> run.summary == None)
  }

  /**
    One run of `main` over the lines of a log file. `launch` stands for the
    model process and `listRepr` for Python's rendering of a list of strings.
   */
  method AnalyseLog(lines: seq<string>, argLimit: Option<nat>, launch: (nat, string) -> Option<string>, listRepr: seq<string> -> string)
    returns (run: Session)
    ensures IsRunOf(run, lines, argLimit, launch, listRepr)
  {
    var errors := CollectErrors(lines);
    var analyses := [];
    var prompts := [];
    for i := 0 to |errors|
      invariant |analyses| == |prompts| == i
      invariant forall j :: 0 <= j < i ==> prompts[j] == ExplainPrompt(errors[j])
      invariant forall j :: 0 <= j < i ==> CallModel(argLimit, launch, j, prompts[j]) == Some(analyses[j])
    {
      var prompt := ExplainPrompt(errors[i]);
      var answer := CallModel(argLimit, launch, i, prompt);
      if answer == None {
        RaisedRun(lines, argLimit, launch, listRepr, errors, prompts, analyses);
        return Session(errors, prompts + [prompt], analyses, None);
      }
      prompts := prompts + [prompt];
      analyses := analyses + [answer.value];
    }
    FinishedRun(lines, argLimit, launch, listRepr, errors, prompts, analyses);
    var summaryPrompt := SummaryPrompt(listRepr(errors));
    run := Session(errors, prompts + [summaryPrompt], analyses, CallModel(argLimit, launch, |errors|, summaryPrompt));
  }

  /** The session `AnalyseLog` returns when the call about the next kept line raises. */
  lemma RaisedRun(lines: seq<string>, argLimit: Option<nat>, launch: (nat, string) -> Option<string>, listRepr: seq<string> -> string,
                  errors: seq<string>, prompts: seq<string>, analyses: seq<string>)
    requires errors == KeptLines(lines) && |analyses| == |prompts| < |errors|
    requires forall j :: 0 <= j < |prompts| ==> prompts[j] == ExplainPrompt(errors[j])
    requires forall j :: 0 <= j < |prompts| ==> CallModel(argLimit, launch, j, prompts[j]) == Some(analyses[j])
    requires CallModel(argLimit, launch, |prompts|, ExplainPrompt(errors[|prompts|])) == None
    ensures IsRunOf(Session(errors, prompts + [ExplainPrompt(errors[|prompts|])], analyses, None), lines, argLimit, launch, listRepr)
  {
    var tried := prompts + [ExplainPrompt(errors[|prompts|])];
    assert forall j :: 0 <= j < |prompts| ==> tried[j] == prompts[j];
  }

  /** The session `AnalyseLog` returns once every kept line got its answer. */
  lemma FinishedRun(lines: seq<string>, argLimit: Option<nat>, launch: (nat, string) -> Option<string>, listRepr: seq<string> -> string,
                    errors: seq<string>, prompts: seq<string>, analyses: seq<string>)
    requires errors == KeptLines(lines) && |analyses| == |prompts| == |errors|
    requires forall j :: 0 <= j < |prompts| ==> prompts[j] == ExplainPrompt(errors[j])
    requires forall j :: 0 <= j < |prompts| ==> CallModel(argLimit, launch, j, prompts[j]) == Some(analyses[j])
    ensures var summaryPrompt := SummaryPrompt(listRepr(errors));
            IsRunOf(Session(errors, prompts + [summaryPrompt], analyses, CallModel(argLimit, launch, |errors|, summaryPrompt)),
                    lines, argLimit, launch, listRepr)
  {
    var tried := prompts + [SummaryPrompt(listRepr(errors))];
    assert forall j :: 0 <= j < |prompts| ==> tried[j] == prompts[j];
  }

  /** The run is fully determined by the log, the model process and the list rendering. */
  lemma RunIsDetermined(r1: Session, r2: Session, lines: seq<string>,
                        argLimit: Option<nat>, launch: (nat, string) -> Option<string>, listRepr: seq<string> -> string)
    requires IsRunOf(r1, lines, argLimit, launch, listRepr) && IsRunOf(r2, lines, argLimit, launch, listRepr)
    ensures r1 == r2
  {
    RunLengthDetermined(r1, r2, lines, argLimit, launch, listRepr);
    RunLengthDetermined(r2, r1, lines, argLimit, launch, listRepr);
    assert |r1.prompts| == |r2.prompts|;
    forall i | 0 <= i < |r1.prompts| ensures r1.prompts[i] == r2.prompts[i] {
    }
    assert r1.prompts == r2.prompts;
    assert r1.analyses == r2.analyses;
  }

  /** Two runs of the same log with the same model process get equally far. */
  lemma RunLengthDetermined(r1: Session, r2: Session, lines: seq<string>,
                            argLimit: Option<nat>, launch: (nat, string) -> Option<string>, listRepr: seq<string> -> string)
    requires IsRunOf(r1, lines, argLimit, launch, listRepr) && IsRunOf(r2, lines, argLimit, launch, listRepr)
    ensures |r1.analyses| <= |r2.analyses|
  {
    var n := |r2.analyses|;
    if n < |r1.analyses| {
      assert false;
    }
  }

  /**
    A kept line holding a NUL character is never explained, and the run
    ends before the summary: its call raises, or an earlier one did.
   */
  lemma RunStopsAtNul(run: Session, lines: seq<string>, argLimit: Option<nat>, launch: (nat, string) -> Option<string>,
                      listRepr: seq<string> -> string, k: nat)
    requires IsRunOf(run, lines, argLimit, launch, listRepr)
    requires k < |run.errors| && '\0' in run.errors[k]
    ensures |run.analyses| <= k && run.summary == None
  {
    ExplainPromptPassable(argLimit, run.errors[k]);
    if k < |run.analyses| {
      assert false;
    }
  }

  /**
    When every per-line call goes through, every kept line gets its
    analysis and the summary is the answer to the summary prompt, sent as
    call number `|errors|`, even for a log with no error line.
   */
  lemma RunCompletes(run: Session, lines: seq<string>, argLimit: Option<nat>, launch: (nat, string) -> Option<string>,
                     listRepr: seq<string> -> string)
    requires IsRunOf(run, lines, argLimit, launch, listRepr)
    requires forall i :: 0 <= i < |run.errors| ==> CallModel(argLimit, launch, i, ExplainPrompt(run.errors[i])).Some?
    ensures |run.analyses| == |run.errors|
    ensures forall i :: 0 <= i < |run.errors| ==>
              Some(run.analyses[i]) == CallModel(argLimit, launch, i, ExplainPrompt(run.errors[i]))
    ensures run.prompts[|run.errors|] == SummaryPrompt(listRepr(run.errors))
    ensures run.summary == CallModel(argLimit, launch, |run.errors|, SummaryPrompt(listRepr(run.errors)))
  {
    var n := |run.analyses|;
    if n < |run.errors| {
      assert false;
    }
  }
}
