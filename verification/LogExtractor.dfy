/** The log string extractor: which lines of a preprocessed source file make up a log
    call, and what is recorded for it. */
module LogExtractor {
  import opened Options
  import opened Text
  import opened BracketScanner
  import opened LogCalls

  // ---------- The lines of a file ----------

  datatype Call = Call(kind: LogType, text: string)

  datatype Stop = TooManyClosingBrackets | Raised

  /** How far the reading of a file has come: the kind and text of a call that is being
      merged and the brackets it has open, the calls handled, and why it stopped early. */
  datatype Progress = Progress(merging: LogType, mergedLine: string, open: int, calls: seq<Call>, stop: Option<Stop>)

  const BEGIN := Progress(NoLog, "", 0, [], None)

  /** Such lines are skipped. */
  predicate IsComment(line: string) {
    line != "" && line[0] == '#'
  }

  /** A call is handed over to be parsed; the reading ends when that raises. */
  function Handled(p: Progress, call: Call): Progress {
    p.(calls := p.calls + [call], stop := if Parse(call.kind, call.text) == Raises then Some(Raised) else None)
  }

  /** A line on which a call of a kind may start, and whether it needs further lines. */
  function Started(p: Progress, kind: LogType, line: string): Progress {
    if CallTail(line, kind) == None then p
    else if Brackets(line) > 0 then p.(merging := kind, mergedLine := Strip(line), open := Brackets(line))
    else if Brackets(line) < 0 then p.(open := Brackets(line), stop := Some(TooManyClosingBrackets))
    else Handled(p.(open := 0), Call(kind, line))
  }

  function Continued(p: Progress, line: string): Progress {
    var merged := p.mergedLine + Strip(line);
    var open := p.open + Brackets(line);
    var q := p.(mergedLine := merged, open := open);
    if open == 0 then Handled(q, Call(p.merging, merged)).(merging := NoLog) else q
  }

  function Fed(p: Progress, line: string): Progress {
    if p.stop.Some? || IsComment(line) then p
    else if p.merging != NoLog then Continued(p, line)
    else
      var q := Started(p, Log, line);
      if q.stop.Some? || q.merging != NoLog then q else Started(q, LogArray, line)
  }

  function After(lines: seq<string>): Progress {
    if lines == [] then BEGIN else Fed(After(lines[..|lines| - 1]), lines[|lines| - 1])
  }

  /** The entries of the calls, in the order they are handled. */
  datatype Entries = Entries(
    fileNames: map<int, string>,
    logs: map<int, map<int, string>>,
    logArrays: map<int, map<int, ArrayFormat>>)

  function Under<T>(m: map<int, map<int, T>>, hash: nat, lineNumber: nat, value: T): map<int, map<int, T>> {
    m[hash := (if hash in m then m[hash] else map[])[lineNumber := value]]
  }

  function WithEntry(e: Entries, parsed: Parsed): Entries {
    match parsed
    case Raises => e
    case Skipped => e
    case LogEntry(name, n, s) =>
      e.(fileNames := e.fileNames[NameHash(name) := name], logs := Under(e.logs, NameHash(name), n, s))
    case ArrayEntry(name, n, f) =>
      e.(fileNames := e.fileNames[NameHash(name) := name], logArrays := Under(e.logArrays, NameHash(name), n, f))
  }

  function WithCalls(e: Entries, calls: seq<Call>): Entries {
    if calls == [] then e
    else
      var last := calls[|calls| - 1];
      WithEntry(WithCalls(e, calls[..|calls| - 1]), Parse(last.kind, last.text))
  }

  class LogStringExtractor {
    var fileNames: map<int, string>
    var logs: map<int, map<int, string>>
    var logArrays: map<int, map<int, ArrayFormat>>

    constructor ()
      ensures Recorded() == Entries(map[], map[], map[])
    {
      fileNames, logs, logArrays := map[], map[], map[];
    }

    ghost function Recorded(): Entries
      reads this
    {
      Entries(fileNames, logs, logArrays)
    }

    /** The file name in the first argument of a log call. */
    method ReadName(arg: string) returns (name: Option<string>)
      ensures name == NameOf(arg)
    {
      hide Args;
      var fileNameHashArgs := GetArgs(arg, |NAME_CALL|);
      if fileNameHashArgs == None {
        return None;
      }
      var quoted := fileNameHashArgs.value.1[0];
      var fileName := if |quoted| < 2 then "" else quoted[1..|quoted| - 1];
      return if IsBytes(fileName) then Some(fileName) else None;
    }

    method ParseLogLine(line: string) returns (raised: bool)
      modifies this
      ensures raised <==> Parse(Log, line) == Raises
      ensures Recorded() == WithEntry(old(Recorded()), Parse(Log, line))
    {
      hide Args, NameOf, CallTail, NameHash, ParseInt, At, RemovedQuotes;
      var tail := CallTail(line, Log);
      if tail == None {
        return true;
      }
      var found := GetArgs(tail.value, 0);
      if found == None {
        return false;
      }
      var logArgs := found.value.1;
      if !At(logArgs[0], 0, NAME_CALL) {
        return false;
      }
      var fileName := ReadName(logArgs[0]);
      if fileName == None || |logArgs| < 5 || ParseInt(logArgs[1]) == None {
        return true;
      }
      var fileNameHash := GetFileNameHash(fileName.value);
      var lineNumber := ParseInt(logArgs[1]).value;
      var logString := RemoveQuotes(logArgs[4]);
      if fileNameHash !in logs {
        logs := logs[fileNameHash := map[]];
      }
      logs := logs[fileNameHash := logs[fileNameHash][lineNumber := logString]];
      fileNames := fileNames[fileNameHash := fileName.value];
      return false;
    }

    method ReadFormat(logArgs: seq<string>) returns (format: ArrayFormat)
      requires |logArgs| >= 10
      ensures format == FormatOf(logArgs)
    {
      var startFormat := RemoveQuotes(logArgs[7]);
      var endFormat := RemoveQuotes(logArgs[8]);
      var separationFormat := RemoveQuotes(logArgs[9]);
      var elementFormat: Option<string> := None;
      if |logArgs| > 10 {
        var element := RemoveQuotes(logArgs[10]);
        elementFormat := Some(element);
      }
      return ArrayFormat(startFormat, endFormat, separationFormat, elementFormat);
    }

    /** A failure in here is caught: only a line without the call raises. */
    method ParseLogArrayLine(line: string) returns (raised: bool)
      modifies this
      ensures raised <==> Parse(LogArray, line) == Raises
      ensures Recorded() == WithEntry(old(Recorded()), Parse(LogArray, line))
    {
      hide Args, NameOf, CallTail, NameHash, ParseInt, At, FormatOf, LogEntryOf;
      var tail := CallTail(line, LogArray);
      if tail == None {
        return true;
      }
      var found := GetArgs(tail.value, 0);
      if found == None {
        return false;
      }
      var logArgs := found.value.1;
      if !At(logArgs[0], 0, NAME_CALL) {
        return false;
      }
      var fileName := ReadName(logArgs[0]);
      if fileName == None || |logArgs| < 10 || ParseInt(logArgs[1]) == None {
        return false;
      }
      var fileNameHash := GetFileNameHash(fileName.value);
      var lineNumber := ParseInt(logArgs[1]).value;
      var format := ReadFormat(logArgs);
      if fileNameHash !in logArrays {
        logArrays := logArrays[fileNameHash := map[]];
      }
      logArrays := logArrays[fileNameHash := logArrays[fileNameHash][lineNumber := format]];
      fileNames := fileNames[fileNameHash := fileName.value];
      return false;
    }

    method ParseCall(kind: LogType, line: string) returns (raised: bool)
      requires kind != NoLog
      modifies this
      ensures raised <==> Parse(kind, line) == Raises
      ensures Recorded() == WithEntry(old(Recorded()), Parse(kind, line))
    {
      if kind == Log {
        raised := ParseLogLine(line);
      } else {
        raised := ParseLogArrayLine(line);
      }
    }

    /** `_parseFile`, on the lines of the file. */
    method ParseFile(lines: seq<string>) returns (stop: Option<Stop>)
      modifies this
      ensures stop == After(lines).stop
      ensures Recorded() == WithCalls(old(Recorded()), After(lines).calls)
    {
      hide Parse, CallTail, Strip, Brackets, WithEntry, WithCalls, After;
      var mergedLine := "";
      var mergingMultiLine := NoLog;
      var bracketOpenCount := 0;
      ghost var calls: seq<Call> := [];
      NothingRead(lines, Recorded());
      for i := 0 to |lines|
        invariant After(lines[..i]) == Progress(mergingMultiLine, mergedLine, bracketOpenCount, calls, None)
        invariant Recorded() == WithCalls(old(Recorded()), calls)
      {
        var line := lines[i];
        AfterOneMore(lines, i);
        StoppedForGood(lines, i + 1);
        if line != "" && line[0] == '#' {
          continue;
        }
        if mergingMultiLine != NoLog {
          mergedLine := mergedLine + Strip(line);
          var n := CountBrackets(line);
          bracketOpenCount := bracketOpenCount + n;
          if bracketOpenCount == 0 {
            var raised := ParseCall(mergingMultiLine, mergedLine);
            WithOneMore(old(Recorded()), calls, Call(mergingMultiLine, mergedLine));
            calls := calls + [Call(mergingMultiLine, mergedLine)];
            if raised {
              return Some(Raised);
            }
            mergingMultiLine := NoLog;
          }
          continue;
        }
        if CallTail(line, Log).Some? {
          bracketOpenCount := CountBrackets(line);
          if bracketOpenCount > 0 {
            mergingMultiLine := Log;
            mergedLine := Strip(line);
            continue;
          }
          if bracketOpenCount < 0 {
            return Some(TooManyClosingBrackets);
          }
          var raised := ParseLogLine(line);
          WithOneMore(old(Recorded()), calls, Call(Log, line));
          calls := calls + [Call(Log, line)];
          if raised {
            return Some(Raised);
          }
        }
        if CallTail(line, LogArray).Some? {
          bracketOpenCount := CountBrackets(line);
          if bracketOpenCount > 0 {
            mergingMultiLine := LogArray;
            mergedLine := Strip(line);
            continue;
          }
          if bracketOpenCount < 0 {
            return Some(TooManyClosingBrackets);
          }
          var raised := ParseLogArrayLine(line);
          WithOneMore(old(Recorded()), calls, Call(LogArray, line));
          calls := calls + [Call(LogArray, line)];
          if raised {
            return Some(Raised);
          }
        }
      }
      assert lines[..|lines|] == lines;
      return None;
    }
  }

  lemma NothingRead(lines: seq<string>, e: Entries)
    ensures After(lines[..0]) == BEGIN
    ensures WithCalls(e, []) == e
  {
  }

  lemma WithOneMore(e: Entries, calls: seq<Call>, call: Call)
    ensures WithCalls(e, calls + [call]) == WithEntry(WithCalls(e, calls), Parse(call.kind, call.text))
  {
    hide WithEntry, Parse;
    assert (calls + [call])[..|calls|] == calls;
  }

  lemma AfterOneMore(lines: seq<string>, i: nat)
    requires i < |lines|
    ensures After(lines[..i + 1]) == Fed(After(lines[..i]), lines[i])
  {
    assert lines[..i + 1][..i] == lines[..i];
  }

  /** Nothing is read after a stop. */
  lemma {:induction false} StoppedForGood(lines: seq<string>, i: nat)
    requires i <= |lines|
    ensures After(lines[..i]).stop.Some? ==> After(lines) == After(lines[..i])
    decreases |lines| - i
  {
    if i == |lines| {
      assert lines[..i] == lines;
    } else {
      AfterOneMore(lines, i);
      StoppedForGood(lines, i + 1);
    }
  }

  /** The lines that do not begin with #. */
  function Uncommented(lines: seq<string>): seq<string> {
    if lines == [] then []
    else
      var front, last := Uncommented(lines[..|lines| - 1]), lines[|lines| - 1];
      if "#" <= last then front else front + [last]
  }

  lemma CommentIff(line: string)
    ensures IsComment(line) <==> "#" <= line
  {
  }

  /** Line markers between the lines of a call, or anywhere else, make no difference. */
  lemma {:induction false} CommentsAreSkipped(lines: seq<string>)
    ensures After(lines) == After(Uncommented(lines))
    decreases |lines|
  {
    hide Started, Continued, IsComment;
    if lines != [] {
      var front, last := lines[..|lines| - 1], lines[|lines| - 1];
      CommentIff(last);
      CommentsAreSkipped(front);
      assert (Uncommented(front) + [last])[..|Uncommented(front)|] == Uncommented(front);
    }
  }

  // ---------- Every call handed over is a whole call ----------

  /** Text that begins and ends without space lies between the space around a line. */
  lemma OccursBetweenSpace(a: string, text: string, b: string, i: nat, name: string)
    requires AllSpace(a) && AllSpace(b) && At(a + text + b, i, name)
    requires name != "" && !IsSpace(name[0]) && !IsSpace(name[|name| - 1])
    ensures |a| <= i && i + |name| <= |a| + |text| && At(text, i - |a|, name)
  {
    hide IsSpace;
    var line := a + text + b;
    assert line[i] == line[i..i + |name|][0] == name[0];
    assert line[i + |name| - 1] == line[i..i + |name|][|name| - 1] == name[|name| - 1];
    assert forall k :: 0 <= k < |a| ==> line[k] == a[k];
    assert forall k :: 0 <= k < |b| ==> line[|a| + |text| + k] == b[k];
    assert forall k :: |a| + |text| <= k < |line| ==> line[k] == b[k - |a| - |text|];
    assert text[i - |a|..i - |a| + |name|] == line[i..i + |name|];
  }

  lemma CallNameEnds(kind: LogType)
    ensures var name := CallName(kind);
      name != "" && !IsSpace(name[0]) && !IsSpace(name[|name| - 1])
  {
  }

  /** Stripping a line leaves the call in it. */
  lemma CallStays(line: string, kind: LogType)
    requires CallTail(line, kind).Some?
    ensures CallTail(Strip(line), kind).Some?
  {
    hide FindFrom, CallName, Strip, IsSpace, UpToNewline;
    var name := CallName(kind);
    CallNameEnds(kind);
    var i := FindFrom(line, 0, name).value;
    StripParts(line);
    var text := Strip(line);
    var a, b :| AllSpace(a) && AllSpace(b) && line == a + text + b;
    FindsBetweenSpace(a, text, b, i, name);
  }

  lemma FindsBetweenSpace(a: string, text: string, b: string, i: nat, name: string)
    requires AllSpace(a) && AllSpace(b) && At(a + text + b, i, name)
    requires forall k :: 0 <= k < i ==> (a + text + b)[k] != '\n'
    requires name != "" && !IsSpace(name[0]) && !IsSpace(name[|name| - 1])
    ensures FindFrom(text, 0, name).Some?
  {
    hide FindFrom, IsSpace, AllSpace;
    OccursBetweenSpace(a, text, b, i, name);
    forall k | 0 <= k < i - |a| ensures text[k] != '\n' {
      assert text[k] == (a + text + b)[|a| + k];
    }
    Finds(text, 0, name, i - |a|);
  }

  lemma CallStaysIn(text: string, kind: LogType, more: string)
    requires CallTail(text, kind).Some?
    ensures CallTail(text + more, kind).Some?
  {
    var name := CallName(kind);
    var i := FindFrom(text, 0, name).value;
    assert (text + more)[i..i + |name|] == text[i..i + |name|];
    Finds(text + more, 0, name, i);
  }

  predicate IsCall(call: Call) {
    call.kind != NoLog && CallTail(call.text, call.kind).Some?
  }

  /** What is being merged, and everything handed over, holds a log call: the pattern
      is matched again when the call is parsed. */
  predicate CallsKept(p: Progress) {
    && (p.merging != NoLog ==> CallTail(p.mergedLine, p.merging).Some?)
    && (forall k :: 0 <= k < |p.calls| ==> IsCall(p.calls[k]))
  }

  lemma FedKeepsCalls(p: Progress, line: string)
    requires CallsKept(p)
    ensures CallsKept(Fed(p, line))
  {
    hide CallTail, Strip, Brackets, Parse;
    if p.merging != NoLog {
      CallStaysIn(p.mergedLine, p.merging, Strip(line));
    } else {
      forall kind | CallTail(line, kind).Some? ensures CallTail(Strip(line), kind).Some? {
        CallStays(line, kind);
      }
    }
  }

  lemma {:induction false} CallsAreKept(lines: seq<string>)
    ensures CallsKept(After(lines))
    decreases |lines|
  {
    hide CallsKept, Fed;
    if lines == [] {
      NothingKept();
    } else {
      CallsAreKept(lines[..|lines| - 1]);
      FedKeepsCalls(After(lines[..|lines| - 1]), lines[|lines| - 1]);
    }
  }

  lemma NothingKept()
    ensures CallsKept(BEGIN)
  {
  }

  /** The text of every call handed over is balanced, and the brackets counted for a
      call that is being merged are those of the text merged so far. */
  predicate Balanced(p: Progress) {
    && (p.merging != NoLog ==> Run(START, p.mergedLine) == Scan(false, None, p.open))
    && (forall k :: 0 <= k < |p.calls| ==> Run(START, p.calls[k].text) == START)
  }

  /** The line ends outside of strings and escapes where the brackets of it matter: as
      it is merged, or as it is handed over. */
  predicate LineSettles(p: Progress, line: string) {
    if p.stop.Some? || IsComment(line) then true
    else if p.merging != NoLog then Closed(Strip(line))
    else if CallTail(line, Log).None? && CallTail(line, LogArray).None? then true
    else Brackets(line) < 0 || Closed(if Brackets(line) > 0 then Strip(line) else line)
  }

  predicate LinesSettle(lines: seq<string>) {
    forall k :: 0 <= k < |lines| ==> LineSettles(After(lines[..k]), lines[k])
  }

  /** One line keeps the balance exactly when it settles. */
  lemma FedBalances(p: Progress, line: string)
    requires Balanced(p)
    ensures Balanced(Fed(p, line)) <==> LineSettles(p, line)
  {
    hide CallTail, Strip, Parse, Run, Step;
    if Closed(Strip(line)) {
      StrippedCounts(line);
    }
    if p.merging != NoLog {
      RunConcat(START, p.mergedLine, Strip(line));
      RunShift(START, p.open, Strip(line));
      assert Scan(false, None, p.open) == START.(depth := START.depth + p.open);
      ContinuedBalances(p, line);
    } else {
      StartedBalances(p, Log, line);
      var q := Started(p, Log, line);
      if q.stop.None? && q.merging == NoLog {
        StartedBalances(q, LogArray, line);
      }
    }
  }

  lemma ContinuedBalances(p: Progress, line: string)
    requires Balanced(p) && p.merging != NoLog
    requires Run(START, p.mergedLine + Strip(line))
      == Run(START, Strip(line)).(depth := p.open + Run(START, Strip(line)).depth)
    requires Closed(Strip(line)) ==> Run(START, line) == Run(START, Strip(line))
    ensures Balanced(Continued(p, line)) <==> Closed(Strip(line))
  {
    hide Strip, Parse, Run;
    var q := Continued(p, line);
    assert q.merging == NoLog ==> q.calls[|p.calls|] == Call(p.merging, p.mergedLine + Strip(line));
  }

  lemma StartedBalances(p: Progress, kind: LogType, line: string)
    requires p.merging == NoLog && kind != NoLog
    requires Closed(Strip(line)) ==> Run(START, line) == Run(START, Strip(line))
    ensures Balanced(Started(p, kind, line)) <==> (Balanced(p)
      && (CallTail(line, kind).None? || Brackets(line) < 0 || Closed(if Brackets(line) > 0 then Strip(line) else line)))
  {
    hide CallTail, Strip, Parse, Run;
    var q := Started(p, kind, line);
    assert forall k :: 0 <= k < |p.calls| ==> q.calls[k] == p.calls[k];
    assert CallTail(line, kind).Some? && Brackets(line) == 0 ==> q.calls[|p.calls|] == Call(kind, line);
  }

  predicate AlwaysBalanced(lines: seq<string>) {
    forall k :: 0 <= k <= |lines| ==> Balanced(After(lines[..k]))
  }

  lemma AlwaysOneMore(lines: seq<string>, line: string)
    ensures AlwaysBalanced(lines + [line]) <==> AlwaysBalanced(lines) && Balanced(Fed(After(lines), line))
    ensures AlwaysBalanced(lines) ==> Balanced(After(lines))
  {
    hide Balanced, Fed, After;
    var all := lines + [line];
    assert forall k :: 0 <= k <= |lines| ==> all[..k] == lines[..k];
    assert lines[..|lines|] == lines && all[..|all|] == all;
    AfterOneMore(all, |lines|);
  }

  lemma SettleOneMore(lines: seq<string>, line: string)
    ensures LinesSettle(lines + [line]) <==> LinesSettle(lines) && LineSettles(After(lines), line)
  {
    hide LineSettles, After;
    var all := lines + [line];
    assert forall k :: 0 <= k <= |lines| ==> all[..k] == lines[..k];
    assert lines[..|lines|] == lines && all[|lines|] == line;
  }

  /** Line merging is sound exactly on the files whose lines settle: then, and only then,
      at every line each call handed over is balanced and the running count is that of
      the text merged so far. */
  lemma {:induction false} BalancedIff(lines: seq<string>)
    ensures AlwaysBalanced(lines) <==> LinesSettle(lines)
    decreases |lines|
  {
    hide Balanced, AlwaysBalanced, LinesSettle, LineSettles, Fed, After;
    if lines == [] {
      NothingUnbalanced();
    } else {
      var front, last := lines[..|lines| - 1], lines[|lines| - 1];
      assert front + [last] == lines;
      BalancedIff(front);
      AlwaysOneMore(front, last);
      SettleOneMore(front, last);
      if AlwaysBalanced(front) {
        FedBalances(After(front), last);
      }
    }
  }

  lemma CallsAreBalanced(lines: seq<string>)
    requires LinesSettle(lines)
    ensures Balanced(After(lines))
  {
    hide Balanced, LinesSettle;
    BalancedIff(lines);
    assert AlwaysBalanced(lines) && lines[..|lines|] == lines;
  }

  /** In particular lines settle that all end, stripped, outside of strings and escapes. */
  lemma SettledLinesSettle(lines: seq<string>)
    requires Settled(lines)
    ensures LinesSettle(lines)
  {
    hide CallTail, Strip, Run, After;
    forall k | 0 <= k < |lines| ensures LineSettles(After(lines[..k]), lines[k]) {
      StrippedCounts(lines[k]);
    }
  }

  lemma NothingUnbalanced()
    ensures AlwaysBalanced([]) && LinesSettle([])
  {
  }

  // ---------- Every call handed over has its arguments found ----------

  /** A line as it is read from a file: a newline can only be its last character. */
  predicate IsLine(line: string) {
    forall k :: 0 <= k < |line| - 1 ==> line[k] != '\n'
  }

  lemma StripsNewline(line: string)
    requires IsLine(line)
    ensures NewlineFree(Strip(line))
  {
    hide Strip, IsSpace;
    StripParts(line);
    var text := Strip(line);
    var a, b :| AllSpace(a) && AllSpace(b) && line == a + text + b;
    NewlineIsSpace();
    forall k | 0 <= k < |text| ensures text[k] != '\n' {
      assert text[k] == line[|a| + k];
    }
  }

  lemma NewlineIsSpace()
    ensures IsSpace('\n')
  {
  }

  lemma {:induction false} CallTextsAreLines(lines: seq<string>)
    requires forall k :: 0 <= k < |lines| ==> IsLine(lines[k])
    ensures var p := After(lines);
      (p.merging != NoLog ==> NewlineFree(p.mergedLine)) && forall k :: 0 <= k < |p.calls| ==> IsLine(p.calls[k].text)
    decreases |lines|
  {
    hide Strip, Parse, CallTail, Brackets;
    if lines != [] {
      CallTextsAreLines(lines[..|lines| - 1]);
      StripsNewline(lines[|lines| - 1]);
    }
  }

  /** Cutting off the newline at the end of a line does not change its brackets. */
  lemma {:induction false} DepthUpToNewline(s: Scan, line: string)
    requires IsLine(line)
    ensures Run(s, UpToNewline(line)).depth == Run(s, line).depth
    decreases |line|
  {
    if line != "" && line[0] != '\n' {
      DepthUpToNewline(Step(s, line[0]), line[1..]);
    } else if line != "" {
      assert line[1..] == "";
    }
  }

  lemma RunCallName(kind: LogType)
    ensures Run(START, CallName(kind)) == Inside(START)
  {
    hide Run, Step;
    var letters := if kind == Log then "cs_log_args" else "cs_log_array";
    assert CallName(kind) == letters + "(";
    QuietIsIgnored(START, letters);
    RunConcat(START, letters, "(");
    RunOpen();
  }

  /** In a file whose lines settle, every call handed over is parsed as a whole: the
      bracket that closes it is found, provided the text before it is balanced. */
  lemma CallArgsAreFound(lines: seq<string>, k: nat)
    requires LinesSettle(lines) && forall i :: 0 <= i < |lines| ==> IsLine(lines[i])
    requires k < |After(lines).calls|
    ensures var call := After(lines).calls[k]; var at := FindFrom(call.text, 0, CallName(call.kind));
      && at.Some? && CallTail(call.text, call.kind).Some?
      && (Run(START, call.text[..at.value]) == START ==> Args(CallTail(call.text, call.kind).value, 0).Some?)
  {
    hide After, FindFrom, Run, Step, Args, UpToNewline, LinesSettle, CallName;
    CallsAreKept(lines);
    CallsAreBalanced(lines);
    CallTextsAreLines(lines);
    var call := After(lines).calls[k];
    assert IsCall(call);
    var name := CallName(call.kind);
    var at := FindFrom(call.text, 0, name).value;
    var before, rest := call.text[..at], call.text[at + |name|..];
    if Run(START, before) == START {
      assert call.text == before + name + rest;
      TailIsClosed(call.kind, before, rest);
    }
  }

  lemma TailIsClosed(kind: LogType, before: string, rest: string)
    requires Run(START, before) == START && Run(START, before + CallName(kind) + rest) == START
    requires IsLine(rest)
    ensures Args(UpToNewline(rest), 0).Some?
  {
    hide Run, Step, UpToNewline, ArgsFrom, CallName;
    var tail := UpToNewline(rest);
    RunConcat(START, before + CallName(kind), rest);
    RunConcat(START, before, CallName(kind));
    RunCallName(kind);
    RunShift(START, 1, rest);
    assert Inside(START) == START.(depth := START.depth + 1);
    DepthUpToNewline(START, rest);
    assert tail[0..|tail|] == tail;
    ArgsFoundFrom(tail, 0, START, [], "");
  }
}
