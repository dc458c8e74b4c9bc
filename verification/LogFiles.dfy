/** What the log string extractor does with whole files: calls on one line or broken over
    several are handed over once, and what is recorded stays. */
module LogFiles {
  import opened Options
  import opened Text
  import opened BracketScanner
  import opened LogCalls
  import opened LogExtractor

  // ---------- A call broken over several lines ----------

  /** A call may start here: nothing is being merged and nothing stopped the reading. */
  predicate Idle(p: Progress) {
    p.stop.None? && p.merging == NoLog
  }

  /** The line starts a call of this kind. A log call takes precedence. */
  predicate Starts(line: string, kind: LogType) {
    && kind != NoLog && !IsComment(line) && CallTail(line, kind).Some?
    && (kind == LogArray ==> CallTail(line, Log).None?)
  }

  /** The brackets stay open over all lines but the last, which closes them. */
  predicate ClosesAtEnd(lines: seq<string>) {
    && |lines| >= 2 && BracketSum(lines) == 0
    && forall k :: 0 < k < |lines| ==> BracketSum(lines[..k]) > 0
  }

  lemma AfterPrefix(before: seq<string>, lines: seq<string>, k: nat)
    requires k < |lines|
    ensures After(before + lines[..k + 1]) == Fed(After(before + lines[..k]), lines[k])
    ensures BracketSum(lines[..k + 1]) == BracketSum(lines[..k]) + Brackets(lines[k])
    ensures Merged(lines[..k + 1]) == Merged(lines[..k]) + Strip(lines[k])
  {
    hide Fed, Brackets, Strip;
    var all := before + lines[..k + 1];
    assert all[..|before| + k] == before + lines[..k];
    assert lines[..k + 1][..k] == lines[..k];
  }

  /** Until the last line they are merged. */
  lemma {:induction false} Merges(before: seq<string>, lines: seq<string>, kind: LogType, k: nat)
    requires Idle(After(before)) && ClosesAtEnd(lines) && 0 < k < |lines|
    requires Starts(lines[0], kind) && forall i :: 0 <= i < |lines| ==> !IsComment(lines[i])
    ensures After(before + lines[..k])
      == Progress(kind, Merged(lines[..k]), BracketSum(lines[..k]), After(before).calls, None)
    decreases k
  {
    hide After, CallTail, Brackets, Strip, Parse, Merged, BracketSum;
    AfterPrefix(before, lines, k - 1);
    if k == 1 {
      NothingMerged();
      assert before + lines[..0] == before && lines[..0] == [];
      assert "" + Strip(lines[0]) == Strip(lines[0]);
    } else {
      Merges(before, lines, kind, k - 1);
    }
  }

  lemma NothingMerged()
    ensures Merged([]) == "" && BracketSum([]) == 0
  {
  }

  /** Then the merged text is handed over as one call. */
  lemma MergedIntoOne(before: seq<string>, lines: seq<string>, kind: LogType)
    requires Idle(After(before)) && ClosesAtEnd(lines)
    requires Starts(lines[0], kind) && forall i :: 0 <= i < |lines| ==> !IsComment(lines[i])
    ensures After(before + lines)
      == Handled(Progress(NoLog, Merged(lines), 0, After(before).calls, None), Call(kind, Merged(lines)))
  {
    hide After, CallTail, Brackets, Strip, Parse, Merged, BracketSum;
    var n := |lines| - 1;
    Merges(before, lines, kind, n);
    AfterPrefix(before, lines, n);
    assert lines[..n + 1] == lines;
  }

  lemma {:induction false} MergedPrefix(lines: seq<string>, k: nat)
    requires k <= |lines|
    ensures Merged(lines[..k]) <= Merged(lines)
    decreases |lines|
  {
    hide Strip;
    if k == |lines| {
      assert lines[..k] == lines;
    } else {
      var front := lines[..|lines| - 1];
      MergedPrefix(front, k);
      assert front[..k] == lines[..k];
    }
  }

  /** Where the text of a call is broken inside its brackets, brackets are open. */
  lemma OpenInside(kind: LogType, before: string, texts: seq<string>, k: nat)
    requires Run(START, before) == START && texts != [] && AllPieces(texts) && k <= |Join(texts)|
    ensures Brackets(before + CallName(kind) + Join(texts)[..k]) > 0
  {
    hide Run, Step, Join, CallName;
    var part := Join(texts)[..k];
    RunCallName(kind);
    RunConcat(START, before + CallName(kind), part);
    RunConcat(START, before, CallName(kind));
    JoinPrefix(texts, k);
    RunShift(START, 1, part);
    assert Inside(START) == START.(depth := START.depth + 1);
  }

  lemma ClosedAfter(kind: LogType, before: string, texts: seq<string>, after: string)
    requires Run(START, before) == START && Run(START, after) == START && texts != [] && AllPieces(texts)
    ensures Brackets(before + CallName(kind) + Join(texts) + ")" + after) == 0
  {
    hide Run, Step, Join, CallName;
    var opening := before + CallName(kind);
    RunCallName(kind);
    RunConcat(START, opening + Join(texts) + ")", after);
    RunConcat(START, opening + Join(texts), ")");
    RunConcat(START, opening, Join(texts));
    RunConcat(START, before, CallName(kind));
    JoinPrefix(texts, 0);
    RunShift(START, 1, Join(texts));
    assert Inside(START) == START.(depth := START.depth + 1);
    RunClose();
  }

  lemma RunClose()
    ensures Run(Inside(START), ")") == START
  {
  }

  /** The lines print a call of this kind with these texts, broken inside its brackets:
      put together they are the call between balanced text. */
  predicate Broken(lines: seq<string>, kind: LogType, before: string, texts: seq<string>, after: string) {
    var opening := before + CallName(kind);
    && |lines| >= 2 && texts != [] && Settled(lines) && IsLine(lines[0])
    && (forall k :: 0 <= k < |lines| ==> !IsComment(lines[k]))
    && Merged(lines) == opening + Join(texts) + ")" + after
    && FindFrom(Merged(lines), 0, CallName(kind)) == Some(|before|)
    && Run(START, before) == START && Run(START, after) == START
    && (forall k :: 0 < k < |lines| ==> |opening| <= |Merged(lines[..k])| <= |opening + Join(texts)|)
  }

  lemma BrokenClosesAtEnd(lines: seq<string>, kind: LogType, before: string, texts: seq<string>, after: string)
    requires Broken(lines, kind, before, texts, after) && AllPieces(texts)
    ensures ClosesAtEnd(lines)
  {
    hide Run, Join, CallName, Merged, BracketSum, FindFrom, Strip, AllPieces;
    var opening := before + CallName(kind);
    SettledIff(lines);
    forall k | 0 < k < |lines| ensures BracketSum(lines[..k]) > 0 {
      var part := Merged(lines[..k]);
      MergedPrefix(lines, k);
      assert part == Merged(lines)[..|part|] == opening + Join(texts)[..|part| - |opening|];
      OpenInside(kind, before, texts, |part| - |opening|);
      assert Counted(lines[..k]);
    }
    ClosedAfter(kind, before, texts, after);
    assert lines[..|lines|] == lines && Counted(lines[..|lines|]);
  }

  lemma AtInPrefix(text: string, whole: string, at: nat, name: string)
    requires text <= whole && At(whole, at, name) && at + |name| <= |text|
    ensures At(text, at, name)
  {
    assert text[at..at + |name|] == whole[at..at + |name|];
  }

  /** What the stripped line holds, the line does. */
  lemma FoundUnstripped(line: string, at: nat, name: string)
    requires IsLine(line) && name != "" && At(Strip(line), at, name)
    ensures FindFrom(line, 0, name).Some?
  {
    hide FindFrom, Strip, IsSpace;
    var text := Strip(line);
    StripParts(line);
    var a, b :| AllSpace(a) && AllSpace(b) && line == a + text + b;
    assert line[|a| + at..|a| + at + |name|] == text[at..at + |name|];
    Finds(line, 0, name, |a| + at);
  }

  /** The first of the lines holds the name of the call. */
  lemma BrokenStarts(lines: seq<string>, kind: LogType, before: string, texts: seq<string>, after: string)
    requires Broken(lines, kind, before, texts, after)
    ensures CallTail(lines[0], kind).Some?
  {
    hide Run, Join, CallName, FindFrom, Strip, Settled, IsSpace, At, IsLine, IsComment, UpToNewline;
    var line, name := lines[0], CallName(kind);
    assert lines[..1] == [line];
    MergedLine(line);
    MergedPrefix(lines, 1);
    hide Merged;
    assert At(Merged(lines), |before|, name);
    AtInPrefix(Strip(line), Merged(lines), |before|, name);
    CallNameEnds(kind);
    FoundUnstripped(line, |before|, name);
  }

  lemma MergedLine(line: string)
    ensures Merged([line]) == Strip(line)
  {
    hide Strip;
    assert [line][..0] == [] && "" + Strip(line) == Strip(line);
  }

  /** A log call of either kind that is broken over several lines of a file is handed
      over once, as a whole. */
  lemma BrokenCallIsHandled(file: seq<string>, lines: seq<string>, kind: LogType, before: string, texts: seq<string>,
                            after: string)
    requires Idle(After(file)) && kind != NoLog
    requires Broken(lines, kind, before, texts, after) && AllPieces(texts)
    requires kind == LogArray ==> CallTail(lines[0], Log).None?
    ensures After(file + lines)
      == Handled(Progress(NoLog, Merged(lines), 0, After(file).calls, None), Call(kind, Merged(lines)))
  {
    hide Parse, CallTail, Merged, Join, After, FindFrom, CallName, ClosesAtEnd, Settled, Run, AllPieces;
    BrokenClosesAtEnd(lines, kind, before, texts, after);
    BrokenStarts(lines, kind, before, texts, after);
    MergedIntoOne(file, lines, kind);
  }

  /** The line prints a call of this kind with these texts, between balanced texts, and
      holds no call of the other kind. */
  predicate Whole(line: string, kind: LogType, before: string, texts: seq<string>, after: string) {
    && kind != NoLog && texts != [] && !IsComment(line)
    && line == before + CallName(kind) + Join(texts) + ")" + after
    && FindFrom(line, 0, CallName(kind)) == Some(|before|)
    && Run(START, before) == START && Run(START, after) == START
    && CallTail(line, if kind == Log then LogArray else Log).None?
  }

  /** A call on one line is handed over once, too. */
  lemma WholeCallIsHandled(file: seq<string>, line: string, kind: LogType, before: string, texts: seq<string>,
                           after: string)
    requires Idle(After(file)) && Whole(line, kind, before, texts, after) && AllPieces(texts)
    ensures After(file + [line]) == Handled(After(file).(open := 0), Call(kind, line))
  {
    hide Parse, Join, After, FindFrom, CallName, Run, Brackets, UpToNewline, AllPieces;
    ClosedAfter(kind, before, texts, after);
    assert (file + [line])[..|file|] == file && (file + [line])[..|file| + 1] == file + [line];
    AfterOneMore(file + [line], |file|);
  }

  /** What is handed over as a call is recorded, or not, as the call says. */
  lemma HandledIsRecorded(p: Progress, call: Call, e: Entries)
    ensures WithCalls(e, Handled(p, call).calls) == WithEntry(WithCalls(e, p.calls), Parse(call.kind, call.text))
  {
    hide Parse, WithEntry, WithCalls;
    WithOneMore(e, p.calls, call);
  }

  /** A log call of either kind that is broken over several lines of a file is recorded
      under its file and line number with its format strings. */
  lemma BrokenCallIsRecorded(file: seq<string>, lines: seq<string>, kind: LogType, before: string, texts: seq<string>,
                             after: string, nameArgs: seq<string>, entry: Parsed, e: Entries)
    requires Idle(After(file)) && kind != NoLog && Broken(lines, kind, before, texts, after)
    requires Prints(kind, texts, nameArgs, entry)
    requires kind == LogArray ==> CallTail(lines[0], Log).None?
    ensures After(file + lines)
      == Progress(NoLog, Merged(lines), 0, After(file).calls + [Call(kind, Merged(lines))], None)
    ensures WithCalls(e, After(file + lines).calls) == WithEntry(WithCalls(e, After(file).calls), entry)
  {
    hide Parse, CallTail, Merged, Join, After, WithCalls, WithEntry, FindFrom, CallName, Settled, Run,
      FormatTexts, Named, CallTexts;
    TextsArePieces(texts);
    BrokenCallIsHandled(file, lines, kind, before, texts, after);
    CallIsRecorded(kind, Merged(lines), before, texts, after, nameArgs, entry);
    HandledIsRecorded(After(file), Call(kind, Merged(lines)), e);
  }

  /** The same for a call on one line. */
  lemma WholeCallIsRecorded(file: seq<string>, line: string, kind: LogType, before: string, texts: seq<string>,
                            after: string, nameArgs: seq<string>, entry: Parsed, e: Entries)
    requires Idle(After(file)) && Whole(line, kind, before, texts, after)
    requires Prints(kind, texts, nameArgs, entry)
    ensures After(file + [line]).calls == After(file).calls + [Call(kind, line)] && Idle(After(file + [line]))
    ensures WithCalls(e, After(file + [line]).calls) == WithEntry(WithCalls(e, After(file).calls), entry)
  {
    hide Parse, CallTail, Join, After, WithCalls, WithEntry, FindFrom, CallName, Run, FormatTexts, Named, CallTexts;
    TextsArePieces(texts);
    WholeCallIsHandled(file, line, kind, before, texts, after);
    CallIsRecorded(kind, line, before, texts, after, nameArgs, entry);
    HandledIsRecorded(After(file), Call(kind, line), e);
  }

  // ---------- When reading stops, and what is passed over ----------

  /** A call that raises: a log call that names a file but is faulty. */
  ghost predicate Stops(kind: LogType, texts: seq<string>)
    requires texts != []
  {
    kind == Log && NamesFile(texts) && Faulty(Log, texts)
  }

  /** A call from which nothing is recorded. */
  ghost predicate PassedOver(kind: LogType, texts: seq<string>)
    requires texts != []
  {
    !NamesFile(texts) || Faulty(kind, texts)
  }

  lemma OutcomeIsRecorded(p: Progress, call: Call, e: Entries, stops: bool, passedOver: bool)
    requires stops <==> Parse(call.kind, call.text) == Raises
    requires passedOver <==> Parse(call.kind, call.text) in {Raises, Skipped}
    ensures Handled(p, call).stop == if stops then Some(Raised) else None
    ensures passedOver ==> WithCalls(e, Handled(p, call).calls) == WithCalls(e, p.calls)
  {
    hide Parse, WithCalls;
    HandledIsRecorded(p, call, e);
  }

  /** Reading stops at a printed call exactly when it is a log call that names a file and
      is faulty. Any other call that does not yield an entry changes nothing: in
      particular the declarations of the log functions, whose first argument is no
      `fileNameHash(`, and faulty array calls. */
  lemma WholeCallOutcome(file: seq<string>, line: string, kind: LogType, before: string, texts: seq<string>,
                         after: string, e: Entries)
    requires Idle(After(file)) && CallTexts(texts) && Whole(line, kind, before, texts, after)
    ensures After(file + [line]).stop == if Stops(kind, texts) then Some(Raised) else None
    ensures After(file + [line]).merging == NoLog
    ensures PassedOver(kind, texts) ==> WithCalls(e, After(file + [line]).calls) == WithCalls(e, After(file).calls)
  {
    hide Parse, CallTail, Join, After, WithCalls, FindFrom, CallName, Run, CallTexts, NamesFile, Faulty;
    TextsArePieces(texts);
    WholeCallIsHandled(file, line, kind, before, texts, after);
    CallOutcome(kind, line, before, texts, after);
    OutcomeIsRecorded(After(file).(open := 0), Call(kind, line), e, Stops(kind, texts), PassedOver(kind, texts));
  }

  /** The same for a call that is broken over several lines. */
  lemma BrokenCallOutcome(file: seq<string>, lines: seq<string>, kind: LogType, before: string, texts: seq<string>,
                          after: string, e: Entries)
    requires Idle(After(file)) && kind != NoLog && CallTexts(texts) && Broken(lines, kind, before, texts, after)
    requires kind == LogArray ==> CallTail(lines[0], Log).None?
    ensures After(file + lines).stop == if Stops(kind, texts) then Some(Raised) else None
    ensures After(file + lines).merging == NoLog
    ensures PassedOver(kind, texts) ==> WithCalls(e, After(file + lines).calls) == WithCalls(e, After(file).calls)
  {
    hide Parse, CallTail, Merged, Join, After, WithCalls, FindFrom, CallName, Settled, Run, CallTexts,
      NamesFile, Faulty;
    TextsArePieces(texts);
    BrokenCallIsHandled(file, lines, kind, before, texts, after);
    CallOutcome(kind, Merged(lines), before, texts, after);
    var p := Progress(NoLog, Merged(lines), 0, After(file).calls, None);
    OutcomeIsRecorded(p, Call(kind, Merged(lines)), e, Stops(kind, texts), PassedOver(kind, texts));
  }

  /** Reading stops for too many closing brackets exactly on a line, outside of a call
      being merged, that holds a call and closes more brackets than it opens; what was
      handed over before is kept. */
  lemma TooManyIff(file: seq<string>, line: string)
    requires After(file).stop.None?
    ensures After(file + [line]).stop == Some(TooManyClosingBrackets)
      <==> (!IsComment(line) && After(file).merging == NoLog && Brackets(line) < 0
        && (CallTail(line, Log).Some? || CallTail(line, LogArray).Some?))
    ensures After(file + [line]).stop == Some(TooManyClosingBrackets)
      ==> After(file + [line]).calls == After(file).calls
  {
    hide Parse, CallTail, Brackets, Strip, After;
    assert (file + [line])[..|file|] == file && (file + [line])[..|file| + 1] == file + [line];
    AfterOneMore(file + [line], |file|);
  }

  /** On a balanced line that holds calls of both kinds, both are handed over, the log
      call first; the other is not when that one ends the reading. */
  lemma BothAreHandled(file: seq<string>, line: string)
    requires Idle(After(file)) && !IsComment(line) && Brackets(line) == 0
    requires CallTail(line, Log).Some? && CallTail(line, LogArray).Some?
    ensures var first := After(file).calls + [Call(Log, line)]; var after := After(file + [line]);
      if Parse(Log, line) == Raises then after.calls == first && after.stop == Some(Raised)
      else after.calls == first + [Call(LogArray, line)] && after.merging == NoLog
  {
    hide Parse, CallTail, Brackets, Strip, After;
    assert (file + [line])[..|file|] == file && (file + [line])[..|file| + 1] == file + [line];
    AfterOneMore(file + [line], |file|);
  }

  /** Outside of a call a line without one changes nothing. */
  lemma OtherLineChangesNothing(file: seq<string>, line: string)
    requires After(file).merging == NoLog && CallTail(line, Log).None? && CallTail(line, LogArray).None?
    ensures After(file + [line]) == After(file)
  {
    hide CallTail, After;
    assert (file + [line])[..|file|] == file && (file + [line])[..|file| + 1] == file + [line];
    AfterOneMore(file + [line], |file|);
  }

  // ---------- What is recorded stays ----------

  predicate Holds(e: Entries, entry: Parsed) {
    match entry
    case LogEntry(name, n, s) =>
      var h := NameHash(name); h in e.logs && n in e.logs[h] && e.logs[h][n] == s
    case ArrayEntry(name, n, f) =>
      var h := NameHash(name); h in e.logArrays && n in e.logArrays[h] && e.logArrays[h][n] == f
    case _ => true
  }

  /** Entries of one kind for the same line of a file, or of files whose names collide. */
  predicate SamePlace(a: Parsed, b: Parsed) {
    && ((a.LogEntry? && b.LogEntry?) || (a.ArrayEntry? && b.ArrayEntry?))
    && NameHash(a.fileName) == NameHash(b.fileName) && a.lineNumber == b.lineNumber
  }

  /** The file name of the entry is known by its hash. */
  predicate HoldsName(e: Entries, entry: Parsed) {
    entry.LogEntry? || entry.ArrayEntry? ==>
      var h := NameHash(entry.fileName); h in e.fileNames && e.fileNames[h] == entry.fileName
  }

  /** Entries of files with different names but the same hash. */
  predicate Collide(a: Parsed, b: Parsed) {
    && (a.LogEntry? || a.ArrayEntry?) && (b.LogEntry? || b.ArrayEntry?)
    && NameHash(a.fileName) == NameHash(b.fileName) && a.fileName != b.fileName
  }

  lemma EntryHolds(e: Entries, entry: Parsed)
    ensures Holds(WithEntry(e, entry), entry) && HoldsName(WithEntry(e, entry), entry)
  {
    hide NameHash;
  }

  lemma EntryKept(e: Entries, entry: Parsed, other: Parsed)
    ensures Holds(e, entry) && !SamePlace(entry, other) ==> Holds(WithEntry(e, other), entry)
    ensures HoldsName(e, entry) && !Collide(entry, other) ==> HoldsName(WithEntry(e, other), entry)
  {
    hide NameHash;
  }

  /** Reading on only adds calls. */
  lemma {:induction false} CallsGrow(lines: seq<string>, more: seq<string>)
    ensures After(lines).calls <= After(lines + more).calls
    decreases |more|
  {
    hide CallTail, Strip, Brackets, Parse;
    if more == [] {
      assert lines + more == lines;
    } else {
      var n := |more| - 1;
      CallsGrow(lines, more[..n]);
      assert (lines + more)[..|lines| + n] == lines + more[..n];
    }
  }

  /** An entry stays recorded while calls are handled of which none comes to an entry
      for the same place, and its file name while none names another file with the same
      hash. */
  lemma {:induction false} EntryStays(e: Entries, calls: seq<Call>, n: nat, entry: Parsed)
    requires n <= |calls|
    ensures Holds(WithCalls(e, calls[..n]), entry)
      && (forall k :: n <= k < |calls| ==> !SamePlace(entry, Parse(calls[k].kind, calls[k].text)))
      ==> Holds(WithCalls(e, calls), entry)
    ensures HoldsName(WithCalls(e, calls[..n]), entry)
      && (forall k :: n <= k < |calls| ==> !Collide(entry, Parse(calls[k].kind, calls[k].text)))
      ==> HoldsName(WithCalls(e, calls), entry)
    decreases |calls|
  {
    hide Holds, HoldsName, SamePlace, Collide, Parse, WithEntry;
    if n == |calls| {
      assert calls[..n] == calls;
    } else {
      var last := |calls| - 1;
      assert calls[..last][..n] == calls[..n];
      EntryStays(e, calls[..last], n, entry);
      EntryKept(WithCalls(e, calls[..last]), entry, Parse(calls[last].kind, calls[last].text));
    }
  }

  /** So an entry recorded at some call of a file is recorded for the whole file, under
      its file name, if none of the calls that follow is for the same place, or names
      another file with the same hash. */
  lemma EntryOfFile(lines: seq<string>, more: seq<string>, e: Entries, before: Entries, entry: Parsed)
    requires WithCalls(e, After(lines).calls) == WithEntry(before, entry)
    ensures var calls := After(lines + more).calls; var n := |After(lines).calls|;
      && ((forall k :: n <= k < |calls| ==> !SamePlace(entry, Parse(calls[k].kind, calls[k].text)))
          ==> Holds(WithCalls(e, calls), entry))
      && ((forall k :: n <= k < |calls| ==> !Collide(entry, Parse(calls[k].kind, calls[k].text)))
          ==> HoldsName(WithCalls(e, calls), entry))
  {
    hide After, WithCalls, WithEntry, Holds, HoldsName, SamePlace, Collide, Parse;
    CallsGrow(lines, more);
    var calls, n := After(lines + more).calls, |After(lines).calls|;
    assert calls[..n] == After(lines).calls;
    EntryHolds(before, entry);
    EntryStays(e, calls, n, entry);
  }
}
