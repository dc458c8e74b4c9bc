/** One log call as the log string extractor reads it: its strings, the file it names,
    and the entry it comes to. */
module LogCalls {
  import opened Options
  import opened Text
  import opened BracketScanner
  import opened MachineIntegers
  import opened ScannedText

  datatype LogType = NoLog | Log | LogArray

  const LOG_CALL := "cs_log_args("
  const ARRAY_CALL := "cs_log_array("
  const NAME_CALL := "fileNameHash("

  function CallName(kind: LogType): string {
    if kind == Log then LOG_CALL else ARRAY_CALL
  }

  // ---------- The patterns `.*?call\((.*)` ----------

  /** Index of the first occurrence, on the first line, from position i on. */
  function FindFrom(line: string, i: nat, text: string): (r: Option<nat>)
    ensures r.Some? ==> i <= r.value && At(line, r.value, text)
    ensures r.Some? ==> forall k :: i <= k < r.value ==> line[k] != '\n' && !At(line, k, text)
    decreases |line| - i
  {
    if i + |text| > |line| then None
    else if line[i..i + |text|] == text then Some(i)
    else if i == |line| || line[i] == '\n' then None
    else FindFrom(line, i + 1, text)
  }

  /** The text after the opening bracket of the call, up to the end of the line. */
  function CallTail(line: string, kind: LogType): Option<string> {
    var i :- FindFrom(line, 0, CallName(kind));
    Some(UpToNewline(line[i + |CallName(kind)|..]))
  }

  lemma {:induction false} FindIsFirst(line: string, i: nat, text: string, at: nat)
    requires i <= at && At(line, at, text)
    requires forall k :: i <= k < at ==> line[k] != '\n' && !At(line, k, text)
    ensures FindFrom(line, i, text) == Some(at)
    decreases at - i
  {
    if i < at {
      assert !At(line, i, text);
      FindIsFirst(line, i + 1, text, at);
    }
  }

  /** An occurrence on the first line is found. */
  lemma {:induction false} Finds(line: string, i: nat, text: string, at: nat)
    requires i <= at && At(line, at, text)
    requires forall k :: i <= k < at ==> line[k] != '\n'
    ensures FindFrom(line, i, text).Some?
    decreases at - i
  {
    if i < at && !At(line, i, text) {
      Finds(line, i + 1, text, at);
    }
  }

  /** A line holds a call exactly when its name occurs on the first line of it. */
  lemma CallTailIff(line: string, kind: LogType)
    ensures CallTail(line, kind).Some?
      <==> exists at: nat :: At(line, at, CallName(kind)) && forall k :: 0 <= k < at ==> line[k] != '\n'
  {
    hide FindFrom, CallName, UpToNewline;
    var name := CallName(kind);
    if CallTail(line, kind).Some? {
      assert At(line, FindFrom(line, 0, name).value, name);
    }
    if at: nat :| At(line, at, name) && forall k :: 0 <= k < at ==> line[k] != '\n' {
      Finds(line, 0, name, at);
    }
  }

  // ---------- Strings and file names ----------

  /** The contents of the string literals of a text, put together. */
  function RemoveQuotesFrom(escape: bool, inQuotes: bool, line: string): string
    decreases |line|
  {
    if line == "" then ""
    else
      var c, rest := line[0], line[1..];
      if escape then [c] + RemoveQuotesFrom(false, inQuotes, rest)
      else if c == '\\' then RemoveQuotesFrom(true, inQuotes, rest)
      else if c == '"' then RemoveQuotesFrom(false, !inQuotes, rest)
      else if inQuotes then [c] + RemoveQuotesFrom(false, inQuotes, rest)
      else RemoveQuotesFrom(false, inQuotes, rest)
  }

  function RemovedQuotes(line: string): string {
    RemoveQuotesFrom(false, false, line)
  }

  method RemoveQuotes(line: string) returns (result: string)
    ensures result == RemovedQuotes(line)
  {
    var escape, inQuotes := false, false;
    result := "";
    for i := 0 to |line|
      invariant RemovedQuotes(line) == result + RemoveQuotesFrom(escape, inQuotes, line[i..])
    {
      var c := line[i];
      assert line[i..][1..] == line[i + 1..];
      if escape {
        escape := false;
        result := result + [c];
        continue;
      }
      if c == '\\' {
        escape := true;
        continue;
      }
      if c == '"' {
        inQuotes := !inQuotes;
        continue;
      }
      if inQuotes {
        result := result + [c];
      }
    }
  }

  predicate Plain(text: string) {
    forall c :: c in text ==> c != '"' && c != '\\' && c != '\n'
  }

  function Literal(text: string): string {
    ['"'] + text + ['"']
  }

  lemma {:induction false} RemoveQuotesInside(text: string, after: string)
    requires Plain(text)
    ensures RemoveQuotesFrom(false, true, text + after) == text + RemoveQuotesFrom(false, true, after)
    decreases |text|
  {
    if text == "" {
      assert text + after == after;
    } else {
      assert text[0] in text && forall c :: c in text[1..] ==> c in text;
      assert (text + after)[1..] == text[1..] + after;
      RemoveQuotesInside(text[1..], after);
      assert [text[0]] + (text[1..] + RemoveQuotesFrom(false, true, after))
        == text + RemoveQuotesFrom(false, true, after);
    }
  }

  /** A literal yields its text. */
  lemma LiteralText(text: string, after: string)
    requires Plain(text)
    ensures RemovedQuotes(Literal(text) + after) == text + RemovedQuotes(after)
    ensures RemovedQuotes(Literal(text)) == text
  {
    assert (Literal(text) + after)[1..] == text + (['"'] + after);
    RemoveQuotesInside(text, ['"'] + after);
    assert (['"'] + after)[1..] == after;
    assert Literal(text)[1..] == text + ['"'];
    RemoveQuotesInside(text, ['"']);
    assert RemoveQuotesFrom(false, true, ['"']) == RemoveQuotesFrom(false, false, "");
    assert text + "" == text;
  }

  /** Text without literals and escapes. */
  predicate QuoteFree(text: string) {
    '"' !in text && '\\' !in text
  }

  /** Between literals nothing is kept. */
  lemma {:induction false} GapIsRemoved(gap: string, after: string)
    requires QuoteFree(gap)
    ensures RemovedQuotes(gap + after) == RemovedQuotes(after)
    decreases |gap|
  {
    if gap == "" {
      assert gap + after == after;
    } else {
      assert gap[0] in gap && forall c :: c in gap[1..] ==> c in gap;
      assert (gap + after)[1..] == gap[1..] + after;
      GapIsRemoved(gap[1..], after);
    }
  }

  /** A string as it is written in C: one literal, or several with text between them. */
  datatype Spelling = One(text: string) | More(text: string, gap: string, rest: Spelling)

  function Spelled(sp: Spelling): string {
    match sp
    case One(text) => Literal(text)
    case More(text, gap, rest) => Literal(text) + gap + Spelled(rest)
  }

  function Content(sp: Spelling): string {
    match sp
    case One(text) => text
    case More(text, gap, rest) => text + Content(rest)
  }

  predicate SpellingOk(sp: Spelling) {
    match sp
    case One(text) => Plain(text)
    case More(text, gap, rest) => Plain(text) && QuoteFree(gap) && SpellingOk(rest)
  }

  /** Literals with anything but literals and escapes between them yield their texts,
      put together. */
  lemma {:induction false} SpellingText(sp: Spelling)
    requires SpellingOk(sp)
    ensures RemovedQuotes(Spelled(sp)) == Content(sp)
    decreases sp
  {
    hide RemovedQuotes, Plain, QuoteFree;
    match sp
    case One(text) => LiteralText(text, "");
    case More(text, gap, rest) =>
      assert Spelled(sp) == Literal(text) + (gap + Spelled(rest));
      LiteralText(text, gap + Spelled(rest));
      GapIsRemoved(gap, Spelled(rest));
      SpellingText(rest);
  }

  /** Characters that fit a byte; others raise when the name is made a byte array. */
  predicate IsBytes(text: string) {
    forall i :: 0 <= i < |text| ==> text[i] as nat < 256
  }

  function HashStep(hash: nat, c: char): nat {
    (hash * 33 + c as nat) % 0x1_0000_0000
  }

  /** The hash of a file name, from its end back to the last slash. */
  function HashFrom(hash: nat, name: string): nat
    decreases |name|
  {
    if name == "" || name[|name| - 1] == '/' then hash
    else HashFrom(HashStep(hash, name[|name| - 1]), name[..|name| - 1])
  }

  function NameHash(name: string): nat {
    HashFrom(5381 * 33 % 0x1_0000_0000, name)
  }

  method GetFileNameHash(name: string) returns (hashVal: nat)
    ensures hashVal == NameHash(name)
  {
    hashVal := 5381 * 33 % 0x1_0000_0000;
    var n := |name|;
    assert name[..n] == name;
    while n > 0
      invariant n <= |name|
      invariant NameHash(name) == HashFrom(hashVal, name[..n])
    {
      var c := name[n - 1];
      if c == '/' {
        return;
      }
      assert name[..n][..n - 1] == name[..n - 1];
      hashVal := HashStep(hashVal, c);
      n := n - 1;
    }
  }

  lemma {:induction false} HashStopsAtSlash(hash: nat, directory: string, base: string)
    requires '/' !in base
    ensures HashFrom(hash, directory + "/" + base) == HashFrom(hash, base)
    decreases |base|
  {
    var name := directory + "/" + base;
    if base == "" {
      assert name[|name| - 1] == '/';
    } else {
      var c := base[|base| - 1];
      assert c in base && name[|name| - 1] == c;
      assert name[..|name| - 1] == directory + "/" + base[..|base| - 1];
      HashStopsAtSlash(HashStep(hash, c), directory, base[..|base| - 1]);
    }
  }

  /** Files are told apart by their base names alone. */
  lemma HashIgnoresDirectory(directory: string, base: string)
    requires '/' !in base
    ensures NameHash(directory + "/" + base) == NameHash(base)
  {
    HashStopsAtSlash(5381 * 33 % 0x1_0000_0000, directory, base);
  }

  function Pow33(n: nat): nat {
    if n == 0 then 1 else 33 * Pow33(n - 1)
  }

  /** The characters weighted by powers of 33, the first one by 1. */
  function Weighted(name: string): nat {
    if name == "" then 0
    else
      var last := |name| - 1;
      Weighted(name[..last]) + name[last] as nat * Pow33(last)
  }

  lemma ReducedProduct(x: nat, m: nat, p: nat, w: nat)
    requires 0 < m
    ensures (x % m * p + w) % m == (x * p + w) % m
  {
    var q, r := x / m, x % m;
    var k, left := (r * p + w) / m, (r * p + w) % m;
    assert x * p == (q * m + r) * p == q * m * p + r * p;
    assert q * m * p == q * p * m;
    assert (q * p) * m + k * m == (q * p + k) * m;
    QuotientIsUnique(x * p + w, m, q * p + k, left);
  }

  lemma HashRegroup(hash: nat, c: nat, p: nat, w: nat)
    ensures hash * (33 * p) + (w + c * p) == (hash * 33 + c) * p + w
  {
    assert hash * (33 * p) == hash * 33 * p;
  }

  lemma HashRegroupedStep(hash: nat, c: nat, p: nat, w: nat)
    ensures ((hash * 33 + c) % 0x1_0000_0000 * p + w) % 0x1_0000_0000 == (hash * (33 * p) + (w + c * p)) % 0x1_0000_0000
  {
    HashRegroup(hash, c, p, w);
    ReducedProduct(hash * 33 + c, 0x1_0000_0000, p, w);
  }

  lemma LastWeighted(name: string)
    requires name != ""
    ensures var last := |name| - 1; var p := Pow33(last);
      Pow33(|name|) == 33 * p && Weighted(name) == Weighted(name[..last]) + name[last] as nat * p
  {
  }

  lemma NothingWeighted(hash: nat)
    requires hash < 0x1_0000_0000
    ensures (hash * Pow33(0) + Weighted("")) % 0x1_0000_0000 == hash
  {
    assert hash * 1 == hash;
    QuotientIsUnique(hash, 0x1_0000_0000, 0, hash);
  }

  lemma HashOneMore(hash: nat, name: string)
    requires name != "" && '/' !in name
    ensures HashFrom(hash, name) == HashFrom(HashStep(hash, name[|name| - 1]), name[..|name| - 1])
    ensures '/' !in name[..|name| - 1]
    ensures HashStep(hash, name[|name| - 1]) == (hash * 33 + name[|name| - 1] as nat) % 0x1_0000_0000 < 0x1_0000_0000
  {
    var last := |name| - 1;
    assert name[last] in name && forall d :: d in name[..last] ==> d in name;
  }

  lemma {:induction false} HashFromClosed(hash: nat, name: string)
    requires '/' !in name && hash < 0x1_0000_0000
    ensures HashFrom(hash, name) == (hash * Pow33(|name|) + Weighted(name)) % 0x1_0000_0000
    decreases |name|
  {
    if name == "" {
      NothingWeighted(hash);
    } else {
      hide HashFrom, HashStep, Pow33, Weighted;
      var last := |name| - 1;
      HashOneMore(hash, name);
      LastWeighted(name);
      HashFromClosed(HashStep(hash, name[last]), name[..last]);
      HashRegroupedStep(hash, name[last] as nat, Pow33(last), Weighted(name[..last]));
    }
  }

  /** The hash of a base name is that of Bernstein, read from the end of the name. */
  lemma NameHashClosed(name: string)
    requires '/' !in name
    ensures NameHash(name) == (5381 * Pow33(|name| + 1) + Weighted(name)) % 0x1_0000_0000
  {
    hide HashFrom, Weighted;
    assert Pow33(|name| + 1) == 33 * Pow33(|name|);
    hide Pow33;
    HashRegroup(5381, 0, Pow33(|name|), Weighted(name));
    HashFromClosed(5381 * 33, name);
  }

  // ---------- One log call ----------

  datatype ArrayFormat = ArrayFormat(start: string, end: string, separator: string, element: Option<string>)

  /** What a log call comes to: an exception, nothing, or an entry under the hash of
      the file and the line. */
  datatype Parsed =
    | Raises
    | Skipped
    | LogEntry(fileName: string, lineNumber: nat, logString: string)
    | ArrayEntry(fileName: string, lineNumber: nat, format: ArrayFormat)

  /** The file name in the first argument, `fileNameHash("name", ...)`. */
  function NameOf(arg: string): Option<string> {
    var r :- Args(arg, |NAME_CALL|);
    var quoted := r.1[0];
    var name := if |quoted| < 2 then "" else quoted[1..|quoted| - 1];
    if IsBytes(name) then Some(name) else None
  }

  function LogEntryOf(args: seq<string>): Option<Parsed>
    requires args != []
  {
    var name :- NameOf(args[0]);
    if |args| < 5 then None
    else
      var lineNumber :- ParseInt(args[1]);
      Some(LogEntry(name, lineNumber, RemovedQuotes(args[4])))
  }

  function FormatOf(args: seq<string>): ArrayFormat
    requires |args| >= 10
  {
    ArrayFormat(RemovedQuotes(args[7]), RemovedQuotes(args[8]), RemovedQuotes(args[9]),
      if |args| > 10 then Some(RemovedQuotes(args[10])) else None)
  }

  function ArrayEntryOf(args: seq<string>): Option<Parsed>
    requires args != []
  {
    var name :- NameOf(args[0]);
    if |args| < 10 then None
    else
      var lineNumber :- ParseInt(args[1]);
      Some(ArrayEntry(name, lineNumber, FormatOf(args)))
  }

  /** A failure raises in a log line, and is caught in a log array line. */
  function Parse(kind: LogType, line: string): Parsed {
    match CallTail(line, kind)
    case None => Raises
    case Some(tail) =>
      match Args(tail, 0)
      case None => Skipped
      case Some((_, args)) =>
        if !At(args[0], 0, NAME_CALL) then Skipped
        else if kind == Log then (match LogEntryOf(args) case None => Raises case Some(e) => e)
        else (match ArrayEntryOf(args) case None => Skipped case Some(e) => e)
  }

  lemma {:induction false} JoinNewlineFree(texts: seq<string>)
    requires texts != [] && forall k :: 0 <= k < |texts| ==> NewlineFree(texts[k])
    ensures NewlineFree(Join(texts))
  {
    if |texts| > 1 {
      JoinNewlineFree(texts[1..]);
    }
  }

  /** Only space between the literals. */
  predicate Spaced(sp: Spelling) {
    sp.More? ==> AllSpace(sp.gap) && Spaced(sp.rest)
  }

  /** The argument is a string with this text, possibly between spaces. */
  ghost predicate IsString(arg: string, text: string) {
    exists sp :: SpellingOk(sp) && Spaced(sp) && Strip(arg) == Spelled(sp) && Content(sp) == text
  }

  lemma {:induction false} SpaceInPiece(space: string, rest: string)
    requires AllSpace(space)
    ensures PieceFrom(START, space + rest) <==> PieceFrom(START, rest)
    decreases |space|
  {
    hide IsSpace;
    if space == "" {
      assert space + rest == rest;
    } else {
      SpaceIsQuiet(space);
      CommaIsNoSpace();
      assert Step(START, space[0]) == START;
      assert (space + rest)[1..] == space[1..] + rest;
      SpaceInPiece(space[1..], rest);
    }
  }

  lemma CommaIsNoSpace()
    ensures !IsSpace(',')
  {
  }

  lemma {:induction false} PlainIsBody(text: string)
    requires Plain(text)
    ensures Body('"', text)
    decreases |text|
  {
    if text != "" {
      assert text[0] in text && forall c :: c in text[1..] ==> c in text;
      PlainIsBody(text[1..]);
    }
  }

  lemma {:induction false} SpelledInPiece(sp: Spelling, rest: string)
    requires SpellingOk(sp) && Spaced(sp)
    ensures PieceFrom(START, Spelled(sp) + rest) <==> PieceFrom(START, rest)
    decreases sp
  {
    hide PieceFrom, Plain, IsSpace, Body;
    PlainIsBody(sp.text);
    var t := Quoted('"', sp.text);
    assert TokenText(t) == Literal(sp.text);
    match sp
    case One(text) => TokenInPiece(0, t, rest);
    case More(text, gap, others) =>
      var tail := Spelled(others) + rest;
      assert Spelled(sp) + rest == Literal(text) + (gap + tail);
      TokenInPiece(0, t, gap + tail);
      SpaceInPiece(gap, tail);
      SpelledInPiece(others, rest);
  }

  /** A string is an argument, whatever brackets, commas and single quotes are in it. */
  lemma StringIsPiece(arg: string, text: string)
    requires IsString(arg, text)
    ensures Piece(arg)
  {
    hide PieceFrom, Strip, IsSpace, Spelled, SpellingOk, Spaced;
    var sp :| SpellingOk(sp) && Spaced(sp) && Strip(arg) == Spelled(sp) && Content(sp) == text;
    StripParts(arg);
    var a, b :| AllSpace(a) && AllSpace(b) && arg == a + Strip(arg) + b;
    assert arg == a + (Spelled(sp) + b) && b + "" == b;
    SpaceInPiece(a, Spelled(sp) + b);
    SpelledInPiece(sp, b);
    SpaceInPiece(b, "");
    NothingIsPiece();
  }

  lemma NothingIsPiece()
    ensures PieceFrom(START, "")
  {
  }

  /** Texts as they stand between the brackets of a call on one line: strings, and other
      arguments. */
  ghost predicate CallTexts(texts: seq<string>) {
    texts != [] &&
    forall k :: 0 <= k < |texts| ==> NewlineFree(texts[k]) && (HoldsString(texts[k]) || Piece(texts[k]))
  }

  ghost predicate HoldsString(arg: string) {
    exists text :: IsString(arg, text)
  }

  lemma TextsArePieces(texts: seq<string>)
    requires CallTexts(texts)
    ensures AllPieces(texts)
  {
    hide Piece, IsString, NewlineFree;
    forall k | 0 <= k < |texts| && HoldsString(texts[k]) ensures Piece(texts[k]) {
      var text :| IsString(texts[k], text);
      StringIsPiece(texts[k], text);
    }
  }

  /** The first text is `fileNameHash("name", ...)`, the second the line number. */
  ghost predicate Named(texts: seq<string>, nameArgs: seq<string>, name: string, lineNumber: nat)
    requires |texts| >= 2
  {
    && nameArgs != [] && CallTexts(nameArgs) && BackslashFree(nameArgs[0])
    && Strip(nameArgs[0]) == Literal(name) && Plain(name) && IsBytes(name)
    && Strip(texts[0]) == NAME_CALL + Join(nameArgs) + ")"
    && Strip(texts[1]) == Decimal(lineNumber)
  }

  ghost predicate FormatTexts(texts: seq<string>, f: ArrayFormat)
    requires |texts| >= 10
  {
    && IsString(texts[7], f.start) && IsString(texts[8], f.end) && IsString(texts[9], f.separator)
    && match f.element
       case None => |texts| == 10
       case Some(element) => |texts| > 10 && IsString(texts[10], element)
  }

  /** What a log call of a kind consists of: the texts of its arguments, which name the
      file and the line, and hold the format strings of the entry. */
  ghost predicate Prints(kind: LogType, texts: seq<string>, nameArgs: seq<string>, entry: Parsed) {
    CallTexts(texts) && (forall k :: 0 <= k < |texts| ==> BackslashFree(texts[k])) &&
    match entry
    case LogEntry(name, n, logString) =>
      kind == Log && |texts| >= 5 && Named(texts, nameArgs, name, n) && IsString(texts[4], logString)
    case ArrayEntry(name, n, format) =>
      kind == LogArray && |texts| >= 10 && Named(texts, nameArgs, name, n) && FormatTexts(texts, format)
    case _ => false
  }

  /** An argument as it is read: without escaping backslashes and stripped. */
  function Read(text: string): string {
    Strip(Unescape(false, text))
  }

  function ReadAll(texts: seq<string>): seq<string> {
    StripAll(Unescaped(texts))
  }

  lemma PlainRead(texts: seq<string>)
    requires forall k :: 0 <= k < |texts| ==> BackslashFree(texts[k])
    ensures ReadAll(texts) == StripAll(texts)
  {
    hide StripAll, Unescaped, BackslashFree;
    UnescapedKeeps(texts);
  }

  function Unquoted(quoted: string): string {
    if |quoted| < 2 then "" else quoted[1..|quoted| - 1]
  }

  /** The argument begins with `fileNameHash(`, these arguments and a closing bracket, and
      the first of them holds the name between its first and last character. */
  predicate NameIn(arg: string, nameArgs: seq<string>, name: string) {
    && nameArgs != [] && AllPieces(nameArgs)
    && |NAME_CALL| <= |arg| && At(arg, |NAME_CALL|, Join(nameArgs) + ")")
    && name == Unquoted(Read(nameArgs[0]))
  }

  /** Such a name is read exactly when its characters are bytes. */
  lemma NameOfIff(arg: string, name: string)
    requires |NAME_CALL| <= |arg|
    ensures NameOf(arg) == Some(name) <==> IsBytes(name) && exists nameArgs :: NameIn(arg, nameArgs, name)
  {
    hide Args, Join, AllPieces, Unescape, Strip, IsBytes;
    var n := |NAME_CALL|;
    forall nameArgs | NameIn(arg, nameArgs, name)
      ensures Args(arg, n).Some? && Unquoted(Args(arg, n).value.1[0]) == name
    {
      var end := n + |Join(nameArgs)|;
      AtParts(arg, n, Join(nameArgs), ")");
      assert arg[end] == arg[end..end + 1][0] == ')';
      assert Printed(arg, n, end, ReadAll(nameArgs), nameArgs);
      ArgsInvertsJoin(arg, n, end, ReadAll(nameArgs));
    }
    if NameOf(arg) == Some(name) {
      var (end, args) := Args(arg, n).value;
      ArgsInvertsJoin(arg, n, end, args);
      var nameArgs :| Printed(arg, n, end, args, nameArgs);
      assert arg[n..end + 1] == arg[n..end] + [arg[end]] == Join(nameArgs) + ")";
      assert NameIn(arg, nameArgs, name);
    }
  }

  /** The name comes back from its quotes inside `fileNameHash(...)`. */
  lemma NameIsRead(nameArgs: seq<string>, name: string)
    requires nameArgs != [] && AllPieces(nameArgs) && BackslashFree(nameArgs[0])
    requires Strip(nameArgs[0]) == Literal(name) && IsBytes(name)
    ensures NameOf(NAME_CALL + Join(nameArgs) + ")") == Some(name)
  {
    hide NameOf, Join, AllPieces, Unescape, Strip, BackslashFree, IsBytes;
    var arg := NAME_CALL + Join(nameArgs) + ")";
    assert arg[|NAME_CALL|..] == Join(nameArgs) + ")";
    UnescapeKeeps(nameArgs[0]);
    assert Unquoted(Literal(name)) == name;
    assert NameIn(arg, nameArgs, name);
    NameOfIff(arg, name);
  }

  /** The arguments of a call are its texts, as they are read. */
  lemma CallIsSplit(kind: LogType, line: string, before: string, texts: seq<string>, after: string)
    requires CallTexts(texts)
    requires line == before + CallName(kind) + Join(texts) + ")" + after
    requires FindFrom(line, 0, CallName(kind)) == Some(|before|)
    ensures CallTail(line, kind).Some?
    ensures Args(CallTail(line, kind).value, 0) == Some((|Join(texts)|, ReadAll(texts)))
  {
    hide Args, Join, FindFrom, UpToNewline, CallName, StripAll, Unescaped, HoldsString, Piece;
    var printed := Join(texts) + ")";
    assert line[|before| + |CallName(kind)|..] == printed + after;
    TextsArePieces(texts);
    JoinNewlineFree(texts);
    UpToNewlineAfter(printed, after);
    var tail := printed + UpToNewline(after);
    assert CallTail(line, kind) == Some(tail);
    assert tail[0..|Join(texts)|] == Join(texts);
    assert Printed(tail, 0, |Join(texts)|, ReadAll(texts), texts);
    ArgsInvertsJoin(tail, 0, |Join(texts)|, ReadAll(texts));
  }

  // ---------- What a call comes to ----------

  predicate NamesFile(texts: seq<string>)
    requires texts != []
  {
    At(Read(texts[0]), 0, NAME_CALL)
  }

  /** The texts are too few, the second is no number, or the first names no file. */
  ghost predicate Faulty(kind: LogType, texts: seq<string>) {
    || |texts| < (if kind == Log then 5 else 10)
    || !IsNumber(Read(texts[1]))
    || !exists nameArgs, name :: NameIn(Read(texts[0]), nameArgs, name) && IsBytes(name)
  }

  lemma EntriesIff(texts: seq<string>)
    requires texts != [] && NamesFile(texts)
    ensures LogEntryOf(ReadAll(texts)).None? <==> Faulty(Log, texts)
    ensures ArrayEntryOf(ReadAll(texts)).None? <==> Faulty(LogArray, texts)
  {
    hide NameOf, ParseInt, Strip, Unescape, RemovedQuotes, IsNumber, NameIn, IsBytes;
    var arg := Read(texts[0]);
    assert ReadAll(texts)[0] == arg;
    forall name ensures NameOf(arg) == Some(name) <==> IsBytes(name) && exists nameArgs :: NameIn(arg, nameArgs, name) {
      NameOfIff(arg, name);
    }
    if |texts| > 1 {
      assert ReadAll(texts)[1] == Read(texts[1]);
      ParseIntIff(Read(texts[1]));
    }
  }

  /** When a call is passed over, and when it raises: a faulty log call does, a faulty
      array call is passed over, and so is every call that does not begin with the
      name of a file, as the declarations of the two functions. */
  lemma CallOutcome(kind: LogType, line: string, before: string, texts: seq<string>, after: string)
    requires kind != NoLog && CallTexts(texts)
    requires line == before + CallName(kind) + Join(texts) + ")" + after
    requires FindFrom(line, 0, CallName(kind)) == Some(|before|)
    ensures Parse(kind, line) == Raises <==> kind == Log && NamesFile(texts) && Faulty(Log, texts)
    ensures Parse(kind, line) == Skipped <==> !NamesFile(texts) || (kind == LogArray && Faulty(LogArray, texts))
  {
    hide Args, Join, FindFrom, CallName, CallTail, LogEntryOf, ArrayEntryOf, Strip, Unescape, CallTexts, Faulty, At;
    CallIsSplit(kind, line, before, texts, after);
    assert ReadAll(texts)[0] == Read(texts[0]);
    EntriesAreEntries(ReadAll(texts));
    if NamesFile(texts) {
      EntriesIff(texts);
    }
  }

  lemma EntriesAreEntries(args: seq<string>)
    requires args != []
    ensures LogEntryOf(args).Some? ==> LogEntryOf(args).value.LogEntry?
    ensures ArrayEntryOf(args).Some? ==> ArrayEntryOf(args).value.ArrayEntry?
  {
  }

  // ---------- The entry of a call ----------

  lemma StringIsRead(arg: string, text: string)
    requires IsString(arg, text)
    ensures RemovedQuotes(Strip(arg)) == text
  {
    hide Strip, Spelled, Content, Spaced, RemovedQuotes;
    var sp :| SpellingOk(sp) && Spaced(sp) && Strip(arg) == Spelled(sp) && Content(sp) == text;
    SpellingText(sp);
  }

  lemma EntryIsRead(texts: seq<string>, nameArgs: seq<string>, entry: Parsed)
    ensures Prints(Log, texts, nameArgs, entry) ==> LogEntryOf(StripAll(texts)) == Some(entry)
    ensures Prints(LogArray, texts, nameArgs, entry) ==> ArrayEntryOf(StripAll(texts)) == Some(entry)
  {
    hide NameOf, ParseInt, Decimal, RemovedQuotes, Plain, Strip, AllPieces, BackslashFree, IsBytes, Join, IsString,
      CallTexts;
    forall name | nameArgs != [] && CallTexts(nameArgs) && BackslashFree(nameArgs[0])
        && Strip(nameArgs[0]) == Literal(name) && IsBytes(name)
      ensures NameOf(NAME_CALL + Join(nameArgs) + ")") == Some(name)
    {
      TextsArePieces(nameArgs);
      NameIsRead(nameArgs, name);
    }
    if entry.LogEntry? || entry.ArrayEntry? {
      ParseDecimal(entry.lineNumber);
    }
    forall k, text | 0 <= k < |texts| && IsString(texts[k], text) ensures RemovedQuotes(Strip(texts[k])) == text {
      StringIsRead(texts[k], text);
    }
  }

  /** A log call of either kind as the preprocessor leaves it, anywhere in a line, is
      recorded under its file and line number with its format strings. */
  lemma CallIsRecorded(kind: LogType, line: string, before: string, texts: seq<string>, after: string,
                       nameArgs: seq<string>, entry: Parsed)
    requires Prints(kind, texts, nameArgs, entry)
    requires line == before + CallName(kind) + Join(texts) + ")" + after
    requires FindFrom(line, 0, CallName(kind)) == Some(|before|)
    ensures Parse(kind, line) == entry
  {
    hide Args, Join, FindFrom, CallName, CallTail, LogEntryOf, ArrayEntryOf, Strip, CallTexts, FormatTexts, IsString,
      Unescaped, BackslashFree;
    CallIsSplit(kind, line, before, texts, after);
    PlainRead(texts);
    EntryIsRead(texts, nameArgs, entry);
    assert At(NAME_CALL + Join(nameArgs) + ")", 0, NAME_CALL);
  }
}
