/** The character scanners of extract-log-strings.py: brackets are counted, and the
    arguments of a call are cut out, outside of strings and escapes. */
module BracketScanner {
  import opened Options

  /** What the scanners remember: an escape just read, the quote of an open string and
      the brackets open. */
  datatype Scan = Scan(escape: bool, quote: Option<char>, depth: int)

  const START := Scan(false, None, 0)

  predicate IsQuote(c: char) {
    c == '"' || c == '\''
  }

  function Step(s: Scan, c: char): Scan {
    if s.escape then s.(escape := false)
    else if c == '\\' then s.(escape := true)
    else if s.quote.Some? then if c == s.quote.value then s.(quote := None) else s
    else if IsQuote(c) then s.(quote := Some(c))
    else if c == '(' then s.(depth := s.depth + 1)
    else if c == ')' then s.(depth := s.depth - 1)
    else s
  }

  function Run(s: Scan, text: string): Scan
    decreases |text|
  {
    if text == "" then s else Run(Step(s, text[0]), text[1..])
  }

  /** The brackets opened less those closed. */
  function Brackets(text: string): int {
    Run(START, text).depth
  }

  /** Outside of any string and escape. */
  predicate Neutral(s: Scan) {
    !s.escape && s.quote.None?
  }

  /** The text ends outside of any string and escape. */
  predicate Closed(text: string) {
    Neutral(Run(START, text))
  }

  lemma {:induction false} RunConcat(s: Scan, a: string, b: string)
    ensures Run(s, a + b) == Run(Run(s, a), b)
    decreases |a|
  {
    if a == "" {
      assert a + b == b;
    } else {
      assert (a + b)[1..] == a[1..] + b;
      RunConcat(Step(s, a[0]), a[1..], b);
    }
  }

  lemma RunOneMore(s: Scan, text: string, i: nat)
    requires i < |text|
    ensures Run(s, text[..i + 1]) == Step(Run(s, text[..i]), text[i])
  {
    assert text[..i + 1] == text[..i] + [text[i]];
    RunConcat(s, text[..i], [text[i]]);
    assert Run(Run(s, text[..i]), [text[i]]) == Run(Step(Run(s, text[..i]), text[i]), "");
  }

  /** The brackets already open do not influence the scan. */
  lemma {:induction false} RunShift(s: Scan, k: int, text: string)
    ensures Run(s.(depth := s.depth + k), text) == Run(s, text).(depth := Run(s, text).depth + k)
    decreases |text|
  {
    if text != "" {
      RunShift(Step(s, text[0]), k, text[1..]);
    }
  }

  method CountBrackets(line: string) returns (bracketOpenCount: int)
    ensures bracketOpenCount == Brackets(line)
  {
    var escape := false;
    var string': Option<char> := None;
    bracketOpenCount := 0;
    for i := 0 to |line|
      invariant Scan(escape, string', bracketOpenCount) == Run(START, line[..i])
    {
      RunOneMore(START, line, i);
      var c := line[i];
      if escape {
        escape := false;
        continue;
      }
      if c == '\\' {
        escape := true;
        continue;
      }
      if string' != None {
        if Some(c) == string' {
          string' := None;
        }
        continue;
      }
      if c == '"' || c == '\'' {
        string' := Some(c);
        continue;
      }
      if c == '(' {
        bracketOpenCount := bracketOpenCount + 1;
      }
      if c == ')' {
        bracketOpenCount := bracketOpenCount - 1;
      }
    }
    assert line[..|line|] == line;
  }

  // ---------- Stripping ----------

  /** The characters that Python's `strip` removes. */
  predicate IsSpace(c: char) {
    '\t' <= c <= '\r' || '\U{1c}' <= c <= ' ' || c in "\U{85}\U{a0}\U{1680}\U{2028}\U{2029}\U{202f}\U{205f}\U{3000}"
    || '\U{2000}' <= c <= '\U{200a}'
  }

  function StripLeft(s: string): string {
    if s != "" && IsSpace(s[0]) then StripLeft(s[1..]) else s
  }

  function StripRight(s: string): string {
    if s != "" && IsSpace(s[|s| - 1]) then StripRight(s[..|s| - 1]) else s
  }

  function Strip(s: string): string {
    StripRight(StripLeft(s))
  }

  predicate Trimmed(s: string) {
    s == "" || (!IsSpace(s[0]) && !IsSpace(s[|s| - 1]))
  }

  predicate AllSpace(s: string) {
    forall i :: 0 <= i < |s| ==> IsSpace(s[i])
  }

  /** Of the ASCII characters, these are space. */
  lemma AsciiSpace(c: char)
    requires c as nat < 128
    ensures IsSpace(c) <==> c == ' ' || c as nat in {9, 10, 11, 12, 13, 28, 29, 30, 31}
  {
  }

  /** What is stripped is space, and nothing else is. */
  lemma {:induction false} StripParts(s: string)
    ensures exists a, b :: AllSpace(a) && AllSpace(b) && s == a + Strip(s) + b
    ensures Trimmed(Strip(s))
    ensures Trimmed(s) ==> Strip(s) == s
  {
    var a := StripLeftParts(s);
    var b := StripRightParts(StripLeft(s));
    assert s == a + Strip(s) + b;
  }

  lemma {:induction false} StripLeftParts(s: string) returns (a: string)
    ensures AllSpace(a) && s == a + StripLeft(s)
    ensures StripLeft(s) == "" || !IsSpace(StripLeft(s)[0])
  {
    hide IsSpace;
    if s != "" && IsSpace(s[0]) {
      var rest := StripLeftParts(s[1..]);
      a := [s[0]] + rest;
    } else {
      a := "";
    }
  }

  lemma {:induction false} StripRightParts(s: string) returns (b: string)
    ensures AllSpace(b) && s == StripRight(s) + b
    ensures StripRight(s) == "" || !IsSpace(StripRight(s)[|StripRight(s)| - 1])
    decreases |s|
  {
    hide IsSpace;
    if s != "" && IsSpace(s[|s| - 1]) {
      var rest := StripRightParts(s[..|s| - 1]);
      b := rest + [s[|s| - 1]];
    } else {
      b := "";
    }
  }

  /** Space after trimmed text is stripped, and no more. */
  lemma StripsEnd(text: string, space: string)
    requires text != "" && Trimmed(text) && AllSpace(space)
    ensures Strip(text + space) == text
  {
    hide IsSpace;
    assert (text + space)[0] == text[0];
    StripsRightEnd(text, space);
  }

  lemma {:induction false} StripsRightEnd(text: string, space: string)
    requires text != "" && !IsSpace(text[|text| - 1]) && AllSpace(space)
    ensures StripRight(text + space) == text
    decreases |space|
  {
    hide IsSpace;
    if space == "" {
      assert text + space == text;
    } else {
      var last := |space| - 1;
      assert (text + space)[..|text| + last] == text + space[..last];
      StripsRightEnd(text, space[..last]);
    }
  }

  // ---------- Arguments ----------

  /** The text of an argument as it is collected: backslashes that escape are dropped. */
  function Unescape(escape: bool, text: string): string
    decreases |text|
  {
    if text == "" then ""
    else if !escape && text[0] == '\\' then Unescape(true, text[1..])
    else [text[0]] + Unescape(false, text[1..])
  }

  function StripAll(args: seq<string>): seq<string> {
    seq(|args|, i requires 0 <= i < |args| => Strip(args[i]))
  }

  /** What `_getArgs` returns from position i on, having collected the arguments before
      the current one and the beginning of the current one. */
  function ArgsFrom(line: string, i: nat, s: Scan, before: seq<string>, current: string)
    : (r: Option<(nat, seq<string>)>)
    requires i <= |line|
    ensures r.Some? ==> i <= r.value.0 < |line| && |r.value.1| > |before|
    decreases |line| - i
  {
    if i == |line| then None
    else
      var c := line[i];
      var t := Step(s, c);
      if s.escape then ArgsFrom(line, i + 1, t, before, current + [c])
      else if c == '\\' then ArgsFrom(line, i + 1, t, before, current)
      else if s.quote.Some? || IsQuote(c) then ArgsFrom(line, i + 1, t, before, current + [c])
      else if t.depth == 1 && c == ',' then ArgsFrom(line, i + 1, t, before + [current], "")
      else if t.depth == 0 then Some((i, StripAll(before + [current])))
      else ArgsFrom(line, i + 1, t, before, current + [c])
  }

  /** The index of the bracket that closes a call whose opening bracket is just before
      the start, and the arguments of the call. */
  function Args(line: string, startIndex: nat): (r: Option<(nat, seq<string>)>)
    ensures r.Some? ==> startIndex <= r.value.0 < |line| && r.value.1 != []
  {
    if startIndex <= |line| then ArgsFrom(line, startIndex, Scan(false, None, 1), [], "") else None
  }

  method GetArgs(line: string, startIndex: nat) returns (r: Option<(nat, seq<string>)>)
    ensures r == Args(line, startIndex)
  {
    if startIndex > |line| {
      return None;
    }
    var escape := false;
    var string': Option<char> := None;
    var bracketOpenCount := 1;
    var args := [""];
    for i := startIndex to |line|
      invariant args != []
      invariant Args(line, startIndex)
        == ArgsFrom(line, i, Scan(escape, string', bracketOpenCount), args[..|args| - 1], args[|args| - 1])
    {
      var c := line[i];
      var last := |args| - 1;
      ghost var before, current := args[..last], args[last];
      if escape {
        escape := false;
        args := args[last := args[last] + [c]];
        assert args[..last] == before;
        continue;
      }
      if c == '\\' {
        escape := true;
        continue;
      }
      args := args[last := args[last] + [c]];
      assert args[..last] == before;
      if string' != None {
        if Some(c) == string' {
          string' := None;
        }
        continue;
      }
      if c == '"' || c == '\'' {
        string' := Some(c);
        continue;
      }
      if c == '(' {
        bracketOpenCount := bracketOpenCount + 1;
      }
      if c == ')' {
        bracketOpenCount := bracketOpenCount - 1;
      }
      if bracketOpenCount == 1 && c == ',' {
        args := args[last := args[last][..|args[last]| - 1]];
        assert args == before + [current];
        args := args + [""];
        assert args[..|args| - 1] == before + [current];
      }
      if bracketOpenCount == 0 {
        args := args[last := args[last][..|args[last]| - 1]];
        assert args == before + [current];
        args := StripEach(args);
        return Some((i, args));
      }
    }
    return None;
  }

  method StripEach(args: seq<string>) returns (stripped: seq<string>)
    ensures stripped == StripAll(args)
  {
    stripped := args;
    for j := 0 to |args|
      invariant |stripped| == |args|
      invariant forall k :: 0 <= k < j ==> stripped[k] == Strip(args[k])
      invariant forall k :: j <= k < |args| ==> stripped[k] == args[k]
    {
      stripped := stripped[j := Strip(stripped[j])];
    }
  }

  // ---------- Argument lists ----------

  /** The rest of an argument: it closes what it opens, never closes more, and has no
      comma of its own at the level of the call. */
  predicate PieceFrom(s: Scan, text: string)
    decreases |text|
  {
    if text == "" then s == START
    else
      var c := text[0];
      var t := Step(s, c);
      && t.depth >= 0
      && !(Neutral(s) && s.depth == 0 && c == ',')
      && PieceFrom(t, text[1..])
  }

  predicate Piece(text: string) {
    PieceFrom(START, text)
  }

  predicate AllPieces(texts: seq<string>) {
    forall k :: 0 <= k < |texts| ==> Piece(texts[k])
  }

  /** Arguments as they are printed between the brackets of a call. */
  function Join(texts: seq<string>): string
    requires texts != []
  {
    if |texts| == 1 then texts[0] else texts[0] + "," + Join(texts[1..])
  }

  function Unescaped(texts: seq<string>): seq<string> {
    seq(|texts|, i requires 0 <= i < |texts| => Unescape(false, texts[i]))
  }

  /** Inside a call every bracket is one deeper. */
  function Inside(s: Scan): Scan {
    s.(depth := s.depth + 1)
  }

  /** The text stands at position i of the line. */
  predicate At(line: string, i: nat, text: string) {
    i + |text| <= |line| && line[i..i + |text|] == text
  }

  lemma AtParts(line: string, i: nat, a: string, b: string)
    requires At(line, i, a + b)
    ensures At(line, i, a) && At(line, i + |a|, b)
  {
    assert line[i..i + |a|] == (a + b)[..|a|];
    assert line[i + |a|..i + |a| + |b|] == (a + b)[|a|..];
  }

  /** The argument collected so far after one more character. */
  function Collected(s: Scan, current: string, c: char): string {
    if !s.escape && c == '\\' then current else current + [c]
  }

  /** One step of the scanner inside a call, seen from inside an argument. */
  lemma {:induction false} ArgsStep(line: string, i: nat, s: Scan, before: seq<string>, current: string)
    requires i < |line| && s.depth >= 0
    ensures var c := line[i]; var r := ArgsFrom(line, i, Inside(s), before, current);
      if Neutral(s) && s.depth == 0 && c == ',' then
        r == ArgsFrom(line, i + 1, Inside(s), before + [current], "")
      else if Neutral(s) && s.depth == 0 && c == ')' then
        r == Some((i, StripAll(before + [current])))
      else
        Step(s, c).depth >= 0 && r == ArgsFrom(line, i + 1, Inside(Step(s, c)), before, Collected(s, current, c))
  {
    assert Step(Inside(s), line[i]) == Inside(Step(s, line[i]));
  }

  lemma UnescapeStep(s: Scan, current: string, c: char, tail: string)
    ensures Collected(s, current, c) + Unescape(Step(s, c).escape, tail) == current + Unescape(s.escape, [c] + tail)
  {
    assert ([c] + tail)[1..] == tail;
  }

  /** The scanner collects an argument to its end. */
  lemma {:induction false} CollectPiece(line: string, i: nat, text: string, s: Scan,
                                        before: seq<string>, current: string)
    requires At(line, i, text)
    requires s.depth >= 0 && PieceFrom(s, text)
    ensures ArgsFrom(line, i, Inside(s), before, current)
      == ArgsFrom(line, i + |text|, Inside(START), before, current + Unescape(s.escape, text))
    decreases |text|
  {
    hide ArgsFrom, Step;
    if text == "" {
      assert current + "" == current;
    } else {
      var c, tail := text[0], text[1..];
      assert text == [c] + tail;
      AtParts(line, i, [c], tail);
      assert line[i] == line[i..i + 1][0] == c;
      ArgsStep(line, i, s, before, current);
      StepDown(s);
      CollectPiece(line, i + 1, tail, Step(s, c), before, Collected(s, current, c));
      UnescapeStep(s, current, c, tail);
    }
  }

  lemma StepDown(s: Scan)
    ensures Neutral(s) ==> Step(s, ')').depth == s.depth - 1
  {
  }

  /** What follows the first argument: the closing bracket, or a comma and the others. */
  function AfterFirst(rest: seq<string>): string {
    if rest == [] then ")" else "," + (Join(rest) + ")")
  }

  lemma {:induction false} JoinSplit(texts: seq<string>)
    requires texts != []
    ensures Join(texts) + ")" == texts[0] + AfterFirst(texts[1..])
    ensures |Join(texts)| == |texts[0]| + (if texts[1..] == [] then 0 else 1 + |Join(texts[1..])|)
  {
  }

  lemma UnescapedSplit(before: seq<string>, texts: seq<string>)
    requires texts != []
    ensures before + Unescaped(texts) == before + [Unescape(false, texts[0])] + Unescaped(texts[1..])
    ensures texts[1..] == [] ==> before + Unescaped(texts) == before + [Unescape(false, texts[0])]
  {
  }

  lemma AtFirst(line: string, i: nat, c: char, text: string)
    requires At(line, i, [c] + text)
    ensures line[i] == c && At(line, i + 1, text)
  {
    AtParts(line, i, [c], text);
    assert line[i] == line[i..i + 1][0];
  }

  /** From the beginning of a list of printed arguments the scanner collects them all. */
  lemma {:induction false} CollectPieces(line: string, i: nat, texts: seq<string>, before: seq<string>)
    requires texts != [] && AllPieces(texts)
    requires At(line, i, Join(texts) + ")")
    ensures ArgsFrom(line, i, Inside(START), before, "")
      == Some((i + |Join(texts)|, StripAll(before + Unescaped(texts))))
    decreases |texts|
  {
    hide ArgsFrom, Step, Unescape, Unescaped, StripAll, Join, At;
    var first, rest := texts[0], texts[1..];
    var unescaped := Unescape(false, first);
    JoinSplit(texts);
    UnescapedSplit(before, texts);
    AtParts(line, i, first, AfterFirst(rest));
    CollectPiece(line, i, first, START, before, "");
    assert "" + unescaped == unescaped;
    var j := i + |first|;
    if rest == [] {
      AtFirst(line, j, ')', "");
      assert [')'] + "" == ")";
      ArgsStep(line, j, START, before, unescaped);
    } else {
      AtFirst(line, j, ',', Join(rest) + ")");
      ArgsStep(line, j, START, before, unescaped);
      CollectPieces(line, j + 1, rest, before + [unescaped]);
    }
  }

  /** What the scanner returns, split into the rest of the current argument and the
      arguments after it. */
  predicate SplitInto(line: string, i: nat, s: Scan, before: seq<string>, current: string,
                      end: nat, args: seq<string>, first: string, rest: seq<string>)
  {
    && PieceFrom(s, first) && AllPieces(rest)
    && i <= end < |line| && line[end] == ')' && line[i..end] == Join([first] + rest)
    && args == StripAll(before + [current + Unescape(s.escape, first)] + Unescaped(rest))
  }

  /** Conversely, what the scanner returns was printed that way. */
  lemma {:induction false} SplitArgs(line: string, i: nat, s: Scan, before: seq<string>, current: string)
    returns (first: string, rest: seq<string>)
    requires i <= |line| && s.depth >= 0
    requires ArgsFrom(line, i, Inside(s), before, current).Some?
    ensures var (end, args) := ArgsFrom(line, i, Inside(s), before, current).value;
      SplitInto(line, i, s, before, current, end, args, first, rest)
    decreases |line| - i
  {
    hide SplitInto, Step, Unescape, StripAll;
    var c := line[i];
    ArgsStep(line, i, s, before, current);
    var (end, args) := ArgsFrom(line, i, Inside(s), before, current).value;
    hide ArgsFrom;
    if Neutral(s) && s.depth == 0 && c == ',' {
      var next, others := SplitArgs(line, i + 1, s, before + [current], "");
      first, rest := "", [next] + others;
      SplitAtComma(line, i, before, current, end, args, next, others);
    } else if Neutral(s) && s.depth == 0 && c == ')' {
      first, rest := "", [];
      SplitAtEnd(line, i, before, current, args);
    } else {
      var tail;
      tail, rest := SplitArgs(line, i + 1, Step(s, c), before, Collected(s, current, c));
      first := [c] + tail;
      SplitAtChar(line, i, s, before, current, end, args, tail, rest);
    }
  }

  lemma SplitAtComma(line: string, i: nat, before: seq<string>, current: string,
                     end: nat, args: seq<string>, next: string, others: seq<string>)
    requires i < |line| && line[i] == ','
    requires SplitInto(line, i + 1, START, before + [current], "", end, args, next, others)
    ensures SplitInto(line, i, START, before, current, end, args, "", [next] + others)
  {
    var rest := [next] + others;
    assert ([""] + rest)[1..] == rest;
    assert line[i..end] == "" + "," + line[i + 1..end];
    assert current + Unescape(false, "") == current;
    assert "" + Unescape(false, next) == Unescape(false, next);
    assert before + [current] + ["" + Unescape(false, next)] + Unescaped(others)
      == before + [current] + Unescaped(rest);
  }

  lemma SplitAtEnd(line: string, i: nat, before: seq<string>, current: string, args: seq<string>)
    requires i < |line| && line[i] == ')' && args == StripAll(before + [current])
    ensures SplitInto(line, i, START, before, current, i, args, "", [])
  {
    assert current + Unescape(false, "") == current;
    assert before + [current] + Unescaped([]) == before + [current];
    assert [""] + [] == [""];
    assert line[i..i] == "";
  }

  lemma SplitAtChar(line: string, i: nat, s: Scan, before: seq<string>, current: string,
                    end: nat, args: seq<string>, tail: string, rest: seq<string>)
    requires i < |line| && Step(s, line[i]).depth >= 0
    requires !(Neutral(s) && s.depth == 0 && line[i] == ',')
    requires SplitInto(line, i + 1, Step(s, line[i]), before, Collected(s, current, line[i]), end, args, tail, rest)
    ensures SplitInto(line, i, s, before, current, end, args, [line[i]] + tail, rest)
  {
    hide Step, Unescape, StripAll;
    var c := line[i];
    assert ([c] + tail)[1..] == tail;
    JoinHead(c, tail, rest);
    assert line[i..end] == [c] + line[i + 1..end];
    UnescapeStep(s, current, c, tail);
  }

  lemma JoinHead(c: char, tail: string, rest: seq<string>)
    ensures Join([[c] + tail] + rest) == [c] + Join([tail] + rest)
  {
    if rest == [] {
    } else {
      assert ([[c] + tail] + rest)[1..] == rest && ([tail] + rest)[1..] == rest;
      assert [c] + tail + "," + Join(rest) == [c] + (tail + "," + Join(rest));
    }
  }

  /** `_getArgs` inverts the printing of an argument list: it returns an index and a
      list exactly when the text up to the index is such a list, closed there. */
  lemma ArgsInvertsJoin(line: string, startIndex: nat, end: nat, args: seq<string>)
    requires startIndex <= |line|
    ensures Args(line, startIndex) == Some((end, args))
      <==> exists texts :: Printed(line, startIndex, end, args, texts)
  {
    if Args(line, startIndex) == Some((end, args)) {
      var first, rest := SplitArgs(line, startIndex, START, [], "");
      var texts := [first] + rest;
      assert "" + Unescape(false, first) == Unescape(false, first);
      assert [] + [Unescape(false, first)] + Unescaped(rest) == Unescaped(texts);
      assert Printed(line, startIndex, end, args, texts);
    }
    if texts :| Printed(line, startIndex, end, args, texts) {
      assert line[startIndex..end + 1] == Join(texts) + ")";
      CollectPieces(line, startIndex, texts, []);
      assert [] + Unescaped(texts) == Unescaped(texts);
    }
  }

  /** The arguments were printed, as these texts, between the start and the end. */
  predicate Printed(line: string, startIndex: nat, end: nat, args: seq<string>, texts: seq<string>) {
    && texts != [] && AllPieces(texts)
    && startIndex <= end < |line| && line[end] == ')'
    && line[startIndex..end] == Join(texts)
    && args == StripAll(Unescaped(texts))
  }

  lemma {:induction false} PiecePrefix(s: Scan, text: string, k: nat)
    requires PieceFrom(s, text) && s.depth >= 0 && k <= |text|
    ensures Run(s, text[..k]).depth >= 0
    ensures Run(s, text) == START
    decreases |text|
  {
    hide Step;
    if text != "" {
      PiecePrefix(Step(s, text[0]), text[1..], if k > 0 then k - 1 else 0);
      assert k > 0 ==> text[..k][1..] == text[1..][..k - 1];
    }
  }

  /** A printed argument list nowhere closes more brackets than it opened, and closes
      all of them. */
  lemma {:induction false} JoinPrefix(texts: seq<string>, k: nat)
    requires texts != [] && AllPieces(texts) && k <= |Join(texts)|
    ensures Run(START, Join(texts)[..k]).depth >= 0
    ensures Run(START, Join(texts)) == START
    decreases |texts|
  {
    var first := texts[0];
    PiecePrefix(START, first, if k <= |first| then k else 0);
    if |texts| > 1 {
      var opening, rest := first + ",", Join(texts[1..]);
      var inside := if k > |opening| then k - |opening| else 0;
      JoinPrefix(texts[1..], inside);
      CommaIsIgnored(first);
      hide Run, Join;
      RunConcat(START, opening, rest);
      RunConcat(START, opening, rest[..inside]);
      assert k <= |first| ==> (opening + rest)[..k] == first[..k];
      assert k > |first| ==> (opening + rest)[..k] == opening + rest[..inside];
    } else {
      assert Join(texts) == first;
    }
  }

  lemma CommaIsIgnored(text: string)
    requires Run(START, text) == START
    ensures Run(START, text + ",") == START
  {
    RunConcat(START, text, ",");
    QuietIsIgnored(START, ",");
  }

  predicate BackslashFree(text: string) {
    '\\' !in text
  }

  lemma {:induction false} UnescapeKeeps(text: string)
    requires BackslashFree(text)
    ensures Unescape(false, text) == text
    decreases |text|
  {
    if text != "" {
      assert text[0] in text;
      assert forall c :: c in text[1..] ==> c in text;
      UnescapeKeeps(text[1..]);
      assert [text[0]] + text[1..] == text;
    }
  }

  lemma UnescapedKeeps(texts: seq<string>)
    requires forall k :: 0 <= k < |texts| ==> BackslashFree(texts[k])
    ensures Unescaped(texts) == texts
  {
    hide Unescape, BackslashFree;
    forall k | 0 <= k < |texts| ensures Unescape(false, texts[k]) == texts[k] {
      UnescapeKeeps(texts[k]);
    }
  }

  lemma TrimmedKept(texts: seq<string>)
    requires forall k :: 0 <= k < |texts| ==> Trimmed(texts[k])
    ensures StripAll(texts) == texts
  {
    hide Strip, Trimmed;
    forall k | 0 <= k < |texts| ensures Strip(texts[k]) == texts[k] {
      StripParts(texts[k]);
    }
  }

  /** Arguments without backslashes come back stripped; trimmed ones unchanged. */
  lemma ArgsRoundTrip(before: string, texts: seq<string>, after: string)
    requires texts != [] && AllPieces(texts)
    requires forall k :: 0 <= k < |texts| ==> BackslashFree(texts[k])
    ensures Args(before + Join(texts) + ")" + after, |before|) == Some((|before| + |Join(texts)|, StripAll(texts)))
    ensures (forall k :: 0 <= k < |texts| ==> Trimmed(texts[k])) ==> StripAll(texts) == texts
  {
    hide Args, Join, AllPieces, Unescaped, StripAll, BackslashFree, Trimmed;
    var line := before + Join(texts) + ")" + after;
    var end := |before| + |Join(texts)|;
    assert line[|before|..end] == Join(texts);
    UnescapedKeeps(texts);
    assert Printed(line, |before|, end, StripAll(texts), texts);
    ArgsInvertsJoin(line, |before|, end, StripAll(texts));
    if forall k :: 0 <= k < |texts| ==> Trimmed(texts[k]) {
      TrimmedKept(texts);
    }
  }

  // ---------- When the closing bracket is found ----------

  /** After some characters from position i on, one more bracket is closed than opened. */
  predicate ClosesAfter(line: string, i: nat, s: Scan)
    requires i <= |line|
  {
    exists k :: i <= k <= |line| && Run(s, line[i..k]).depth == -1
  }

  lemma ClosesAfterStep(line: string, i: nat, s: Scan)
    requires i < |line| && s.depth >= 0
    ensures ClosesAfter(line, i, s) <==> ClosesAfter(line, i + 1, Step(s, line[i]))
  {
    hide Step;
    var t := Step(s, line[i]);
    if ClosesAfter(line, i, s) {
      var k :| i <= k <= |line| && Run(s, line[i..k]).depth == -1;
      assert line[i..i] == "";
      RunFirst(s, line, i, k);
    }
    if ClosesAfter(line, i + 1, t) {
      var k :| i + 1 <= k <= |line| && Run(t, line[i + 1..k]).depth == -1;
      RunFirst(s, line, i, k);
    }
  }

  /** The closing bracket is found exactly when the brackets open at the start are all
      closed after some further characters. */
  lemma {:induction false} ArgsFoundFrom(line: string, i: nat, s: Scan, before: seq<string>, current: string)
    requires i <= |line| && s.depth >= 0
    ensures ArgsFrom(line, i, Inside(s), before, current).Some?
      <==> ClosesAfter(line, i, s)
    decreases |line| - i
  {
    hide ArgsFrom, Step;
    if i == |line| {
      ArgsAtEnd(line, i, s, before, current);
    } else {
      var c := line[i];
      ArgsStep(line, i, s, before, current);
      NextDepth(s, c);
      ClosesAfterStep(line, i, s);
      var t := Step(s, c);
      if Neutral(s) && s.depth == 0 && c == ')' {
        assert Run(t, line[i + 1..i + 1]) == t;
      } else {
        var comma := Neutral(s) && s.depth == 0 && c == ',';
        ArgsFoundFrom(line, i + 1, t, if comma then before + [current] else before,
          if comma then "" else Collected(s, current, c));
      }
    }
  }

  lemma ArgsAtEnd(line: string, i: nat, s: Scan, before: seq<string>, current: string)
    requires i == |line|
    ensures ArgsFrom(line, i, Inside(s), before, current).None?
    ensures forall k :: i <= k <= |line| ==> Run(s, line[i..k]) == s
  {
  }

  lemma NextDepth(s: Scan, c: char)
    ensures Neutral(s) && c == ',' ==> Step(s, c) == s
    ensures Neutral(s) && c == ')' ==> Step(s, c).depth == s.depth - 1
  {
  }

  lemma RunFirst(s: Scan, line: string, i: nat, k: nat)
    requires i < k <= |line|
    ensures Run(s, line[i..k]) == Run(Step(s, line[i]), line[i + 1..k])
  {
    assert line[i..k][1..] == line[i + 1..k];
  }

  // ---------- Lines merged into one ----------

  /** Characters that mean nothing to the scanners. */
  predicate Quiet(text: string) {
    forall i :: 0 <= i < |text| ==> !IsQuote(text[i]) && text[i] != '\\' && text[i] != '(' && text[i] != ')'
  }

  lemma {:induction false} QuietIsIgnored(s: Scan, text: string)
    requires Neutral(s) && Quiet(text)
    ensures Run(s, text) == s
    decreases |text|
  {
    if text != "" {
      assert Step(s, text[0]) == s;
      QuietIsIgnored(s, text[1..]);
    }
  }

  lemma SpaceIsQuiet(space: string)
    requires AllSpace(space)
    ensures Quiet(space)
  {
  }

  /** A line that is stripped to text ending outside of strings and escapes counts as
      that text does. */
  lemma StrippedCounts(line: string)
    requires Closed(Strip(line))
    ensures Run(START, line) == Run(START, Strip(line))
  {
    StripParts(line);
    var a, b :| AllSpace(a) && AllSpace(b) && line == a + Strip(line) + b;
    RunConcat(START, a + Strip(line), b);
    RunConcat(START, a, Strip(line));
    SpaceIsQuiet(a);
    SpaceIsQuiet(b);
    QuietIsIgnored(START, a);
    QuietIsIgnored(Run(START, Strip(line)), b);
  }

  function Merged(lines: seq<string>): string {
    if lines == [] then "" else Merged(lines[..|lines| - 1]) + Strip(lines[|lines| - 1])
  }

  function BracketSum(lines: seq<string>): int {
    if lines == [] then 0 else BracketSum(lines[..|lines| - 1]) + Brackets(lines[|lines| - 1])
  }

  predicate Settled(lines: seq<string>) {
    forall k :: 0 <= k < |lines| ==> Closed(Strip(lines[k]))
  }

  /** The brackets summed line by line are the brackets of the merged text, which ends
      outside of strings and escapes. */
  predicate Counted(lines: seq<string>) {
    Run(START, Merged(lines)) == Scan(false, None, BracketSum(lines))
  }

  /** One more line is counted right exactly when it ends, stripped, outside of strings
      and escapes. */
  lemma CountedOneMore(lines: seq<string>, line: string)
    requires Counted(lines)
    ensures Counted(lines + [line]) <==> Closed(Strip(line))
  {
    hide Run, Step, Strip;
    assert (lines + [line])[..|lines|] == lines;
    var sum := BracketSum(lines);
    assert Scan(false, None, sum) == START.(depth := START.depth + sum);
    RunConcat(START, Merged(lines), Strip(line));
    RunShift(START, sum, Strip(line));
    if Closed(Strip(line)) {
      StrippedCounts(line);
    }
  }

  /** The running sum is that of the merged text after every number of lines exactly when
      each line, stripped, ends outside of strings and escapes. */
  lemma {:induction false} SettledIff(lines: seq<string>)
    ensures Settled(lines) <==> forall k :: 0 <= k <= |lines| ==> Counted(lines[..k])
    decreases |lines|
  {
    hide Counted, Closed, Strip;
    if lines == [] {
      NothingCounted();
      assert lines[..0] == [];
    } else {
      var n := |lines| - 1;
      var front, last := lines[..n], lines[n];
      SettledIff(front);
      assert forall k :: 0 <= k <= n ==> front[..k] == lines[..k];
      assert front[..n] == front && front + [last] == lines && lines[..|lines|] == lines;
      if Counted(front) {
        CountedOneMore(front, last);
      }
    }
  }

  lemma NothingCounted()
    ensures Counted([])
  {
  }

  lemma MergedCounts(lines: seq<string>)
    requires Settled(lines)
    ensures Counted(lines)
  {
    hide Counted, Settled;
    SettledIff(lines);
    assert lines[..|lines|] == lines;
  }

  /** Only a quote opens a string. */
  predicate QuoteOk(s: Scan) {
    s.quote.Some? ==> IsQuote(s.quote.value)
  }

  lemma {:induction false} RunKeepsQuoted(s: Scan, text: string)
    requires QuoteOk(s)
    ensures QuoteOk(Run(s, text))
    decreases |text|
  {
    if text != "" {
      RunKeepsQuoted(Step(s, text[0]), text[1..]);
    }
  }

  lemma {:induction false} SpaceIsIgnored(s: Scan, space: string)
    requires !s.escape && QuoteOk(s) && AllSpace(space)
    ensures Run(s, space) == s
    decreases |space|
  {
    hide IsSpace;
    if space != "" {
      SpaceIsQuiet(space);
      assert Step(s, space[0]) == s;
      SpaceIsIgnored(s, space[1..]);
    }
  }

  /** Of a line that ends outside of strings and escapes, stripping can only uncover an
      escape: the space it took is gone. */
  lemma StripUncoversEscape(line: string)
    requires Closed(line)
    ensures Closed(Strip(line)) <==> !Run(START, Strip(line)).escape
  {
    hide Run, Step, Strip, IsSpace;
    StripParts(line);
    var a, b :| AllSpace(a) && AllSpace(b) && line == a + Strip(line) + b;
    RunConcat(START, a + Strip(line), b);
    RunConcat(START, a, Strip(line));
    SpaceIsIgnored(START, a);
    if !Run(START, Strip(line)).escape {
      RunKeepsQuoted(START, Strip(line));
      SpaceIsIgnored(Run(START, Strip(line)), b);
    }
  }

  /** Lines that each end outside of strings and escapes are summed up right, after every
      number of lines, unless one of them, stripped, ends in a backslash that escapes. */
  lemma ClosedLinesSettle(lines: seq<string>)
    requires forall k :: 0 <= k < |lines| ==> Closed(lines[k])
    ensures (forall k :: 0 <= k <= |lines| ==> Counted(lines[..k]))
      <==> (forall k :: 0 <= k < |lines| ==> !Run(START, Strip(lines[k])).escape)
  {
    hide Counted, Closed, Run, Strip;
    SettledIff(lines);
    forall k | 0 <= k < |lines|
      ensures Closed(Strip(lines[k])) <==> !Run(START, Strip(lines[k])).escape
    {
      StripUncoversEscape(lines[k]);
    }
  }

  /** A line that ends in a backslash is not settled, although the scan of the line
      itself ends outside of strings and escapes: the newline takes the escape, and is
      then stripped. Merging makes the escape swallow the next bracket. */
  lemma ContinuationSwallowsBracket()
    ensures var lines := ["f((\\\n", "))\n"];
      && (forall k :: 0 <= k < |lines| ==> Closed(lines[k]))
      && BracketSum(lines) == 0
      && Brackets(Merged(lines)) == 1
  {
    hide Run, Strip;
    var first, second := "f((\\\n", "))\n";
    var lines := [first, second];
    assert lines[..1] == [first];
    assert first == "f((\\" + "\n" && second == "))" + "\n";
    StripsEnd("f((\\", "\n");
    StripsEnd("))", "\n");
    assert [first][..0] == [];
    assert Merged([first]) == "f((\\";
    assert Merged(lines) == "f((\\))";
    ContinuationScans();
  }

  lemma ContinuationScans()
    ensures Run(START, "f((\\\n") == Scan(false, None, 2)
    ensures Run(START, "))\n") == Scan(false, None, -2)
    ensures Run(START, "f((\\))") == Scan(false, None, 1)
  {
    OpeningScan();
    var text := "f((\\";
    assert text + "\n" == "f((\\\n" && text + "))" == "f((\\))";
    RunConcat(START, text, "\n");
    RunConcat(START, text, "))");
  }

  lemma OpeningScan()
    ensures Run(START, "f((\\") == Scan(true, None, 2)
  {
    var text := "f((\\";
    assert Run(START, text[..0]) == START;
    hide Run;
    RunOneMore(START, text, 0);
    RunOneMore(START, text, 1);
    RunOneMore(START, text, 2);
    RunOneMore(START, text, 3);
    assert text[..4] == text;
  }

  lemma RunOpen()
    ensures Run(START, "(") == Inside(START)
  {
  }

  /** When the sum reaches 0 and the text before the log call is balanced and outside of
      strings, the closing bracket of the call is found in what follows. */
  lemma MergedCallIsFound(lines: seq<string>, before: string, call: string, rest: string)
    requires Settled(lines) && BracketSum(lines) == 0
    requires Merged(lines) == before + call + "(" + rest
    requires Run(START, before) == START && Run(START, call) == START
    ensures Args(rest, 0).Some?
  {
    hide Run, Step, Merged, BracketSum, ArgsFrom;
    MergedCounts(lines);
    RunConcat(START, before + call + "(", rest);
    RunConcat(START, before + call, "(");
    RunConcat(START, before, call);
    RunOpen();
    RunShift(START, 1, rest);
    assert Inside(START) == START.(depth := START.depth + 1);
    assert rest[0..|rest|] == rest;
    ArgsFoundFrom(rest, 0, START, [], "");
  }
}
