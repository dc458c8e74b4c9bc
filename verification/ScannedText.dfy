/** What the scanners of extract-log-strings.py are for, without their states: brackets
    count and commas separate outside of C strings and escapes, and nowhere else. */
module ScannedText {
  import opened Options
  import opened BracketScanner

  /** What is between the quotes of a string: pairs of a backslash and any character, and
      characters that are neither a backslash nor the quote. */
  predicate Body(q: char, text: string)
    decreases |text|
  {
    if text == "" then true
    else if text[0] == '\\' then |text| >= 2 && Body(q, text[2..])
    else text[0] != q && Body(q, text[1..])
  }

  /** Text as C has it: brackets, strings in either quote, escaped characters outside of
      strings, and others. */
  datatype Token = Opening | Closing | Quoted(q: char, body: string) | Escaped(c: char) | Other(c: char)

  predicate TokenOk(t: Token) {
    match t
    case Opening => true
    case Closing => true
    case Quoted(q, body) => (q == '"' || q == '\'') && Body(q, body)
    case Escaped(c) => true
    case Other(c) => c != '(' && c != ')' && c != '"' && c != '\'' && c != '\\'
  }

  predicate TokensOk(tokens: seq<Token>) {
    forall k :: 0 <= k < |tokens| ==> TokenOk(tokens[k])
  }

  function TokenText(t: Token): string {
    match t
    case Opening => "("
    case Closing => ")"
    case Quoted(q, body) => [q] + body + [q]
    case Escaped(c) => ['\\', c]
    case Other(c) => [c]
  }

  function TextOf(tokens: seq<Token>): string {
    if tokens == [] then "" else TokenText(tokens[0]) + TextOf(tokens[1..])
  }

  function NetOf(t: Token): int {
    if t == Opening then 1 else if t == Closing then -1 else 0
  }

  /** Opening less closing brackets; those inside of strings are none. */
  function Net(tokens: seq<Token>): int {
    if tokens == [] then 0 else NetOf(tokens[0]) + Net(tokens[1..])
  }

  lemma {:induction false} BodyIsSkipped(s: Scan, q: char, body: string)
    requires !s.escape && s.quote == Some(q) && q != '\\' && Body(q, body)
    ensures Run(s, body) == s
    decreases |body|
  {
    if body != "" && body[0] == '\\' {
      assert Step(Step(s, body[0]), body[1]) == s;
      assert body[1..][1..] == body[2..];
      BodyIsSkipped(s, q, body[2..]);
    } else if body != "" {
      BodyIsSkipped(s, q, body[1..]);
    }
  }

  /** A string of either quote is skipped, whatever brackets, commas and other quotes
      are in it. */
  lemma QuotedIsSkipped(s: Scan, q: char, body: string)
    requires Neutral(s) && (q == '"' || q == '\'') && Body(q, body)
    ensures Run(s, [q] + body + [q]) == s
    ensures Brackets([q] + body + [q]) == 0
  {
    StringIsSkipped(s, q, body);
    StringIsSkipped(START, q, body);
  }

  lemma StringIsSkipped(s: Scan, q: char, body: string)
    requires Neutral(s) && (q == '"' || q == '\'') && Body(q, body)
    ensures Run(s, [q] + body + [q]) == s
  {
    var inside := s.(quote := Some(q));
    RunOneChar(s, q);
    RunOneChar(inside, q);
    hide Run, Body;
    BodyIsSkipped(inside, q, body);
    RunConcat(s, [q] + body, [q]);
    RunConcat(s, [q], body);
  }

  lemma RunOneChar(s: Scan, c: char)
    ensures Run(s, [c]) == Step(s, c)
  {
    assert Run(s, [c]) == Run(Step(s, c), "");
  }

  lemma RunToken(s: Scan, t: Token)
    requires Neutral(s) && TokenOk(t)
    ensures Run(s, TokenText(t)) == s.(depth := s.depth + NetOf(t))
  {
    match t
    case Opening => RunOneChar(s, '(');
    case Closing => RunOneChar(s, ')');
    case Quoted(q, body) => StringIsSkipped(s, q, body);
    case Escaped(c) =>
      assert ['\\', c][1..] == [c];
      RunOneChar(s.(escape := true), c);
    case Other(c) => RunOneChar(s, c);
  }

  lemma {:induction false} RunTokens(s: Scan, tokens: seq<Token>)
    requires Neutral(s) && TokensOk(tokens)
    ensures Run(s, TextOf(tokens)) == s.(depth := s.depth + Net(tokens))
    decreases |tokens|
  {
    hide Run, TokenOk, TokenText;
    if tokens == [] {
      RunNothing(s);
    } else {
      RunToken(s, tokens[0]);
      RunTokens(s.(depth := s.depth + NetOf(tokens[0])), tokens[1..]);
      RunConcat(s, TokenText(tokens[0]), TextOf(tokens[1..]));
    }
  }

  lemma RunNothing(s: Scan)
    ensures Run(s, "") == s
  {
  }

  /** Inside of a string the scan comes out only over a quote that closes it. */
  lemma {:induction false} ClosingQuote(s: Scan, q: char, text: string) returns (k: nat)
    requires !s.escape && s.quote == Some(q) && q != '\\' && Neutral(Run(s, text))
    ensures k < |text| && text[k] == q && Body(q, text[..k])
    decreases |text|
  {
    if text == "" {
      assert false;
    } else if text[0] == q {
      k := 0;
    } else if text[0] == '\\' {
      EscapeNeedsChar(s, text);
      assert text[1..][1..] == text[2..];
      k := ClosingQuote(s, q, text[2..]);
      k := k + 2;
      assert text[..k][2..] == text[2..][..k - 2];
    } else {
      k := ClosingQuote(s, q, text[1..]);
      k := k + 1;
      assert text[..k][1..] == text[1..][..k - 1];
    }
  }

  lemma EscapeNeedsChar(s: Scan, text: string)
    requires !s.escape && text != "" && text[0] == '\\' && !Run(s, text).escape
    ensures |text| >= 2 && Run(s, text) == Run(s, text[2..])
  {
    assert Run(s, text) == Run(Step(s, text[0]), text[1..]);
    if |text| >= 2 {
      assert text[1..][1..] == text[2..];
    }
  }

  /** Text that ends outside of strings and escapes is made of such tokens. */
  lemma {:induction false} Tokenize(s: Scan, text: string) returns (tokens: seq<Token>)
    requires Neutral(s) && Neutral(Run(s, text))
    ensures TokensOk(tokens) && TextOf(tokens) == text
    decreases |text|
  {
    if text == "" {
      tokens := [];
    } else {
      var t := FirstToken(s, text);
      var n := |TokenText(t)|;
      assert text == text[..n] + text[n..];
      hide Run;
      RunConcat(s, text[..n], text[n..]);
      RunToken(s, t);
      var rest := Tokenize(Run(s, text[..n]), text[n..]);
      tokens := [t] + rest;
      assert tokens[1..] == rest;
    }
  }

  lemma FirstToken(s: Scan, text: string) returns (t: Token)
    requires text != "" && Neutral(s) && Neutral(Run(s, text))
    ensures TokenOk(t) && |TokenText(t)| <= |text| && text[..|TokenText(t)|] == TokenText(t) != ""
  {
    var c := text[0];
    if c == '\\' {
      EscapeNeedsChar(s, text);
      t := Escaped(text[1]);
    } else if c == '"' || c == '\'' {
      var rest := text[1..];
      var k := ClosingQuote(s.(quote := Some(c)), c, rest);
      t := Quoted(c, rest[..k]);
      assert text[..k + 2] == [c] + rest[..k] + [c];
    } else {
      t := if c == '(' then Opening else if c == ')' then Closing else Other(c);
    }
  }

  /** Which texts end outside of strings and escapes, and what is counted in them. */
  lemma ClosedIff(text: string)
    ensures Closed(text) <==> exists tokens :: TokensOk(tokens) && TextOf(tokens) == text
    ensures forall tokens :: TokensOk(tokens) && TextOf(tokens) == text ==> Brackets(text) == Net(tokens)
  {
    hide Run, TextOf, TokenOk, Net;
    forall tokens | TokensOk(tokens) && TextOf(tokens) == text
      ensures Closed(text) && Brackets(text) == Net(tokens)
    {
      RunTokens(START, tokens);
    }
    if Closed(text) {
      var tokens := Tokenize(START, text);
    }
  }

  /** With d brackets open the tokens close them all and never more, and have no comma
      outside of brackets and strings. */
  predicate Nests(d: nat, tokens: seq<Token>)
    decreases |tokens|
  {
    if tokens == [] then d == 0
    else
      match tokens[0]
      case Opening => Nests(d + 1, tokens[1..])
      case Closing => d > 0 && Nests(d - 1, tokens[1..])
      case Quoted(_, _) => Nests(d, tokens[1..])
      case Escaped(_) => Nests(d, tokens[1..])
      case Other(c) => (d == 0 ==> c != ',') && Nests(d, tokens[1..])
  }

  /** With d brackets open, outside of strings. */
  function Open(d: nat): Scan {
    Scan(false, None, d)
  }

  lemma {:induction false} BodyInPiece(s: Scan, q: char, body: string, rest: string)
    requires !s.escape && s.quote == Some(q) && (q == '"' || q == '\'') && s.depth >= 0 && Body(q, body)
    ensures PieceFrom(s, body + [q] + rest) <==> PieceFrom(s.(quote := None), rest)
    decreases |body|
  {
    var text := body + [q] + rest;
    if body == "" {
      assert text[1..] == rest;
    } else if body[0] == '\\' {
      assert text[1..][1..] == body[2..] + [q] + rest;
      assert text[1..][0] == body[1];
      BodyInPiece(s, q, body[2..], rest);
    } else {
      assert text[1..] == body[1..] + [q] + rest;
      BodyInPiece(s, q, body[1..], rest);
    }
  }

  /** What one token does to an argument. */
  lemma TokenInPiece(d: nat, t: Token, rest: string)
    requires TokenOk(t)
    ensures PieceFrom(Open(d), TokenText(t) + rest) <==>
      match t
      case Opening => PieceFrom(Open(d + 1), rest)
      case Closing => d > 0 && PieceFrom(Open(d - 1), rest)
      case Quoted(_, _) => PieceFrom(Open(d), rest)
      case Escaped(_) => PieceFrom(Open(d), rest)
      case Other(c) => (d == 0 ==> c != ',') && PieceFrom(Open(d), rest)
  {
    var text := TokenText(t) + rest;
    match t
    case Quoted(q, body) =>
      assert text[1..] == body + [q] + rest;
      BodyInPiece(Scan(false, Some(q), d), q, body, rest);
    case Escaped(c) =>
      assert text[1..][1..] == rest && text[1] == c;
    case Opening => assert text[1..] == rest;
    case Closing => assert text[1..] == rest;
    case Other(c) => assert text[1..] == rest;
  }

  lemma {:induction false} TokensInPiece(d: nat, tokens: seq<Token>)
    requires TokensOk(tokens)
    ensures PieceFrom(Open(d), TextOf(tokens)) <==> Nests(d, tokens)
    decreases |tokens|
  {
    if tokens != [] {
      hide PieceFrom, TokenText, TokenOk, Open;
      var t, rest := tokens[0], tokens[1..];
      TokenInPiece(d, t, TextOf(rest));
      match t {
        case Opening =>
          TokensInPiece(d + 1, rest);
        case Closing =>
          if d > 0 {
            TokensInPiece(d - 1, rest);
          }
        case _ =>
          TokensInPiece(d, rest);
      }
    }
  }

  /** Which texts are arguments. */
  lemma PieceIff(text: string)
    ensures Piece(text) <==> exists tokens :: TokensOk(tokens) && TextOf(tokens) == text && Nests(0, tokens)
  {
    forall tokens | TokensOk(tokens) && TextOf(tokens) == text
      ensures Piece(text) <==> Nests(0, tokens)
    {
      TokensInPiece(0, tokens);
    }
    if Piece(text) {
      PiecePrefix(START, text, 0);
      var tokens := Tokenize(START, text);
    }
  }

  // ---------- Arguments that are strings ----------

  /** The contents of a string as they are written: quote and backslash are escaped. */
  function EscapeIn(q: char, text: string): string {
    if text == "" then ""
    else (if text[0] == q || text[0] == '\\' then ['\\', text[0]] else [text[0]]) + EscapeIn(q, text[1..])
  }

  function InQuotes(q: char, text: string): string {
    [q] + text + [q]
  }

  lemma {:induction false} EscapedIsBody(q: char, text: string)
    requires q != '\\'
    ensures Body(q, EscapeIn(q, text))
    ensures q !in text && '\\' !in text ==> EscapeIn(q, text) == text
  {
    if text != "" {
      EscapedIsBody(q, text[1..]);
      var written := EscapeIn(q, text);
      if text[0] == q || text[0] == '\\' {
        assert written[2..] == EscapeIn(q, text[1..]);
      } else {
        assert written[1..] == EscapeIn(q, text[1..]);
      }
      assert text == [text[0]] + text[1..];
    }
  }

  lemma {:induction false} UnescapeInverts(q: char, text: string, after: string)
    requires q != '\\'
    ensures Unescape(false, EscapeIn(q, text) + after) == text + Unescape(false, after)
    decreases |text|
  {
    var written := EscapeIn(q, text) + after;
    if text == "" {
      assert written == after;
    } else {
      UnescapeInverts(q, text[1..], after);
      var rest := EscapeIn(q, text[1..]) + after;
      if text[0] == q || text[0] == '\\' {
        assert written[1..][1..] == rest && written[1..][0] == text[0];
      } else {
        assert written[1..] == rest;
      }
      assert [text[0]] + (text[1..] + Unescape(false, after)) == text + Unescape(false, after);
    }
  }

  lemma QuotedUnescapes(q: char, text: string)
    requires q == '"' || q == '\''
    ensures Unescape(false, InQuotes(q, EscapeIn(q, text))) == InQuotes(q, text)
  {
    var written := InQuotes(q, EscapeIn(q, text));
    assert written[1..] == EscapeIn(q, text) + [q];
    UnescapeInverts(q, text, [q]);
    assert Unescape(false, [q]) == [q] + Unescape(false, "");
    assert [q] + (text + [q]) == InQuotes(q, text);
  }

  lemma QuotedIsPiece(q: char, body: string)
    requires (q == '"' || q == '\'') && Body(q, body)
    ensures Piece(InQuotes(q, body))
  {
    var tokens := [Quoted(q, body)];
    assert TextOf(tokens) == InQuotes(q, body) + TextOf(tokens[1..]) == InQuotes(q, body);
    TokensInPiece(0, tokens);
  }

  /** A string argument: its quote and its text, which may be any. */
  datatype StringArg = StringArg(q: char, text: string)

  function WrittenArgs(strings: seq<StringArg>): seq<string> {
    seq(|strings|, i requires 0 <= i < |strings| => InQuotes(strings[i].q, EscapeIn(strings[i].q, strings[i].text)))
  }

  function ReadArgs(strings: seq<StringArg>): seq<string> {
    seq(|strings|, i requires 0 <= i < |strings| => InQuotes(strings[i].q, strings[i].text))
  }

  /** Arguments that are strings of any texts, in either quote, are read back as these
      texts in their quotes. */
  lemma StringArgsRoundTrip(before: string, strings: seq<StringArg>, after: string)
    requires strings != []
    requires forall k :: 0 <= k < |strings| ==> strings[k].q == '"' || strings[k].q == '\''
    ensures var printed := Join(WrittenArgs(strings));
      Args(before + printed + ")" + after, |before|) == Some((|before| + |printed|, ReadArgs(strings)))
  {
    hide Args, Join, Piece, Unescape, Strip, InQuotes, EscapeIn;
    var texts := WrittenArgs(strings);
    forall k | 0 <= k < |strings|
      ensures Piece(texts[k]) && Strip(Unescape(false, texts[k])) == ReadArgs(strings)[k]
    {
      var q, text := strings[k].q, strings[k].text;
      EscapedIsBody(q, text);
      QuotedIsPiece(q, EscapeIn(q, text));
      QuotedUnescapes(q, text);
      QuotedIsTrimmed(q, text);
    }
    assert StripAll(Unescaped(texts)) == ReadArgs(strings);
    var line := before + Join(texts) + ")" + after;
    var end := |before| + |Join(texts)|;
    assert line[|before|..end] == Join(texts);
    assert Printed(line, |before|, end, ReadArgs(strings), texts);
    ArgsInvertsJoin(line, |before|, end, ReadArgs(strings));
  }

  lemma QuotedIsTrimmed(q: char, text: string)
    requires q == '"' || q == '\''
    ensures Strip(InQuotes(q, text)) == InQuotes(q, text)
  {
    assert Trimmed(InQuotes(q, text));
    hide Strip, Trimmed;
    StripParts(InQuotes(q, text));
  }
}
