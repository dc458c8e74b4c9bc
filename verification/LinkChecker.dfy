/** The link check of check-links.py: cached headers per file, and the suggestion for
    a link that is not among them. */
module LinkChecker {
  import opened Options
  import opened EditDistance
  import opened Text

  /** Start value of the running minimum; a header that is not nearer is never suggested. */
  const DISTANCE_LIMIT := 100000000000

  function Lower(c: char): char {
    if 'A' <= c <= 'Z' then c - 'A' + 'a' else c
  }

  /** The header as GitHub links to it: dashes for spaces, in lower case. */
  function Anchor(title: string): string {
    seq(|title|, i requires 0 <= i < |title| => if title[i] == ' ' then '-' else Lower(title[i]))
  }

  function LeadingHashes(line: string): (n: nat)
    ensures n <= |line|
  {
    if line != "" && line[0] == '#' then 1 + LeadingHashes(line[1..]) else 0
  }

  /** The pattern `^#+ (.+)`. */
  function HeaderOf(line: string): Option<string> {
    var n := LeadingHashes(line);
    if n == 0 || n == |line| || line[n] != ' ' then None
    else
      var title := UpToNewline(line[n + 1..]);
      if title == "" then None else Some(Anchor(title))
  }

  function HeadersOf(lines: seq<string>): seq<string> {
    if lines == [] then []
    else
      var last := lines[|lines| - 1];
      HeadersOf(lines[..|lines| - 1]) + (match HeaderOf(last) case None => [] case Some(h) => [h])
  }

  // ---------- What is a header ----------

  function Hashes(n: nat): string {
    seq(n, _ => '#')
  }

  lemma {:induction false} HashesLead(n: nat, rest: string)
    requires rest == "" || rest[0] != '#'
    ensures LeadingHashes(Hashes(n) + rest) == n
  {
    if n == 0 {
      assert Hashes(0) + rest == rest;
    } else {
      assert (Hashes(n) + rest)[1..] == Hashes(n - 1) + rest;
      HashesLead(n - 1, rest);
    }
  }

  lemma {:induction false} LeadingAreHashes(line: string)
    ensures line[..LeadingHashes(line)] == Hashes(LeadingHashes(line))
  {
    var n := LeadingHashes(line);
    if n > 0 {
      LeadingAreHashes(line[1..]);
      assert line[..n] == [line[0]] + line[1..][..n - 1];
    }
  }

  /** The line is hashes, a blank, this title, and nothing or a newline after it. */
  predicate Titled(line: string, n: nat, title: string) {
    && n >= 1 && title != "" && NewlineFree(title)
    && Hashes(n) + " " + title <= line
    && (|line| > n + 1 + |title| ==> line[n + 1 + |title|] == '\n')
  }

  lemma TitleIsRead(line: string, n: nat, title: string)
    requires Titled(line, n, title)
    ensures HeaderOf(line) == Some(Anchor(title))
  {
    var after := line[n + 1 + |title|..];
    assert line == Hashes(n) + (" " + title + after);
    HashesLead(n, " " + title + after);
    assert line[n + 1..] == title + after;
    UpToNewlineAfter(title, after);
    assert UpToNewline(after) == "" && title + "" == title;
  }

  lemma HeaderIsTitle(line: string)
    requires HeaderOf(line).Some?
    ensures exists n: nat, title :: Titled(line, n, title)
  {
    hide Anchor;
    var n := LeadingHashes(line);
    var rest := line[n + 1..];
    var title := UpToNewline(rest);
    LeadingAreHashes(line);
    UpToNewlineParts(rest);
    assert line[..n] + " " == line[..n + 1];
    assert Hashes(n) + " " + title == line[..n + 1] + rest[..|title|] == line[..n + 1 + |title|];
    assert Titled(line, n, title);
  }

  /** Exactly the lines of hashes, a blank and a title are headers; what links to one is
      its title, without the newline. */
  lemma HeaderIff(line: string, anchor: string)
    ensures HeaderOf(line) == Some(anchor)
      <==> exists n: nat, title :: Titled(line, n, title) && anchor == Anchor(title)
  {
    hide HeaderOf, Anchor, Titled;
    forall n: nat, title | Titled(line, n, title) ensures HeaderOf(line) == Some(Anchor(title)) {
      TitleIsRead(line, n, title);
    }
    if HeaderOf(line) == Some(anchor) {
      HeaderIsTitle(line);
    }
  }

  /** The anchor has a dash for each blank of the title, the lower case for each capital
      letter, and every other character unchanged. */
  lemma AnchorOfTitle(title: string)
    ensures |Anchor(title)| == |title|
    ensures forall k :: 0 <= k < |title| && title[k] == ' ' ==> Anchor(title)[k] == '-'
    ensures forall k, i :: 0 <= k < |title| && 0 <= i < 26 && title[k] == UPPER_CASE[i] ==>
      Anchor(title)[k] == LOWER_CASE[i]
    ensures forall k :: 0 <= k < |title| && title[k] != ' ' && title[k] !in UPPER_CASE ==> Anchor(title)[k] == title[k]
  {
    hide Lower;
    LowerOfLetter();
    forall k | 0 <= k < |title| ensures title[k] !in UPPER_CASE ==> Lower(title[k]) == title[k] {
      LowerOfOther(title[k]);
    }
  }

  lemma LowerOfLetter()
    ensures forall i :: 0 <= i < 26 ==> Lower(UPPER_CASE[i]) == LOWER_CASE[i] && UPPER_CASE[i] != ' '
  {
  }

  lemma LowerOfOther(c: char)
    ensures c !in UPPER_CASE ==> Lower(c) == c
  {
    if 'A' <= c <= 'Z' {
      assert UPPER_CASE[c as int - 'A' as int] == c;
    }
  }

  /** The headers of a file are those of its lines, in order. */
  lemma {:induction false} HeadersInOrder(lines: seq<string>, more: seq<string>)
    ensures HeadersOf(lines + more) == HeadersOf(lines) + HeadersOf(more)
    decreases |more|
  {
    hide HeaderOf;
    if more == [] {
      assert lines + more == lines;
    } else {
      var n := |more| - 1;
      HeadersInOrder(lines, more[..n]);
      assert (lines + more)[..|lines| + n] == lines + more[..n];
    }
  }

  /** Header i is the first of those nearest to the link, and near enough. */
  predicate FirstNearest(headers: seq<string>, link: string, i: nat) {
    && i < |headers|
    && Distance(headers[i], link) < DISTANCE_LIMIT
    && (forall k :: 0 <= k < i ==> Distance(headers[i], link) < Distance(headers[k], link))
    && (forall k :: i <= k < |headers| ==> Distance(headers[i], link) <= Distance(headers[k], link))
  }

  predicate NoneNear(headers: seq<string>, link: string) {
    forall k :: 0 <= k < |headers| ==> Distance(headers[k], link) >= DISTANCE_LIMIT
  }

  class Checker {
    var headers: map<string, seq<string>>

    constructor ()
      ensures headers == map[]
    {
      headers := map[];
    }

    /** The headers of a file, read at most once. A file that cannot be read has none. */
    method GetHeaders(filename: string, lines: Option<seq<string>>) returns (found: seq<string>)
      modifies this
      ensures headers == if filename in old(headers) then old(headers)
                         else old(headers)[filename := match lines case None => [] case Some(ls) => HeadersOf(ls)]
      ensures filename in headers && found == headers[filename]
    {
      hide HeaderOf;
      if filename in headers {
        return headers[filename];
      }
      headers := headers[filename := []];
      if lines.Some? {
        var ls := lines.value;
        for i := 0 to |ls|
          invariant filename in headers && headers[filename] == HeadersOf(ls[..i])
          invariant headers == old(headers)[filename := headers[filename]]
        {
          var header := HeaderOf(ls[i]);
          assert ls[..i + 1][..i] == ls[..i];
          if header.Some? {
            headers := headers[filename := headers[filename] + [header.value]];
          }
        }
        assert ls[..|ls|] == ls;
      }
      return headers[filename];
    }

    /** The nearest header, the first one when several are equally near. */
    method GetSuggestion(filename: string, link: string) returns (bestMatch: string)
      requires filename in headers
      ensures NoneNear(headers[filename], link) ==> bestMatch == ""
      ensures !NoneNear(headers[filename], link) ==>
        exists i: nat :: FirstNearest(headers[filename], link, i) && bestMatch == headers[filename][i]
    {
      hide Distance;
      var minDistance := DISTANCE_LIMIT;
      bestMatch := "";
      var hs := headers[filename];
      ghost var best := 0;
      for i := 0 to |hs|
        invariant minDistance <= DISTANCE_LIMIT
        invariant minDistance == DISTANCE_LIMIT ==> bestMatch == "" && NoneNear(hs[..i], link)
        invariant minDistance < DISTANCE_LIMIT ==>
          best < i && bestMatch == hs[best] && minDistance == Distance(hs[best], link)
          && FirstNearest(hs[..i], link, best)
      {
        var distance := Levenshtein(hs[i], link);
        if distance < minDistance {
          minDistance := distance;
          bestMatch := hs[i];
          best := i;
        }
      }
      assert hs[..|hs|] == hs;
    }

    /** A link is reported, with the suggestion, exactly when the file it leads to has
        no such header. */
    method LinkResult(linkFilename: string, lines: Option<seq<string>>, link: string) returns (report: Option<string>)
      modifies this
      ensures linkFilename in headers
      ensures headers == if linkFilename in old(headers) then old(headers)
                         else old(headers)[linkFilename := match lines case None => [] case Some(ls) => HeadersOf(ls)]
      ensures report == None <==> link in headers[linkFilename]
      ensures report.Some? && !NoneNear(headers[linkFilename], link) ==>
        exists i: nat :: FirstNearest(headers[linkFilename], link, i) && report.value == headers[linkFilename][i]
      ensures report.Some? && NoneNear(headers[linkFilename], link) ==> report.value == ""
    {
      hide Distance, FirstNearest, NoneNear, HeadersOf;
      var found := GetHeaders(linkFilename, lines);
      if link !in found {
        var suggestion := GetSuggestion(linkFilename, link);
        report := Some(suggestion);
      } else {
        report := None;
      }
    }
  }

  /** For texts of any practical size the bound plays no role: as soon as there is a
      header there is a nearest one, at a distance above 0 when the link is broken. */
  lemma SomeHeaderIsNearest(headers: seq<string>, link: string)
    requires headers != [] && |link| < DISTANCE_LIMIT
    requires forall k :: 0 <= k < |headers| ==> |headers[k]| < DISTANCE_LIMIT
    ensures !NoneNear(headers, link)
    ensures link !in headers ==> forall k :: 0 <= k < |headers| ==> Distance(headers[k], link) > 0
  {
    forall k | 0 <= k < |headers|
      ensures Distance(headers[k], link) < DISTANCE_LIMIT
      ensures headers[k] != link ==> Distance(headers[k], link) > 0
    {
      DistanceBounds(headers[k], link);
      DistanceZero(headers[k], link);
    }
    assert Distance(headers[0], link) < DISTANCE_LIMIT;
  }

  /** A header that was misspelt by n edits is suggested unless another one is within
      n edits of the misspelling: the suggestion is at most 2n edits from the header. */
  lemma SuggestionIsClose(headers: seq<string>, link: string, i: nat, meant: nat, typos: seq<Edit>)
    requires FirstNearest(headers, link, i) && meant < |headers|
    requires Apply(typos, headers[meant]) == Some(link)
    ensures Distance(headers[i], headers[meant]) <= 2 * |typos|
  {
    hide Distance;
    ScriptsAreLong(typos, headers[meant], link);
    DistanceTriangle(headers[i], link, headers[meant]);
    DistanceSymmetric(link, headers[meant]);
  }
}
