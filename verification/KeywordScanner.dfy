/** `scan_keyword` of date.h: the longest match of the input against a list of
    keywords, ignoring case, with one status per keyword. */
module KeywordScanner {
  import opened Options
  import opened Text

  function Upper(c: char): char {
    if 'a' <= c <= 'z' then c - 'a' + 'A' else c
  }

  /** The two cases of a letter. */
  predicate Cases(c: char, d: char) {
    exists i :: 0 <= i < 26
      && ((c == LOWER_CASE[i] && d == UPPER_CASE[i]) || (c == UPPER_CASE[i] && d == LOWER_CASE[i]))
  }

  /** Two characters are the same to the scanner exactly when they are equal or the two
      cases of one letter. */
  lemma UpperAgrees(c: char, d: char)
    ensures Upper(c) == Upper(d) <==> c == d || Cases(c, d)
  {
    LettersInOrder();
    hide Upper;
    CaseOf(c);
    CaseOf(d);
  }

  /** A letter in lower case is raised, any other character kept. */
  lemma CaseOf(c: char)
    ensures forall i :: 0 <= i < 26 && c == LOWER_CASE[i] ==> Upper(c) == UPPER_CASE[i]
    ensures c !in LOWER_CASE ==> Upper(c) == c
  {
    LettersInOrder();
    if 'a' <= c <= 'z' {
      assert LOWER_CASE[c as int - 'a' as int] == c;
    }
  }

  lemma LettersInOrder()
    ensures forall i :: 0 <= i < 26 ==> LOWER_CASE[i] == 'a' + i as char && UPPER_CASE[i] == 'A' + i as char
  {
  }

  /** The first n characters of a keyword and of the input agree up to case. */
  predicate Matches(keyword: string, input: string, n: nat) {
    n <= |keyword| && n <= |input| && forall i :: 0 <= i < n ==> Upper(keyword[i]) == Upper(input[i])
  }

  /** The keyword is the first n characters of the input, up to case. */
  predicate Equals(keyword: string, input: string, n: nat) {
    |keyword| == n && Matches(keyword, input, n)
  }

  type Status = x: int | 0 <= x <= 2 witness 0
  const DOESNT_MATCH: Status := 0
  const MIGHT_MATCH: Status := 1
  const DOES_MATCH: Status := 2

  function Count(s: seq<Status>, v: Status): nat {
    multiset(s)[v]
  }

  /** An input stream: its characters, how many were consumed and its state bits. */
  class InputStream {
    const text: string
    var pos: nat
    var eofbit: bool
    var failbit: bool

    ghost predicate Valid()
      reads this
    {
      pos <= |text| && (eofbit ==> pos == |text|)
    }

    ghost function Rest(): string
      reads this
      requires Valid()
    {
      text[pos..]
    }

    constructor (text: string)
      ensures Valid() && this.text == text && Rest() == text && !eofbit && !failbit
    {
      this.text := text;
      pos, eofbit, failbit := 0, false, false;
    }

    /** `peek`: looks at the next character. Peeking at a stream that has already met
        its end makes it fail. */
    method Peek() returns (c: Option<char>)
      requires Valid()
      modifies this
      ensures Valid() && pos == old(pos)
      ensures c == if old(eofbit || failbit || pos == |text|) then None else Some(text[pos])
      ensures eofbit == (old(eofbit) || (!old(failbit) && pos == |text|))
      ensures failbit == old(failbit || eofbit)
    {
      if eofbit || failbit {
        failbit := true;
        return None;
      }
      if pos == |text| {
        eofbit := true;
        return None;
      }
      return Some(text[pos]);
    }
  }

  /** Status of a keyword after it was tested against one more character. */
  function Tested(st: Status, keyword: string, indx: nat, c: char): Status {
    if st != MIGHT_MATCH then st
    else if indx >= |keyword| || Upper(keyword[indx]) != c then DOESNT_MATCH
    else if |keyword| == indx + 1 then DOES_MATCH
    else MIGHT_MATCH
  }

  /** A full match of fewer characters than were consumed is none. */
  function Pruned(st: Status, keyword: string, indx: nat): Status {
    if st == DOES_MATCH && |keyword| != indx + 1 then DOESNT_MATCH else st
  }

  /** What the statuses mean once n characters were consumed and the keywords were
      tested up to position indx. */
  predicate Means(status: seq<Status>, keywords: seq<string>, input: string, n: nat, indx: nat) {
    && |status| == |keywords|
    && (forall k :: 0 <= k < |keywords| ==>
      (status[k] == DOES_MATCH <==> Equals(keywords[k], input, n)))
    && (forall k :: 0 <= k < |keywords| ==>
      (status[k] == MIGHT_MATCH <==> indx == n < |keywords[k]| && Matches(keywords[k], input, n)))
  }

  /** The input agrees with no keyword beyond its first n characters. */
  ghost predicate Longest(keywords: seq<string>, input: string, n: nat) {
    forall k, m :: 0 <= k < |keywords| && n < m ==> !Matches(keywords[k], input, m)
  }

  /** The first n characters of the input begin some keyword. */
  predicate Begins(keywords: seq<string>, input: string, n: nat) {
    exists k :: 0 <= k < |keywords| && Matches(keywords[k], input, n)
  }

  /** They begin a keyword that is longer. */
  predicate Unfinished(keywords: seq<string>, input: string, n: nat) {
    exists k :: 0 <= k < |keywords| && n < |keywords[k]| && Matches(keywords[k], input, n)
  }

  lemma {:induction false} AllMight(s: seq<Status>)
    requires forall k :: 0 <= k < |s| ==> s[k] == MIGHT_MATCH
    ensures Count(s, MIGHT_MATCH) == |s| && Count(s, DOES_MATCH) == 0
  {
    if s != [] {
      var n := |s| - 1;
      AllMight(s[..n]);
      assert s == s[..n] + [s[n]];
    }
  }

  /** How the counts of the statuses change with one status. */
  lemma CountsWith(before: seq<Status>, after: seq<Status>, k: nat, v: Status)
    requires k < |before| && after == before[k := v]
    ensures forall w ::
      Count(after, w) == Count(before, w) - (if before[k] == w then 1 else 0) + (if v == w then 1 else 0)
  {
    assert before[k] in multiset(before);
  }

  /** Together the two properties leave one possible length. */
  lemma LongestIsUnique(keywords: seq<string>, input: string, a: nat, b: nat)
    requires Begins(keywords, input, a) && Longest(keywords, input, a)
    requires Begins(keywords, input, b) && Longest(keywords, input, b)
    ensures a == b
  {
    var i :| 0 <= i < |keywords| && Matches(keywords[i], input, a);
    var j :| 0 <= j < |keywords| && Matches(keywords[j], input, b);
  }

  /** The test of all keywords against one character. */
  method TestKeywords(status: array<Status>, keywords: seq<string>, indx: nat, c: char, might: nat, does: nat)
    returns (consume: bool, might': nat, does': nat)
    requires status.Length == |keywords|
    requires might == Count(status[..], MIGHT_MATCH) && does == Count(status[..], DOES_MATCH)
    requires forall k :: 0 <= k < |keywords| && status[k] == MIGHT_MATCH ==> indx < |keywords[k]|
    modifies status
    ensures forall k :: 0 <= k < |keywords| ==> status[k] == Tested(old(status[k]), keywords[k], indx, c)
    ensures might' == Count(status[..], MIGHT_MATCH) && does' == Count(status[..], DOES_MATCH)
    ensures consume
      <==> exists k :: 0 <= k < |keywords| && old(status[k]) == MIGHT_MATCH && Upper(keywords[k][indx]) == c
  {
    hide Count, Upper;
    consume, might', does' := false, might, does;
    for ky := 0 to |keywords|
      invariant forall k :: 0 <= k < ky ==> status[k] == Tested(old(status[k]), keywords[k], indx, c)
      invariant forall k :: ky <= k < |keywords| ==> status[k] == old(status[k])
      invariant might' == Count(status[..], MIGHT_MATCH) && does' == Count(status[..], DOES_MATCH)
      invariant consume <==> exists k :: 0 <= k < ky && old(status[k]) == MIGHT_MATCH && Upper(keywords[k][indx]) == c
    {
      ghost var before := status[..];
      if status[ky] == MIGHT_MATCH {
        if c == Upper(keywords[ky][indx]) {
          consume := true;
          if |keywords[ky]| == indx + 1 {
            status[ky] := DOES_MATCH;
            CountsWith(before, status[..], ky, DOES_MATCH);
            might', does' := might' - 1, does' + 1;
          }
        } else {
          status[ky] := DOESNT_MATCH;
          CountsWith(before, status[..], ky, DOESNT_MATCH);
          might' := might' - 1;
        }
      }
    }
  }

  /** Keywords matched before the last character was consumed match no longer. */
  method DropShorter(status: array<Status>, keywords: seq<string>, indx: nat, does: nat) returns (does': nat)
    requires status.Length == |keywords|
    requires does == Count(status[..], DOES_MATCH)
    modifies status
    ensures forall k :: 0 <= k < |keywords| ==> status[k] == Pruned(old(status[k]), keywords[k], indx)
    ensures Count(status[..], MIGHT_MATCH) == old(Count(status[..], MIGHT_MATCH))
    ensures does' == Count(status[..], DOES_MATCH)
  {
    hide Count;
    does' := does;
    for ky := 0 to |keywords|
      invariant forall k :: 0 <= k < ky ==> status[k] == Pruned(old(status[k]), keywords[k], indx)
      invariant forall k :: ky <= k < |keywords| ==> status[k] == old(status[k])
      invariant Count(status[..], MIGHT_MATCH) == old(Count(status[..], MIGHT_MATCH))
      invariant does' == Count(status[..], DOES_MATCH)
    {
      if status[ky] == DOES_MATCH && |keywords[ky]| != indx + 1 {
        ghost var before := status[..];
        status[ky] := DOESNT_MATCH;
        CountsWith(before, status[..], ky, DOESNT_MATCH);
        does' := does' - 1;
      }
    }
  }

  /** Two keywords still in the running make the two counters add up to 2 or more. */
  lemma TwoInTheRunning(status: seq<Status>, i: nat, j: nat)
    requires i < j < |status| && status[i] != DOESNT_MATCH && status[j] != DOESNT_MATCH
    ensures Count(status, MIGHT_MATCH) + Count(status, DOES_MATCH) > 1
  {
    assert status == status[..j] + status[j..];
    assert status[i] in status[..j] && status[j] in status[j..];
    assert status[i] in multiset(status[..j]) && status[j] in multiset(status[j..]);
  }

  /** Some keyword still matches after one more character, the statuses of the
      shorter ones dropped. */
  lemma ConsumedMeans(before: seq<Status>, after: seq<Status>, keywords: seq<string>, input: string, n: nat)
    requires n < |input| && Means(before, keywords, input, n, n) && |after| == |keywords|
    requires forall k :: 0 <= k < |keywords| ==>
      after[k] == Pruned(Tested(before[k], keywords[k], n, Upper(input[n])), keywords[k], n)
    ensures Means(after, keywords, input, n + 1, n + 1)
  {
    forall k | 0 <= k < |keywords|
      ensures after[k] == DOES_MATCH <==> |keywords[k]| == n + 1 && Matches(keywords[k], input, n + 1)
      ensures after[k] == MIGHT_MATCH <==> n + 1 < |keywords[k]| && Matches(keywords[k], input, n + 1)
    {
      MatchesOneMore(keywords[k], input, n);
    }
  }

  lemma MatchesOneMore(keyword: string, input: string, n: nat)
    requires n < |input|
    ensures Matches(keyword, input, n + 1)
      <==> Matches(keyword, input, n) && n < |keyword| && Upper(keyword[n]) == Upper(input[n])
  {
  }

  lemma {:induction false} MatchesFewer(keyword: string, input: string, n: nat, m: nat)
    requires n <= m && Matches(keyword, input, m)
    ensures Matches(keyword, input, n)
  {
  }

  /** When the counters add up to at most 1, there is nothing to drop. */
  lemma NothingToDrop(before: seq<Status>, tested: seq<Status>, keywords: seq<string>, input: string, n: nat)
    requires n < |input| && Means(before, keywords, input, n, n) && |tested| == |keywords|
    requires forall k :: 0 <= k < |keywords| ==> tested[k] == Tested(before[k], keywords[k], n, Upper(input[n]))
    requires Count(tested, MIGHT_MATCH) + Count(tested, DOES_MATCH) <= 1
    requires exists j :: 0 <= j < |keywords| && before[j] == MIGHT_MATCH && Upper(keywords[j][n]) == Upper(input[n])
    ensures forall k :: 0 <= k < |keywords| ==> tested[k] == Pruned(tested[k], keywords[k], n)
  {
    var j :| 0 <= j < |keywords| && before[j] == MIGHT_MATCH && Upper(keywords[j][n]) == Upper(input[n]);
    forall k | 0 <= k < |keywords| ensures tested[k] == Pruned(tested[k], keywords[k], n) {
      if k < j && tested[k] != DOESNT_MATCH {
        TwoInTheRunning(tested, k, j);
      } else if j < k && tested[k] != DOESNT_MATCH {
        TwoInTheRunning(tested, j, k);
      }
    }
  }

  /** When no keyword accepts the character, none is left that might match, and what
      was consumed is all that could be. */
  lemma RejectedMeans(before: seq<Status>, tested: seq<Status>, keywords: seq<string>, input: string, n: nat)
    requires n < |input| && Means(before, keywords, input, n, n) && |tested| == |keywords|
    requires forall k :: 0 <= k < |keywords| ==> tested[k] == Tested(before[k], keywords[k], n, Upper(input[n]))
    requires forall k :: 0 <= k < |keywords| && before[k] == MIGHT_MATCH ==> Upper(keywords[k][n]) != Upper(input[n])
    ensures Means(tested, keywords, input, n, n + 1)
    ensures Count(tested, MIGHT_MATCH) == 0
    ensures Longest(keywords, input, n)
  {
    assert MIGHT_MATCH !in tested;
    forall k, m: nat | 0 <= k < |keywords| && n < m ensures !Matches(keywords[k], input, m) {
      if Matches(keywords[k], input, m) {
        MatchesFewer(keywords[k], input, n + 1, m);
        MatchesOneMore(keywords[k], input, n);
      }
    }
  }

  /** With no keyword left that might match, the text consumed is the longest. */
  lemma NoneMight(status: seq<Status>, keywords: seq<string>, input: string, n: nat)
    requires Means(status, keywords, input, n, n) && Count(status, MIGHT_MATCH) == 0
    ensures Longest(keywords, input, n)
  {
    CountedIsThere(status, MIGHT_MATCH);
    forall k, m: nat | 0 <= k < |keywords| && n < m ensures !Matches(keywords[k], input, m) {
      assert status[k] != MIGHT_MATCH;
      if Matches(keywords[k], input, m) {
        MatchesFewer(keywords[k], input, n, m);
      }
    }
  }

  lemma CountedIsThere(s: seq<Status>, v: Status)
    ensures Count(s, v) > 0 <==> v in s
  {
  }

  lemma SomeMight(status: seq<Status>, keywords: seq<string>, input: string, n: nat)
    requires Means(status, keywords, input, n, n)
    ensures Count(status, MIGHT_MATCH) > 0 <==> Unfinished(keywords, input, n)
  {
    CountedIsThere(status, MIGHT_MATCH);
  }

  /** One round of the scan: the keywords against the character at position n. */
  method Advance(status: array<Status>, keywords: seq<string>, ghost input: string, n: nat, c: char,
                 might: nat, does: nat)
    returns (consume: bool, might': nat, does': nat)
    requires status.Length == |keywords|
    requires n < |input| && c == Upper(input[n])
    requires Means(status[..], keywords, input, n, n)
    requires might == Count(status[..], MIGHT_MATCH) && does == Count(status[..], DOES_MATCH)
    modifies status
    ensures Means(status[..], keywords, input, if consume then n + 1 else n, n + 1)
    ensures might' == Count(status[..], MIGHT_MATCH) && does' == Count(status[..], DOES_MATCH)
    ensures !consume ==> might' == 0 && Longest(keywords, input, n)
    ensures consume ==> Begins(keywords, input, n + 1)
  {
    ghost var before := status[..];
    consume, might', does' := TestKeywords(status, keywords, n, c, might, does);
    ghost var tested := status[..];
    if consume {
      ghost var j :| 0 <= j < |keywords| && before[j] == MIGHT_MATCH && Upper(keywords[j][n]) == c;
      MatchesOneMore(keywords[j], input, n);
      if might' + does' > 1 {
        does' := DropShorter(status, keywords, n, does');
      } else {
        NothingToDrop(before, tested, keywords, input, n);
      }
      ConsumedMeans(before, status[..], keywords, input, n);
    } else {
      RejectedMeans(before, tested, keywords, input, n);
    }
  }

  lemma LongestAtEnd(keywords: seq<string>, input: string)
    ensures Longest(keywords, input, |input|)
  {
  }

  lemma BeginsEmpty(keywords: seq<string>, input: string)
    ensures keywords != [] ==> Begins(keywords, input, 0)
  {
    if keywords != [] {
      assert Matches(keywords[0], input, 0);
    }
  }

  /** The statuses before anything is read: only the empty keyword matches. */
  method StartStatuses(keywords: seq<string>, ghost input: string)
    returns (status: array<Status>, might: nat, does: nat)
    ensures fresh(status) && status.Length == |keywords|
    ensures Means(status[..], keywords, input, 0, 0)
    ensures might == Count(status[..], MIGHT_MATCH) && does == Count(status[..], DOES_MATCH)
  {
    hide Count;
    status := new Status[|keywords|](_ => MIGHT_MATCH);
    might, does := |keywords|, 0;
    AllMight(status[..]);
    for k := 0 to |keywords|
      invariant forall i :: 0 <= i < k ==> status[i] == if keywords[i] == "" then DOES_MATCH else MIGHT_MATCH
      invariant forall i :: k <= i < |keywords| ==> status[i] == MIGHT_MATCH
      invariant might == Count(status[..], MIGHT_MATCH) && does == Count(status[..], DOES_MATCH)
    {
      if keywords[k] == "" {
        ghost var before := status[..];
        status[k] := DOES_MATCH;
        CountsWith(before, status[..], k, DOES_MATCH);
        might, does := might - 1, does + 1;
      }
    }
  }

  method ScanKeyword(input: InputStream, keywords: seq<string>) returns (ky: nat)
    requires input.Valid()
    modifies input
    ensures input.Valid() && old(input.pos) <= input.pos
    ensures input.pos - old(input.pos) <= |old(input.Rest())|
    // Nothing is read from a stream that has failed.
    ensures old(input.failbit) ==> input.pos == old(input.pos)
    // The text consumed begins some keyword, and no longer text does.
    ensures keywords != [] ==> Begins(keywords, old(input.Rest()), input.pos - old(input.pos))
    ensures !old(input.failbit) ==> Longest(keywords, old(input.Rest()), input.pos - old(input.pos))
    // The result is the first keyword equal to the text consumed, if there is one.
    ensures ky <= |keywords|
    ensures ky < |keywords| ==> Equals(keywords[ky], old(input.Rest()), input.pos - old(input.pos))
    ensures forall k :: 0 <= k < ky ==> !Equals(keywords[k], old(input.Rest()), input.pos - old(input.pos))
    ensures input.failbit == (old(input.failbit) || ky == |keywords|
      || (old(input.eofbit) && Unfinished(keywords, old(input.Rest()), 0)))
    // The end of the input is noticed when a longer keyword might still have matched.
    ensures input.eofbit == (old(input.eofbit)
      || (!old(input.failbit) && input.pos == |input.text|
        && Unfinished(keywords, old(input.Rest()), input.pos - old(input.pos))))
  {
    hide Means, Matches, Equals, Longest, Begins, Unfinished, Count;
    ghost var rest := input.Rest();
    ghost var start := input.pos;
    BeginsEmpty(keywords, rest);
    var status, nMight, nDoes := StartStatuses(keywords, rest);
    var indx := 0;
    SomeMight(status[..], keywords, rest, 0);
    if nMight == 0 {
      NoneMight(status[..], keywords, rest, 0);
    }
    while !input.failbit && nMight > 0
      invariant input.Valid() && start <= input.pos
      invariant indx == input.pos - start || (nMight == 0 && indx == input.pos - start + 1 && input.pos < |input.text|)
      invariant Means(status[..], keywords, rest, input.pos - start, indx)
      invariant nMight == Count(status[..], MIGHT_MATCH) && nDoes == Count(status[..], DOES_MATCH)
      invariant nMight == 0 ==> Longest(keywords, rest, input.pos - start)
      invariant keywords != [] ==> Begins(keywords, rest, input.pos - start)
      invariant input.failbit == old(input.failbit) && input.eofbit == old(input.eofbit)
      invariant input.failbit || input.eofbit ==> indx == 0
      decreases |rest| - indx, nMight
    {
      SomeMight(status[..], keywords, rest, indx);
      var ic := input.Peek();
      if ic == None {
        LongestAtEnd(keywords, rest);
        break;
      }
      var consume;
      consume, nMight, nDoes := Advance(status, keywords, rest, indx, Upper(ic.value), nMight, nDoes);
      if consume {
        input.pos := input.pos + 1;
        if nMight == 0 {
          NoneMight(status[..], keywords, rest, indx + 1);
        }
      }
      indx := indx + 1;
    }
    if nMight == 0 && indx == input.pos - start {
      SomeMight(status[..], keywords, rest, indx);
    }
    ky := FirstMatch(status, keywords, rest, input.pos - start, indx);
    if ky == |keywords| {
      input.failbit := true;
    }
  }

  /** The first keyword the scan ended on. */
  method FirstMatch(status: array<Status>, keywords: seq<string>, ghost input: string, ghost n: nat, ghost indx: nat)
    returns (ky: nat)
    requires status.Length == |keywords| && Means(status[..], keywords, input, n, indx)
    ensures ky <= |keywords|
    ensures ky < |keywords| ==> Equals(keywords[ky], input, n)
    ensures forall k :: 0 <= k < ky ==> !Equals(keywords[k], input, n)
  {
    ky := 0;
    while ky < |keywords| && status[ky] != DOES_MATCH
      invariant ky <= |keywords|
      invariant forall k :: 0 <= k < ky ==> status[k] != DOES_MATCH
    {
      ky := ky + 1;
    }
    assert Means(status[..], keywords, input, n, indx);
  }
}
