/** Lines of text. */
module Text {
  import opened Options

  const LOWER_CASE := "abcdefghijklmnopqrstuvwxyz"
  const UPPER_CASE := "ABCDEFGHIJKLMNOPQRSTUVWXYZ"

  /** The text before the first newline: what `.*` matches. */
  function UpToNewline(line: string): string {
    if line == "" || line[0] == '\n' then "" else [line[0]] + UpToNewline(line[1..])
  }

  predicate NewlineFree(text: string) {
    '\n' !in text
  }

  lemma {:induction false} UpToNewlineAfter(text: string, after: string)
    requires NewlineFree(text)
    ensures UpToNewline(text + after) == text + UpToNewline(after)
    decreases |text|
  {
    if text == "" {
      assert text + after == after;
    } else {
      assert text[0] in text && (forall c :: c in text[1..] ==> c in text);
      assert (text + after)[1..] == text[1..] + after;
      UpToNewlineAfter(text[1..], after);
      assert [text[0]] + (text[1..] + UpToNewline(after)) == text + UpToNewline(after);
    }
  }

  /** The text before the first newline begins the line, and ends there. */
  lemma {:induction false} UpToNewlineParts(line: string)
    ensures UpToNewline(line) <= line && NewlineFree(UpToNewline(line))
    ensures |line| > |UpToNewline(line)| ==> line[|UpToNewline(line)|] == '\n'
  {
    if line != "" && line[0] != '\n' {
      UpToNewlineParts(line[1..]);
    }
  }

  /** Decimal digits of a number. */
  function Decimal(n: nat): string {
    if n < 10 then [Digit(n)] else Decimal(n / 10) + [Digit(n % 10)]
  }

  function Digit(d: nat): char
    requires d < 10
  {
    "0123456789"[d]
  }

  function DigitValue(c: char): Option<nat> {
    if '0' <= c <= '9' then Some(c as nat - '0' as nat) else None
  }

  /** Python's `int` on a text of decimal digits; any other text raises here. */
  function ParseInt(text: string): Option<nat> {
    if text == "" then None
    else
      var d :- DigitValue(text[|text| - 1]);
      if |text| == 1 then Some(d)
      else
        var front :- ParseInt(text[..|text| - 1]);
        Some(front * 10 + d)
  }

  /** One digit or more, and nothing else. */
  predicate IsNumber(text: string) {
    text != "" && forall c :: c in text ==> c in "0123456789"
  }

  lemma {:induction false} ParseIntIff(text: string)
    ensures ParseInt(text).Some? <==> IsNumber(text)
    decreases |text|
  {
    if text != "" {
      var last := |text| - 1;
      var front, c := text[..last], text[last];
      assert text == front + [c];
      DigitIff(c);
      hide DigitValue;
      if last > 0 {
        ParseIntIff(front);
      }
    }
  }

  lemma DigitIff(c: char)
    ensures DigitValue(c).Some? <==> c in "0123456789"
  {
    var digits := "0123456789";
    if DigitValue(c).Some? {
      assert digits[DigitValue(c).value] == c;
    }
  }

  lemma {:induction false} ParseDecimal(n: nat)
    ensures Decimal(n) != "" && ParseInt(Decimal(n)) == Some(n)
  {
    hide Digit, DigitValue;
    DigitIsParsed(n % 10);
    if n >= 10 {
      ParseDecimal(n / 10);
      var text := Decimal(n);
      assert text[..|text| - 1] == Decimal(n / 10);
    }
  }

  lemma DigitIsParsed(d: nat)
    requires d < 10
    ensures DigitValue(Digit(d)) == Some(d)
  {
    assert Digit(d) as nat == '0' as nat + d;
  }
}
