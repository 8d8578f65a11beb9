/**
 The quote-aware newline flattener of the CSV formatter.

 The scanner walks the text once, left to right, with one boolean of state
 ("inside a quoted field") and one character of lookahead. While inside a
 quoted field, every line break (`\n`, a lone `\r`, or a `\r\n` pair) becomes
 one space; everything else is copied through. A `"` toggles the state,
 except that a `""` pair met while inside is copied and keeps the state.
 */
module Flattener {

  const Quote: char := '"'
  const LineFeed: char := '\n'
  const CarriageReturn: char := '\r'
  const Space: char := ' '

  predicate IsLineBreak(c: char) {
    c == LineFeed || c == CarriageReturn
  }

  /** The scanner, from the current position to the end of the text, in state `inside`.
      Looking past the end of the text never sees a `"` or a `\n`. */
  function Flat(s: seq<char>, inside: bool): (r: seq<char>)
    ensures |r| <= |s| <= 2 * |r|
    decreases |s|
  {
    if |s| == 0 then
      []
    else if s[0] == Quote then
      if inside && 1 < |s| && s[1] == Quote then
        [Quote, Quote] + Flat(s[2..], inside)
      else
        [Quote] + Flat(s[1..], !inside)
    else if inside && IsLineBreak(s[0]) then
      if s[0] == CarriageReturn && 1 < |s| && s[1] == LineFeed then
        [Space] + Flat(s[2..], inside)
      else
        [Space] + Flat(s[1..], inside)
    else
      [s[0]] + Flat(s[1..], inside)
  }

  /** The flattener applied to one file's text: the scan starts outside any quoted field. */
  function Flatten(csvText: seq<char>): seq<char> {
    Flat(csvText, false)
  }

  // One step of the scanner at position `i`: what it emits and where it resumes,
  // also stated after an accumulated output `acc`, as the loop below builds it.

  lemma FlatAtPair(acc: seq<char>, s: seq<char>, i: nat, inside: bool)
    requires i + 1 < |s| && s[i] == Quote && s[i + 1] == Quote && inside
    ensures Flat(s[i..], inside) == [Quote, Quote] + Flat(s[i + 2..], inside)
    ensures acc + Flat(s[i..], inside) == (acc + [Quote, Quote]) + Flat(s[i + 2..], inside)
  {
    assert s[i..][2..] == s[i + 2..];
  }

  lemma FlatAtQuote(acc: seq<char>, s: seq<char>, i: nat, inside: bool)
    requires i < |s| && s[i] == Quote && !(inside && i + 1 < |s| && s[i + 1] == Quote)
    ensures Flat(s[i..], inside) == [Quote] + Flat(s[i + 1..], !inside)
    ensures acc + Flat(s[i..], inside) == (acc + [Quote]) + Flat(s[i + 1..], !inside)
  {
    assert s[i..][1..] == s[i + 1..];
  }

  lemma FlatAtCrLf(acc: seq<char>, s: seq<char>, i: nat, inside: bool)
    requires i + 1 < |s| && s[i] == CarriageReturn && s[i + 1] == LineFeed && inside
    ensures Flat(s[i..], inside) == [Space] + Flat(s[i + 2..], inside)
    ensures acc + Flat(s[i..], inside) == (acc + [Space]) + Flat(s[i + 2..], inside)
  {
    assert s[i..][2..] == s[i + 2..];
  }

  lemma FlatAtLineBreak(acc: seq<char>, s: seq<char>, i: nat, inside: bool)
    requires i < |s| && IsLineBreak(s[i]) && inside
    requires !(s[i] == CarriageReturn && i + 1 < |s| && s[i + 1] == LineFeed)
    ensures Flat(s[i..], inside) == [Space] + Flat(s[i + 1..], inside)
    ensures acc + Flat(s[i..], inside) == (acc + [Space]) + Flat(s[i + 1..], inside)
  {
    assert s[i..][1..] == s[i + 1..];
  }

  lemma FlatAtCopy(acc: seq<char>, s: seq<char>, i: nat, inside: bool)
    requires i < |s| && s[i] != Quote && !(inside && IsLineBreak(s[i]))
    ensures Flat(s[i..], inside) == [s[i]] + Flat(s[i + 1..], inside)
    ensures acc + Flat(s[i..], inside) == (acc + [s[i]]) + Flat(s[i + 1..], inside)
  {
    assert s[i..][1..] == s[i + 1..];
  }

  /** The loop of the source, index by index, with the in-body skip of the second
      character of a `""` or `\r\n` pair. */
  method FlattenNewlinesInCsv(csvText: seq<char>) returns (result: seq<char>)
    ensures result == Flatten(csvText)
    ensures |result| <= |csvText|
  {
    result := [];
    var insideQuote := false;
    var i := 0;
    while i < |csvText|
      invariant 0 <= i <= |csvText|
      invariant result + Flat(csvText[i..], insideQuote) == Flatten(csvText)
      decreases |csvText| - i
    {
      var ch := csvText[i];
      if ch == Quote {
        if insideQuote && i + 1 < |csvText| && csvText[i + 1] == Quote {
          FlatAtPair(result, csvText, i, insideQuote);
          result := result + [Quote, Quote];
          i := i + 2;
        } else {
          FlatAtQuote(result, csvText, i, insideQuote);
          insideQuote := !insideQuote;
          result := result + [ch];
          i := i + 1;
        }
      } else if insideQuote && (ch == LineFeed || ch == CarriageReturn) {
        if ch == CarriageReturn && i + 1 < |csvText| && csvText[i + 1] == LineFeed {
          FlatAtCrLf(result, csvText, i, insideQuote);
          i := i + 1;
        } else {
          FlatAtLineBreak(result, csvText, i, insideQuote);
        }
        result := result + [Space];
        i := i + 1;
      } else {
        FlatAtCopy(result, csvText, i, insideQuote);
        result := result + [ch];
        i := i + 1;
      }
    }
    assert csvText[i..] == [];
  }
}
