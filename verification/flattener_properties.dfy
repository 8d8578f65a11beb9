/**
 What the flattener promises: it is the identity on text without quotes and
 on text without line breaks, it only ever turns line breaks into spaces,
 its `""` escape rule makes no difference to the output, each output piece
 is fixed by the quote parity before it, and a second pass changes nothing.
 */
module FlattenerProperties {
  import opened Flattener

  /** Text that holds no `"`, `\n` or `\r`: the scanner copies it in either state. */
  predicate Plain(s: seq<char>) {
    forall i :: 0 <= i < |s| ==> s[i] != Quote && !IsLineBreak(s[i])
  }

  /** Text that holds no `\n` or `\r`. */
  predicate NoLineBreak(s: seq<char>) {
    forall i :: 0 <= i < |s| ==> !IsLineBreak(s[i])
  }

  /** `s` holds an even number of `"`, escaped pairs included. */
  predicate EvenQuotes(s: seq<char>) {
    multiset(s)[Quote] % 2 == 0
  }

  predicate IsBlank(c: char) {
    c == Space || IsLineBreak(c)
  }

  /** `s` with every space, `\n` and `\r` removed. */
  function Strip(s: seq<char>): (r: seq<char>)
    ensures forall i :: 0 <= i < |r| ==> !IsBlank(r[i])
    decreases |s|
  {
    if |s| == 0 then []
    else if IsBlank(s[0]) then Strip(s[1..])
    else [s[0]] + Strip(s[1..])
  }

  /** Text already in flattened form for a scan starting in state `inside`:
      no line break lies inside a quoted region, every `"` toggling the region. */
  predicate Settled(t: seq<char>, inside: bool)
    decreases |t|
  {
    if |t| == 0 then true
    else if t[0] == Quote then Settled(t[1..], !inside)
    else !(inside && IsLineBreak(t[0])) && Settled(t[1..], inside)
  }

  /** A scanner without the `""` escape rule: every `"` toggles the state. */
  function Toggle(s: seq<char>, inside: bool): seq<char>
    decreases |s|
  {
    if |s| == 0 then
      []
    else if s[0] == Quote then
      [Quote] + Toggle(s[1..], !inside)
    else if inside && IsLineBreak(s[0]) then
      if s[0] == CarriageReturn && 1 < |s| && s[1] == LineFeed then
        [Space] + Toggle(s[2..], inside)
      else
        [Space] + Toggle(s[1..], inside)
    else
      [s[0]] + Toggle(s[1..], inside)
  }

  // ---------------------------------------------------------------------------
  // A position-wise reference definition
  // ---------------------------------------------------------------------------

  /** Whether position `i` of `s` lies inside a quoted region for a scan that
      starts in state `start`: the start flag flipped once per `"` before `i`. */
  function InsideAt(s: seq<char>, i: nat, start: bool): bool
    requires i <= |s|
    decreases i
  {
    if i == 0 then start
    else if s[i - 1] == Quote then !InsideAt(s, i - 1, start)
    else InsideAt(s, i - 1, start)
  }

  /** The two spellings of quote parity agree: the position-wise flag at `i`
      is the start flag flipped once per `"` counted in `s[..i]`, as
      `EvenQuotes` counts them. */
  lemma {:induction false} InsideAtParity(s: seq<char>, i: nat, start: bool)
    requires i <= |s|
    ensures InsideAt(s, i, start) == (start != !EvenQuotes(s[..i]))
    decreases i
  {
    if i == 0 {
      assert s[..0] == [];
    } else {
      InsideAtParity(s, i - 1, start);
      assert s[..i] == s[..i - 1] + [s[i - 1]];
      assert multiset(s[..i]) == multiset(s[..i - 1]) + multiset{s[i - 1]};
    }
  }

  /** What the character at position `i` contributes to the output: a line
      break inside a quoted region becomes a space, except that the `\n` of an
      inside `\r\n` pair contributes nothing; every other character is kept. */
  function Emit(s: seq<char>, i: nat, start: bool): seq<char>
    requires i < |s|
  {
    if InsideAt(s, i, start) && s[i] == LineFeed then
      if 0 < i && s[i - 1] == CarriageReturn then [] else [Space]
    else if InsideAt(s, i, start) && s[i] == CarriageReturn then
      [Space]
    else
      [s[i]]
  }

  /** The contributions of positions `lo` .. `|s| - 1`, in order. */
  function RefFrom(s: seq<char>, lo: nat, start: bool): seq<char>
    requires lo <= |s|
    decreases |s| - lo
  {
    if lo == |s| then [] else Emit(s, lo, start) + RefFrom(s, lo + 1, start)
  }

  function Ref(s: seq<char>, start: bool): seq<char> {
    RefFrom(s, 0, start)
  }

  /** No position `lo` splits an inside `\r\n` pair. */
  predicate AtBoundary(s: seq<char>, lo: nat, start: bool)
    requires lo <= |s|
  {
    !(0 < lo < |s| && s[lo - 1] == CarriageReturn && s[lo] == LineFeed && InsideAt(s, lo, start))
  }

  /** From any position that does not split an inside `\r\n` pair, the scanner
      in the state given by the quote parity produces the reference output. */
  lemma {:induction false} FlatFromMatchesRef(s: seq<char>, lo: nat, start: bool)
    requires lo <= |s| && AtBoundary(s, lo, start)
    ensures Flat(s[lo..], InsideAt(s, lo, start)) == RefFrom(s, lo, start)
    decreases |s| - lo, 1
  {
    if lo < |s| {
      var q := InsideAt(s, lo, start);
      if s[lo] == Quote && q && lo + 1 < |s| && s[lo + 1] == Quote {
        EscapedPairStep(s, lo, start);
      } else if q && s[lo] == CarriageReturn && lo + 1 < |s| && s[lo + 1] == LineFeed {
        CrLfStep(s, lo, start);
      } else {
        SingleStep(s, lo, start);
      }
    }
  }

  lemma {:induction false} EscapedPairStep(s: seq<char>, lo: nat, start: bool)
    requires lo + 1 < |s| && s[lo] == Quote && s[lo + 1] == Quote && InsideAt(s, lo, start)
    ensures Flat(s[lo..], InsideAt(s, lo, start)) == RefFrom(s, lo, start)
    decreases |s| - lo, 0
  {
    var q := InsideAt(s, lo, start);
    assert InsideAt(s, lo + 1, start) == !q;
    assert InsideAt(s, lo + 2, start) == q;
    FlatFromMatchesRef(s, lo + 2, start);
    var rest := RefFrom(s, lo + 2, start);
    assert RefFrom(s, lo + 1, start) == [Quote] + rest by {
      assert Emit(s, lo + 1, start) == [Quote];
    }
    assert RefFrom(s, lo, start) == [Quote, Quote] + rest by {
      assert Emit(s, lo, start) == [Quote];
    }
    FlatAtPair([], s, lo, q);
  }

  lemma {:induction false} CrLfStep(s: seq<char>, lo: nat, start: bool)
    requires lo + 1 < |s| && s[lo] == CarriageReturn && s[lo + 1] == LineFeed && InsideAt(s, lo, start)
    ensures Flat(s[lo..], InsideAt(s, lo, start)) == RefFrom(s, lo, start)
    decreases |s| - lo, 0
  {
    var q := InsideAt(s, lo, start);
    var q1 := InsideAt(s, lo + 1, start);
    assert q1 == q;
    assert InsideAt(s, lo + 2, start) == q;
    FlatFromMatchesRef(s, lo + 2, start);
    var rest := RefFrom(s, lo + 2, start);
    assert Emit(s, lo + 1, start) == [];
    assert RefFrom(s, lo + 1, start) == rest;
    assert Emit(s, lo, start) == [Space];
    assert RefFrom(s, lo, start) == [Space] + rest;
    FlatAtCrLf([], s, lo, q);
  }

  /** Every step that consumes one character. */
  lemma {:induction false} SingleStep(s: seq<char>, lo: nat, start: bool)
    requires lo < |s| && AtBoundary(s, lo, start)
    requires !(s[lo] == Quote && InsideAt(s, lo, start) && lo + 1 < |s| && s[lo + 1] == Quote)
    requires !(s[lo] == CarriageReturn && InsideAt(s, lo, start) && lo + 1 < |s| && s[lo + 1] == LineFeed)
    ensures Flat(s[lo..], InsideAt(s, lo, start)) == RefFrom(s, lo, start)
    decreases |s| - lo, 0
  {
    var q := InsideAt(s, lo, start);
    var q' := InsideAt(s, lo + 1, start);
    if s[lo] == Quote {
      FlatAtQuote([], s, lo, q);
    } else if q && IsLineBreak(s[lo]) {
      FlatAtLineBreak([], s, lo, q);
    } else {
      FlatAtCopy([], s, lo, q);
    }
    assert Flat(s[lo..], q) == Emit(s, lo, start) + Flat(s[lo + 1..], q');
    FlatFromMatchesRef(s, lo + 1, start);
  }

  /** The scanner equals the position-wise reference definition. */
  lemma FlatMatchesRef(s: seq<char>, start: bool)
    ensures Flat(s, start) == Ref(s, start)
  {
    assert s[0..] == s;
    FlatFromMatchesRef(s, 0, start);
  }

  /** The flattener in the reference's terms: each `\n`, lone `\r` or `\r\n`
      at an odd quote count becomes one space, everything else is kept. */
  lemma FlattenIsRef(csvText: seq<char>)
    ensures Flatten(csvText) == Ref(csvText, false)
  {
    FlatMatchesRef(csvText, false);
  }

  // ---------------------------------------------------------------------------
  // The escape rule, identities, content and length
  // ---------------------------------------------------------------------------

  /** The `""` branch never changes the output: toggling twice on the pair
      emits the same two quotes and ends in the same state. */
  lemma {:induction false} EscapePairIsRedundant(s: seq<char>, inside: bool)
    ensures Flat(s, inside) == Toggle(s, inside)
    decreases |s|
  {
    if |s| == 0 {
    } else if s[0] == Quote {
      if inside && 1 < |s| && s[1] == Quote {
        EscapePairIsRedundant(s[2..], inside);
        assert s[1..][1..] == s[2..];
        assert Toggle(s[1..], !inside) == [Quote] + Toggle(s[2..], inside);
        assert [Quote, Quote] + Flat(s[2..], inside) == [Quote] + ([Quote] + Flat(s[2..], inside));
      } else {
        EscapePairIsRedundant(s[1..], !inside);
      }
    } else if inside && IsLineBreak(s[0]) {
      if s[0] == CarriageReturn && 1 < |s| && s[1] == LineFeed {
        EscapePairIsRedundant(s[2..], inside);
      } else {
        EscapePairIsRedundant(s[1..], inside);
      }
    } else {
      EscapePairIsRedundant(s[1..], inside);
    }
  }

  /** Text without any `"` is returned unchanged, line breaks included. */
  lemma {:induction false} NoQuoteIdentity(s: seq<char>)
    requires forall i :: 0 <= i < |s| ==> s[i] != Quote
    ensures Flatten(s) == s
    decreases |s|
  {
    if |s| > 0 {
      assert forall i :: 0 <= i < |s[1..]| ==> s[1..][i] == s[i + 1];
      NoQuoteIdentity(s[1..]);
    }
  }

  /** Text without any line break is returned unchanged in either state;
      in particular a field with escaped quotes such as `"a""b"` is kept. */
  lemma {:induction false} NoLineBreakIdentity(s: seq<char>, inside: bool)
    requires NoLineBreak(s)
    ensures Flat(s, inside) == s
    decreases |s|
  {
    if |s| > 0 {
      assert forall i :: 0 <= i < |s[1..]| ==> s[1..][i] == s[i + 1];
      if s[0] == Quote && inside && 1 < |s| && s[1] == Quote {
        assert forall i :: 0 <= i < |s[2..]| ==> s[2..][i] == s[i + 2];
        NoLineBreakIdentity(s[2..], inside);
        assert s == [Quote, Quote] + s[2..];
      } else if s[0] == Quote {
        NoLineBreakIdentity(s[1..], !inside);
      } else {
        NoLineBreakIdentity(s[1..], inside);
      }
    }
  }

  /** Apart from spaces and line breaks, the output holds exactly the input's
      characters in the input's order: every `"` survives, none is added. */
  lemma {:induction false} StripPreserved(s: seq<char>, inside: bool)
    ensures Strip(Flat(s, inside)) == Strip(s)
    decreases |s|
  {
    if |s| > 0 {
      var r := Flat(s, inside);
      if s[0] == Quote && inside && 1 < |s| && s[1] == Quote {
        StripPreserved(s[2..], inside);
        assert r[1..][1..] == Flat(s[2..], inside);
        assert s[1..][1..] == s[2..];
      } else if s[0] == Quote {
        StripPreserved(s[1..], !inside);
        assert r[1..] == Flat(s[1..], !inside);
      } else if inside && IsLineBreak(s[0]) {
        if s[0] == CarriageReturn && 1 < |s| && s[1] == LineFeed {
          StripPreserved(s[2..], inside);
          assert r[1..] == Flat(s[2..], inside);
          assert s[1..][1..] == s[2..];
        } else {
          StripPreserved(s[1..], inside);
          assert r[1..] == Flat(s[1..], inside);
        }
      } else {
        StripPreserved(s[1..], inside);
        assert r[1..] == Flat(s[1..], inside);
      }
    }
  }

  /** Position `i` holds the `\n` of a `\r\n` pair that lies inside a quoted region. */
  predicate InsideCrLfAt(s: seq<char>, i: nat, start: bool)
    requires i < |s|
  {
    0 < i && s[i - 1] == CarriageReturn && s[i] == LineFeed && InsideAt(s, i, start)
  }

  /** The number of inside `\r\n` pairs whose `\n` lies at position `lo` or later. */
  function InsideCrLfCount(s: seq<char>, lo: nat, start: bool): nat
    requires lo <= |s|
    decreases |s| - lo
  {
    if lo == |s| then 0
    else (if InsideCrLfAt(s, lo, start) then 1 else 0) + InsideCrLfCount(s, lo + 1, start)
  }

  lemma {:induction false} RefFromLength(s: seq<char>, lo: nat, start: bool)
    requires lo <= |s|
    ensures |RefFrom(s, lo, start)| == |s| - lo - InsideCrLfCount(s, lo, start)
    decreases |s| - lo
  {
    if lo < |s| {
      RefFromLength(s, lo + 1, start);
      assert |Emit(s, lo, start)| == if InsideCrLfAt(s, lo, start) then 0 else 1;
    }
  }

  /** The output is exactly one character shorter than the input per `\r\n`
      pair inside a quoted region; every other step keeps the length. */
  lemma LengthDropsByInsideCrLf(s: seq<char>, start: bool)
    ensures |Flat(s, start)| == |s| - InsideCrLfCount(s, 0, start)
  {
    FlatMatchesRef(s, start);
    RefFromLength(s, 0, start);
  }

  lemma {:induction false} NoInsideCrLfCountsZero(s: seq<char>, lo: nat, start: bool)
    requires lo <= |s|
    requires forall i :: lo <= i < |s| ==> !InsideCrLfAt(s, i, start)
    ensures InsideCrLfCount(s, lo, start) == 0
    decreases |s| - lo
  {
    if lo < |s| {
      NoInsideCrLfCountsZero(s, lo + 1, start);
    }
  }

  /** Text without a `\r\n` pair inside a quoted region keeps its length
      exactly, whatever `\r\n` record separators it has outside quotes. */
  lemma LengthKeptWithoutInsideCrLf(s: seq<char>, start: bool)
    requires forall i :: 0 <= i < |s| ==> !InsideCrLfAt(s, i, start)
    ensures |Flat(s, start)| == |s|
  {
    NoInsideCrLfCountsZero(s, 0, start);
    LengthDropsByInsideCrLf(s, start);
  }

  /** Plain text is copied through in either state and leaves the state alone. */
  lemma {:induction false} PlainPrefix(a: seq<char>, t: seq<char>, inside: bool)
    requires Plain(a)
    ensures Flat(a + t, inside) == a + Flat(t, inside)
    decreases |a|
  {
    if |a| > 0 {
      var c, rest := a[0], a[1..];
      PlainTail(a);
      PlainPrefix(rest, t, inside);
      assert a + t == [c] + (rest + t);
      CopyStep(c, rest + t, inside);
      assert a == [c] + rest;
    } else {
      assert a + t == t;
    }
  }

  lemma PlainTail(a: seq<char>)
    requires Plain(a) && |a| > 0
    ensures Plain(a[1..]) && a[0] != Quote && !IsLineBreak(a[0])
  {
    forall i | 0 <= i < |a[1..]|
      ensures a[1..][i] != Quote && !IsLineBreak(a[1..][i])
    {
      assert a[1..][i] == a[i + 1];
    }
  }

  lemma CopyStep(c: char, t: seq<char>, inside: bool)
    requires c != Quote && !IsLineBreak(c)
    ensures Flat([c] + t, inside) == [c] + Flat(t, inside)
  {
    assert ([c] + t)[1..] == t;
  }

  /** Text without line breaks is copied through by the toggling scanner,
      which leaves it flipped once per `"` of that text. */
  lemma {:induction false} ToggleNoBreakPrefix(a: seq<char>, t: seq<char>, inside: bool)
    requires NoLineBreak(a)
    ensures Toggle(a + t, inside) == a + Toggle(t, inside != (multiset(a)[Quote] % 2 == 1))
    decreases |a|
  {
    if |a| == 0 {
      assert a + t == t;
      assert multiset(a) == multiset{};
    } else {
      var c, rest := a[0], a[1..];
      NoLineBreakTail(a);
      var next := if c == Quote then !inside else inside;
      assert a + t == [c] + (rest + t);
      ToggleCons(c, rest + t, inside);
      ToggleNoBreakPrefix(rest, t, next);
      QuoteParityStep(a, inside);
      assert a == [c] + rest;
    }
  }

  lemma NoLineBreakTail(a: seq<char>)
    requires NoLineBreak(a) && |a| > 0
    ensures NoLineBreak(a[1..]) && !IsLineBreak(a[0])
  {
    forall i | 0 <= i < |a[1..]| ensures !IsLineBreak(a[1..][i]) {
      assert a[1..][i] == a[i + 1];
    }
  }

  lemma ToggleCons(c: char, t: seq<char>, inside: bool)
    requires !IsLineBreak(c)
    ensures Toggle([c] + t, inside) == [c] + Toggle(t, if c == Quote then !inside else inside)
  {
    assert ([c] + t)[1..] == t;
  }

  lemma QuoteParityStep(a: seq<char>, inside: bool)
    requires |a| > 0
    ensures (inside != (multiset(a)[Quote] % 2 == 1))
         == ((if a[0] == Quote then !inside else inside) != (multiset(a[1..])[Quote] % 2 == 1))
  {
    assert a == [a[0]] + a[1..];
    assert multiset(a) == multiset{a[0]} + multiset(a[1..]);
  }

  /** A quoted field `"A\nB"` followed by a record separator, where `A` and `B`
      have no line break and only balanced quotes (escaped `""` pairs, say):
      the embedded newline becomes one space, the separator after the closing
      quote stays. */
  lemma QuotedNewlineBecomesSpace(a: seq<char>, b: seq<char>)
    requires NoLineBreak(a) && EvenQuotes(a)
    requires NoLineBreak(b) && EvenQuotes(b)
    ensures Flatten([Quote] + a + [LineFeed] + b + [Quote, LineFeed])
         == [Quote] + a + [Space] + b + [Quote, LineFeed]
  {
    var tail := [Quote, LineFeed];
    var bt := b + tail;
    ToggleClosingQuoteThenNewline();
    ToggleNoBreakPrefix(b, tail, true);
    assert Toggle(bt, true) == bt;
    var m := [LineFeed] + bt;
    ToggleInsideLineFeed(bt);
    var am := a + m;
    ToggleNoBreakPrefix(a, m, true);
    ToggleOpeningQuote(am);
    assert Toggle([Quote] + am, false) == [Quote] + (a + ([Space] + bt));
    assert [Quote] + a + [LineFeed] + b + tail == [Quote] + am;
    assert [Quote] + a + [Space] + b + tail == [Quote] + (a + ([Space] + bt));
    EscapePairIsRedundant([Quote] + am, false);
  }

  lemma ToggleOpeningQuote(t: seq<char>)
    ensures Toggle([Quote] + t, false) == [Quote] + Toggle(t, true)
  {
    assert ([Quote] + t)[1..] == t;
  }

  lemma ToggleInsideLineFeed(t: seq<char>)
    ensures Toggle([LineFeed] + t, true) == [Space] + Toggle(t, true)
  {
    assert ([LineFeed] + t)[1..] == t;
  }

  lemma ToggleClosingQuoteThenNewline()
    ensures Toggle([Quote, LineFeed], true) == [Quote, LineFeed]
  {
    assert [Quote, LineFeed][1..] == [LineFeed];
    assert Toggle([LineFeed], false) == [LineFeed];
  }

  /** An unterminated quote is no error: the newline after it is taken as
      field content and becomes a space, also after escaped `""` pairs. */
  lemma UnterminatedQuote(a: seq<char>)
    requires NoLineBreak(a) && EvenQuotes(a)
    ensures Flatten([Quote] + a + [LineFeed]) == [Quote] + a + [Space]
  {
    ToggleNoBreakPrefix(a, [LineFeed], true);
    ToggleInsideLineFeed([]);
    assert [LineFeed] + [] == [LineFeed];
    ToggleOpeningQuote(a + [LineFeed]);
    assert [Quote] + a + [LineFeed] == [Quote] + (a + [LineFeed]);
    assert [Quote] + (a + [Space]) == [Quote] + a + [Space];
    EscapePairIsRedundant([Quote] + a + [LineFeed], false);
  }

  /** The escaped-quote field with an embedded newline: `"a""b\nc"\n`
      becomes `"a""b c"\n`. */
  lemma EscapedQuoteWithNewline()
    ensures Flatten("\"a\"\"b\nc\"\n") == "\"a\"\"b c\"\n"
  {
    var a := ['a', Quote, Quote, 'b'];
    var c := ['c'];
    assert EvenQuotes(a) && NoLineBreak(a) by {
      assert multiset(a)[Quote] == 2;
    }
    QuotedNewlineBecomesSpace(a, c);
    assert [Quote] + a + [LineFeed] + c + [Quote, LineFeed] == "\"a\"\"b\nc\"\n";
    assert [Quote] + a + [Space] + c + [Quote, LineFeed] == "\"a\"\"b c\"\n";
  }

  // ---------------------------------------------------------------------------
  // Idempotence
  // ---------------------------------------------------------------------------

  /** The output never has a line break inside a quoted region. */
  lemma {:induction false} FlatIsSettled(s: seq<char>, inside: bool)
    ensures Settled(Flat(s, inside), inside)
    decreases |s|
  {
    if |s| > 0 {
      var r := Flat(s, inside);
      if s[0] == Quote && inside && 1 < |s| && s[1] == Quote {
        FlatIsSettled(s[2..], inside);
        assert r[1..][1..] == Flat(s[2..], inside);
      } else if s[0] == Quote {
        FlatIsSettled(s[1..], !inside);
        assert r[1..] == Flat(s[1..], !inside);
      } else if inside && IsLineBreak(s[0]) {
        if s[0] == CarriageReturn && 1 < |s| && s[1] == LineFeed {
          FlatIsSettled(s[2..], inside);
          assert r[1..] == Flat(s[2..], inside);
        } else {
          FlatIsSettled(s[1..], inside);
          assert r[1..] == Flat(s[1..], inside);
        }
      } else {
        FlatIsSettled(s[1..], inside);
        assert r[1..] == Flat(s[1..], inside);
      }
    }
  }

  /** The scanner leaves a text unchanged exactly when the text is settled. */
  lemma {:induction false} FixedPointIffSettled(t: seq<char>, inside: bool)
    ensures Flat(t, inside) == t <==> Settled(t, inside)
    decreases |t|
  {
    if |t| > 0 {
      var r := Flat(t, inside);
      if t[0] == Quote && inside && 1 < |t| && t[1] == Quote {
        FixedPointIffSettled(t[2..], inside);
        assert t[1..][1..] == t[2..];
        assert r[2..] == Flat(t[2..], inside);
        assert t == [Quote, Quote] + t[2..];
        if r == t {
          assert r[2..] == t[2..];
        }
      } else if t[0] == Quote {
        FixedPointIffSettled(t[1..], !inside);
        assert r[1..] == Flat(t[1..], !inside);
        assert t == [t[0]] + t[1..];
        if r == t {
          assert r[1..] == t[1..];
        }
      } else if inside && IsLineBreak(t[0]) {
        assert r[0] == Space;
      } else {
        FixedPointIffSettled(t[1..], inside);
        assert r[1..] == Flat(t[1..], inside);
        assert t == [t[0]] + t[1..];
        if r == t {
          assert r[1..] == t[1..];
        }
      }
    }
  }

  /** A second pass changes nothing. */
  lemma {:induction false} FlatIdempotent(s: seq<char>, inside: bool)
    ensures Flat(Flat(s, inside), inside) == Flat(s, inside)
  {
    FlatIsSettled(s, inside);
    FixedPointIffSettled(Flat(s, inside), inside);
  }

  lemma FlattenIdempotent(csvText: seq<char>)
    ensures Flatten(Flatten(csvText)) == Flatten(csvText)
  {
    FlatIdempotent(csvText, false);
  }
}
