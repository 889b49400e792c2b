/**
 Printing and parsing format strings: what was parsed is in normal form, printing a normal form and
 parsing it gives it back, so printing what was parsed and parsing it again changes nothing.
 */
module FormatRoundTrip {
  import opened LogRecord
  import opened FormatString

  /** No empty text, and no two texts next to each other. */
  ghost predicate Canonical(fragments: seq<Fragment>) {
    && (forall i :: 0 <= i < |fragments| && fragments[i].Literal? ==> fragments[i].text != [])
    && (forall i :: 0 <= i < |fragments| - 1 && fragments[i].Literal? ==> fragments[i + 1].Parameter?)
  }

  // ---------- printing ----------

  function Twice(c: char): string {
    if c == '{' || c == '}' then [c, c] else [c]
  }

  function Doubled(text: string): string {
    if text == [] then [] else Twice(text[0]) + Doubled(text[1..])
  }

  function HintText(hint: Hint): string {
    match hint
    case Default => "" case LowerHex => ":x" case UpperHex => ":X" case Ip => ":i"
    case LowerMac => ":mac" case UpperMac => ":MAC" case Pointer => ":p"
  }

  function PrintOne(f: Fragment): string {
    match f
    case Literal(text) => Doubled(text)
    case Parameter(hint) => "{" + HintText(hint) + "}"
  }

  function Print(fragments: seq<Fragment>): string {
    if fragments == [] then [] else PrintOne(fragments[0]) + Print(fragments[1..])
  }

  // ---------- literals ----------

  lemma {:induction false} DoubledPasses(text: string)
    ensures CheckBraces(Doubled(text), false, false) == Ok(())
  {
    if text != [] {
      var rest := Doubled(text[1..]);
      DoubledPasses(text[1..]);
      var s := Twice(text[0]) + rest;
      if |Twice(text[0])| == 2 {
        assert s[1..] == [text[0]] + rest && s[1..][1..] == rest;
      } else {
        assert s[1..] == rest;
      }
    }
  }

  // Only closing braces doubled: what is left when pairs of opening braces were undoubled.
  function HalfDoubled(text: string): string {
    if text == [] then []
    else (if text[0] == '}' then ['}', '}'] else [text[0]]) + HalfDoubled(text[1..])
  }

  lemma {:induction false} UndoubledOpen(text: string)
    ensures Undoubled(Doubled(text), '{') == HalfDoubled(text)
  {
    if text != [] {
      var rest := Doubled(text[1..]);
      UndoubledOpen(text[1..]);
      var s := Twice(text[0]) + rest;
      if text[0] == '{' {
        assert s[2..] == rest;
      } else if text[0] == '}' {
        assert s[1..] == ['}'] + rest && s[1..][1..] == rest;
        assert Undoubled(s, '{') == ['}'] + Undoubled(s[1..], '{');
        assert ['}'] + (['}'] + HalfDoubled(text[1..])) == ['}', '}'] + HalfDoubled(text[1..]);
      } else {
        assert s[1..] == rest;
      }
    }
  }

  lemma {:induction false} UndoubledClose(text: string)
    ensures Undoubled(HalfDoubled(text), '}') == text
  {
    if text != [] {
      var rest := HalfDoubled(text[1..]);
      UndoubledClose(text[1..]);
      var s := HalfDoubled(text);
      if text[0] == '}' {
        assert s[2..] == rest;
      } else {
        assert s[1..] == rest;
      }
    }
  }

  /** Text with its braces doubled is a literal that reads as the text. */
  lemma LiteralReadsBack(text: string)
    ensures LiteralOf(Doubled(text)) == Ok(Literal(text))
  {
    DoubledPasses(text);
    UndoubledOpen(text);
    UndoubledClose(text);
  }

  lemma ParameterReadsBack(hint: Hint)
    ensures ParameterOf(HintText(hint)) == Ok(Parameter(hint))
    ensures '{' !in HintText(hint) && '}' !in HintText(hint)
  {
  }

  // ---------- scanning ----------

  /** Characters other than `{` are passed over. */
  lemma {:induction false} SkipPlain(s: string, end: nat, from: nat, to: nat)
    requires end <= |s| && from <= to <= |s| && '{' !in s[from..to]
    ensures ParseFrom(s, end, from) == ParseFrom(s, end, to)
    decreases |s| - from
  {
    if from < to {
      assert s[from..to][0] == s[from];
      assert s[from + 1..to] == s[from..to][1..];
      SkipPlain(s, end, from + 1, to);
    }
  }

  /** Text with doubled braces is passed over. */
  lemma {:induction false} SkipDoubled(s: string, end: nat, from: nat, text: string)
    requires end <= |s| && from + |Doubled(text)| <= |s| && s[from..from + |Doubled(text)|] == Doubled(text)
    ensures ParseFrom(s, end, from) == ParseFrom(s, end, from + |Doubled(text)|)
    decreases |text|
  {
    hide ParseFrom;
    if text != [] {
      var first, n := Twice(text[0]), |Doubled(text)|;
      var part := s[from..from + n];
      assert s[from] == part[0] && part[0] == first[0];
      if |first| == 2 {
        assert s[from + 1] == part[1] && part[1] == first[1];
      }
      assert part[|first|..] == Doubled(text[1..]);
      assert s[from + |first|..from + n] == part[|first|..];
      SkipFirst(s, end, from, |first|);
      SkipDoubled(s, end, from + |first|, text[1..]);
    }
  }

  /** One plain character, or two equal braces, are passed over. */
  lemma SkipFirst(s: string, end: nat, from: nat, n: nat)
    requires end <= |s| && 1 <= n <= 2 && from + n <= |s|
    requires if n == 1 then s[from] != '{' else s[from] == s[from + 1]
    ensures ParseFrom(s, end, from) == ParseFrom(s, end, from + n)
  {
  }

  lemma {:induction false} FindAt(s: string, c: char, i: nat, at: nat)
    requires i <= at < |s| && s[at] == c && forall j :: i <= j < at ==> s[j] != c
    ensures Find(s, c, i) == at
    decreases |s| - i
  {
  }

  /** A printed parameter at `pos` is parsed, and the scan goes on after it. */
  lemma ParameterStep(s: string, end: nat, pos: nat, hint: Hint)
    requires end <= pos && pos + 2 + |HintText(hint)| <= |s|
    requires s[pos..pos + 2 + |HintText(hint)|] == "{" + HintText(hint) + "}"
    requires Before(s, end, pos).Ok?
    ensures
      var after := pos + 2 + |HintText(hint)|;
      ParseFrom(s, end, pos) == Prepend(Before(s, end, pos).value + [Parameter(hint)], ParseFrom(s, after, after))
  {
    hide HintText, Before, ParameterOf;
    var text := HintText(hint);
    var after := pos + 2 + |text|;
    var part := s[pos..after];
    ParameterReadsBack(hint);
    assert s[pos] == part[0] && s[after - 1] == part[|text| + 1];
    assert s[pos + 1..after - 1] == part[1..|text| + 1] == text;
    forall j | pos < j < after - 1
      ensures s[j] != '{' && s[j] != '}'
    {
      assert s[j] == text[j - pos - 1];
    }
    assert s[pos + 1] != '{';
    FindAt(s, '}', pos + 1, after - 1);
    assert '{' !in s[pos + 1..after];
    SkipPlain(s, after, pos + 1, after);
  }

  // ---------- the round trips ----------

  function Pending(s: string, end: nat, pos: nat): seq<Fragment>
    requires end <= pos <= |s| && Before(s, end, pos).Ok?
  {
    Before(s, end, pos).value
  }

  lemma {:induction false} ParsesFrom(fragments: seq<Fragment>, s: string, end: nat, pos: nat)
    requires Canonical(fragments) && end <= pos <= |s| && s[pos..] == Print(fragments)
    requires end < pos ==> fragments == [] || fragments[0].Parameter?
    requires Before(s, end, pos).Ok?
    ensures ParseFrom(s, end, pos) == Ok(Pending(s, end, pos) + fragments)
    decreases |fragments|
  {
    hide *;
    PendingIs(s, end, pos);
    if fragments == [] {
      PrintNothing(s, pos);
      AtTheEnd(s, end);
      assert Pending(s, end, pos) + [] == Pending(s, end, pos);
    } else {
      var rest, printed := fragments[1..], PrintOne(fragments[0]);
      var after := pos + |printed|;
      PrintedFront(s, pos, fragments);
      CanonicalRest(fragments);
      assert fragments == [fragments[0]] + rest;
      match fragments[0]
      case Parameter(hint) =>
        NothingBefore(s, after);
        ParsesFrom(rest, s, after, after);
        ParameterCase(s, end, pos, hint, rest);
      case Literal(text) =>
        LiteralBefore(s, end, after, text);
        ParsesFrom(rest, s, end, after);
        LiteralCase(s, end, text, rest);
        NothingBefore(s, pos);
    }
  }

  lemma PendingIs(s: string, end: nat, pos: nat)
    requires end <= pos <= |s| && Before(s, end, pos).Ok?
    ensures Pending(s, end, pos) == Before(s, end, pos).value
  {
  }

  lemma PrintNothing(s: string, pos: nat)
    requires pos <= |s| && s[pos..] == Print([])
    ensures pos == |s|
  {
  }

  lemma AtTheEnd(s: string, end: nat)
    requires end <= |s| && Before(s, end, |s|).Ok?
    ensures ParseFrom(s, end, |s|) == Before(s, end, |s|)
  {
  }

  lemma NothingBefore(s: string, pos: nat)
    requires pos <= |s|
    ensures Before(s, pos, pos) == Ok([]) && Pending(s, pos, pos) == []
  {
  }

  lemma LiteralBefore(s: string, end: nat, pos: nat, text: string)
    requires end <= pos <= |s| && s[end..pos] == Doubled(text) && text != []
    ensures end < pos && Before(s, end, pos) == Ok([Literal(text)]) && Pending(s, end, pos) == [Literal(text)]
  {
    LiteralReadsBack(text);
    DoubledNotEmpty(text);
  }

  lemma CanonicalRest(fragments: seq<Fragment>)
    requires Canonical(fragments) && fragments != []
    ensures Canonical(fragments[1..])
    ensures fragments[0].Literal? ==> fragments[0].text != [] && (fragments[1..] == [] || fragments[1..][0].Parameter?)
  {
  }

  lemma PrintedFront(s: string, pos: nat, fragments: seq<Fragment>)
    requires pos <= |s| && fragments != [] && s[pos..] == Print(fragments)
    ensures
      var printed := PrintOne(fragments[0]);
      pos + |printed| <= |s| && s[pos..pos + |printed|] == printed && s[pos + |printed|..] == Print(fragments[1..])
    ensures match fragments[0]
      case Literal(text) => PrintOne(fragments[0]) == Doubled(text)
      case Parameter(hint) => PrintOne(fragments[0]) == "{" + HintText(hint) + "}"
  {
    hide Doubled, HintText;
    var printed := PrintOne(fragments[0]);
    assert s[pos + |printed|..] == s[pos..][|printed|..];
    assert s[pos..pos + |printed|] == s[pos..][..|printed|];
  }

  lemma ParameterCase(s: string, end: nat, pos: nat, hint: Hint, rest: seq<Fragment>)
    requires end <= pos && pos + 2 + |HintText(hint)| <= |s|
    requires s[pos..pos + 2 + |HintText(hint)|] == "{" + HintText(hint) + "}"
    requires Before(s, end, pos).Ok?
    requires var after := pos + 2 + |HintText(hint)|; ParseFrom(s, after, after) == Ok([] + rest)
    ensures ParseFrom(s, end, pos) == Ok(Pending(s, end, pos) + ([Parameter(hint)] + rest))
  {
    hide HintText, Before, ParseFrom;
    ParameterStep(s, end, pos, hint);
    assert Pending(s, end, pos) + [Parameter(hint)] + ([] + rest) == Pending(s, end, pos) + ([Parameter(hint)] + rest);
  }

  lemma LiteralCase(s: string, end: nat, text: string, rest: seq<Fragment>)
    requires end + |Doubled(text)| <= |s| && s[end..end + |Doubled(text)|] == Doubled(text)
    requires ParseFrom(s, end, end + |Doubled(text)|) == Ok([Literal(text)] + rest)
    ensures ParseFrom(s, end, end) == Ok([] + ([Literal(text)] + rest))
  {
    hide ParseFrom, Doubled;
    SkipDoubled(s, end, end, text);
    assert [] + ([Literal(text)] + rest) == [Literal(text)] + rest;
  }

  lemma DoubledNotEmpty(text: string)
    requires text != []
    ensures Doubled(text) != []
  {
  }

  /** Parsing what was printed gives back the fragments. */
  lemma PrintThenParse(fragments: seq<Fragment>)
    requires Canonical(fragments)
    ensures ParseSpec(Print(fragments)) == Ok(fragments)
  {
    var s := Print(fragments);
    assert s[0..] == s;
    ParsesFrom(fragments, s, 0, 0);
    assert [] + fragments == fragments;
  }

  lemma LiteralNotEmpty(s: string)
    requires s != [] && LiteralOf(s).Ok?
    ensures LiteralOf(s).value.Literal? && LiteralOf(s).value.text != []
  {
  }

  /** What is parsed is in normal form. */
  lemma {:induction false} ParsedIsCanonical(s: string, end: nat, pos: nat)
    requires end <= |s| && pos <= |s| && ParseFrom(s, end, pos).Ok?
    ensures Canonical(ParseFrom(s, end, pos).value)
    decreases |s| - pos
  {
    hide LiteralOf, HintNamed;
    if pos == |s| {
      if end < pos {
        LiteralNotEmpty(s[end..pos]);
      }
    } else if s[pos] != '{' {
      ParsedIsCanonical(s, end, pos + 1);
    } else if pos + 1 < |s| && s[pos + 1] == '{' {
      ParsedIsCanonical(s, end, pos + 2);
    } else {
      if end < pos {
        LiteralNotEmpty(s[end..pos]);
      }
      ParsedIsCanonical(s, Find(s, '}', pos + 1) + 1, pos + 1);
    }
  }

  /**
   A string that is accepted means the same as the normal form printed from it. The strings
   themselves may differ: braces of a literal may be paired across other braces.
   */
  lemma ParsePrintParse(s: string)
    requires ParseSpec(s).Ok?
    ensures ParseSpec(Print(ParseSpec(s).value)) == ParseSpec(s)
  {
    ParsedIsCanonical(s, 0, 0);
    PrintThenParse(ParseSpec(s).value);
  }

  // ---------- strings that are their own print ----------

  /** Outside of parameters, every closing brace stands next to its twin. */
  predicate Twinned(s: string, pos: nat)
    requires pos <= |s|
    decreases |s| - pos
  {
    if pos == |s| then true
    else if s[pos] == '}' then pos + 1 < |s| && s[pos + 1] == '}' && Twinned(s, pos + 2)
    else if s[pos] != '{' then Twinned(s, pos + 1)
    else if pos + 1 < |s| && s[pos + 1] == '{' then Twinned(s, pos + 2)
    else
      var close := Find(s, '}', pos + 1);
      close < |s| && Twinned(s, close + 1)
  }

  lemma {:induction false} DoubledMore(text: string, c: char)
    ensures Doubled(text + [c]) == Doubled(text) + Twice(c)
  {
    hide Twice;
    if text == [] {
      assert text + [c] == [c] && [c][1..] == [];
      assert Twice(c) + [] == Twice(c) && [] + Twice(c) == Twice(c);
    } else {
      DoubledMore(text[1..], c);
      assert (text + [c])[1..] == text[1..] + [c];
      assert Twice(text[0]) + (Doubled(text[1..]) + Twice(c)) == Twice(text[0]) + Doubled(text[1..]) + Twice(c);
    }
  }

  lemma {:induction false} PrintJoined(a: seq<Fragment>, b: seq<Fragment>)
    ensures Print(a + b) == Print(a) + Print(b)
  {
    hide PrintOne;
    if a == [] {
      assert a + b == b && [] + Print(b) == Print(b);
    } else {
      PrintJoined(a[1..], b);
      assert (a + b)[1..] == a[1..] + b && (a + b)[0] == a[0];
      assert PrintOne(a[0]) + (Print(a[1..]) + Print(b)) == PrintOne(a[0]) + Print(a[1..]) + Print(b);
    }
  }

  lemma PrintSingle(f: Fragment)
    ensures Print([f]) == PrintOne(f)
  {
    hide PrintOne;
    assert [f][1..] == [];
    assert PrintOne(f) + [] == PrintOne(f);
  }

  /** A parameter is written in one way. */
  lemma ParameterIsHint(text: string)
    requires ParameterOf(text).Ok?
    ensures ParameterOf(text).value.Parameter? && text == HintText(ParameterOf(text).value.hint)
  {
    if text != [] {
      assert text == [text[0]] + text[1..];
    }
  }

  /** Text from `end` to `pos` that is doubled throughout prints as itself. */
  lemma DoubledBefore(s: string, end: nat, pos: nat, text: string)
    requires end <= pos <= |s| && s[end..pos] == Doubled(text)
    ensures Before(s, end, pos).Ok? && Print(Before(s, end, pos).value) == s[end..pos]
  {
    hide Print, LiteralOf;
    if end < pos {
      LiteralReadsBack(text);
      PrintSingle(Literal(text));
    } else {
      PrintEmpty();
    }
  }

  lemma PrintEmpty()
    ensures Print([]) == []
  {
  }

  /** A twinned rest of an accepted string is what its fragments print as. */
  lemma {:induction false} TwinnedPrints(s: string, end: nat, pos: nat, text: string)
    requires end <= pos <= |s| && s[end..pos] == Doubled(text)
    requires ParseFrom(s, end, pos).Ok? && Twinned(s, pos)
    ensures Print(ParseFrom(s, end, pos).value) == s[end..]
    decreases |s| - pos
  {
    hide Doubled, Print, Before, ParameterOf, Twice;
    if pos == |s| {
      DoubledBefore(s, end, pos, text);
      AtTheEnd(s, end);
      assert s[end..pos] == s[end..];
    } else if s[pos] == '{' && !(pos + 1 < |s| && s[pos + 1] == '{') {
      TwinnedParameter(s, end, pos, text);
    } else {
      var n := if s[pos] == '}' || s[pos] == '{' then 2 else 1;
      DoubledMore(text, s[pos]);
      TwiceIs(s, pos, n);
      assert s[end..pos + n] == s[end..pos] + s[pos..pos + n];
      TwinnedPrints(s, end, pos + n, text + [s[pos]]);
    }
  }

  lemma TwiceIs(s: string, pos: nat, n: nat)
    requires pos < |s| && pos + n <= |s| && n == (if s[pos] == '}' || s[pos] == '{' then 2 else 1)
    requires n == 2 ==> s[pos + 1] == s[pos]
    ensures s[pos..pos + n] == Twice(s[pos])
  {
  }

  lemma {:induction false} TwinnedParameter(s: string, end: nat, pos: nat, text: string)
    requires end <= pos < |s| && s[end..pos] == Doubled(text)
    requires s[pos] == '{' && !(pos + 1 < |s| && s[pos + 1] == '{')
    requires ParseFrom(s, end, pos).Ok? && Twinned(s, pos)
    ensures Print(ParseFrom(s, end, pos).value) == s[end..]
    decreases |s| - pos, 0
  {
    hide Doubled, Print, Before, ParameterOf, HintText, Twice;
    DoubledBefore(s, end, pos, text);
    var before := Before(s, end, pos).value;
    var close := Find(s, '}', pos + 1);
    var inside := s[pos + 1..close];
    ParameterIsHint(inside);
    var f := ParameterOf(inside).value;
    ParameterReadsBack(f.hint);
    NoBraceInside(s, pos + 1, close);
    SkipPlain(s, close + 1, pos + 1, close + 1);
    NoText(s, close + 1);
    TwinnedPrints(s, close + 1, close + 1, []);
    var rest := ParseFrom(s, close + 1, close + 1).value;
    assert ParseFrom(s, end, pos) == Ok(before + [f] + rest);
    PrintJoined(before + [f], rest);
    PrintJoined(before, [f]);
    PrintSingle(f);
    ParameterPieces(s, end, pos, close);
  }

  lemma NoText(s: string, pos: nat)
    requires pos <= |s|
    ensures s[pos..pos] == Doubled("")
  {
  }

  lemma NoBraceInside(s: string, from: nat, close: nat)
    requires from <= close < |s| && '{' !in s[from..close] && s[close] == '}'
    ensures '{' !in s[from..close + 1]
  {
    assert s[from..close + 1] == s[from..close] + ['}'];
  }

  lemma ParameterPieces(s: string, end: nat, pos: nat, close: nat)
    requires end <= pos < close < |s| && s[pos] == '{' && s[close] == '}'
    ensures s[end..pos] + ("{" + s[pos + 1..close] + "}") + s[close + 1..] == s[end..]
  {
  }

  /** Doubled text keeps a string twinned. */
  lemma {:induction false} TwinnedText(s: string, pos: nat, text: string)
    requires pos + |Doubled(text)| <= |s| && s[pos..pos + |Doubled(text)|] == Doubled(text)
    ensures Twinned(s, pos) <==> Twinned(s, pos + |Doubled(text)|)
    decreases |text|
  {
    hide Twinned;
    if text != [] {
      var first, n := Twice(text[0]), |Doubled(text)|;
      var part := s[pos..pos + n];
      assert s[pos] == part[0] && part[0] == first[0];
      if |first| == 2 {
        assert s[pos + 1] == part[1] && part[1] == first[1];
      }
      assert part[|first|..] == Doubled(text[1..]);
      assert s[pos + |first|..pos + n] == part[|first|..];
      TwinnedFirst(s, pos, |first|);
      TwinnedText(s, pos + |first|, text[1..]);
    }
  }

  lemma TwinnedFirst(s: string, pos: nat, n: nat)
    requires 1 <= n <= 2 && pos + n <= |s|
    requires if n == 1 then s[pos] != '{' && s[pos] != '}' else s[pos] == s[pos + 1] && s[pos] in "{}"
    ensures Twinned(s, pos) <==> Twinned(s, pos + n)
  {
  }

  lemma TwinnedHint(s: string, pos: nat, hint: Hint)
    requires pos + 2 + |HintText(hint)| <= |s|
    requires s[pos..pos + 2 + |HintText(hint)|] == "{" + HintText(hint) + "}"
    ensures Twinned(s, pos) <==> Twinned(s, pos + 2 + |HintText(hint)|)
  {
    hide HintText;
    var text := HintText(hint);
    var after := pos + 2 + |text|;
    var part := s[pos..after];
    ParameterReadsBack(hint);
    assert s[pos] == part[0] && s[after - 1] == part[|text| + 1];
    forall j | pos < j < after - 1
      ensures s[j] != '{' && s[j] != '}'
    {
      assert s[j] == part[j - pos] == text[j - pos - 1];
    }
    FindAt(s, '}', pos + 1, after - 1);
  }

  /** What is printed is twinned. */
  lemma {:induction false} PrintedIsTwinned(fragments: seq<Fragment>, s: string, pos: nat)
    requires pos <= |s| && s[pos..] == Print(fragments)
    ensures Twinned(s, pos)
    decreases |fragments|
  {
    hide PrintOne, HintText, Doubled;
    if fragments == [] {
      PrintNothing(s, pos);
    } else {
      PrintedFront(s, pos, fragments);
      PrintedIsTwinned(fragments[1..], s, pos + |PrintOne(fragments[0])|);
      match fragments[0]
      case Literal(text) => TwinnedText(s, pos, text);
      case Parameter(hint) => TwinnedHint(s, pos, hint);
    }
  }

  /** An accepted string is what its fragments print as exactly when it is twinned. */
  lemma PrintIsItself(s: string)
    requires ParseSpec(s).Ok?
    ensures Print(ParseSpec(s).value) == s <==> Twinned(s, 0)
  {
    hide ParseFrom, Print, Twinned;
    assert s[0..] == s;
    NoText(s, 0);
    if Twinned(s, 0) {
      TwinnedPrints(s, 0, 0, "");
    }
    if Print(ParseSpec(s).value) == s {
      PrintedIsTwinned(ParseSpec(s).value, s, 0);
    }
  }

  /** Not every accepted string is what its fragments print as. */
  lemma PrintIsNotUnique()
    ensures exists s :: ParseSpec(s).Ok? && Print(ParseSpec(s).value) != s
  {
    var s := "}{{}";
    assert s[1..] == "{{}" && s[1..][1..] == "{}" && s[1..][1..][1..] == "}" && "}"[1..] == "";
    assert CheckBraces("}", false, true) == Ok(());
    assert CheckBraces("{{}", false, true) == Ok(());
    assert CheckBraces(s, false, false) == Ok(());
    assert s[0..|s|] == s;
    assert ParseFrom(s, 0, 0) == ParseFrom(s, 0, 1) == ParseFrom(s, 0, 3) == ParseFrom(s, 0, 4) == Before(s, 0, 4);
    var inner := Undoubled(s, '{');
    assert s[1..][2..] == "}";
    assert inner == "}{}";
    assert inner[1..] == "{}" && inner[1..][1..] == "}";
    assert Undoubled(inner, '}') == "}{}";
    assert ParseSpec(s) == Ok([Literal("}{}")]);
    assert Print([Literal("}{}")]) == Doubled("}{}") + Print([Literal("}{}")][1..]);
    assert Doubled("}{}") == "}}" + Doubled("}{}"[1..]);
    assert Print([Literal("}{}")])[1] == '}';
  }
}
