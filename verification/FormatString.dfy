/**
 Format strings of log statements: text with doubled braces, and parameters `{}` or `{:hint}`.
 */
module FormatString {
  import opened LogRecord

  datatype Fragment = Literal(text: string) | Parameter(hint: Hint)

  datatype ParseError = UnmatchedOpen | UnmatchedClose | MissingClose | MissingHint | UnknownHint | UnexpectedContent

  datatype Result<+T> = Ok(value: T) | Err(error: ParseError)

  // ---------- literals ----------

  /** Braces come in pairs; text may only follow when all were paired. */
  function CheckBraces(s: string, open: bool, close: bool): Result<()> {
    if s == [] then
      if open then Err(UnmatchedOpen) else if close then Err(UnmatchedClose) else Ok(())
    else if s[0] == '{' then CheckBraces(s[1..], !open, close)
    else if s[0] == '}' then CheckBraces(s[1..], open, !close)
    else if open then Err(UnmatchedOpen)
    else if close then Err(UnmatchedClose)
    else CheckBraces(s[1..], false, false)
  }

  /** Pairs of the character, from the left, become one. */
  function Undoubled(s: string, c: char): string {
    if |s| >= 2 && s[0] == c && s[1] == c then [c] + Undoubled(s[2..], c)
    else if s == [] then []
    else [s[0]] + Undoubled(s[1..], c)
  }

  function LiteralOf(s: string): Result<Fragment> {
    match CheckBraces(s, false, false)
    case Err(e) => Err(e)
    case Ok(_) => Ok(Literal(Undoubled(Undoubled(s, '{'), '}')))
  }

  method PushLiteral(fragments: seq<Fragment>, unescaped: string) returns (r: Result<seq<Fragment>>)
    ensures match LiteralOf(unescaped)
            case Err(e) => r == Err(e)
            case Ok(f) => r == Ok(fragments + [f])
  {
    var lastOpen, lastClose := false, false;
    assert unescaped[0..] == unescaped;
    for i := 0 to |unescaped|
      invariant CheckBraces(unescaped, false, false) == CheckBraces(unescaped[i..], lastOpen, lastClose)
    {
      assert unescaped[i..][1..] == unescaped[i + 1..];
      match unescaped[i] {
        case '{' => lastOpen := !lastOpen;
        case '}' => lastClose := !lastClose;
        case _ =>
          if lastOpen {
            return Err(UnmatchedOpen);
          }
          if lastClose {
            return Err(UnmatchedClose);
          }
      }
    }
    if lastOpen {
      return Err(UnmatchedOpen);
    }
    if lastClose {
      return Err(UnmatchedClose);
    }
    r := Ok(fragments + [Literal(Undoubled(Undoubled(unescaped, '{'), '}'))]);
  }

  // ---------- parameters ----------

  function HintNamed(s: string): Result<Hint> {
    if s == [] then Err(MissingHint)
    else if s == "x" then Ok(LowerHex)
    else if s == "X" then Ok(UpperHex)
    else if s == "i" then Ok(Ip)
    else if s == "mac" then Ok(LowerMac)
    else if s == "MAC" then Ok(UpperMac)
    else if s == "p" then Ok(Pointer)
    else Err(UnknownHint)
  }

  function ParameterOf(s: string): Result<Fragment> {
    if s == [] then Ok(Parameter(Default))
    else if s[0] != ':' then Err(UnexpectedContent)
    else
      match HintNamed(s[1..])
      case Err(e) => Err(e)
      case Ok(hint) => Ok(Parameter(hint))
  }

  // ---------- the whole string ----------

  /** The first position of the character at or after `i`; the length when there is none. */
  function Find(s: string, c: char, i: nat): (r: nat)
    requires i <= |s|
    ensures i <= r <= |s|
    ensures r < |s| ==> s[r] == c
    ensures forall j :: i <= j < r ==> s[j] != c
    decreases |s| - i
  {
    if i == |s| || s[i] == c then i else Find(s, c, i + 1)
  }

  method FindChar(s: string, c: char, from: nat) returns (r: nat)
    requires from <= |s|
    ensures r == Find(s, c, from)
  {
    r := from;
    while r < |s| && s[r] != c
      invariant from <= r <= |s|
      invariant Find(s, c, from) == Find(s, c, r)
    {
      r := r + 1;
    }
  }

  /** The fragments from `end` on, when the scan has come to `pos` without finding a parameter. */
  function ParseFrom(s: string, end: nat, pos: nat): Result<seq<Fragment>>
    requires end <= |s| && pos <= |s|
    decreases |s| - pos
  {
    if pos == |s| then Trailing(s, end)
    else if s[pos] != '{' then ParseFrom(s, end, pos + 1)
    else if pos + 1 < |s| && s[pos + 1] == '{' then ParseFrom(s, end, pos + 2)
    else
      match Before(s, end, pos)
      case Err(e) => Err(e)
      case Ok(before) =>
        var close := Find(s, '}', pos + 1);
        if close == |s| then Err(MissingClose)
        else
          match ParameterOf(s[pos + 1..close])
          case Err(e) => Err(e)
          case Ok(parameter) =>
            Prepend(before + [parameter], ParseFrom(s, close + 1, pos + 1))
  }

  /** The text between two parameters, when there is any. */
  function Before(s: string, end: nat, pos: nat): Result<seq<Fragment>>
    requires end <= |s| && pos <= |s|
  {
    if pos <= end then Ok([])
    else
      match LiteralOf(s[end..pos])
      case Err(e) => Err(e)
      case Ok(f) => Ok([f])
  }

  function Trailing(s: string, end: nat): Result<seq<Fragment>>
    requires end <= |s|
  {
    Before(s, end, |s|)
  }

  function Prepend(front: seq<Fragment>, rest: Result<seq<Fragment>>): Result<seq<Fragment>> {
    match rest
    case Err(e) => Err(e)
    case Ok(more) => Ok(front + more)
  }

  lemma PrependTwice(a: seq<Fragment>, b: seq<Fragment>, rest: Result<seq<Fragment>>)
    ensures Prepend(a, Prepend(b, rest)) == Prepend(a + b, rest)
  {
    if rest.Ok? {
      assert a + (b + rest.value) == a + b + rest.value;
    }
  }

  lemma PrependNone(rest: Result<seq<Fragment>>)
    ensures Prepend([], rest) == rest
  {
    if rest.Ok? {
      assert [] + rest.value == rest.value;
    }
  }

  function ParseSpec(s: string): Result<seq<Fragment>> {
    ParseFrom(s, 0, 0)
  }

  method Parse(s: string) returns (r: Result<seq<Fragment>>)
    ensures r == ParseSpec(s)
  {
    hide LiteralOf, ParameterOf;
    var fragments: seq<Fragment> := [];
    var end, pos := 0, 0;
    PrependNone(ParseFrom(s, 0, 0));
    while pos < |s|
      invariant pos <= |s| && end <= |s|
      invariant ParseSpec(s) == Prepend(fragments, ParseFrom(s, end, pos))
    {
      ghost var sofar := fragments;
      var bracePos := pos;
      pos := pos + 1;
      if s[bracePos] != '{' {
        continue;
      }
      if pos < |s| && s[pos] == '{' {
        pos := pos + 1;
        continue;
      }
      if bracePos > end {
        var pushed := PushLiteral(fragments, s[end..bracePos]);
        if pushed.Err? {
          return pushed;
        }
        fragments := pushed.value;
      }
      var close := FindChar(s, '}', pos);
      if close == |s| {
        return Err(MissingClose);
      }
      var parameter := ParameterOf(s[pos..close]);
      if parameter.Err? {
        return Err(parameter.error);
      }
      assert fragments == sofar + Before(s, end, bracePos).value;
      PrependTwice(sofar, Before(s, end, bracePos).value + [parameter.value], ParseFrom(s, close + 1, pos));
      assert fragments + [parameter.value] == sofar + (Before(s, end, bracePos).value + [parameter.value]);
      end := close + 1;
      fragments := fragments + [parameter.value];
    }
    if end != |s| {
      assert s[end..] == s[end..|s|];
      r := PushLiteral(fragments, s[end..]);
      return;
    }
    assert fragments + [] == fragments;
    r := Ok(fragments);
  }
}
