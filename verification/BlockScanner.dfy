/**
 The brace scanner of `terraform_blocks` (infrastructure/validation/validate_infrastructure.py): from
 an opening brace it finds the end of the block, not counting braces inside quoted strings, in which
 a backslash escapes the next character.
 */
module BlockScanner {
  import opened Basics

  datatype Scan = Scan(depth: int, inString: bool, escaped: bool)

  /** One character. */
  function Step(s: Scan, c: char): Scan {
    if s.inString then
      if s.escaped then s.(escaped := false)
      else if c == '\\' then s.(escaped := true)
      else if c == '"' then s.(inString := false)
      else s
    else if c == '"' then s.(inString := true)
    else if c == '{' then s.(depth := s.depth + 1)
    else if c == '}' then s.(depth := s.depth - 1)
    else s
  }

  function Run(s: Scan, text: string): Scan {
    if text == "" then s else Step(Run(s, text[..|text| - 1]), text[|text| - 1])
  }

  const START := Scan(0, false, false)

  /** The first `n` characters end with an unquoted closing brace that brings the depth to zero. */
  predicate ClosesAt(text: string, n: nat) {
    0 < n <= |text| && text[n - 1] == '}' && !Run(START, text[..n - 1]).inString && Run(START, text[..n]).depth == 0
  }

  /** The first position after `start` at which the block closes, or None if there is none. */
  ghost predicate IsEnd(text: string, start: nat, end: Option<nat>)
    requires start <= |text|
  {
    match end
    case Some(e) =>
      && start < e <= |text| && ClosesAt(text[start..], e - start)
      && forall n: nat | n < e - start :: !ClosesAt(text[start..], n)
    case None => forall n: nat :: !ClosesAt(text[start..], n)
  }

  /** The scan stops at the first position where the depth returns to zero, and fails only if none is. */
  method FindEnd(text: string, start: nat) returns (end: Option<nat>)
    requires start < |text|
    ensures IsEnd(text, start, end)
  {
    var depth, inString, escaped := 0, false, false;
    ghost var block := text[start..];
    for index := start to |text|
      invariant Run(START, block[..index - start]) == Scan(depth, inString, escaped)
      invariant forall n: nat | n <= index - start :: !ClosesAt(block, n)
    {
      var c := text[index];
      ghost var n := index - start;
      assert block[n] == c && block[..n + 1][..n] == block[..n];
      if inString {
        if escaped {
          escaped := false;
        } else if c == '\\' {
          escaped := true;
        } else if c == '"' {
          inString := false;
        }
        continue;
      }
      if c == '"' {
        inString := true;
      } else if c == '{' {
        depth := depth + 1;
      } else if c == '}' {
        depth := depth - 1;
        if depth == 0 {
          return Some(index + 1);
        }
      }
    }
    end := None;
  }

  // ----- printed blocks -----

  /** A character of a quoted string: itself, or escaped. */
  datatype Quote = Ordinary(c: char) | Escaped(c: char)

  /** The inside of a block: plain characters, quoted strings and nested blocks. */
  datatype Items =
    | End
    | Plain(c: char, rest: Items)
    | Quoted(text: seq<Quote>, rest: Items)
    | Block(inner: Items, rest: Items)

  predicate WellFormed(items: Items) {
    match items
    case End => true
    case Plain(c, rest) => c != '"' && c != '{' && c != '}' && WellFormed(rest)
    case Quoted(text, rest) =>
      (forall i | 0 <= i < |text| :: text[i].Ordinary? ==> text[i].c != '"' && text[i].c != '\\') && WellFormed(rest)
    case Block(inner, rest) => WellFormed(inner) && WellFormed(rest)
  }

  function PrintQuotes(text: seq<Quote>): string {
    if text == [] then ""
    else (if text[0].Ordinary? then [text[0].c] else ['\\', text[0].c]) + PrintQuotes(text[1..])
  }

  function Print(items: Items): string {
    match items
    case End => ""
    case Plain(c, rest) => [c] + Print(rest)
    case Quoted(text, rest) => "\"" + PrintQuotes(text) + "\"" + Print(rest)
    case Block(inner, rest) => "{" + Print(inner) + "}" + Print(rest)
  }

  lemma {:induction false} RunAppend(s: Scan, a: string, b: string)
    ensures Run(s, a + b) == Run(Run(s, a), b)
    decreases |b|
  {
    if b == "" {
      assert a + b == a;
    } else {
      var n := |b| - 1;
      RunAppend(s, a, b[..n]);
      assert (a + b)[..|a| + n] == a + b[..n] && (a + b)[|a| + n] == b[n];
    }
  }

  lemma RunOne(s: Scan, c: char)
    ensures Run(s, [c]) == Step(s, c)
  {
    assert [c][..0] == "" && Run(s, "") == s;
  }

  /** Scanning `text` from `from` ends in `to` and never goes below the depth `floor`. */
  ghost predicate Leads(from: Scan, text: string, to: Scan, floor: int) {
    && Run(from, text) == to
    && forall n | 0 <= n <= |text| :: Run(from, text[..n]).depth >= floor
  }

  lemma LeadsAppend(from: Scan, a: string, middle: Scan, b: string, to: Scan, floor: int)
    requires Leads(from, a, middle, floor) && Leads(middle, b, to, floor)
    ensures Leads(from, a + b, to, floor)
  {
    RunAppend(from, a, b);
    forall n | 0 <= n <= |a + b|
      ensures Run(from, (a + b)[..n]).depth >= floor
    {
      if n <= |a| {
        assert (a + b)[..n] == a[..n];
      } else {
        assert (a + b)[..n] == a + b[..n - |a|];
        RunAppend(from, a, b[..n - |a|]);
      }
    }
  }

  lemma LeadsNowhere(s: Scan, floor: int)
    requires s.depth >= floor
    ensures Leads(s, "", s, floor)
  {
    assert forall n | 0 <= n <= 0 :: ""[..n] == "";
  }

  lemma LeadsOne(s: Scan, c: char, floor: int)
    requires s.depth >= floor && Step(s, c).depth >= floor
    ensures Leads(s, [c], Step(s, c), floor)
  {
    RunOne(s, c);
    assert [c][..0] == "" && [c][..1] == [c];
  }

  lemma {:induction false} QuotesStayInside(text: seq<Quote>, s: Scan)
    requires forall i | 0 <= i < |text| :: text[i].Ordinary? ==> text[i].c != '"' && text[i].c != '\\'
    requires s.inString && !s.escaped
    ensures Leads(s, PrintQuotes(text), s, s.depth)
  {
    hide Leads;
    if text == [] {
      LeadsNowhere(s, s.depth);
    } else {
      QuotesStayInside(text[1..], s);
      var c := text[0].c;
      if text[0].Ordinary? {
        LeadsOne(s, c, s.depth);
        LeadsAppend(s, [c], s, PrintQuotes(text[1..]), s, s.depth);
      } else {
        var pending := s.(escaped := true);
        LeadsOne(s, '\\', s.depth);
        LeadsOne(pending, c, s.depth);
        LeadsAppend(s, ['\\'], pending, [c], s, s.depth);
        assert ['\\'] + [c] == ['\\', c];
        LeadsAppend(s, ['\\', c], s, PrintQuotes(text[1..]), s, s.depth);
      }
    }
  }

  /** The printed inside of a block leaves the scanner where it was, and never lower. */
  lemma {:induction false} ItemsKeepDepth(items: Items, s: Scan)
    requires WellFormed(items) && !s.inString && !s.escaped
    ensures Leads(s, Print(items), s, s.depth)
    decreases items, 0
  {
    hide Leads;
    match items
    case End =>
      LeadsNowhere(s, s.depth);
    case Plain(c, rest) =>
      ItemsKeepDepth(rest, s);
      LeadsOne(s, c, s.depth);
      LeadsAppend(s, [c], s, Print(rest), s, s.depth);
    case Quoted(text, rest) =>
      ItemsKeepDepth(rest, s);
      var inside := s.(inString := true);
      QuotesStayInside(text, inside);
      LeadsOne(s, '"', s.depth);
      LeadsOne(inside, '"', s.depth);
      LeadsAppend(s, "\"", inside, PrintQuotes(text), inside, s.depth);
      LeadsAppend(s, "\"" + PrintQuotes(text), inside, "\"", s, s.depth);
      LeadsAppend(s, "\"" + PrintQuotes(text) + "\"", s, Print(rest), s, s.depth);
    case Block(inner, rest) =>
      ItemsKeepDepth(rest, s);
      BlockKeepsDepth(inner, s);
      LeadsAppend(s, "{" + Print(inner) + "}", s, Print(rest), s, s.depth);
  }

  lemma {:induction false} BlockKeepsDepth(inner: Items, s: Scan)
    requires WellFormed(inner) && !s.inString && !s.escaped
    ensures Leads(s, "{" + Print(inner) + "}", s, s.depth)
    decreases inner, 1
  {
    hide Leads;
    var deeper := s.(depth := s.depth + 1);
    ItemsKeepDepth(inner, deeper);
    LowerFloor(deeper, Print(inner), deeper, deeper.depth, s.depth);
    LeadsOne(s, '{', s.depth);
    LeadsOne(deeper, '}', s.depth);
    LeadsAppend(s, "{", deeper, Print(inner), deeper, s.depth);
    LeadsAppend(s, "{" + Print(inner), deeper, "}", s, s.depth);
  }

  lemma LowerFloor(from: Scan, text: string, to: Scan, high: int, low: int)
    requires Leads(from, text, to, high) && low <= high
    ensures Leads(from, text, to, low)
  {
  }

  /**
   For every block of nested blocks and quoted, escaped strings, whatever stands before and after it,
   the scan from its opening brace ends exactly at the end of its printed form.
   */
  lemma ScanReturnsBlock(head: string, inner: Items, suffix: string, end: Option<nat>)
    requires WellFormed(inner)
    ensures
      var printed := "{" + Print(inner) + "}";
      IsEnd(head + printed + suffix, |head|, end) <==> end == Some(|head| + |printed|)
  {
    hide Print, WellFormed, ClosesAt;
    var printed := "{" + Print(inner) + "}";
    var text := head + printed + suffix;
    var block := text[|head|..];
    assert block == printed + suffix;
    ScanEndsAtBlock(inner, suffix, 0);
    assert ClosesAt(block, |printed|);
    forall n: nat | n < |printed|
      ensures !ClosesAt(block, n)
    {
      ScanEndsAtBlock(inner, suffix, n);
    }
    if end.Some? && IsEnd(text, |head|, end) {
      assert ClosesAt(block, end.value - |head|);
    }
  }

  /** The printed form of a block closes at its end and not before, whatever follows it. */
  lemma ScanEndsAtBlock(inner: Items, suffix: string, n: nat)
    requires WellFormed(inner)
    ensures
      var printed := "{" + Print(inner) + "}";
      ClosesAt(printed + suffix, |printed|) && (n < |printed| ==> !ClosesAt(printed + suffix, n))
  {
    hide Print, WellFormed, Run, ClosesAt, Leads;
    ItemsKeepDepth(inner, INSIDE);
    ClosesAfter(Print(inner), suffix);
    NotBefore(Print(inner), suffix, n);
  }

  lemma ClosesAfter(body: string, suffix: string)
    requires Leads(INSIDE, body, INSIDE, 1)
    ensures ClosesAt("{" + body + "}" + suffix, |body| + 2)
  {
    hide Run;
    var text := "{" + body + "}" + suffix;
    AfterBrace(body);
    assert text[..|body| + 1] == "{" + body;
    assert text[..|body| + 2] == "{" + body + "}";
    RunAppend(START, "{" + body, "}");
    RunOne(INSIDE, '}');
  }

  lemma NotBefore(body: string, suffix: string, n: nat)
    requires Leads(INSIDE, body, INSIDE, 1)
    ensures n < |body| + 2 ==> !ClosesAt("{" + body + "}" + suffix, n)
  {
    hide Run;
    var text := "{" + body + "}" + suffix;
    if 0 < n < |body| + 2 {
      assert text[..n] == "{" + body[..n - 1];
      AfterBrace(body[..n - 1]);
    }
  }

  const INSIDE := Scan(1, false, false)

  lemma AfterBrace(body: string)
    ensures Run(START, "{" + body) == Run(INSIDE, body)
  {
    RunOne(START, '{');
    RunAppend(START, "{", body);
  }
}
