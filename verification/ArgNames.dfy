/**
 * Field names recovered from the text of a macro's arguments: the text is split at its top-level commas
 * and each part is stripped of blanks, parentheses and `make_tags<...>( )` wrappers.
 */
module ArgNames {
  import opened Wrappers

  const NO_QUOTE := '\0'
  const MAKE_TAGS := "make_tags"

  /** What a scanner has seen open and not yet closed. */
  datatype Scan = Scan(angle: nat, paren: nat, brace: nat, bracket: nat, quote: char, escape: bool)

  const ZERO := Scan(0, 0, 0, 0, NO_QUOTE, false)

  /** What a search stops at: a top-level comma, the parenthesis that opens a call, or the one that closes it. */
  datatype Target = Comma | CallOpen | CallClose

  predicate IsSpace(c: char) {
    c == ' ' || c == '\t' || c == '\n' || c == '\r'
  }

  predicate IsQuote(c: char) {
    c == '\'' || c == '"'
  }

  function Down(n: nat): nat {
    if n > 0 then n - 1 else 0
  }

  /** One character of any scan. Inside quotes only escapes and the closing quote matter. */
  function Step(st: Scan, c: char): Scan {
    if st.quote != NO_QUOTE then
      if st.escape then st.(escape := false)
      else if c == '\\' then st.(escape := true)
      else if c == st.quote then st.(quote := NO_QUOTE)
      else st
    else if IsQuote(c) then st.(quote := c)
    else match c
      case '<' => st.(angle := st.angle + 1)
      case '>' => st.(angle := Down(st.angle))
      case '(' => st.(paren := st.paren + 1)
      case ')' => st.(paren := Down(st.paren))
      case '{' => st.(brace := st.brace + 1)
      case '}' => st.(brace := Down(st.brace))
      case '[' => st.(bracket := st.bracket + 1)
      case ']' => st.(bracket := Down(st.bracket))
      case _ => st
  }

  function Run(st: Scan, s: string): Scan
    decreases |s|
  {
    if s == "" then st else Run(Step(st, s[0]), s[1..])
  }

  predicate Hits(target: Target, st: Scan, c: char) {
    st.quote == NO_QUOTE &&
    match target
    case Comma => c == ',' && st.angle == 0 && st.paren == 0 && st.brace == 0 && st.bracket == 0
    case CallOpen => c == '(' && st.angle == 0 && st.brace == 0 && st.bracket == 0
    case CallClose => c == ')' && st.paren <= 1
  }

  function Mark(target: Target): char {
    match target
    case Comma => ','
    case CallOpen => '('
    case CallClose => ')'
  }

  /** Where a scan first hits its target. */
  function Find(target: Target, s: string, st: Scan): (r: Option<nat>)
    ensures r.Some? ==> r.value < |s| && s[r.value] == Mark(target)
    decreases |s|
  {
    if s == "" then None
    else if Hits(target, st, s[0]) then Some(0)
    else
      var r := Find(target, s[1..], Step(st, s[0]));
      if r.Some? then Some(r.value + 1) else None
  }

  // ----- the functions -----------------------------------------------------------------------

  function TrimFront(s: string): (r: string)
    ensures |r| <= |s|
    decreases |s|
  {
    if s != "" && IsSpace(s[0]) then TrimFront(s[1..]) else s
  }

  function TrimBack(s: string): (r: string)
    ensures |r| <= |s|
    decreases |s|
  {
    if s != "" && IsSpace(s[|s| - 1]) then TrimBack(s[..|s| - 1]) else s
  }

  function Trim(s: string): (r: string)
    ensures |r| <= |s|
  {
    TrimBack(TrimFront(s))
  }

  /** Takes off blanks and any parentheses that enclose the whole token. */
  function Strip(token: string): (r: string)
    ensures |r| <= |token|
    decreases |token|
  {
    var t := Trim(token);
    if |t| >= 2 && t[0] == '(' && Find(CallClose, t, ZERO) == Some(|t| - 1) then Strip(t[1..|t| - 1]) else t
  }

  predicate StartsWith(s: string, prefix: string) {
    |s| >= |prefix| && s[..|prefix|] == prefix
  }

  /** The name a token stands for: what is wrapped, under any number of parentheses and tags. */
  function ArgName(token: string): string
    decreases |token|
  {
    var t := Strip(token);
    if !StartsWith(t, MAKE_TAGS) then t
    else
      var open := Find(CallOpen, t, ZERO);
      if open == None then t
      else
        var close := Find(CallClose, t[open.value..], ZERO);
        if close == None then t
        else ArgName(t[open.value + 1..open.value + close.value])
  }

  /** The parts between top-level commas. */
  function Split(names: string): (r: seq<string>)
    ensures |r| >= 1
    decreases |names|
  {
    var comma := Find(Comma, names, ZERO);
    if comma == None then [names] else [names[..comma.value]] + Split(names[comma.value + 1..])
  }

  // ----- the loops ---------------------------------------------------------------------------

  method TrimBlanks(s: string) returns (r: string)
    ensures r == Trim(s)
  {
    r := s;
    while r != "" && IsSpace(r[0])
      invariant TrimFront(s) == TrimFront(r)
      decreases |r|
    {
      r := r[1..];
    }
    while r != "" && IsSpace(r[|r| - 1])
      invariant Trim(s) == TrimBack(r)
      decreases |r|
    {
      r := r[..|r| - 1];
    }
  }

  method FindOuterCallOpen(s: string) returns (r: Option<nat>)
    ensures r == Find(CallOpen, s, ZERO)
  {
    hide Step;
    hide Find;
    hide Hits;
    var angle: nat, brace: nat, bracket: nat := 0, 0, 0;
    var quote, escape := NO_QUOTE, false;
    ghost var st := ZERO;
    Anywhere(CallOpen, s, ZERO);
    for i := 0 to |s|
      invariant st == Scan(angle, st.paren, brace, bracket, quote, escape)
      invariant Find(CallOpen, s, ZERO) == Shift(i, Find(CallOpen, s[i..], st))
    {
      var c := s[i];
      FindAt(CallOpen, s, i, st);
      HitsMean(CallOpen, st, c);
      if quote != NO_QUOTE || IsQuote(c) { QuoteStep(st, c); } else { OuterStep(st, c); }
      st := Step(st, c);
      if quote != NO_QUOTE {
        if escape {
          escape := false;
        } else if c == '\\' {
          escape := true;
        } else if c == quote {
          quote := NO_QUOTE;
        }
        continue;
      }
      if IsQuote(c) {
        quote := c;
        continue;
      }
      match c {
        case '<' => angle := angle + 1;
        case '>' => angle := Down(angle);
        case '{' => brace := brace + 1;
        case '}' => brace := Down(brace);
        case '[' => bracket := bracket + 1;
        case ']' => bracket := Down(bracket);
        case '(' =>
          if angle == 0 && brace == 0 && bracket == 0 {
            return Some(i);
          }
        case _ =>
      }
    }
    NothingFound(CallOpen, s, st);
    return None;
  }

  function Shift(n: nat, r: Option<nat>): Option<nat> {
    if r.Some? then Some(n + r.value) else None
  }

  /** A whole string is its own tail, and a search in it starts at no distance. */
  lemma Anywhere(target: Target, s: string, st: Scan)
    ensures s[0..] == s && Find(target, s, st) == Shift(0, Find(target, s[0..], st))
  {
    assert s[0..] == s;
  }

  lemma HitsMean(target: Target, st: Scan, c: char)
    ensures Hits(CallOpen, st, c)
       <==> st.quote == NO_QUOTE && c == '(' && st.angle == 0 && st.brace == 0 && st.bracket == 0
    ensures Hits(CallClose, st, c) <==> st.quote == NO_QUOTE && c == ')' && st.paren <= 1
  {
  }

  /** What a character outside quotes does to the brackets other than parentheses. */
  lemma OuterStep(st: Scan, c: char)
    requires st.quote == NO_QUOTE && !IsQuote(c)
    ensures var t := Step(st, c);
      && t == Scan(t.angle, t.paren, t.brace, t.bracket, st.quote, st.escape)
      && t.angle == (if c == '<' then st.angle + 1 else if c == '>' then Down(st.angle) else st.angle)
      && t.brace == (if c == '{' then st.brace + 1 else if c == '}' then Down(st.brace) else st.brace)
      && t.bracket == (if c == '[' then st.bracket + 1 else if c == ']' then Down(st.bracket) else st.bracket)
  {
  }

  /** What a character outside quotes does to the parentheses alone. */
  lemma ParenStep(st: Scan, c: char)
    requires st.quote == NO_QUOTE && !IsQuote(c)
    ensures var t := Step(st, c);
      && t.quote == st.quote && t.escape == st.escape
      && t.paren == if c == '(' then st.paren + 1 else if c == ')' then Down(st.paren) else st.paren
  {
  }

  /** What a character does when it opens quotes or stands inside them. */
  lemma QuoteStep(st: Scan, c: char)
    requires st.quote != NO_QUOTE || IsQuote(c)
    ensures Step(st, c)
         == if st.quote == NO_QUOTE then st.(quote := c)
            else if st.escape then st.(escape := false)
            else if c == '\\' then st.(escape := true)
            else if c == st.quote then st.(quote := NO_QUOTE) else st
  {
  }

  /** From an opening parenthesis, the one that closes it. */
  method FindMatchingParen(s: string, open: nat) returns (r: Option<nat>)
    requires open < |s| && s[open] == '('
    ensures r == Shift(open, Find(CallClose, s[open..], ZERO))
  {
    hide Step;
    hide Find;
    hide Hits;
    var paren: nat := 0;
    var quote, escape := NO_QUOTE, false;
    ghost var st := ZERO;
    for i := open to |s|
      invariant st == st.(paren := paren, quote := quote, escape := escape)
      invariant if i == open then st == ZERO else paren > 0
      invariant Shift(open, Find(CallClose, s[open..], ZERO)) == Shift(i, Find(CallClose, s[i..], st))
    {
      var c := s[i];
      FindAt(CallClose, s, i, st);
      HitsMean(CallClose, st, c);
      if quote != NO_QUOTE || IsQuote(c) { QuoteStep(st, c); } else { ParenStep(st, c); }
      st := Step(st, c);
      if quote != NO_QUOTE {
        if escape {
          escape := false;
        } else if c == '\\' {
          escape := true;
        } else if c == quote {
          quote := NO_QUOTE;
        }
        continue;
      }
      if IsQuote(c) {
        quote := c;
        continue;
      }
      if c == '(' {
        paren := paren + 1;
      } else if c == ')' {
        paren := paren - 1;
        if paren == 0 {
          return Some(i);
        }
      }
    }
    NothingFound(CallClose, s, st);
    return None;
  }

  method StripEnclosingParens(token: string) returns (r: string)
    ensures r == Strip(token)
  {
    hide Find;
    hide Trim;
    r := TrimBlanks(token);
    TrimTwice(token);
    while |r| >= 2 && r[0] == '('
      invariant r == Trim(r) && Strip(token) == Strip(r)
      decreases |r|
    {
      var close := FindMatchingParen(r, 0);
      assert r[0..] == r;
      if close != Some(|r| - 1) {
        break;
      }
      TrimTwice(r[1..|r| - 1]);
      r := TrimBlanks(r[1..|r| - 1]);
    }
  }

  method SerializerArgName(token: string) returns (r: string)
    ensures r == ArgName(token)
    decreases |token|
  {
    hide Strip;
    hide Find;
    hide StartsWith;
    var t := StripEnclosingParens(token);
    if StartsWith(t, MAKE_TAGS) {
      var open := FindOuterCallOpen(t);
      if open.Some? {
        var close := FindMatchingParen(t, open.value);
        if close.Some? {
          r := SerializerArgName(t[open.value + 1..close.value]);
          return;
        }
      }
    }
    return t;
  }

  /** The names of N arguments, one scan over their text; the array's other places stay empty. */
  method ParseNames(n: nat, names: string) returns (r: seq<string>)
    requires 1 <= |Split(names)| <= n
    ensures |r| == n
    ensures forall k :: 0 <= k < n ==> r[k] == if k < |Split(names)| then ArgName(Split(names)[k]) else ""
  {
    hide Step;
    hide ArgName;
    hide Find;
    hide Hits;
    hide Shift;
    r := seq(n, _ => "");
    ghost var parts := Split(names);
    var begin, index := 0, 0;
    var st := ZERO;
    Anywhere(Comma, names, ZERO);
    assert parts[0..] == parts;
    hide Split;
    for i := 0 to |names|
      invariant begin <= i && index < |parts|
      invariant st.quote == NO_QUOTE ==> !st.escape
      invariant Find(Comma, names[begin..], ZERO) == Shift(i - begin, Find(Comma, names[i..], st))
      invariant parts[index..] == Split(names[begin..])
      invariant |r| == n
      invariant forall k :: 0 <= k < n ==> r[k] == if k < index then ArgName(parts[k]) else ""
    {
      var c := names[i];
      CommaStep(names, begin, i, st);
      EscapesInQuotes(st, c);
      if Hits(Comma, st, c) {
        NextPart(names, begin, i, parts, index);
        var name := SerializerArgName(names[begin..i]);
        r := r[index := name];
        index := index + 1;
        begin := i + 1;
      }
      st := Step(st, c);
    }
    NothingFound(Comma, names, st);
    NoShift(|names| - begin);
    LastPart(names, begin, parts, index);
    var name := SerializerArgName(names[begin..]);
    r := r[index := name];
  }

  lemma FindAt(target: Target, s: string, i: nat, st: Scan)
    requires i < |s|
    ensures Find(target, s[i..], st)
         == if Hits(target, st, s[i]) then Some(0) else Shift(1, Find(target, s[i + 1..], Step(st, s[i])))
  {
    assert s[i..][0] == s[i] && s[i..][1..] == s[i + 1..];
  }

  lemma NoShift(n: nat)
    ensures Shift(n, None) == None
  {
  }

  /** One character on in the search for the comma that ends the part from `begin`. */
  lemma CommaStep(names: string, begin: nat, i: nat, st: Scan)
    requires begin <= i < |names|
    requires Find(Comma, names[begin..], ZERO) == Shift(i - begin, Find(Comma, names[i..], st))
    ensures if Hits(Comma, st, names[i]) then
        && Find(Comma, names[begin..], ZERO) == Some(i - begin)
        && Find(Comma, names[i + 1..], ZERO) == Shift(0, Find(Comma, names[i + 1..], ZERO))
      else Find(Comma, names[begin..], ZERO) == Shift(i + 1 - begin, Find(Comma, names[i + 1..], Step(st, names[i])))
  {
    FindAt(Comma, names, i, st);
    hide Find;
    hide Hits;
  }

  lemma NextPart(names: string, begin: nat, i: nat, parts: seq<string>, index: nat)
    requires begin <= i < |names| && index < |parts| && parts[index..] == Split(names[begin..])
    requires Find(Comma, names[begin..], ZERO) == Some(i - begin)
    ensures parts[index] == names[begin..i]
    ensures index + 1 < |parts| && parts[index + 1..] == Split(names[i + 1..])
  {
    assert names[begin..][..i - begin] == names[begin..i];
    assert names[begin..][i - begin + 1..] == names[i + 1..];
    assert parts[index] == parts[index..][0] && parts[index + 1..] == parts[index..][1..];
  }

  lemma LastPart(names: string, begin: nat, parts: seq<string>, index: nat)
    requires begin <= |names| && index < |parts| && parts[index..] == Split(names[begin..])
    requires Find(Comma, names[begin..], ZERO) == None
    ensures |parts| == index + 1 && parts[index] == names[begin..]
  {
    assert parts[index] == parts[index..][0];
  }

  lemma NothingFound(target: Target, s: string, st: Scan)
    ensures Find(target, s[|s|..], st) == None
  {
  }

  /** An escape is pending only inside quotes, and a comma leaves a scan that stops there at zero. */
  lemma EscapesInQuotes(st: Scan, c: char)
    requires st.quote == NO_QUOTE ==> !st.escape
    ensures Step(st, c).quote == NO_QUOTE ==> !Step(st, c).escape
    ensures Hits(Comma, st, c) ==> st == ZERO && Step(st, c) == ZERO
  {
  }

  lemma {:induction false} TrimBackKeepsFront(s: string)
    requires s != "" && !IsSpace(s[0])
    ensures TrimBack(s) != "" && TrimBack(s)[0] == s[0]
    decreases |s|
  {
    if IsSpace(s[|s| - 1]) {
      TrimBackKeepsFront(s[..|s| - 1]);
    }
  }

  lemma TrimTwice(s: string)
    ensures Trim(Trim(s)) == Trim(s)
  {
    var t := TrimFront(s);
    TrimFrontDone(s);
    TrimBackDone(t);
    if t != "" {
      TrimBackKeepsFront(t);
    }
  }

  lemma {:induction false} TrimFrontDone(s: string)
    ensures TrimFront(s) == "" || !IsSpace(TrimFront(s)[0])
    decreases |s|
  {
    if s != "" && IsSpace(s[0]) {
      TrimFrontDone(s[1..]);
    }
  }

  lemma {:induction false} TrimBackDone(s: string)
    ensures TrimBack(s) == "" || !IsSpace(TrimBack(s)[|TrimBack(s)| - 1])
    decreases |s|
  {
    if s != "" && IsSpace(s[|s| - 1]) {
      TrimBackDone(s[..|s| - 1]);
    }
  }

  // ----- what programmers write --------------------------------------------------------------

  datatype Bracket = Angle | Round | Curly | Square

  datatype Quotable = Raw(c: char) | Escaped(c: char)

  /** Text in which quotes and every kind of bracket match. */
  datatype Text =
    | End
    | Plain(c: char, rest: Text)
    | Quoted(q: char, body: seq<Quotable>, rest: Text)
    | Group(b: Bracket, inner: Text, rest: Text)

  /** A macro argument: a name, possibly parenthesized or tagged any number of times, with blanks anywhere. */
  datatype Arg = Arg(lead: string, core: Core, trail: string)

  datatype Core =
    | Ident(name: string)
    | Paren(arg: Arg)
    | Tags(before: string, text: Text, after: string, arg: Arg)

  /** The blanks of the grammar: space, tab, newline and carriage return. */
  predicate Whitespace(c: char) {
    c in [' ', '\t', '\n', '\r']
  }

  predicate QuoteMark(c: char) {
    c in ['\'', '"']
  }

  predicate IsBracket(c: char) {
    c == '<' || c == '>' || c == '(' || c == ')' || c == '{' || c == '}' || c == '[' || c == ']'
  }

  function Opening(b: Bracket): char {
    match b case Angle => '<' case Round => '(' case Curly => '{' case Square => '['
  }

  function Closing(b: Bracket): char {
    match b case Angle => '>' case Round => ')' case Curly => '}' case Square => ']'
  }

  predicate ValidBody(q: char, body: seq<Quotable>) {
    forall i :: 0 <= i < |body| && body[i].Raw? ==> body[i].c != q && body[i].c != '\\'
  }

  predicate ValidText(t: Text) {
    match t
    case End => true
    case Plain(c, rest) => !IsBracket(c) && !QuoteMark(c) && ValidText(rest)
    case Quoted(q, body, rest) => QuoteMark(q) && ValidBody(q, body) && ValidText(rest)
    case Group(_, inner, rest) => ValidText(inner) && ValidText(rest)
  }

  predicate Blank(s: string) {
    forall c :: c in s ==> Whitespace(c)
  }

  /** A name may hold anything but blanks, quotes, commas and brackets; `>` may occur, as in an arrow. */
  predicate ValidName(name: string) {
    name != "" && forall c :: c in name ==> NameChar(c)
  }

  predicate NameChar(c: char) {
    !Whitespace(c) && !QuoteMark(c) && c != ',' && (c == '>' || !IsBracket(c))
  }

  predicate ValidArg(a: Arg) {
    Blank(a.lead) && ValidCore(a.core) && Blank(a.trail)
  }

  predicate ValidCore(core: Core) {
    match core
    case Ident(name) => ValidName(name)
    case Paren(arg) => ValidArg(arg)
    case Tags(before, text, after, arg) => Blank(before) && ValidText(text) && Blank(after) && ValidArg(arg)
  }

  function PrintBody(body: seq<Quotable>): string {
    if body == [] then ""
    else (if body[0].Raw? then [body[0].c] else ['\\', body[0].c]) + PrintBody(body[1..])
  }

  function PrintText(t: Text): string {
    match t
    case End => ""
    case Plain(c, rest) => [c] + PrintText(rest)
    case Quoted(q, body, rest) => [q] + PrintBody(body) + [q] + PrintText(rest)
    case Group(b, inner, rest) => [Opening(b)] + PrintText(inner) + [Closing(b)] + PrintText(rest)
  }

  function PrintArg(a: Arg): string {
    a.lead + PrintCore(a.core) + a.trail
  }

  function TagsPrefix(before: string, text: Text, after: string): string {
    "make_tags" + before + ['<'] + PrintText(text) + ['>'] + after
  }

  function PrintCore(core: Core): string {
    match core
    case Ident(name) => name
    case Paren(arg) => ['('] + PrintArg(arg) + [')']
    case Tags(before, text, after, arg) => TagsPrefix(before, text, after) + (['('] + PrintArg(arg) + [')'])
  }

  function Name(a: Arg): string {
    match a.core
    case Ident(name) => name
    case Paren(arg) => Name(arg)
    case Tags(_, _, _, arg) => Name(arg)
  }

  /** The arguments as a macro stringizes them. */
  function Join(args: seq<Arg>): string
    requires args != []
  {
    if |args| == 1 then PrintArg(args[0]) else PrintArg(args[0]) + [','] + Join(args[1..])
  }

  // ----- scanning printed text ---------------------------------------------------------------

  /** Outside quotes, with no escape pending. */
  predicate Open(st: Scan) {
    st.quote == NO_QUOTE && !st.escape
  }

  lemma {:induction false} Append(target: Target, p: string, q: string, st: Scan)
    ensures Run(st, p + q) == Run(Run(st, p), q)
    ensures Find(target, p + q, st)
         == if Find(target, p, st).Some? then Find(target, p, st) else Shift(|p|, Find(target, q, Run(st, p)))
    decreases |p|
  {
    hide Step;
    hide Hits;
    if p == "" {
      assert p + q == q;
    } else {
      assert (p + q)[0] == p[0] && (p + q)[1..] == p[1..] + q;
      Append(target, p[1..], q, Step(st, p[0]));
    }
  }

  lemma OneChar(target: Target, c: char, st: Scan)
    ensures Run(st, [c]) == Step(st, c)
    ensures Find(target, [c], st) == if Hits(target, st, c) then Some(0) else None
  {
    assert [c][1..] == "";
  }

  /** A stretch the search passes over, back in the state it started from. */
  ghost predicate Passes(target: Target, p: string, st: Scan) {
    Run(st, p) == st && Find(target, p, st) == None
  }

  lemma PassBoth(target: Target, p: string, q: string, st: Scan)
    requires Passes(target, p, st) && Passes(target, q, st)
    ensures Passes(target, p + q, st)
  {
    Append(target, p, q, st);
  }

  /** An opening character, a stretch, a closing character. */
  lemma PassAround(target: Target, open: char, p: string, close: char, st: Scan)
    requires !Hits(target, st, open) && Passes(target, p, Step(st, open))
    requires !Hits(target, Step(st, open), close) && Step(Step(st, open), close) == st
    ensures Passes(target, [open] + p + [close], st)
  {
    OneChar(target, open, st);
    OneChar(target, close, Step(st, open));
    Append(target, [open], p, st);
    Append(target, [open] + p, [close], st);
  }

  lemma {:induction false} BodyPasses(target: Target, q: char, body: seq<Quotable>, st: Scan)
    requires IsQuote(q) && ValidBody(q, body) && st.quote == q && !st.escape
    ensures Passes(target, PrintBody(body), st)
  {
    if body != [] {
      var c := body[0].c;
      if body[0].Raw? {
        OneChar(target, c, st);
        assert Passes(target, [c], st);
      } else {
        OneChar(target, '\\', st);
        OneChar(target, c, st.(escape := true));
        Append(target, ['\\'], [c], st);
        assert ['\\'] + [c] == ['\\', c];
        assert Passes(target, ['\\', c], st);
      }
      BodyPasses(target, q, body[1..], st);
      PassBoth(target, if body[0].Raw? then [c] else ['\\', c], PrintBody(body[1..]), st);
    }
  }

  /** What must be open for text not to be mistaken for the target. */
  predicate Guarded(target: Target, st: Scan) {
    match target
    case Comma => st.angle + st.paren + st.brace + st.bracket > 0
    case CallOpen => st.angle + st.brace + st.bracket > 0
    case CallClose => st.paren >= 1
  }

  /** Matched text inside something open is passed over whole. */
  lemma {:induction false} TextPasses(target: Target, t: Text, st: Scan)
    requires ValidText(t) && Open(st) && Guarded(target, st)
    ensures Passes(target, PrintText(t), st)
    decreases t
  {
    match t {
      case End =>
      case Plain(c, rest) =>
        OneChar(target, c, st);
        TextPasses(target, rest, st);
        PassBoth(target, [c], PrintText(rest), st);
      case Quoted(q, body, rest) =>
        BodyPasses(target, q, body, st.(quote := q));
        PassAround(target, q, PrintBody(body), q, st);
        TextPasses(target, rest, st);
        PassBoth(target, [q] + PrintBody(body) + [q], PrintText(rest), st);
      case Group(b, inner, rest) =>
        TextPasses(target, inner, Step(st, Opening(b)));
        PassAround(target, Opening(b), PrintText(inner), Closing(b), st);
        TextPasses(target, rest, st);
        PassBoth(target, [Opening(b)] + PrintText(inner) + [Closing(b)], PrintText(rest), st);
    }
  }

  /** Characters that mean nothing to the scan. */
  lemma {:induction false} DullPasses(target: Target, p: string, st: Scan)
    requires Open(st) && st.angle == 0
    requires forall c :: c in p ==> !IsQuote(c) && c != ',' && (c == '>' || !IsBracket(c))
    ensures Passes(target, p, st)
    decreases |p|
  {
    if p != "" {
      OneChar(target, p[0], st);
      assert p == [p[0]] + p[1..];
      assert forall c :: c in p[1..] ==> c in p;
      DullPasses(target, p[1..], st);
      PassBoth(target, [p[0]], p[1..], st);
    }
  }

  lemma AnglesPass(target: Target, text: Text, st: Scan)
    requires ValidText(text) && Open(st) && (target == CallClose ==> st.paren >= 1)
    ensures Passes(target, ['<'] + PrintText(text) + ['>'], st)
  {
    TextPasses(target, text, Step(st, '<'));
    PassAround(target, '<', PrintText(text), '>', st);
  }

  lemma MakeTagsPasses(target: Target, st: Scan)
    requires Open(st) && st.angle == 0
    ensures Passes(target, MAKE_TAGS, st)
  {
    hide Run;
    hide Find;
    DullPasses(target, MAKE_TAGS, st);
  }

  lemma BlankPasses(target: Target, blank: string, st: Scan)
    requires Blank(blank) && Open(st) && st.angle == 0
    ensures Passes(target, blank, st)
  {
    hide Run;
    hide Find;
    DullPasses(target, blank, st);
  }

  lemma TagsPrefixPasses(target: Target, before: string, text: Text, after: string, st: Scan)
    requires Blank(before) && ValidText(text) && Blank(after) && Open(st) && st.angle == 0
    requires target == CallClose ==> st.paren >= 1
    ensures Passes(target, TagsPrefix(before, text, after), st)
  {
    hide Passes;
    hide PrintText;
    hide Blank;
    MakeTagsPasses(target, st);
    BlankPasses(target, before, st);
    BlankPasses(target, after, st);
    AnglesPass(target, text, st);
    var tags := ['<'] + PrintText(text) + ['>'];
    PassBoth(target, MAKE_TAGS, before, st);
    PassBoth(target, MAKE_TAGS + before, tags, st);
    PassBoth(target, MAKE_TAGS + before + tags, after, st);
    assert TagsPrefix(before, text, after) == MAKE_TAGS + before + tags + after;
  }

  /** An argument holds no top-level comma, and inside parentheses it does not close them. */
  lemma {:induction false} ArgPasses(target: Target, a: Arg, st: Scan)
    requires ValidArg(a) && Open(st) && st.angle == 0
    requires target != CallOpen && (target == CallClose ==> st.paren >= 1)
    ensures Passes(target, PrintArg(a), st)
    decreases a
  {
    DullPasses(target, a.lead, st);
    DullPasses(target, a.trail, st);
    match a.core {
      case Ident(name) =>
        DullPasses(target, name, st);
      case Paren(arg) =>
        ArgPasses(target, arg, Step(st, '('));
        PassAround(target, '(', PrintArg(arg), ')', st);
      case Tags(before, text, after, arg) =>
        TagsPrefixPasses(target, before, text, after, st);
        ArgPasses(target, arg, Step(st, '('));
        PassAround(target, '(', PrintArg(arg), ')', st);
        PassBoth(target, TagsPrefix(before, text, after), ['('] + PrintArg(arg) + [')'], st);
    }
    PassBoth(target, a.lead, PrintCore(a.core), st);
    PassBoth(target, a.lead + PrintCore(a.core), a.trail, st);
  }

  // ----- the names come back -----------------------------------------------------------------

  lemma {:induction false} TrimFrontBlank(lead: string, rest: string)
    requires Blank(lead) && (rest == "" || !IsSpace(rest[0]))
    ensures TrimFront(lead + rest) == rest
    decreases |lead|
  {
    if lead == "" {
      assert lead + rest == rest;
    } else {
      assert (lead + rest)[1..] == lead[1..] + rest;
      assert lead[0] in lead && IsSpace(lead[0]);
      TrimFrontBlank(lead[1..], rest);
    }
  }

  lemma {:induction false} TrimBackBlank(rest: string, trail: string)
    requires Blank(trail) && (rest == "" || !IsSpace(rest[|rest| - 1]))
    ensures TrimBack(rest + trail) == rest
    decreases |trail|
  {
    if trail == "" {
      assert rest + trail == rest;
    } else {
      assert (rest + trail)[..|rest + trail| - 1] == rest + trail[..|trail| - 1];
      assert trail[|trail| - 1] in trail && IsSpace(trail[|trail| - 1]);
      TrimBackBlank(rest, trail[..|trail| - 1]);
    }
  }

  /** Blanks around an argument are trimmed away and nothing else is. */
  lemma TrimArg(a: Arg)
    requires ValidArg(a)
    ensures Trim(PrintArg(a)) == PrintCore(a.core) != ""
  {
    var core := PrintCore(a.core);
    CoreEnds(a.core);
    assert PrintArg(a) == a.lead + (core + a.trail);
    TrimFrontBlank(a.lead, core + a.trail);
    TrimBackBlank(core, a.trail);
  }

  lemma CoreEnds(core: Core)
    requires ValidCore(core)
    ensures var s := PrintCore(core);
      && s != "" && !IsSpace(s[0]) && !IsSpace(s[|s| - 1])
      && (core.Ident? ==> s[0] != '(') && (core.Tags? ==> s[0] == 'm')
  {
    match core
    case Ident(name) =>
      assert name[0] in name && name[|name| - 1] in name;
    case Paren(arg) =>
    case Tags(before, text, after, arg) =>
  }

  /** The parenthesis before an argument is closed by the one after it. */
  lemma EnclosingParens(a: Arg)
    requires ValidArg(a)
    ensures Find(CallClose, ['('] + PrintArg(a) + [')'], ZERO) == Some(|PrintArg(a)| + 1)
  {
    var inside := Step(ZERO, '(');
    ArgPasses(CallClose, a, inside);
    OneChar(CallClose, '(', ZERO);
    OneChar(CallClose, ')', inside);
    Append(CallClose, ['('], PrintArg(a), ZERO);
    Append(CallClose, ['('] + PrintArg(a), [')'], ZERO);
  }

  /** Stripping an argument leaves a name or a tagged argument. */
  lemma {:induction false} StripArg(a: Arg)
    requires ValidArg(a)
    ensures Strip(PrintArg(a)) == match a.core case Paren(arg) => Strip(PrintArg(arg)) case _ => PrintCore(a.core)
  {
    TrimArg(a);
    CoreEnds(a.core);
    if a.core.Paren? {
      EnclosingParens(a.core.arg);
      var t := PrintCore(a.core);
      assert t[1..|t| - 1] == PrintArg(a.core.arg);
    }
  }

  /** In a tagged argument the call is found at the first parenthesis after the tags. */
  lemma TagsCall(before: string, text: Text, after: string, arg: Arg)
    requires ValidCore(Tags(before, text, after, arg))
    ensures var t, prefix := PrintCore(Tags(before, text, after, arg)), TagsPrefix(before, text, after);
      && StartsWith(t, MAKE_TAGS)
      && Find(CallOpen, t, ZERO) == Some(|prefix|)
      && Find(CallClose, t[|prefix|..], ZERO) == Some(|PrintArg(arg)| + 1)
      && t[|prefix| + 1..|prefix| + (|PrintArg(arg)| + 1)] == PrintArg(arg)
  {
    hide Find;
    hide Passes;
    hide ValidText;
    hide ValidArg;
    hide PrintArg;
    hide PrintText;
    hide StartsWith;
    hide TagsPrefix;
    hide Run;
    hide Step;
    hide Hits;
    var prefix, inner := TagsPrefix(before, text, after), PrintArg(arg);
    TagsPrefixPasses(CallOpen, before, text, after, ZERO);
    EnclosingParens(arg);
    PrefixStarts(before, text, after);
    CallAfter(prefix, inner);
    StillStarts(prefix, ['('] + inner + [')']);
  }

  lemma StillStarts(s: string, more: string)
    requires StartsWith(s, MAKE_TAGS)
    ensures StartsWith(s + more, MAKE_TAGS)
  {
  }

  lemma PrefixStarts(before: string, text: Text, after: string)
    ensures StartsWith(TagsPrefix(before, text, after), MAKE_TAGS)
  {
  }

  lemma CallAfter(prefix: string, inner: string)
    requires Passes(CallOpen, prefix, ZERO)
    ensures var call := ['('] + inner + [')'];
      var t := prefix + call;
      && Find(CallOpen, t, ZERO) == Some(|prefix|)
      && t[..|prefix|] == prefix && t[|prefix|..] == call
      && t[|prefix| + 1..|prefix| + (|inner| + 1)] == inner
  {
    var call := ['('] + inner + [')'];
    Append(CallOpen, prefix, call, ZERO);
    assert call[0] == '(';
  }

  lemma NoCallInName(name: string)
    requires ValidName(name)
    ensures Find(CallOpen, name, ZERO) == None
  {
    DullPasses(CallOpen, name, ZERO);
  }

  /** The name of an argument is found through any nesting of parentheses and tags. */
  lemma {:induction false} ArgNameFound(a: Arg)
    requires ValidArg(a)
    ensures ArgName(PrintArg(a)) == Name(a)
    decreases a
  {
    hide ArgName;
    hide Strip;
    hide Find;
    hide PrintCore;
    hide PrintArg;
    StripArg(a);
    match a.core {
      case Ident(name) =>
        NoCallInName(name);
        NameIsItself(name);
        PlainName(PrintArg(a));
      case Paren(arg) =>
        ArgNameFound(arg);
        SameStrip(PrintArg(a), PrintArg(arg));
      case Tags(before, text, after, arg) =>
        TagsCall(before, text, after, arg);
        Unwrap(PrintArg(a), |TagsPrefix(before, text, after)|, |PrintArg(arg)| + 1);
        ArgNameFound(arg);
    }
  }

  lemma NameIsItself(name: string)
    ensures PrintCore(Ident(name)) == name
  {
  }

  lemma PlainName(token: string)
    requires Find(CallOpen, Strip(token), ZERO) == None
    ensures ArgName(token) == Strip(token)
  {
  }

  lemma SameStrip(a: string, b: string)
    requires Strip(a) == Strip(b)
    ensures ArgName(a) == ArgName(b)
  {
  }

  lemma Unwrap(token: string, n: nat, m: nat)
    requires var t := Strip(token);
      && StartsWith(t, MAKE_TAGS) && Find(CallOpen, t, ZERO) == Some(n) && Find(CallClose, t[n..], ZERO) == Some(m)
    ensures m > 0 && n + m < |Strip(token)| && ArgName(token) == ArgName(Strip(token)[n + 1..n + m])
  {
    hide Find;
    hide Strip;
    var t := Strip(token);
    assert t[n] == '(' && t[n..][m] == ')' && t[n..][0] == t[n];
  }

  /** Joined arguments split again at the commas between them. */
  lemma {:induction false} SplitJoined(args: seq<Arg>)
    requires args != [] && forall a :: a in args ==> ValidArg(a)
    ensures |Split(Join(args))| == |args|
    ensures forall k :: 0 <= k < |args| ==> Split(Join(args))[k] == PrintArg(args[k])
    decreases |args|
  {
    hide PrintArg;
    hide ValidArg;
    hide Find;
    hide Run;
    var first := PrintArg(args[0]);
    ArgPasses(Comma, args[0], ZERO);
    if |args| > 1 {
      var rest := Join(args[1..]);
      SplitJoined(args[1..]);
      CommaAt(first, rest);
      assert first + [','] + rest == Join(args);
      SplitAt(Join(args), |first|);
    }
  }

  lemma SplitAt(s: string, i: nat)
    requires Find(Comma, s, ZERO) == Some(i)
    ensures Split(s) == [s[..i]] + Split(s[i + 1..])
  {
  }

  lemma CommaAt(first: string, rest: string)
    requires Passes(Comma, first, ZERO)
    ensures var s := first + [','] + rest;
      Find(Comma, s, ZERO) == Some(|first|) && s[..|first|] == first && s[|first| + 1..] == rest
  {
    Append(Comma, first, [','] + rest, ZERO);
    assert first + ([','] + rest) == first + [','] + rest;
  }

  /** Parsing the printed text of any arguments gives exactly their names, in order. */
  lemma NamesComeBack(args: seq<Arg>)
    requires args != [] && forall a :: a in args ==> ValidArg(a)
    ensures |Split(Join(args))| == |args|
    ensures forall k :: 0 <= k < |args| ==> ArgName(Split(Join(args))[k]) == Name(args[k])
  {
    SplitJoined(args);
    forall k | 0 <= k < |args| ensures ArgName(Split(Join(args))[k]) == Name(args[k]) {
      ArgNameFound(args[k]);
    }
  }
}
