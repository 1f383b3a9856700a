/** parse_line: cuts a command line into tokens in place. */
module ParseLine {

  const NUL: char := '\0'

  predicate Blank(c: char) { c == ' ' || c == '\t' }

  /** The characters at which the scan stops for good. */
  predicate EndsLine(c: char) { c == NUL || c == '\r' || c == '\n' }

  predicate Quote(c: char) { c == '"' || c == '\'' }

  /** Where a token begins, and the place behind it that becomes its NUL. */
  datatype Span = Span(start: nat, end: nat)

  /** The tokens found before the scan ended, and whether it ended without complaint. */
  datatype Parse = Parse(ok: bool, spans: seq<Span>)

  function Cons(t: Span, rest: Parse): Parse { Parse(rest.ok, [t] + rest.spans) }

  ghost predicate HasEnd(s: string, i: nat) { exists k :: i <= k < |s| && EndsLine(s[k]) }

  // ----- the tokenizer, declared -----

  /** The end of the plain token that runs through position i: the next blank, line end or quote. */
  function PlainEnd(s: string, i: nat): (e: nat)
    requires HasEnd(s, i)
    ensures i <= e < |s|
    ensures Blank(s[e]) || EndsLine(s[e]) || Quote(s[e])
    ensures forall k :: i <= k < e ==> !Blank(s[k]) && !EndsLine(s[k]) && !Quote(s[k])
    decreases |s| - i
  {
    if Blank(s[i]) || EndsLine(s[i]) || Quote(s[i]) then i else PlainEnd(s, i + 1)
  }

  /** The end of a token quoted by q: the closing quote, or the end of the line. */
  function QuotedEnd(s: string, i: nat, q: char): (e: nat)
    requires HasEnd(s, i) && Quote(q)
    ensures i <= e < |s| && (s[e] == q || EndsLine(s[e]))
    ensures forall k :: i <= k < e ==> s[k] != q && !EndsLine(s[k])
    decreases |s| - i
  {
    if s[i] == q || EndsLine(s[i]) then i else QuotedEnd(s, i + 1, q)
  }

  /** The tokens of the line from position i on: blanks are skipped, a quoted token runs to its closing quote,
      a plain one to the next blank or the end of the line. A quote inside a plain token is an error, and so is
      a quote that is not closed before the line ends. */
  function Tokens(s: string, i: nat): (r: Parse)
    requires HasEnd(s, i)
    ensures forall k :: 0 <= k < |r.spans| ==> i <= r.spans[k].start <= r.spans[k].end < |s|
    decreases |s| - i
  {
    if EndsLine(s[i]) then Parse(true, [])
    else if Blank(s[i]) then Tokens(s, i + 1)
    else if Quote(s[i]) then
      var e := QuotedEnd(s, i + 1, s[i]);
      if s[e] != s[i] then Parse(false, []) else Cons(Span(i + 1, e), Tokens(s, e + 1))
    else
      var e := PlainEnd(s, i);
      if Quote(s[e]) then Parse(false, [])
      else if EndsLine(s[e]) then Parse(true, [Span(i, e)])
      else Cons(Span(i, e), Tokens(s, e + 1))
  }

  /** The line with a NUL at the end of every token. */
  function Cut(s: string, spans: seq<Span>): (r: string)
    ensures |r| == |s|
    decreases |spans|
  {
    if spans == [] then s
    else
      var t, rest := spans[|spans| - 1], Cut(s, spans[..|spans| - 1]);
      if t.end < |s| then rest[t.end := NUL] else rest
  }

  function Starts(spans: seq<Span>): seq<nat> { seq(|spans|, i requires 0 <= i < |spans| => spans[i].start) }

  // ----- the code -----

  datatype State = Pending | Plain | Quoted(q: char)

  /** What the scan still finds when it stands at position i in the given state. */
  function RestFrom(s: string, i: nat, state: State, start: nat): Parse
    requires HasEnd(s, i) && (state.Quoted? ==> Quote(state.q))
  {
    match state
    case Pending => Tokens(s, i)
    case Plain =>
      var e := PlainEnd(s, i);
      if Quote(s[e]) then Parse(false, [])
      else if EndsLine(s[e]) then Parse(true, [Span(start, e)])
      else Cons(Span(start, e), Tokens(s, e + 1))
    case Quoted(q) =>
      var e := QuotedEnd(s, i, q);
      if s[e] != q then Parse(false, []) else Cons(Span(start, e), Tokens(s, e + 1))
  }

  /** One character of the scan. */
  lemma ScanStep(s: string, i: nat, state: State, start: nat)
    requires HasEnd(s, i) && (state.Quoted? ==> Quote(state.q))
    ensures !EndsLine(s[i]) ==> HasEnd(s, i + 1)
    ensures var here := RestFrom(s, i, state, start);
      var token := Span(start, i);
      match state
      case Pending =>
        if EndsLine(s[i]) then here == Parse(true, [])
        else if Quote(s[i]) then here == RestFrom(s, i + 1, Quoted(s[i]), i + 1)
        else here == RestFrom(s, i + 1, if Blank(s[i]) then Pending else Plain, i)
      case Plain =>
        if EndsLine(s[i]) then here == Parse(true, [token])
        else if Quote(s[i]) then here == Parse(false, [])
        else if Blank(s[i]) then here == Cons(token, RestFrom(s, i + 1, Pending, start))
        else here == RestFrom(s, i + 1, Plain, start)
      case Quoted(q) =>
        if EndsLine(s[i]) then here == Parse(false, [])
        else if s[i] == q then here == Cons(token, RestFrom(s, i + 1, Pending, start))
        else here == RestFrom(s, i + 1, state, start)
  {
    if !EndsLine(s[i]) {
      HasEndBehind(s, i);
    }
  }

  lemma HasEndBehind(s: string, i: nat)
    requires HasEnd(s, i) && !EndsLine(s[i])
    ensures HasEnd(s, i + 1)
  {
  }

  lemma PendingIgnoresStart(s: string, i: nat, a: nat, b: nat)
    requires HasEnd(s, i)
    ensures RestFrom(s, i, Pending, a) == RestFrom(s, i, Pending, b) == Tokens(s, i)
  {
  }

  /** parse_line. A token is the index where its characters begin. */
  method ParseLine(line: array<char>) returns (r: int, tokens: seq<nat>)
    requires HasEnd(line[..], 0)
    modifies line
    ensures r == if Tokens(old(line[..]), 0).ok then 0 else -1
    ensures tokens == Starts(Tokens(old(line[..]), 0).spans)
    ensures line[..] == Cut(old(line[..]), Tokens(old(line[..]), 0).spans)
  {
    hide RestFrom, Tokens, Cut, Starts, Joined, Cons;
    ghost var s := line[..];
    PendingIgnoresStart(s, 0, 0, 0);
    CutNothing(s);
    ghost var spans: seq<Span> := [];
    var state := Pending;
    tokens := [];
    var start, i := 0, 0;
    var term := false;
    while !term
      invariant i <= line.Length == |s| && forall k :: i <= k < |s| ==> line[k] == s[k]
      invariant tokens == Starts(spans) && line[..] == Cut(s, spans)
      invariant state.Quoted? ==> Quote(state.q)
      invariant !term ==> HasEnd(s, i)
      invariant Tokens(s, 0) ==
        if !term then Joined(spans, RestFrom(s, i, state, start)) else Parse(state.Pending?, spans)
      decreases !term, line.Length - i
    {
      var ch := line[i];
      ScanStep(s, i, state, start);
      if !EndsLine(ch) {
        PendingIgnoresStart(s, i + 1, start, i);
      }
      match state {
        case Pending =>
          if Quote(ch) {
            state := Quoted(ch);
            start := i + 1;
          } else if !Blank(ch) && !EndsLine(ch) {
            state := Plain;
            start := i;
          }
        case Plain =>
          if Blank(ch) || EndsLine(ch) {
            line[i] := NUL;
            CutOne(s, spans, start, i);
            tokens, spans := tokens + [start], spans + [Span(start, i)];
            state := Pending;
          } else if Quote(ch) {
            return -1, tokens;
          }
        case Quoted(q) =>
          if ch == NUL {
            return -1, tokens;
          } else if ch == q {
            line[i] := NUL;
            CutOne(s, spans, start, i);
            tokens, spans := tokens + [start], spans + [Span(start, i)];
            state := Pending;
          }
      }
      i := i + 1;
      term := EndsLine(ch);
    }
    r := if state.Pending? then 0 else -1;
  }

  function Joined(front: seq<Span>, p: Parse): (r: Parse)
    ensures p.spans == [] ==> r == Parse(p.ok, front)
  {
    Parse(p.ok, front + p.spans)
  }

  lemma CutNothing(s: string)
    ensures Cut(s, []) == s && Starts([]) == []
    ensures forall p :: Joined([], p) == p
  {
  }

  lemma CutOne(s: string, spans: seq<Span>, start: nat, i: nat)
    requires i < |s|
    ensures Cut(s, spans + [Span(start, i)]) == Cut(s, spans)[i := NUL]
    ensures Starts(spans + [Span(start, i)]) == Starts(spans) + [start]
    ensures forall p: Parse :: Joined(spans + [Span(start, i)], p) == Joined(spans, Cons(Span(start, i), p))
    ensures Joined(spans, Parse(true, [Span(start, i)])) == Parse(true, spans + [Span(start, i)])
  {
    assert (spans + [Span(start, i)])[..|spans|] == spans;
    forall p: Parse ensures Joined(spans + [Span(start, i)], p) == Joined(spans, Cons(Span(start, i), p)) {
      assert spans + [Span(start, i)] + p.spans == spans + ([Span(start, i)] + p.spans);
    }
  }

  // ----- what the tokens are -----

  /** The first position that ends the line. */
  function LineEnd(s: string, i: nat): (e: nat)
    requires HasEnd(s, i)
    ensures i <= e < |s| && EndsLine(s[e]) && forall k :: i <= k < e ==> !EndsLine(s[k])
    decreases |s| - i
  {
    if EndsLine(s[i]) then i else LineEnd(s, i + 1)
  }

  /** From position i on: tokens in order, apart, and inside the line. */
  ghost predicate InOrder(spans: seq<Span>, i: nat, end: nat)
  {
    && (forall k :: 0 <= k < |spans| ==> i <= spans[k].start <= spans[k].end <= end)
    && (forall j, k :: 0 <= j < k < |spans| ==> spans[j].end < spans[k].start)
  }

  lemma FewInOrder(i: nat, end: nat)
    ensures InOrder([], i, end)
    ensures forall t: Span :: i <= t.start <= t.end <= end ==> InOrder([t], i, end)
    ensures forall spans, j :: InOrder(spans, j, end) && i <= j ==> InOrder(spans, i, end)
  {
  }

  lemma PrependToken(t: Span, rest: seq<Span>, i: nat, end: nat)
    requires i <= t.start <= t.end <= end && InOrder(rest, t.end + 1, end)
    ensures InOrder([t] + rest, i, end)
  {
    var all := [t] + rest;
    assert forall k :: 0 < k < |all| ==> all[k] == rest[k - 1];
  }

  /** Tokens lie in order and apart before the end of the line, and there are at most half as many of them
      as characters read. */
  lemma {:induction false} TokensAreInOrder(s: string, i: nat)
    requires HasEnd(s, i)
    ensures InOrder(Tokens(s, i).spans, i, LineEnd(s, i))
    ensures 2 * |Tokens(s, i).spans| <= LineEnd(s, i) + 1 - i
    decreases |s| - i
  {
    hide Tokens, InOrder;
    FewInOrder(i, LineEnd(s, i));
    if EndsLine(s[i]) {
      NoTokens(s, i);
    } else if Blank(s[i]) {
      TokensAtBlank(s, i);
      SameLineEnd(s, i, i + 1);
      TokensAreInOrder(s, i + 1);
    } else {
      var at, e := FirstToken(s, i);
      SameLineEnd(s, i, e);
      if Tokens(s, i).spans != [] && !EndsLine(s[e]) {
        TokensAreInOrder(s, e + 1);
        SameLineEnd(s, i, e + 1);
        PrependToken(Span(at, e), Tokens(s, e + 1).spans, i, LineEnd(s, i));
      }
    }
  }

  /** The token that begins at position i ends at e; what follows it comes after. */
  lemma FirstToken(s: string, i: nat) returns (at: nat, e: nat)
    requires HasEnd(s, i) && !EndsLine(s[i]) && !Blank(s[i])
    ensures i <= at <= e < |s| && i < e && forall k :: i <= k < e ==> !EndsLine(s[k])
    ensures var p := Tokens(s, i);
      || p.spans == []
      || (EndsLine(s[e]) && p.spans == [Span(at, e)])
      || (!EndsLine(s[e]) && HasEnd(s, e + 1) && p == Cons(Span(at, e), Tokens(s, e + 1)))
  {
    at := if Quote(s[i]) then i + 1 else i;
    e := if Quote(s[i]) then QuotedEnd(s, i + 1, s[i]) else PlainEnd(s, i);
  }

  lemma {:induction false} SameLineEnd(s: string, i: nat, j: nat)
    requires HasEnd(s, i) && i <= j && forall k :: i <= k < j && k < |s| ==> !EndsLine(s[k])
    ensures HasEnd(s, j) && LineEnd(s, j) == LineEnd(s, i)
    decreases j - i
  {
    if i < j {
      SameLineEnd(s, i + 1, j);
    }
  }

  lemma {:induction false} CutAt(s: string, spans: seq<Span>, k: nat)
    requires k < |s|
    ensures Cut(s, spans)[k] == if exists j :: 0 <= j < |spans| && spans[j].end == k then NUL else s[k]
    decreases |spans|
  {
    if spans != [] {
      var n := |spans| - 1;
      CutAt(s, spans[..n], k);
      assert forall j :: 0 <= j < n ==> spans[..n][j] == spans[j];
      if spans[n].end != k {
        assert (exists j :: 0 <= j < |spans| && spans[j].end == k) <==> (exists j :: 0 <= j < n && spans[..n][j].end == k);
      }
    }
  }

  /** After all the NULs are written, the pointer to a token reads as the token's own characters, and the line is
      as it was behind its end. */
  lemma TokenReadsBack(s: string, j: nat)
    requires HasEnd(s, 0) && j < |Tokens(s, 0).spans|
    ensures var t := Tokens(s, 0).spans[j];
      var after := Cut(s, Tokens(s, 0).spans);
      && after[t.start..t.end] == s[t.start..t.end] && after[t.end] == NUL
      && (forall k :: LineEnd(s, 0) < k < |s| ==> after[k] == s[k])
  {
    var spans := Tokens(s, 0).spans;
    var t, after := spans[j], Cut(s, spans);
    TokensAreInOrder(s, 0);
    CutAt(s, spans, t.end);
    hide Tokens, Cut;
    forall k | t.start <= k < t.end ensures after[k] == s[k] {
      CutAt(s, spans, k);
    }
    forall k | LineEnd(s, 0) < k < |s| ensures after[k] == s[k] {
      CutAt(s, spans, k);
    }
  }

  // ----- printing and parsing -----

  /** The texts of the spans of a line. */
  function Texts(s: string, spans: seq<Span>): seq<string>
    requires forall k :: 0 <= k < |spans| ==> spans[k].start <= spans[k].end <= |s|
  {
    if spans == [] then [] else [s[spans[0].start..spans[0].end]] + Texts(s, spans[1..])
  }

  datatype Style = Bare | Double | Single

  /** A text that a style can carry. */
  predicate Suits(t: string, style: Style)
  {
    && (forall k :: 0 <= k < |t| ==> !EndsLine(t[k]))
    && match style {
         case Bare => t != "" && forall k :: 0 <= k < |t| ==> !Blank(t[k]) && !Quote(t[k])
         case Double => '"' !in t
         case Single => '\'' !in t
       }
  }

  function Printed(t: string, style: Style): string
  {
    match style
    case Bare => t + " "
    case Double => "\"" + t + "\" "
    case Single => "'" + t + "' "
  }

  function PrintAll(ts: seq<string>, styles: seq<Style>): string
    requires |ts| == |styles|
  {
    if ts == [] then "" else Printed(ts[0], styles[0]) + PrintAll(ts[1..], styles[1..])
  }

  /** Printing texts in suitable quotes and parsing the line gives them back, whatever follows the line's end. */
  lemma {:induction false} PrintThenParse(s: string, i: nat, ts: seq<string>, styles: seq<Style>, rest: string)
    requires |ts| == |styles| && forall k :: 0 <= k < |ts| ==> Suits(ts[k], styles[k])
    requires rest != "" && EndsLine(rest[0])
    requires i <= |s| && s[i..] == PrintAll(ts, styles) + rest
    ensures HasEnd(s, i)
    ensures Tokens(s, i).ok && Texts(s, Tokens(s, i).spans) == ts
    decreases |ts|
  {
    hide Tokens, Suits, Texts, Printed;
    if ts == [] {
      assert s[i..] == rest;
      assert s[i] == s[i..][0];
      NoTokens(s, i);
      NoTexts(s);
    } else {
      var head, more := Printed(ts[0], styles[0]), PrintAll(ts[1..], styles[1..]);
      assert PrintAll(ts, styles) == head + more;
      hide PrintAll;
      BehindHead(s, i, head, more, rest);
      PrintThenParse(s, i + |head|, ts[1..], styles[1..], rest);
      OneToken(s, i, ts[0], styles[0], more + rest);
      var at := if styles[0].Bare? then i else i + 1;
      TextsOfCons(s, Span(at, at + |ts[0]|), Tokens(s, i + |head|));
    }
  }

  lemma NoTexts(s: string)
    ensures Texts(s, []) == []
  {
  }

  lemma BehindHead(s: string, i: nat, head: string, more: string, rest: string)
    requires i <= |s| && s[i..] == head + more + rest
    ensures s[i..] == head + (more + rest)
    ensures i + |head| <= |s| && s[i + |head|..] == more + rest
  {
    assert s[i..][|head|..] == more + rest;
    assert s[i..][|head|..] == s[i + |head|..];
  }

  lemma TextsOfCons(s: string, t: Span, p: Parse)
    requires t.start <= t.end <= |s|
    requires forall k :: 0 <= k < |p.spans| ==> p.spans[k].start <= p.spans[k].end <= |s|
    ensures Texts(s, Cons(t, p).spans) == [s[t.start..t.end]] + Texts(s, p.spans)
  {
    assert ([t] + p.spans)[1..] == p.spans;
  }

  lemma NoTokens(s: string, i: nat)
    requires i < |s| && EndsLine(s[i])
    ensures Tokens(s, i) == Parse(true, [])
  {
  }

  /** Reading one printed text and the blank behind it. */
  lemma OneToken(s: string, i: nat, t: string, style: Style, tail: string)
    requires Suits(t, style) && i <= |s| && s[i..] == Printed(t, style) + tail && HasEnd(s, i + |Printed(t, style)|)
    ensures var at := if style.Bare? then i else i + 1;
      && HasEnd(s, i) && at + |t| <= |s| && s[at..at + |t|] == t
      && Tokens(s, i) == Cons(Span(at, at + |t|), Tokens(s, i + |Printed(t, style)|))
  {
    hide Tokens;
    var p := Printed(t, style);
    assert forall k :: 0 <= k < |p| ==> s[i + k] == s[i..][k] == p[k];
    if style.Bare? {
      assert forall k :: 0 <= k < |t| ==> p[k] == t[k];
      BareToken(s, i, t);
    } else {
      assert forall k :: 0 <= k < |t| ==> p[k + 1] == t[k];
      QuotedToken(s, i, t, if style.Double? then '"' else '\'');
    }
  }

  lemma BareToken(s: string, i: nat, t: string)
    requires Suits(t, Bare) && HasEnd(s, i + |t| + 1)
    requires s[i + |t|] == ' ' && forall k :: 0 <= k < |t| ==> s[i + k] == t[k]
    ensures HasEnd(s, i) && s[i..i + |t|] == t
    ensures Tokens(s, i) == Cons(Span(i, i + |t|), Tokens(s, i + |t| + 1))
  {
    hide Tokens;
    assert forall k :: i <= k < i + |t| ==> s[k] == t[k - i];
    PlainEndIs(s, i, i + |t|);
    TokensAtPlain(s, i);
  }

  lemma TokensAtPlain(s: string, i: nat)
    requires HasEnd(s, i) && !EndsLine(s[i]) && !Blank(s[i]) && !Quote(s[i]) && Blank(s[PlainEnd(s, i)])
    ensures HasEnd(s, PlainEnd(s, i) + 1)
    ensures Tokens(s, i) == Cons(Span(i, PlainEnd(s, i)), Tokens(s, PlainEnd(s, i) + 1))
  {
  }

  lemma QuotedToken(s: string, i: nat, t: string, q: char)
    requires Quote(q) && q !in t && (forall k :: 0 <= k < |t| ==> !EndsLine(t[k])) && HasEnd(s, i + |t| + 3)
    requires s[i] == q && s[i + 1 + |t|] == q && s[i + 2 + |t|] == ' '
    requires forall k :: 0 <= k < |t| ==> s[i + 1 + k] == t[k]
    ensures HasEnd(s, i) && s[i + 1..i + 1 + |t|] == t
    ensures Tokens(s, i) == Cons(Span(i + 1, i + 1 + |t|), Tokens(s, i + |t| + 3))
  {
    hide Tokens;
    assert forall k :: i + 1 <= k < i + 1 + |t| ==> s[k] == t[k - i - 1];
    QuotedEndIs(s, i + 1, q, i + 1 + |t|);
    TokensAtQuote(s, i);
    TokensAtBlank(s, i + |t| + 2);
  }

  lemma TokensAtQuote(s: string, i: nat)
    requires HasEnd(s, i) && HasEnd(s, i + 1) && Quote(s[i]) && s[QuotedEnd(s, i + 1, s[i])] == s[i]
    ensures var e := QuotedEnd(s, i + 1, s[i]);
      HasEnd(s, e + 1) && Tokens(s, i) == Cons(Span(i + 1, e), Tokens(s, e + 1))
  {
  }

  lemma TokensAtBlank(s: string, i: nat)
    requires HasEnd(s, i) && Blank(s[i])
    ensures HasEnd(s, i + 1) && Tokens(s, i) == Tokens(s, i + 1)
  {
  }

  lemma {:induction false} PlainEndIs(s: string, i: nat, e: nat)
    requires HasEnd(s, i) && i <= e < |s| && (Blank(s[e]) || EndsLine(s[e]) || Quote(s[e]))
    requires forall k :: i <= k < e ==> !Blank(s[k]) && !EndsLine(s[k]) && !Quote(s[k])
    ensures PlainEnd(s, i) == e
  {
  }

  lemma {:induction false} QuotedEndIs(s: string, i: nat, q: char, e: nat)
    requires HasEnd(s, i) && Quote(q) && i <= e < |s| && (s[e] == q || EndsLine(s[e]))
    requires forall k :: i <= k < e ==> s[k] != q && !EndsLine(s[k])
    ensures QuotedEnd(s, i, q) == e
  {
  }

  /** Every token of every line suits one of the styles. */
  lemma {:induction false} TokensSuitAStyle(s: string, i: nat, j: nat)
    requires HasEnd(s, i) && j < |Tokens(s, i).spans|
    ensures var t := Tokens(s, i).spans[j]; Printable(s[t.start..t.end])
    decreases |s| - i
  {
    hide Tokens, Printable;
    if EndsLine(s[i]) {
      NoTokens(s, i);
    } else if Blank(s[i]) {
      TokensAtBlank(s, i);
      TokensSuitAStyle(s, i + 1, j);
    } else if j == 0 {
      FirstTokenSuits(s, i);
    } else {
      var at, e := FirstToken(s, i);
      TokensSuitAStyle(s, e + 1, j - 1);
    }
  }

  lemma FirstTokenSuits(s: string, i: nat)
    requires HasEnd(s, i) && !EndsLine(s[i]) && !Blank(s[i]) && Tokens(s, i).spans != []
    ensures var t := Tokens(s, i).spans[0]; Printable(s[t.start..t.end])
  {
  }

  predicate Printable(t: string)
  {
    (forall k :: 0 <= k < |t| ==> !EndsLine(t[k])) && !('"' in t && '\'' in t)
  }

  lemma {:induction false} TextAt(s: string, spans: seq<Span>, k: nat)
    requires forall j :: 0 <= j < |spans| ==> spans[j].start <= spans[j].end <= |s|
    requires k < |spans|
    ensures |Texts(s, spans)| == |spans| && Texts(s, spans)[k] == s[spans[k].start..spans[k].end]
  {
    if k > 0 {
      TextAt(s, spans[1..], k - 1);
    } else if |spans| > 1 {
      TextAt(s, spans[1..], 0);
    }
  }

  ghost predicate Parses(s: string, ts: seq<string>)
  {
    HasEnd(s, 0) && Tokens(s, 0).ok && Texts(s, Tokens(s, 0).spans) == ts
  }

  /** The lists of texts that some line is parsed into are exactly those of printable texts: free of line ends
      and of one of the two quotes. */
  lemma ParsedIffPrintable(ts: seq<string>)
    ensures (exists s :: Parses(s, ts)) <==> forall k :: 0 <= k < |ts| ==> Printable(ts[k])
  {
    if s :| Parses(s, ts) {
      var spans := Tokens(s, 0).spans;
      if spans != [] {
        TextAt(s, spans, 0);
      }
      forall k | 0 <= k < |ts| ensures Printable(ts[k]) {
        TextAt(s, spans, k);
        TokensSuitAStyle(s, 0, k);
      }
    }
    if forall k :: 0 <= k < |ts| ==> Printable(ts[k]) {
      var styles := seq(|ts|, k requires 0 <= k < |ts| => if '"' in ts[k] then Single else Double);
      var s := PrintAll(ts, styles) + [NUL];
      assert s[0..] == s;
      PrintThenParse(s, 0, ts, styles, [NUL]);
      assert Parses(s, ts);
    }
  }
}
