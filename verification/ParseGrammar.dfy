/** The lines that parse_line accepts, as a grammar over characters: blanks and tabs, then tokens, bare or in quotes, with
    blanks and tabs behind them, up to a NUL, CR or LF. */
module ParseGrammar {
  import opened ParseLine

  predicate Sep(s: string) { forall k :: 0 <= k < |s| ==> s[k] == ' ' || s[k] == '\t' }

  predicate LineBreak(c: char) { c == '\0' || c == '\r' || c == '\n' }

  /** A token and the blanks and tabs behind it. */
  datatype Piece =
    | Unquoted(text: string, sep: string)
    | InQuotes(q: char, text: string, sep: string)

  function Show(p: Piece): string
  {
    match p
    case Unquoted(text, sep) => text + sep
    case InQuotes(q, text, sep) => [q] + text + [q] + sep
  }

  function ShowAll(ps: seq<Piece>): string
  {
    if ps == [] then "" else Show(ps[0]) + ShowAll(ps[1..])
  }

  predicate ProperPiece(p: Piece, last: bool)
  {
    && Sep(p.sep) && (forall k :: 0 <= k < |p.text| ==> !LineBreak(p.text[k]))
    && match p
       case Unquoted(text, sep) =>
         && text != "" && (!last ==> sep != "")
         && forall k :: 0 <= k < |text| ==> text[k] != ' ' && text[k] != '\t' && text[k] != '"' && text[k] != '\''
       case InQuotes(q, text, _) => (q == '"' || q == '\'') && forall k :: 0 <= k < |text| ==> text[k] != q
  }

  /** Bare tokens are not empty, hold no blank, tab or quote, and stand apart from the next token; quoted ones may hold
      anything but their own quote. No token holds a line break. */
  predicate Proper(ps: seq<Piece>)
  {
    forall i :: 0 <= i < |ps| ==> ProperPiece(ps[i], i == |ps| - 1)
  }

  function TextsOf(ps: seq<Piece>): seq<string> { seq(|ps|, i requires 0 <= i < |ps| => ps[i].text) }

  // ----- every line of the grammar is parsed -----

  /** Position i of the line is where these blanks, tokens and the rest begin. */
  predicate StandsAt(s: string, i: nat, lead: string, ps: seq<Piece>, rest: string)
  {
    && Sep(lead) && Proper(ps) && rest != "" && LineBreak(rest[0])
    && i <= |s| && s[i..] == lead + ShowAll(ps) + rest
  }

  ghost predicate ReadAs(s: string, i: nat, ps: seq<Piece>)
  {
    HasEnd(s, i) && Tokens(s, i).ok && Texts(s, Tokens(s, i).spans) == TextsOf(ps)
  }

  /** A line of the grammar is accepted, and its tokens are the texts. */
  lemma {:induction false} LineIsParsed(s: string, i: nat, lead: string, ps: seq<Piece>, rest: string)
    requires StandsAt(s, i, lead, ps, rest)
    ensures ReadAs(s, i, ps)
    decreases |ps|, |lead|
  {
    hide StandsAt, ReadAs;
    if lead != "" {
      BehindBlank(s, i, lead, ps, rest);
      LineIsParsed(s, i + 1, lead[1..], ps, rest);
      BlankIsRead(s, i, lead, ps, rest);
    } else if ps == [] {
      NothingIsRead(s, i, rest);
    } else {
      var p := ps[0];
      if p.InQuotes? {
        BehindQuoted(s, i, ps, rest);
        LineIsParsed(s, i + 2 + |p.text|, p.sep, ps[1..], rest);
        QuotedIsParsed(s, i, ps, rest);
      } else if p.sep == "" {
        LastIsParsed(s, i, ps, rest);
      } else {
        BehindBare(s, i, ps, rest);
        LineIsParsed(s, i + |p.text| + 1, p.sep[1..], ps[1..], rest);
        BareIsParsed(s, i, ps, rest);
      }
    }
  }

  lemma BehindBlank(s: string, i: nat, lead: string, ps: seq<Piece>, rest: string)
    requires StandsAt(s, i, lead, ps, rest) && lead != ""
    ensures StandsAt(s, i + 1, lead[1..], ps, rest) && s[i] == lead[0]
  {
    hide Proper, ShowAll;
    BehindHead(s, i, lead[..1], lead[1..] + ShowAll(ps), rest);
    assert lead[..1] + (lead[1..] + ShowAll(ps)) + rest == lead + ShowAll(ps) + rest;
    assert s[i] == s[i..][0];
  }

  lemma BlankIsRead(s: string, i: nat, lead: string, ps: seq<Piece>, rest: string)
    requires StandsAt(s, i, lead, ps, rest) && lead != "" && ReadAs(s, i + 1, ps)
    ensures ReadAs(s, i, ps)
  {
    hide Proper, ShowAll, Tokens, Texts;
    assert s[i] == s[i..][0] == lead[0];
    TokensAtBlank2(s, i);
  }

  lemma NothingIsRead(s: string, i: nat, rest: string)
    requires StandsAt(s, i, "", [], rest)
    ensures ReadAs(s, i, [])
  {
    assert s[i..] == rest && s[i] == s[i..][0];
    NoTokens(s, i);
    NoTexts(s);
  }

  lemma SplitQuoted(head: string, sep: string, more: string, rest: string)
    ensures "" + (head + sep + more) + rest == head + (sep + more) + rest == head + (sep + more + rest)
  {
  }

  lemma SplitBare(text: string, sep: string, more: string, rest: string)
    requires sep != ""
    ensures "" + (text + sep + more) + rest == text + sep[..1] + (sep[1..] + more) + rest == text + (sep + more + rest)
  {
  }

  lemma BehindQuoted(s: string, i: nat, ps: seq<Piece>, rest: string)
    requires StandsAt(s, i, "", ps, rest) && ps != [] && ps[0].InQuotes?
    ensures StandsAt(s, i + 2 + |ps[0].text|, ps[0].sep, ps[1..], rest)
    ensures s[i..] == [ps[0].q] + ps[0].text + [ps[0].q] + (ps[0].sep + ShowAll(ps[1..]) + rest)
  {
    hide Tokens, Texts, TextsOf, Proper, ProperPiece, ShowAll, Show, Sep, HasEnd, LineBreak, LineEnd, Blank, Quote, EndsLine;
    ShowMore(ps);
    ProperMore(ps);
    var p := ps[0];
    var head := [p.q] + p.text + [p.q];
    SplitQuoted(head, p.sep, ShowAll(ps[1..]), rest);
    BehindHead(s, i, head, p.sep + ShowAll(ps[1..]), rest);
  }

  lemma QuotedIsParsed(s: string, i: nat, ps: seq<Piece>, rest: string)
    requires StandsAt(s, i, "", ps, rest) && ps != [] && ps[0].InQuotes? && ReadAs(s, i + 2 + |ps[0].text|, ps[1..])
    ensures ReadAs(s, i, ps)
  {
    hide Tokens, Texts, TextsOf, Proper, ProperPiece, ShowAll, Show, Sep, HasEnd, LineBreak, LineEnd, StandsAt, Blank, Quote, EndsLine;
    BehindQuoted(s, i, ps, rest);
    StandsProper(s, i, ps, rest);
    ProperMore(ps);
    var p := ps[0];
    QuotedIsRead(s, i, p, |ps| == 1, p.sep + ShowAll(ps[1..]) + rest);
    TextsOfCons(s, Span(i + 1, i + 1 + |p.text|), Tokens(s, i + 2 + |p.text|));
    TextsMore(ps);
  }

  lemma BehindBare(s: string, i: nat, ps: seq<Piece>, rest: string)
    requires StandsAt(s, i, "", ps, rest) && ps != [] && ps[0].Unquoted? && ps[0].sep != ""
    ensures StandsAt(s, i + |ps[0].text| + 1, ps[0].sep[1..], ps[1..], rest)
    ensures s[i..] == ps[0].text + (ps[0].sep + ShowAll(ps[1..]) + rest)
  {
    hide Tokens, Texts, TextsOf, Proper, ProperPiece, ShowAll, Show, Sep, HasEnd, LineBreak, LineEnd, Blank, Quote, EndsLine;
    ShowMore(ps);
    ProperMore(ps);
    var p := ps[0];
    var head, more := p.text + p.sep[..1], p.sep[1..] + ShowAll(ps[1..]);
    SplitBare(p.text, p.sep, ShowAll(ps[1..]), rest);
    BehindHead(s, i, head, more, rest);
  }

  lemma BareIsParsed(s: string, i: nat, ps: seq<Piece>, rest: string)
    requires StandsAt(s, i, "", ps, rest) && ps != [] && ps[0].Unquoted? && ps[0].sep != ""
    requires ReadAs(s, i + |ps[0].text| + 1, ps[1..])
    ensures ReadAs(s, i, ps)
  {
    hide Tokens, Texts, TextsOf, Proper, ProperPiece, ShowAll, Show, Sep, HasEnd, LineBreak, LineEnd, StandsAt, Blank, Quote, EndsLine;
    BehindBare(s, i, ps, rest);
    StandsProper(s, i, ps, rest);
    ProperMore(ps);
    var p := ps[0];
    var e := i + |p.text|;
    SepBegins(p.sep, ShowAll(ps[1..]) + rest);
    assert p.sep + ShowAll(ps[1..]) + rest == p.sep + (ShowAll(ps[1..]) + rest);
    BareIsRead(s, i, p, |ps| == 1, p.sep + ShowAll(ps[1..]) + rest);
    MoreBare(s, i, e);
    TextsOfCons(s, Span(i, e), Tokens(s, e + 1));
    TextsMore(ps);
  }

  /** Only the last token of a line may stand right in front of the line break. */
  lemma LastIsParsed(s: string, i: nat, ps: seq<Piece>, rest: string)
    requires StandsAt(s, i, "", ps, rest) && ps != [] && ps[0].Unquoted? && ps[0].sep == ""
    ensures ReadAs(s, i, ps)
  {
    ShowMore(ps);
    ProperMore(ps);
    ShowNone();
    var p := ps[0];
    assert |ps| == 1 && ps[1..] == [];
    hide Tokens, Texts, Proper, ShowAll;
    assert s[i..] == p.text + rest;
    BareIsRead(s, i, p, true, rest);
    LastBare(s, i, i + |p.text|);
    assert TextsOf(ps) == [p.text];
  }

  lemma StandsProper(s: string, i: nat, ps: seq<Piece>, rest: string)
    requires StandsAt(s, i, "", ps, rest)
    ensures Proper(ps) && i <= |s|
  {
  }

  lemma SepBegins(sep: string, behind: string)
    requires Sep(sep) && sep != ""
    ensures (sep + behind)[0] == ' ' || (sep + behind)[0] == '\t'
  {
  }

  lemma TextsMore(ps: seq<Piece>)
    requires ps != []
    ensures TextsOf(ps) == [ps[0].text] + TextsOf(ps[1..])
  {
  }

  lemma ShowNone()
    ensures ShowAll([]) == ""
  {
  }

  lemma ShowMore(ps: seq<Piece>)
    requires ps != []
    ensures ShowAll(ps) == match ps[0]
      case Unquoted(text, sep) => text + sep + ShowAll(ps[1..])
      case InQuotes(q, text, sep) => [q] + text + [q] + sep + ShowAll(ps[1..])
  {
  }

  lemma ProperMore(ps: seq<Piece>)
    requires Proper(ps) && ps != []
    ensures Proper(ps[1..]) && ProperPiece(ps[0], |ps| == 1) && Sep(ps[0].sep)
    ensures ps[0].Unquoted? && |ps| > 1 ==> ps[0].sep != ""
    ensures forall k :: 0 <= k < |ps[0].sep| ==> Sep(ps[0].sep[k..])
  {
    assert forall i :: 0 <= i < |ps[1..]| ==> ps[1..][i] == ps[i + 1];
  }

  lemma TokensAtBlank2(s: string, i: nat)
    requires i < |s| && (s[i] == ' ' || s[i] == '\t') && HasEnd(s, i + 1)
    ensures HasEnd(s, i) && Tokens(s, i) == Tokens(s, i + 1)
  {
    var k :| i + 1 <= k < |s| && EndsLine(s[k]);
    assert HasEnd(s, i);
  }

  lemma BareIsRead(s: string, i: nat, p: Piece, last: bool, behind: string)
    requires p.Unquoted? && ProperPiece(p, last) && i <= |s| && s[i..] == p.text + behind && behind != ""
    requires behind[0] == ' ' || behind[0] == '\t' || LineBreak(behind[0])
    ensures var e := i + |p.text|;
      && i < e < |s| && s[e] == behind[0] && s[i..e] == p.text
      && (forall k :: i <= k < e ==> !Blank(s[k]) && !EndsLine(s[k]) && !Quote(s[k]))
  {
    var e := i + |p.text|;
    assert s[e] == s[i..][|p.text|];
    forall k | i <= k < e ensures s[k] == p.text[k - i] {
      assert s[k] == s[i..][k - i];
    }
  }

  lemma LastBare(s: string, i: nat, e: nat)
    requires i < e < |s| && LineBreak(s[e])
    requires forall k :: i <= k < e ==> !Blank(s[k]) && !EndsLine(s[k]) && !Quote(s[k])
    ensures HasEnd(s, i) && Tokens(s, i) == Parse(true, [Span(i, e)])
    ensures Texts(s, [Span(i, e)]) == [s[i..e]]
  {
    assert EndsLine(s[e]);
    assert HasEnd(s, i);
    PlainEndIs(s, i, e);
    assert [Span(i, e)][1..] == [];
  }

  lemma MoreBare(s: string, i: nat, e: nat)
    requires i < e < |s| && (s[e] == ' ' || s[e] == '\t') && HasEnd(s, e + 1)
    requires forall k :: i <= k < e ==> !Blank(s[k]) && !EndsLine(s[k]) && !Quote(s[k])
    ensures HasEnd(s, i) && Tokens(s, i) == Cons(Span(i, e), Tokens(s, e + 1))
  {
    var k :| e + 1 <= k < |s| && EndsLine(s[k]);
    assert HasEnd(s, i);
    PlainEndIs(s, i, e);
  }

  lemma QuotedIsRead(s: string, i: nat, p: Piece, last: bool, behind: string)
    requires p.InQuotes? && ProperPiece(p, last) && i <= |s| && s[i..] == [p.q] + p.text + [p.q] + behind
    requires HasEnd(s, i + 2 + |p.text|)
    ensures var e := i + 1 + |p.text|;
      && HasEnd(s, i) && e < |s| && s[i + 1..e] == p.text && Tokens(s, i) == Cons(Span(i + 1, e), Tokens(s, e + 1))
  {
    var e := i + 1 + |p.text|;
    QuotedStands(s, i, p.q, p.text, behind);
    EndIsFurther(s, i, e + 1);
    EndIsFurther(s, i + 1, e + 1);
    QuotedEndIs(s, i + 1, p.q, e);
    hide HasEnd, QuotedEnd;
  }

  lemma EndIsFurther(s: string, i: nat, j: nat)
    requires HasEnd(s, j) && i <= j
    ensures HasEnd(s, i)
  {
    var k :| j <= k < |s| && EndsLine(s[k]);
  }

  lemma QuotedStands(s: string, i: nat, q: char, text: string, behind: string)
    requires i <= |s| && s[i..] == [q] + text + [q] + behind
    ensures var e := i + 1 + |text|;
      && e < |s| && s[i] == q && s[e] == q && s[i + 1..e] == text && forall k :: i + 1 <= k < e ==> s[k] == text[k - i - 1]
  {
    var e := i + 1 + |text|;
    assert s[i] == s[i..][0] && s[e] == s[i..][1 + |text|];
    forall k | i + 1 <= k < e ensures s[k] == text[k - i - 1] {
      assert s[k] == s[i..][k - i];
    }
  }

  /** What the caller gets: behind each pointer, in the line with all the NULs written, stands the token's text, and a
      NUL behind that. */
  lemma PointersReadAsTexts(s: string, j: nat)
    requires HasEnd(s, 0) && j < |Tokens(s, 0).spans|
    ensures var spans := Tokens(s, 0).spans; |Starts(spans)| == |Texts(s, spans)| == |spans|
    ensures var spans := Tokens(s, 0).spans;
      var text, from, after := Texts(s, spans)[j], Starts(spans)[j], Cut(s, spans);
      && from + |text| < |after| == |s| && after[from..from + |text|] == text && after[from + |text|] == '\0'
  {
    var spans := Tokens(s, 0).spans;
    TextAt(s, spans, j);
    TokenReadsBack(s, j);
    hide Tokens, Texts, Cut;
  }

  // ----- every line that is accepted is one of the grammar -----

  /** From position i on, up to the first line break, stand these blanks and tokens, and they are what is read. */
  ghost predicate Written(s: string, i: nat, lead: string, ps: seq<Piece>)
    requires HasEnd(s, i)
  {
    Sep(lead) && Proper(ps) && TextsOf(ps) == Texts(s, Tokens(s, i).spans) && s[i..LineEnd(s, i)] == lead + ShowAll(ps)
  }

  /** A line that is accepted is one of the grammar up to its first line break, and the tokens are its texts. */
  lemma {:induction false} AcceptedIsALine(s: string, i: nat) returns (lead: string, ps: seq<Piece>)
    requires HasEnd(s, i) && Tokens(s, i).ok
    ensures Written(s, i, lead, ps)
    ensures i <= LineEnd(s, i) < |s| && LineBreak(s[LineEnd(s, i)])
    ensures forall k :: i <= k < LineEnd(s, i) ==> !LineBreak(s[k])
    decreases |s| - i
  {
    hide Tokens, Written;
    if EndsLine(s[i]) {
      lead, ps := "", [];
      NothingWritten(s, i);
    } else if Blank(s[i]) {
      TokensAtBlank(s, i);
      var l;
      l, ps := AcceptedIsALine(s, i + 1);
      lead := [s[i]] + l;
      BlankWritten(s, i, l, ps);
    } else if Quote(s[i]) {
      QuotedStep(s, i);
      var e := QuotedEnd(s, i + 1, s[i]);
      var l, more := AcceptedIsALine(s, e + 1);
      lead, ps := "", [InQuotes(s[i], s[i + 1..e], l)] + more;
      QuotedWritten(s, i, l, more);
    } else {
      PlainStep(s, i);
      var e := PlainEnd(s, i);
      if EndsLine(s[e]) {
        lead, ps := "", [Unquoted(s[i..e], "")];
        LastWritten(s, i);
      } else {
        var l, more := AcceptedIsALine(s, e + 1);
        lead, ps := "", [Unquoted(s[i..e], [s[e]] + l)] + more;
        BareWritten(s, i, l, more);
      }
    }
  }

  lemma NothingWritten(s: string, i: nat)
    requires i < |s| && EndsLine(s[i])
    ensures HasEnd(s, i) && Written(s, i, "", [])
  {
    NoTokens(s, i);
    NoTexts(s);
  }

  lemma BlankWritten(s: string, i: nat, l: string, ps: seq<Piece>)
    requires HasEnd(s, i) && HasEnd(s, i + 1) && Blank(s[i]) && !EndsLine(s[i]) && Written(s, i + 1, l, ps)
    ensures Written(s, i, [s[i]] + l, ps)
  {
    hide Tokens, Texts, Proper, ShowAll;
    TokensAtBlank(s, i);
    SameLineEnd(s, i, i + 1);
    assert s[i..LineEnd(s, i)] == [s[i]] + s[i + 1..LineEnd(s, i)];
  }

  lemma QuotedWritten(s: string, i: nat, l: string, more: seq<Piece>)
    requires HasEnd(s, i) && !EndsLine(s[i]) && Quote(s[i]) && Tokens(s, i).ok && HasEnd(s, i + 1)
    requires var e := QuotedEnd(s, i + 1, s[i]); HasEnd(s, e + 1) && Written(s, e + 1, l, more)
    ensures Written(s, i, "", [InQuotes(s[i], s[i + 1..QuotedEnd(s, i + 1, s[i])], l)] + more)
  {
    hide Tokens, Texts, TextsOf, Proper, ProperPiece, ShowAll, Show, Sep, HasEnd, QuotedEnd, LineBreak, LineEnd, Blank, Quote, EndsLine;
    QuotedStep(s, i);
    var e := QuotedEnd(s, i + 1, s[i]);
    var ps := [InQuotes(s[i], s[i + 1..e], l)] + more;
    assert ps[1..] == more;
    SameLineEnd(s, i, e + 1);
    QuotedPiece(s, i, l);
    ProperCons(ps[0], more);
    ShowMore(ps);
    TextsOfCons(s, Span(i + 1, e), Tokens(s, e + 1));
    TextsMore(ps);
    QuotedStretch(s, i, e, LineEnd(s, i), l + ShowAll(more));
    NoSep();
    assert ShowAll(ps) == [s[i]] + s[i + 1..e] + [s[i]] + l + ShowAll(more);
    QuotedRegrouped(s[i], s[i + 1..e], l, ShowAll(more));
  }

  lemma BareRegrouped(text: string, c: char, l: string, behind: string)
    ensures text + ([c] + (l + behind)) == "" + (text + ([c] + l) + behind)
  {
  }

  lemma QuotedRegrouped(q: char, text: string, l: string, behind: string)
    ensures [q] + text + [q] + (l + behind) == "" + ([q] + text + [q] + l + behind)
  {
  }

  lemma NoSep()
    ensures Sep("")
  {
  }

  lemma QuotedPiece(s: string, i: nat, l: string)
    requires HasEnd(s, i) && HasEnd(s, i + 1) && !EndsLine(s[i]) && Quote(s[i]) && Tokens(s, i).ok && Sep(l)
    ensures ProperPiece(InQuotes(s[i], s[i + 1..QuotedEnd(s, i + 1, s[i])], l), false)
  {
    QuotedStep(s, i);
    hide Tokens, HasEnd;
    var e := QuotedEnd(s, i + 1, s[i]);
    assert forall k :: i + 1 <= k < e ==> s[k] == s[i + 1..e][k - (i + 1)];
  }

  lemma BarePiece(s: string, i: nat, l: string)
    requires HasEnd(s, i) && !EndsLine(s[i]) && !Blank(s[i]) && !Quote(s[i]) && Tokens(s, i).ok && Sep(l)
    requires !EndsLine(s[PlainEnd(s, i)])
    ensures ProperPiece(Unquoted(s[i..PlainEnd(s, i)], [s[PlainEnd(s, i)]] + l), false)
    ensures forall k :: i <= k < PlainEnd(s, i) + 1 ==> !EndsLine(s[k])
  {
    PlainStep(s, i);
    hide Tokens, HasEnd;
    var e := PlainEnd(s, i);
    assert forall k :: i <= k < e ==> s[k] == s[i..e][k - i];
  }

  lemma QuotedStretch(s: string, i: nat, e: nat, end: nat, behind: string)
    requires i < e < end <= |s| && s[e + 1..end] == behind
    ensures s[i..end] == [s[i]] + s[i + 1..e] + [s[e]] + behind
  {
  }

  lemma BareStretch(s: string, i: nat, e: nat, end: nat, behind: string)
    requires i <= e < end <= |s| && s[e + 1..end] == behind
    ensures s[i..end] == s[i..e] + ([s[e]] + behind)
  {
  }

  lemma LastWritten(s: string, i: nat)
    requires HasEnd(s, i) && !EndsLine(s[i]) && !Blank(s[i]) && !Quote(s[i]) && Tokens(s, i).ok
    requires EndsLine(s[PlainEnd(s, i)])
    ensures Written(s, i, "", [Unquoted(s[i..PlainEnd(s, i)], "")])
  {
    PlainStep(s, i);
    hide Tokens, Texts, Proper, ShowAll, PlainEnd;
    var e := PlainEnd(s, i);
    var ps := [Unquoted(s[i..e], "")];
    SameLineEnd(s, i, e);
    ProperLast(ps[0]);
    assert ps[1..] == [];
    ShowNone();
    ShowMore(ps);
    assert TextsOf(ps) == [s[i..e]];
  }

  lemma BareWritten(s: string, i: nat, l: string, more: seq<Piece>)
    requires HasEnd(s, i) && !EndsLine(s[i]) && !Blank(s[i]) && !Quote(s[i]) && Tokens(s, i).ok
    requires var e := PlainEnd(s, i); !EndsLine(s[e]) && HasEnd(s, e + 1) && Written(s, e + 1, l, more)
    ensures Written(s, i, "", [Unquoted(s[i..PlainEnd(s, i)], [s[PlainEnd(s, i)]] + l)] + more)
  {
    hide Tokens, Texts, TextsOf, Proper, ProperPiece, ShowAll, Show, Sep, HasEnd, PlainEnd, LineBreak, LineEnd, Blank, Quote, EndsLine;
    PlainStep(s, i);
    var e := PlainEnd(s, i);
    var ps := [Unquoted(s[i..e], [s[e]] + l)] + more;
    assert ps[1..] == more;
    BarePiece(s, i, l);
    SameLineEnd(s, i, e + 1);
    ProperCons(ps[0], more);
    ShowMore(ps);
    TextsOfCons(s, Span(i, e), Tokens(s, e + 1));
    TextsMore(ps);
    BareStretch(s, i, e, LineEnd(s, i), l + ShowAll(more));
    NoSep();
    BareRegrouped(s[i..e], s[e], l, ShowAll(more));
  }

  lemma ProperLast(p: Piece)
    requires ProperPiece(p, true)
    ensures Proper([p])
  {
  }

  lemma ProperCons(p: Piece, more: seq<Piece>)
    requires ProperPiece(p, false) && Proper(more)
    ensures Proper([p] + more)
  {
    var all := [p] + more;
    forall i | 0 <= i < |all| ensures ProperPiece(all[i], i == |all| - 1) {
      if i > 0 {
        assert all[i] == more[i - 1];
      }
    }
  }

  lemma QuotedStep(s: string, i: nat)
    requires HasEnd(s, i) && !EndsLine(s[i]) && Quote(s[i]) && Tokens(s, i).ok
    ensures HasEnd(s, i + 1)
    ensures var e := QuotedEnd(s, i + 1, s[i]);
      && s[e] == s[i] && HasEnd(s, e + 1) && Tokens(s, i) == Cons(Span(i + 1, e), Tokens(s, e + 1)) && Tokens(s, e + 1).ok
      && (forall k :: i <= k < e + 1 ==> !EndsLine(s[k]))
  {
  }

  lemma PlainStep(s: string, i: nat)
    requires HasEnd(s, i) && !EndsLine(s[i]) && !Blank(s[i]) && !Quote(s[i]) && Tokens(s, i).ok
    ensures var e := PlainEnd(s, i);
      && i < e && !Quote(s[e]) && (forall k :: i <= k < e ==> !EndsLine(s[k]))
      && (EndsLine(s[e]) ==> Texts(s, Tokens(s, i).spans) == [s[i..e]])
      && (!EndsLine(s[e]) ==> Blank(s[e]) && HasEnd(s, e + 1) && Tokens(s, e + 1).ok
                              && Tokens(s, i) == Cons(Span(i, e), Tokens(s, e + 1)))
  {
    var e := PlainEnd(s, i);
    assert [Span(i, e)][1..] == [];
  }

  function Example(): seq<Piece>
  {
    [Unquoted("a", "\t"), Unquoted("b", " "), InQuotes('"', "c d", ""), InQuotes('\'', "e", "")]
  }

  lemma ExampleShows()
    ensures ShowAll(Example()) == "a\tb \"c d\"'e'" && TextsOf(Example()) == ["a", "b", "c d", "e"]
  {
    var ps := Example();
    assert ps[1..][1..] == ps[2..] && ps[2..][1..] == ps[3..] && ps[3..][1..] == [];
    assert ShowAll(ps[3..]) == "'e'";
    assert ShowAll(ps[2..]) == "\"c d\"" + ShowAll(ps[3..]);
    assert ShowAll(ps[1..]) == "b " + ShowAll(ps[2..]);
  }

  /** Tabs separate, quotes join, adjacent quotes begin a new token. */
  lemma OneLine()
    ensures var s := "a\tb \"c d\"'e'\n";
      HasEnd(s, 0) && Tokens(s, 0).ok && Texts(s, Tokens(s, 0).spans) == ["a", "b", "c d", "e"]
  {
    hide Tokens, Texts, HasEnd, ShowAll, TextsOf;
    var s := "a\tb \"c d\"'e'\n";
    ExampleShows();
    assert s[0..] == "" + ShowAll(Example()) + "\n";
    LineIsParsed(s, 0, "", Example(), "\n");
  }
}
