/** Splitting one line of a batch file into tokens and a label. */
module BatchLine {
  import opened Wrappers

  datatype Line = Line(tokens: seq<string>, labelText: Option<string>)

  datatype LineError = OpenSingleQuote | OpenDoubleQuote | DanglingBackslash

  type Split = Result<Line, LineError>

  predicate Blank(c: char): (r: bool)
    ensures r <==> c in " \t\r\n"
  {
    c == ' ' || c == '\t' || c == '\r' || c == '\n'
  }

  /** White space of the Unicode property of that name, which is what trimming
      a label removes. */
  predicate WhiteSpace(c: char) {
    var n := c as int;
    || 0x09 <= n <= 0x0D || n == 0x20 || n == 0x85 || n == 0xA0 || n == 0x1680
    || 0x2000 <= n <= 0x200A || n == 0x2028 || n == 0x2029 || n == 0x202F || n == 0x205F || n == 0x3000
  }

  const WHITE_SPACE := {
    0x0009, 0x000A, 0x000B, 0x000C, 0x000D, 0x0020, 0x0085, 0x00A0, 0x1680, 0x2000, 0x2001, 0x2002, 0x2003,
    0x2004, 0x2005, 0x2006, 0x2007, 0x2008, 0x2009, 0x200A, 0x2028, 0x2029, 0x202F, 0x205F, 0x3000
  }

  /** The 25 characters with that property. */
  lemma WhiteSpaceIs(c: char)
    ensures WhiteSpace(c) <==> c as int in WHITE_SPACE
  {}

  ghost predicate AllWhite(s: string) {
    forall i :: 0 <= i < |s| ==> WhiteSpace(s[i])
  }

  ghost predicate Surrounded(s: string, before: string, r: string, after: string) {
    AllWhite(before) && AllWhite(after) && s == before + (r + after)
  }

  /** `r` is what is left of `s` without the white space around it. */
  ghost predicate TrimmedTo(s: string, r: string) {
    && (r != "" ==> !WhiteSpace(r[0]) && !WhiteSpace(r[|r| - 1]))
    && exists before, after :: Surrounded(s, before, r, after)
  }

  function Trim(s: string): (r: string)
    ensures TrimmedTo(s, r)
    decreases |s|
  {
    if s == "" then
      assert Surrounded(s, "", "", "");
      ""
    else if WhiteSpace(s[0]) then
      FrontTrimmed(s, Trim(s[1..]));
      Trim(s[1..])
    else if WhiteSpace(s[|s| - 1]) then
      EndTrimmed(s, Trim(s[..|s| - 1]));
      Trim(s[..|s| - 1])
    else
      assert Surrounded(s, "", s, "");
      s
  }

  lemma FrontTrimmed(s: string, r: string)
    requires s != "" && WhiteSpace(s[0]) && TrimmedTo(s[1..], r)
    ensures TrimmedTo(s, r)
  {
    var b, a :| Surrounded(s[1..], b, r, a);
    Assoc([s[0]], b, r + a);
    assert s == [s[0]] + s[1..];
    assert Surrounded(s, [s[0]] + b, r, a);
  }

  lemma EndTrimmed(s: string, r: string)
    requires s != "" && WhiteSpace(s[|s| - 1]) && TrimmedTo(s[..|s| - 1], r)
    ensures TrimmedTo(s, r)
  {
    var b, a :| Surrounded(s[..|s| - 1], b, r, a);
    var last := [s[|s| - 1]];
    Assoc(b, r + a, last);
    Assoc(r, a, last);
    assert s == s[..|s| - 1] + last;
    assert Surrounded(s, b, r, a + last);
  }

  /** A label of white space only is none. */
  function LabelOf(rest: string): (r: Option<string>)
    ensures r.None? <==> AllWhite(rest)
    ensures r.Some? ==> r.value != "" && TrimmedTo(rest, r.value)
  {
    WhiteTrims(rest);
    if Trim(rest) == "" then None else Some(Trim(rest))
  }

  lemma WhiteTrims(s: string)
    ensures Trim(s) == "" <==> AllWhite(s)
  {
    var r := Trim(s);
    var b, a :| Surrounded(s, b, r, a);
    if r == "" {
      assert r + a == a;
    } else {
      assert s[|b|] == r[0];
    }
  }

  // ----- the scan, on what is left of the line -----

  /** Tokens so far, the one being read included. */
  function Pending(tokens: seq<string>, cur: string, inToken: bool): seq<string> {
    if inToken then tokens + [cur] else tokens
  }

  function SingleEnd(s: string): (r: Option<nat>)
    ensures r.Some? ==> r.value < |s| && s[r.value] == '\'' && forall k :: 0 <= k < r.value ==> s[k] != '\''
    ensures r.None? ==> '\'' !in s
  {
    if s == "" then None
    else if s[0] == '\'' then Some(0)
    else
      match SingleEnd(s[1..])
      case None => None
      case Some(k) => Some(k + 1)
  }

  /** A backslash counts only in front of a quote or another backslash. */
  predicate Escapes(s: string) {
    |s| >= 2 && s[0] == '\\' && (s[1] == '"' || s[1] == '\\')
  }

  /** The quoted text and how many characters it took, closing quote included. */
  function DoubleEnd(s: string, acc: string, used: nat): (r: Option<(string, nat)>)
    ensures r.Some? ==> used < r.value.1 <= used + |s|
    decreases |s|
  {
    if s == "" then None
    else if s[0] == '"' then Some((acc, used + 1))
    else if Escapes(s) then DoubleEnd(s[2..], acc + [s[1]], used + 2)
    else DoubleEnd(s[1..], acc + [s[0]], used + 1)
  }

  function Scan(s: string, tokens: seq<string>, cur: string, inToken: bool): Split
    decreases |s|
  {
    if s == "" then Success(Line(Pending(tokens, cur, inToken), None))
    else if Blank(s[0]) then Scan(s[1..], Pending(tokens, cur, inToken), if inToken then "" else cur, false)
    else if s[0] == '#' && !inToken then Success(Line(tokens, LabelOf(s[1..])))
    else if s[0] == '\'' then
      match SingleEnd(s[1..])
      case None => Failure(OpenSingleQuote)
      case Some(k) => Scan(s[k + 2..], tokens, cur + s[1..k + 1], true)
    else if s[0] == '"' then
      match DoubleEnd(s[1..], "", 0)
      case None => Failure(OpenDoubleQuote)
      case Some((text, used)) => Scan(s[used + 1..], tokens, cur + text, true)
    else if s[0] == '\\' then
      if |s| > 1 then Scan(s[2..], tokens, cur + [s[1]], true) else Failure(DanglingBackslash)
    else Scan(s[1..], tokens, cur + [s[0]], true)
  }

  // ----- the loop -----

  method ReadSingle(chars: string, start: nat, cur: string) returns (closed: bool, cur': string, i: nat)
    requires start <= |chars|
    ensures match SingleEnd(chars[start..])
            case None => !closed
            case Some(k) => closed && cur' == cur + chars[start..start + k] && i == start + k + 1
    ensures i <= |chars|
  {
    closed, cur', i := false, cur, start;
    while i < |chars|
      invariant start <= i <= |chars|
      invariant cur' == cur + chars[start..i]
      invariant forall k :: start <= k < i ==> chars[k] != '\''
    {
      assert chars[start..][i - start] == chars[i];
      if chars[i] == '\'' {
        closed := true;
        i := i + 1;
        return;
      }
      cur' := cur' + [chars[i]];
      i := i + 1;
    }
    assert forall k :: 0 <= k < |chars[start..]| ==> chars[start..][k] == chars[start + k];
  }

  method ReadDouble(chars: string, start: nat, cur: string) returns (closed: bool, cur': string, i: nat)
    requires start <= |chars|
    ensures match DoubleEnd(chars[start..], "", 0)
            case None => !closed
            case Some((text, used)) => closed && cur' == cur + text && i == start + used
    ensures i <= |chars|
  {
    ghost var text := "";
    closed, cur', i := false, cur, start;
    while i < |chars|
      invariant start <= i <= |chars| && cur' == cur + text
      invariant DoubleEnd(chars[start..], "", 0) == DoubleEnd(chars[i..], text, i - start)
    {
      var d := chars[i];
      if d == '"' {
        closed := true;
        i := i + 1;
        return;
      }
      if d == '\\' && i + 1 < |chars| && (chars[i + 1] == '"' || chars[i + 1] == '\\') {
        assert chars[i..][2..] == chars[i + 2..];
        text := text + [chars[i + 1]];
        cur' := cur' + [chars[i + 1]];
        i := i + 2;
      } else {
        assert chars[i..][1..] == chars[i + 1..];
        text := text + [d];
        cur' := cur' + [d];
        i := i + 1;
      }
    }
  }

  /** The scan from position `i` on. */
  function From(line: string, i: nat, tokens: seq<string>, cur: string, inToken: bool): Split
    requires i <= |line|
  {
    Scan(line[i..], tokens, cur, inToken)
  }

  lemma FromBlank(line: string, i: nat, tokens: seq<string>, cur: string, inToken: bool)
    requires i < |line| && Blank(line[i])
    ensures From(line, i, tokens, cur, inToken) ==
            From(line, i + 1, Pending(tokens, cur, inToken), if inToken then "" else cur, false)
  {
    assert line[i..][1..] == line[i + 1..];
  }

  lemma FromSingle(line: string, i: nat, tokens: seq<string>, cur: string, inToken: bool)
    requires i < |line| && line[i] == '\''
    ensures From(line, i, tokens, cur, inToken) ==
            match SingleEnd(line[i + 1..])
            case None => Failure(OpenSingleQuote)
            case Some(k) => From(line, i + k + 2, tokens, cur + line[i + 1..i + 1 + k], true)
  {
    assert line[i..][1..] == line[i + 1..];
    match SingleEnd(line[i + 1..])
    case None =>
    case Some(k) =>
      assert line[i..][k + 2..] == line[i + k + 2..] && line[i..][1..k + 1] == line[i + 1..i + 1 + k];
  }

  lemma FromDouble(line: string, i: nat, tokens: seq<string>, cur: string, inToken: bool)
    requires i < |line| && line[i] == '"'
    ensures From(line, i, tokens, cur, inToken) ==
            match DoubleEnd(line[i + 1..], "", 0)
            case None => Failure(OpenDoubleQuote)
            case Some((text, used)) => From(line, i + used + 1, tokens, cur + text, true)
  {
    assert line[i..][1..] == line[i + 1..];
    match DoubleEnd(line[i + 1..], "", 0)
    case None =>
    case Some((text, used)) =>
      assert line[i..][used + 1..] == line[i + used + 1..];
  }

  lemma FromOther(line: string, i: nat, tokens: seq<string>, cur: string, inToken: bool)
    requires i < |line| && !Blank(line[i]) && line[i] != '\'' && line[i] != '"'
    ensures From(line, i, tokens, cur, inToken) ==
            if line[i] == '#' && !inToken then Success(Line(tokens, LabelOf(line[i + 1..])))
            else if line[i] != '\\' then From(line, i + 1, tokens, cur + [line[i]], true)
            else if i + 1 < |line| then From(line, i + 2, tokens, cur + [line[i + 1]], true)
            else Failure(DanglingBackslash)
  {
    assert line[i..][1..] == line[i + 1..];
    if i + 1 < |line| {
      assert line[i..][2..] == line[i + 2..];
    }
  }

  /** A quoted part of a token, from its opening quote at `i` on. */
  method ReadQuoted(line: string, i: nat, ghost tokens: seq<string>, cur: string, ghost inToken: bool)
    returns (failed: Option<LineError>, cur': string, j: nat)
    requires i < |line| && (line[i] == '\'' || line[i] == '"')
    ensures failed.Some? ==> From(line, i, tokens, cur, inToken) == Failure(failed.value)
    ensures failed.None? ==> i < j <= |line|
                             && From(line, i, tokens, cur, inToken) == From(line, j, tokens, cur', true)
  {
    var closed;
    if line[i] == '\'' {
      FromSingle(line, i, tokens, cur, inToken);
      closed, cur', j := ReadSingle(line, i + 1, cur);
      failed := if closed then None else Some(OpenSingleQuote);
    } else {
      FromDouble(line, i, tokens, cur, inToken);
      closed, cur', j := ReadDouble(line, i + 1, cur);
      failed := if closed then None else Some(OpenDoubleQuote);
    }
  }

  method SplitLine(line: string) returns (r: Split)
    ensures r == Scan(line, [], "", false)
  {
    var tokens: seq<string> := [];
    var cur, inToken, i := "", false, 0;
    assert line[0..] == line;
    while i < |line|
      invariant 0 <= i <= |line|
      invariant Scan(line, [], "", false) == From(line, i, tokens, cur, inToken)
      decreases |line| - i
    {
      var c := line[i];
      if Blank(c) {
        FromBlank(line, i, tokens, cur, inToken);
        if inToken {
          tokens, cur, inToken := tokens + [cur], "", false;
        }
        i := i + 1;
      } else if c == '\'' || c == '"' {
        var failed, cur', j := ReadQuoted(line, i, tokens, cur, inToken);
        if failed.Some? {
          return Failure(failed.value);
        }
        cur, inToken, i := cur', true, j;
      } else {
        FromOther(line, i, tokens, cur, inToken);
        if c == '#' && !inToken {
          return Success(Line(tokens, LabelOf(line[i + 1..])));
        } else if c == '\\' {
          if i + 1 == |line| {
            return Failure(DanglingBackslash);
          }
          cur, inToken, i := cur + [line[i + 1]], true, i + 2;
        } else {
          cur, inToken, i := cur + [c], true, i + 1;
        }
      }
    }
    r := Success(Line(Pending(tokens, cur, inToken), None));
  }

  // ----- writing lines -----

  /** A character between double quotes, as it is or behind a backslash. */
  datatype Char = Plain(c: char) | Backslashed(c: char)

  function CharText(d: Char): string {
    match d
    case Plain(c) => [c]
    case Backslashed(c) => ['\\', c]
  }

  /** Quotes and backslashes need a backslash, except that a backslash in front
      of another character may stand as it is. */
  predicate InsideValid(ds: seq<Char>) {
    ds == [] || (InsideValid(ds[1..]) && FirstValid(ds))
  }

  predicate FirstValid(ds: seq<Char>)
    requires ds != []
  {
    match ds[0]
    case Backslashed(c) => c == '"' || c == '\\'
    case Plain(c) =>
      && c != '"'
      && (c == '\\' ==> |ds| > 1 && ds[1].Plain? && ds[1].c != '\\')
  }

  function InsideText(ds: seq<Char>): string {
    if ds == [] then "" else CharText(ds[0]) + InsideText(ds[1..])
  }

  function InsideMeaning(ds: seq<Char>): string {
    if ds == [] then "" else [ds[0].c] + InsideMeaning(ds[1..])
  }

  /** Ways to write part of a token. */
  datatype Piece = Bare(c: char) | Escaped(c: char) | Single(text: string) | Double(inside: seq<Char>)

  predicate PieceValid(p: Piece) {
    match p
    case Bare(c) => c !in " \t\r\n" && c != '\'' && c != '"' && c != '\\'
    case Escaped(_) => true
    case Single(s) => '\'' !in s
    case Double(ds) => InsideValid(ds)
  }

  function PieceText(p: Piece): string {
    match p
    case Bare(c) => [c]
    case Escaped(c) => ['\\', c]
    case Single(s) => "'" + s + "'"
    case Double(ds) => "\"" + InsideText(ds) + "\""
  }

  function PieceMeaning(p: Piece): string {
    match p
    case Bare(c) => [c]
    case Escaped(c) => [c]
    case Single(s) => s
    case Double(ds) => InsideMeaning(ds)
  }

  function WordText(w: seq<Piece>): string {
    if w == [] then "" else PieceText(w[0]) + WordText(w[1..])
  }

  function WordMeaning(w: seq<Piece>): string {
    if w == [] then "" else PieceMeaning(w[0]) + WordMeaning(w[1..])
  }

  /** A word may contain a bare `#`, but not begin with one. */
  predicate WordValid(w: seq<Piece>) {
    w != [] && w[0] != Bare('#') && forall i :: 0 <= i < |w| ==> PieceValid(w[i])
  }

  predicate AllBlank(g: string) {
    forall i :: 0 <= i < |g| ==> g[i] in " \t\r\n"
  }

  /** A word and the blanks in front of it. */
  datatype Spaced = Spaced(gap: string, word: seq<Piece>)

  /** Words are separated by blanks; the first may follow the start of line. */
  predicate Spelled(ws: seq<Spaced>, separated: bool) {
    forall k :: 0 <= k < |ws| ==>
                  AllBlank(ws[k].gap) && WordValid(ws[k].word) && (separated || k > 0 ==> ws[k].gap != "")
  }

  function WordsText(ws: seq<Spaced>): string {
    if ws == [] then "" else ws[0].gap + WordText(ws[0].word) + WordsText(ws[1..])
  }

  function Meanings(ws: seq<Spaced>): (r: seq<string>)
    ensures |r| == |ws|
  {
    if ws == [] then [] else [WordMeaning(ws[0].word)] + Meanings(ws[1..])
  }

  // ----- reading back what was written -----

  lemma {:induction false} SingleRead(s: string, rest: string)
    requires '\'' !in s
    ensures SingleEnd(s + "'" + rest) == Some(|s|)
  {
    if s == "" {
      assert s + "'" + rest == "'" + rest;
    } else {
      assert s[0] in s;
      assert (s + "'" + rest)[1..] == s[1..] + "'" + rest;
      SingleRead(s[1..], rest);
    }
  }

  lemma {:induction false} DoubleRead(ds: seq<Char>, rest: string, acc: string, used: nat)
    requires InsideValid(ds)
    ensures DoubleEnd(InsideText(ds) + "\"" + rest, acc, used) ==
            Some((acc + InsideMeaning(ds), used + |InsideText(ds)| + 1))
    decreases |ds|
  {
    if ds == [] {
      assert InsideText(ds) + "\"" + rest == "\"" + rest && acc + InsideMeaning(ds) == acc;
    } else {
      var more := InsideText(ds[1..]) + "\"" + rest;
      assert InsideText(ds) + "\"" + rest == CharText(ds[0]) + more;
      CharIsRead(ds, more, acc, used);
      DoubleRead(ds[1..], rest, acc + [ds[0].c], used + |CharText(ds[0])|);
      Assoc(acc, [ds[0].c], InsideMeaning(ds[1..]));
    }
  }

  lemma CharIsRead(ds: seq<Char>, more: string, acc: string, used: nat)
    requires ds != [] && InsideValid(ds)
    requires |ds| > 1 ==> CharText(ds[1]) <= more
    ensures DoubleEnd(CharText(ds[0]) + more, acc, used) ==
            DoubleEnd(more, acc + [ds[0].c], used + |CharText(ds[0])|)
  {
    var s := CharText(ds[0]) + more;
    match ds[0]
    case Plain(c) =>
      assert s[1..] == more;
      if |ds| > 1 {
        assert ds[1..][0] == ds[1] && more[0] == CharText(ds[1])[0];
      }
    case Backslashed(c) => assert s[2..] == more;
  }

  lemma SinglePieceRead(t: string, rest: string, tokens: seq<string>, cur: string, inToken: bool)
    requires '\'' !in t
    ensures Scan("'" + t + "'" + rest, tokens, cur, inToken) == Scan(rest, tokens, cur + t, true)
  {
    var s := "'" + t + "'" + rest;
    SingleRead(t, rest);
    assert s[1..] == t + "'" + rest;
    assert s[|t| + 2..] == rest && s[1..|t| + 1] == t;
  }

  lemma DoublePieceRead(ds: seq<Char>, rest: string, tokens: seq<string>, cur: string, inToken: bool)
    requires InsideValid(ds)
    ensures Scan("\"" + InsideText(ds) + "\"" + rest, tokens, cur, inToken) ==
            Scan(rest, tokens, cur + InsideMeaning(ds), true)
  {
    var s := "\"" + InsideText(ds) + "\"" + rest;
    DoubleRead(ds, rest, "", 0);
    assert s[1..] == InsideText(ds) + "\"" + rest;
    assert s[|InsideText(ds)| + 2..] == rest && "" + InsideMeaning(ds) == InsideMeaning(ds);
  }

  lemma PieceRead(p: Piece, rest: string, tokens: seq<string>, cur: string, inToken: bool)
    requires PieceValid(p) && (p == Bare('#') ==> inToken)
    ensures Scan(PieceText(p) + rest, tokens, cur, inToken) == Scan(rest, tokens, cur + PieceMeaning(p), true)
  {
    match p
    case Bare(c) => assert (PieceText(p) + rest)[1..] == rest;
    case Escaped(c) => assert (PieceText(p) + rest)[2..] == rest;
    case Single(t) => SinglePieceRead(t, rest, tokens, cur, inToken);
    case Double(ds) => DoublePieceRead(ds, rest, tokens, cur, inToken);
  }

  lemma {:induction false} WordRead(w: seq<Piece>, rest: string, tokens: seq<string>, cur: string, inToken: bool)
    requires forall i :: 0 <= i < |w| ==> PieceValid(w[i])
    requires w != [] && w[0] == Bare('#') ==> inToken
    ensures Scan(WordText(w) + rest, tokens, cur, inToken) ==
            Scan(rest, tokens, cur + WordMeaning(w), inToken || w != [])
    decreases |w|
  {
    if w == [] {
      assert WordText(w) + rest == rest && cur + WordMeaning(w) == cur;
    } else {
      var more := WordText(w[1..]) + rest;
      assert WordText(w) + rest == PieceText(w[0]) + more;
      PieceRead(w[0], more, tokens, cur, inToken);
      WordRead(w[1..], rest, tokens, cur + PieceMeaning(w[0]), true);
      assert cur + PieceMeaning(w[0]) + WordMeaning(w[1..]) == cur + WordMeaning(w);
    }
  }

  lemma {:induction false} GapRead(g: string, rest: string, tokens: seq<string>, cur: string, inToken: bool)
    requires AllBlank(g) && (inToken ==> g != "") && (!inToken ==> cur == "")
    ensures Scan(g + rest, tokens, cur, inToken) == Scan(rest, Pending(tokens, cur, inToken), "", false)
    decreases |g|
  {
    if g == "" {
      assert g + rest == rest;
    } else {
      assert (g + rest)[1..] == g[1..] + rest;
      GapRead(g[1..], rest, Pending(tokens, cur, inToken), "", false);
    }
  }

  /** How a line ends: with blanks, and perhaps a comment after them. */
  datatype Ending = Ending(gap: string, comment: Option<string>)

  predicate EndingValid(e: Ending, afterWord: bool) {
    AllBlank(e.gap) && (e.comment.Some? && afterWord ==> e.gap != "")
  }

  function EndingText(e: Ending): string {
    e.gap + if e.comment.Some? then "#" + e.comment.value else ""
  }

  function EndingLabel(e: Ending): Option<string> {
    if e.comment.Some? then LabelOf(e.comment.value) else None
  }

  lemma EndingRead(e: Ending, tokens: seq<string>, cur: string, inToken: bool)
    requires EndingValid(e, inToken) && (!inToken ==> cur == "")
    ensures Scan(EndingText(e), tokens, cur, inToken) ==
            Success(Line(Pending(tokens, cur, inToken), EndingLabel(e)))
  {
    if e.gap == "" && inToken {
      assert EndingText(e) == "";
    } else {
      var rest := if e.comment.Some? then "#" + e.comment.value else "";
      GapRead(e.gap, rest, tokens, cur, inToken);
      assert e.comment.Some? ==> rest[1..] == e.comment.value;
    }
  }

  lemma SpacedRead(x: Spaced, more: string, tokens: seq<string>, cur: string, inToken: bool)
    requires AllBlank(x.gap) && WordValid(x.word) && (inToken ==> x.gap != "") && (!inToken ==> cur == "")
    ensures Scan(x.gap + (WordText(x.word) + more), tokens, cur, inToken) ==
            Scan(more, Pending(tokens, cur, inToken), WordMeaning(x.word), true)
  {
    GapRead(x.gap, WordText(x.word) + more, tokens, cur, inToken);
    WordRead(x.word, more, Pending(tokens, cur, inToken), "", false);
    assert "" + WordMeaning(x.word) == WordMeaning(x.word);
  }

  lemma FirstWord(ws: seq<Spaced>, tail: string, done: seq<string>)
    requires ws != []
    ensures WordsText(ws) + tail == ws[0].gap + (WordText(ws[0].word) + (WordsText(ws[1..]) + tail))
    ensures done + Meanings(ws) == done + [WordMeaning(ws[0].word)] + Meanings(ws[1..])
  {
    Assoc(ws[0].gap, WordText(ws[0].word), WordsText(ws[1..]));
    Assoc(ws[0].gap, WordText(ws[0].word) + WordsText(ws[1..]), tail);
    Assoc(WordText(ws[0].word), WordsText(ws[1..]), tail);
    Assoc(done, [WordMeaning(ws[0].word)], Meanings(ws[1..]));
  }

  lemma SpelledRest(ws: seq<Spaced>, separated: bool)
    requires Spelled(ws, separated) && ws != []
    ensures Spelled(ws[1..], true)
  {}

  lemma {:induction false} WordsRead(ws: seq<Spaced>, e: Ending, tokens: seq<string>, cur: string, inToken: bool)
    requires Spelled(ws, inToken) && EndingValid(e, inToken || ws != []) && (!inToken ==> cur == "")
    ensures Scan(WordsText(ws) + EndingText(e), tokens, cur, inToken) ==
            Success(Line(Pending(tokens, cur, inToken) + Meanings(ws), EndingLabel(e)))
    decreases |ws|
  {
    if ws == [] {
      assert WordsText(ws) + EndingText(e) == EndingText(e);
      assert Pending(tokens, cur, inToken) + Meanings(ws) == Pending(tokens, cur, inToken);
      EndingRead(e, tokens, cur, inToken);
    } else {
      var x, more := ws[0], WordsText(ws[1..]) + EndingText(e);
      var done := Pending(tokens, cur, inToken);
      FirstWord(ws, EndingText(e), done);
      SpacedRead(x, more, tokens, cur, inToken);
      SpelledRest(ws, inToken);
      WordsRead(ws[1..], e, done, WordMeaning(x.word), true);
    }
  }

  /** Splitting inverts writing: whatever mix of quotes and escapes the tokens
      are written with, they come back, and so does the trimmed label. */
  lemma SplitInvertsWriting(ws: seq<Spaced>, e: Ending)
    requires Spelled(ws, false) && EndingValid(e, ws != [])
    ensures Scan(WordsText(ws) + EndingText(e), [], "", false) == Success(Line(Meanings(ws), EndingLabel(e)))
  {
    WordsRead(ws, e, [], "", false);
    assert [] + Meanings(ws) == Meanings(ws);
  }

  // ----- every accepted line was written -----

  /** What `DoubleEnd` reads, up to the closing quote, is such a text. */
  lemma {:induction false} InsideWritten(s: string, acc: string, used: nat) returns (ds: seq<Char>)
    requires DoubleEnd(s, acc, used).Some?
    ensures InsideValid(ds) && InsideText(ds) + "\"" <= s
    ensures DoubleEnd(s, acc, used) == Some((acc + InsideMeaning(ds), used + |InsideText(ds)| + 1))
    decreases |s|
  {
    if s[0] == '"' {
      ds := [];
      assert acc + InsideMeaning(ds) == acc;
    } else {
      var d := if Escapes(s) then Backslashed(s[1]) else Plain(s[0]);
      var n := |CharText(d)|;
      assert s == CharText(d) + s[n..];
      var rest := InsideWritten(s[n..], acc + [d.c], used + n);
      ds := [d] + rest;
      CharWritten(s, d, rest);
      Assoc(acc, [d.c], InsideMeaning(rest));
    }
  }

  lemma CharWritten(s: string, d: Char, rest: seq<Char>)
    requires s != "" && s[0] != '"' && d == if Escapes(s) then Backslashed(s[1]) else Plain(s[0])
    requires InsideValid(rest) && InsideText(rest) + "\"" <= s[|CharText(d)|..]
    ensures InsideValid([d] + rest) && InsideText([d] + rest) + "\"" <= s
    ensures InsideMeaning([d] + rest) == [d.c] + InsideMeaning(rest)
  {
    var ds := [d] + rest;
    assert ds[1..] == rest;
    Assoc(CharText(d), InsideText(rest), "\"");
    assert s == CharText(d) + s[|CharText(d)|..];
    if rest == [] {
      assert s[|CharText(d)|] == '"';
    } else {
      assert s[|CharText(d)|] == CharText(rest[0])[0];
    }
  }

  /** The pieces that end the word being read, then spaced words, then the end
      of the line. */
  datatype Spelling = Spelling(word: seq<Piece>, words: seq<Spaced>, ending: Ending)

  /** `s` is written that way, after part of a word if `inToken`. */
  predicate Spells(x: Spelling, s: string, inToken: bool) {
    && (forall i :: 0 <= i < |x.word| ==> PieceValid(x.word[i]))
    && (x.word != [] && x.word[0] == Bare('#') ==> inToken)
    && Spelled(x.words, inToken || x.word != [])
    && EndingValid(x.ending, inToken || x.word != [] || x.words != [])
    && s == WordText(x.word) + (WordsText(x.words) + EndingText(x.ending))
  }

  lemma PieceWritten(p: Piece, x: Spelling, rest: string, inToken: bool)
    requires PieceValid(p) && (p == Bare('#') ==> inToken) && Spells(x, rest, true)
    ensures Spells(x.(word := [p] + x.word), PieceText(p) + rest, inToken)
  {
    var word := [p] + x.word;
    assert word[1..] == x.word;
    Assoc(PieceText(p), WordText(x.word), WordsText(x.words) + EndingText(x.ending));
  }

  /** A blank in front: it separates the word that follows, if there is one. */
  function AfterBlank(c: char, x: Spelling): Spelling {
    if x.word != [] then Spelling([], [Spaced([c], x.word)] + x.words, x.ending)
    else if x.words != [] then
      Spelling([], [Spaced([c] + x.words[0].gap, x.words[0].word)] + x.words[1..], x.ending)
    else Spelling([], [], Ending([c] + x.ending.gap, x.ending.comment))
  }

  lemma BlankWritten(c: char, x: Spelling, rest: string)
    requires Blank(c) && Spells(x, rest, false)
    ensures Spells(AfterBlank(c, x), [c] + rest, true)
    ensures Spells(AfterBlank(c, x), [c] + rest, false)
  {
    BlankText(c, x);
    if x.word == [] && x.words != [] {
      WiderGap(c, x.words);
    } else if x.word != [] {
      SpelledBefore(Spaced([c], x.word), x.words, true);
    }
  }

  lemma BlankText(c: char, x: Spelling)
    ensures AfterBlank(c, x).word == []
    ensures var y := AfterBlank(c, x);
            WordsText(y.words) + EndingText(y.ending) ==
            [c] + (WordText(x.word) + (WordsText(x.words) + EndingText(x.ending)))
  {
    var tail := WordsText(x.words) + EndingText(x.ending);
    if x.word != [] {
      var ws := [Spaced([c], x.word)] + x.words;
      assert ws[1..] == x.words;
      FirstWord(ws, EndingText(x.ending), []);
    } else if x.words != [] {
      assert WordText(x.word) + tail == tail;
      WiderText(c, x.words, EndingText(x.ending));
    } else {
      assert WordText(x.word) + tail == EndingText(x.ending);
      Assoc([c], x.ending.gap, if x.ending.comment.Some? then "#" + x.ending.comment.value else "");
    }
  }

  lemma WiderText(c: char, ws: seq<Spaced>, tail: string)
    requires ws != []
    ensures WordsText([Spaced([c] + ws[0].gap, ws[0].word)] + ws[1..]) + tail == [c] + (WordsText(ws) + tail)
  {
    var wider := [Spaced([c] + ws[0].gap, ws[0].word)] + ws[1..];
    assert wider[1..] == ws[1..];
    FirstWord(ws, tail, []);
    FirstWord(wider, tail, []);
    Assoc([c], ws[0].gap, WordText(ws[0].word) + (WordsText(ws[1..]) + tail));
  }

  lemma WiderGap(c: char, ws: seq<Spaced>)
    requires Blank(c) && ws != [] && Spelled(ws, false)
    ensures Spelled([Spaced([c] + ws[0].gap, ws[0].word)] + ws[1..], true)
  {}

  lemma {:induction false} ScanWritten(s: string, tokens: seq<string>, cur: string, inToken: bool)
    returns (x: Spelling)
    requires Scan(s, tokens, cur, inToken).Success?
    ensures Spells(x, s, inToken)
    decreases |s|
  {
    if s == "" {
      x := Spelling([], [], Ending("", None));
    } else if Blank(s[0]) {
      var rest := ScanWritten(s[1..], Pending(tokens, cur, inToken), if inToken then "" else cur, false);
      x := AfterBlank(s[0], rest);
      BlankWritten(s[0], rest, s[1..]);
    } else if s[0] == '#' && !inToken {
      x := Spelling([], [], Ending("", Some(s[1..])));
    } else {
      var p, n := FirstPiece(s, tokens, cur, inToken);
      var rest := ScanWritten(s[n..], tokens, cur + PieceMeaning(p), true);
      x := rest.(word := [p] + rest.word);
      PieceWritten(p, rest, s[n..], inToken);
    }
  }

  /** Where a scan does not end and does not see a blank, it reads a piece. */
  lemma FirstPiece(s: string, tokens: seq<string>, cur: string, inToken: bool) returns (p: Piece, n: nat)
    requires Scan(s, tokens, cur, inToken).Success?
    requires s != "" && !Blank(s[0]) && (s[0] == '#' ==> inToken)
    ensures PieceValid(p) && (p == Bare('#') ==> inToken)
    ensures 0 < n <= |s| && s == PieceText(p) + s[n..]
    ensures Scan(s, tokens, cur, inToken) == Scan(s[n..], tokens, cur + PieceMeaning(p), true)
  {
    if s[0] == '\'' {
      p, n := SinglePiece(s, tokens, cur, inToken);
    } else if s[0] == '"' {
      p, n := DoublePiece(s, tokens, cur, inToken);
    } else if s[0] == '\\' {
      p, n := Escaped(s[1]), 2;
    } else {
      p, n := Bare(s[0]), 1;
    }
  }

  lemma SinglePiece(s: string, tokens: seq<string>, cur: string, inToken: bool) returns (p: Piece, n: nat)
    requires s != "" && s[0] == '\'' && SingleEnd(s[1..]).Some?
    ensures PieceValid(p) && p.Single? && 0 < n <= |s| && s == PieceText(p) + s[n..]
    ensures Scan(s, tokens, cur, inToken) == Scan(s[n..], tokens, cur + PieceMeaning(p), true)
  {
    var k := SingleEnd(s[1..]).value;
    p, n := Single(s[1..k + 1]), k + 2;
    assert s[1..][k] == s[k + 1];
    assert s[1..][..k] == s[1..k + 1];
  }

  lemma DoublePiece(s: string, tokens: seq<string>, cur: string, inToken: bool) returns (p: Piece, n: nat)
    requires s != "" && s[0] == '"' && DoubleEnd(s[1..], "", 0).Some?
    ensures PieceValid(p) && p.Double? && 0 < n <= |s| && s == PieceText(p) + s[n..]
    ensures Scan(s, tokens, cur, inToken) == Scan(s[n..], tokens, cur + PieceMeaning(p), true)
  {
    var inside := InsideWritten(s[1..], "", 0);
    p, n := Double(inside), |InsideText(inside)| + 2;
    assert "" + InsideMeaning(inside) == InsideMeaning(inside);
    assert s == PieceText(p) + s[n..] by {
      assert InsideText(inside) + "\"" == s[1..][..n - 1];
    }
  }

  /** A line made of words and an ending. */
  ghost predicate Written(line: string) {
    exists ws, e :: Spelled(ws, false) && EndingValid(e, ws != []) && line == WordsText(ws) + EndingText(e)
  }

  /** The lines that are refused are exactly those with no spelling. */
  lemma AcceptedIffWritten(line: string)
    ensures Scan(line, [], "", false).Success? <==> Written(line)
  {
    if Scan(line, [], "", false).Success? {
      var x := ScanWritten(line, [], "", false);
      WholeLine(x, line);
    }
    if Written(line) {
      var ws, e :| Spelled(ws, false) && EndingValid(e, ws != []) && line == WordsText(ws) + EndingText(e);
      SplitInvertsWriting(ws, e);
    }
  }

  lemma WholeLine(x: Spelling, line: string)
    requires Spells(x, line, false)
    ensures Written(line)
  {
    if x.word == [] {
      assert line == WordsText(x.words) + EndingText(x.ending);
    } else {
      var ws := [Spaced("", x.word)] + x.words;
      assert ws[1..] == x.words;
      FirstWord(ws, EndingText(x.ending), []);
      assert Spelled(ws, false) && EndingValid(x.ending, ws != []);
      assert line == WordsText(ws) + EndingText(x.ending);
    }
  }

  // ----- every list of tokens can be written -----

  /** Every quote and backslash behind a backslash. */
  function Protected(s: string): seq<Char> {
    if s == "" then []
    else [if s[0] == '"' || s[0] == '\\' then Backslashed(s[0]) else Plain(s[0])] + Protected(s[1..])
  }

  lemma {:induction false} ProtectedMeans(s: string)
    ensures InsideValid(Protected(s)) && InsideMeaning(Protected(s)) == s
  {
    if s != "" {
      ProtectedMeans(s[1..]);
      assert Protected(s)[1..] == Protected(s[1..]);
    }
  }

  function Quoted(tokens: seq<string>, first: bool): (ws: seq<Spaced>)
    ensures |ws| == |tokens|
  {
    if tokens == [] then []
    else [Spaced(if first then "" else " ", [Double(Protected(tokens[0]))])] + Quoted(tokens[1..], false)
  }

  lemma QuotedWord(t: string)
    ensures WordValid([Double(Protected(t))]) && WordMeaning([Double(Protected(t))]) == t
  {
    var w := [Double(Protected(t))];
    ProtectedMeans(t);
    assert w[1..] == [] && t + "" == t;
  }

  lemma {:induction false} QuotedMeans(tokens: seq<string>, first: bool)
    ensures Spelled(Quoted(tokens, first), !first) && Meanings(Quoted(tokens, first)) == tokens
    decreases |tokens|
  {
    if tokens != [] {
      var rest := Quoted(tokens[1..], false);
      QuotedMeans(tokens[1..], false);
      QuotedWord(tokens[0]);
      var x := Spaced(if first then "" else " ", [Double(Protected(tokens[0]))]);
      SpelledBefore(x, rest, !first);
      assert ([x] + rest)[1..] == rest;
    }
  }

  lemma SpelledBefore(x: Spaced, ws: seq<Spaced>, separated: bool)
    requires AllBlank(x.gap) && WordValid(x.word) && (separated ==> x.gap != "") && Spelled(ws, true)
    ensures Spelled([x] + ws, separated)
  {}

  /** Any tokens, empty ones and ones with `#`, quotes or backslashes included,
      written in double quotes with an optional trimmed label, are read back
      exactly. */
  lemma QuotingRoundTrip(tokens: seq<string>, labelText: Option<string>)
    requires labelText.Some? ==> Labels(labelText.value)
    ensures var tail := if labelText.Some? then " #" + labelText.value else "";
            Scan(WordsText(Quoted(tokens, true)) + tail, [], "", false) == Success(Line(tokens, labelText))
  {
    QuotedMeans(tokens, true);
    var e := if labelText.Some? then Ending(" ", labelText) else Ending("", None);
    LabelEnding(labelText);
    SplitInvertsWriting(Quoted(tokens, true), e);
  }

  /** A label begins and ends with other than white space. */
  predicate Labels(l: string) {
    l != "" && !WhiteSpace(l[0]) && !WhiteSpace(l[|l| - 1])
  }

  lemma LabelEnding(labelText: Option<string>)
    requires labelText.Some? ==> Labels(labelText.value)
    ensures var e := if labelText.Some? then Ending(" ", labelText) else Ending("", None);
            && EndingText(e) == (if labelText.Some? then " #" + labelText.value else "")
            && EndingLabel(e) == labelText && EndingValid(e, true)
  {}
}
