/** Name patterns: `*` stands for any span, `?` for one character, and every
    other character for itself. */
module Globs {
  // ----- what a pattern means, character by character -----

  predicate Wild(c: char) {
    c == '*' || c == '?'
  }

  predicate Plain(p: string) {
    forall i :: 0 <= i < |p| ==> !Wild(p[i])
  }

  /** The pattern `p` covers all of `h`. */
  predicate Covers(p: string, h: string)
    decreases |p|
  {
    if p == "" then h == ""
    else if p[0] == '*' then exists i :: 0 <= i <= |h| && Covers(p[1..], h[i..])
    else h != "" && (p[0] == '?' || p[0] == h[0]) && Covers(p[1..], h[1..])
  }

  predicate Contains(h: string, p: string) {
    exists i :: 0 <= i <= |h| && OccursAt(h, p, i)
  }

  predicate OccursAt(h: string, p: string, i: int) {
    0 <= i <= |h| - |p| && h[i..i + |p|] == p
  }

  lemma {:induction false} PlainPrefix(lit: string, p: string, h: string)
    requires Plain(lit)
    ensures Covers(lit + p, h) <==> |lit| <= |h| && h[..|lit|] == lit && Covers(p, h[|lit|..])
  {
    if lit == "" {
      assert lit + p == p && h[0..] == h;
    } else {
      assert (lit + p)[1..] == lit[1..] + p;
      if h != "" {
        PlainPrefix(lit[1..], p, h[1..]);
        if |lit| <= |h| {
          assert h[1..][|lit| - 1..] == h[|lit|..];
          assert h[..|lit|] == [h[0]] + h[1..][..|lit| - 1] && lit == [lit[0]] + lit[1..];
        }
      }
    }
  }

  /** A pattern without wildcards is string equality. */
  lemma PlainIsEquality(p: string, h: string)
    requires Plain(p)
    ensures Covers(p, h) <==> h == p
  {
    assert p + "" == p;
    PlainPrefix(p, "", h);
  }

  /** Two stars in a row say no more than one. */
  lemma StarStar(p: string, h: string)
    ensures Covers("**" + p, h) <==> Covers("*" + p, h)
  {
    assert ("**" + p)[1..] == "*" + p && ("*" + p)[1..] == p;
    if Covers("**" + p, h) {
      var i :| 0 <= i <= |h| && Covers("*" + p, h[i..]);
      var j :| 0 <= j <= |h[i..]| && Covers(p, h[i..][j..]);
      assert h[i..][j..] == h[i + j..];
    }
    if Covers("*" + p, h) {
      assert h[0..] == h;
    }
  }

  /** Two patterns in a row cover what splits into a part for each. */
  lemma {:induction false} InARow(p: string, q: string, h: string)
    ensures Covers(p + q, h) <==> exists i :: 0 <= i <= |h| && Covers(p, h[..i]) && Covers(q, h[i..])
    decreases |p|
  {
    if Covers(p + q, h) {
      var i := SplitPoint(p, q, h);
    }
    if i :| 0 <= i <= |h| && Covers(p, h[..i]) && Covers(q, h[i..]) {
      Joined(p, q, h, i);
    }
  }

  lemma {:induction false} SplitPoint(p: string, q: string, h: string) returns (i: nat)
    requires Covers(p + q, h)
    ensures i <= |h| && Covers(p, h[..i]) && Covers(q, h[i..])
    decreases |p|
  {
    if p == "" {
      i := 0;
      assert p + q == q && h[0..] == h;
    } else {
      assert (p + q)[1..] == p[1..] + q;
      var k := FirstPart(p + q, h);
      var j := SplitPoint(p[1..], q, h[k..]);
      i := k + j;
      assert h[k..][..j] == h[..i][k..] && h[k..][j..] == h[i..];
      FirstTaken(p, h[..i], k);
    }
  }

  lemma {:induction false} Joined(p: string, q: string, h: string, i: nat)
    requires i <= |h| && Covers(p, h[..i]) && Covers(q, h[i..])
    ensures Covers(p + q, h)
    decreases |p|
  {
    if p == "" {
      assert p + q == q && h[0..] == h;
    } else {
      assert (p + q)[1..] == p[1..] + q;
      var k := FirstPart(p, h[..i]);
      assert h[k..][..i - k] == h[..i][k..] && h[k..][i - k..] == h[i..];
      Joined(p[1..], q, h[k..], i - k);
      FirstTaken(p + q, h, k);
    }
  }

  /** How much the first character of a pattern takes. */
  lemma FirstPart(p: string, h: string) returns (k: nat)
    requires p != "" && Covers(p, h)
    ensures k <= |h| && Takes(p[0], h, k) && Covers(p[1..], h[k..])
  {
    if p[0] == '*' {
      var k' :| 0 <= k' <= |h| && Covers(p[1..], h[k'..]);
      k := k';
    } else {
      k := 1;
    }
  }

  predicate Takes(c: char, h: string, k: nat) {
    c == '*' || (k == 1 && h != "" && (c == '?' || c == h[0]))
  }

  lemma FirstTaken(p: string, h: string, k: nat)
    requires p != "" && k <= |h| && Takes(p[0], h, k) && Covers(p[1..], h[k..])
    ensures Covers(p, h)
  {}

  ghost predicate Alike(p: string, q: string) {
    forall h: string :: Covers(p, h) <==> Covers(q, h)
  }

  /** Equal meanings stay equal in front of, and behind, anything. */
  lemma InFront(p: string, q: string, a: string)
    requires Alike(p, q)
    ensures Alike(p + a, q + a)
  {
    forall h: string ensures Covers(p + a, h) <==> Covers(q + a, h) {
      InARow(p, a, h);
      InARow(q, a, h);
    }
  }

  lemma Behind(a: string, p: string, q: string)
    requires Alike(p, q)
    ensures Alike(a + p, a + q)
  {
    forall h: string ensures Covers(a + p, h) <==> Covers(a + q, h) {
      InARow(a, p, h);
      InARow(a, q, h);
    }
  }

  /** Between two stars, a pattern without wildcards is substring search. */
  lemma StarsAreSubstring(p: string, h: string)
    requires Plain(p)
    ensures Covers("*" + p + "*", h) <==> Contains(h, p)
  {
    var q := "*" + p + "*";
    assert q[1..] == p + "*";
    forall i | 0 <= i <= |h|
      ensures Covers(p + "*", h[i..]) <==> OccursAt(h, p, i)
    {
      PlainPrefix(p, "*", h[i..]);
      if |p| <= |h[i..]| {
        assert h[i..][..|p|] == h[i..i + |p|];
        AllCovered(h[i..][|p|..]);
      }
    }
    assert Covers(q, h) <==> exists i :: 0 <= i <= |h| && Covers(p + "*", h[i..]);
  }

  lemma AllCovered(h: string)
    ensures Covers("*", h)
  {
    assert "*"[1..] == "" && h[|h|..] == "";
  }

  // ----- collapsing runs of stars -----

  /** One more star after a star changes nothing. */
  lemma StarAgain(s: string)
    requires s != "" && s[|s| - 1] == '*'
    ensures Alike(s, s + "*")
  {
    var a := s[..|s| - 1];
    assert s == a + "*" && s + "*" == a + "**";
    forall h: string ensures Covers("*", h) <==> Covers("**", h) {
      StarStar("", h);
      assert "**" + "" == "**" && "*" + "" == "*";
    }
    Behind(a, "*", "**");
  }

  lemma AlikeStep(p: string, q: string, r: string)
    requires Alike(p, q) && Alike(q, r)
    ensures Alike(p, r)
  {}

  function Collapsed(s: string): string {
    if s == "" then ""
    else
      var init, c := s[..|s| - 1], s[|s| - 1];
      if c == '*' && init != "" && init[|init| - 1] == '*' then Collapsed(init) else Collapsed(init) + [c]
  }

  /** The shorter pattern means the same and has no two stars in a row; without
      wildcards it is the pattern itself. */
  method CollapseStars(s: string) returns (out: string)
    ensures CollapsedTo(out, s)
  {
    out := "";
    var prevStar := false;
    for i := 0 to |s|
      invariant CollapsedTo(out, s[..i])
      invariant prevStar <==> i > 0 && s[i - 1] == '*'
    {
      var c := s[i];
      CollapseNext(out, s, i);
      if c == '*' {
        if !prevStar {
          out := out + [c];
        }
        prevStar := true;
      } else {
        out := out + [c];
        prevStar := false;
      }
    }
    assert s[..|s|] == s;
  }

  /** `out` is the collapsed form of `s`. */
  ghost predicate CollapsedTo(out: string, s: string) {
    && out == Collapsed(s) && Alike(out, s)
    && (forall k :: 0 < k < |out| ==> !(out[k - 1] == '*' && out[k] == '*'))
    && (if s == "" then out == "" else out != "" && out[|out| - 1] == s[|s| - 1])
    && (if Plain(s) then out == s else !Plain(out))
    && forall d :: d in out <==> d in s
  }

  lemma CollapseStep(out: string, s: string, c: char)
    requires CollapsedTo(out, s)
    ensures CollapsedTo(if c == '*' && s != "" && s[|s| - 1] == '*' then out else out + [c], s + [c])
  {
    assert (s + [c])[..|s|] == s;
    PlainAppend(s, c);
    if c == '*' && s != "" && s[|s| - 1] == '*' {
      CollapseSkip(out, s);
    } else {
      InFront(out, s, [c]);
      PlainAppend(out, c);
      assert forall d :: d in out + [c] <==> d in out || d == c;
    }
  }

  lemma CollapseNext(out: string, s: string, i: nat)
    requires i < |s| && CollapsedTo(out, s[..i])
    ensures CollapsedTo(if s[i] == '*' && i > 0 && s[i - 1] == '*' then out else out + [s[i]], s[..i + 1])
  {
    assert s[..i + 1] == s[..i] + [s[i]];
    CollapseStep(out, s[..i], s[i]);
  }

  lemma CollapseSkip(out: string, s: string)
    requires CollapsedTo(out, s) && s != "" && s[|s| - 1] == '*'
    ensures Alike(out, s + "*") && !Plain(out) && '*' in out
  {
    StarAgain(s);
    AlikeStep(out, s, s + "*");
    assert Wild(out[|out| - 1]) && out[|out| - 1] in out;
  }

  lemma PlainAppend(s: string, c: char)
    ensures Plain(s + [c]) <==> Plain(s) && !Wild(c)
  {
    assert forall i :: 0 <= i < |s| ==> (s + [c])[i] == s[i];
    assert (s + [c])[|s|] == c;
  }

  // ----- compiled patterns -----

  datatype Tok = Star | Any | Lit(text: string)

  function TextOf(t: Tok): string {
    match t
    case Star => "*"
    case Any => "?"
    case Lit(s) => s
  }

  /** The pattern that a token list stands for. */
  function Text(toks: seq<Tok>): string {
    if toks == [] then "" else TextOf(toks[0]) + Text(toks[1..])
  }

  lemma {:induction false} TextAppend(toks: seq<Tok>, t: Tok)
    ensures Text(toks + [t]) == Text(toks) + TextOf(t)
  {
    if toks == [] {
      assert [t][1..] == [];
      assert toks + [t] == [t];
    } else {
      assert (toks + [t])[1..] == toks[1..] + [t];
      TextAppend(toks[1..], t);
    }
  }

  /** Literals hold no wildcards and are never empty. */
  ghost predicate Compiled(toks: seq<Tok>) {
    forall i :: 0 <= i < |toks| && toks[i].Lit? ==> toks[i].text != "" && Plain(toks[i].text)
  }

  method FlushLit(toks: seq<Tok>, lit: string) returns (r: seq<Tok>)
    requires Compiled(toks) && Plain(lit)
    ensures Compiled(r) && Text(r) == Text(toks) + lit
    ensures forall i :: 0 <= i < |r| && i >= |toks| ==> r[i].Lit?
  {
    r := toks;
    if lit != "" {
      TextAppend(toks, Lit(lit));
      r := r + [Lit(lit)];
    }
  }

  /** Compiling loses nothing: the tokens spell the pattern. */
  method CompileGlob(pat: string) returns (toks: seq<Tok>)
    ensures Compiled(toks) && Text(toks) == pat
  {
    toks := [];
    var lit := "";
    for i := 0 to |pat|
      invariant Compiled(toks) && Plain(lit) && Text(toks) + lit == pat[..i]
    {
      var c := pat[i];
      assert pat[..i + 1] == pat[..i] + [c];
      if c == '*' || c == '?' {
        toks := FlushLit(toks, lit);
        var t := if c == '*' then Star else Any;
        TextAppend(toks, t);
        toks, lit := toks + [t], "";
      } else {
        PlainAppend(lit, c);
        lit := lit + [c];
      }
    }
    assert pat[..|pat|] == pat;
    toks := FlushLit(toks, lit);
  }

  // ----- matching -----

  /** The backtracking matcher accepts exactly what the pattern covers. */
  method GlobMatch(toks: seq<Tok>, hay: string) returns (r: bool)
    requires Compiled(toks)
    ensures r <==> Covers(Text(toks), hay)
  {
    r := GlobRec(toks, 0, hay, 0);
    assert toks[0..] == toks && hay[0..] == hay;
  }

  lemma Unfold(toks: seq<Tok>, ti: nat)
    requires ti < |toks|
    ensures Text(toks[ti..]) == TextOf(toks[ti]) + Text(toks[ti + 1..])
    ensures !toks[ti].Lit? ==> var p := Text(toks[ti..]); |p| > 0 && p[1..] == Text(toks[ti + 1..])
  {
    assert toks[ti..][1..] == toks[ti + 1..];
  }

  method GlobRec(toks: seq<Tok>, ti: nat, hay: string, hi: nat) returns (r: bool)
    requires Compiled(toks) && ti <= |toks| && hi <= |hay|
    ensures r <==> Covers(Text(toks[ti..]), hay[hi..])
    decreases |toks| - ti, 1
  {
    if ti == |toks| {
      return hi == |hay|;
    }
    Unfold(toks, ti);
    match toks[ti] {
      case Star =>
        r := GlobStar(toks, ti, hay, hi);
      case Any =>
        if hi < |hay| {
          assert hay[hi..][1..] == hay[hi + 1..];
          r := GlobRec(toks, ti + 1, hay, hi + 1);
        } else {
          r := false;
        }
      case Lit(s) =>
        PlainPrefix(s, Text(toks[ti + 1..]), hay[hi..]);
        var here := LitAt(s, hay, hi);
        if !here {
          return false;
        }
        assert hay[hi..][|s|..] == hay[hi + |s|..];
        r := GlobRec(toks, ti + 1, hay, hi + |s|);
    }
  }

  /** A star takes nothing first, and one more character at every failure. */
  method GlobStar(toks: seq<Tok>, ti: nat, hay: string, hi: nat) returns (r: bool)
    requires Compiled(toks) && ti < |toks| && toks[ti] == Star && hi <= |hay|
    ensures r <==> Covers(Text(toks[ti..]), hay[hi..])
    decreases |toks| - ti, 0
  {
    Unfold(toks, ti);
    var remaining := |hay| - hi;
    for skip := 0 to remaining + 1
      invariant forall k :: 0 <= k < skip ==> !Covers(Text(toks[ti + 1..]), hay[hi..][k..])
    {
      assert hay[hi..][skip..] == hay[hi + skip..];
      var hit := GlobRec(toks, ti + 1, hay, hi + skip);
      if hit {
        return true;
      }
    }
    r := false;
  }

  /** Compares a literal run, one character at a time. */
  method LitAt(s: string, hay: string, hi: nat) returns (r: bool)
    requires hi <= |hay|
    ensures r <==> |s| <= |hay[hi..]| && hay[hi..][..|s|] == s
  {
    if hi + |s| > |hay| {
      return false;
    }
    for k := 0 to |s|
      invariant hay[hi..][..k] == s[..k]
    {
      if hay[hi + k] != s[k] {
        assert hay[hi..][..|s|][k] != s[k];
        return false;
      }
      assert hay[hi..][..k + 1] == hay[hi..][..k] + [s[k]];
    }
    r := true;
  }
}
