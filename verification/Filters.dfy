/** Filter patterns: compiled once, then matched against many names. */
module Filters {
  import opened Wrappers
  import opened Globs
  import ScopePaths

  const MAX_FILTER_PATTERN_LEN := 256
  const MAX_FILTER_WILDCARDS := 16

  datatype MatchMode = Substring | Exact

  datatype Domain = Path | Leaf

  datatype PatKind = Substr(text: string) | Glob(toks: seq<Tok>)

  datatype Pat = Pat(domain: Domain, kind: PatKind)

  datatype FilterError = TooLong | TooManyWildcards

  predicate HasSeparator(s: string): (r: bool)
    ensures r <==> '.' in s || '/' in s
  {
    exists c :: c in s && ScopePaths.Separator(c)
  }

  function Wildcards(s: string): nat {
    if s == "" then 0 else Wildcards(s[..|s| - 1]) + if Wild(s[|s| - 1]) then 1 else 0
  }

  /** Stars and question marks are counted. */
  lemma {:induction false} WildcardsAre(s: string)
    ensures Wildcards(s) == multiset(s)['*'] + multiset(s)['?']
  {
    if s != "" {
      assert s == s[..|s| - 1] + [s[|s| - 1]];
      WildcardsAre(s[..|s| - 1]);
    }
  }

  // ----- what a pattern selects -----

  /** A pattern that names a place in the hierarchy is about the path, any
      other about the leaf name; with a wildcard it has to cover that string,
      without one it has to equal it or to occur in it. */
  ghost predicate Selects(raw: string, mode: MatchMode, path: string, leaf: string) {
    var hay := if '.' in raw || '/' in raw then path else leaf;
    if '*' in raw || '?' in raw then Covers(raw, hay)
    else if mode == Exact then hay == raw
    else Contains(hay, raw)
  }

  // ----- parsing -----

  /** The compiled form of a pattern that, after collapsing, reads `text`. */
  ghost predicate Represents(p: Pat, text: string, mode: MatchMode) {
    && (p.domain == Path <==> HasSeparator(text))
    && match p.kind
       case Substr(s) => s == text && Plain(text) && mode == Substring
       case Glob(toks) => Compiled(toks) && Text(toks) == text && (mode == Exact || !Plain(text))
  }

  lemma {:induction false} NoWildcards(s: string)
    ensures Wildcards(s) == 0 <==> Plain(s)
  {
    if s != "" {
      NoWildcards(s[..|s| - 1]);
      PlainAppend(s[..|s| - 1], s[|s| - 1]);
      assert s == s[..|s| - 1] + [s[|s| - 1]];
    }
  }

  predicate Accepted(raw: string) {
    |raw| <= 256 && Wildcards(Collapsed(raw)) <= 16
  }

  lemma PlainMeans(p: string)
    ensures Plain(p) <==> !('*' in p || '?' in p)
  {
    assert forall i :: 0 <= i < |p| && Wild(p[i]) ==> p[i] in p;
  }

  /** Parses one pattern; `None` for an empty one, which selects nothing. */
  method ParseOne(raw: string, mode: MatchMode) returns (r: Result<Option<Pat>, FilterError>)
    ensures raw == "" ==> r == Success(None)
    ensures r == Failure(TooLong) <==> |raw| > 256
    ensures r == Failure(TooManyWildcards) <==> |raw| <= 256 && Wildcards(Collapsed(raw)) > 16
    ensures r.Success? <==> Accepted(raw)
    ensures raw != "" && r.Success? ==> r.value.Some?
    ensures r.Success? && r.value.Some? && r.value.value.kind.Glob? ==> Compiled(r.value.value.kind.toks)
    ensures r.Success? && r.value.Some? ==>
              forall path, leaf :: Chosen(r.value.value, path, leaf) <==> Selects(raw, mode, path, leaf)
  {
    if raw == "" {
      return Success(None);
    }
    if |raw| > MAX_FILTER_PATTERN_LEN {
      return Failure(TooLong);
    }
    var collapsed := CollapseStars(raw);
    NoWildcards(collapsed);
    if Wildcards(collapsed) > MAX_FILTER_WILDCARDS {
      return Failure(TooManyWildcards);
    }
    var domain := if HasSeparator(collapsed) then Path else Leaf;
    var kind;
    if mode == Exact || '*' in collapsed || '?' in collapsed {
      var toks := CompileGlob(collapsed);
      kind := Glob(toks);
    } else {
      kind := Substr(collapsed);
    }
    PlainMeans(collapsed);
    forall path, leaf ensures Chosen(Pat(domain, kind), path, leaf) <==> Selects(raw, mode, path, leaf) {
      RepresentsSelects(Pat(domain, kind), collapsed, raw, mode, path, leaf);
    }
    r := Success(Some(Pat(domain, kind)));
  }

  ghost predicate Chosen(p: Pat, path: string, leaf: string) {
    var hay := if p.domain == Path then path else leaf;
    match p.kind
    case Substr(s) => Contains(hay, s)
    case Glob(toks) => Covers(Text(toks), hay)
  }

  lemma RepresentsSelects(p: Pat, text: string, raw: string, mode: MatchMode, path: string, leaf: string)
    requires Represents(p, text, mode) && Alike(text, raw) && (forall c :: c in text <==> c in raw)
    requires if Plain(raw) then text == raw else !Plain(text)
    ensures Chosen(p, path, leaf) <==> Selects(raw, mode, path, leaf)
  {
    assert HasSeparator(text) <==> HasSeparator(raw);
    PlainMeans(raw);
    if Plain(raw) {
      PlainIsEquality(raw, if HasSeparator(raw) then path else leaf);
    }
  }

  /** Some pattern of the list selects the name. */
  ghost predicate AnySelects(raws: seq<string>, mode: MatchMode, path: string, leaf: string) {
    exists k :: 0 <= k < |raws| && raws[k] != "" && Selects(raws[k], mode, path, leaf)
  }

  /** The compiled patterns choose what the given ones select. */
  ghost predicate Faithful(pats: seq<Pat>, raws: seq<string>, mode: MatchMode) {
    && (forall i :: 0 <= i < |pats| && pats[i].kind.Glob? ==> Compiled(pats[i].kind.toks))
    && forall path, leaf :: AnyChosen(pats, path, leaf) <==> AnySelects(raws, mode, path, leaf)
  }

  ghost predicate AnyChosen(pats: seq<Pat>, path: string, leaf: string) {
    exists i :: 0 <= i < |pats| && Chosen(pats[i], path, leaf)
  }

  lemma AnyAppend(pats: seq<Pat>, p: Pat, path: string, leaf: string)
    ensures AnyChosen(pats + [p], path, leaf) <==> AnyChosen(pats, path, leaf) || Chosen(p, path, leaf)
  {
    var all := pats + [p];
    assert all[|pats|] == p && forall i :: 0 <= i < |pats| ==> all[i] == pats[i];
  }

  lemma AnySelectsAppend(raws: seq<string>, raw: string, mode: MatchMode, path: string, leaf: string)
    ensures AnySelects(raws + [raw], mode, path, leaf) <==>
            AnySelects(raws, mode, path, leaf) || (raw != "" && Selects(raw, mode, path, leaf))
  {
    var all := raws + [raw];
    assert all[|raws|] == raw && forall i :: 0 <= i < |raws| ==> all[i] == raws[i];
  }

  /** Parses a list of patterns; the first bad one ends it. */
  method ParseMode(raws: seq<string>, mode: MatchMode) returns (r: Result<seq<Pat>, FilterError>)
    ensures r.Success? ==> Faithful(r.value, raws, mode)
    ensures r.Success? <==> forall k :: 0 <= k < |raws| ==> Accepted(raws[k])
  {
    var pats: seq<Pat> := [];
    for k := 0 to |raws|
      invariant Faithful(pats, raws[..k], mode)
      invariant forall j :: 0 <= j < k ==> Accepted(raws[j])
    {
      assert raws[..k + 1] == raws[..k] + [raws[k]];
      var one := ParseOne(raws[k], mode);
      if one.Failure? {
        return Failure(one.error);
      }
      if one.value.Some? {
        FaithfulStep(pats, raws[..k], one.value.value, raws[k], mode);
        pats := pats + [one.value.value];
      } else {
        FaithfulSkip(pats, raws[..k], mode);
      }
    }
    assert raws[..|raws|] == raws;
    r := Success(pats);
  }

  lemma FaithfulStep(pats: seq<Pat>, raws: seq<string>, p: Pat, raw: string, mode: MatchMode)
    requires Faithful(pats, raws, mode) && raw != "" && (p.kind.Glob? ==> Compiled(p.kind.toks))
    requires forall path, leaf :: Chosen(p, path, leaf) <==> Selects(raw, mode, path, leaf)
    ensures Faithful(pats + [p], raws + [raw], mode)
  {
    forall path, leaf
      ensures AnyChosen(pats + [p], path, leaf) <==> AnySelects(raws + [raw], mode, path, leaf)
    {
      AnyAppend(pats, p, path, leaf);
      AnySelectsAppend(raws, raw, mode, path, leaf);
    }
  }

  lemma FaithfulSkip(pats: seq<Pat>, raws: seq<string>, mode: MatchMode)
    requires Faithful(pats, raws, mode)
    ensures Faithful(pats, raws + [""], mode)
  {
    forall path, leaf ensures AnySelects(raws + [""], mode, path, leaf) <==> AnySelects(raws, mode, path, leaf) {
      AnySelectsAppend(raws, "", mode, path, leaf);
    }
  }

  // ----- matching -----

  method MatchOne(p: Pat, path: string, leaf: string) returns (hit: bool)
    requires p.kind.Glob? ==> Compiled(p.kind.toks)
    ensures hit <==> Chosen(p, path, leaf)
  {
    var hay := if p.domain == Path then path else leaf;
    match p.kind {
      case Substr(s) =>
        hit := Contains(hay, s);
      case Glob(toks) =>
        hit := GlobMatch(toks, hay);
    }
  }

  /** A name passes when one of the patterns, as they were given, selects it. */
  method Matches(pats: seq<Pat>, path: string, leaf: string, ghost raws: seq<string>, ghost mode: MatchMode)
    returns (hit: bool)
    requires Faithful(pats, raws, mode)
    ensures hit <==> AnySelects(raws, mode, path, leaf)
  {
    for i := 0 to |pats|
      invariant forall j :: 0 <= j < i ==> !Chosen(pats[j], path, leaf)
    {
      hit := MatchOne(pats[i], path, leaf);
      if hit {
        assert AnyChosen(pats, path, leaf);
        return;
      }
    }
    assert !AnyChosen(pats, path, leaf);
    hit := false;
  }
}
