/** Resolved search conditions: when they hold, and when two are the same. */
module Clauses {
  import opened Wrappers
  import opened Conditions
  import opened SearchState
  import opened Signals

  datatype Term =
    | Level(op: Op, target: Target, width: nat, kind: ValueKind)
    | Changed

  datatype Cond = Cond(sid: nat, term: Term)

  type Clause = seq<Cond>

  function RawOf(state: State, s: nat): Option<string> {
    if s in state then Some(state[s]) else None
  }

  predicate TermHolds(state: State, changed: set<nat>, c: Cond) {
    match c.term
    case Changed => c.sid in changed
    case Level(op, target, width, kind) =>
      var raw := RawOf(state, c.sid);
      ConditionMatch(if kind == Bits then raw else None, raw, op, target, width)
  }

  /** All terms of a clause hold. */
  predicate ClauseHolds(state: State, changed: set<nat>, conds: Clause) {
    forall i :: 0 <= i < |conds| ==> TermHolds(state, changed, conds[i])
  }

  /** Some clause holds. */
  predicate AnyClauseHolds(state: State, changed: set<nat>, clauses: seq<Clause>) {
    exists i :: 0 <= i < |clauses| && ClauseHolds(state, changed, clauses[i])
  }

  method ConditionsHold(state: State, changed: set<nat>, conds: Clause) returns (ok: bool)
    ensures ok <==> ClauseHolds(state, changed, conds)
  {
    for i := 0 to |conds|
      invariant forall j :: 0 <= j < i ==> TermHolds(state, changed, conds[j])
    {
      if !TermHolds(state, changed, conds[i]) {
        return false;
      }
    }
    return true;
  }

  // ----- de-duplication -----

  /** Signal, operator slot and target as written. */
  datatype TermKey = TermKey(sid: nat, op: string, target: string)

  function OpText(op: Op): string {
    match op
    case Eq => "="
    case EqEq => "=="
    case Ne => "!="
  }

  function KeyOf(c: Cond): TermKey {
    match c.term
    case Level(op, target, _, _) => TermKey(c.sid, OpText(op), DedupKey(target))
    case Changed => TermKey(c.sid, "changed", "")
  }

  /** A term as resolution produces it: the target was read from some text,
      width and kind are those of the signal. */
  ghost predicate Resolved(signals: seq<SignalInfo>, c: Cond) {
    && c.sid < |signals|
    && (c.term.Level? ==>
          && c.term.width == signals[c.sid].width
          && c.term.kind == signals[c.sid].kind
          && exists text :: ParseTarget(text) == Success(c.term.target))
  }

  ghost predicate ResolvedClause(signals: seq<SignalInfo>, conds: Clause) {
    forall i :: 0 <= i < |conds| ==> Resolved(signals, conds[i])
  }

  lemma OpTextsDiffer(a: Op, b: Op)
    requires OpText(a) == OpText(b)
    ensures a == b
  {
    assert |OpText(a)| == |OpText(b)|;
    assert OpText(a)[0] == OpText(b)[0];
  }

  /** Two resolved terms with one key are one term. */
  lemma KeyDecides(signals: seq<SignalInfo>, a: Cond, b: Cond)
    requires Resolved(signals, a) && Resolved(signals, b)
    ensures KeyOf(a) == KeyOf(b) <==> a == b
  {
    if KeyOf(a) == KeyOf(b) {
      assert |KeyOf(a).op| == |KeyOf(b).op|;
      if a.term.Level? && b.term.Level? {
        OpTextsDiffer(a.term.op, b.term.op);
        var ta :| ParseTarget(ta) == Success(a.term.target);
        var tb :| ParseTarget(tb) == Success(b.term.target);
        EqualKeysEqualTargets(ta, tb, a.term.target, b.term.target);
      }
    }
  }

  /** A clause's key regardless of term order: the source sorts the term keys,
      and sorted lists agree exactly when they hold the same keys equally
      often. */
  function ClauseKey(conds: Clause): multiset<TermKey> {
    multiset(KeysOf(conds))
  }

  function KeysOf(conds: Clause): (r: seq<TermKey>)
    ensures |r| == |conds| && forall i :: 0 <= i < |r| ==> r[i] == KeyOf(conds[i])
  {
    seq(|conds|, i requires 0 <= i < |conds| => KeyOf(conds[i]))
  }

  lemma KeyNotKept(kept: Clause, c: Cond)
    requires KeyOf(c) !in KeysOf(kept)
    ensures c !in kept
  {
    forall i | 0 <= i < |kept| ensures kept[i] != c {
      assert KeysOf(kept)[i] in KeysOf(kept);
    }
  }

  /** Every element that no equal one comes before, in order. */
  function Firsts<T(==)>(s: seq<T>): seq<T> {
    if s == [] then []
    else Firsts(s[..|s| - 1]) + if s[|s| - 1] in s[..|s| - 1] then [] else [s[|s| - 1]]
  }

  lemma FirstsMore<T>(s: seq<T>, k: nat)
    requires k < |s|
    ensures Firsts(s[..k + 1]) == Firsts(s[..k]) + if s[k] in s[..k] then [] else [s[k]]
    ensures forall x :: x in s[..k + 1] <==> x in s[..k] || x == s[k]
  {
    assert s[..k + 1][..k] == s[..k] && s[..k + 1] == s[..k] + [s[k]];
  }

  /** Keeps the first term of every key, in order. */
  method DedupTerms(signals: seq<SignalInfo>, conds: Clause) returns (kept: Clause)
    requires ResolvedClause(signals, conds)
    ensures ResolvedClause(signals, kept)
    ensures kept == Firsts(conds)
    ensures forall i, j :: 0 <= i < j < |kept| ==> kept[i] != kept[j]
    ensures forall c :: c in kept <==> c in conds
  {
    var seen: set<TermKey> := {};
    kept := [];
    for k := 0 to |conds|
      invariant ResolvedClause(signals, kept) && kept == Firsts(conds[..k])
      invariant forall i, j :: 0 <= i < j < |kept| ==> kept[i] != kept[j]
      invariant forall c :: c in kept <==> c in conds[..k]
      invariant forall key :: key in seen <==> key in KeysOf(kept)
    {
      var c := conds[k];
      FirstsMore(conds, k);
      if KeyOf(c) in seen {
        var i :| 0 <= i < |kept| && KeysOf(kept)[i] == KeyOf(c);
        KeyDecides(signals, kept[i], c);
        assert kept[i] in kept;
      } else {
        KeyNotKept(kept, c);
        assert KeysOf(kept + [c]) == KeysOf(kept) + [KeyOf(c)];
        kept := kept + [c];
        seen := seen + {KeyOf(c)};
      }
    }
    assert conds[..|conds|] == conds;
  }

  /** Clauses with the same terms hold together. */
  lemma SameTermsHoldAlike(state: State, changed: set<nat>, a: Clause, b: Clause)
    requires forall c :: c in a <==> c in b
    ensures ClauseHolds(state, changed, a) <==> ClauseHolds(state, changed, b)
  {
    if ClauseHolds(state, changed, a) {
      forall i | 0 <= i < |b| ensures TermHolds(state, changed, b[i]) {
        assert b[i] in a;
      }
    }
    if ClauseHolds(state, changed, b) {
      forall i | 0 <= i < |a| ensures TermHolds(state, changed, a[i]) {
        assert a[i] in b;
      }
    }
  }

  lemma SameKeySameTerms(signals: seq<SignalInfo>, a: Clause, b: Clause, c: Cond)
    requires ResolvedClause(signals, a) && ResolvedClause(signals, b) && ClauseKey(a) == ClauseKey(b)
    requires c in a
    ensures c in b
  {
    var i :| 0 <= i < |a| && a[i] == c;
    assert KeysOf(a)[i] in multiset(KeysOf(a));
    assert KeyOf(c) in multiset(KeysOf(b));
    var j :| 0 <= j < |b| && KeysOf(b)[j] == KeyOf(c);
    KeyDecides(signals, c, b[j]);
  }

  /** Clauses with one key hold in the same situations. */
  lemma SameKeyHoldsAlike(signals: seq<SignalInfo>, state: State, changed: set<nat>, a: Clause, b: Clause)
    requires ResolvedClause(signals, a) && ResolvedClause(signals, b) && ClauseKey(a) == ClauseKey(b)
    ensures ClauseHolds(state, changed, a) <==> ClauseHolds(state, changed, b)
  {
    forall c ensures c in a <==> c in b {
      if c in a {
        SameKeySameTerms(signals, a, b, c);
      }
      if c in b {
        SameKeySameTerms(signals, b, a, c);
      }
    }
    SameTermsHoldAlike(state, changed, a, b);
  }

  function ClauseKeys(clauses: seq<Clause>): (r: seq<multiset<TermKey>>)
    ensures |r| == |clauses| && forall i :: 0 <= i < |r| ==> r[i] == ClauseKey(clauses[i])
  {
    seq(|clauses|, i requires 0 <= i < |clauses| => ClauseKey(clauses[i]))
  }

  /** Every clause of `a` has a clause with its key in `b`. */
  ghost predicate Covers(b: seq<Clause>, a: seq<Clause>) {
    forall i :: 0 <= i < |a| ==> ClauseKey(a[i]) in ClauseKeys(b)
  }

  /** Every clause that none of its key comes before, in order. */
  function FirstClauses(clauses: seq<Clause>): seq<Clause> {
    if clauses == [] then []
    else
      var rest, c := clauses[..|clauses| - 1], clauses[|clauses| - 1];
      FirstClauses(rest) + if ClauseKey(c) in ClauseKeys(rest) then [] else [c]
  }

  lemma FirstClausesMore(clauses: seq<Clause>, k: nat)
    requires k < |clauses|
    ensures FirstClauses(clauses[..k + 1]) ==
            FirstClauses(clauses[..k]) + if ClauseKey(clauses[k]) in ClauseKeys(clauses[..k]) then [] else [clauses[k]]
    ensures forall key :: key in ClauseKeys(clauses[..k + 1]) <==>
                          key in ClauseKeys(clauses[..k]) || key == ClauseKey(clauses[k])
  {
    assert clauses[..k + 1][..k] == clauses[..k];
    assert ClauseKeys(clauses[..k + 1]) == ClauseKeys(clauses[..k]) + [ClauseKey(clauses[k])];
  }

  lemma KeysMembers(clauses: seq<Clause>, c: Clause)
    requires c in clauses
    ensures ClauseKey(c) in ClauseKeys(clauses)
  {
    var i :| 0 <= i < |clauses| && clauses[i] == c;
    assert ClauseKeys(clauses)[i] == ClauseKey(c);
  }

  lemma {:induction false} FirstClausesFacts(clauses: seq<Clause>)
    ensures forall c :: c in FirstClauses(clauses) ==> c in clauses
    ensures forall key :: key in ClauseKeys(clauses) <==> key in ClauseKeys(FirstClauses(clauses))
  {
    if clauses != [] {
      var n := |clauses| - 1;
      var rest, c := clauses[..n], clauses[n];
      FirstClausesFacts(rest);
      assert clauses[..n + 1] == clauses;
      FirstClausesMore(clauses, n);
      assert FirstClauses(rest) + [] == FirstClauses(rest);
      assert ClauseKeys(FirstClauses(rest) + [c]) == ClauseKeys(FirstClauses(rest)) + [ClauseKey(c)];
    }
  }

  ghost predicate DistinctKeys(clauses: seq<Clause>) {
    forall i, j :: 0 <= i < j < |clauses| ==> ClauseKey(clauses[i]) != ClauseKey(clauses[j])
  }

  lemma {:induction false} FirstClausesDistinct(clauses: seq<Clause>)
    ensures DistinctKeys(FirstClauses(clauses))
  {
    if clauses != [] {
      var n := |clauses| - 1;
      var rest, c := clauses[..n], clauses[n];
      FirstClausesDistinct(rest);
      FirstClausesFacts(rest);
      var r := FirstClauses(rest);
      assert r + [] == r;
      if ClauseKey(c) !in ClauseKeys(rest) {
        forall i | 0 <= i < |r| ensures ClauseKey(r[i]) != ClauseKey(c) {
          KeysMembers(rest, r[i]);
        }
        assert DistinctKeys(r + [c]);
      }
    }
  }

  /** Keeps the first clause of every key, in order. */
  method DedupClauses(clauses: seq<Clause>) returns (kept: seq<Clause>)
    ensures kept == FirstClauses(clauses)
    ensures Covers(kept, clauses) && Covers(clauses, kept)
    ensures forall c :: c in kept ==> c in clauses
    ensures DistinctKeys(kept)
  {
    var seen: set<multiset<TermKey>> := {};
    kept := [];
    for k := 0 to |clauses|
      invariant kept == FirstClauses(clauses[..k])
      invariant forall key :: key in seen <==> key in ClauseKeys(clauses[..k])
    {
      var key := ClauseKey(clauses[k]);
      FirstClausesMore(clauses, k);
      if key !in seen {
        seen := seen + {key};
        kept := kept + [clauses[k]];
      }
    }
    assert clauses[..|clauses|] == clauses;
    FirstClausesFacts(clauses);
    FirstClausesDistinct(clauses);
    KeptCovered(clauses, kept);
    AllCovered(clauses, kept);
  }

  lemma AllCovered(clauses: seq<Clause>, kept: seq<Clause>)
    requires forall key :: key in ClauseKeys(clauses) <==> key in ClauseKeys(kept)
    ensures Covers(kept, clauses)
  {
    forall i | 0 <= i < |clauses| ensures ClauseKey(clauses[i]) in ClauseKeys(kept) {
      assert ClauseKeys(clauses)[i] == ClauseKey(clauses[i]);
    }
  }

  lemma KeptCovered(clauses: seq<Clause>, kept: seq<Clause>)
    requires forall c :: c in kept ==> c in clauses
    ensures Covers(clauses, kept)
  {
    forall i | 0 <= i < |kept| ensures ClauseKey(kept[i]) in ClauseKeys(clauses) {
      KeysMembers(clauses, kept[i]);
    }
  }

  lemma CoveringHolds(signals: seq<SignalInfo>, state: State, changed: set<nat>, a: seq<Clause>, b: seq<Clause>)
    requires forall i :: 0 <= i < |a| ==> ResolvedClause(signals, a[i])
    requires forall i :: 0 <= i < |b| ==> ResolvedClause(signals, b[i])
    requires Covers(b, a) && AnyClauseHolds(state, changed, a)
    ensures AnyClauseHolds(state, changed, b)
  {
    var i :| 0 <= i < |a| && ClauseHolds(state, changed, a[i]);
    assert ClauseKey(a[i]) in ClauseKeys(b);
    var j :| 0 <= j < |b| && ClauseKeys(b)[j] == ClauseKey(a[i]);
    SameKeyHoldsAlike(signals, state, changed, a[i], b[j]);
  }

  /** Dropping repeated clauses never changes whether the search holds. */
  lemma CoveringHoldsAlike(signals: seq<SignalInfo>, state: State, changed: set<nat>, a: seq<Clause>, b: seq<Clause>)
    requires forall i :: 0 <= i < |a| ==> ResolvedClause(signals, a[i])
    requires forall i :: 0 <= i < |b| ==> ResolvedClause(signals, b[i])
    requires Covers(b, a) && Covers(a, b)
    ensures AnyClauseHolds(state, changed, a) <==> AnyClauseHolds(state, changed, b)
  {
    if AnyClauseHolds(state, changed, a) {
      CoveringHolds(signals, state, changed, a, b);
    }
    if AnyClauseHolds(state, changed, b) {
      CoveringHolds(signals, state, changed, b, a);
    }
  }

  // ----- what a clause depends on -----

  /** The clauses have a term on signal `s`. */
  ghost predicate Uses(clauses: seq<Clause>, s: nat) {
    exists i, j :: 0 <= i < |clauses| && 0 <= j < |clauses[i]| && clauses[i][j].sid == s
  }

  /** The two situations are the same as far as signal `s` goes. */
  ghost predicate SameFor(s: nat, a: State, ca: set<nat>, b: State, cb: set<nat>) {
    RawOf(a, s) == RawOf(b, s) && (s in ca <==> s in cb)
  }

  lemma ClauseLocal(conds: Clause, a: State, ca: set<nat>, b: State, cb: set<nat>)
    requires forall j :: 0 <= j < |conds| ==> SameFor(conds[j].sid, a, ca, b, cb)
    ensures ClauseHolds(a, ca, conds) <==> ClauseHolds(b, cb, conds)
  {
    forall j | 0 <= j < |conds| ensures TermHolds(a, ca, conds[j]) <==> TermHolds(b, cb, conds[j]) {
      assert SameFor(conds[j].sid, a, ca, b, cb);
    }
  }

  /** Whether clauses hold depends on their own signals only. */
  lemma ClausesLocal(clauses: seq<Clause>, a: State, ca: set<nat>, b: State, cb: set<nat>)
    requires forall s :: Uses(clauses, s) ==> SameFor(s, a, ca, b, cb)
    ensures AnyClauseHolds(a, ca, clauses) <==> AnyClauseHolds(b, cb, clauses)
  {
    forall i | 0 <= i < |clauses| ensures ClauseHolds(a, ca, clauses[i]) <==> ClauseHolds(b, cb, clauses[i]) {
      forall j | 0 <= j < |clauses[i]| ensures SameFor(clauses[i][j].sid, a, ca, b, cb) {
        assert Uses(clauses, clauses[i][j].sid);
      }
      ClauseLocal(clauses[i], a, ca, b, cb);
    }
  }
}
