/** The state a search sees at each tick, and what it shows of it. */
module SearchState {
  import opened Wrappers

  /** Each signal's last raw value; absent while undefined. */
  type State = map<nat, string>

  /** The displayed tuple: path and shown value of every displayed signal. */
  type Values = seq<(string, string)>

  /** Verbose details of a displayed signal. */
  datatype Meta = Meta(path: string, raw: Option<string>, width: nat)

  /** What a search asks of a state: whether the condition holds given the
      signals that just changed, what is displayed, and in what detail; and
      which signals are of event kind. */
  datatype Query = Query(holds: (State, set<nat>) -> bool,
                         shown: State -> Values,
                         details: State -> seq<Meta>,
                         isEvent: nat -> bool,
                         hasShow: bool,
                         t0: int, t1: int, limit: nat, verbose: bool)

  /** One replayed change as a search buffers it. */
  datatype Sample = Sample(tick: int, sid: nat, raw: string)

  /** Samples arrive in tick order. */
  ghost predicate InOrder(stream: seq<Sample>) {
    forall i, j :: 0 <= i < j < |stream| ==> stream[i].tick <= stream[j].tick
  }

  /** The state after a run of samples: each signal's last raw value. */
  function After(samples: seq<Sample>): (state: State) {
    if samples == [] then map[]
    else After(samples[..|samples| - 1])[samples[|samples| - 1].sid := samples[|samples| - 1].raw]
  }

  /** Applying a group on top of a state. */
  function Applied(state: State, group: seq<Sample>): State {
    if group == [] then state
    else Applied(state, group[..|group| - 1])[group[|group| - 1].sid := group[|group| - 1].raw]
  }

  lemma {:induction false} AfterGroup(samples: seq<Sample>, group: seq<Sample>)
    ensures After(samples + group) == Applied(After(samples), group)
  {
    if group == [] {
      assert samples + group == samples;
    } else {
      var n := |group| - 1;
      assert (samples + group)[..|samples| + n] == samples + group[..n];
      AfterGroup(samples, group[..n]);
    }
  }

  /** Number of samples at or before `t`, among the first `k`. */
  function CountUpTo(stream: seq<Sample>, t: int, k: nat): (n: nat)
    requires InOrder(stream) && k <= |stream|
    ensures n <= k
    ensures forall i :: 0 <= i < n ==> stream[i].tick <= t
    ensures forall i :: n <= i < k ==> t < stream[i].tick
  {
    if k == 0 then 0 else if stream[k - 1].tick <= t then k else CountUpTo(stream, t, k - 1)
  }

  lemma {:induction false} CountUpToIs(stream: seq<Sample>, t: int, k: nat, n: nat)
    requires InOrder(stream) && n <= k <= |stream|
    requires forall i :: 0 <= i < n ==> stream[i].tick <= t
    requires forall i :: n <= i < k ==> t < stream[i].tick
    ensures CountUpTo(stream, t, k) == n
  {
    if k > 0 && t < stream[k - 1].tick {
      CountUpToIs(stream, t, k - 1, n);
    }
  }

  /** The state in effect at `t`: everything up to and including `t`. */
  function StateAt(stream: seq<Sample>, t: int): State
    requires InOrder(stream)
  {
    After(stream[..CountUpTo(stream, t, |stream|)])
  }

  /** The first `n` samples are the ones up to `t`. */
  ghost predicate Boundary(stream: seq<Sample>, t: int, n: nat) {
    && n <= |stream|
    && (forall i :: 0 <= i < n ==> stream[i].tick <= t)
    && (forall i :: n <= i < |stream| ==> t < stream[i].tick)
  }

  lemma StateAtBoundary(stream: seq<Sample>, t: int, n: nat)
    requires InOrder(stream) && Boundary(stream, t, n)
    ensures StateAt(stream, t) == After(stream[..n])
  {
    CountUpToIs(stream, t, |stream|, n);
  }

  /** No sample in `(t, u]`. */
  ghost predicate Quiet(stream: seq<Sample>, t: int, u: int) {
    forall i :: 0 <= i < |stream| ==> stream[i].tick <= t || u < stream[i].tick
  }

  /** Between samples nothing changes. */
  lemma StateQuiet(stream: seq<Sample>, t: int, u: int)
    requires InOrder(stream) && t <= u && Quiet(stream, t, u)
    ensures StateAt(stream, t) == StateAt(stream, u)
  {
    var n := CountUpTo(stream, t, |stream|);
    CountUpToIs(stream, u, |stream|, n);
  }

  /** Samples `g..i` are the group at tick `t`: everything before comes
      earlier. */
  ghost predicate GroupAt(stream: seq<Sample>, g: nat, i: nat, t: int) {
    && g < i <= |stream|
    && (forall k :: 0 <= k < g ==> stream[k].tick < t)
    && (forall k :: g <= k < i ==> stream[k].tick == t)
  }

  /** A group completed by the arrival of a later tick, or by the end of the
      stream, leads from the state before `t` to the state at `t`. */
  lemma GroupState(stream: seq<Sample>, g: nat, i: nat, t: int)
    requires InOrder(stream) && GroupAt(stream, g, i, t)
    requires i == |stream| || t < stream[i].tick
    ensures StateAt(stream, t - 1) == After(stream[..g])
    ensures Applied(StateAt(stream, t - 1), stream[g..i]) == StateAt(stream, t)
  {
    GroupBegins(stream, g, i, t);
    GroupEnds(stream, g, i, t);
    AfterPrefix(stream, g, i);
  }

  lemma AfterPrefix(stream: seq<Sample>, g: nat, i: nat)
    requires g <= i <= |stream|
    ensures After(stream[..i]) == Applied(After(stream[..g]), stream[g..i])
  {
    AfterGroup(stream[..g], stream[g..i]);
    assert stream[..g] + stream[g..i] == stream[..i];
  }

  lemma GroupBegins(stream: seq<Sample>, g: nat, i: nat, t: int)
    requires InOrder(stream) && GroupAt(stream, g, i, t)
    ensures StateAt(stream, t - 1) == After(stream[..g])
  {
    if g < |stream| {
      assert forall k :: g <= k < |stream| ==> stream[g].tick <= stream[k].tick;
    }
    StateAtBoundary(stream, t - 1, g);
  }

  lemma GroupEnds(stream: seq<Sample>, g: nat, i: nat, t: int)
    requires InOrder(stream) && GroupAt(stream, g, i, t)
    requires i == |stream| || t < stream[i].tick
    ensures StateAt(stream, t) == After(stream[..i])
  {
    if i < |stream| {
      assert forall k :: i <= k < |stream| ==> stream[i].tick <= stream[k].tick;
    }
    StateAtBoundary(stream, t, i);
  }

  /** `group` holds the last samples before sample `i`: those at tick `t`. */
  ghost predicate Gathered(stream: seq<Sample>, group: seq<Sample>, t: int, i: nat) {
    && |group| <= i <= |stream| && group == stream[i - |group|..i]
    && (forall k :: 0 <= k < i - |group| ==> stream[k].tick < t)
    && (forall k :: i - |group| <= k < i ==> stream[k].tick == t)
  }

  lemma GatheredStart(stream: seq<Sample>, t: int, i: nat)
    requires i <= |stream| && forall k :: 0 <= k < i ==> stream[k].tick < t
    ensures Gathered(stream, [], t, i)
  {}

  lemma GatheredMore(stream: seq<Sample>, group: seq<Sample>, t: int, i: nat)
    requires i < |stream| && Gathered(stream, group, t, i) && stream[i].tick == t
    ensures Gathered(stream, group + [stream[i]], t, i + 1)
  {
    assert stream[i - |group|..i + 1] == group + [stream[i]];
  }

  /** A sample at another tick starts the next group, and ends this one. */
  lemma GatheredNext(stream: seq<Sample>, group: seq<Sample>, t: int, i: nat)
    requires InOrder(stream) && i < |stream|
    requires Gathered(stream, group, t, i) && group != [] && stream[i].tick != t
    ensures t < stream[i].tick && Gathered(stream, [], stream[i].tick, i)
    ensures forall k :: i <= k < |stream| ==> stream[i].tick - 1 < stream[k].tick
  {
    assert stream[i - 1].tick == t;
  }

  /** The gathered group is complete once nothing more arrives up to `u`. */
  lemma GroupReady(stream: seq<Sample>, group: seq<Sample>, i: nat, t: int, u: int)
    requires InOrder(stream) && Gathered(stream, group, t, i) && group != []
    requires t <= u && forall k :: i <= k < |stream| ==> u < stream[k].tick
    ensures GroupAt(stream, i - |group|, i, t) && Quiet(stream, t, u)
    ensures Applied(StateAt(stream, t - 1), group) == StateAt(stream, t)
  {
    GroupState(stream, i - |group|, i, t);
  }

  lemma AfterStep(stream: seq<Sample>, i: nat)
    requires i < |stream|
    ensures After(stream[..i + 1]) == After(stream[..i])[stream[i].sid := stream[i].raw]
  {
    assert stream[..i + 1][..i] == stream[..i];
  }

  /** The rows a limit lets through. */
  function Limited<T>(rows: seq<T>, limit: nat): seq<T> {
    if limit == 0 || |rows| <= limit then rows else rows[..limit]
  }
}
