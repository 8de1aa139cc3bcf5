/** `Connection` (src/Connection.php): the startup PRAGMA merge of the
    constructor and the `onError` routing of `exec`/`query`. The driver is
    not modelled: the statements the constructor hands to it are recorded in
    order, and a settled driver call is an input. */
module Connection {
  import opened Php
  import Pool

  /** `PRAGMAdefault` (lines 24-31), in declaration order. */
  const Defaults: seq<(string, string)> := [
    ("journal_mode", "WAL"),
    ("journal_size_limit", "1000"),
    ("synchronous", "NORMAL"),
    ("busy_timeout", "60000"),
    ("temp_store", "memory"),
    ("mmap_size", "30000000000")
  ]

  /** A pragma list: names with interpolated values; `None` is PHP's null. */
  type Pragmas = seq<(string, Option<string>)>

  /** PHP array keys are unique. */
  predicate DistinctNames(m: Pragmas) {
    forall a, b :: 0 <= a < b < |m| ==> m[a].0 != m[b].0
  }

  predicate HasName(m: Pragmas, name: string) {
    exists j :: 0 <= j < |m| && m[j].0 == name
  }

  /** `name` is among the first `i` defaults. */
  predicate DefaultBefore(name: string, i: nat) {
    exists j :: 0 <= j < i && j < |Defaults| && Defaults[j].0 == name
  }

  lemma DefaultsDistinct()
    ensures forall a, b :: 0 <= a < b < |Defaults| ==> Defaults[a].0 != Defaults[b].0
  {
  }

  /** The default for `name`, if it has one. */
  function DefaultOf(name: string): (r: Option<string>)
    ensures r.Some? <==> DefaultBefore(name, |Defaults|)
    ensures forall j :: 0 <= j < |Defaults| && Defaults[j].0 == name ==> r == Some(Defaults[j].1)
  {
    DefaultsDistinct();
    if name == Defaults[0].0 then Some(Defaults[0].1)
    else if name == Defaults[1].0 then Some(Defaults[1].1)
    else if name == Defaults[2].0 then Some(Defaults[2].1)
    else if name == Defaults[3].0 then Some(Defaults[3].1)
    else if name == Defaults[4].0 then Some(Defaults[4].1)
    else if name == Defaults[5].0 then Some(Defaults[5].1)
    else None
  }

  /** A caller entry once the first `i` defaults have been merged: a null
      value under one of those names is replaced by its default. */
  function Filled(e: (string, Option<string>), i: nat): (string, Option<string>) {
    if e.1.None? && DefaultBefore(e.0, i) then (e.0, DefaultOf(e.0)) else e
  }

  function FilledUpTo(caller: Pragmas, i: nat): (r: Pragmas)
    ensures |r| == |caller|
  {
    seq(|caller|, j requires 0 <= j < |caller| => Filled(caller[j], i))
  }

  /** The first `i` defaults the caller did not name, in default order. */
  function MissingUpTo(caller: Pragmas, i: nat): (r: Pragmas)
    requires i <= |Defaults|
    ensures forall j :: 0 <= j < |r| ==> DefaultBefore(r[j].0, i) && !HasName(caller, r[j].0)
    decreases i
  {
    if i == 0 then []
    else
      var (name, value) := Defaults[i - 1];
      MissingUpTo(caller, i - 1) + (if HasName(caller, name) then [] else [(name, Some(value))])
  }

  /** The merged pragma list: the caller's entries in the caller's order,
      nulls under default names replaced, then every default the caller did
      not name, in default order. */
  function Merged(caller: Pragmas): Pragmas {
    FilledUpTo(caller, |Defaults|) + MissingUpTo(caller, |Defaults|)
  }

  /** First index holding `name`, or `|m|`. */
  function Find(m: Pragmas, name: string): (k: nat)
    ensures k <= |m|
    ensures k < |m| ==> m[k].0 == name
    ensures forall j :: 0 <= j < k ==> m[j].0 != name
    decreases |m|
  {
    if m == [] then 0
    else if m[0].0 == name then 0
    else 1 + Find(m[1..], name)
  }

  /** One `$pragma[$key] ??= $value`: a missing key is appended, a null
      value is overwritten in place, any other value stays. */
  function Coalesce(m: Pragmas, name: string, value: string): (r: Pragmas)
  {
    var k := Find(m, name);
    if k == |m| then m + [(name, Some(value))]
    else if m[k].1.None? then m[k := (name, Some(value))]
    else m
  }

  /** No default repeats an earlier name. */
  lemma DefaultFresh(i: nat)
    requires i < |Defaults|
    ensures !DefaultBefore(Defaults[i].0, i)
  {
    DefaultsDistinct();
  }

  lemma DefaultBeforeStep(name: string, i: nat)
    requires i < |Defaults|
    ensures DefaultBefore(name, i + 1) <==> DefaultBefore(name, i) || Defaults[i].0 == name
  {
    if DefaultBefore(name, i + 1) && !DefaultBefore(name, i) {
      var j :| 0 <= j < i + 1 && j < |Defaults| && Defaults[j].0 == name;
      assert j == i;
    }
  }

  /** Entries under other names are not touched by merging default `i`. */
  lemma FilledOthers(caller: Pragmas, i: nat, j: nat)
    requires i < |Defaults| && j < |caller| && caller[j].0 != Defaults[i].0
    ensures Filled(caller[j], i + 1) == Filled(caller[j], i)
  {
    DefaultBeforeStep(caller[j].0, i);
  }

  /** The caller entry under the name of default `i` gets that default
      when it is null. */
  lemma FilledNamed(e: (string, Option<string>), i: nat)
    requires i < |Defaults| && e.0 == Defaults[i].0
    ensures Filled(e, i + 1) == if e.1.None? then (e.0, Some(Defaults[i].1)) else e
  {
    DefaultBeforeStep(e.0, i);
  }

  lemma UpdateInPlace(f: Pragmas, g: Pragmas, missing: Pragmas, k: nat)
    requires |f| == |g| && k < |f|
    requires forall j :: 0 <= j < |f| && j != k ==> g[j] == f[j]
    ensures (f + missing)[k := g[k]] == g + missing
  {
  }

  /** Merging default `i` when the caller named it: the entry in place gets
      the default if it is null. */
  lemma MergeStepNamed(caller: Pragmas, i: nat, k: nat)
    requires DistinctNames(caller) && i < |Defaults|
    requires k < |caller| && caller[k].0 == Defaults[i].0
    ensures Coalesce(FilledUpTo(caller, i) + MissingUpTo(caller, i), Defaults[i].0, Defaults[i].1)
            == FilledUpTo(caller, i + 1) + MissingUpTo(caller, i + 1)
  {
    var name := Defaults[i].0;
    var value := Defaults[i].1;
    var filled := FilledUpTo(caller, i);
    var next := FilledUpTo(caller, i + 1);
    var missing := MissingUpTo(caller, i);
    var m := filled + missing;
    assert filled[k] == caller[k] by {
      DefaultFresh(i);
    }
    assert Find(m, name) == k by {
      assert m[k].0 == name;
    }
    assert MissingUpTo(caller, i + 1) == missing by {
      assert HasName(caller, name);
    }
    assert forall j :: 0 <= j < |caller| && j != k ==> next[j] == filled[j] by {
      forall j | 0 <= j < |caller| && j != k
        ensures next[j] == filled[j]
      {
        FilledOthers(caller, i, j);
      }
    }
    assert next[k] == if caller[k].1.None? then (name, Some(value)) else caller[k] by {
      FilledNamed(caller[k], i);
    }
    if caller[k].1.None? {
      assert Coalesce(m, name, value) == m[k := (name, Some(value))];
      UpdateInPlace(filled, next, missing, k);
    } else {
      assert Coalesce(m, name, value) == m;
      assert next == filled;
    }
  }

  /** Merging default `i` when the caller did not name it: it is appended. */
  lemma MergeStepNew(caller: Pragmas, i: nat)
    requires i < |Defaults| && !HasName(caller, Defaults[i].0)
    ensures Coalesce(FilledUpTo(caller, i) + MissingUpTo(caller, i), Defaults[i].0, Defaults[i].1)
            == FilledUpTo(caller, i + 1) + MissingUpTo(caller, i + 1)
  {
    var name := Defaults[i].0;
    var filled := FilledUpTo(caller, i);
    var missing := MissingUpTo(caller, i);
    var m := filled + missing;
    DefaultFresh(i);
    assert Find(m, name) == |m|;
    forall j | 0 <= j < |caller|
      ensures FilledUpTo(caller, i + 1)[j] == filled[j]
    {
      FilledOthers(caller, i, j);
    }
    assert FilledUpTo(caller, i + 1) == filled;
  }

  /** Lines 47-50: the `foreach` over the defaults with `??=`. */
  method MergePragma(caller: Pragmas) returns (pragma: Pragmas)
    requires DistinctNames(caller)
    ensures pragma == Merged(caller)
  {
    pragma := caller;
    assert FilledUpTo(caller, 0) == caller;
    for i := 0 to |Defaults|
      invariant pragma == FilledUpTo(caller, i) + MissingUpTo(caller, i)
    {
      if HasName(caller, Defaults[i].0) {
        var k :| 0 <= k < |caller| && caller[k].0 == Defaults[i].0;
        MergeStepNamed(caller, i, k);
      } else {
        MergeStepNew(caller, i);
      }
      var (key, value) := Defaults[i];
      var k := Find(pragma, key);
      if k == |pragma| {
        pragma := pragma + [(key, Some(value))];
      } else if pragma[k].1.None? {
        pragma := pragma[k := (key, Some(value))];
      }
    }
  }

  /** `"PRAGMA {$name} = {$value};"`; null interpolates as the empty string. */
  function Statement(e: (string, Option<string>)): string {
    "PRAGMA " + e.0 + " = " + (if e.1.Some? then e.1.value else "") + ";"
  }

  /** One connection: its `onError` handler and what the constructor issued.
      `R` is what a driver call yields, `E` what it fails with. */
  class Connection<R, E> {
    /** `$onError`, when it is callable. */
    const onError: Option<(E, string) -> R>
    /** The statements handed to the driver's `exec`, in order. */
    var issued: seq<string>

    /** Lines 33-55 without the driver: merge, then one `exec` per entry. */
    constructor (caller: Pragmas, onError: Option<(E, string) -> R>)
      requires DistinctNames(caller)
      ensures this.onError == onError
      ensures |issued| == |Merged(caller)|
      ensures forall j :: 0 <= j < |issued| ==> issued[j] == Statement(Merged(caller)[j])
    {
      this.onError := onError;
      var pragma := MergePragma(caller);
      var log: seq<string> := [];
      for j := 0 to |pragma|
        invariant |log| == j
        invariant forall t :: 0 <= t < j ==> log[t] == Statement(pragma[t])
      {
        log := log + [Statement(pragma[j])];
      }
      issued := log;
    }
  }

  // ---------------------------------------------------------------------
  // Properties of the merge

  /** Every default name is in the merged list. */
  lemma AllDefaultsPresent(caller: Pragmas, j: nat)
    requires j < |Defaults|
    ensures HasName(Merged(caller), Defaults[j].0)
  {
    var name := Defaults[j].0;
    var m := Merged(caller);
    if HasName(caller, name) {
      var k :| 0 <= k < |caller| && caller[k].0 == name;
      assert m[k].0 == name;
    } else {
      MissingContains(caller, j, |Defaults|);
      var missing := MissingUpTo(caller, |Defaults|);
      var t :| 0 <= t < |missing| && missing[t] == (name, Some(Defaults[j].1));
      assert m[|caller| + t].0 == name;
    }
  }

  lemma {:induction false} MissingContains(caller: Pragmas, j: nat, i: nat)
    requires j < i <= |Defaults| && !HasName(caller, Defaults[j].0)
    ensures (Defaults[j].0, Some(Defaults[j].1)) in MissingUpTo(caller, i)
    decreases i
  {
    if j < i - 1 {
      MissingContains(caller, j, i - 1);
    }
  }

  /** A caller entry keeps its place; its value survives unless it is a
      null under a default name, which takes the default. Names without a
      default are kept as given. */
  lemma CallerEntries(caller: Pragmas, j: nat)
    requires j < |caller|
    ensures Merged(caller)[j].0 == caller[j].0
    ensures caller[j].1.Some? ==> Merged(caller)[j].1 == caller[j].1
    ensures DefaultOf(caller[j].0).None? ==> Merged(caller)[j] == caller[j]
    ensures caller[j].1.None? && DefaultOf(caller[j].0).Some? ==> Merged(caller)[j].1 == DefaultOf(caller[j].0)
  {
  }

  lemma {:induction false} MissingOfEmpty(i: nat)
    requires i <= |Defaults|
    ensures MissingUpTo([], i) == seq(i, j requires 0 <= j < i => (Defaults[j].0, Some(Defaults[j].1)))
    decreases i
  {
    if i > 0 {
      MissingOfEmpty(i - 1);
    }
  }

  /** With no caller pragmas, the list is exactly the defaults. */
  lemma EmptyGivesDefaults()
    ensures Merged([]) == seq(|Defaults|, j requires 0 <= j < |Defaults| => (Defaults[j].0, Some(Defaults[j].1)))
  {
    MissingOfEmpty(|Defaults|);
    assert FilledUpTo([], |Defaults|) == [];
  }

  /** Every statement is `PRAGMA <name> = <value>;` for its entry. */
  lemma StatementShape(e: (string, Option<string>))
    ensures var s := Statement(e);
      && s[..7] == "PRAGMA " && s[7..7 + |e.0|] == e.0
      && s[|s| - 1] == ';'
  {
  }

  // ---------------------------------------------------------------------
  // onError routing (lines 62-88)

  /** How a driver call settled. */
  datatype Settled<R, E> = Fulfilled(value: R) | Rejected(reason: E)

  /** The rejection handler of `exec` and `query`: a callable `onError`
      turns the failure into its own return value, otherwise the error is
      rethrown. A fulfilled call passes through. */
  function Route<R, E>(outcome: Settled<R, E>, sql: string, onError: Option<(E, string) -> R>): (r: Settled<R, E>)
    ensures outcome.Fulfilled? ==> r == outcome
    ensures outcome.Rejected? && onError.Some? ==> r == Fulfilled(onError.value(outcome.reason, sql))
    ensures outcome.Rejected? && onError.None? ==> r == outcome
  {
    match outcome
    case Fulfilled(v) => Fulfilled(v)
    case Rejected(th) =>
      match onError
      case Some(handler) => Fulfilled(handler(th, sql))
      case None => Rejected(th)
  }

  /** The pool attaches its decrement to the promise the connection routed
      through its own `onError` (line 66 reads `$this->onError`): a request's
      counter comes down exactly when the call succeeded or the handler
      absorbed the failure. */
  method Complete<R, E>(pool: Pool.Pool, conn: Connection<R, E>, slot: nat, outcome: Settled<R, E>,
                        sql: string)
    returns (routed: Settled<R, E>)
    requires pool.Valid() && slot in pool.pending
    modifies pool, pool.counters
    ensures pool.Valid()
    ensures routed == Route(outcome, sql, conn.onError)
    ensures (outcome.Fulfilled? || conn.onError.Some?)
            ==> pool.counters[..] == old(pool.counters[..])[slot := old(pool.counters[slot]) - 1]
    ensures !(outcome.Fulfilled? || conn.onError.Some?) ==> pool.counters[..] == old(pool.counters[..])
  {
    routed := Route(outcome, sql, conn.onError);
    pool.Settle(slot, routed.Fulfilled?);
  }
}
