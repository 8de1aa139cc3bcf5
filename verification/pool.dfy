/** `Pool` (src/Pool.php): the slot scheduler behind every query, and the
    parts of `init` that do not touch the file system or the driver. The
    static fields of the PHP class become the fields of one `Pool` object;
    a request's completion is an explicit `Settle` call. */
module Pool {
  import opened Php
  import Patterns

  const ByLoadSelector: string := "load"
  const RoundRobinSelector: string := "round-robin"

  // ---------------------------------------------------------------------
  // Reference definitions of the slot choice (shiftPointer, lines 87-100)

  /** Index of the first smallest counter: what `asort` (stable, ascending)
      followed by `key()` yields. */
  function FirstMin(c: seq<nat>): (k: nat)
    requires |c| >= 1
    ensures k < |c|
    decreases |c|
  {
    if |c| == 1 then 0
    else
      var k := FirstMin(c[..|c| - 1]);
      if c[|c| - 1] < c[k] then |c| - 1 else k
  }

  /** The minimum has the lowest index among the minima. */
  lemma {:induction false} FirstMinIsLeast(c: seq<nat>)
    requires |c| >= 1
    ensures forall j :: 0 <= j < |c| ==> c[FirstMin(c)] <= c[j]
    ensures forall j :: 0 <= j < FirstMin(c) ==> c[j] > c[FirstMin(c)]
    decreases |c|
  {
    if |c| > 1 {
      var init := c[..|c| - 1];
      FirstMinIsLeast(init);
      assert forall j :: 0 <= j < |init| ==> init[j] == c[j];
    }
  }

  /** The slot after `pointer`, wrapping around. */
  function Advance(pointer: nat, size: nat): (p: nat)
    requires size >= 1
    ensures p < size
  {
    (pointer + 1) % size
  }

  /** The slot a dispatch picks, which is also the new pointer: the advanced
      slot under round-robin or when it is idle, otherwise the first
      least-loaded slot. */
  function Choose(pointer: nat, counters: seq<nat>, byLoad: bool): (slot: nat)
    requires |counters| >= 1
    ensures slot < |counters|
  {
    var p := Advance(pointer, |counters|);
    if !byLoad || counters[p] == 0 then p else FirstMin(counters)
  }

  /** Under round-robin the pointer just moves on, whatever the load. */
  lemma RoundRobinTurns(pointer: nat, counters: seq<nat>)
    requires |counters| >= 1
    ensures Choose(pointer, counters, false) == (pointer + 1) % |counters|
  {
  }

  /** Under the load policy the chosen slot always carries the least load;
      an idle advanced slot is taken as is, otherwise ties go to the lowest
      index. */
  lemma ByLoadPicksLeastLoaded(pointer: nat, counters: seq<nat>)
    requires |counters| >= 1
    ensures var slot := Choose(pointer, counters, true);
      && (forall j :: 0 <= j < |counters| ==> counters[slot] <= counters[j])
      && (counters[Advance(pointer, |counters|)] == 0 ==> slot == Advance(pointer, |counters|))
      && (counters[Advance(pointer, |counters|)] != 0 ==>
            forall j :: 0 <= j < slot ==> counters[j] > counters[slot])
  {
    FirstMinIsLeast(counters);
  }

  /** With every counter at zero both policies take the next slot; in
      particular the first request after `init` goes to slot `1 mod size`. */
  lemma IdlePoolTakesNextSlot(pointer: nat, size: nat, byLoad: bool)
    requires size >= 1
    ensures Choose(pointer, seq(size, _ => 0), byLoad) == (pointer + 1) % size
    ensures Choose(0, seq(size, _ => 0), byLoad) == 1 % size
  {
  }

  // ---------------------------------------------------------------------
  // The pool's state

  datatype Statistic = Statistic(size: nat, counter: seq<nat>)

  class Pool {
    /** `$poolSize`: the number of connections. */
    const size: nat
    /** `$poolConnectionSelector == CS_BY_LOAD`. */
    const byLoad: bool
    /** `$poolRequestCounter`: requests in flight per connection, as counted. */
    const counters: array<nat>
    /** `$poolPointer`. */
    var pointer: nat
    /** Requests dispatched and not yet settled, by slot. */
    ghost var pending: multiset<nat>
    /** Requests settled by rejection, by slot: their increment is never undone. */
    ghost var leaked: multiset<nat>

    ghost predicate Valid()
      reads this, counters
    {
      && size >= 1
      && counters.Length == size
      && pointer < size
      && (forall s :: s in pending ==> s < size)
      && (forall s :: s in leaked ==> s < size)
      && (forall s :: 0 <= s < size ==> counters[s] == pending[s] + leaked[s])
    }

    /** `init`'s bookkeeping (lines 38-39, 44, 73-76): connection 0's counter
        first, then the loop over the other slots. A pool size below 1 is not
        modelled. */
    constructor (poolSize: nat, selector: string)
      requires poolSize >= 1
      ensures Valid()
      ensures size == poolSize && byLoad == (selector == ByLoadSelector)
      ensures pointer == 0 && pending == multiset{} && leaked == multiset{}
      ensures counters[..] == seq(poolSize, _ => 0)
      ensures Stat() == Statistic(poolSize, seq(poolSize, _ => 0))
      ensures fresh(counters)
    {
      size := poolSize;
      byLoad := selector == ByLoadSelector;
      pointer := 0;
      pending := multiset{};
      leaked := multiset{};
      var c := new nat[poolSize];
      c[0] := 0;
      for p := 1 to poolSize
        invariant forall s :: 0 <= s < p ==> c[s] == 0
      {
        c[p] := 0;
      }
      counters := c;
    }

    /** `statistic()`: one counter per connection. */
    function Stat(): (s: Statistic)
      requires Valid()
      reads this, counters
      ensures s.size == size && |s.counter| == size
      ensures forall slot :: 0 <= slot < size ==> s.counter[slot] == counters[slot]
    {
      Statistic(size, counters[..])
    }

    /** The `asort` + `key` of lines 94-96: a scan for the first least counter. */
    method FirstLeastLoaded() returns (k: nat)
      requires Valid()
      ensures k == FirstMin(counters[..])
    {
      k := 0;
      for i := 1 to counters.Length
        invariant k == FirstMin(counters[..i])
      {
        assert counters[..i + 1][..i] == counters[..i];
        if counters[i] < counters[k] {
          k := i;
        }
      }
      assert counters[..counters.Length] == counters[..];
    }

    /** `shiftPointer()`: moves the pointer and returns the chosen slot. */
    method ShiftPointer() returns (slot: nat)
      requires Valid()
      modifies this
      ensures Valid()
      ensures slot == Choose(old(pointer), counters[..], byLoad)
      ensures pointer == slot
      ensures pending == old(pending) && leaked == old(leaked)
    {
      pointer := (pointer + 1) % size;
      if byLoad {
        if counters[pointer] == 0 {
          return pointer;
        }
        pointer := FirstLeastLoaded();
      }
      slot := pointer;
    }

    /** `pooledCallbackPromise` up to handing the request to the connection
        (lines 104-106): choose a slot and count the request on it. */
    method Dispatch() returns (slot: nat)
      requires Valid()
      modifies this, counters
      ensures Valid()
      ensures slot == Choose(old(pointer), old(counters[..]), byLoad) && pointer == slot
      ensures counters[..] == old(counters[..])[slot := old(counters[slot]) + 1]
      ensures pending == old(pending) + multiset{slot} && leaked == old(leaked)
    {
      slot := ShiftPointer();
      counters[slot] := counters[slot] + 1;
      pending := pending + multiset{slot};
    }

    /** The settlement of a dispatched request (lines 107-110): the counter
        is decremented only when the promise fulfils; a rejection skips the
        `then` callback and leaves it raised. */
    method Settle(slot: nat, ok: bool)
      requires Valid() && slot in pending
      modifies this, counters
      ensures Valid()
      ensures pointer == old(pointer)
      ensures ok ==> counters[..] == old(counters[..])[slot := old(counters[slot]) - 1]
      ensures !ok ==> counters[..] == old(counters[..])
      ensures pending == old(pending) - multiset{slot}
      ensures leaked == if ok then old(leaked) else old(leaked) + multiset{slot}
    {
      assert counters[slot] == pending[slot] + leaked[slot] && pending[slot] >= 1;
      pending := pending - multiset{slot};
      if ok {
        counters[slot] := counters[slot] - 1;
      } else {
        leaked := leaked + multiset{slot};
      }
      assert forall s :: 0 <= s < size ==> counters[s] == pending[s] + leaked[s] by {
        forall s | 0 <= s < size
          ensures counters[s] == pending[s] + leaked[s]
        {
          if s != slot {
            assert counters[s] == old(counters[s]);
          }
        }
      }
    }
  }

  // ---------------------------------------------------------------------
  // Schema bootstrap (lines 41, 46-62)

  /** PHP truthiness of the optional schema file name. */
  predicate Truthy(name: Option<string>) {
    name.Some? && !Falsy(Str(name.value))
  }

  /** Line 46: the schema is applied only to a database file that did not
      exist before connection 0 opened it, and only from a schema file that
      was named and exists. */
  function ShouldBootstrap(dbFileExisted: bool, schemaFile: Option<string>, schemaFileExists: bool): (b: bool)
    ensures b ==> !dbFileExisted && schemaFileExists
    ensures b ==> schemaFile.Some? && schemaFile.value != "" && schemaFile.value != "0"
    ensures (!dbFileExisted && schemaFileExists && schemaFile.Some?
             && schemaFile.value != "" && schemaFile.value != "0") ==> b
  {
    !dbFileExisted && Truthy(schemaFile) && schemaFileExists
  }

  const Engine: string := " ENGINE="

  /** The engine pattern matches at index `k`: ` ENGINE=` and a word character. */
  predicate EngineAt(s: string, k: nat) {
    k + |Engine| < |s| && s[k..k + |Engine|] == Engine && Patterns.IsWord(s[k + |Engine|])
  }

  /** `preg_replace("/ ENGINE=\w+/", "", s)`: every ` ENGINE=` followed by a
      run of word characters is removed, scanning left to right. */
  function StripEngine(s: string): (r: string)
    ensures |r| <= |s|
    decreases |s|
  {
    if EngineAt(s, 0) then
      StripEngine(SkipWord(s[|Engine|..]))
    else if s == [] then []
    else [s[0]] + StripEngine(s[1..])
  }

  /** Drops the leading run of word characters (`\w+` is greedy). */
  function SkipWord(s: string): (r: string)
    ensures |r| <= |s|
    ensures r == [] || !Patterns.IsWord(r[0])
    decreases |s|
  {
    if s != [] && Patterns.IsWord(s[0]) then SkipWord(s[1..]) else s
  }

  /** The comment pattern matches at index `k`: `--` with a line break somewhere after it. */
  predicate CommentAt(s: string, k: nat) {
    k + 2 <= |s| && s[k..k + 2] == "--" && '\n' in s[k + 2..]
  }

  /** `preg_replace("/--.*\n/", "", s)`: a `--` comment is removed together
      with the line break that ends it; a `--` with no line break after it
      stays. */
  function StripComments(s: string): (r: string)
    ensures |r| <= |s|
    decreases |s|
  {
    if CommentAt(s, 0) then
      StripComments(AfterNewline(s[2..]))
    else if s == [] then []
    else [s[0]] + StripComments(s[1..])
  }

  /** The text after the first line break. */
  function AfterNewline(s: string): (r: string)
    requires '\n' in s
    ensures |r| < |s|
    decreases |s|
  {
    if s[0] == '\n' then s[1..] else AfterNewline(s[1..])
  }

  /** `preg_replace("/\n/", "", s)`, and in general every occurrence of `c` removed. */
  function Without(s: string, c: char): (r: string)
    ensures c !in r
    ensures |r| <= |s|
    decreases |s|
  {
    if s == [] then []
    else (if s[0] == c then [] else [s[0]]) + Without(s[1..], c)
  }

  /** `array_filter` with `strlen`: only the empty fragments go. */
  function NonEmpty(parts: seq<string>): (r: seq<string>)
    ensures forall p :: p in r ==> p in parts && p != ""
    ensures forall p :: p in parts && p != "" ==> p in r
    decreases |parts|
  {
    if parts == [] then []
    else (if parts[0] == "" then [] else [parts[0]]) + NonEmpty(parts[1..])
  }

  /** The three replacements, in order, then the `;` split. */
  function SchemaStatements(text: string): (stmts: seq<string>)
    ensures forall st :: st in stmts ==> st != "" && ';' !in st && '\n' !in st
  {
    var clean := Without(StripComments(StripEngine(text)), '\n');
    var pieces := Split(clean, ';');
    NoNewlineInPieces(clean, ';', '\n');
    NonEmpty(pieces)
  }

  /** The pieces of a split keep only characters of the split text. */
  lemma {:induction false} NoNewlineInPieces(s: string, sep: char, c: char)
    requires c !in s
    ensures forall p :: p in Split(s, sep) ==> c !in p
    decreases |s|
  {
    if s != [] {
      NoNewlineInPieces(s[1..], sep, c);
      var rest := Split(s[1..], sep);
      if s[0] != sep {
        assert rest[0] in rest;
      }
    }
  }

  /** The flattening of a list of strings. */
  function Concat(parts: seq<string>): string
    decreases |parts|
  {
    if parts == [] then "" else parts[0] + Concat(parts[1..])
  }

  /** Splitting loses nothing but the separators. */
  lemma {:induction false} ConcatSplit(s: string, c: char)
    ensures Concat(Split(s, c)) == Without(s, c)
    decreases |s|
  {
    if s != [] {
      ConcatSplit(s[1..], c);
      var rest := Split(s[1..], c);
      if s[0] == c {
        assert Concat([""] + rest) == Concat(rest) by {
          assert ([""] + rest)[1..] == rest;
        }
      } else {
        var r := [[s[0]] + rest[0]] + rest[1..];
        assert r[1..] == rest[1..];
        assert Concat(rest) == rest[0] + Concat(rest[1..]);
        assert Concat(r) == [s[0]] + rest[0] + Concat(rest[1..]);
      }
    }
  }

  /** Dropping empty fragments loses nothing. */
  lemma {:induction false} ConcatNonEmpty(parts: seq<string>)
    ensures Concat(NonEmpty(parts)) == Concat(parts)
    decreases |parts|
  {
    if parts != [] {
      ConcatNonEmpty(parts[1..]);
      ConcatAppend(if parts[0] == "" then [] else [parts[0]], NonEmpty(parts[1..]));
    }
  }

  lemma {:induction false} ConcatAppend(a: seq<string>, b: seq<string>)
    ensures Concat(a + b) == Concat(a) + Concat(b)
    decreases |a|
  {
    if a == [] {
      assert a + b == b;
    } else {
      assert (a + b)[1..] == a[1..] + b;
      ConcatAppend(a[1..], b);
    }
  }

  /** The statements, run together, are the cleaned schema text with its
      `;` terminators removed: the split neither drops nor reorders text. */
  lemma SchemaStatementsCover(text: string)
    ensures Concat(SchemaStatements(text))
            == Without(Without(StripComments(StripEngine(text)), '\n'), ';')
  {
    var clean := Without(StripComments(StripEngine(text)), '\n');
    ConcatSplit(clean, ';');
    ConcatNonEmpty(Split(clean, ';'));
  }

  /** Text in which the engine pattern matches nowhere passes the engine
      replacement unchanged. */
  lemma {:induction false} NoEngineUntouched(s: string)
    requires forall k: nat :: k < |s| ==> !EngineAt(s, k)
    ensures StripEngine(s) == s
    decreases |s|
  {
    if s != [] {
      assert !EngineAt(s, 0);
      forall k: nat | k < |s[1..]|
        ensures !EngineAt(s[1..], k)
      {
        assert !EngineAt(s, k + 1);
        if k + |Engine| < |s[1..]| {
          assert s[1..][k..k + |Engine|] == s[k + 1..k + 1 + |Engine|];
        }
      }
      NoEngineUntouched(s[1..]);
      assert [s[0]] + s[1..] == s;
    }
  }

  /** Text in which no `--` has a line break after it passes the comment
      replacement unchanged. */
  lemma {:induction false} NoCommentUntouched(s: string)
    requires forall k: nat :: k < |s| ==> !CommentAt(s, k)
    ensures StripComments(s) == s
    decreases |s|
  {
    if s != [] {
      assert !CommentAt(s, 0);
      forall k: nat | k < |s[1..]|
        ensures !CommentAt(s[1..], k)
      {
        assert !CommentAt(s, k + 1);
        if k + 2 <= |s[1..]| {
          assert s[1..][k..k + 2] == s[k + 1..k + 3];
          assert s[1..][k + 2..] == s[k + 3..];
        }
      }
      NoCommentUntouched(s[1..]);
      assert [s[0]] + s[1..] == s;
    }
  }

  /** The load policy on counters `[2, 1, 1]` with the pointer at 2: the
      advanced slot 0 is busy, and the first least-loaded slot is 1. */
  lemma TieGoesToLowestSlot()
    ensures Choose(2, [2, 1, 1], true) == 1
  {
    assert FirstMin([2, 1, 1][..2]) == 1;
  }
}
