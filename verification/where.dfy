/** `Command::genWhere` (src/Command.php:194-245): a nested filter array
    becomes a WHERE fragment. The functions `Where`, `Level` and `Items`
    are the reference definition, one clause of the source at a time; the
    method `GenWhere` is the source's loop-and-recursion form, proved equal
    to them. */
module WhereClause {
  import opened Php
  import opened Tools
  import opened Patterns

  /** The reserved grouping keys. */
  predicate IsConnective(k: Key) {
    k == StrKey("AND") || k == StrKey("OR")
  }

  function Prefix(noPrefix: bool): string {
    if noPrefix then "" else "\n WHERE"
  }

  /** `$assembleEntry($key, $value)`: ` `name` op literal`. A key the pattern
      rejects makes the closure return null, which concatenates as "". */
  function Entry(k: Key, v: Value): Result<string>
    requires k.StrKey?
  {
    match ParseKey(k.s)
    case None => Ok("")
    case Some((name, op)) => Prepend(" `" + name + "` " + op + " ", Quote(v))
  }

  /** genWhere($w, $noPrefix). */
  function Where(w: Value, noPrefix: bool): Result<string>
    decreases w, 2
  {
    if !w.Arr? then Ok("")
    else
      var es := StringKeyed(w.entries);
      if es == [] then Ok("")
      else if IsConnective(es[0].0) then
        // `$where[$condition]`: the value of the first key; under PHP 7.4
        // `array_filter` on a non-array warns and yields null, which line 217
        // turns into the empty fragment
        var inner := es[0].1;
        if !inner.Arr? then Ok("")
        else
          assert es[0] in w.entries;
          Level(es[0].0.s, inner, noPrefix)
      else Level("AND", w, noPrefix)
  }

  /** One level after connective resolution: the string-keyed entries of `src`
      joined by `conn`. */
  function Level(conn: string, src: Value, noPrefix: bool): Result<string>
    requires src.Arr?
    decreases src, 1
  {
    var es := StringKeyed(src.entries);
    if es == [] then Ok("")
    else if |es| == 1 then Prepend(Prefix(noPrefix), Entry(es[0].0, es[0].1))
    else Enclose(Prefix(noPrefix) + "\n  (", Items(conn, src, es, 0, true))
  }

  /** Appends the closing ` )` to the opened group `start` + body. */
  function Enclose(start: string, body: Result<string>): Result<string> {
    match body
    case Ok(b) => Ok(start + b + " )")
    case Err(e) => Err(e)
  }

  /** The text the `foreach` appends for entries `i..` of a multi-entry level;
      `first` is the loop's `$first` flag on reaching entry `i`. The
      connective goes before every entry but the first rendered one, even
      before an entry that is then skipped. */
  function Items(conn: string, src: Value, es: seq<(Key, Value)>, i: nat, first: bool): Result<string>
    requires src.Arr? && es == StringKeyed(src.entries) && i <= |es|
    decreases src, 0, |es| - i
  {
    if i == |es| then Ok("")
    else
      assert es[i] in src.entries;
      var sep := if first then "" else " " + conn;
      match Piece(es[i].0, es[i].1)
      case (Err(e), _) => Err(e)
      case (Ok(x), rendered) => Prepend(sep + x, Items(conn, src, es, i + 1, first && !rendered))
  }

  /** What one entry of a multi-entry level contributes, and whether it counts
      as rendered (clears `$first`): a nested AND/OR group recurses, any other
      array, an object or a bool is skipped, anything else is a comparison. */
  function Piece(k: Key, v: Value): (Result<string>, bool)
    requires k.StrKey?
    decreases v, 2
  {
    if v.Arr? then
      if IsConnective(k) then (Level(k.s, v, true), true) else (Ok(""), false)
    else if v.Obj? || v.Bool? then (Ok(""), false)
    else (Entry(k, v), true)
  }

  lemma PrependPrepend(a: string, b: string, r: Result<string>)
    ensures Prepend(a, Prepend(b, r)) == Prepend(a + b, r)
  {
    if r.Ok? {
      assert a + (b + r.value) == (a + b) + r.value;
    }
  }

  /** One turn of the `foreach`, stated on the reference definition. */
  lemma ItemsStep(conn: string, src: Value, es: seq<(Key, Value)>, i: nat, first: bool)
    requires src.Arr? && es == StringKeyed(src.entries) && i < |es|
    ensures es[i].0.StrKey?
    ensures var (piece, rendered) := Piece(es[i].0, es[i].1);
      && (piece.Err? ==> Items(conn, src, es, i, first) == piece)
      && (piece.Ok? ==> Items(conn, src, es, i, first)
                        == Prepend((if first then "" else " " + conn) + piece.value,
                                   Items(conn, src, es, i + 1, first && !rendered)))
  {
  }

  /** One turn of `AppendItems` on the accumulated text `ret0`: an error
      becomes the level's result, otherwise the connective (when `first` is
      clear) and the piece are appended. */
  lemma ItemsAdvance(conn: string, src: Value, es: seq<(Key, Value)>, i: nat, first: bool,
                     ret0: string, piece: Result<string>, rendered: bool)
    requires src.Arr? && es == StringKeyed(src.entries) && i < |es| && es[i].0.StrKey?
    requires (piece, rendered) == Piece(es[i].0, es[i].1)
    ensures var ret := if first then ret0 else ret0 + (" " + conn);
      && (piece.Err? ==> Prepend(ret0, Items(conn, src, es, i, first)) == piece)
      && (piece.Ok? ==> Prepend(ret0, Items(conn, src, es, i, first))
                        == Prepend(ret + piece.value, Items(conn, src, es, i + 1, first && !rendered)))
  {
    ItemsStep(conn, src, es, i, first);
    if piece.Ok? {
      var sep := if first then "" else " " + conn;
      var ret := if first then ret0 else ret0 + (" " + conn);
      var rest := Items(conn, src, es, i + 1, first && !rendered);
      assert Items(conn, src, es, i, first) == Prepend(sep + piece.value, rest);
      PrependPrepend(ret0, sep + piece.value, rest);
      assert ret0 + (sep + piece.value) == ret + piece.value by {
        if first {
          assert sep + piece.value == piece.value;
        }
      }
    }
  }

  lemma DepthOfSingleton(k: Key, v: Value)
    ensures Depth(Arr([(k, v)])) == 1 + Depth(v)
  {
    var a := Arr([(k, v)]);
    assert EntriesDepth(a, 1) == 0;
  }

  /** `genWhere([$key => $value], true)` for a grouping key and an array value
      renders the value's entries as one nested level. */
  lemma WhereOfGroup(k: Key, v: Value)
    requires IsConnective(k) && v.Arr?
    ensures Where(Arr([(k, v)]), true) == Level(k.s, v, true)
  {
    assert StringKeyed([(k, v)]) == [(k, v)];
  }

  /** genWhere as the source writes it: resolve the connective, then either
      render the single entry or run the `foreach` of `AppendItems`. */
  method GenWhere(w: Value, noPrefix: bool) returns (r: Result<string>)
    ensures r == Where(w, noPrefix)
    decreases Depth(w), if w.Arr? then |w.entries| else 0, 1
  {
    if !w.Arr? {
      return Ok("");
    }
    var es := StringKeyed(w.entries);
    if es == [] {
      return Ok("");
    }
    var conn := "AND";
    var src := w;
    if IsConnective(es[0].0) {
      conn := es[0].0.s;
      src := es[0].1;
      if !src.Arr? {
        return Ok("");
      }
      EntryShallower(w, es[0]);
      es := StringKeyed(src.entries);
    }
    if es == [] {
      return Ok("");
    }
    var ret := Prefix(noPrefix);
    if |es| == 1 {
      return Prepend(ret, Entry(es[0].0, es[0].1));
    }
    r := AppendItems(conn, src, ret + "\n  (");
  }

  /** Lines 226-244: the `foreach` over a level of two or more entries,
      appending to `$return` (here `ret`) and toggling `$first`. */
  method AppendItems(conn: string, src: Value, start: string) returns (r: Result<string>)
    requires src.Arr? && |StringKeyed(src.entries)| >= 2
    ensures r == Enclose(start, Items(conn, src, StringKeyed(src.entries), 0, true))
    decreases Depth(src), |src.entries|, 0
  {
    var es := StringKeyed(src.entries);
    var ret := start;
    var first := true;
    var i := 0;
    while i < |es|
      invariant 0 <= i <= |es|
      invariant Prepend(ret, Items(conn, src, es, i, first)) == Prepend(start, Items(conn, src, es, 0, true))
    {
      ghost var ret0 := ret;
      ghost var wasFirst := first;
      if !first {
        ret := ret + (" " + conn);
      }
      assert es[i] in src.entries;
      EntryShallower(src, es[i]);
      var piece, rendered := AppendEntry(es[i].0, es[i].1);
      ItemsAdvance(conn, src, es, i, first, ret0, piece, rendered);
      if piece.Err? {
        assert Prepend(start, Items(conn, src, es, 0, true)) == piece;
        return piece;
      }
      ret := ret + piece.value;
      if rendered {
        first := false;
      }
      assert first == (wasFirst && !rendered);
      i := i + 1;
    }
    assert Prepend(start, Items(conn, src, es, 0, true)) == Ok(ret) by {
      assert Items(conn, src, es, i, first) == Ok("");
      assert ret + "" == ret;
    }
    r := Ok(ret + " )");
  }

  /** The body of one turn of the `foreach` (lines 230-241): recurse with
      `genWhere([$key => $value], true)`, skip, or call `$assembleEntry`. */
  method AppendEntry(k: Key, v: Value) returns (piece: Result<string>, rendered: bool)
    requires k.StrKey?
    ensures (piece, rendered) == Piece(k, v)
    decreases 1 + Depth(v), 1, 2
  {
    if v.Arr? {
      if IsConnective(k) {
        DepthOfSingleton(k, v);
        piece := GenWhere(Arr([(k, v)]), true);
        WhereOfGroup(k, v);
        return piece, true;
      }
      return Ok(""), false;
    }
    if v.Obj? || v.Bool? {
      return Ok(""), false;
    }
    return Entry(k, v), true;
  }

  // ---------------------------------------------------------------------
  // Properties of the rendering

  /** No array, no string key, or nothing left after AND/OR resolution
      (including a non-array under the AND/OR key, which `array_filter`
      turns into null): the fragment is empty, even when a prefix was asked
      for. */
  lemma EmptyFilter(w: Value, noPrefix: bool)
    requires || !w.Arr?
             || StringKeyed(w.entries) == []
             || (var es := StringKeyed(w.entries);
                 IsConnective(es[0].0) && (!es[0].1.Arr? || StringKeyed(es[0].1.entries) == []))
    ensures Where(w, noPrefix) == Ok("")
  {
  }

  /** A leading AND/OR key (after any integer keys) picks the connective, its
      value becomes the level, and every sibling key is discarded; a
      non-array value leaves nothing to render. */
  lemma {:induction false} LeadingConnective(pre: seq<(Key, Value)>, k: Key, v: Value,
                                             rest: seq<(Key, Value)>, noPrefix: bool)
    requires forall j :: 0 <= j < |pre| ==> pre[j].0.IntKey?
    requires IsConnective(k)
    ensures Where(Arr(pre + [(k, v)] + rest), noPrefix)
            == if v.Arr? then Level(k.s, v, noPrefix) else Ok("")
  {
    StringKeyedConcat(pre, [(k, v)] + rest);
    StringKeyedConcat([(k, v)], rest);
    StringKeyedOfIntKeys(pre);
    assert pre + [(k, v)] + rest == pre + ([(k, v)] + rest);
  }

  /** A filter with one string key that is not AND/OR is that entry, prefixed. */
  lemma SingleEntry(k: Key, v: Value, noPrefix: bool)
    requires k.StrKey? && !IsConnective(k)
    ensures Where(Arr([(k, v)]), noPrefix) == Prepend(Prefix(noPrefix), Entry(k, v))
  {
    assert StringKeyed([(k, v)]) == [(k, v)];
  }

  /** Exactly one comparison: no parentheses, just the prefix and
      `` `name` = literal``. */
  lemma SingleComparison(name: string, v: Value, lit: string, noPrefix: bool)
    requires name != [] && NoBrackets(name) && name != "AND" && name != "OR"
    requires Quote(v) == Ok(lit)
    ensures Where(Arr([(StrKey(name), v)]), noPrefix)
            == Ok(Prefix(noPrefix) + " `" + name + "` = " + lit)
  {
    PlainKey(name);
    SingleEntry(StrKey(name), v, noPrefix);
    var p := Prefix(noPrefix);
    assert p + (" `" + name + "` " + "=" + " " + lit) == p + " `" + name + "` = " + lit;
  }

  /** The same with an explicit operator: `name[op]` renders as
      `` `name` op literal``. */
  lemma SingleAnnotatedComparison(name: string, op: string, v: Value, lit: string, noPrefix: bool)
    requires name != [] && NoBrackets(name)
    requires op != [] && '\n' !in op
    requires Quote(v) == Ok(lit)
    ensures Where(Arr([(StrKey(Annotated(name, op)), v)]), noPrefix)
            == Ok(Prefix(noPrefix) + " `" + name + "` " + op + " " + lit)
  {
    AnnotatedRoundTrip(name, op);
    var a := Annotated(name, op);
    assert a[|name|] == '[';
    SingleEntry(StrKey(a), v, noPrefix);
    var p := Prefix(noPrefix);
    var mid := " `" + name + "` " + op + " ";
    assert Entry(StrKey(a), v) == Ok(mid + lit);
    assert p + (mid + lit) == p + mid + lit;
    assert p + mid == p + " `" + name + "` " + op + " " by {
      assert p + mid == p + (" `" + name + "` " + op) + " ";
      assert p + (" `" + name + "` " + op) == p + (" `" + name + "` ") + op;
      assert p + (" `" + name + "` ") == p + (" `" + name) + "` ";
      assert p + (" `" + name) == p + " `" + name;
    }
  }

  /** Two or more entries: the level is wrapped in `"\n  ("` ... `" )"`. */
  lemma ManyEntriesParenthesised(conn: string, src: Value, noPrefix: bool)
    requires src.Arr? && |StringKeyed(src.entries)| >= 2
    requires Level(conn, src, noPrefix).Ok?
    ensures var out := Level(conn, src, noPrefix).value;
      && |out| >= |Prefix(noPrefix)| + 6
      && out[..|Prefix(noPrefix)| + 4] == Prefix(noPrefix) + "\n  ("
      && out[|out| - 2..] == " )"
  {
  }

  /** A plain comparison entry: a string key with a null, int or string value. */
  predicate IsLeaf(e: (Key, Value)) {
    e.0.StrKey? && (e.1.Null? || e.1.Int? || e.1.Str?)
  }

  predicate AllLeaves(es: seq<(Key, Value)>) {
    forall j :: 0 <= j < |es| ==> IsLeaf(es[j])
  }

  /** The comparisons of a level made only of plain entries, in order. */
  function Rendered(es: seq<(Key, Value)>): (r: seq<string>)
    requires AllLeaves(es)
    ensures |r| == |es|
    ensures forall j :: 0 <= j < |es| ==> Entry(es[j].0, es[j].1) == Ok(r[j])
    decreases |es|
  {
    if es == [] then []
    else
      assert IsLeaf(es[0]);
      [Entry(es[0].0, es[0].1).value] + Rendered(es[1..])
  }

  lemma Regroup(a: string, b: string, c: string, d: string)
    ensures a + b + (c + d) == a + (b + c + d)
  {
  }

  /** A plain comparison entry always renders and never fails. */
  lemma LeafStep(conn: string, src: Value, es: seq<(Key, Value)>, i: nat, first: bool)
    requires src.Arr? && es == StringKeyed(src.entries) && i < |es| && IsLeaf(es[i])
    ensures Entry(es[i].0, es[i].1).Ok?
    ensures Items(conn, src, es, i, first)
            == Prepend((if first then "" else " " + conn) + Entry(es[i].0, es[i].1).value,
                       Items(conn, src, es, i + 1, false))
  {
    ItemsStep(conn, src, es, i, first);
  }

  lemma {:induction false} FlatItems(conn: string, src: Value, es: seq<(Key, Value)>, i: nat, first: bool)
    requires src.Arr? && es == StringKeyed(src.entries) && i < |es|
    requires AllLeaves(es)
    ensures Items(conn, src, es, i, first)
            == Ok((if first then "" else " " + conn) + Join(Rendered(es)[i..], " " + conn))
    decreases |es| - i
  {
    var xs := Rendered(es);
    var c := " " + conn;
    var sep := if first then "" else c;
    LeafStep(conn, src, es, i, first);
    assert Entry(es[i].0, es[i].1) == Ok(xs[i]);
    if i + 1 < |es| {
      FlatItems(conn, src, es, i + 1, false);
      var tail := Join(xs[i + 1..], c);
      assert xs[i..][1..] == xs[i + 1..];
      assert Join(xs[i..], c) == xs[i] + c + tail;
      Regroup(sep, xs[i], c, tail);
      assert Items(conn, src, es, i + 1, false) == Ok(c + tail);
      assert Items(conn, src, es, i, first) == Ok(sep + xs[i] + (c + tail));
      assert Items(conn, src, es, i, first) == Ok(sep + Join(xs[i..], c));
    } else {
      assert xs[i..] == [xs[i]];
      assert Items(conn, src, es, i + 1, false) == Ok("");
      assert sep + xs[i] + "" == sep + Join(xs[i..], c);
    }
  }

  /** A level of plain comparisons is exactly the comparisons joined by the
      connective, in parentheses: the independent reference for the loop. */
  lemma FlatLevel(conn: string, src: Value, noPrefix: bool)
    requires src.Arr? && |StringKeyed(src.entries)| >= 2
    requires AllLeaves(StringKeyed(src.entries))
    ensures Level(conn, src, noPrefix)
            == Ok(Prefix(noPrefix) + "\n  (" + Join(Rendered(StringKeyed(src.entries)), " " + conn) + " )")
  {
    var es := StringKeyed(src.entries);
    var body := Join(Rendered(es), " " + conn);
    FlatItems(conn, src, es, 0, true);
    assert Rendered(es)[0..] == Rendered(es);
    assert Items(conn, src, es, 0, true) == Ok("" + body);
    assert "" + body == body;
  }

  /** Without a leading AND/OR, sibling comparisons are joined with AND. */
  lemma FlatAnd(w: Value, noPrefix: bool)
    requires w.Arr? && |StringKeyed(w.entries)| >= 2 && !IsConnective(StringKeyed(w.entries)[0].0)
    requires AllLeaves(StringKeyed(w.entries))
    ensures Where(w, noPrefix)
            == Ok(Prefix(noPrefix) + "\n  (" + Join(Rendered(StringKeyed(w.entries)), " AND") + " )")
  {
    FlatLevel("AND", w, noPrefix);
    assert " " + "AND" == " AND";
  }

  /** Under a leading OR, the comparisons of its value are joined with OR. */
  lemma FlatOr(v: Value, noPrefix: bool)
    requires v.Arr? && |StringKeyed(v.entries)| >= 2
    requires AllLeaves(StringKeyed(v.entries))
    ensures Where(Arr([(StrKey("OR"), v)]), noPrefix)
            == Ok(Prefix(noPrefix) + "\n  (" + Join(Rendered(StringKeyed(v.entries)), " OR") + " )")
  {
    FlatLevel("OR", v, noPrefix);
    assert " " + "OR" == " OR";
    LeadingConnective([], StrKey("OR"), v, [], noPrefix);
    assert [] + [(StrKey("OR"), v)] + [] == [(StrKey("OR"), v)];
  }

  /** An entry the loop skips (a bool, an object, or an array under a key
      other than AND/OR) adds nothing of its own, leaves `$first` as it was,
      but the connective has already been written when `$first` is clear. */
  lemma SkipStep(conn: string, src: Value, es: seq<(Key, Value)>, i: nat, first: bool)
    requires src.Arr? && es == StringKeyed(src.entries) && i < |es|
    requires es[i].1.Bool? || es[i].1.Obj? || (es[i].1.Arr? && !IsConnective(es[i].0))
    ensures Items(conn, src, es, i, first)
            == Prepend(if first then "" else " " + conn, Items(conn, src, es, i + 1, first))
  {
    ItemsStep(conn, src, es, i, first);
    var sep := if first then "" else " " + conn;
    assert sep + "" == sep;
  }
}
