/** The slice of PHP's value model that the statement builders and the pool
    consume: scalars, ordered arrays (an array is an ordered sequence of
    key/value entries) and opaque objects, plus the string conversions PHP
    applies when a value is interpolated into a string. */
module Php {

  /** An array key: PHP keeps integer and string keys apart. */
  datatype Key = IntKey(n: int) | StrKey(s: string)

  datatype Value =
    | Null
    | Bool(b: bool)
    | Int(i: int)
    | Str(s: string)
    /** A PHP array holds each key once, and stores a decimal-integer string
        key as an int key. An `Arr` that repeats a key, or has a key such as
        `StrKey("0")`, comes from no PHP program. The operations accept
        such values but give them no PHP meaning; a lookup takes the first
        matching entry. */
    | Arr(entries: seq<(Key, Value)>)
    | Obj

  /** The exceptions the modelled code can raise. */
  datatype Error =
    | InvalidDataType   // tools::quote on a truthy non-scalar

  datatype Result<T> = Ok(value: T) | Err(error: Error)

  datatype Option<T> = None | Some(value: T)

  /** PHP's notion of a falsy value for the types modelled here. */
  predicate Falsy(v: Value) {
    match v
    case Null => true
    case Bool(b) => !b
    case Int(i) => i == 0
    case Str(s) => s == "" || s == "0"
    case Arr(es) => es == []
    case Obj => false
  }

  predicate IsScalar(v: Value) {
    v.Null? || v.Bool? || v.Int? || v.Str?
  }

  /** Concatenates `s` in front of a successful result; an error passes through. */
  function Prepend(s: string, r: Result<string>): (q: Result<string>)
    ensures q.Ok? <==> r.Ok?
    ensures r.Ok? ==> q.value == s + r.value
    ensures r.Err? ==> q == r
  {
    match r
    case Ok(t) => Ok(s + t)
    case Err(e) => Err(e)
  }

  // ---------------------------------------------------------------------
  // Decimal rendering of integers (how PHP interpolates an int)

  function DigitChar(d: nat): (c: char)
    requires d < 10
  {
    "0123456789"[d]
  }

  predicate IsDigit(c: char) { '0' <= c <= '9' }

  /** Decimal digits of a natural number, most significant first. */
  function Digits(n: nat): (s: string)
    decreases n
  {
    if n < 10 then [DigitChar(n)] else Digits(n / 10) + [DigitChar(n % 10)]
  }

  /** The value of a string of decimal digits. */
  function DigitsValue(s: string): nat
    decreases |s|
  {
    if s == [] then 0
    else
      var c := s[|s| - 1];
      var d: nat := if IsDigit(c) then (c as int) - ('0' as int) else 0;
      DigitsValue(s[..|s| - 1]) * 10 + d
  }

  /** PHP's string form of an int: an optional minus sign, then the digits. */
  function Decimal(n: int): string {
    if n < 0 then "-" + Digits(-n) else Digits(n)
  }

  /** Reads back a string produced by `Decimal`. */
  function ParseDecimal(s: string): int {
    if |s| > 0 && s[0] == '-' then -(DigitsValue(s[1..]) as int) else DigitsValue(s)
  }

  lemma {:induction false} DigitsRoundTrip(n: nat)
    ensures |Digits(n)| > 0
    ensures forall k :: 0 <= k < |Digits(n)| ==> IsDigit(Digits(n)[k])
    ensures DigitsValue(Digits(n)) == n
    decreases n
  {
    if n < 10 {
      DigitCharValue(n);
      assert Digits(n)[..0] == [];
    } else {
      DigitsRoundTrip(n / 10);
      DigitCharValue(n % 10);
      var s := Digits(n);
      assert s == Digits(n / 10) + [DigitChar(n % 10)];
      assert s[..|s| - 1] == Digits(n / 10);
    }
  }

  lemma DigitCharValue(d: nat)
    requires d < 10
    ensures IsDigit(DigitChar(d)) && (DigitChar(d) as int) - ('0' as int) == d
  {
  }

  /** `Decimal` is injective: its output reads back as the integer it came from. */
  lemma DecimalRoundTrip(n: int)
    ensures |Decimal(n)| > 0
    ensures forall k :: 0 <= k < |Decimal(n)| ==> IsDigit(Decimal(n)[k]) || (k == 0 && n < 0)
    ensures ParseDecimal(Decimal(n)) == n
  {
    if n < 0 {
      DigitsRoundTrip(-n);
      assert Decimal(n)[1..] == Digits(-n);
    } else {
      DigitsRoundTrip(n);
    }
  }

  /** The string a key becomes when interpolated. */
  function KeyText(k: Key): string {
    match k
    case IntKey(n) => Decimal(n)
    case StrKey(s) => s
  }

  /** The string a scalar becomes when interpolated ("{$v}" or `.`). */
  function Text(v: Value): (t: string)
    requires IsScalar(v)
    ensures v.Str? ==> t == v.s
    ensures v.Null? ==> t == ""
  {
    match v
    case Null => ""
    case Bool(b) => if b then "1" else ""
    case Int(i) => Decimal(i)
    case Str(s) => s
  }

  // ---------------------------------------------------------------------
  // Arrays

  /** `array_filter($a, 'is_string', ARRAY_FILTER_USE_KEY)`. */
  function StringKeyed(es: seq<(Key, Value)>): (r: seq<(Key, Value)>)
    ensures |r| <= |es|
    ensures forall j :: 0 <= j < |r| ==> r[j] in es && r[j].0.StrKey?
  {
    if es == [] then []
    else if es[0].0.StrKey? then [es[0]] + StringKeyed(es[1..])
    else StringKeyed(es[1..])
  }

  lemma {:induction false} StringKeyedConcat(a: seq<(Key, Value)>, b: seq<(Key, Value)>)
    ensures StringKeyed(a + b) == StringKeyed(a) + StringKeyed(b)
    decreases |a|
  {
    if a == [] {
      assert a + b == b;
    } else {
      assert (a + b)[0] == a[0];
      assert (a + b)[1..] == a[1..] + b;
      StringKeyedConcat(a[1..], b);
      if a[0].0.StrKey? {
        assert StringKeyed(a + b) == [a[0]] + (StringKeyed(a[1..]) + StringKeyed(b));
        assert StringKeyed(a) == [a[0]] + StringKeyed(a[1..]);
      }
    }
  }

  /** The filter keeps exactly the string-keyed entries. */
  lemma {:induction false} StringKeyedMembers(es: seq<(Key, Value)>, e: (Key, Value))
    ensures e in StringKeyed(es) <==> e in es && e.0.StrKey?
    decreases |es|
  {
    if es != [] {
      StringKeyedMembers(es[1..], e);
      assert es == [es[0]] + es[1..];
    }
  }

  /** An array with integer keys only has nothing left after the string-key filter. */
  lemma {:induction false} StringKeyedOfIntKeys(es: seq<(Key, Value)>)
    requires forall j :: 0 <= j < |es| ==> es[j].0.IntKey?
    ensures StringKeyed(es) == []
    decreases |es|
  {
    if es != [] {
      StringKeyedOfIntKeys(es[1..]);
    }
  }

  /** `array_filter($a, 'is_int', ARRAY_FILTER_USE_KEY)`. */
  function IntKeyed(es: seq<(Key, Value)>): (r: seq<(Key, Value)>)
    ensures |r| <= |es|
    ensures forall j :: 0 <= j < |r| ==> r[j] in es && r[j].0.IntKey?
  {
    if es == [] then []
    else if es[0].0.IntKey? then [es[0]] + IntKeyed(es[1..])
    else IntKeyed(es[1..])
  }

  /** The int-key filter keeps every entry an int key finds. */
  lemma {:induction false} IntKeyedLookup(es: seq<(Key, Value)>, n: int)
    ensures Lookup(IntKeyed(es), IntKey(n)) == Lookup(es, IntKey(n))
    decreases |es|
  {
    if es != [] {
      IntKeyedLookup(es[1..], n);
    }
  }

  /** `$a[$k]`: the value stored under key `k`, if any. */
  function Lookup(es: seq<(Key, Value)>, k: Key): (r: Option<Value>)
    ensures r.Some? <==> exists e :: e in es && e.0 == k
    ensures r.Some? ==> (k, r.value) in es
  {
    if es == [] then None
    else if es[0].0 == k then Some(es[0].1)
    else Lookup(es[1..], k)
  }

  /** Nesting depth of arrays; scalars and objects have depth 0. */
  function Depth(v: Value): nat
    decreases v, 1
  {
    if v.Arr? then 1 + EntriesDepth(v, 0) else 0
  }

  function EntriesDepth(v: Value, i: nat): nat
    requires v.Arr? && i <= |v.entries|
    decreases v, 0, |v.entries| - i
  {
    if i == |v.entries| then 0
    else
      var d := Depth(v.entries[i].1);
      var rest := EntriesDepth(v, i + 1);
      if d < rest then rest else d
  }

  lemma {:induction false} EntriesDepthBound(v: Value, i: nat, j: nat)
    requires v.Arr? && i <= j < |v.entries|
    ensures Depth(v.entries[j].1) <= EntriesDepth(v, i)
    decreases j - i
  {
    if i < j {
      EntriesDepthBound(v, i + 1, j);
    }
  }

  /** An array is strictly deeper than every value stored in it. */
  lemma EntryShallower(v: Value, e: (Key, Value))
    requires v.Arr? && e in v.entries
    ensures Depth(e.1) < Depth(v)
  {
    var j :| 0 <= j < |v.entries| && v.entries[j] == e;
    EntriesDepthBound(v, 0, j);
  }

  // ---------------------------------------------------------------------
  // implode

  /** `implode(sep, parts)`. */
  function Join(parts: seq<string>, sep: string): string
    decreases |parts|
  {
    if parts == [] then ""
    else if |parts| == 1 then parts[0]
    else parts[0] + sep + Join(parts[1..], sep)
  }

  lemma {:induction false} JoinSnoc(parts: seq<string>, x: string, sep: string)
    ensures Join(parts + [x], sep) == if parts == [] then x else Join(parts, sep) + sep + x
    decreases |parts|
  {
    if |parts| > 1 {
      assert (parts + [x])[1..] == parts[1..] + [x];
      JoinSnoc(parts[1..], x, sep);
    } else if |parts| == 1 {
      assert (parts + [x])[1..] == [x];
    }
  }

  /** Splitting a joined list at the separator gives the parts back, when the
      separator does not occur in them: `explode` undoes `implode`. */
  lemma {:induction false} JoinNoSep(parts: seq<string>, c: char)
    requires forall p :: p in parts ==> c !in p
    ensures parts != [] ==> Split(Join(parts, [c]), c) == parts
    decreases |parts|
  {
    if |parts| == 1 {
      SplitNoSep(parts[0], c);
    } else if |parts| > 1 {
      var rest := Join(parts[1..], [c]);
      assert Join(parts, [c]) == parts[0] + [c] + rest;
      assert c !in parts[0] by {
        assert parts[0] in parts;
      }
      JoinNoSep(parts[1..], c);
      SplitAfter(parts[0], rest, c);
      assert [parts[0]] + parts[1..] == parts;
    }
  }

  /** `explode(c, s)`: the pieces of `s` between occurrences of `c`. */
  function Split(s: string, c: char): (r: seq<string>)
    ensures |r| > 0
    ensures forall p :: p in r ==> c !in p
    decreases |s|
  {
    if s == [] then [""]
    else
      var rest := Split(s[1..], c);
      if s[0] == c then [""] + rest else [[s[0]] + rest[0]] + rest[1..]
  }

  lemma {:induction false} SplitNoSep(s: string, c: char)
    requires c !in s
    ensures Split(s, c) == [s]
    decreases |s|
  {
    if s != [] {
      SplitNoSep(s[1..], c);
      assert [s[0]] + s[1..] == s;
    }
  }

  lemma {:induction false} SplitAfter(p: string, t: string, c: char)
    requires c !in p
    ensures Split(p + [c] + t, c) == [p] + Split(t, c)
    decreases |p|
  {
    if p == [] {
      assert ([] + [c] + t)[1..] == t;
    } else {
      assert (p + [c] + t)[1..] == p[1..] + [c] + t;
      SplitAfter(p[1..], t, c);
      assert [p[0]] + p[1..] == p;
    }
  }

  /** `implode` undoes `explode`. */
  lemma {:induction false} SplitJoin(s: string, c: char)
    ensures Join(Split(s, c), [c]) == s
    decreases |s|
  {
    if s != [] {
      SplitJoin(s[1..], c);
      var rest := Split(s[1..], c);
      if s[0] == c {
        assert Join([""] + rest, [c]) == "" + [c] + Join(rest, [c]);
      } else {
        var r := [[s[0]] + rest[0]] + rest[1..];
        if |rest| == 1 {
          assert r == [[s[0]] + rest[0]];
        } else {
          assert r[1..] == rest[1..];
          assert Join(rest, [c]) == rest[0] + [c] + Join(rest[1..], [c]);
        }
        assert [s[0]] + s[1..] == s;
      }
    }
  }
}
