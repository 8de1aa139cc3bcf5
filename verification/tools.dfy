/** `tools::quote` (src/tools.php): a value becomes an SQL literal that is
    inlined into a statement. `SQLite3::escapeString` is modelled by its
    documented behaviour, doubling every single quote. */
module Tools {
  import opened Php

  const QuoteChar: char := '\''

  /** `SQLite3::escapeString`: every `'` becomes `''`. */
  function Escape(s: string): (t: string)
    ensures |t| >= |s|
    decreases |s|
  {
    if s == [] then []
    else if s[0] == QuoteChar then [QuoteChar, QuoteChar] + Escape(s[1..])
    else [s[0]] + Escape(s[1..])
  }

  /** The body of a literal in which every quote is half of a doubled pair. */
  predicate QuotesPaired(t: string)
    decreases |t|
  {
    if t == [] then true
    else if t[0] != QuoteChar then QuotesPaired(t[1..])
    else |t| >= 2 && t[1] == QuoteChar && QuotesPaired(t[2..])
  }

  /** How the database engine reads the body of a quoted literal: `''` stands for `'`. */
  function Unescape(t: string): (s: string)
    requires QuotesPaired(t)
    decreases |t|
  {
    if t == [] then []
    else if t[0] != QuoteChar then [t[0]] + Unescape(t[1..])
    else [QuoteChar] + Unescape(t[2..])
  }

  /** The escaped text has every quote doubled and reads back as the original
      string, so a string literal cannot end early. */
  lemma {:induction false} EscapeRoundTrip(s: string)
    ensures QuotesPaired(Escape(s))
    ensures Unescape(Escape(s)) == s
    decreases |s|
  {
    if s != [] {
      EscapeRoundTrip(s[1..]);
      var t := Escape(s);
      if s[0] == QuoteChar {
        assert t[2..] == Escape(s[1..]);
      } else {
        assert t[1..] == Escape(s[1..]);
      }
      assert [s[0]] + s[1..] == s;
    }
  }

  /** `tools::quote($data)` for the non-float types; the result is the text the
      caller concatenates into the statement. */
  function Quote(v: Value): Result<string> {
    match v
    case Int(i) => Ok(Decimal(i))
    case Bool(b) => Ok(if b then "1" else "0")
    case Str(s) => Ok([QuoteChar] + Escape(s) + [QuoteChar])
    case _ => if !Falsy(v) then Err(InvalidDataType) else Ok("NULL")
  }

  /** What `Quote` promises: numbers read back as themselves, booleans become
      1/0, a string becomes a literal delimited by quotes whose body reads
      back as the string, null and the empty array become NULL, and only a
      truthy non-scalar raises `Invalid data type.` */
  lemma QuoteContract(v: Value)
    ensures var r := Quote(v);
      && (r.Err? <==> !IsScalar(v) && !Falsy(v))
      && (v.Int? ==> r.Ok? && ParseDecimal(r.value) == v.i)
      && (v.Bool? ==> r == Ok(if v.b then "1" else "0"))
      && (v.Str? ==> r.Ok? && |r.value| >= 2
                     && r.value[0] == QuoteChar && r.value[|r.value| - 1] == QuoteChar
                     && QuotesPaired(r.value[1..|r.value| - 1])
                     && Unescape(r.value[1..|r.value| - 1]) == v.s)
      && ((v.Null? || v.Arr?) && Falsy(v) ==> r == Ok("NULL"))
  {
    match v
    case Int(i) =>
      DecimalRoundTrip(i);
    case Str(s) =>
      EscapeRoundTrip(s);
      var lit := [QuoteChar] + Escape(s) + [QuoteChar];
      assert lit[1..|lit| - 1] == Escape(s);
    case _ =>
  }
}
