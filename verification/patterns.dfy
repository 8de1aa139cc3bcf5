/** The three regular expressions of src/Command.php, hand-coded as string
    functions. PCRE's `$` (without the D modifier) matches at the very end
    of the subject or just before one final "\n"; `.` does not match "\n". */
module Patterns {
  import opened Php

  predicate IsBracket(c: char) { c == '[' || c == ']' }

  /** PCRE's `\w` in the default locale. */
  predicate IsWord(c: char) {
    ('a' <= c <= 'z') || ('A' <= c <= 'Z') || ('0' <= c <= '9') || c == '_'
  }

  predicate NoBrackets(s: string) {
    forall k :: 0 <= k < |s| ==> !IsBracket(s[k])
  }

  /** Index of the first `[` or `]` in `s`, or `|s|` when there is none. */
  function FirstBracket(s: string): (p: nat)
    ensures p <= |s|
    ensures NoBrackets(s[..p])
    ensures p < |s| ==> IsBracket(s[p])
    decreases |s|
  {
    if s == [] then 0
    else if IsBracket(s[0]) then 0
    else 1 + FirstBracket(s[1..])
  }

  /** Text between the opening `[` and a closing `]` that ends the subject
      (optionally followed by one "\n"); `.+` needs it non-empty and free of "\n". */
  function BracketBody(rest: string): Option<string> {
    var body :=
      if |rest| >= 1 && rest[|rest| - 1] == ']' then Some(rest[..|rest| - 1])
      else if |rest| >= 2 && rest[|rest| - 2] == ']' && rest[|rest| - 1] == '\n' then Some(rest[..|rest| - 2])
      else None;
    if body.Some? && |body.value| > 0 && '\n' !in body.value then body else None
  }

  /** `^(?<field>[^\[\]]+)\[(?<direction>.+)\]$` (the ORDER entry pattern):
      the captured name and bracket text, or None when the subject does not match. */
  function Bracketed(s: string): Option<(string, string)> {
    var p := FirstBracket(s);
    if p == 0 || p == |s| || s[p] != '[' then None
    else
      match BracketBody(s[p + 1..])
      case None => None
      case Some(body) => Some((s[..p], body))
  }

  /** `^(?<name>[^\[\]]+)(?:\[(?<condition>.+)\]){0,1}$` (the filter key
      pattern), with the missing condition already defaulted to `=`. */
  function ParseKey(s: string): Option<(string, string)> {
    if FirstBracket(s) == |s| then (if s == [] then None else Some((s, "=")))
    else Bracketed(s)
  }

  /** `\w+\(\)$`: the subject ends in a word character followed by `()`. */
  predicate EndsWithCall(s: string) {
    || (|s| >= 3 && IsWord(s[|s| - 3]) && s[|s| - 2..] == "()")
    || (|s| >= 4 && IsWord(s[|s| - 4]) && s[|s| - 3..] == "()\n")
  }

  /** The shape a caller writes: `name[op]`. */
  function Annotated(name: string, op: string): string {
    name + "[" + op + "]"
  }

  lemma PlainKey(name: string)
    requires name != [] && NoBrackets(name)
    ensures ParseKey(name) == Some((name, "="))
  {
  }

  lemma {:induction false} FirstBracketOfAnnotated(name: string, tail: string)
    requires NoBrackets(name)
    ensures FirstBracket(name + "[" + tail) == |name|
    decreases |name|
  {
    if name != [] {
      assert (name + "[" + tail)[1..] == name[1..] + "[" + tail;
      FirstBracketOfAnnotated(name[1..], tail);
    }
  }

  /** A key written as `name[op]` parses back into its name and operator;
      the same holds for an ORDER entry `field[dir]`. */
  lemma AnnotatedRoundTrip(name: string, op: string)
    requires name != [] && NoBrackets(name)
    requires op != [] && '\n' !in op
    ensures Bracketed(Annotated(name, op)) == Some((name, op))
    ensures ParseKey(Annotated(name, op)) == Some((name, op))
  {
    var s := Annotated(name, op);
    FirstBracketOfAnnotated(name, op + "]");
    assert s == name + "[" + (op + "]");
    assert s[|name| + 1..] == op + "]";
    assert (op + "]")[..|op|] == op;
    assert s[..|name|] == name;
  }

  /** Conversely, whatever the key pattern accepts has one of the two shapes
      (up to PCRE's final "\n"), with a bracket-free name. */
  lemma ParseKeySound(s: string)
    requires ParseKey(s).Some?
    ensures var (name, op) := ParseKey(s).value;
      && name != [] && NoBrackets(name)
      && op != [] && '\n' !in op
      && (|| (s == name && op == "=")
          || s == Annotated(name, op)
          || s == Annotated(name, op) + "\n")
  {
    var p := FirstBracket(s);
    if p == |s| {
      assert s[..p] == s;
    } else {
      var rest := s[p + 1..];
      var body := BracketBody(rest).value;
      assert s == s[..p] + "[" + rest;
      if |rest| >= 1 && rest[|rest| - 1] == ']' {
        assert rest == body + "]";
      } else {
        assert rest == body + "]" + "\n";
      }
    }
  }

  /** Any text ending in `<word char>()`, optionally followed by one "\n",
      passes the raw-expression test. */
  lemma CallShapeMatches(prefix: string, c: char)
    requires IsWord(c)
    ensures EndsWithCall(prefix + [c] + "()")
    ensures EndsWithCall(prefix + [c] + "()\n")
  {
    var s := prefix + [c] + "()";
    assert s[|s| - 2..] == "()";
    var t := prefix + [c] + "()\n";
    assert t[|t| - 3..] == "()\n";
  }

  /** A raw expression always contains `()`: a text without it is quoted. */
  lemma CallShapeHasParens(s: string)
    requires EndsWithCall(s)
    ensures exists k :: 0 <= k < |s| - 1 && s[k] == '(' && s[k + 1] == ')'
  {
    if |s| >= 3 && s[|s| - 2..] == "()" {
      var k := |s| - 2;
      assert s[k] == '(' && s[k + 1] == ')';
    } else {
      var k := |s| - 3;
      assert s[k] == '(' && s[k + 1] == ')';
    }
  }
}
