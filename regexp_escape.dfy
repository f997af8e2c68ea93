/** `escapeRegExp`: turning a string into a regular-expression source that matches it literally. */
module RegExpEscape {
  import opened Wrappers

  /** The characters of the class `[.*+?^${}()|[\]\\]`. */
  const Metacharacters: string := ".*+?^${}()|[]\\"

  predicate IsMeta(c: char)
  {
    c in Metacharacters
  }

  /** Puts a backslash in front of every metacharacter. */
  function EscapeRegExp(s: string): string
  {
    if s == [] then []
    else (if IsMeta(s[0]) then ['\\', s[0]] else [s[0]]) + EscapeRegExp(s[1..])
  }

  /**
   * Reads a regular-expression source made only of literal atoms (an escaped
   * metacharacter, or a character that is not a metacharacter) as the one string
   * it matches; `None` when the source holds any other construct.
   */
  function LiteralOf(p: string): Option<string>
  {
    if p == [] then Some([])
    else if p[0] == '\\' then
      if |p| >= 2 && IsMeta(p[1]) then
        match LiteralOf(p[2..])
        case Some(t) => Some([p[1]] + t)
        case None => None
      else None
    else if IsMeta(p[0]) then None
    else
      match LiteralOf(p[1..])
      case Some(t) => Some([p[0]] + t)
      case None => None
  }

  /** The escaped string, read as a regular expression, matches exactly the original string. */
  lemma {:induction false} EscapeReadsBack(s: string)
    ensures LiteralOf(EscapeRegExp(s)) == Some(s)
  {
    if s != [] {
      EscapeReadsBack(s[1..]);
      var rest := EscapeRegExp(s[1..]);
      if IsMeta(s[0]) {
        assert EscapeRegExp(s) == ['\\', s[0]] + rest;
        assert (['\\', s[0]] + rest)[2..] == rest;
      } else {
        assert EscapeRegExp(s) == [s[0]] + rest;
        assert ([s[0]] + rest)[1..] == rest;
        assert s[0] != '\\';
      }
      assert [s[0]] + s[1..] == s;
    }
  }

  /** Escaping works character by character. */
  lemma {:induction false} EscapeConcat(a: string, b: string)
    ensures EscapeRegExp(a + b) == EscapeRegExp(a) + EscapeRegExp(b)
  {
    if a == [] {
      assert a + b == b;
    } else {
      assert (a + b)[0] == a[0];
      assert (a + b)[1..] == a[1..] + b;
      EscapeConcat(a[1..], b);
    }
  }

  /** A string without metacharacters is its own escape. */
  lemma {:induction false} EscapeKeepsPlain(s: string)
    requires forall i :: 0 <= i < |s| ==> !IsMeta(s[i])
    ensures EscapeRegExp(s) == s
  {
    if s != [] {
      EscapeKeepsPlain(s[1..]);
      assert [s[0]] + s[1..] == s;
    }
  }

  /** Every metacharacter gains exactly one backslash. */
  lemma {:induction false} EscapeLength(s: string)
    ensures |EscapeRegExp(s)| == |s| + MetaCount(s)
  {
    if s != [] {
      EscapeLength(s[1..]);
    }
  }

  function MetaCount(s: string): nat
  {
    if s == [] then 0 else (if IsMeta(s[0]) then 1 else 0) + MetaCount(s[1..])
  }

  /** Distinct strings have distinct escapes. */
  lemma EscapeInjective(a: string, b: string)
    requires EscapeRegExp(a) == EscapeRegExp(b)
    ensures a == b
  {
    EscapeReadsBack(a);
    EscapeReadsBack(b);
  }
}
