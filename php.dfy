/**
 * The PHP behaviour the message renderer relies on, modelled on character
 * strings: string truthiness, and `explode` and `implode` with a
 * one-character separator. A character-wise `str_replace`, which the
 * renderer never calls, is the reference definition they are compared against.
 */
module Php {

  /** PHP's truthiness of a string: only "" and "0" are falsy. */
  predicate Truthy(s: string) {
    s != "" && s != "0"
  }

  /** Number of occurrences of character `c` in `s`. */
  function Occurrences(c: char, s: string): nat
  {
    if s == [] then 0 else (if s[0] == c then 1 else 0) + Occurrences(c, s[1..])
  }

  /**
   * `explode(sep, s)` for a one-character separator: the maximal pieces of
   * `s` between separators, always at least one (possibly empty) piece.
   */
  function Explode(sep: char, s: string): (parts: seq<string>)
    ensures |parts| == 1 + Occurrences(sep, s)
    ensures forall k :: 0 <= k < |parts| ==> sep !in parts[k]
  {
    if s == [] then [""]
    else
      var rest := Explode(sep, s[1..]);
      if s[0] == sep then [""] + rest
      else [[s[0]] + rest[0]] + rest[1..]
  }

  /** `implode(glue, parts)`: the parts joined with `glue` between neighbours. */
  function Implode(glue: string, parts: seq<string>): string
  {
    if parts == [] then ""
    else if |parts| == 1 then parts[0]
    else parts[0] + glue + Implode(glue, parts[1..])
  }

  /** Every occurrence of character `sep` in `s` replaced by `glue`. */
  function StrReplace(sep: char, glue: string, s: string): string
  {
    if s == [] then ""
    else (if s[0] == sep then glue else [s[0]]) + StrReplace(sep, glue, s[1..])
  }

  /** Prepending a character to the first piece prepends it to the joined text. */
  lemma ImplodePrependChar(glue: string, c: char, parts: seq<string>)
    requires |parts| >= 1
    ensures Implode(glue, [[c] + parts[0]] + parts[1..]) == [c] + Implode(glue, parts)
  {
  }

  /** Exploding on `sep` and imploding with `glue` replaces each `sep` by `glue`. */
  lemma {:induction false} ImplodeExplodeIsReplace(sep: char, glue: string, s: string)
    ensures Implode(glue, Explode(sep, s)) == StrReplace(sep, glue, s)
  {
    if s != [] {
      var rest := Explode(sep, s[1..]);
      ImplodeExplodeIsReplace(sep, glue, s[1..]);
      if s[0] == sep {
        assert ([""] + rest)[1..] == rest;
      } else {
        ImplodePrependChar(glue, s[0], rest);
      }
    }
  }

  /** Replacing a character by itself changes nothing. */
  lemma {:induction false} ReplaceBySelf(sep: char, s: string)
    ensures StrReplace(sep, [sep], s) == s
  {
    if s != [] {
      ReplaceBySelf(sep, s[1..]);
      assert s == [s[0]] + s[1..];
    }
  }

  /** `implode(sep, explode(sep, s))` gives back `s`. */
  lemma {:induction false} ImplodeExplodeRoundTrip(sep: char, s: string)
    ensures Implode([sep], Explode(sep, s)) == s
  {
    ImplodeExplodeIsReplace(sep, [sep], s);
    ReplaceBySelf(sep, s);
  }

  /** A text without the separator is left as it is. */
  lemma {:induction false} ReplaceWithoutSeparator(sep: char, glue: string, s: string)
    ensures sep !in s ==> StrReplace(sep, glue, s) == s
  {
    if s != [] && sep !in s {
      ReplaceWithoutSeparator(sep, glue, s[1..]);
      assert s == [s[0]] + s[1..];
    }
  }

  /** Replacing in a concatenation replaces in each part. */
  lemma {:induction false} ReplaceConcat(sep: char, glue: string, a: string, b: string)
    ensures StrReplace(sep, glue, a + b) == StrReplace(sep, glue, a) + StrReplace(sep, glue, b)
  {
    if a != [] {
      ReplaceConcat(sep, glue, a[1..], b);
      assert (a + b)[1..] == a[1..] + b && (a + b)[0] == a[0];
      var head := if a[0] == sep then glue else [a[0]];
      calc {
        StrReplace(sep, glue, a + b);
        head + StrReplace(sep, glue, a[1..] + b);
        head + (StrReplace(sep, glue, a[1..]) + StrReplace(sep, glue, b));
        (head + StrReplace(sep, glue, a[1..])) + StrReplace(sep, glue, b);
        StrReplace(sep, glue, a) + StrReplace(sep, glue, b);
      }
    } else {
      assert a + b == b;
    }
  }

  /** Each replaced character contributes |glue| characters instead of one. */
  lemma {:induction false} ReplaceLength(sep: char, glue: string, s: string)
    ensures |StrReplace(sep, glue, s)| == |s| + (|glue| - 1) * Occurrences(sep, s)
  {
    if s != [] {
      ReplaceLength(sep, glue, s[1..]);
    }
  }
}
