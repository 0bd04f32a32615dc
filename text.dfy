/**
 The string primitives of JavaScript that script.js relies on, restated over
 `seq<char>`: `indexOf`, `replace` with a string pattern (including the `$`
 substitution patterns of its replacement argument), `trim`, an ASCII
 `toLowerCase`, and `split` on a single separator character.
 */
module Text {

  datatype Option<T> = None | Some(value: T)

  /** `pat` occurs in `s` starting at index `i`. */
  predicate MatchAt(s: string, pat: string, i: nat) {
    i + |pat| <= |s| && s[i..i + |pat|] == pat
  }

  /** The first occurrence of `pat` in `s` at or after `from` (`s.indexOf(pat, from)`). */
  function IndexFrom(s: string, pat: string, from: nat): (r: Option<nat>)
    requires from <= |s|
    ensures r.Some? ==> from <= r.value && MatchAt(s, pat, r.value)
    ensures r.Some? ==> forall j :: from <= j < r.value ==> !MatchAt(s, pat, j)
    ensures r.None? ==> forall j :: from <= j <= |s| ==> !MatchAt(s, pat, j)
    decreases |s| - from
  {
    if MatchAt(s, pat, from) then Some(from)
    else if from == |s| then None
    else IndexFrom(s, pat, from + 1)
  }

  /** The first occurrence of `pat` in `s` (`s.indexOf(pat)`, with `None` for -1). */
  function IndexOf(s: string, pat: string): (r: Option<nat>)
    ensures r.Some? ==> MatchAt(s, pat, r.value)
    ensures r.Some? ==> forall j :: 0 <= j < r.value ==> !MatchAt(s, pat, j)
    ensures r.None? <==> forall j :: 0 <= j <= |s| ==> !MatchAt(s, pat, j)
  {
    IndexFrom(s, pat, 0)
  }

  /** A first match is recognised by the match and the absence of any earlier one. */
  lemma IndexOfIs(s: string, pat: string, i: nat)
    requires MatchAt(s, pat, i)
    requires forall j :: 0 <= j < i ==> !MatchAt(s, pat, j)
    ensures IndexOf(s, pat) == Some(i)
  {
  }

  /** One differing character rules out a match at `j`. */
  lemma MismatchAt(s: string, pat: string, j: nat, k: nat)
    requires k < |pat| && j + k < |s| && s[j + k] != pat[k]
    ensures !MatchAt(s, pat, j)
  {
    if j + |pat| <= |s| {
      assert s[j..j + |pat|][k] == s[j + k];
    }
  }

  /**
   Every position of `a` is ruled out as the start of `pat` by one of the
   first three characters of `pat`, whatever follows `a`.
   */
  predicate RulesOutStarts(a: string, pat: string)
    requires |pat| >= 3
  {
    forall j {:trigger a[j]} :: 0 <= j < |a| ==>
      a[j] != pat[0] || (j + 1 < |a| && a[j + 1] != pat[1]) || (j + 2 < |a| && a[j + 2] != pat[2])
  }

  /** Each piece rules out its starts with its own characters, so the concatenation does too. */
  lemma RulesOutStartsConcat(a: string, b: string, pat: string)
    requires |pat| >= 3 && RulesOutStarts(a, pat) && RulesOutStarts(b, pat)
    ensures RulesOutStarts(a + b, pat)
  {
    var s := a + b;
    forall j | 0 <= j < |s|
      ensures s[j] != pat[0] || (j + 1 < |s| && s[j + 1] != pat[1]) || (j + 2 < |s| && s[j + 2] != pat[2])
    {
      if j < |a| {
        assert a[j] != pat[0] || (j + 1 < |a| && a[j + 1] != pat[1]) || (j + 2 < |a| && a[j + 2] != pat[2]);
      } else {
        var i := j - |a|;
        assert b[i] != pat[0] || (i + 1 < |b| && b[i + 1] != pat[1]) || (i + 2 < |b| && b[i + 2] != pat[2]);
      }
    }
  }

  /** A string without the first character of `pat` rules out every start. */
  lemma RulesOutStartsWithoutFirstChar(a: string, pat: string)
    requires |pat| >= 3 && pat[0] !in a
    ensures RulesOutStarts(a, pat)
  {
  }

  lemma NoStartInPiece(a: string, b: string, pat: string)
    requires |pat| >= 3 && RulesOutStarts(a, pat)
    ensures forall j :: 0 <= j < |a| ==> !MatchAt(a + b, pat, j)
  {
    forall j | 0 <= j < |a| ensures !MatchAt(a + b, pat, j) {
      if a[j] != pat[0] {
        assert (a + b)[j] == a[j];
        MismatchAt(a + b, pat, j, 0);
      } else if j + 1 < |a| && a[j + 1] != pat[1] {
        assert (a + b)[j + 1] == a[j + 1];
        MismatchAt(a + b, pat, j, 1);
      } else {
        assert j + 2 < |a| && a[j + 2] != pat[2];
        assert (a + b)[j + 2] == a[j + 2];
        MismatchAt(a + b, pat, j, 2);
      }
    }
  }

  lemma MatchAfterPiece(a: string, b: string, pat: string, i: nat)
    ensures MatchAt(a + b, pat, |a| + i) <==> MatchAt(b, pat, i)
  {
    if i + |pat| <= |b| {
      assert (a + b)[|a| + i..|a| + i + |pat|] == b[i..i + |pat|];
    }
  }

  /** A piece that rules out every start can be skipped by the search. */
  lemma {:induction false} IndexOfAfterPiece(a: string, b: string, pat: string)
    requires |pat| >= 3 && RulesOutStarts(a, pat)
    ensures IndexOf(a + b, pat) == match IndexOf(b, pat)
                                   case None => None
                                   case Some(i) => Some(|a| + i)
  {
    var s := a + b;
    NoStartInPiece(a, b, pat);
    match IndexOf(b, pat)
    case None =>
      forall j | 0 <= j <= |s| ensures !MatchAt(s, pat, j) {
        if j >= |a| {
          MatchAfterPiece(a, b, pat, j - |a|);
        }
      }
    case Some(i) =>
      forall j | 0 <= j < |a| + i ensures !MatchAt(s, pat, j) {
        if j >= |a| {
          MatchAfterPiece(a, b, pat, j - |a|);
        }
      }
      MatchAfterPiece(a, b, pat, i);
      IndexOfIs(s, pat, |a| + i);
  }

  /**
   The replacement text that ECMAScript's GetSubstitution (ECMAScript 2022,
   section 22.1.3.18.1) builds from the template `rep` when `matched` was found
   in `str` at `position` and there are no capture groups: `$$` stands for `$`,
   `$&` for the match, `` $` `` for the text before it, `$'` for the text after
   it; every other character, including a `$` before anything else, is copied.
   */
  function Substitution(matched: string, str: string, position: nat, rep: string): string
    requires position + |matched| <= |str|
  {
    if |rep| == 0 then ""
    else if rep[0] == '$' && |rep| >= 2 && rep[1] == '$' then
      "$" + Substitution(matched, str, position, rep[2..])
    else if rep[0] == '$' && |rep| >= 2 && rep[1] == '&' then
      matched + Substitution(matched, str, position, rep[2..])
    else if rep[0] == '$' && |rep| >= 2 && rep[1] == '`' then
      str[..position] + Substitution(matched, str, position, rep[2..])
    else if rep[0] == '$' && |rep| >= 2 && rep[1] == '\'' then
      str[position + |matched|..] + Substitution(matched, str, position, rep[2..])
    else
      [rep[0]] + Substitution(matched, str, position, rep[1..])
  }

  /** A template without `$` is inserted verbatim. */
  lemma {:induction false} SubstitutionWithoutDollar(matched: string, str: string, position: nat, rep: string)
    requires position + |matched| <= |str|
    requires '$' !in rep
    ensures Substitution(matched, str, position, rep) == rep
  {
    if |rep| > 0 {
      assert '$' !in rep[1..];
      SubstitutionWithoutDollar(matched, str, position, rep[1..]);
    }
  }

  /** A `$`-free prefix of a template is copied and the rest is substituted on its own. */
  lemma {:induction false} SubstitutionOfPlainPrefix(matched: string, str: string, position: nat, a: string, b: string)
    requires position + |matched| <= |str|
    requires '$' !in a
    ensures Substitution(matched, str, position, a + b) == a + Substitution(matched, str, position, b)
  {
    if |a| > 0 {
      assert (a + b)[0] == a[0] != '$';
      assert (a + b)[1..] == a[1..] + b;
      assert '$' !in a[1..];
      calc {
        Substitution(matched, str, position, a + b);
        [a[0]] + Substitution(matched, str, position, a[1..] + b);
        { SubstitutionOfPlainPrefix(matched, str, position, a[1..], b); }
        [a[0]] + (a[1..] + Substitution(matched, str, position, b));
        { assert a == [a[0]] + a[1..]; }
        a + Substitution(matched, str, position, b);
      }
    } else {
      assert a + b == b;
    }
  }

  /** `$$` in a template stands for a single `$`. */
  lemma SubstitutionOfDollarPair(matched: string, str: string, position: nat, b: string)
    requires position + |matched| <= |str|
    ensures Substitution(matched, str, position, "$$" + b) == "$" + Substitution(matched, str, position, b)
  {
    assert ("$$" + b)[2..] == b;
  }

  /** A template whose only `$` pattern is one `$$` yields the template with a single `$` there. */
  lemma SubstitutionOfOneDollarPair(matched: string, str: string, position: nat, a: string, b: string)
    requires position + |matched| <= |str|
    requires '$' !in a && '$' !in b
    ensures Substitution(matched, str, position, a + ("$$" + b)) == a + ("$" + b)
  {
    SubstitutionOfPlainPrefix(matched, str, position, a, "$$" + b);
    SubstitutionOfDollarPair(matched, str, position, b);
    SubstitutionWithoutDollar(matched, str, position, b);
  }

  /** `$&` in a template stands for the matched text. */
  lemma SubstitutionOfMatchRef(matched: string, str: string, position: nat, b: string)
    requires position + |matched| <= |str|
    ensures Substitution(matched, str, position, "$&" + b) == matched + Substitution(matched, str, position, b)
  {
    assert ("$&" + b)[2..] == b;
  }

  /** A template whose only `$` pattern is one `$&` yields the template with the matched text there. */
  lemma SubstitutionOfOneMatchRef(matched: string, str: string, position: nat, a: string, b: string)
    requires position + |matched| <= |str|
    requires '$' !in a && '$' !in b
    ensures Substitution(matched, str, position, a + ("$&" + b)) == a + (matched + b)
  {
    SubstitutionOfPlainPrefix(matched, str, position, a, "$&" + b);
    SubstitutionOfMatchRef(matched, str, position, b);
    SubstitutionWithoutDollar(matched, str, position, b);
  }

  /**
   `s.replace(pat, rep)` for a string `pat`: only the first occurrence is
   replaced, and `s` is returned as it is when there is none.
   */
  function ReplaceFirst(s: string, pat: string, rep: string): (r: string)
    ensures IndexOf(s, pat).None? ==> r == s
    ensures IndexOf(s, pat).Some? && '$' !in rep ==>
              var i := IndexOf(s, pat).value;
              r == s[..i] + rep + s[i + |pat|..]
  {
    match IndexOf(s, pat)
    case None => s
    case Some(i) =>
      SubstitutionWithoutDollarIf(pat, s, i, rep);
      s[..i] + Substitution(pat, s, i, rep) + s[i + |pat|..]
  }

  // Calls SubstitutionWithoutDollar only when its precondition on `rep` holds.
  lemma SubstitutionWithoutDollarIf(matched: string, str: string, position: nat, rep: string)
    requires position + |matched| <= |str|
    ensures '$' !in rep ==> Substitution(matched, str, position, rep) == rep
  {
    if '$' !in rep {
      SubstitutionWithoutDollar(matched, str, position, rep);
    }
  }

  lemma {:induction false} ReplaceFirstKeepsPrefixAndSuffix(s: string, pat: string, rep: string)
    requires IndexOf(s, pat).Some?
    ensures var i := IndexOf(s, pat).value;
            var r := ReplaceFirst(s, pat, rep);
            |r| >= |s| - |pat| &&
            r[..i] == s[..i] && r[|r| - (|s| - i - |pat|)..] == s[i + |pat|..]
  {
    var i := IndexOf(s, pat).value;
    var sub := Substitution(pat, s, i, rep);
    var r := ReplaceFirst(s, pat, rep);
    assert r == s[..i] + sub + s[i + |pat|..];
    assert r[..i] == s[..i];
    assert r[|r| - (|s| - i - |pat|)..] == s[i + |pat|..];
  }

  /* ---------------------------------------------------------------------
     trim and toLowerCase
     --------------------------------------------------------------------- */

  /**
   The characters that `String.prototype.trim` removes: ECMAScript's
   WhiteSpace (TAB, VT, FF, ZWNBSP and the Unicode space separators) and
   LineTerminator (LF, CR, LS, PS) code points.
   */
  predicate IsTrimmable(c: char) {
    c == '\t' || c == '\U{000B}' || c == '\U{000C}' || c == ' ' || c == '\U{00A0}' ||
    c == '\U{FEFF}' || c == '\U{1680}' || ('\U{2000}' <= c <= '\U{200A}') ||
    c == '\U{202F}' || c == '\U{205F}' || c == '\U{3000}' ||
    c == '\n' || c == '\r' || c == '\U{2028}' || c == '\U{2029}'
  }

  /** `s` with its leading trimmable characters removed. */
  function TrimStart(s: string): (r: string)
    ensures |r| <= |s| && r == s[|s| - |r|..]
    ensures r == [] || !IsTrimmable(r[0])
    ensures forall k :: 0 <= k < |s| - |r| ==> IsTrimmable(s[k])
  {
    if |s| > 0 && IsTrimmable(s[0]) then TrimStart(s[1..]) else s
  }

  /** `s` with its trailing trimmable characters removed. */
  function TrimEnd(s: string): (r: string)
    ensures |r| <= |s| && r == s[..|r|]
    ensures r == [] || !IsTrimmable(r[|r| - 1])
    ensures forall k :: |r| <= k < |s| ==> IsTrimmable(s[k])
  {
    if |s| > 0 && IsTrimmable(s[|s| - 1]) then TrimEnd(s[..|s| - 1]) else s
  }

  /** An infix of `s` that neither starts nor ends with a trimmable character. */
  predicate Trimmed(s: string) {
    s == [] || (!IsTrimmable(s[0]) && !IsTrimmable(s[|s| - 1]))
  }

  /** The number of trimmable characters at the start of `s`. */
  function LeadingTrimmable(s: string): (n: nat)
    ensures n <= |s|
  {
    |s| - |TrimStart(s)|
  }

  /**
   `s.trim()`: the infix of `s` between the leading and the trailing runs of
   trimmable characters.
   */
  function Trim(s: string): (r: string)
    ensures Trimmed(r)
    ensures LeadingTrimmable(s) + |r| <= |s| && r == s[LeadingTrimmable(s)..LeadingTrimmable(s) + |r|]
  {
    var a := TrimStart(s);
    var r := TrimEnd(a);
    assert r == s[|s| - |a|..|s| - |a| + |r|];
    r
  }

  /** Only trimmable characters are removed, at either end. */
  lemma TrimRemovesTrimmable(s: string)
    ensures forall k :: 0 <= k < LeadingTrimmable(s) ==> IsTrimmable(s[k])
    ensures forall k :: LeadingTrimmable(s) + |Trim(s)| <= k < |s| ==> IsTrimmable(s[k])
  {
    var a := TrimStart(s);
    var r := TrimEnd(a);
    var i := |s| - |a|;
    forall k | i + |r| <= k < |s| ensures IsTrimmable(s[k]) {
      assert s[k] == a[k - i];
    }
  }

  /** The trim is empty exactly when every character is trimmable. */
  lemma {:induction false} TrimEmptyIffAllTrimmable(s: string)
    ensures Trim(s) == [] <==> forall k :: 0 <= k < |s| ==> IsTrimmable(s[k])
  {
    TrimRemovesTrimmable(s);
    var a := TrimStart(s);
    var r := TrimEnd(a);
    if r != [] {
      assert r[0] == a[0] == s[|s| - |a|];
    }
  }

  /** A string without trimmable ends is its own trim. */
  lemma {:induction false} TrimOfTrimmed(s: string)
    requires Trimmed(s)
    ensures Trim(s) == s
  {
    assert TrimStart(s) == s;
    assert TrimEnd(s) == s;
  }

  lemma TrimIdempotent(s: string)
    ensures Trim(Trim(s)) == Trim(s)
  {
    TrimOfTrimmed(Trim(s));
  }

  /** `c.toLowerCase()` for the ASCII letters; every other character is kept. */
  function LowerChar(c: char): char {
    if 'A' <= c <= 'Z' then (c as int - 'A' as int + 'a' as int) as char else c
  }

  /** `s.toLowerCase()`, restricted to the ASCII letters A to Z. */
  function ToLower(s: string): (r: string)
    ensures |r| == |s|
    ensures forall k :: 0 <= k < |s| ==> r[k] == LowerChar(s[k])
  {
    seq(|s|, k requires 0 <= k < |s| => LowerChar(s[k]))
  }

  /** Lower-casing keeps a string free of upper-case ASCII letters once it is. */
  lemma ToLowerIdempotent(s: string)
    ensures ToLower(ToLower(s)) == ToLower(s)
  {
  }

  /** Every character of a lower-cased string is its own lower case. */
  lemma ToLowerIsLower(s: string)
    ensures forall i :: 0 <= i < |ToLower(s)| ==> LowerChar(ToLower(s)[i]) == ToLower(s)[i]
  {
  }

  /** Lower-casing never makes a trimmable character out of another one, or back. */
  lemma ToLowerKeepsTrimmed(s: string)
    requires Trimmed(s)
    ensures Trimmed(ToLower(s))
  {
  }

  /* ---------------------------------------------------------------------
     split on one separator character
     --------------------------------------------------------------------- */

  /** One step of splitting: the parts of `[c] + t` from the parts `rest` of `t`. */
  function SplitStep(c: char, sep: char, rest: seq<string>): (r: seq<string>)
    requires |rest| >= 1
    ensures |r| >= 1
    ensures (forall k :: 0 <= k < |rest| ==> sep !in rest[k]) ==> forall k :: 0 <= k < |r| ==> sep !in r[k]
  {
    if c == sep then [[]] + rest else [[c] + rest[0]] + rest[1..]
  }

  /** `s.split(sep)` for a one-character separator, built from the front of `s`. */
  function Split(s: string, sep: char): (r: seq<string>)
    ensures |r| >= 1
    ensures forall k :: 0 <= k < |r| ==> sep !in r[k]
    decreases |s|
  {
    if |s| == 0 then [[]] else SplitStep(s[0], sep, Split(s[1..], sep))
  }

  /** `parts.join(sep)`. */
  function Join(parts: seq<string>, sep: char): string
    requires |parts| >= 1
  {
    if |parts| == 1 then parts[0] else parts[0] + [sep] + Join(parts[1..], sep)
  }

  /** A step of splitting adds `c` in front of the joined text. */
  lemma {:induction false} JoinSplitStep(c: char, sep: char, rest: seq<string>)
    requires |rest| >= 1
    ensures Join(SplitStep(c, sep, rest), sep) == [c] + Join(rest, sep)
  {
    var q := SplitStep(c, sep, rest);
    if c == sep {
      assert q[1..] == rest;
    } else {
      assert q[0] == [c] + rest[0];
      if |rest| > 1 {
        assert q[1..] == rest[1..];
      }
    }
  }

  /** Splitting and joining again gives back the original string. */
  lemma {:induction false} JoinSplit(s: string, sep: char)
    ensures Join(Split(s, sep), sep) == s
    decreases |s|
  {
    if |s| > 0 {
      JoinSplit(s[1..], sep);
      JoinSplitStep(s[0], sep, Split(s[1..], sep));
      assert s == [s[0]] + s[1..];
    }
  }

  /**
   What the last of the `parts` of `s` is: a suffix of `s` without `sep`, all
   of `s` when there is a single part, and otherwise the text after the last
   `sep`.
   */
  ghost predicate LastPartOf(s: string, sep: char, parts: seq<string>)
    requires |parts| >= 1
  {
    var last := parts[|parts| - 1];
    |last| <= |s| && last == s[|s| - |last|..] && sep !in last &&
    (|parts| == 1 ==> last == s) &&
    (|parts| > 1 ==> |last| < |s| && s[|s| - |last| - 1] == sep)
  }

  lemma {:induction false} LastPartOfStep(s: string, sep: char, rest: seq<string>)
    requires |s| > 0 && |rest| >= 1 && LastPartOf(s[1..], sep, rest)
    ensures LastPartOf(s, sep, SplitStep(s[0], sep, rest))
  {
    var t := s[1..];
    var last := rest[|rest| - 1];
    var parts := SplitStep(s[0], sep, rest);
    assert last == s[|s| - |last|..];
    if s[0] == sep || |rest| > 1 {
      assert parts[|parts| - 1] == last;
      if |last| < |t| {
        assert s[|s| - |last| - 1] == t[|t| - |last| - 1];
      }
    } else {
      assert parts == [[s[0]] + t];
      assert [s[0]] + t == s;
    }
  }

  /** The last element of `s.split(sep)` is the text after the last `sep`, or all of `s`. */
  lemma {:induction false} LastOfSplit(s: string, sep: char)
    ensures LastPartOf(s, sep, Split(s, sep))
    decreases |s|
  {
    if |s| > 0 {
      LastOfSplit(s[1..], sep);
      LastPartOfStep(s, sep, Split(s[1..], sep));
    }
  }
}
