/**
 * The JavaScript string operations the extraction code relies on, over sequences of
 * code points: the character classes `\s`, `.` and `\w`, `trim`, `split` on one
 * character, `join`, removing every quote, and capitalising a first letter.
 */
module Text {

  /** An ECMAScript LineTerminator: a character the regular-expression `.` does not match. */
  predicate IsLineTerminator(c: char) {
    c == '\n' || c == '\r' || c == '\U{2028}' || c == '\U{2029}'
  }

  /**
   * An ECMAScript WhiteSpace or LineTerminator character: the class `\s`, and
   * what `String.prototype.trim` removes from both ends.
   */
  predicate IsSpace(c: char) {
    || IsLineTerminator(c)
    || c == '\t' || c == '\U{000B}' || c == '\U{000C}' || c == ' ' || c == '\U{00A0}'
    || c == '\U{1680}' || ('\U{2000}' <= c <= '\U{200A}') || c == '\U{202F}'
    || c == '\U{205F}' || c == '\U{3000}' || c == '\U{FEFF}'
  }

  /** The class `\w`. */
  predicate IsWordChar(c: char) {
    ('a' <= c <= 'z') || ('A' <= c <= 'Z') || ('0' <= c <= '9') || c == '_'
  }

  /** The class `['"]`. */
  predicate IsQuote(c: char) {
    c == '\'' || c == '"'
  }

  ghost predicate AllSpace(s: string) {
    forall k | 0 <= k < |s| :: IsSpace(s[k])
  }

  // ---------------------------------------------------------------------------
  // trim

  /** Drops the leading white space. */
  function TrimStart(s: string): (t: string)
    ensures |t| <= |s| && t == s[|s| - |t|..]
    ensures AllSpace(s[..|s| - |t|])
    ensures t == [] || !IsSpace(t[0])
  {
    if s != [] && IsSpace(s[0]) then TrimStart(s[1..]) else s
  }

  /** Drops the trailing white space. */
  function TrimEnd(s: string): (t: string)
    ensures |t| <= |s| && t == s[..|t|]
    ensures AllSpace(s[|t|..])
    ensures t == [] || !IsSpace(t[|t| - 1])
  {
    if s != [] && IsSpace(s[|s| - 1]) then TrimEnd(s[..|s| - 1]) else s
  }

  /**
   * `s.trim()`: the part of `s` left between its leading and its trailing white
   * space. It is empty exactly when `s` is all white space.
   */
  function Trim(s: string): (t: string)
    ensures |t| <= |s|
    ensures t == [] || (!IsSpace(t[0]) && !IsSpace(t[|t| - 1]))
    ensures t == [] <==> AllSpace(s)
    ensures forall c | c in t :: c in s
  {
    var u := TrimStart(s);
    var t := TrimEnd(u);
    assert s == s[..|s| - |u|] + u;
    assert t == [] ==> AllSpace(u);
    t
  }

  /** The offset in `s` at which `Trim(s)` starts. */
  function TrimOffset(s: string): (a: nat)
    ensures a + |Trim(s)| <= |s|
  {
    |s| - |TrimStart(s)|
  }

  /** `Trim(s)` is the infix of `s` at `TrimOffset(s)`, with only white space around it. */
  lemma TrimIsInfix(s: string)
    ensures var a, t := TrimOffset(s), Trim(s);
      && s[a..a + |t|] == t
      && AllSpace(s[..a]) && AllSpace(s[a + |t|..])
  {
    var u := TrimStart(s);
    var a, t := TrimOffset(s), Trim(s);
    assert u == s[a..];
    assert t == u[..|t|];
    assert s[a + |t|..] == u[|t|..];
  }

  /**
   * Any cut of `s` into white space, an infix that neither starts nor ends with
   * white space, and white space is the cut `Trim` makes.
   */
  lemma TrimUnique(s: string, a: nat, b: nat)
    requires a <= b <= |s|
    requires AllSpace(s[..a]) && AllSpace(s[b..])
    requires a == b || (!IsSpace(s[a]) && !IsSpace(s[b - 1]))
    ensures Trim(s) == s[a..b]
  {
    if a == b {
      AllSpaceJoin(s, a);
    } else {
      TrimStartUnique(s, a);
      TrimEndOfSuffix(s, a, b);
    }
  }

  /** White space around a text whose ends are not white space is exactly what trimming removes. */
  lemma TrimPadded(before: string, t: string, after: string)
    requires AllSpace(before) && AllSpace(after)
    requires t != [] && !IsSpace(t[0]) && !IsSpace(t[|t| - 1])
    ensures Trim(before + t + after) == t
  {
    var s := before + t + after;
    var a, b := |before|, |before| + |t|;
    assert s[..a] == before && s[a..b] == t && s[b..] == after;
    assert s[a] == t[0] && s[b - 1] == t[|t| - 1];
    TrimUnique(s, a, b);
  }

  lemma TrimEndOfSuffix(s: string, a: nat, b: nat)
    requires a < b <= |s| && AllSpace(s[b..]) && !IsSpace(s[b - 1])
    ensures TrimEnd(s[a..]) == s[a..b]
  {
    var u := s[a..];
    assert u[b - a..] == s[b..];
    assert u[b - a - 1] == s[b - 1];
    TrimEndUnique(u, b - a);
  }

  lemma AllSpaceJoin(s: string, a: nat)
    requires a <= |s| && AllSpace(s[..a]) && AllSpace(s[a..])
    ensures AllSpace(s)
  {
    forall k | 0 <= k < |s| ensures IsSpace(s[k]) {
      if k < a { assert s[k] == s[..a][k]; } else { assert s[k] == s[a..][k - a]; }
    }
  }

  lemma {:induction false} TrimStartUnique(s: string, a: nat)
    requires a < |s| && AllSpace(s[..a]) && !IsSpace(s[a])
    ensures TrimStart(s) == s[a..]
  {
    if a > 0 {
      assert IsSpace(s[..a][0]);
      assert s[1..][..a - 1] == s[1..a];
      assert s[1..][a - 1] == s[a];
      TrimStartUnique(s[1..], a - 1);
      assert s[1..][a - 1..] == s[a..];
    }
  }

  lemma {:induction false} TrimEndUnique(s: string, b: nat)
    requires 0 < b <= |s| && AllSpace(s[b..]) && !IsSpace(s[b - 1])
    ensures TrimEnd(s) == s[..b]
    decreases |s|
  {
    if b < |s| {
      assert IsSpace(s[b..][|s| - 1 - b]);
      var s' := s[..|s| - 1];
      assert s'[b..] == s[b..|s| - 1];
      assert s'[b - 1] == s[b - 1];
      TrimEndUnique(s', b);
      assert s'[..b] == s[..b];
    }
  }

  // ---------------------------------------------------------------------------
  // split and join

  function Occurrences(s: string, c: char): nat {
    if s == [] then 0 else (if s[0] == c then 1 else 0) + Occurrences(s[1..], c)
  }

  /**
   * `s.split(sep)` for a one-character separator: the pieces between the
   * separators, empty pieces kept; `k` separators give `k + 1` pieces.
   */
  function Split(s: string, sep: char): (parts: seq<string>)
    ensures |parts| == Occurrences(s, sep) + 1
    ensures forall k | 0 <= k < |parts| :: sep !in parts[k]
  {
    if s == [] then [[]]
    else
      var rest := Split(s[1..], sep);
      if s[0] == sep then [[]] + rest else [[s[0]] + rest[0]] + rest[1..]
  }

  /** The pieces of two texts joined by a separator are the pieces of each, in order. */
  lemma {:induction false} SplitAppend(a: string, sep: char, b: string)
    ensures Split(a + [sep] + b, sep) == Split(a, sep) + Split(b, sep)
  {
    if a == [] {
      assert a + [sep] + b == [sep] + b;
      assert ([sep] + b)[1..] == b;
    } else {
      var whole := a + [sep] + b;
      assert whole[0] == a[0];
      assert whole[1..] == a[1..] + [sep] + b;
      SplitAppend(a[1..], sep, b);
    }
  }

  /** The last element of a non-empty sequence. */
  function Last<T>(xs: seq<T>): T
    requires xs != []
  {
    xs[|xs| - 1]
  }

  /** `parts.join(sep)`. */
  function Join(parts: seq<string>, sep: string): string {
    if parts == [] then []
    else if |parts| == 1 then parts[0]
    else parts[0] + sep + Join(parts[1..], sep)
  }

  /** A join starts with its first part and ends with its last. */
  lemma {:induction false} JoinEnds(parts: seq<string>, sep: string)
    requires parts != []
    ensures parts[0] <= Join(parts, sep)
    ensures |Join(parts, sep)| >= |Last(parts)|
    ensures Join(parts, sep)[|Join(parts, sep)| - |Last(parts)|..] == Last(parts)
  {
    if |parts| > 1 {
      var rest := Join(parts[1..], sep);
      JoinEnds(parts[1..], sep);
      assert Last(parts[1..]) == Last(parts);
      assert Join(parts, sep) == parts[0] + sep + rest;
      assert (parts[0] + sep + rest)[|parts[0] + sep + rest| - |Last(parts)|..] == rest[|rest| - |Last(parts)|..];
    }
  }

  /** Joining the pieces of a split with the separator gives back the text. */
  lemma {:induction false} JoinSplit(s: string, sep: char)
    ensures Join(Split(s, sep), [sep]) == s
  {
    if s != [] {
      var rest := Split(s[1..], sep);
      JoinSplit(s[1..], sep);
      if s[0] == sep {
        assert Split(s, sep) == [[]] + rest;
      } else {
        var parts := Split(s, sep);
        assert parts == [[s[0]] + rest[0]] + rest[1..];
        if |rest| == 1 {
          assert Join(parts, [sep]) == [s[0]] + rest[0];
        } else {
          assert parts[1..] == rest[1..];
          assert Join(parts, [sep]) == [s[0]] + rest[0] + [sep] + Join(rest[1..], [sep]);
        }
      }
    }
  }

  /** Splitting a join of separator-free pieces gives back the pieces. */
  lemma {:induction false} SplitJoin(parts: seq<string>, sep: char)
    requires |parts| >= 1
    requires forall k | 0 <= k < |parts| :: sep !in parts[k]
    ensures Split(Join(parts, [sep]), sep) == parts
  {
    if |parts| == 1 {
      SplitNoSeparator(parts[0], sep);
    } else {
      var rest := parts[1..];
      var joined := Join(rest, [sep]);
      assert forall k | 0 <= k < |rest| :: rest[k] == parts[k + 1];
      SplitJoin(rest, sep);
      SplitPrefix(parts[0], sep, joined);
      assert Join(parts, [sep]) == parts[0] + [sep] + joined;
      assert [parts[0]] + rest == parts;
    }
  }

  lemma {:induction false} SplitNoSeparator(s: string, sep: char)
    requires sep !in s
    ensures Split(s, sep) == [s]
  {
    if s != [] {
      assert sep !in s[1..] by { assert forall k | 0 <= k < |s| - 1 :: s[1..][k] == s[k + 1]; }
      SplitNoSeparator(s[1..], sep);
      assert [s[0]] + s[1..] == s;
    }
  }

  lemma {:induction false} SplitPrefix(x: string, sep: char, rest: string)
    requires sep !in x
    ensures Split(x + [sep] + rest, sep) == [x] + Split(rest, sep)
  {
    if x == [] {
      assert [] + [sep] + rest == [sep] + rest;
      assert ([sep] + rest)[1..] == rest;
    } else {
      assert sep !in x[1..] by { assert forall k | 0 <= k < |x| - 1 :: x[1..][k] == x[k + 1]; }
      SplitPrefix(x[1..], sep, rest);
      var whole := x + [sep] + rest;
      assert whole[0] == x[0];
      assert whole[1..] == x[1..] + [sep] + rest;
      assert [x[0]] + x[1..] == x;
    }
  }

  // ---------------------------------------------------------------------------
  // filtering, mapping, quotes, case

  /** `xs.map(f)`. */
  function Map<A, B>(f: A -> B, xs: seq<A>): (r: seq<B>)
    ensures |r| == |xs| && forall k | 0 <= k < |xs| :: r[k] == f(xs[k])
  {
    if xs == [] then [] else [f(xs[0])] + Map(f, xs[1..])
  }

  lemma {:induction false} MapAppend<A, B>(f: A -> B, xs: seq<A>, ys: seq<A>)
    ensures Map(f, xs + ys) == Map(f, xs) + Map(f, ys)
  {
    if xs != [] {
      assert (xs + ys)[1..] == xs[1..] + ys;
      MapAppend(f, xs[1..], ys);
    } else {
      assert xs + ys == ys;
    }
  }

  /** `xs.filter(x => x.length > 0)`. */
  function DropEmpty(xs: seq<string>): (r: seq<string>)
    ensures |r| <= |xs|
    ensures forall k | 0 <= k < |r| :: r[k] != [] && r[k] in xs
  {
    if xs == [] then []
    else (if xs[0] == [] then [] else [xs[0]]) + DropEmpty(xs[1..])
  }

  /** What `DropEmpty` keeps: exactly the non-empty entries. */
  lemma {:induction false} DropEmptyMembers(xs: seq<string>, x: string)
    ensures x in DropEmpty(xs) <==> x in xs && x != []
  {
    if xs != [] {
      DropEmptyMembers(xs[1..], x);
      assert xs == [xs[0]] + xs[1..];
    }
  }

  /** What `RemoveQuotes` keeps: exactly the characters that are not quotes. */
  lemma {:induction false} RemoveQuotesMembers(s: string, c: char)
    ensures c in RemoveQuotes(s) <==> c in s && !IsQuote(c)
  {
    if s != [] {
      RemoveQuotesMembers(s[1..], c);
      assert s == [s[0]] + s[1..];
    }
  }

  /** Filtering distributes over concatenation, so it keeps the order of what it keeps. */
  lemma {:induction false} DropEmptyAppend(xs: seq<string>, ys: seq<string>)
    ensures DropEmpty(xs + ys) == DropEmpty(xs) + DropEmpty(ys)
  {
    if xs != [] {
      assert (xs + ys)[1..] == xs[1..] + ys;
      DropEmptyAppend(xs[1..], ys);
    } else {
      assert xs + ys == ys;
    }
  }

  /** `s.replace(/['"]/g, '')`: every quote removed, the other characters kept in order. */
  function RemoveQuotes(s: string): (r: string)
    ensures |r| <= |s|
    ensures forall c | c in r :: c in s && !IsQuote(c)
  {
    if s == [] then []
    else (if IsQuote(s[0]) then [] else [s[0]]) + RemoveQuotes(s[1..])
  }

  /** Quote removal works piece by piece: on a concatenation it is the removal from each part, in order. */
  lemma {:induction false} RemoveQuotesAppend(a: string, b: string)
    ensures RemoveQuotes(a + b) == RemoveQuotes(a) + RemoveQuotes(b)
  {
    if a == [] {
      assert a + b == b;
    } else {
      var head := if IsQuote(a[0]) then [] else [a[0]];
      var ab := a + b;
      assert ab[0] == a[0] && ab[1..] == a[1..] + b;
      var x, y := RemoveQuotes(a[1..]), RemoveQuotes(b);
      RemoveQuotesAppend(a[1..], b);
      calc {
        RemoveQuotes(ab);
        head + RemoveQuotes(a[1..] + b);
        head + (x + y);
        { assert head + (x + y) == (head + x) + y; }
        (head + x) + y;
      }
    }
  }

  /** On one character: a quote vanishes, any other character stays. */
  lemma RemoveQuotesChar(c: char)
    ensures RemoveQuotes([c]) == if IsQuote(c) then [] else [c]
  {
    assert [c][1..] == [];
  }

  /** Text without quotes is left exactly as it is. */
  lemma {:induction false} RemoveQuotesNoQuote(s: string)
    requires forall k | 0 <= k < |s| :: !IsQuote(s[k])
    ensures RemoveQuotes(s) == s
  {
    if s != [] {
      assert forall k | 0 <= k < |s[1..]| :: s[1..][k] == s[k + 1];
      RemoveQuotesNoQuote(s[1..]);
      assert [s[0]] + s[1..] == s;
    }
  }

  /** A quote-free text between two quotes comes out bare. */
  lemma RemoveQuotesQuoted(q: char, x: string)
    requires IsQuote(q) && forall k | 0 <= k < |x| :: !IsQuote(x[k])
    ensures RemoveQuotes([q] + x + [q]) == x
  {
    RemoveQuotesAppend([q] + x, [q]);
    RemoveQuotesAppend([q], x);
    RemoveQuotesChar(q);
    RemoveQuotesNoQuote(x);
  }

  /** `toUpperCase` on one character, restricted to the ASCII letters. */
  function UpperAscii(c: char): (u: char)
    ensures 'a' <= c <= 'z' ==> 'A' <= u <= 'Z' && u as int - c as int == 'A' as int - 'a' as int
    ensures !('a' <= c <= 'z') ==> u == c
  {
    if 'a' <= c <= 'z' then (c as int - 'a' as int + 'A' as int) as char else c
  }

  /** `e.charAt(0).toUpperCase() + e.slice(1)`. */
  function Capitalize(e: string): (r: string)
    ensures |r| == |e|
    ensures e != [] ==> r[0] == UpperAscii(e[0]) && r[1..] == e[1..]
  {
    if e == [] then [] else [UpperAscii(e[0])] + e[1..]
  }
}
