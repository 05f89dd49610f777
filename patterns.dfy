/**
 * The regular expressions of the extraction effect, written as explicit searches.
 *
 *   name:\s*['"](.+?)['"]          the component name
 *   props:\s*{([^}]+)}             the props block
 *   emits:\s*\[([^\]]+)\]          the emits block
 *   (\w+):                         the name inside one prop declaration
 *
 * For each pattern a ghost predicate says when it matches at a given start with
 * its parts at given positions (the language of the pattern), and a function
 * finds the match that JavaScript's non-global `String.prototype.match`
 * reports: the leftmost start, and at that start the alternative a
 * backtracking matcher tries first (greedy quantifiers longest, lazy ones
 * shortest). The functions' contracts state both: the result is a match, no
 * start before it has one, and it is the preferred match at its start; and
 * when the result is None, there is no match anywhere.
 */
module Patterns {
  import opened Wrappers
  import opened Text

  /** `s` holds the literal `w` at offset `i`. */
  predicate HasAt(s: string, i: nat, w: string) {
    i + |w| <= |s| && s[i..i + |w|] == w
  }

  /** How far a greedy `\s*` started at `i` reaches: the end of the white-space run there. */
  function SpaceRunEnd(s: string, i: nat): (e: nat)
    requires i <= |s|
    ensures i <= e <= |s|
    ensures forall k | i <= k < e :: IsSpace(s[k])
    ensures e == |s| || !IsSpace(s[e])
    decreases |s| - i
  {
    if i < |s| && IsSpace(s[i]) then SpaceRunEnd(s, i + 1) else i
  }

  /**
   * A run of white space from `a` ending right before a character that is not
   * white space can only be the whole run: a `\s*` followed by a non-space
   * literal has exactly one way to match.
   */
  lemma {:induction false} SpaceRunForced(s: string, a: nat, p: nat)
    requires a <= p < |s|
    requires forall k | a <= k < p :: IsSpace(s[k])
    requires !IsSpace(s[p])
    ensures SpaceRunEnd(s, a) == p
    decreases p - a
  {
    if a < p {
      SpaceRunForced(s, a + 1, p);
    }
  }

  // ---------------------------------------------------------------------------
  // name:\s*['"](.+?)['"]

  /** No line terminator in `s[a..b]`. */
  ghost predicate NoBreak(s: string, a: nat, b: nat)
    requires a <= b <= |s|
  {
    forall m | a <= m < b :: !IsLineTerminator(s[m])
  }

  /**
   * The name pattern matches at `i`: `name:` at `i`, white space up to `p`, a
   * quote at `p`, the group `s[p + 1..j]` (at least one character, none a line
   * terminator) and a quote at `j`.
   */
  ghost predicate NameMatch(s: string, i: nat, p: nat, j: nat) {
    && HasAt(s, i, "name:")
    && i + 5 <= p && p + 1 < j < |s|
    && (forall k | i + 5 <= k < p :: IsSpace(s[k]))
    && IsQuote(s[p])
    && NoBreak(s, p + 1, j)
    && IsQuote(s[j])
  }

  /**
   * The match a backtracking matcher reports: the leftmost start, and at that
   * start the longest `\s*` and then the shortest `.+?`.
   */
  ghost predicate NameSelected(s: string, i: nat, p: nat, j: nat) {
    && NameMatch(s, i, p, j)
    && (forall i': nat, p': nat, j': nat | i' < i :: !NameMatch(s, i', p', j'))
    && (forall p': nat, j': nat | NameMatch(s, i, p', j') :: p' < p || (p' == p && j <= j'))
  }

  /**
   * Where a lazy `.+?` whose later characters start at `k` stops: the first
   * quote at or after `k`, provided no line terminator comes before it.
   */
  function LazyQuote(s: string, k: nat): (r: Option<nat>)
    requires k <= |s|
    ensures r.Some? ==> k <= r.value < |s| && IsQuote(s[r.value])
    ensures r.Some? ==> forall m | k <= m < r.value :: !IsQuote(s[m]) && !IsLineTerminator(s[m])
    ensures r.None? ==> forall j | k <= j < |s| && IsQuote(s[j]) :: !NoBreak(s, k, j)
    decreases |s| - k
  {
    if k == |s| then None
    else if IsQuote(s[k]) then Some(k)
    else if IsLineTerminator(s[k]) then None
    else LazyQuote(s, k + 1)
  }

  /** The preferred match of the name pattern at start `i`, as the pair `(p, j)`. */
  function NameAt(s: string, i: nat): (r: Option<(nat, nat)>)
    requires i <= |s|
    ensures r.Some? ==> NameMatch(s, i, r.value.0, r.value.1)
    ensures r.Some? ==> forall p: nat, j: nat | NameMatch(s, i, p, j) :: p == r.value.0 && r.value.1 <= j
    ensures r.None? ==> forall p: nat, j: nat :: !NameMatch(s, i, p, j)
  {
    if !HasAt(s, i, "name:") then None
    else
      var p := SpaceRunEnd(s, i + 5);
      if p + 1 < |s| && IsQuote(s[p]) && !IsLineTerminator(s[p + 1]) then
        match LazyQuote(s, p + 2)
        case Some(j) =>
          NameAtFound(s, i, p, j);
          Some((p, j))
        case None =>
          NameAtNone(s, i, p);
          None
      else
        NameAtShort(s, i, p);
        None
  }

  /** Any match of the name pattern at `i` has its opening quote where the white space ends. */
  lemma NameMatchForced(s: string, i: nat, p: nat, j: nat)
    requires i + 5 <= |s|
    ensures NameMatch(s, i, p, j) ==> p == SpaceRunEnd(s, i + 5) && NoBreak(s, p + 2, j)
  {
    if NameMatch(s, i, p, j) {
      SpaceRunForced(s, i + 5, p);
    }
  }

  lemma NameAtFound(s: string, i: nat, p: nat, j: nat)
    requires HasAt(s, i, "name:") && p == SpaceRunEnd(s, i + 5)
    requires p + 1 < |s| && IsQuote(s[p]) && !IsLineTerminator(s[p + 1])
    requires LazyQuote(s, p + 2) == Some(j)
    ensures NameMatch(s, i, p, j)
    ensures forall p': nat, j': nat | NameMatch(s, i, p', j') :: p' == p && j <= j'
  {
    forall p': nat, j': nat | NameMatch(s, i, p', j') ensures p' == p && j <= j' {
      NameMatchForced(s, i, p', j');
    }
  }

  lemma NameAtNone(s: string, i: nat, p: nat)
    requires HasAt(s, i, "name:") && p == SpaceRunEnd(s, i + 5)
    requires p + 1 < |s| && IsQuote(s[p])
    requires LazyQuote(s, p + 2).None?
    ensures forall p': nat, j': nat :: !NameMatch(s, i, p', j')
  {
    forall p': nat, j': nat ensures !NameMatch(s, i, p', j') {
      NameMatchForced(s, i, p', j');
    }
  }

  lemma NameAtShort(s: string, i: nat, p: nat)
    requires HasAt(s, i, "name:") && p == SpaceRunEnd(s, i + 5)
    requires !(p + 1 < |s| && IsQuote(s[p]) && !IsLineTerminator(s[p + 1]))
    ensures forall p': nat, j': nat :: !NameMatch(s, i, p', j')
  {
    forall p': nat, j': nat ensures !NameMatch(s, i, p', j') {
      NameMatchForced(s, i, p', j');
    }
  }

  /** The leftmost match of the name pattern starting at or after `from`, as `(i, p, j)`. */
  function NameFrom(s: string, from: nat): (r: Option<(nat, nat, nat)>)
    requires from <= |s|
    ensures r.Some? ==> from <= r.value.0 <= |s| && NameAt(s, r.value.0) == Some((r.value.1, r.value.2))
    ensures r.Some? ==> forall i: nat, p: nat, j: nat | from <= i < r.value.0 :: !NameMatch(s, i, p, j)
    ensures r.None? ==> forall i: nat, p: nat, j: nat | from <= i :: !NameMatch(s, i, p, j)
    decreases |s| - from
  {
    var here := NameAt(s, from);
    if here.Some? then Some((from, here.value.0, here.value.1))
    else if from == |s| then None
    else NameFrom(s, from + 1)
  }

  /**
   * `s.match(/name:\s*['"](.+?)['"]/)`: the group of the match JavaScript
   * reports, or None when the pattern matches nowhere.
   */
  function MatchName(s: string): (r: Option<string>)
    ensures r.Some? ==> exists i: nat, p: nat, j: nat :: NameSelected(s, i, p, j) && r.value == s[p + 1..j]
    ensures r.None? <==> forall i: nat, p: nat, j: nat :: !NameMatch(s, i, p, j)
  {
    match NameFrom(s, 0)
    case Some((i, p, j)) =>
      assert NameSelected(s, i, p, j);
      Some(s[p + 1..j])
    case None => None
  }

  /** What the name group can hold: at least one character and no line terminator. */
  lemma NameGroupShape(s: string, i: nat, p: nat, j: nat)
    requires NameMatch(s, i, p, j)
    ensures |s[p + 1..j]| >= 1
    ensures forall c | c in s[p + 1..j] :: !IsLineTerminator(c)
  {
    var g := s[p + 1..j];
    assert forall k | 0 <= k < |g| :: g[k] == s[p + 1 + k];
  }

  // ---------------------------------------------------------------------------
  // props:\s*{([^}]+)}  and  emits:\s*\[([^\]]+)\]

  /** The two bracketed blocks the extraction looks for. */
  datatype Block = PropsBlock | EmitsBlock {
    function Keyword(): string {
      match this
      case PropsBlock => "props:"
      case EmitsBlock => "emits:"
    }
    function Opener(): char {
      match this
      case PropsBlock => '{'
      case EmitsBlock => '['
    }
    function Closer(): char {
      match this
      case PropsBlock => '}'
      case EmitsBlock => ']'
    }
  }

  /**
   * The block pattern matches at `i`: the keyword at `i`, white space up to
   * `p`, the opener at `p`, the group `s[p + 1..j]` (at least one character,
   * none the closer) and the closer at `j`.
   */
  ghost predicate BlockMatch(s: string, b: Block, i: nat, p: nat, j: nat) {
    && HasAt(s, i, b.Keyword())
    && i + 6 <= p && p + 1 < j < |s|
    && (forall k | i + 6 <= k < p :: IsSpace(s[k]))
    && s[p] == b.Opener()
    && (forall k | p + 1 <= k < j :: s[k] != b.Closer())
    && s[j] == b.Closer()
  }

  /** The first occurrence of `c` at or after `k`. */
  function FindChar(s: string, k: nat, c: char): (r: Option<nat>)
    requires k <= |s|
    ensures r.Some? ==> k <= r.value < |s| && s[r.value] == c
    ensures r.Some? ==> forall m | k <= m < r.value :: s[m] != c
    ensures r.None? ==> forall m | k <= m < |s| :: s[m] != c
    decreases |s| - k
  {
    if k == |s| then None
    else if s[k] == c then Some(k)
    else FindChar(s, k + 1, c)
  }

  /**
   * The match of the block pattern at start `i`, as `(p, j)`. There is at most
   * one: the white space runs to the opener, and the greedy `[^}]+` runs to the
   * first closer.
   */
  function BlockAt(s: string, b: Block, i: nat): (r: Option<(nat, nat)>)
    requires i <= |s|
    ensures r.Some? ==> BlockMatch(s, b, i, r.value.0, r.value.1)
    ensures r.Some? ==> forall p: nat, j: nat | BlockMatch(s, b, i, p, j) :: p == r.value.0 && j == r.value.1
    ensures r.None? ==> forall p: nat, j: nat :: !BlockMatch(s, b, i, p, j)
  {
    if !HasAt(s, i, b.Keyword()) then None
    else
      var p := SpaceRunEnd(s, i + 6);
      if p < |s| && s[p] == b.Opener() then
        match FindChar(s, p + 1, b.Closer())
        case Some(j) =>
          BlockAtFound(s, b, i, p, j);
          if p + 1 < j then Some((p, j)) else None
        case None =>
          BlockAtNone(s, b, i, p);
          None
      else
        BlockAtNoOpener(s, b, i, p);
        None
  }

  /**
   * Any match of a block pattern at `i` has its opener where the white space
   * ends and its closer at the first closer after the opener.
   */
  lemma BlockMatchForced(s: string, b: Block, i: nat, p: nat, j: nat)
    requires i + 6 <= |s|
    ensures BlockMatch(s, b, i, p, j) ==>
      && p == SpaceRunEnd(s, i + 6)
      && FindChar(s, p + 1, b.Closer()) == Some(j)
  {
    if BlockMatch(s, b, i, p, j) {
      SpaceRunForced(s, i + 6, p);
      var r := FindChar(s, p + 1, b.Closer());
      assert r.Some? by {
        assert s[j] == b.Closer();
      }
    }
  }

  lemma BlockAtFound(s: string, b: Block, i: nat, p: nat, j: nat)
    requires HasAt(s, i, b.Keyword()) && p == SpaceRunEnd(s, i + 6)
    requires p < |s| && s[p] == b.Opener()
    requires FindChar(s, p + 1, b.Closer()) == Some(j)
    ensures p + 1 < j ==> BlockMatch(s, b, i, p, j)
    ensures forall p': nat, j': nat | BlockMatch(s, b, i, p', j') :: p' == p && j' == j
  {
    forall p': nat, j': nat | BlockMatch(s, b, i, p', j') ensures p' == p && j' == j {
      BlockMatchForced(s, b, i, p', j');
    }
  }

  lemma BlockAtNone(s: string, b: Block, i: nat, p: nat)
    requires HasAt(s, i, b.Keyword()) && p == SpaceRunEnd(s, i + 6)
    requires p < |s| && s[p] == b.Opener()
    requires FindChar(s, p + 1, b.Closer()).None?
    ensures forall p': nat, j': nat :: !BlockMatch(s, b, i, p', j')
  {
    forall p': nat, j': nat ensures !BlockMatch(s, b, i, p', j') {
      BlockMatchForced(s, b, i, p', j');
    }
  }

  lemma BlockAtNoOpener(s: string, b: Block, i: nat, p: nat)
    requires HasAt(s, i, b.Keyword()) && p == SpaceRunEnd(s, i + 6)
    requires !(p < |s| && s[p] == b.Opener())
    ensures forall p': nat, j': nat :: !BlockMatch(s, b, i, p', j')
  {
    forall p': nat, j': nat ensures !BlockMatch(s, b, i, p', j') {
      BlockMatchForced(s, b, i, p', j');
    }
  }

  /** The leftmost match of the block pattern starting at or after `from`, as `(i, p, j)`. */
  function BlockFrom(s: string, b: Block, from: nat): (r: Option<(nat, nat, nat)>)
    requires from <= |s|
    ensures r.Some? ==> from <= r.value.0 <= |s| && BlockAt(s, b, r.value.0) == Some((r.value.1, r.value.2))
    ensures r.Some? ==> forall i: nat, p: nat, j: nat | from <= i < r.value.0 :: !BlockMatch(s, b, i, p, j)
    ensures r.None? ==> forall i: nat, p: nat, j: nat | from <= i :: !BlockMatch(s, b, i, p, j)
    decreases |s| - from
  {
    var here := BlockAt(s, b, from);
    if here.Some? then Some((from, here.value.0, here.value.1))
    else if from == |s| then None
    else BlockFrom(s, b, from + 1)
  }

  /**
   * `s.match(/props:\s*{([^}]+)}/s)` (resp. the emits pattern): the group of the
   * leftmost match, or None when the pattern matches nowhere.
   */
  function MatchBlock(s: string, b: Block): (r: Option<string>)
    ensures r.Some? ==> exists i: nat, p: nat, j: nat ::
      && BlockMatch(s, b, i, p, j)
      && (forall i': nat, p': nat, j': nat | i' < i :: !BlockMatch(s, b, i', p', j'))
      && r.value == s[p + 1..j]
    ensures r.None? <==> forall i: nat, p: nat, j: nat :: !BlockMatch(s, b, i, p, j)
  {
    match BlockFrom(s, b, 0)
    case Some((i, p, j)) => Some(s[p + 1..j])
    case None => None
  }

  /** What a block group can hold: at least one character and never its closer. */
  lemma BlockGroupShape(s: string, b: Block, i: nat, p: nat, j: nat)
    requires BlockMatch(s, b, i, p, j)
    ensures |s[p + 1..j]| >= 1 && b.Closer() !in s[p + 1..j]
  {
    var g := s[p + 1..j];
    assert forall k | 0 <= k < |g| :: g[k] == s[p + 1 + k];
  }

  // ---------------------------------------------------------------------------
  // (\w+):

  /** `(\w+):` matches at `i` with the group `s[i..e]` and the colon at `e`. */
  ghost predicate WordColonMatch(s: string, i: nat, e: nat) {
    && i < e < |s|
    && (forall k | i <= k < e :: IsWordChar(s[k]))
    && s[e] == ':'
  }

  /** How far a greedy `\w+` started at `i` reaches: the end of the word run there. */
  function WordRunEnd(s: string, i: nat): (e: nat)
    requires i <= |s|
    ensures i <= e <= |s|
    ensures forall k | i <= k < e :: IsWordChar(s[k])
    ensures e == |s| || !IsWordChar(s[e])
    decreases |s| - i
  {
    if i < |s| && IsWordChar(s[i]) then WordRunEnd(s, i + 1) else i
  }

  /** The match of `(\w+):` at `i`, as the end `e` of its group; there is at most one. */
  function WordColonAt(s: string, i: nat): (r: Option<nat>)
    requires i <= |s|
    ensures r.Some? ==> WordColonMatch(s, i, r.value)
    ensures r.Some? ==> forall e: nat | WordColonMatch(s, i, e) :: e == r.value
    ensures r.None? ==> forall e: nat :: !WordColonMatch(s, i, e)
  {
    var e := WordRunEnd(s, i);
    WordColonForced(s, i, e);
    if i < e < |s| && s[e] == ':' then Some(e) else None
  }

  /** A run of word characters ending before a character that is not one is the whole run. */
  lemma {:induction false} WordRunForced(s: string, a: nat, e: nat)
    requires a <= e < |s|
    requires forall k | a <= k < e :: IsWordChar(s[k])
    requires !IsWordChar(s[e])
    ensures WordRunEnd(s, a) == e
    decreases e - a
  {
    if a < e {
      WordRunForced(s, a + 1, e);
    }
  }

  lemma WordColonForced(s: string, i: nat, e: nat)
    requires i <= |s| && e == WordRunEnd(s, i)
    ensures forall e': nat | WordColonMatch(s, i, e') :: e' == e
  {
    forall e': nat | WordColonMatch(s, i, e') ensures e' == e {
      WordRunForced(s, i, e');
    }
  }

  /** The leftmost match of `(\w+):` starting at or after `from`, as `(i, e)`. */
  function WordColonFrom(s: string, from: nat): (r: Option<(nat, nat)>)
    requires from <= |s|
    ensures r.Some? ==> from <= r.value.0 && WordColonMatch(s, r.value.0, r.value.1)
    ensures r.Some? ==> forall i: nat, e: nat | from <= i < r.value.0 :: !WordColonMatch(s, i, e)
    ensures r.None? ==> forall i: nat, e: nat | from <= i :: !WordColonMatch(s, i, e)
    decreases |s| - from
  {
    var here := WordColonAt(s, from);
    if here.Some? then Some((from, here.value))
    else if from == |s| then None
    else WordColonFrom(s, from + 1)
  }

  /**
   * `s.match(/(\w+):/)`: the group of the leftmost match (a run of word
   * characters), or None when no word run is followed by a colon.
   */
  function MatchWordColon(s: string): (r: Option<string>)
    ensures r.Some? ==> exists i: nat, e: nat ::
      && WordColonMatch(s, i, e)
      && (forall i': nat, e': nat | i' < i :: !WordColonMatch(s, i', e'))
      && r.value == s[i..e]
    ensures r.None? <==> forall i: nat, e: nat :: !WordColonMatch(s, i, e)
  {
    match WordColonFrom(s, 0)
    case Some((i, e)) => Some(s[i..e])
    case None => None
  }
}
