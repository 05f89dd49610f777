/**
 * What the documentation preview extracts from the component source: the
 * component name, the declared props and the emitted events, each read from
 * the first match of a fixed pattern and then cut at commas.
 */
module Extraction {
  import opened Wrappers
  import opened Text
  import opened Patterns

  /** The name shown when the source declares none. */
  const DefaultName: string := "MyComponent"

  /**
   * `nameMatch ? nameMatch[1] : 'MyComponent'`: the group of the match of the
   * name pattern that JavaScript reports, or the default name.
   */
  function ComponentName(code: string): (name: string)
    ensures |name| >= 1 && forall c | c in name :: !IsLineTerminator(c)
    ensures || (exists i: nat, p: nat, j: nat :: NameSelected(code, i, p, j) && name == code[p + 1..j])
            || ((forall i: nat, p: nat, j: nat :: !NameMatch(code, i, p, j)) && name == DefaultName)
  {
    match MatchName(code)
    case Some(n) =>
      NameShape(code, n);
      n
    case None => DefaultName
  }

  lemma NameShape(code: string, n: string)
    requires MatchName(code) == Some(n)
    ensures |n| >= 1 && forall c | c in n :: !IsLineTerminator(c)
  {
    var i: nat, p: nat, j: nat :| NameSelected(code, i, p, j) && n == code[p + 1..j];
    NameGroupShape(code, i, p, j);
  }

  // ---------------------------------------------------------------------------
  // props

  /**
   * `nameMatch ? nameMatch[1] : p` for one trimmed declaration: the leftmost
   * run of word characters followed by a colon, or the whole declaration.
   */
  function PropName(decl: string): (r: string)
    ensures || (exists i: nat, e: nat ::
                  && WordColonMatch(decl, i, e)
                  && (forall i': nat, e': nat | i' < i :: !WordColonMatch(decl, i', e'))
                  && r == decl[i..e])
            || ((forall i: nat, e: nat :: !WordColonMatch(decl, i, e)) && r == decl)
    ensures decl != [] ==> r != []
    ensures forall c | c in r :: c in decl
  {
    match MatchWordColon(decl)
    case Some(w) =>
      WordGroupInside(decl, w);
      w
    case None => decl
  }

  lemma WordGroupInside(decl: string, w: string)
    requires MatchWordColon(decl) == Some(w)
    ensures w != [] && forall c | c in w :: c in decl
  {
    var i: nat, e: nat :| WordColonMatch(decl, i, e) && w == decl[i..e];
    assert w[0] == decl[i];
  }

  /**
   * The props read from the group of a props block: its comma pieces, trimmed,
   * empty ones dropped, each reduced to its prop name. There are at most as
   * many as pieces, none is empty and none holds a comma.
   */
  function PropsOf(group: string): (props: seq<string>)
    ensures |props| <= Occurrences(group, ',') + 1
    ensures forall k | 0 <= k < |props| :: props[k] != [] && ',' !in props[k]
  {
    var pieces := Split(group, ',');
    var trimmed := Map(Trim, pieces);
    var decls := DropEmpty(trimmed);
    assert forall k | 0 <= k < |trimmed| :: ',' !in trimmed[k] by {
      forall k | 0 <= k < |trimmed| ensures ',' !in trimmed[k] {
        assert ',' !in pieces[k];
      }
    }
    assert forall k | 0 <= k < |decls| :: ',' !in decls[k];
    Map(PropName, decls)
  }

  /** A piece without a comma gives its prop name, or nothing when it is blank. */
  lemma PropsOfPiece(x: string)
    requires ',' !in x
    ensures PropsOf(x) == if Trim(x) == [] then [] else [PropName(Trim(x))]
  {
    SplitNoSeparator(x, ',');
    var trimmed := Map(Trim, [x]);
    assert trimmed == [Trim(x)];
    assert DropEmpty(trimmed) == (if trimmed[0] == [] then [] else [trimmed[0]]) + DropEmpty([]);
  }

  /** The props of text on both sides of a comma are those of each side, in order. */
  lemma PropsAcrossComma(a: string, b: string)
    ensures PropsOf(a + [','] + b) == PropsOf(a) + PropsOf(b)
  {
    var pa, pb := Split(a, ','), Split(b, ',');
    SplitAppend(a, ',', b);
    MapAppend(Trim, pa, pb);
    DropEmptyAppend(Map(Trim, pa), Map(Trim, pb));
    MapAppend(PropName, DropEmpty(Map(Trim, pa)), DropEmpty(Map(Trim, pb)));
  }

  /**
   * `props`: read from the group of the first match of `props:\s*{([^}]+)}`,
   * and empty when that pattern matches nowhere.
   */
  function Props(code: string): (props: seq<string>)
    ensures || (exists i: nat, p: nat, j: nat ::
                  && BlockMatch(code, PropsBlock, i, p, j)
                  && (forall i': nat, p': nat, j': nat | i' < i :: !BlockMatch(code, PropsBlock, i', p', j'))
                  && props == PropsOf(code[p + 1..j]))
            || ((forall i: nat, p: nat, j: nat :: !BlockMatch(code, PropsBlock, i, p, j)) && props == [])
    ensures forall k | 0 <= k < |props| :: props[k] != [] && ',' !in props[k]
  {
    var m := MatchBlock(code, PropsBlock);
    if m.Some? then PropsOf(m.value) else []
  }

  // ---------------------------------------------------------------------------
  // emits

  /** `e.trim().replace(/['"]/g, '')` for one piece. */
  function EventName(piece: string): (name: string)
    ensures forall c | c in name :: c in piece && !IsQuote(c)
  {
    RemoveQuotes(Trim(piece))
  }

  /**
   * A quoted event name with white space around it, as in `emits: [ 'close' ]`,
   * gives the bare name.
   */
  lemma EventNameQuoted(before: string, q: char, x: string, after: string)
    requires AllSpace(before) && AllSpace(after)
    requires IsQuote(q) && forall k | 0 <= k < |x| :: !IsQuote(x[k])
    ensures EventName(before + [q] + x + [q] + after) == x
  {
    assert before + [q] + x + [q] + after == before + ([q] + x + [q]) + after;
    TrimPadded(before, [q] + x + [q], after);
    RemoveQuotesQuoted(q, x);
  }

  /**
   * The events read from the group of an emits block: its comma pieces,
   * trimmed and stripped of every quote, empty results dropped. There are at
   * most as many as pieces, and none is empty or holds a quote or a comma.
   */
  function EventsOf(group: string): (events: seq<string>)
    ensures |events| <= Occurrences(group, ',') + 1
    ensures forall k | 0 <= k < |events| ::
      events[k] != [] && ',' !in events[k] && forall c | c in events[k] :: !IsQuote(c)
  {
    var pieces := Split(group, ',');
    var names := Map(EventName, pieces);
    assert forall k | 0 <= k < |names| :: ',' !in names[k] && forall c | c in names[k] :: !IsQuote(c) by {
      forall k | 0 <= k < |names| ensures ',' !in names[k] && forall c | c in names[k] :: !IsQuote(c) {
        assert ',' !in pieces[k];
      }
    }
    DropEmpty(names)
  }

  /** A piece without a comma gives its event name, or nothing when that is empty. */
  lemma EventsOfPiece(x: string)
    requires ',' !in x
    ensures EventsOf(x) == if EventName(x) == [] then [] else [EventName(x)]
  {
    SplitNoSeparator(x, ',');
    var names := Map(EventName, [x]);
    assert names == [EventName(x)];
    assert DropEmpty(names) == (if names[0] == [] then [] else [names[0]]) + DropEmpty([]);
  }

  /** The events of text on both sides of a comma are those of each side, in order. */
  lemma EventsAcrossComma(a: string, b: string)
    ensures EventsOf(a + [','] + b) == EventsOf(a) + EventsOf(b)
  {
    var pa, pb := Split(a, ','), Split(b, ',');
    SplitAppend(a, ',', b);
    MapAppend(EventName, pa, pb);
    DropEmptyAppend(Map(EventName, pa), Map(EventName, pb));
  }

  /**
   * `emits`: read from the group of the first match of `emits:\s*\[([^\]]+)\]`,
   * and empty when that pattern matches nowhere.
   */
  function Events(code: string): (events: seq<string>)
    ensures || (exists i: nat, p: nat, j: nat ::
                  && BlockMatch(code, EmitsBlock, i, p, j)
                  && (forall i': nat, p': nat, j': nat | i' < i :: !BlockMatch(code, EmitsBlock, i', p', j'))
                  && events == EventsOf(code[p + 1..j]))
            || ((forall i: nat, p: nat, j: nat :: !BlockMatch(code, EmitsBlock, i, p, j)) && events == [])
    ensures forall k | 0 <= k < |events| ::
      events[k] != [] && ',' !in events[k] && forall c | c in events[k] :: !IsQuote(c)
  {
    var m := MatchBlock(code, EmitsBlock);
    if m.Some? then EventsOf(m.value) else []
  }
}
