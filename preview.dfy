/**
 * The documentation preview: which of its three views it shows, the fallback
 * description, the synthesised usage example, and the state cells the
 * extraction effect writes.
 */
module Preview {
  import opened Text
  import opened Extraction

  /** The three mutually exclusive views of the preview. */
  datatype View = EmptyState | LoadingState | ContentState

  /**
   * The view for the given inputs (JavaScript truthiness of strings is
   * non-emptiness): the empty state when there is neither code nor
   * description and nothing is loading, otherwise the spinner while loading,
   * otherwise the content.
   */
  function ViewFor(code: string, description: string, isLoading: bool): (v: View)
    ensures v == EmptyState <==> code == [] && description == [] && !isLoading
    ensures v == LoadingState <==> isLoading
    ensures v == ContentState <==> !isLoading && (code != [] || description != [])
  {
    if code == [] && description == [] && !isLoading then EmptyState
    else if isLoading then LoadingState
    else ContentState
  }

  const NoDescription: string := "No description provided."

  /** `description || "No description provided."`: never empty, and the description itself when there is one. */
  function DescriptionShown(description: string): (shown: string)
    ensures shown != []
    ensures description != [] ==> shown == description
    ensures description == [] ==> shown == NoDescription
  {
    if description != [] then description else NoDescription
  }

  // ---------------------------------------------------------------------------
  // the usage example

  /** What separates the attributes of the usage example: a line break and four spaces. */
  const Indent: string := "\n    "

  /** `:${p}="${p}"`: a bound attribute whose name and value are both the prop. */
  function PropAttribute(p: string): (a: string)
    ensures |a| == 2 * |p| + 4
    ensures a[0] == ':' && a[1..|p| + 1] == p
    ensures a[|p| + 3..2 * |p| + 3] == p
  {
    ":" + p + "=\"" + p + "\""
  }

  /**
   * `@${e}="handle${e.charAt(0).toUpperCase() + e.slice(1)}"`: a listener on
   * the event, its handler named after the event.
   */
  function EventAttribute(e: string): (a: string)
    ensures |a| == 2 * |e| + 10
    ensures a[0] == '@' && a[1..|e| + 1] == e
  {
    "@" + e + "=\"handle" + Capitalize(e) + "\""
  }

  /**
   * `${xs.length > 0 ? `\n    ${xs.join('\n    ')}` : ''}`: nothing for no
   * attributes, otherwise text that starts with the indent.
   */
  function AttributeLines(attrs: seq<string>): (lines: string)
    ensures lines == [] <==> attrs == []
    ensures attrs != [] ==> Indent <= lines
  {
    if |attrs| > 0 then Indent + Join(attrs, Indent) else ""
  }

  /**
   * The usage example as the template literal builds it: it opens with
   * `<template>`, the tag and the name, and closes with the self-closing end
   * and `</template>`.
   */
  function UsageExample(name: string, props: seq<string>, emits: seq<string>): (u: string)
    ensures "<template>\n  <" + name + " " <= u
    ensures |u| >= |"\n  />\n</template>"| && u[|u| - |"\n  />\n</template>"|..] == "\n  />\n</template>"
  {
    "<template>\n  <" + name + " "
      + (AttributeLines(Map(PropAttribute, props)) + AttributeLines(Map(EventAttribute, emits)))
      + "\n  />\n</template>"
  }

  /** Every attribute on a line of its own: each one preceded by the indent. */
  function Indented(attrs: seq<string>): string {
    if attrs == [] then "" else Indent + attrs[0] + Indented(attrs[1..])
  }

  lemma {:induction false} IndentedAppend(xs: seq<string>, ys: seq<string>)
    ensures Indented(xs + ys) == Indented(xs) + Indented(ys)
  {
    if xs != [] {
      assert (xs + ys)[1..] == xs[1..] + ys;
      IndentedAppend(xs[1..], ys);
    } else {
      assert xs + ys == ys;
    }
  }

  /** Joining behind one leading indent puts each attribute behind an indent of its own. */
  lemma {:induction false} AttributeLinesIndented(attrs: seq<string>)
    ensures AttributeLines(attrs) == Indented(attrs)
  {
    if |attrs| > 1 {
      AttributeLinesIndented(attrs[1..]);
      assert Indent + Join(attrs, Indent) == Indent + attrs[0] + (Indent + Join(attrs[1..], Indent));
    } else if |attrs| == 1 {
      assert Indented(attrs[1..]) == "";
    }
  }

  /**
   * The usage example is the opening tag, then one indented line per prop
   * (`:p="p"`, in order) followed by one per event (`@e="handleE"`, in
   * order), then the self-closing end.
   */
  lemma UsageExampleShape(name: string, props: seq<string>, emits: seq<string>)
    ensures UsageExample(name, props, emits)
      == "<template>\n  <" + name + " "
         + Indented(Map(PropAttribute, props) + Map(EventAttribute, emits))
         + "\n  />\n</template>"
  {
    var ps, es := Map(PropAttribute, props), Map(EventAttribute, emits);
    AttributeLinesIndented(ps);
    AttributeLinesIndented(es);
    IndentedAppend(ps, es);
  }

  /** With no props and no events the tag line is `  <Name ` followed directly by `\n  />`. */
  lemma UsageExampleBare(name: string)
    ensures UsageExample(name, [], []) == "<template>\n  <" + name + " \n  />\n</template>"
  {
    assert Map(PropAttribute, []) == [];
    assert Map(EventAttribute, []) == [];
  }

  /** The event handler is named `handle` followed by the capitalised event name. */
  lemma EventAttributeHandler(e: string)
    requires e != []
    ensures EventAttribute(e) == "@" + e + "=\"handle" + [UpperAscii(e[0])] + e[1..] + "\""
  {
    assert Capitalize(e) == [UpperAscii(e[0])] + e[1..];
  }

  // ---------------------------------------------------------------------------
  // the state cells

  /** The component's three state cells, written by the extraction effect. */
  class DocumentationPreview {
    var componentName: string
    var props: seq<string>
    var emits: seq<string>

    /** What every extraction leaves in the cells, and what the initial values satisfy. */
    ghost predicate Valid()
      reads this
    {
      && (forall c | c in componentName :: !IsLineTerminator(c))
      && (forall k | 0 <= k < |props| :: props[k] != [] && ',' !in props[k])
      && (forall k | 0 <= k < |emits| ::
            emits[k] != [] && ',' !in emits[k] && forall c | c in emits[k] :: !IsQuote(c))
    }

    /** `useState('')`, `useState([])`, `useState([])`. */
    constructor ()
      ensures Valid()
      ensures componentName == [] && props == [] && emits == []
    {
      componentName, props, emits := [], [], [];
    }

    /**
     * The effect run when `componentCode` changes: with code, the three cells
     * take the extracted name, props and events; with empty code nothing is
     * written and the previous values stay.
     */
    method OnCodeChange(code: string)
      requires Valid()
      modifies this
      ensures Valid()
      ensures code == [] ==> componentName == old(componentName) && props == old(props) && emits == old(emits)
      ensures code != [] ==> componentName == ComponentName(code) && props == Props(code) && emits == Events(code)
    {
      if code != [] {
        componentName := ComponentName(code);
        props := Props(code);
        emits := Events(code);
      }
    }

    /**
     * The usage example the content view shows for the current cells: one
     * indented line per extracted prop, then one per extracted event.
     */
    function Usage(): (u: string)
      reads this
      ensures u == "<template>\n  <" + componentName + " "
        + Indented(Map(PropAttribute, props) + Map(EventAttribute, emits))
        + "\n  />\n</template>"
    {
      UsageExampleShape(componentName, props, emits);
      UsageExample(componentName, props, emits)
    }
  }
}
