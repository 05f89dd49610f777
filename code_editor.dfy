/**
 * The code editor's Tab handling: the selection is replaced by two spaces and
 * the caret is put right after them. Also the character count and the
 * "has content" indicator under the editor.
 */
module CodeEditing {

  /** JavaScript's clamping of a `substring` argument into `[0, n]`. */
  function Clamp(x: int, n: nat): (r: nat)
    ensures r <= n
    ensures 0 <= x <= n ==> r == x
    ensures x < 0 ==> r == 0
    ensures x > n ==> r == n
  {
    if x < 0 then 0 else if x > n then n else x
  }

  /**
   * `s.substring(a, b)`: both arguments are clamped into `[0, |s|]` and, when
   * the first is the larger, the two are swapped.
   */
  function Substring(s: string, a: int, b: int): (r: string)
    ensures |r| <= |s|
    ensures 0 <= a <= b <= |s| ==> r == s[a..b]
  {
    var x, y := Clamp(a, |s|), Clamp(b, |s|);
    if x <= y then s[x..y] else s[y..x]
  }

  /**
   * `value.substring(0, start) + '  ' + value.substring(end)`: the text up to
   * `start` and the text from `end`, each cut at the end of the text, with two
   * spaces between them.
   */
  function TabSplice(value: string, start: nat, end: nat): (r: string)
    ensures r == value[..Clamp(start, |value|)] + "  " + value[Clamp(end, |value|)..]
  {
    Substring(value, 0, start) + "  " + Substring(value, end, |value|)
  }

  /**
   * For a selection inside the text, the splice replaces `[start, end)` by
   * two spaces: the part before the selection and the part after it survive
   * unchanged, the two spaces sit at `start`, the length changes by
   * `2 - (end - start)`, and taking the two spaces back out leaves the text
   * with the selection deleted. The caret position `start + 2` is inside the
   * new text.
   */
  lemma TabSpliceReplacesSelection(value: string, start: nat, end: nat)
    requires start <= end <= |value|
    ensures TabSplice(value, start, end) == value[..start] + "  " + value[end..]
    ensures |TabSplice(value, start, end)| == |value| - (end - start) + 2
    ensures TabSplice(value, start, end)[..start] == value[..start]
    ensures TabSplice(value, start, end)[start..start + 2] == "  "
    ensures TabSplice(value, start, end)[start + 2..] == value[end..]
    ensures TabSplice(value, start, end)[..start] + TabSplice(value, start, end)[start + 2..]
         == value[..start] + value[end..]
    ensures start + 2 <= |TabSplice(value, start, end)|
  {
    var r := TabSplice(value, start, end);
    assert Substring(value, 0, start) == value[..start];
    assert Substring(value, end, |value|) == value[end..];
    assert r == value[..start] + "  " + value[end..];
    assert r[..start] == value[..start];
    assert r[start + 2..] == value[end..];
  }

  /** With an empty selection the splice is a plain insertion of two spaces at the caret. */
  lemma TabAtCaretInserts(value: string, caret: nat)
    requires caret <= |value|
    ensures TabSplice(value, caret, caret) == value[..caret] + "  " + value[caret..]
    ensures |TabSplice(value, caret, caret)| == |value| + 2
  {
    TabSpliceReplacesSelection(value, caret, caret);
  }

  /** The count shown as "N characters": zero exactly for empty text. */
  function CharacterCount(value: string): (n: nat)
    ensures n == 0 <==> value == []
  {
    |value|
  }

  /** The green dot: lit when the count is positive, that is, exactly when there is text. */
  function IndicatorActive(value: string): (lit: bool)
    ensures lit <==> value != []
  {
    CharacterCount(value) > 0
  }

  /** After a Tab the text always has content, so the indicator is lit. */
  lemma TabLightsIndicator(value: string, start: nat, end: nat)
    requires start <= end <= |value|
    ensures CharacterCount(TabSplice(value, start, end)) == CharacterCount(value) - (end - start) + 2
    ensures IndicatorActive(TabSplice(value, start, end))
  {
    TabSpliceReplacesSelection(value, start, end);
  }

  /**
   * The text area the handler acts on: the controlled value and the
   * selection, which the browser keeps inside the text.
   */
  class CodeEditor {
    var value: string
    var selectionStart: nat
    var selectionEnd: nat

    ghost predicate Valid()
      reads this
    {
      selectionStart <= selectionEnd <= |value|
    }

    constructor (initial: string, start: nat, end: nat)
      requires start <= end <= |initial|
      ensures Valid()
      ensures value == initial && selectionStart == start && selectionEnd == end
    {
      value, selectionStart, selectionEnd := initial, start, end;
    }

    /**
     * `handleKeyDown`: on Tab the value becomes the splice and both ends of
     * the selection move to `start + 2`; any other key leaves everything as
     * it was.
     */
    method HandleKeyDown(key: string)
      requires Valid()
      modifies this
      ensures Valid()
      ensures key == "Tab" ==>
        && value == TabSplice(old(value), old(selectionStart), old(selectionEnd))
        && selectionStart == old(selectionStart) + 2
        && selectionEnd == old(selectionStart) + 2
      ensures key != "Tab" ==>
        value == old(value) && selectionStart == old(selectionStart) && selectionEnd == old(selectionEnd)
    {
      if key == "Tab" {
        var start, end := selectionStart, selectionEnd;
        TabSpliceReplacesSelection(value, start, end);
        value := TabSplice(value, start, end);
        selectionStart := start + 2;
        selectionEnd := start + 2;
      }
    }
  }
}
