/**
 * The documentation form: the code and description the user types, the
 * generate button, the simulated generation that commits a document after a
 * delay, and the notifications it raises. The delayed callback is an explicit
 * `Complete` step; each pending callback remembers the code and description
 * that were current when generation was requested.
 */
module Generation {
  import opened Text
  import Preview

  datatype Variant = Plain | Destructive

  /** A notification handed to the notification service: title, description, variant. */
  datatype Notification = Notification(title: string, description: string, variant: Variant)

  /** The generated document: the committed code and description. */
  datatype Doc = Doc(code: string, description: string)

  const MissingCode: Notification :=
    Notification("Missing component code",
                 "Please enter your Vue component code before generating documentation.",
                 Destructive)

  const Generated: Notification :=
    Notification("Documentation generated",
                 "Your component documentation has been created successfully.",
                 Plain)

  const DefaultDescription: string := "A Vue 3 component."

  const NoDocument: Doc := Doc("", "")

  /** The code has a character that is not white space: `code.trim()` is truthy. */
  ghost predicate HasContent(code: string) {
    !AllSpace(code)
  }

  /** `code.trim()` is non-empty exactly when the code has content. */
  lemma TrimmedIffContent(code: string)
    ensures Trim(code) != [] <==> HasContent(code)
    ensures HasContent(code) <==> exists k :: 0 <= k < |code| && !IsSpace(code[k])
  {
  }

  /** `!code.trim()`: the code is blank. */
  method IsBlank(code: string) returns (blank: bool)
    ensures blank <==> !HasContent(code)
  {
    blank := Trim(code) == [];
  }

  /**
   * The document committed by the delayed callback for the values captured at
   * request time: the same code, and the captured description unless it is
   * empty, in which case the default one.
   */
  function CommittedDoc(captured: Doc): (d: Doc)
    ensures d.code == captured.code
    ensures d.description != []
    ensures captured.description != [] ==> d.description == captured.description
    ensures captured.description == [] ==> d.description == DefaultDescription
  {
    Doc(captured.code, if captured.description != [] then captured.description else DefaultDescription)
  }

  /** `isGenerating || !code.trim()`: disabled while generating and while the code is blank. */
  function ButtonDisabled(code: string, isGenerating: bool): (disabled: bool)
    ensures disabled <==> isGenerating || AllSpace(code)
  {
    isGenerating || Trim(code) == []
  }

  const SubtitleGenerated: string := "Generated documentation for your component"
  const SubtitlePrompt: string := "Enter component details and click generate"

  /** The line under the preview heading: the "generated" text exactly when a document has code. */
  function Subtitle(doc: Doc): (s: string)
    ensures s == SubtitleGenerated <==> doc.code != []
    ensures s == SubtitlePrompt <==> doc.code == []
  {
    if doc.code != [] then SubtitleGenerated else SubtitlePrompt
  }

  /** Scheduling a callback for code with content keeps every pending callback's code with content. */
  lemma PendingAppend(pending: seq<Doc>, d: Doc)
    requires forall k | 0 <= k < |pending| :: HasContent(pending[k].code)
    requires HasContent(d.code)
    ensures forall k | 0 <= k < |pending + [d]| :: HasContent((pending + [d])[k].code)
  {
    forall k | 0 <= k < |pending + [d]| ensures HasContent((pending + [d])[k].code) {
      if k < |pending| {
        assert (pending + [d])[k] == pending[k];
      }
    }
  }

  class DocumentationForm {
    var code: string
    var description: string
    var isGenerating: bool
    var generatedDoc: Doc
    /** Every notification raised so far, oldest first. */
    var notifications: seq<Notification>
    /** The delayed callbacks not yet run, in the order they fire, each with its captured values. */
    var pending: seq<Doc>

    /**
     * What holds whatever the order of requests and callbacks: every pending
     * callback captured code with content, a flag that is up has a callback
     * still to run, and the document is the initial empty one or a committed
     * one.
     */
    ghost predicate Valid()
      reads this
    {
      && (forall k | 0 <= k < |pending| :: HasContent(pending[k].code))
      && (isGenerating ==> pending != [])
      && (generatedDoc == NoDocument || (HasContent(generatedDoc.code) && generatedDoc.description != []))
    }

    /**
     * What holds when requests only come through the button: at most one
     * callback is pending, and exactly while the flag is up.
     */
    ghost predicate Single()
      reads this
    {
      |pending| <= 1 && (isGenerating <==> |pending| == 1)
    }

    /** The four state cells at their initial values; nothing raised, nothing pending. */
    constructor ()
      ensures Valid() && Single()
      ensures code == [] && description == [] && !isGenerating && generatedDoc == NoDocument
      ensures notifications == [] && pending == []
    {
      code, description, isGenerating, generatedDoc := [], [], false, NoDocument;
      notifications, pending := [], [];
    }

    /** The editor's `onChange`: only the code changes. */
    method SetCode(c: string)
      requires Valid()
      modifies this
      ensures Valid()
      ensures code == c
      ensures description == old(description) && isGenerating == old(isGenerating) && generatedDoc == old(generatedDoc)
      ensures notifications == old(notifications) && pending == old(pending)
    {
      code := c;
    }

    /** The description text area's `onChange`: only the description changes. */
    method SetDescription(d: string)
      requires Valid()
      modifies this
      ensures Valid()
      ensures description == d
      ensures code == old(code) && isGenerating == old(isGenerating) && generatedDoc == old(generatedDoc)
      ensures notifications == old(notifications) && pending == old(pending)
    {
      description := d;
    }

    /**
     * `handleGenerate`. Blank code: one destructive notification and nothing
     * else changes. Otherwise the flag goes up and a callback is scheduled
     * with the current code and description; the document is not touched.
     */
    method HandleGenerate()
      requires Valid()
      modifies this
      ensures Valid()
      ensures code == old(code) && description == old(description) && generatedDoc == old(generatedDoc)
      ensures !HasContent(code) ==>
        isGenerating == old(isGenerating) && notifications == old(notifications) + [MissingCode] && pending == old(pending)
      ensures HasContent(code) ==>
        isGenerating && notifications == old(notifications) && pending == old(pending) + [Doc(code, description)]
    {
      var captured := Doc(code, description);
      var blank := IsBlank(captured.code);
      if blank {
        notifications := notifications + [MissingCode];
      } else {
        PendingAppend(pending, captured);
        isGenerating := true;
        pending := pending + [captured];
      }
    }

    /**
     * A click on the generate button: nothing happens while it is disabled,
     * otherwise `handleGenerate` runs, and then it always takes the
     * generating branch. Clicks keep at most one callback pending, and the
     * preview shows its loading view right after a click that started one.
     */
    method Click()
      requires Valid() && Single()
      modifies this
      ensures Valid() && Single()
      ensures code == old(code) && description == old(description) && generatedDoc == old(generatedDoc)
      ensures notifications == old(notifications)
      ensures ButtonDisabled(code, old(isGenerating)) ==> isGenerating == old(isGenerating) && pending == old(pending)
      ensures !ButtonDisabled(code, old(isGenerating)) ==>
        && isGenerating && pending == [Doc(code, description)]
        && Preview.ViewFor(generatedDoc.code, generatedDoc.description, isGenerating) == Preview.LoadingState
    {
      if !ButtonDisabled(code, isGenerating) {
        HandleGenerate();
      }
    }

    /**
     * The delayed callback that fires first: it commits the document for its
     * captured values, lowers the flag and raises one success notification.
     * The preview then shows the content view with the committed
     * description, and the subtitle announces the generated document.
     */
    method Complete()
      requires Valid() && pending != []
      modifies this
      ensures Valid()
      ensures old(Single()) ==> Single()
      ensures generatedDoc == CommittedDoc(old(pending[0]))
      ensures !isGenerating
      ensures notifications == old(notifications) + [Generated]
      ensures pending == old(pending[1..])
      ensures code == old(code) && description == old(description)
      ensures HasContent(generatedDoc.code) && generatedDoc.description != []
      ensures Preview.ViewFor(generatedDoc.code, generatedDoc.description, isGenerating) == Preview.ContentState
      ensures Preview.DescriptionShown(generatedDoc.description) == generatedDoc.description
      ensures Subtitle(generatedDoc) == SubtitleGenerated
    {
      var captured := pending[0];
      assert HasContent(captured.code);
      pending := pending[1..];
      generatedDoc := CommittedDoc(captured);
      isGenerating := false;
      notifications := notifications + [Generated];
    }
  }
}
