/**
 The lab page: three editors (HTML, CSS, JavaScript) whose text is kept in
 three storage slots and combined into the document of the live preview,
 and the Tab key, which inserts two spaces in place of the selection.
 */
module Lab {
  import opened Text
  import opened Storage
  import opened Preview
  import opened Theme

  const HtmlSlot := "veltrix_lab_html"
  const CssSlot := "veltrix_lab_css"
  const JsSlot := "veltrix_lab_js"

  /** The starter texts an editor shows while its slot is missing or empty. */
  const DefaultHtml: string :=
    "<!DOCTYPE html>\n"
    + "<html lang=\"en\">\n"
    + "<head>\n"
    + "  <meta charset=\"UTF-8\">\n"
    + "  <meta name=\"viewport\" content=\"width=device-width, initial-scale=1.0\">\n"
    + "  <title>My Project</title>\n"
    + "  <style>\n"
    + "    /* CSS from the CSS tab will be injected here */\n"
    + "  </style>\n"
    + "</head>\n"
    + "<body>\n"
    + "  <h1>Hello, Veltrix IDE!</h1>\n"
    + "  <p>Start building something amazing.</p>\n"
    + "</body>\n"
    + "</html>"
  const DefaultCss: string :=
    "body {\n"
    + "  font-family: sans-serif;\n"
    + "  padding: 2rem;\n"
    + "  background: #f5f5f5;\n"
    + "  color: #222;\n"
    + "}\n"
    + "\n"
    + "h1 {\n"
    + "  font-size: 2rem;\n"
    + "  margin-bottom: 0.5rem;\n"
    + "}"
  const DefaultJs: string :=
    "// JavaScript goes here\n"
    + "console.log(\"Veltrix IDE \U{2014} ready!\");\n"
    + "\n"
    + "document.addEventListener('DOMContentLoaded', () => {\n"
    + "  // Your code here\n"
    + "});"

  /**
   The Tab key's edit of an editor's text: the selection from `start` to
   `end` is replaced by two spaces; the text before and after it is kept.
   */
  function Indent(text: string, start: nat, end: nat): (r: string)
    requires start <= end <= |text|
    ensures |r| == |text| - (end - start) + 2
    ensures r[..start] == text[..start]
    ensures r[start..start + 2] == "  "
    ensures r[start + 2..] == text[end..]
  {
    text[..start] + "  " + text[end..]
  }

  /** Taking the two spaces out again leaves the text with the selection deleted. */
  lemma {:induction false} IndentThenUnindent(text: string, start: nat, end: nat)
    requires start <= end <= |text|
    ensures var r := Indent(text, start, end);
            r[..start] + r[start + 2..] == text[..start] + text[end..]
  {
  }

  /** With an empty selection nothing is lost: the text grows by the two spaces only. */
  lemma {:induction false} IndentAtCaret(text: string, caret: nat)
    requires caret <= |text|
    ensures var r := Indent(text, caret, caret);
            |r| == |text| + 2 && r[..caret] + r[caret + 2..] == text
  {
    IndentThenUnindent(text, caret, caret);
    assert text[..caret] + text[caret..] == text;
  }

  /** A `<textarea>`: its text and its selection. */
  class Editor {
    var value: string
    var selectionStart: nat
    var selectionEnd: nat

    ghost predicate Valid()
      reads this
    {
      selectionStart <= selectionEnd <= |value|
    }

    /** Assigning `value` puts the caret at the end of the new text. */
    constructor (text: string)
      ensures value == text && selectionStart == |text| && selectionEnd == |text|
      ensures Valid()
    {
      value := text;
      selectionStart := |text|;
      selectionEnd := |text|;
    }

    /** The `keydown` handler for Tab: two spaces replace the selection and the caret follows them. */
    method PressTab()
      requires Valid()
      modifies this
      ensures value == Indent(old(value), old(selectionStart), old(selectionEnd))
      ensures selectionStart == old(selectionStart) + 2 && selectionEnd == selectionStart
      ensures Valid()
    {
      var start := selectionStart;
      var end := selectionEnd;
      value := value[..start] + "  " + value[end..];
      selectionEnd := start + 2;
      selectionStart := selectionEnd;
    }
  }

  /** The slots after `updatePreview` saved the three texts. */
  function Saved(slots: map<string, string>, html: string, css: string, js: string): (r: map<string, string>)
    ensures r.Keys == slots.Keys + {HtmlSlot, CssSlot, JsSlot}
    ensures r[HtmlSlot] == html && r[CssSlot] == css && r[JsSlot] == js
    ensures forall k :: k in slots && k !in {HtmlSlot, CssSlot, JsSlot} ==> r[k] == slots[k]
  {
    slots[HtmlSlot := html][CssSlot := css][JsSlot := js]
  }

  /**
   What `initLab` loads after an `updatePreview` saved the three texts: each
   saved text comes back unchanged, and its starter text when it was empty.
   */
  lemma {:induction false} ReloadRestoresEditors(slots: map<string, string>, html: string, css: string, js: string)
    ensures var s := Saved(slots, html, css, js);
            ItemOr(s, HtmlSlot, DefaultHtml) == (if html == [] then DefaultHtml else html) &&
            ItemOr(s, CssSlot, DefaultCss) == (if css == [] then DefaultCss else css) &&
            ItemOr(s, JsSlot, DefaultJs) == (if js == [] then DefaultJs else js)
  {
    var s := Saved(slots, html, css, js);
    assert s[HtmlSlot] == html && s[CssSlot] == css && s[JsSlot] == js;
  }

  /** Saving the editors does not change the stored theme. */
  lemma {:induction false} SavingKeepsTheme(slots: map<string, string>, html: string, css: string, js: string)
    ensures StoredTheme(Saved(slots, html, css, js)) == StoredTheme(slots)
  {
    OtherSlotKeepsTheme(slots, HtmlSlot, html);
    OtherSlotKeepsTheme(slots[HtmlSlot := html], CssSlot, css);
    OtherSlotKeepsTheme(slots[HtmlSlot := html][CssSlot := css], JsSlot, js);
  }

  /** The lab's editors, its storage and the document last handed to the preview frame. */
  class Workspace {
    const html: Editor
    const css: Editor
    const js: Editor
    const store: LocalStorage
    var preview: Option<string>

    ghost predicate Valid()
      reads this, html, css, js
    {
      html != css && html != js && css != js &&
      html.Valid() && css.Valid() && js.Valid()
    }

    /**
     `initLab`: each editor shows its saved text, or its starter text when
     the slot is missing or empty; the preview frame is still empty.
     */
    constructor (storage: LocalStorage)
      ensures store == storage && preview == None
      ensures html.value == ItemOr(storage.slots, HtmlSlot, DefaultHtml) && html.value != []
      ensures css.value == ItemOr(storage.slots, CssSlot, DefaultCss) && css.value != []
      ensures js.value == ItemOr(storage.slots, JsSlot, DefaultJs) && js.value != []
      ensures fresh(html) && fresh(css) && fresh(js)
      ensures Valid()
    {
      store := storage;
      html := new Editor(ItemOr(storage.slots, HtmlSlot, DefaultHtml));
      css := new Editor(ItemOr(storage.slots, CssSlot, DefaultCss));
      js := new Editor(ItemOr(storage.slots, JsSlot, DefaultJs));
      preview := None;
    }

    /**
     `updatePreview`: the three texts are saved to their slots, and the
     preview shows the composed document. The editors are not touched.
     */
    method UpdatePreview()
      requires Valid()
      modifies store, this`preview
      ensures Valid()
      ensures store.slots == Saved(old(store.slots), html.value, css.value, js.value)
      ensures preview == Some(Compose(html.value, css.value, js.value))
    {
      var h := html.value;
      var c := css.value;
      var j := js.value;
      store.SetItem(HtmlSlot, h);
      store.SetItem(CssSlot, c);
      store.SetItem(JsSlot, j);
      preview := Some(Compose(h, c, j));
    }
  }
}
