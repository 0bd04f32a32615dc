/**
 The live-preview document of the lab page: the HTML editor's text with the
 CSS editor's text spliced in as a style block before the first `</head>`,
 and then the JavaScript editor's text spliced in as a script block before
 the first `</body>` of the result. Both splices are `String.prototype.replace`
 calls with a string pattern, so only the first marker is used, a missing
 marker silently drops the block, and `$` patterns in the editors' text are
 expanded as replacement patterns.
 */
module Preview {
  import opened Text

  const HeadClose := "</head>"
  const BodyClose := "</body>"

  /** The replacement text of the first splice. */
  function StyleBlock(css: string): string {
    "<style>" + css + "</style></head>"
  }

  /** The replacement text of the second splice. */
  function ScriptBlock(js: string): string {
    "<script>" + js + "</script></body>"
  }

  /** The document handed to the preview frame. */
  function Compose(html: string, css: string, js: string): string {
    ReplaceFirst(ReplaceFirst(html, HeadClose, StyleBlock(css)), BodyClose, ScriptBlock(js))
  }

  /**
   Without either closing marker the HTML text is the whole document: the CSS
   and the JavaScript are dropped, not appended.
   */
  lemma NoMarkersDropsStyleAndScript(html: string, css: string, js: string)
    requires IndexOf(html, HeadClose).None? && IndexOf(html, BodyClose).None?
    ensures Compose(html, css, js) == html
  {
  }

  /**
   When the editors' text holds no `$`, the first splice puts the style block
   exactly in place of the first `</head>`, and everything before and after it
   is kept as it is.
   */
  lemma {:induction false} StyleSplice(html: string, css: string, i: nat)
    requires '$' !in css
    requires IndexOf(html, HeadClose) == Some(i)
    ensures ReplaceFirst(html, HeadClose, StyleBlock(css)) ==
            html[..i] + StyleBlock(css) + html[i + |HeadClose|..]
  {
    assert '$' !in "<style>" && '$' !in "</style></head>";
    assert '$' !in StyleBlock(css);
  }

  /** The same for the second splice and the first `</body>`. */
  lemma {:induction false} ScriptSplice(doc: string, js: string, j: nat)
    requires '$' !in js
    requires IndexOf(doc, BodyClose) == Some(j)
    ensures ReplaceFirst(doc, BodyClose, ScriptBlock(js)) ==
            doc[..j] + ScriptBlock(js) + doc[j + |BodyClose|..]
  {
    assert '$' !in "<script>" && '$' !in "</script></body>";
    assert '$' !in ScriptBlock(js);
  }

  /**
   The general shape of the document when the CSS and the JavaScript hold no
   `$`: the style block replaces the first `</head>` of the HTML, and the
   script block then replaces the first `</body>` of that intermediate text,
   which may lie inside the CSS just spliced in.
   */
  lemma {:induction false} ComposeSplices(html: string, css: string, js: string, i: nat, j: nat)
    requires '$' !in css && '$' !in js
    requires IndexOf(html, HeadClose) == Some(i)
    requires IndexOf(html[..i] + StyleBlock(css) + html[i + |HeadClose|..], BodyClose) == Some(j)
    ensures var mid := html[..i] + StyleBlock(css) + html[i + |HeadClose|..];
            Compose(html, css, js) == mid[..j] + ScriptBlock(js) + mid[j + |BodyClose|..]
  {
    StyleSplice(html, css, i);
    ScriptSplice(html[..i] + StyleBlock(css) + html[i + |HeadClose|..], js, j);
  }

  /** In the page `<head></head><body></body>` the first `</head>` starts at index 6. */
  lemma MinimalPageHead()
    ensures IndexOf("<head>" + HeadClose + "<body>" + BodyClose, HeadClose) == Some(6)
  {
    var rest := HeadClose + "<body>" + BodyClose;
    assert rest[..|HeadClose|] == HeadClose;
    IndexOfIs(rest, HeadClose, 0);
    IndexOfAfterPiece("<head>", rest, HeadClose);
    assert "<head>" + rest == "<head>" + HeadClose + "<body>" + BodyClose;
  }

  /** The text of the style splice rules out every start of `</body>` when the CSS has no `<`. */
  lemma StyledHeadRulesOutBody(css: string)
    requires '<' !in css
    ensures RulesOutStarts("<head>" + StyleBlock(css) + "<body>", BodyClose)
  {
    RulesOutStartsWithoutFirstChar(css, BodyClose);
    assert RulesOutStarts("<head>", BodyClose);
    assert RulesOutStarts("<style>", BodyClose);
    assert RulesOutStarts("</style></head>", BodyClose);
    assert RulesOutStarts("<body>", BodyClose);
    RulesOutStartsConcat("<head>", "<style>", BodyClose);
    RulesOutStartsConcat("<head>" + "<style>", css, BodyClose);
    RulesOutStartsConcat("<head>" + "<style>" + css, "</style></head>", BodyClose);
    RulesOutStartsConcat("<head>" + "<style>" + css + "</style></head>", "<body>", BodyClose);
    assert "<head>" + "<style>" + css + "</style></head>" + "<body>" == "<head>" + StyleBlock(css) + "<body>";
  }

  /**
   For the page `<head></head><body></body>`, and CSS without `<` or `$` and
   JavaScript without `$`, the style block stands where the `</head>` was,
   the script block where the `</body>` was, and the text around them is
   untouched.
   */
  lemma {:induction false} SimplePage(css: string, js: string)
    requires '<' !in css && '$' !in css && '$' !in js
    ensures Compose("<head>" + HeadClose + "<body>" + BodyClose, css, js) ==
            "<head>" + StyleBlock(css) + "<body>" + ScriptBlock(js)
  {
    var html := "<head>" + HeadClose + "<body>" + BodyClose;
    MinimalPageHead();
    StyleSplice(html, css, 6);
    assert html[..6] == "<head>";
    assert html[13..] == "<body>" + BodyClose;
    var p := "<head>" + StyleBlock(css) + "<body>";
    var mid := p + BodyClose;
    assert ReplaceFirst(html, HeadClose, StyleBlock(css)) == mid;
    StyledHeadRulesOutBody(css);
    NoStartInPiece(p, BodyClose, BodyClose);
    assert mid[|p|..|p| + |BodyClose|] == BodyClose;
    IndexOfIs(mid, BodyClose, |p|);
    ScriptSplice(mid, js, |p|);
    assert mid[..|p|] == p;
    assert mid[|p| + |BodyClose|..] == [];
  }

  /**
   The minimal page with the CSS `c` and the JavaScript `j` becomes
   `<head><style>c</style></head><body><script>j</script></body>`.
   */
  lemma MinimalPage()
    ensures Compose("<head>" + HeadClose + "<body>" + BodyClose, "c", "j") ==
            "<head>" + StyleBlock("c") + "<body>" + ScriptBlock("j")
  {
    SimplePage("c", "j");
  }

  // The script template of `a + "$$" + b` yields the script block of `a + "$" + b`.
  lemma DollarPairTemplate(doc: string, j: nat, a: string, b: string)
    requires j + |BodyClose| <= |doc|
    requires '$' !in a && '$' !in b
    ensures Substitution(BodyClose, doc, j, ScriptBlock(a + "$$" + b)) == ScriptBlock(a + "$" + b)
  {
    var pre := "<script>" + a;
    var post := b + "</script></body>";
    assert ScriptBlock(a + "$$" + b) == pre + ("$$" + post);
    assert '$' !in pre && '$' !in post;
    SubstitutionOfOneDollarPair(BodyClose, doc, j, pre, post);
    assert pre + ("$" + post) == ScriptBlock(a + "$" + b);
  }

  /**
   A `$$` in the JavaScript reaches the preview as a single `$`: the script
   text is a replacement template, not a literal. Here the JavaScript is
   `a + "$$" + b` with no other `$`.
   */
  lemma ScriptDollarPairCollapses(doc: string, j: nat, a: string, b: string)
    requires IndexOf(doc, BodyClose) == Some(j)
    requires '$' !in a && '$' !in b
    ensures ReplaceFirst(doc, BodyClose, ScriptBlock(a + "$$" + b)) ==
            doc[..j] + ScriptBlock(a + "$" + b) + doc[j + |BodyClose|..]
  {
    DollarPairTemplate(doc, j, a, b);
  }

  // The script template of `a + "$&" + b` yields the script block of `a + "</body>" + b`.
  lemma MatchRefTemplate(doc: string, j: nat, a: string, b: string)
    requires j + |BodyClose| <= |doc|
    requires '$' !in a && '$' !in b
    ensures Substitution(BodyClose, doc, j, ScriptBlock(a + "$&" + b)) == ScriptBlock(a + BodyClose + b)
  {
    var pre := "<script>" + a;
    var post := b + "</script></body>";
    assert ScriptBlock(a + "$&" + b) == pre + ("$&" + post);
    assert '$' !in pre && '$' !in post;
    SubstitutionOfOneMatchRef(BodyClose, doc, j, pre, post);
    assert pre + (BodyClose + post) == ScriptBlock(a + BodyClose + b);
  }

  /**
   A `$&` in the JavaScript reaches the preview as the marker itself: the
   script text then contains a `</body>`, which ends the script element early
   in the browser's parse.
   */
  lemma ScriptMatchRefRepeatsMarker(doc: string, j: nat, a: string, b: string)
    requires IndexOf(doc, BodyClose) == Some(j)
    requires '$' !in a && '$' !in b
    ensures ReplaceFirst(doc, BodyClose, ScriptBlock(a + "$&" + b)) ==
            doc[..j] + ScriptBlock(a + BodyClose + b) + doc[j + |BodyClose|..]
  {
    MatchRefTemplate(doc, j, a, b);
  }
}
