/** The repository's own rendering rules layered over markdown-it: the
    source-line annotation pass of `render`, the overrides for `link_open`,
    `heading_open`, `math_block`, `math_block_eqno` and `fence`, and the
    `highlight` callback. markdown-it itself (parsing, `renderToken`, the
    default rules, `renderer.render`) and highlight.js enter as function
    parameters. */
module MarkdownIt {
  import opened Wrappers
  import opened Text
  import opened Tokens

  const LineBeginAttr := "data-line-begin"

  /** A JavaScript template literal's rendering of `attrGet(...)`:
      a missing attribute (`null`) prints as `null`. */
  function AttrText(v: Option<string>): string {
    match v
    case Some(s) => s
    case None => "null"
  }

  /** The `data-line-begin="..."` attribute text every wrapper embeds. */
  function LineBeginText(v: Option<string>): string {
    LineBeginAttr + "=\"" + AttrText(v) + "\""
  }

  // ---------------------------------------------------------------------
  // highlight option (markdownit.ts lines 19-29)

  /** What markdown-it's `highlight` option yields for one fenced block.
      `None`: the `--syntax` flag is off, so no callback is installed.
      Otherwise `""` for an empty or unknown language (markdown-it then
      escapes the block itself), the highlighted markup for a known one, and
      the raw code when highlight.js throws (`highlight` returning `None`). */
  function Highlight(syntax: bool, code: string, language: string,
                     getLanguage: string -> bool,
                     highlight: (string, string) -> Option<string>): (r: Option<string>)
    ensures r.None? <==> !syntax
    ensures syntax && (language == "" || !getLanguage(language)) ==> r == Some("")
    ensures syntax && language != "" && getLanguage(language) ==>
      r == Some(if highlight(code, language).Some? then highlight(code, language).value else code)
  {
    if !syntax then None
    else if language != "" && getLanguage(language) then
      match highlight(code, language)
      case Some(value) => Some(value)
      case None => Some(code)
    else Some("")
  }

  // ---------------------------------------------------------------------
  // link_open (markdownit.ts lines 39-50)

  const NeutralHref := "javascript:return"

  /** `href && href.startsWith('#')`: an in-document anchor. */
  predicate IsAnchorHref(href: Option<string>) {
    href.Some? && StartsWith(href.value, "#")
  }

  /** The attribute edits of the `link_open` rule. The href always becomes
      the no-op target; `onclick` is set to the anchor jump exactly when the
      original href was an anchor and is otherwise as it was; no other
      attribute or field changes. */
  function SandboxLink(t: Token): (r: Token)
    ensures AttrGet(r, "href") == Some(NeutralHref)
    ensures IsAnchorHref(AttrGet(t, "href")) ==>
      AttrGet(r, "onclick") == Some("location.hash='" + AttrGet(t, "href").value + "'")
    ensures !IsAnchorHref(AttrGet(t, "href")) ==> AttrGet(r, "onclick") == AttrGet(t, "onclick")
    ensures forall other :: other != "href" && other != "onclick" ==> AttrGet(r, other) == AttrGet(t, other)
    ensures r.level == t.level && r.srcMap == t.srcMap && r.content == t.content
  {
    var href := AttrGet(t, "href");
    var t1 := if IsAnchorHref(href) then AttrSet(t, "onclick", "location.hash='" + href.value + "'") else t;
    AttrSet(t1, "href", NeutralHref)
  }

  /** Example: an external link loses its target
      and gets no handler. */
  lemma ExternalLinkExample(t: Token)
    requires t.attrs == [("href", "http://example.com")]
    ensures SandboxLink(t).attrs == [("href", NeutralHref)]
  {
    assert AttrGet(t, "href") == Some("http://example.com");
    assert "http://example.com"[0] == 'h';
    assert !IsAnchorHref(AttrGet(t, "href"));
  }

  /** Example: an anchor link gets the client-side
      jump beside its neutralised target, and nothing else. */
  lemma AnchorLinkExample(t: Token)
    requires t.attrs == [("href", "#section")]
    ensures var r := SandboxLink(t);
      |r.attrs| == 2 && AttrGet(r, "href") == Some(NeutralHref) &&
      AttrGet(r, "onclick") == Some("location.hash='#section'")
  {
    assert AttrGet(t, "href") == Some("#section");
    assert IsAnchorHref(AttrGet(t, "href"));
    assert AttrGet(t, "onclick") == None;
    assert "location.hash='" + "#section" + "'" == "location.hash='#section'";
  }

  /** The `link_open` rule: edits `tokens[idx]` in place, then renders it
      with markdown-it's `renderToken`. */
  method LinkOpen(tokens: array<Token>, idx: nat, renderToken: (seq<Token>, nat) -> string)
    returns (html: string)
    requires idx < tokens.Length
    modifies tokens
    ensures tokens[..] == old(tokens[..])[idx := SandboxLink(old(tokens[idx]))]
    ensures html == renderToken(tokens[..], idx)
  {
    tokens[idx] := SandboxLink(tokens[idx]);
    html := renderToken(tokens[..], idx);
  }

  // ---------------------------------------------------------------------
  // heading_open (markdownit.ts lines 52-65)

  predicate IsSlugChar(c: char) {
    'a' <= c <= 'z' || '0' <= c <= '9' || c == '-'
  }

  /** The characters `/[^a-z0-9-]/gi` does not match. Without the `u` flag,
      case-insensitive matching only folds ASCII letters onto `a-z`. */
  predicate IsKept(c: char) {
    'a' <= c <= 'z' || 'A' <= c <= 'Z' || '0' <= c <= '9' || c == '-'
  }

  /** `.replace(/[^a-z0-9-]/gi, '')`. */
  function StripDisallowed(s: string): (r: string)
    ensures |r| <= |s|
  {
    if |s| == 0 then ""
    else if IsKept(s[0]) then [s[0]] + StripDisallowed(s[1..])
    else StripDisallowed(s[1..])
  }

  /** What the deletion leaves holds only `[A-Za-z0-9-]`. */
  lemma {:induction false} StripKeepsOnlyKept(s: string)
    ensures forall i :: 0 <= i < |StripDisallowed(s)| ==> IsKept(StripDisallowed(s)[i])
  {
    if |s| > 0 {
      StripKeepsOnlyKept(s[1..]);
    }
  }

  /** Nothing is deleted from a string that holds only kept characters. */
  lemma {:induction false} StripAllKept(s: string)
    requires forall i :: 0 <= i < |s| ==> IsKept(s[i])
    ensures StripDisallowed(s) == s
  {
    if |s| > 0 {
      assert IsKept(s[0]);
      StripAllKept(s[1..]);
      assert s == [s[0]] + s[1..];
    }
  }

  /** Deletion works character by character, so it distributes over
      concatenation. */
  lemma {:induction false} StripConcat(a: string, b: string)
    ensures StripDisallowed(a + b) == StripDisallowed(a) + StripDisallowed(b)
  {
    if |a| == 0 {
      assert a + b == b;
    } else {
      ConcatHeadTail(a, b);
      StripConcat(a[1..], b);
      if IsKept(a[0]) {
        ConsAssoc(a[0], StripDisallowed(a[1..]), StripDisallowed(b));
      }
    }
  }

  /** ASCII lowercasing of one character. */
  function LowerChar(c: char): (l: char)
    ensures IsKept(c) ==> IsSlugChar(l)
    ensures IsSlugChar(c) ==> l == c
  {
    if 'A' <= c <= 'Z' then (c as int - 'A' as int + 'a' as int) as char else c
  }

  /** `.toLowerCase()`, on ASCII: it is only ever applied to what the
      deletion leaves, which is ASCII (`LowerPointwise` states its effect). */
  function ToLower(s: string): (r: string)
    ensures |r| == |s|
  {
    if |s| == 0 then "" else [LowerChar(s[0])] + ToLower(s[1..])
  }

  /** Lowering maps each character on its own and keeps the length. */
  lemma {:induction false} LowerPointwise(s: string)
    ensures |ToLower(s)| == |s|
    ensures forall i :: 0 <= i < |s| ==> ToLower(s)[i] == LowerChar(s[i])
  {
    if |s| > 0 {
      LowerPointwise(s[1..]);
    }
  }

  /** Lowering distributes over concatenation. */
  lemma {:induction false} LowerConcat(a: string, b: string)
    ensures ToLower(a + b) == ToLower(a) + ToLower(b)
  {
    if |a| == 0 {
      assert a + b == b;
    } else {
      ConcatHeadTail(a, b);
      LowerConcat(a[1..], b);
      ConsAssoc(LowerChar(a[0]), ToLower(a[1..]), ToLower(b));
    }
  }

  /** Lowering what only holds `[A-Za-z0-9-]` gives only `[a-z0-9-]`, and a
      string already in `[a-z0-9-]` is left as it is. */
  lemma LowerOfKept(s: string)
    ensures (forall i :: 0 <= i < |s| ==> IsKept(s[i])) ==>
      forall i :: 0 <= i < |ToLower(s)| ==> IsSlugChar(ToLower(s)[i])
    ensures (forall i :: 0 <= i < |s| ==> IsSlugChar(s[i])) ==> ToLower(s) == s
  {
    LowerPointwise(s);
  }

  /** The heading id: trim, split on single spaces, drop empty pieces,
      join with `-`, delete everything outside `[A-Za-z0-9-]`, lowercase.
      The result only holds `[a-z0-9-]`. */
  function HeadingSlug(text: string): (r: string)
    ensures forall i :: 0 <= i < |r| ==> IsSlugChar(r[i])
  {
    var kept := StripDisallowed(Join(NonEmpty(Split(Trim(text), ' ')), "-"));
    StripKeepsOnlyKept(Join(NonEmpty(Split(Trim(text), ' ')), "-"));
    LowerOfKept(kept);
    ToLower(kept)
  }

  /** A string already made of `[a-z0-9-]` is its own slug. */
  lemma SlugOfSlugChars(s: string)
    requires forall i :: 0 <= i < |s| ==> IsSlugChar(s[i])
    ensures HeadingSlug(s) == s
  {
    SlugCharsAreWords(s);
    assert forall i :: 0 <= i < |s| ==> IsKept(s[i]);
    StripAllKept(s);
    LowerOfKept(s);
  }

  /** Trimming, splitting and re-joining leave a slug as it is. */
  lemma SlugCharsAreWords(s: string)
    requires forall i :: 0 <= i < |s| ==> IsSlugChar(s[i])
    ensures Join(NonEmpty(Split(Trim(s), ' ')), "-") == s
  {
    assert NoJsSpace(s) by {
      forall i | 0 <= i < |s| ensures !IsJsSpace(s[i]) { assert IsSlugChar(s[i]); }
    }
    TrimNoSpace(s);
    assert Without(s, ' ') by {
      forall i | 0 <= i < |s| ensures s[i] != ' ' { assert IsSlugChar(s[i]); }
    }
    SplitWithout(s, ' ');
    JoinNonEmptySingle(s);
  }

  /** Slugging a slug changes nothing. */
  lemma SlugIdempotent(text: string)
    ensures HeadingSlug(HeadingSlug(text)) == HeadingSlug(text)
  {
    SlugOfSlugChars(HeadingSlug(text));
  }

  /** Two words around one space: the space becomes a hyphen before the
      characters outside `[A-Za-z0-9-]` are deleted. */
  lemma SlugTwoWords(w1: string, w2: string)
    requires w1 != "" && w2 != "" && NoJsSpace(w1) && NoJsSpace(w2)
    ensures HeadingSlug(w1 + " " + w2) == ToLower(StripDisallowed(w1 + "-" + w2))
  {
    var t := w1 + " " + w2;
    assert NoJsSpace(w1) && NoJsSpace(w2) && !IsJsSpace(t[0]) && !IsJsSpace(t[|t| - 1]);
    assert Trim(t) == t;
    assert Without(w1, ' ') && Without(w2, ' ') by {
      forall i | 0 <= i < |w1| ensures w1[i] != ' ' { assert !IsJsSpace(w1[i]); }
      forall i | 0 <= i < |w2| ensures w2[i] != ' ' { assert !IsJsSpace(w2[i]); }
    }
    SplitAt(w1, w2, ' ');
    SplitWithout(w1, ' ');
    SplitWithout(w2, ' ');
    var parts := [w1, w2];
    assert Split(t, ' ') == parts;
    assert NonEmpty(parts) == parts;
    assert parts[1..] == [w2];
    assert Join(parts[1..], "-") == w2;
    assert Join(parts, "-") == w1 + "-" + w2;
    assert Join(NonEmpty(Split(Trim(t), ' ')), "-") == w1 + "-" + w2;
  }

  /** Example: `Hello, World!` gets the id
      `hello-world`. */
  lemma SlugHelloWorld(text: string)
    requires text == "Hello, World!"
    ensures HeadingSlug(text) == "hello-world"
  {
    assert text == "Hello," + " " + "World!";
    HelloWorldWords();
    SlugTwoWords("Hello,", "World!");
    StripHelloWorld();
    LowerHelloWorld();
    assert "hello" + "-" + "world" == "hello-world";
  }

  lemma HelloWorldWords()
    ensures NoJsSpace("Hello,") && NoJsSpace("World!")
  {
  }

  lemma StripHelloWorld()
    ensures StripDisallowed("Hello," + "-" + "World!") == "Hello" + "-" + "World"
  {
    StripConcat("Hello," + "-", "World!");
    StripConcat("Hello,", "-");
    StripPieces();
  }

  lemma StripPieces()
    ensures StripDisallowed("Hello,") == "Hello"
    ensures StripDisallowed("-") == "-"
    ensures StripDisallowed("World!") == "World"
  {
  }

  lemma LowerHelloWorld()
    ensures ToLower("Hello" + "-" + "World") == "hello" + "-" + "world"
  {
    LowerConcat("Hello" + "-", "World");
    LowerConcat("Hello", "-");
    LowerPieces();
  }

  lemma LowerPieces()
    ensures ToLower("Hello") == "hello"
    ensures ToLower("-") == "-"
    ensures ToLower("World") == "world"
  {
  }

  /** Example: `a\tb` gets the id `ab`. */
  lemma SlugDeletesTab(text: string)
    requires text == "a\tb"
    ensures HeadingSlug(text) == "ab"
  {
    assert !IsJsSpace(text[0]) && !IsJsSpace(text[2]);
    assert Trim(text) == text;
    assert Without(text, ' ');
    SplitWithout(text, ' ');
    JoinNonEmptySingle(text);
    var stripped := StripDisallowed(text);
    assert stripped == "ab" by {
      assert text == "a" + "\t" + "b";
      StripConcat("a" + "\t", "b");
      StripConcat("a", "\t");
    }
    assert ToLower(stripped) == "ab";
  }

  /** Whitespace other than a space inside a heading is not a split point:
      it is deleted, and the words on either side run together. */
  lemma SlugDeletesInnerWhitespace(w1: string, w2: string, c: char)
    requires w1 != "" && w2 != "" && NoJsSpace(w1) && NoJsSpace(w2)
    requires IsJsSpace(c) && c != ' '
    ensures HeadingSlug(w1 + [c] + w2) == HeadingSlug(w1 + w2)
  {
    NoJsSpaceWithout(w1);
    NoJsSpaceWithout(w2);
    WithoutConcat(w1, [c], ' ');
    WithoutConcat(w1 + [c], w2, ' ');
    WithoutConcat(w1, w2, ' ');
    EndsOfConcat(w1 + [c], w2);
    EndsOfConcat(w1, w2);
    SlugOfSpaceFree(w1 + [c] + w2);
    SlugOfSpaceFree(w1 + w2);
    StripDropsChar(w1, c, w2);
  }

  /** A string without whitespace holds no space. */
  lemma NoJsSpaceWithout(s: string)
    requires NoJsSpace(s)
    ensures Without(s, ' ')
  {
    forall i | 0 <= i < |s|
      ensures s[i] != ' '
    {
      assert !IsJsSpace(s[i]);
    }
  }

  lemma WithoutConcat(a: string, b: string, c: char)
    requires Without(a, c) && Without(b, c)
    ensures Without(a + b, c)
  {
    forall i | 0 <= i < |a + b|
      ensures (a + b)[i] != c
    {
      if i < |a| {
        assert (a + b)[i] == a[i];
      } else {
        assert (a + b)[i] == b[i - |a|];
      }
    }
  }

  /** The first and last characters of a concatenation of non-empty parts. */
  lemma EndsOfConcat(a: string, b: string)
    requires a != "" && b != ""
    ensures (a + b)[0] == a[0] && (a + b)[|a + b| - 1] == b[|b| - 1]
  {
  }

  /** The id of text without spaces whose ends are not whitespace: only the
      deletion and the lowercasing act. */
  lemma SlugOfSpaceFree(s: string)
    requires |s| > 0 && !IsJsSpace(s[0]) && !IsJsSpace(s[|s| - 1]) && Without(s, ' ')
    ensures HeadingSlug(s) == ToLower(StripDisallowed(s))
  {
    TrimBetween(s);
    SplitWithout(s, ' ');
    JoinNonEmptySingle(s);
  }

  /** Whitespace never survives the deletion. */
  lemma StripDropsChar(w1: string, c: char, w2: string)
    requires IsJsSpace(c)
    ensures StripDisallowed(w1 + [c] + w2) == StripDisallowed(w1 + w2)
  {
    StripConcat(w1 + [c], w2);
    StripConcat(w1, [c]);
    StripConcat(w1, w2);
    assert !IsKept(c) && [c][1..] == [];
  }

  /** The split is on single spaces and the deletion comes after the join: a
      first or last word made only of deleted characters leaves its hyphen
      behind, so the id starts and ends with `-`. */
  lemma SlugKeepsEdgeHyphens(p: string, w: string)
    requires p != "" && NoJsSpace(p) && forall i :: 0 <= i < |p| ==> !IsKept(p[i])
    requires w != "" && NoJsSpace(w)
    ensures HeadingSlug(p + " " + w + " " + p) == "-" + HeadingSlug(w) + "-"
  {
    EdgeSplit(p, w);
    EdgeJoin(p, w);
    EdgeStrip(p, w);
    var k := StripDisallowed(w);
    EdgeLower(k);
    NoJsSpaceWithout(w);
    SlugOfSpaceFree(w);
  }

  lemma EdgeSplit(p: string, w: string)
    requires p != "" && NoJsSpace(p) && w != "" && NoJsSpace(w)
    ensures Split(Trim(p + " " + w + " " + p), ' ') == [p, w, p]
  {
    var t := p + " " + w + " " + p;
    NoJsSpaceWithout(p);
    NoJsSpaceWithout(w);
    assert t == p + [' '] + (w + [' '] + p);
    EndsOfConcat(p, [' '] + (w + [' '] + p));
    EndsOfConcat(p + " " + w + " ", p);
    TrimBetween(t);
    SplitAt(p, w + [' '] + p, ' ');
    SplitAt(w, p, ' ');
    SplitWithout(p, ' ');
    SplitWithout(w, ' ');
  }

  lemma EdgeJoin(p: string, w: string)
    requires p != "" && w != ""
    ensures Join(NonEmpty([p, w, p]), "-") == p + "-" + (w + "-" + p)
  {
    assert NonEmpty([p, w, p]) == [p, w, p];
    assert [p, w, p][1..] == [w, p] && [w, p][1..] == [p];
    assert Join([p], "-") == p;
    assert Join([w, p], "-") == w + "-" + p;
  }

  lemma EdgeStrip(p: string, w: string)
    requires forall i :: 0 <= i < |p| ==> !IsKept(p[i])
    ensures StripDisallowed(p + "-" + (w + "-" + p)) == "-" + (StripDisallowed(w) + "-")
  {
    var k := StripDisallowed(w);
    StripNoneKept(p);
    StripHyphen();
    StripConcat(p, "-");
    assert StripDisallowed(p + "-") == "-";
    StripConcat(w, "-");
    StripConcat(w + "-", p);
    assert StripDisallowed(w + "-" + p) == k + "-";
    StripConcat(p + "-", w + "-" + p);
  }

  lemma StripHyphen()
    ensures StripDisallowed("-") == "-"
  {
  }

  lemma EdgeLower(k: string)
    ensures ToLower("-" + (k + "-")) == "-" + ToLower(k) + "-"
  {
    LowerConcat("-", k + "-");
    LowerConcat(k, "-");
    assert ToLower("-") == "-";
  }

  /** Text made only of deleted characters is deleted entirely. */
  lemma {:induction false} StripNoneKept(s: string)
    requires forall i :: 0 <= i < |s| ==> !IsKept(s[i])
    ensures StripDisallowed(s) == ""
  {
    if |s| > 0 {
      assert !IsKept(s[0]);
      StripNoneKept(s[1..]);
    }
  }

  /** Example: `** multi **` gets the id `-multi-`. */
  lemma EdgeHyphenExample(text: string)
    requires text == "** multi **"
    ensures HeadingSlug(text) == "-multi-"
  {
    assert text == "**" + " " + "multi" + " " + "**";
    EdgeExampleMarks();
    EdgeExampleWord();
    SlugKeepsEdgeHyphens("**", "multi");
    EdgeExampleId();
  }

  lemma EdgeExampleId()
    ensures "-" + "multi" + "-" == "-multi-"
  {
  }

  lemma EdgeExampleMarks()
    ensures NoJsSpace("**") && forall i :: 0 <= i < |"**"| ==> !IsKept("**"[i])
  {
  }

  lemma EdgeExampleWord()
    ensures NoJsSpace("multi") && HeadingSlug("multi") == "multi"
  {
    assert forall i :: 0 <= i < |"multi"| ==> IsSlugChar("multi"[i]);
    SlugOfSlugChars("multi");
  }


  /** The `heading_open` rule: sets `id` on `tokens[idx]` from the content of
      the next (inline) token, then renders it. Identical heading texts get
      identical ids: there is no de-duplication. When there is no next token
      the property access throws (`None`) and nothing changes. */
  method HeadingOpen(tokens: array<Token>, idx: nat, renderToken: (seq<Token>, nat) -> string)
    returns (html: Option<string>)
    requires idx < tokens.Length
    modifies tokens
    ensures idx + 1 < tokens.Length ==>
      tokens[..] == old(tokens[..])[idx := AttrSet(old(tokens[idx]), "id", HeadingSlug(old(tokens[idx + 1].content)))] &&
      html == Some(renderToken(tokens[..], idx))
    ensures idx + 1 == tokens.Length ==> tokens[..] == old(tokens[..]) && html == None
  {
    if idx + 1 == tokens.Length {
      return None;
    }
    tokens[idx] := AttrSet(tokens[idx], "id", HeadingSlug(tokens[idx + 1].content));
    html := Some(renderToken(tokens[..], idx));
  }

  // ---------------------------------------------------------------------
  // math_block and math_block_eqno (markdownit.ts lines 67-93)

  /** The wrapper both display-math rules put around the default rule's
      output: a `div` carrying the token's `data-line-begin`. */
  function DisplayMath(tokens: seq<Token>, idx: nat, defaultRule: (seq<Token>, nat) -> string): (r: string)
    requires idx < |tokens|
    ensures IsInfix(LineBeginText(AttrGet(tokens[idx], LineBeginAttr)), r)
    ensures IsInfix(defaultRule(tokens, idx), r)
  {
    var prefix := "\n      <div\n        ";
    var middle := "\n      >\n        ";
    var inner := defaultRule(tokens, idx);
    var line := LineBeginText(AttrGet(tokens[idx], LineBeginAttr));
    var suffix := "\n      </div>\n    ";
    InfixOfConcat(prefix, line, middle);
    InfixExtend(line, prefix + line + middle, inner);
    InfixExtend(line, prefix + line + middle + inner, suffix);
    InfixOfConcat(prefix + line + middle, inner, suffix);
    prefix + line + middle + inner + suffix
  }

  // ---------------------------------------------------------------------
  // fence (markdownit.ts lines 95-125)

  /** The alternatives of the rule's `^(...)` regular expression. */
  const DiagramKeywords: seq<string> := [
    "flowchart", "sequenceDiagram", "gantt", "classDiagram", "stateDiagram",
    "pie", "journey", "C4Context", "erDiagram", "requirementDiagram", "gitGraph"]

  /** `s` begins with one of `keywords`. */
  function StartsWithAny(s: string, keywords: seq<string>): (b: bool)
    ensures b <==> exists j :: 0 <= j < |keywords| && StartsWith(s, keywords[j])
  {
    if |keywords| == 0 then false
    else StartsWith(s, keywords[0]) || StartsWithAny(s, keywords[1..])
  }

  /** `regex.test(content.trim())`: the block is a diagram. */
  predicate IsDiagram(content: string): (r: bool)
    ensures r <==> exists j :: 0 <= j < |DiagramKeywords| && StartsWith(Trim(content), DiagramKeywords[j])
    ensures r ==> Trim(content) != ""
  {
    StartsWithAny(Trim(content), DiagramKeywords)
  }

  /** The placeholder container the display surface turns into a diagram:
      it carries the block's `data-line-begin`, the generated id and the
      escaped definition, which holds no `"` and so cannot end the
      attribute early. */
  function DiagramPlaceholder(lineBegin: Option<string>, graphId: string, definition: string): (r: string)
    ensures IsInfix(LineBeginText(lineBegin), r)
    ensures IsInfix("id=\"graph-mermaid-" + graphId + "\"", r)
    ensures IsInfix("data-graph-definition=\"" + EscapeHtml(definition) + "\"", r)
  {
    var a := "\n        <div\n          class=\"mermaid\"\n          ";
    var line := LineBeginText(lineBegin);
    var b := "\n        >\n          <div\n            ";
    var id := "id=\"graph-mermaid-" + graphId + "\"";
    var c := "\n            data-graph=\"mermaid\"\n            ";
    var def := "data-graph-definition=\"" + EscapeHtml(definition) + "\"";
    var d := "\n          >\n            <div class=\"loader\"></div>\n          </div>\n        </div>\n      ";
    InfixOfConcat(a, line, b);
    InfixExtend(line, a + line + b, id);
    InfixExtend(line, a + line + b + id, c);
    InfixExtend(line, a + line + b + id + c, def);
    InfixExtend(line, a + line + b + id + c + def, d);
    InfixOfConcat(a + line + b, id, c);
    InfixExtend(id, a + line + b + id + c, def);
    InfixExtend(id, a + line + b + id + c + def, d);
    InfixOfConcat(a + line + b + id + c, def, d);
    a + line + b + id + c + def + d
  }

  /** The `fence` rule. A diagram block becomes the placeholder built from
      the trimmed content, and the default fence renderer (and with it the
      highlighter) plays no part; any other block is left to the default
      renderer. `graphId` is what `env.genId(hashCode(content))` returns. */
  function Fence(tokens: seq<Token>, idx: nat, graphId: string,
                 defaultFence: (seq<Token>, nat) -> string): (r: string)
    requires idx < |tokens|
    ensures IsDiagram(tokens[idx].content) ==>
      r == DiagramPlaceholder(AttrGet(tokens[idx], LineBeginAttr), graphId, Trim(tokens[idx].content))
    ensures !IsDiagram(tokens[idx].content) ==> r == defaultFence(tokens, idx)
  {
    var content := Trim(tokens[idx].content);
    if StartsWithAny(content, DiagramKeywords) then
      DiagramPlaceholder(AttrGet(tokens[idx], LineBeginAttr), graphId, content)
    else
      defaultFence(tokens, idx)
  }

  /** The client reads the diagram source back exactly: the attribute value
      holds no `"` and decodes to the trimmed block content. */
  lemma DiagramDefinitionRecoverable(tokens: seq<Token>, idx: nat, graphId: string,
                                     defaultFence: (seq<Token>, nat) -> string)
    requires idx < |tokens| && IsDiagram(tokens[idx].content)
    ensures var definition := EscapeHtml(Trim(tokens[idx].content));
      IsInfix("data-graph-definition=\"" + definition + "\"", Fence(tokens, idx, graphId, defaultFence)) &&
      (forall i :: 0 <= i < |definition| ==> definition[i] != '"') &&
      UnescapeHtml(definition) == Trim(tokens[idx].content)
  {
    UnescapeEscape(Trim(tokens[idx].content));
  }

  /** The keyword test is a plain prefix test with no word boundary: a
      block starting `pieces` counts as a `pie` diagram. */
  lemma KeywordPrefixWithoutBoundary(content: string)
    requires content == "pieces = [1, 2]"
    ensures IsDiagram(content)
  {
    assert !IsJsSpace(content[0]) && !IsJsSpace(content[|content| - 1]);
    assert Trim(content) == content;
    assert DiagramKeywords[5] == "pie" && StartsWith(content, "pie");
  }

  /** Leading blank lines and indentation do not hide a diagram. */
  lemma IndentedDiagram(content: string)
    requires content == "\n  flowchart TD\n"
    ensures IsDiagram(content)
  {
    assert IsJsSpace(content[0]) && content[1..][0] == ' ' && content[2..][0] == ' ';
    assert content[1..][1..] == content[2..] && content[2..][1..] == content[3..];
    assert !IsJsSpace(content[3..][0]);
    assert LeadingSpaces(content) == 3;
    var u := content[3..];
    assert IsJsSpace(u[|u| - 1]) && u[..|u| - 1] == content[3..15];
    assert !IsJsSpace(content[14]);
    assert TrailingSpaces(u) == 1;
    assert Trim(content) == content[3..15];
    assert StartsWith(content[3..15], DiagramKeywords[0]);
  }

  // ---------------------------------------------------------------------
  // render (markdownit.ts lines 127-137)

  /** `token.map && token.level === 0`: a document-level block with a source range. */
  predicate IsTopLevelBlock(t: Token) {
    t.srcMap.Some? && t.level == 0
  }

  /** The annotation of one token: a document-level block with a source
      range gets `data-line-begin` set to its 1-based first line, with every
      other attribute as before; any other token is unchanged. */
  function Annotate(t: Token): (r: Token)
    ensures IsTopLevelBlock(t) ==> AttrGet(r, LineBeginAttr) == Some(IntToString(t.srcMap.value.0 + 1))
    ensures IsTopLevelBlock(t) ==> forall other :: other != LineBeginAttr ==> AttrGet(r, other) == AttrGet(t, other)
    ensures !IsTopLevelBlock(t) ==> r == t
    ensures r.level == t.level && r.srcMap == t.srcMap && r.content == t.content
  {
    if IsTopLevelBlock(t) then AttrSet(t, LineBeginAttr, IntToString(t.srcMap.value.0 + 1)) else t
  }

  /** The token list after the annotation pass: same length, same order,
      each token annotated on its own. */
  function Annotated(s: seq<Token>): (r: seq<Token>)
    ensures |r| == |s|
    ensures forall i :: 0 <= i < |s| ==> r[i] == Annotate(s[i])
  {
    if |s| == 0 then [] else [Annotate(s[0])] + Annotated(s[1..])
  }

  /** The `forEach` pass of `render`, in place. */
  method AnnotateLines(tokens: array<Token>)
    modifies tokens
    ensures tokens[..] == Annotated(old(tokens[..]))
  {
    ghost var orig := tokens[..];
    var i := 0;
    while i < tokens.Length
      invariant 0 <= i <= tokens.Length
      invariant tokens[..] == Annotated(orig[..i]) + orig[i..]
    {
      AnnotatedStep(orig, i);
      var token := tokens[i];
      if IsTopLevelBlock(token) {
        tokens[i] := AttrSet(token, LineBeginAttr, IntToString(token.srcMap.value.0 + 1));
      }
      i := i + 1;
    }
    assert orig[..i] == orig && orig[i..] == [];
  }

  /** One step of the pass: the first `i` tokens annotated, the rest as they
      were, then token `i` annotated. */
  lemma AnnotatedStep(orig: seq<Token>, i: nat)
    requires i < |orig|
    ensures (Annotated(orig[..i]) + orig[i..])[i] == orig[i]
    ensures (Annotated(orig[..i]) + orig[i..])[i := Annotate(orig[i])] == Annotated(orig[..i + 1]) + orig[i + 1..]
  {
    var done := Annotated(orig[..i]);
    assert orig[..i + 1] == orig[..i] + [orig[i]];
    assert orig[i..] == [orig[i]] + orig[i + 1..];
    AnnotatedSnoc(orig[..i], orig[i]);
    UpdateAtJoin(done, orig[i], orig[i + 1..], Annotate(orig[i]));
  }

  /** Replacing the element just after a prefix. */
  lemma UpdateAtJoin<T>(done: seq<T>, y: T, rest: seq<T>, x: T)
    ensures (done + ([y] + rest))[|done|] == y
    ensures (done + ([y] + rest))[|done| := x] == (done + [x]) + rest
  {
  }

  /** Annotating one more token at the end. */
  lemma {:induction false} AnnotatedSnoc(s: seq<Token>, t: Token)
    ensures Annotated(s + [t]) == Annotated(s) + [Annotate(t)]
  {
    if |s| == 0 {
      assert s + [t] == [t];
    } else {
      ConcatHeadTail(s, [t]);
      AnnotatedSnoc(s[1..], t);
      ConsAssoc(Annotate(s[0]), Annotated(s[1..]), [Annotate(t)]);
    }
  }

  /** `render(markdown)`: parse, annotate in place, hand the annotated list
      to markdown-it's renderer (whose `env.genId` is part of `renderTokens`). */
  method Render(markdown: string, parse: string -> seq<Token>, renderTokens: seq<Token> -> string)
    returns (html: string)
    ensures html == renderTokens(Annotated(parse(markdown)))
  {
    var parsed := parse(markdown);
    var tokens := new Token[|parsed|](i requires 0 <= i < |parsed| => parsed[i]);
    assert tokens[..] == parsed;
    AnnotateLines(tokens);
    html := renderTokens(tokens[..]);
  }

  /** Annotating a token twice is annotating it once. */
  lemma AnnotateIdempotent(t: Token)
    ensures Annotate(Annotate(t)) == Annotate(t)
  {
    if IsTopLevelBlock(t) {
      var v := IntToString(t.srcMap.value.0 + 1);
      var u := AttrSet(t, LineBeginAttr, v);
      assert u.srcMap == t.srcMap && u.level == t.level;
      assert Annotate(u) == AttrSet(u, LineBeginAttr, v);
      AttrSetIdempotent(t, LineBeginAttr, v);
    }
  }

  /** Running the pass twice changes nothing more. */
  lemma AnnotatedIdempotent(s: seq<Token>)
    ensures Annotated(Annotated(s)) == Annotated(s)
  {
    var once := Annotated(s);
    forall i | 0 <= i < |s|
      ensures Annotated(once)[i] == once[i]
    {
      AnnotatedAt(once, i);
      AnnotatedAt(s, i);
      AnnotateIdempotent(s[i]);
    }
  }

  /** After the pass, a document-level block's wrapper names its 1-based
      first line (`IntToStringRoundTrip` reads the number back). */
  lemma DisplayMathNamesLine(s: seq<Token>, idx: nat, defaultRule: (seq<Token>, nat) -> string)
    requires idx < |s| && IsTopLevelBlock(s[idx])
    ensures IsInfix(LineBeginText(Some(IntToString(s[idx].srcMap.value.0 + 1))),
                    DisplayMath(Annotated(s), idx, defaultRule))
  {
    AnnotatedLineAttr(s, idx);
  }

  /** The attribute the pass gives a document-level block. */
  lemma AnnotatedLineAttr(s: seq<Token>, idx: nat)
    requires idx < |s| && IsTopLevelBlock(s[idx])
    ensures AttrGet(Annotated(s)[idx], LineBeginAttr) == Some(IntToString(s[idx].srcMap.value.0 + 1))
  {
    AnnotatedAt(s, idx);
    AnnotateTopLevel(s[idx]);
  }

  lemma AnnotatedAt(s: seq<Token>, idx: nat)
    requires idx < |s|
    ensures Annotated(s)[idx] == Annotate(s[idx])
  {
  }

  lemma AnnotateTopLevel(t: Token)
    requires IsTopLevelBlock(t)
    ensures AttrGet(Annotate(t), LineBeginAttr) == Some(IntToString(t.srcMap.value.0 + 1))
  {
  }

  /** A nested block (inside a list or quote) gets no annotation, so its
      wrapper prints the missing attribute as `null`. */
  lemma NestedBlockLineIsNull(s: seq<Token>, idx: nat, defaultRule: (seq<Token>, nat) -> string)
    requires idx < |s| && s[idx].level != 0 && AttrGet(s[idx], LineBeginAttr).None?
    ensures IsInfix(LineBeginText(None), DisplayMath(Annotated(s), idx, defaultRule))
  {
    AnnotatedAt(s, idx);
    assert s[idx] == Annotate(s[idx]);
  }

  lemma NullLineText()
    ensures LineBeginText(None) == "data-line-begin=\"null\""
  {
  }
}
