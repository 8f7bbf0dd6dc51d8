/**
  What `save_professional_website` and the `__main__` block of
  `pro_website_developer.py` compute from their string inputs: the content
  of `index.html`, `styles.css` and `script.js` taken from the crew's output
  text, the title of the documentation file, and the fallbacks for a blank
  prompt or project name.
 */
module WebsiteOutput {
  import opened Wrappers
  import opened PyStr
  import opened FenceScan

  /** The three languages whose code blocks are saved. */
  datatype Label = Html | Css | JavaScript

  /** The label as written in the pattern "```<label>(.*?)```". */
  function Tag(l: Label): string {
    match l
    case Html => "html"
    case Css => "css"
    case JavaScript => "javascript"
  }

  /** The file the block of each label is saved to. */
  function FileName(l: Label): string {
    match l
    case Html => "index.html"
    case Css => "styles.css"
    case JavaScript => "script.js"
  }

  lemma FileNamesDistinct(l1: Label, l2: Label)
    ensures FileName(l1) == FileName(l2) <==> l1 == l2
  {
    if l1 != l2 {
      assert FileName(l1)[0] != FileName(l2)[0] || |FileName(l1)| != |FileName(l2)|;
    }
  }

  function Last<T>(s: seq<T>): T
    requires s != []
  {
    s[|s| - 1]
  }

  lemma StripKeepsNoFence(s: string)
    requires NoFence(s)
    ensures NoFence(Strip(s))
  {
    StripIsSlice(s);
    NoFenceInside(s, Strip(s), StripStart(s));
  }

  /** A piece of a text without fences has none either. */
  lemma NoFenceInside(s: string, t: string, i: nat)
    requires i + |t| <= |s|
    requires forall k :: 0 <= k < |t| ==> t[k] == s[i + k]
    requires NoFence(s)
    ensures NoFence(t)
  {
    forall q: nat | q < |t| ensures !FenceAt(t, q) {
      if q + 3 <= |t| {
        assert t[q] == s[i + q] && t[q + 1] == s[i + q + 1] && t[q + 2] == s[i + q + 2];
        assert !FenceAt(s, i + q);
      }
    }
  }

  /** The content saved for label `l`: the last match, stripped, or nothing
      when the pattern matches nowhere (no file is written then). What is
      saved has no surrounding whitespace and no three backticks in a row. */
  function Extract(text: string, l: Label): (r: Option<string>)
    ensures r.Some? <==> FindAll(text, Tag(l)) != []
    ensures r.Some? ==> Trimmed(r.value) && NoFence(r.value)
  {
    var found := FindAll(text, Tag(l));
    if found == [] then
      None
    else
      var body := Last(found);
      StripKeepsNoFence(body);
      Some(Strip(body))
  }

  /** No file is written for `l` exactly when no opening "```<label>", in any
      letter case, is followed anywhere later by three backticks. */
  lemma ExtractAbsentIff(text: string, l: Label)
    ensures Extract(text, l).None? <==> forall p: nat :: !MatchesAt(text, Tag(l), p)
  {
    FindAllEmptyIff(text, Tag(l));
  }

  /** The last match in text order is last in every sense: every earlier
      match ends before it starts, and no match starts after it ends. */
  lemma LastMatchIsLast(text: string, tag: string, ms: seq<Span>)
    requires LeftmostMatches(text, tag, 0, ms)
    requires ms != []
    ensures forall k :: 0 <= k < |ms| - 1 ==> ms[k].End() <= Last(ms).start
    ensures forall p: nat :: Last(ms).End() <= p ==> !MatchesAt(text, tag, p)
  {
    LeftmostSound(text, tag, 0, ms);
    OrderedSpans(ms);
    NothingAfterLast(text, tag, 0, ms);
  }

  /** What is saved is the body of that last match with the surrounding
      whitespace removed. */
  lemma ExtractIsLastMatch(text: string, l: Label, ms: seq<Span>)
    requires LeftmostMatches(text, Tag(l), 0, ms)
    requires ms != []
    ensures Extract(text, l) == Some(Strip(Body(text, Last(ms))))
  {
    FindAllIsLeftmost(text, Tag(l), ms);
  }

  lemma {:induction false} OrderedSpans(ms: seq<Span>)
    requires forall k :: 0 < k < |ms| ==> ms[k - 1].End() <= ms[k].start
    requires forall k :: 0 <= k < |ms| ==> ms[k].start <= ms[k].bodyEnd
    ensures forall i, j :: 0 <= i < j < |ms| ==> ms[i].End() <= ms[j].start
    decreases |ms|
  {
    if |ms| > 1 {
      var init := ms[..|ms| - 1];
      OrderedSpans(init);
      forall i | 0 <= i < |ms| - 1 ensures ms[i].End() <= ms[|ms| - 1].start {
        assert ms[i] == init[i];
        if i < |ms| - 2 {
          assert init[i].End() <= init[|ms| - 2].start;
        }
      }
    }
  }

  lemma {:induction false} NothingAfterLast(text: string, tag: string, from: nat, ms: seq<Span>)
    requires LeftmostMatches(text, tag, from, ms)
    requires ms != []
    ensures forall p: nat :: Last(ms).End() <= p ==> !MatchesAt(text, tag, p)
    decreases |ms|
  {
    if |ms| > 1 {
      NothingAfterLast(text, tag, ms[0].End(), ms[1..]);
      assert Last(ms[1..]) == Last(ms);
    }
  }

  /** Saved content is exactly the matched body less its surrounding
      whitespace: whichever way the body splits into leading whitespace, a
      trimmed core and trailing whitespace, the core is what is saved. */
  lemma ExtractStripsBody(text: string, l: Label, lead: string, core: string, trail: string)
    requires FindAll(text, Tag(l)) != []
    requires Last(FindAll(text, Tag(l))) == lead + core + trail
    requires AllSpace(lead) && AllSpace(trail) && Trimmed(core)
    ensures Extract(text, l) == Some(core)
  {
    StripExact(lead, core, trail);
  }

  /** A single block whose label is written in any letter case yields its
      body, stripped. */
  lemma ExtractSingleBlock(written: string, l: Label, body: string)
    requires EqualIgnoringCase(written, Tag(l))
    requires Closable(body)
    ensures Extract(Block(written, body), l) == Some(Strip(body))
  {
    BlockAlone(written, Tag(l), body);
  }

  /** The pattern has no word boundary after the label: in "```html5" or
      "```HTMLx" the label matches and the rest of that line becomes part of
      the saved content. */
  lemma LabelTailKept(written: string, extra: string, l: Label, body: string)
    requires EqualIgnoringCase(written, Tag(l))
    requires Closable(extra + body)
    ensures Extract(Block(written + extra, body), l) == Some(Strip(extra + body))
  {
    assert Block(written + extra, body) == Block(written, extra + body);
    BlockAlone(written, Tag(l), extra + body);
  }

  /** An empty block such as "```html```" still counts: the file is written,
      with empty content. */
  lemma EmptyBlockCounts(written: string, l: Label)
    requires EqualIgnoringCase(written, Tag(l))
    ensures Extract(Block(written, []), l) == Some([])
  {
    BlockAlone(written, Tag(l), []);
  }

  /** Text appended after a settled text decides the content whenever it
      holds a block of its own; otherwise the earlier text does. */
  lemma ExtractConcat(a: string, b: string, l: Label)
    requires Settled(a, Tag(l))
    ensures Extract(a + b, l) == if FindAll(b, Tag(l)) == [] then Extract(a, l) else Extract(b, l)
  {
    var fa, fb := FindAll(a, Tag(l)), FindAll(b, Tag(l));
    FindAllConcat(a, b, Tag(l));
    if fb == [] {
      assert fa + fb == fa;
    } else {
      assert Last(fa + fb) == Last(fb);
    }
  }

  /** Plain text (no backtick) after a settled text keeps it settled. */
  lemma SettledExtend(a: string, g: string, tag: string)
    requires Settled(a, tag)
    requires forall k :: 0 <= k < |g| ==> g[k] != '`'
    ensures Settled(a + g, tag)
  {
    forall p: nat | p < |g| ensures !OpeningAt(g, tag, p) {
    }
    ScanSkip(g, tag, 0, |g|);
    ScanConcatFrom(a, g, tag, 0);
    var ma := Scan(a, tag, 0);
    assert Scan(a + g, tag, 0) == ma + [];
    assert ma + [] == ma;
    forall p: nat | ScanEnd(ma, 0) <= p < |a + g| ensures (a + g)[p] != '`' {
      if p >= |a| {
        assert (a + g)[p] == g[p - |a|];
      }
    }
  }

  /** A body without backticks is closed by the next fence. */
  lemma PlainClosable(body: string)
    requires forall k :: 0 <= k < |body| ==> body[k] != '`'
    ensures Closable(body)
  {
    forall q: nat | q < |body| ensures !FenceAt(body + Fence, q) {
      assert (body + Fence)[q] == body[q];
    }
  }

  /** A draft block, some plain remarks, then a revised block: the revision
      is what is saved and the draft is ignored. */
  lemma RevisionWins(w1: string, draft: string, remarks: string, w2: string, revised: string, l: Label)
    requires EqualIgnoringCase(w1, Tag(l)) && EqualIgnoringCase(w2, Tag(l))
    requires Closable(draft) && Closable(revised)
    requires forall k :: 0 <= k < |remarks| ==> remarks[k] != '`'
    ensures Extract(Block(w1, draft) + remarks + Block(w2, revised), l) == Some(Strip(revised))
  {
    BlockAlone(w1, Tag(l), draft);
    BlockAlone(w2, Tag(l), revised);
    SettledExtend(Block(w1, draft), remarks, Tag(l));
    ExtractConcat(Block(w1, draft) + remarks, Block(w2, revised), l);
  }

  lemma UpperHtmlLabel()
    ensures EqualIgnoringCase("html", Tag(Html)) && EqualIgnoringCase("HTML", Tag(Html))
  {
    assert ToLower('H') == 'h' && ToLower('T') == 't' && ToLower('M') == 'm' && ToLower('L') == 'l';
  }

  lemma ParagraphFacts()
    ensures forall k :: 0 <= k < |"\n...\n"| ==> "\n...\n"[k] != '`'
    ensures Closable("\n<p>old</p>\n") && Closable("\n<p>new</p>\n")
    ensures Strip("\n<p>new</p>\n") == "<p>new</p>"
  {
    PlainClosable("\n<p>old</p>\n");
    PlainClosable("\n<p>new</p>\n");
    assert "\n<p>new</p>\n" == "\n" + "<p>new</p>" + "\n";
    StripExact("\n", "<p>new</p>", "\n");
  }

  /** The old and new paragraph: "```html\n<p>old</p>\n```\n...\n```HTML\n<p>new</p>\n```"
      saves "<p>new</p>". */
  lemma RevisedParagraph(text: string)
    requires text == Block("html", "\n<p>old</p>\n") + "\n...\n" + Block("HTML", "\n<p>new</p>\n")
    ensures Extract(text, Html) == Some("<p>new</p>")
  {
    UpperHtmlLabel();
    ParagraphFacts();
    RevisionWins("html", "\n<p>old</p>\n", "\n...\n", "HTML", "\n<p>new</p>\n", Html);
  }

  /** Adds the file for `l` when its label has a block. */
  function SaveBlock(files: map<string, string>, text: string, l: Label): map<string, string> {
    match Extract(text, l)
    case None => files
    case Some(content) => files[FileName(l) := content]
  }

  lemma SaveBlockEffect(files: map<string, string>, text: string, l: Label, name: string)
    ensures name in SaveBlock(files, text, l) <==>
      name in files || (name == FileName(l) && Extract(text, l).Some?)
    ensures name in SaveBlock(files, text, l) ==>
      SaveBlock(files, text, l)[name] ==
        (if name == FileName(l) && Extract(text, l).Some? then Extract(text, l).value else files[name])
  {
  }

  /** The files saved from the crew's output, by name: each of the three is
      present exactly when its label has a block, holds that label's
      content, and no other file comes out of the extraction. */
  function ExtractedFiles(text: string): (files: map<string, string>)
    ensures forall l: Label :: FileName(l) in files <==> Extract(text, l).Some?
    ensures forall l: Label :: FileName(l) in files ==> files[FileName(l)] == Extract(text, l).value
    ensures forall name :: name in files ==> exists l: Label :: name == FileName(l)
  {
    var f1 := SaveBlock(map[], text, Html);
    var f2 := SaveBlock(f1, text, Css);
    var f3 := SaveBlock(f2, text, JavaScript);
    forall name: string ensures name in f3 ==> exists l: Label :: name == FileName(l) {
      SaveBlockEffect(map[], text, Html, name);
      SaveBlockEffect(f1, text, Css, name);
      SaveBlockEffect(f2, text, JavaScript, name);
    }
    forall l: Label ensures (FileName(l) in f3 <==> Extract(text, l).Some?)
      && (FileName(l) in f3 ==> f3[FileName(l)] == Extract(text, l).value)
    {
      var name := FileName(l);
      FileNamesDistinct(l, Html);
      FileNamesDistinct(l, Css);
      FileNamesDistinct(l, JavaScript);
      SaveBlockEffect(map[], text, Html, name);
      SaveBlockEffect(f1, text, Css, name);
      SaveBlockEffect(f2, text, JavaScript, name);
    }
    f3
  }

  // The documentation heading.

  /** `project_name.replace('_', ' ').title()`: underscores become spaces and
      each word is capitalised. */
  function HeadingName(projectName: string): (r: string)
    ensures |r| == |projectName|
    ensures '_' !in r
    ensures IsTitled(r)
    ensures forall k :: 0 <= k < |r| ==>
      if projectName[k] == '_' then r[k] == ' ' else ToLower(r[k]) == ToLower(projectName[k])
  {
    var spaced := ReplaceChar(projectName, '_', ' ');
    TitleIsTitled(spaced);
    Title(spaced)
  }

  /** The first line of `project_documentation.md`. */
  function DocumentationHeading(projectName: string): (r: string)
    ensures '_' !in r
    ensures |r| > 2 + |projectName| && r[..2] == "# "
    ensures r[2..2 + |projectName|] == HeadingName(projectName)
  {
    "# " + HeadingName(projectName) + " - Project Documentation\n\n"
  }

  /** Renaming the project to its own heading name changes the heading not at all. */
  lemma HeadingNameIdempotent(projectName: string)
    ensures HeadingName(HeadingName(projectName)) == HeadingName(projectName)
  {
    var h := HeadingName(projectName);
    assert ReplaceChar(h, '_', ' ') == h;
    TitleIsTitled(ReplaceChar(projectName, '_', ' '));
  }

  // The fallbacks for blank console input.

  // Written as two literals only so that the verifier can index the string.
  const DefaultPrompt: string :=
    "Create" + " a modern business website for a tech startup with services, portfolio, team, and contact sections"

  const DefaultProjectName: string := "professional_website"

  /** `user_prompt`, or the default sentence when it is blank. A prompt with
      any non-space character is passed on as typed, surrounding whitespace
      included. */
  function PromptOrDefault(input: string): (r: string)
    ensures !AllSpace(r)
    ensures AllSpace(input) ==> r == DefaultPrompt
    ensures !AllSpace(input) ==> r == input
  {
    assert DefaultPrompt[0] == 'C';
    if Strip(input) == [] then DefaultPrompt else input
  }

  /** `input(...).strip() or "professional_website"`: the trimmed name, or
      the default name when that is empty. */
  function ProjectNameOrDefault(input: string): (r: string)
    ensures r != [] && Trimmed(r)
    ensures AllSpace(input) ==> r == DefaultProjectName
    ensures !AllSpace(input) ==> r == Strip(input)
  {
    var name := Strip(input);
    assert DefaultProjectName[0] == 'p' && DefaultProjectName[|DefaultProjectName| - 1] == 'e';
    if name == [] then DefaultProjectName else name
  }

  /** Applying a fallback to its own result changes nothing. */
  lemma FallbacksIdempotent(input: string)
    ensures PromptOrDefault(PromptOrDefault(input)) == PromptOrDefault(input)
    ensures ProjectNameOrDefault(ProjectNameOrDefault(input)) == ProjectNameOrDefault(input)
  {
    var r := ProjectNameOrDefault(input);
    StripExact([], r, []);
    assert [] + r + [] == r;
  }
}
