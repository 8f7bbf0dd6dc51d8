# Fenced-code extraction of the professional website developer

`Agent_Crew/pro_website_developer.py` has a crew of language-model agents write a
website, then takes the whole transcript (`str(result)`) and saves the code
written in it. `save_professional_website` does this for three labels:
`html`, `css` and `javascript`. For each label it:

1. runs `re.findall(r'```<label>(.*?)```', text, re.DOTALL | re.IGNORECASE)`;
2. keeps the last match;
3. strips it;
4. writes the result to `index.html`, `styles.css` or `script.js`.

When the pattern matches nowhere, that file is not written. A few smaller
string steps are modelled as well:

- the documentation heading, `project_name.replace('_', ' ').title()`;
- the console fallbacks for a blank prompt and a blank project name.

This project models those steps in Dafny and proves what they guarantee.

- `wrappers.dfy`, module `Wrappers`: `Option`, used for "no match, no file".
- `pystr.dfy`, module `PyStr`: the Python string methods involved.
  - `strip()`, with Python's `str.isspace()` character set.
  - `replace` of one character.
  - `title()`.
  - The ASCII case folding of `re.IGNORECASE`.
- `fence_scan.dfy`, module `FenceScan`: `findall` for one label.
  - `LeftmostMatches` is a declarative description of what the regex engine
    returns: the leftmost match, with the non-greedy body stopping at the
    first closing fence, then the search resumed after that fence.
  - `Scan` is a left-to-right scan that computes those matches.
  - `ScanIsLeftmost` and `LeftmostUnique` show the two agree.
  - The remaining lemmas cover concatenated texts, single blocks and letter case.
- `website.dfy`, module `WebsiteOutput`:
  - the three labels and their file names;
  - the last-match-stripped extraction and the resulting set of files;
  - the documentation heading;
  - the input fallbacks.

The regex engine tries an opening, and when no closing fence follows it moves
on by one character. The scan stops instead, because if no fence follows an
opening, none follows any later opening either. `ScanIsLeftmost` proves that
stopping gives the same answer.

## Model

| member | source | states |
|---|---|---|
| PyStr.SkipSpace | Agent_Crew/pro_website_developer.py:321 | the left scan of `strip()` stops at the first non-whitespace character, or at the end; everything it passes is whitespace |
| PyStr.BackSpace | Agent_Crew/pro_website_developer.py:321 | the right scan of `strip()` stops after the last non-whitespace character, never going below where the left scan stopped; everything it passes is whitespace |
| PyStr.Strip | Agent_Crew/pro_website_developer.py:321 | the result is no longer than the input and has no surrounding whitespace; it is empty exactly when the input is all whitespace |
| PyStr.StripExact | Agent_Crew/pro_website_developer.py:321 | any split into whitespace, a trimmed core and whitespace strips to that core |
| PyStr.StripIdempotent | Agent_Crew/pro_website_developer.py:321 | stripping twice equals stripping once |
| PyStr.ToLower | Agent_Crew/pro_website_developer.py:318 | a letter folds to lower case; any other character is unchanged |
| PyStr.ToUpper | Agent_Crew/pro_website_developer.py:344 | a letter becomes upper case; any other character is unchanged |
| PyStr.CaseRoundTrip | Agent_Crew/pro_website_developer.py:318 | case conversions are idempotent, and each undoes the other up to folding |
| PyStr.ReplaceChar | Agent_Crew/pro_website_developer.py:344 | every occurrence of the old character, and only those, becomes the new one; the old character no longer occurs |
| PyStr.TitleFrom | Agent_Crew/pro_website_developer.py:344 | length and letters are kept up to case, and non-letters are unchanged; a letter is upper case exactly when the character before it is not a letter |
| PyStr.Title | Agent_Crew/pro_website_developer.py:344 | `title()`: a letter is upper case exactly when it starts a word; its letters, up to case, and its non-letters are kept |
| PyStr.TitleIsTitled | Agent_Crew/pro_website_developer.py:344 | the result of `title()` is in title case, and `title()` is idempotent |
| FenceScan.NextFence | Agent_Crew/pro_website_developer.py:318 | finds the first three backticks at or after a position, or reports that there are none |
| FenceScan.LeftmostMatches | Agent_Crew/pro_website_developer.py:318 | what `findall` returns from a position: the leftmost match there or later, its body stopping at the first fence after the label, then the matches after its closing fence; nothing once no opening has a later fence (its agreement with the scan is `ScanIsLeftmost`) |
| FenceScan.Scan | Agent_Crew/pro_website_developer.py:318 | the left-to-right search for matches; `ScanIsLeftmost` and `LeftmostUnique` state that it returns exactly `LeftmostMatches` |
| FenceScan.Bodies | Agent_Crew/pro_website_developer.py:318 | one captured group per match, in order: the text between the end of the label and the closing fence |
| FenceScan.FindAll | Agent_Crew/pro_website_developer.py:318 | no captured group contains three consecutive backticks |
| FenceScan.LeftmostSound | Agent_Crew/pro_website_developer.py:318 | each reported match is a real match; matches do not overlap, come in increasing text order and lie inside the text |
| FenceScan.LeftmostAtOpening | Agent_Crew/pro_website_developer.py:318 | a closed opening is the leftmost match from its position, followed by the leftmost matches after its closing fence |
| FenceScan.LeftmostAtPlain | Agent_Crew/pro_website_developer.py:318 | where no opening starts, the leftmost matches are those from the next position |
| FenceScan.MatchBodyHasNoFence | Agent_Crew/pro_website_developer.py:318 | the non-greedy body of a match holds no three backticks |
| FenceScan.MatchIsMatchesAt | Agent_Crew/pro_website_developer.py:318 | a match starts at an opening that some later fence closes |
| FenceScan.ScanIsLeftmost | Agent_Crew/pro_website_developer.py:318 | the scan returns exactly the leftmost, non-overlapping matches the regex engine reports |
| FenceScan.LeftmostUnique | Agent_Crew/pro_website_developer.py:318 | the description of `findall`'s result allows only one answer |
| FenceScan.FindAllIsLeftmost | Agent_Crew/pro_website_developer.py:318 | `findall` returns the bodies of the leftmost matches, and nothing else |
| FenceScan.FindAllEmptyIff | Agent_Crew/pro_website_developer.py:318-319 | the match list is empty exactly when no opening is followed somewhere later by three backticks |
| FenceScan.ScanShift | Agent_Crew/pro_website_developer.py:318 | the matches in the tail of a text are the tail's own matches, moved by the offset |
| FenceScan.ScanConcatFrom | Agent_Crew/pro_website_developer.py:318 | scanning a settled text followed by more text finds the matches of the first part, then those of the second |
| FenceScan.FindAllConcat | Agent_Crew/pro_website_developer.py:318 | `findall` of a settled text followed by more text is the concatenation of the two result lists |
| FenceScan.BlockAlone | Agent_Crew/pro_website_developer.py:318 | a single block with any-case label yields exactly its body, including the empty body, and leaves the text settled |
| FenceScan.BlockScan | Agent_Crew/pro_website_developer.py:318 | a single block is one match, from its opening to its closing fence |
| FenceScan.FenceAtIgnoresCase | Agent_Crew/pro_website_developer.py:318 | backticks are found the same way in two texts that differ only in letter case |
| FenceScan.OpeningAtIgnoresCase | Agent_Crew/pro_website_developer.py:318 | an opening is detected the same way in two texts that differ only in letter case |
| FenceScan.NextFenceIgnoresCase | Agent_Crew/pro_website_developer.py:318 | closing fences are found at the same positions in texts that differ only in letter case |
| FenceScan.ScanIgnoresCase | Agent_Crew/pro_website_developer.py:318 | texts that differ only in letter case have their matches at the same positions |
| WebsiteOutput.FileNamesDistinct | Agent_Crew/pro_website_developer.py:322-338 | the three labels are saved to three different files |
| WebsiteOutput.Tag | Agent_Crew/pro_website_developer.py:318-335 | the labels `html`, `css` and `javascript` of the three patterns; `ExtractedFiles` states each is searched for in the full text on its own |
| WebsiteOutput.FileName | Agent_Crew/pro_website_developer.py:322-338 | `index.html`, `styles.css` and `script.js`, pairwise distinct by `FileNamesDistinct` |
| WebsiteOutput.Extract | Agent_Crew/pro_website_developer.py:318-340 | there is content exactly when `findall` found a match; the content has no surrounding whitespace and no three backticks |
| WebsiteOutput.StripKeepsNoFence | Agent_Crew/pro_website_developer.py:321 | stripping a body without three backticks cannot create them |
| WebsiteOutput.ExtractAbsentIff | Agent_Crew/pro_website_developer.py:318-340 | no file for a label exactly when no any-case opening is followed later by three backticks |
| WebsiteOutput.LastMatchIsLast | Agent_Crew/pro_website_developer.py:320-321 | every earlier match ends before the last one starts, and no match starts after it ends |
| WebsiteOutput.ExtractIsLastMatch | Agent_Crew/pro_website_developer.py:321 | the saved content is the stripped body of the last leftmost match |
| WebsiteOutput.ExtractStripsBody | Agent_Crew/pro_website_developer.py:321 | the saved content is the last body less exactly its surrounding whitespace |
| WebsiteOutput.ExtractSingleBlock | Agent_Crew/pro_website_developer.py:318-321 | one block with the label in any letter case saves its stripped body |
| WebsiteOutput.LabelTailKept | Agent_Crew/pro_website_developer.py:318 | text right after the label (as in "```html5") is not a separate label; it becomes part of the saved content |
| WebsiteOutput.EmptyBlockCounts | Agent_Crew/pro_website_developer.py:319-323 | "```html```" counts as a match and saves empty content |
| WebsiteOutput.ExtractConcat | Agent_Crew/pro_website_developer.py:320-321 | after a settled text, a later part with its own block decides the content; otherwise the earlier part does |
| WebsiteOutput.SettledExtend | Agent_Crew/pro_website_developer.py:318 | plain text without backticks keeps a settled text settled |
| WebsiteOutput.PlainClosable | Agent_Crew/pro_website_developer.py:318 | a body without backticks is closed by the next fence |
| WebsiteOutput.RevisionWins | Agent_Crew/pro_website_developer.py:320-321 | draft block, remarks, revised block: the revised block is what is saved |
| WebsiteOutput.ParagraphFacts | Agent_Crew/pro_website_developer.py:321 | the old and new paragraph bodies are closable, and the new one strips to `<p>new</p>` |
| WebsiteOutput.RevisedParagraph | Agent_Crew/pro_website_developer.py:318-323 | an old `<p>` block, remarks and a new "```HTML" block save "<p>new</p>" |
| WebsiteOutput.SaveBlock | Agent_Crew/pro_website_developer.py:319-323 | `if matches:` write the file; its effect on the set of files is stated by `SaveBlockEffect` |
| WebsiteOutput.SaveBlockEffect | Agent_Crew/pro_website_developer.py:319-323 | saving one label adds or replaces that label's file when it matched, and leaves every other file as it was |
| WebsiteOutput.ExtractedFiles | Agent_Crew/pro_website_developer.py:317-340 | each of `index.html`, `styles.css` and `script.js` is written exactly when its own label matches, holding that label's content; no other file comes out of extraction |
| WebsiteOutput.HeadingName | Agent_Crew/pro_website_developer.py:344 | the heading name has the project name's length, no '_', and is in title case; '_' becomes a space and letters are kept up to case |
| WebsiteOutput.DocumentationHeading | Agent_Crew/pro_website_developer.py:344 | the heading line starts with "# ", then the heading name, and contains no '_' |
| WebsiteOutput.HeadingNameIdempotent | Agent_Crew/pro_website_developer.py:344 | applying the heading transformation to its own result changes nothing |
| WebsiteOutput.PromptOrDefault | Agent_Crew/pro_website_developer.py:460-461 | the prompt is never blank; a blank prompt becomes the default sentence, and any other prompt is kept as typed, unstripped |
| WebsiteOutput.ProjectNameOrDefault | Agent_Crew/pro_website_developer.py:471 | the name is non-empty and trimmed; a blank name becomes "professional_website", and any other name is its stripped form |
| WebsiteOutput.FallbacksIdempotent | Agent_Crew/pro_website_developer.py:460-461 | applying either fallback to its own result changes nothing |

`Settled` means that nothing but backtick-free text follows the last match
of a text. The concatenation lemmas need this: without it, a fence near the
end of the first part could pair with text at the start of the second part.

## Left out

- The crewai agents, tasks and crew, and the hosted language model (`create_professional_website`, lines 13-305): a third-party framework. Its output is the `text` parameter of the model.
- `Single_Agent.py` is not part of this model. It reads a prompt, calls the same framework and prints the result.
- `os.makedirs`, and every `open(...).write` of the three code files and the documentation file: file I/O. The model gives the file names and their contents as a map, `ExtractedFiles`.
- The static `package.json` and README written by `create_additional_files` (lines 365-446): constant file content.
- `load_dotenv`, the environment lookup, the console banner and `print` calls of `__main__` (lines 448-481), and the progress messages printed after each file is saved (lines 324, 332, 340, 358 and 446): environment and console I/O. `input()` is modelled as the string it returns, already without its line break.
- The documentation file after its first line (lines 345-356): a fixed text followed by the whole transcript. Only the heading, which is computed, is modelled.
- Full Python regular expressions: only the one pattern shape used here is modelled.
- PyStr.ToLower: `re.IGNORECASE` also folds a few non-ASCII characters onto ASCII letters (for example 'ſ' onto 's' and the Kelvin sign onto 'k'). The model folds ASCII letters only.
- PyStr.Title: Python's `title()` also cases non-ASCII letters and title-case digraphs. The model treats every non-ASCII character as uncased.
- WebsiteOutput.ExtractConcat: stated only for a first part that is settled. Texts in which a fence at the end of one part pairs with the start of the next are covered by `Extract` and `FindAll` themselves, not by this lemma.
- A heading for the default project name ("Professional Website") is not stated as a concrete fact. `HeadingName` states the general property.
- The model does not show that a block of one label leaves another label's content unaffected in every text. A fence that closes a `css` block and is directly followed by "html" really does open an `html` block. Independence is stated per label, in `ExtractedFiles`: each file depends only on its own label's matches in the full text.
