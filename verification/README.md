# Hierarchical chunker and overlap repair, in Dafny

This project models the text-processing core of a retrieval pipeline for
regulatory documents. There are three parts.

- **The hierarchical chunker** (`src/chunking.py`).
  - `parse_sections` scans a document line by line. It opens a section at
    every numbered heading line (`1.`, `2.3.`, `2.3.4 ...`) and gives each
    section a nesting level and a parent path.
  - `create_adaptive_chunks` cuts each section body into chunks of at most
    `base_chunk_size` characters. Every cut is snapped to a word boundary,
    and each next chunk starts an adaptive overlap earlier.
  - Every chunk's text starts with the section heading and a keyword line.
    The keywords are the first five long words of the title
    (`extract_keywords_from_title`).
  - `hierarchical_chunk_documents` assembles the chunks of every section of
    every document. It sets each chunk's level and full section path.
- **The overlap repair** (`fix_overlap.py`, the loop of
  `fix_overlap_in_chunks`). It passes over every document's chunk list from
  left to right. A chunk that looks like a mid-sentence continuation gets
  the last sentence of the chunk before it put in front.
- **The legacy paragraph chunker** (`split_into_chunks` and
  `chunk_documents` in `src/chunking.py`). It splits a text at blank lines
  (`\n\s*\n`) and packs the paragraphs into chunks of about `chunk_size`
  characters. Each chunk after a full one starts with the last `overlap`
  characters of that one.

Modules:

| module | file | what it holds |
|---|---|---|
| `Text` | `text.dfy` | Python's string operations in Python's meaning: `isspace`, `strip`, `split(c)`, `join`, `split()`, `lower`, `count` |
| `Sections` | `sections.dfy` | the heading pattern, line classification, level, parent key and parent path, the scanning loop, and an independent section-by-section reference |
| `Chunker` | `chunker.dfy` | `find_word_boundary`, the adaptive split (a functional reference and the `while` loop as a method) and the chunk records |
| `Keywords` | `keywords.dfy` | `extract_keywords_from_title` |
| `Assembly` | `assembly.dfy` | `hierarchical_chunk_documents` |
| `Legacy` | `legacy.dfy` | the paragraph split of `re.split(r"\n\s*\n", ...)`, the packing step, `split_into_chunks` (a fold and the loop as a method) and `chunk_documents` |
| `Repair` | `repair.dfy` | the sentence split of `re.split(r"(?<=[.!?])\s+", ...)`, the repair step, and the pass over a document (a fold and the loop as a method) |

Python integers are unbounded, so `int`/`nat` need no wrap-around.
`int(remaining * 0.15)` is modelled as `remaining * 15 / 100`.

## Behaviour worth knowing

These are properties of the code as written. Some of them differ from what
the code's own comments suggest. The model follows the code, and lemmas
state each behaviour.

- **A trailing-dot number is its own parent key.** The key
  `".".join(number.split(".")[:-1]) + "."` of `2.3.` is `2.3.`, not `2.`.
  So `2.3.` after `2.` has an empty parent path, while `2.3.4` after `2.3.`
  finds `2.3.` (`Sections.NoParentForTrailingDot`,
  `Sections.ParentForUndottedChild`).
- **Level counts dots.** `2.3` is level 1 and `2.3.` is level 2
  (`Sections.LevelExamples`).
- **A title may end in a period.** The comment at src/chunking.py:33 says
  headings do not end with a dot. The test at line 57 accepts any title
  with at most one period. So `1. <sentence>.` opens a section
  (`Sections.NumberedSentenceIsHeading`).
- **Text before the first heading is dropped** (`Assembly.NoHeadingNoChunks`).
- **A long word can empty a chunk.** When the first `base` characters hold
  no space, tab or newline, the left snap goes back to the start. The first
  chunk then shows only its header (`Chunker.FirstChunkOfLongWord`).
- **Skipped text lies inside one word.** The text between one chunk's end
  and the next chunk's start never holds a space, tab or newline
  (`Chunker.SpansAdvance`). Text is skipped at a cut exactly when no space,
  tab or newline lies among the `overlap` characters just before the cut
  (`Chunker.SkipsTextIff`). The part of the straddling word that lies
  between the snapped end and the next start is then in neither chunk.
- **The repair cascades.** Step `i` reads chunk `i - 1` after chunk `i - 1`
  was itself rewritten. A run of continuation chunks without sentence ends
  accumulates every earlier chunk (`Repair.Cascade`).
- **The repair is not idempotent.** A second pass prefixes again
  (`Repair.RepairTwice`).
- **Legacy chunks have no size bound.** The size test counts neither the
  `"\n\n"` separators nor anything after a flush. A paragraph longer than
  `chunk_size` lands whole in the chunk after the carried tail, or alone and
  unstripped when nothing is being filled (`Legacy.AddParagraph`).
- **An empty text gives one empty legacy chunk**, not an empty list
  (`Legacy.EmptyTextOneEmptyChunk`).

## Model

| member | source | states |
|---|---|---|
| Text.Strip | src/chunking.py:43 | `strip()` gives a stripped substring of the input that sits between two all-whitespace margins; the result is empty exactly when the input is all whitespace |
| Text.StripStripped | src/chunking.py:53 | stripping a string that has no whitespace at either end leaves it unchanged |
| Text.Count | src/chunking.py:57 | `count(c)` is the number of occurrences of `c`, that is its multiplicity in the string; so it is at most the length and zero exactly when `c` does not occur |
| Text.CountAppend | src/chunking.py:57 | the count of a concatenation is the sum of the counts |
| Text.CountOne | src/chunking.py:57 | a single character counts 1 when it is the counted one and 0 otherwise |
| Text.SplitOn | src/chunking.py:37 | `split("\n")` yields one more piece than there are separators, and no piece holds the separator |
| Text.SplitOnJoin | src/chunking.py:37 | joining the pieces of `split(c)` with `c` gives back the original string |
| Text.SplitOnDropLast | src/chunking.py:70 | a string holding `c` is the join of all its pieces but the last, then `c`, then the last piece |
| Text.Words | src/chunking.py:276 | every piece of `split()` is non-empty and holds no whitespace |
| Text.WordsKeepNonSpace | src/chunking.py:276 | gluing the words of `split()` together gives exactly the non-whitespace characters of the input, in order |
| Text.WordGaps | src/chunking.py:276 | the whitespace gaps around the words of `split()` are one more than the words |
| Text.WordsSplitAtGaps | src/chunking.py:276 | the string is its gaps and words interleaved, gap first; every gap is all whitespace and every inner gap is non-empty, so `split()` cuts exactly at the maximal whitespace runs |
| Text.WordsChars | src/chunking.py:276 | every character of every word occurs in the split string |
| Text.ToLower | src/chunking.py:276 | `lower()` keeps whitespace, leaves lower-case letters alone and always yields a character that lowers to itself |
| Text.Lower | src/chunking.py:276 | `lower()` keeps the length and lowers every character |
| Text.SkipRunSpec | src/chunking.py:34 | the `\s+` run that starts at a position is all whitespace and stops at a non-whitespace character or at the end |
| Text.SkipRunMaximal | src/chunking.py:34 | no whitespace run from that position reaches past the greedy one |
| Sections.MatchHeading | src/chunking.py:34-53 | a match has a number group made of digit groups and single dots that starts the line, and a non-empty rest group that is a suffix of the line and is stripped when the line is |
| Sections.MatchHeadingIff | src/chunking.py:34 | the matcher succeeds exactly when the line splits into number, whitespace and non-empty rest; the number group is that of every split; the rest group is the suffix of the line after the longest whitespace run |
| Sections.Classify | src/chunking.py:43-57 | a line is blank exactly when it is all whitespace; it is a heading exactly when it is not blank, its stripped text matches the pattern and the stripped rest group is an accepted title; a heading carries the match's number group and that stripped title, which is non-empty, under 200 characters and has at most one period; every other line is body text, stripped |
| Sections.ClassifyHeadingLine | src/chunking.py:50-57 | a number label, one space and an accepted stripped title make a heading line with exactly that number and title |
| Sections.MatchNumberSpaceTitle | src/chunking.py:34 | a number label, one space and a stripped title match with exactly those two groups |
| Sections.SentenceTitle | src/chunking.py:57 | a sentence with a single final period is an accepted title |
| Sections.NumberedSentenceIsHeading | src/chunking.py:57 | a numbered sentence ending in its only period opens a section |
| Sections.Level | src/chunking.py:64 | the level is at least 1, and equals the number of dots in the number, or 1 when there is none |
| Sections.LevelExamples | src/chunking.py:64 | `2.` and `2.3` are level 1; `2.3.` and `2.3.4` are level 2 |
| Sections.ParentKey | src/chunking.py:70 | the key is `"."` for a number without dots; otherwise it is the prefix of the number that ends at its last dot |
| Sections.ParentKeyOfTrailingDot | src/chunking.py:70 | a number ending in a dot is its own parent key |
| Sections.ParentKeyOfLastDot | src/chunking.py:70 | the parent key is the number cut just after its last dot |
| Sections.PathJoin | src/chunking.py:73-77 | a path is the parent path, `" > "` and the leaf; just the leaf when the parent path is empty |
| Sections.Breadcrumb | src/chunking.py:73-77 | a section's breadcrumb is its title when it has no parent path, and otherwise its parent path, `" > "` and its title |
| Sections.FindLatest | src/chunking.py:71-78 | the backward search finds the latest section with the key and nothing after it; it finds none exactly when no section carries the key |
| Sections.ParentPath | src/chunking.py:66-78 | a level-1 number has an empty parent path (the other cases are stated by `Sections.ParentPathSpec`) |
| Sections.ParentPathSpec | src/chunking.py:66-78 | the parent path is empty at level 1 or when no earlier section carries the key; otherwise it is the breadcrumb of the latest one that does |
| Sections.NoParentForTrailingDot | src/chunking.py:68-78 | a trailing-dot number has no parent path unless an earlier section has the very same number |
| Sections.ParentForUndottedChild | src/chunking.py:68-78 | a number with two or more dots and no trailing dot takes its parent path from the latest section numbered up to its last dot |
| Sections.Close | src/chunking.py:59-61 | closing the scan appends the open section, if any, after the closed ones, with its body lines joined by newlines and stripped as content, and changes nothing else |
| Sections.Step | src/chunking.py:42-97 | a blank line changes nothing; a body line changes neither the closed sections nor the open one; a heading closes the open section and opens one with its number and title and no body; the closed sections only grow at the end |
| Sections.Scan | src/chunking.py:42-97 | scanning adds exactly one section per heading line and only appends to the closed sections |
| Sections.ParseSections | src/chunking.py:30-104 | the lines of `split("\n")` hold no newline, and there is one section per accepted heading line |
| Sections.ScanOpen | src/chunking.py:42-102 | from any state with an open section, the scanning loop emits the closed sections, the open one with all body lines that follow it, and then the reference sections |
| Sections.ParseSectionsIsRef | src/chunking.py:42-104 | `parse_sections` equals the reference: one section per heading line, with the body lines up to the next heading; lines before the first heading belong to no section |
| Sections.RefSectionsShape | src/chunking.py:80-87 | each reference section comes from its heading line in order, with the level of its number, the parent path found among the sections before it, and stripped content |
| Sections.ParseSectionsSpec | src/chunking.py:42-104 | `parse_sections` returns one section per accepted heading line in document order, each with level at least 1, its parent path among the earlier sections, and stripped content |
| Chunker.SnapLeft | src/chunking.py:109-113 | the leftward snap does not pass the target; it stops at 0 or right after a space, tab or newline; it skips only other characters |
| Chunker.SnapRight | src/chunking.py:114-118 | the rightward snap does not go before the target or past the end; it stops at the end or on a space, tab or newline; it skips only other characters |
| Chunker.SnapIdempotent | src/chunking.py:107-118 | snapping a position that is already snapped leaves it where it is |
| Chunker.FindWordBoundary | src/chunking.py:107-118 | searching left gives the nearest position at or before the target that is 0 or follows a space, tab or newline; searching right gives the nearest position at or after the target that holds one, or the end |
| Chunker.Header | src/chunking.py:163 | a chunk header is the title, `"\n\n"`, `Ключевые слова: `, the keywords joined by `", "`, and `"\n\n"` |
| Chunker.Slice | src/chunking.py:160 | `content[start:end]` is as long as `end - start`, or empty when `end <= start`, and its `k`-th character is `content[start + k]` |
| Chunker.OverlapSize | src/chunking.py:149-150 | the overlap is the largest number that is at most 200 and at most 15% of what remains |
| Chunker.SpanAt | src/chunking.py:149-157 | a chunk ends no later than `start + base` and the end of the content; it ends at the end of the content, at 0, or just after a space, tab or newline, and no such character lies between its end and the cut, so the end is the nearest boundary at or before the cut; its overlap is that of what remains from `start` |
| Chunker.NextStart | src/chunking.py:186-187 | the next start is at least `start + base - overlap`, and so strictly later, and at least `end - overlap`; inside the content it falls on a space, tab or newline, and nothing from the larger of those two up to it is one, so it is the first boundary at or after that point, or the end |
| Chunker.SpansFrom | src/chunking.py:147-187 | the loop's spans from a start: none exactly when the start is past the content; the first is the span at the start; all lie within the content |
| Chunker.ChunkOf | src/chunking.py:159-180 | a chunk's text is its header followed by `content[start:end]`; it carries the section title and keywords at level 1; it has overlap information exactly when the span does not start at 0, holding the span's overlap and the at most that many characters just before the start |
| Chunker.SpansOk | src/chunking.py:147-160 | every span of the loop lies within the content, shows at most `base` characters, and has an overlap of at most 200 |
| Chunker.SpansAdvance | src/chunking.py:183-187 | each next span starts on a boundary character at least `base - overlap` after the previous start, and no boundary character lies between the previous end and the next start |
| Chunker.NextStartSkipsNoBoundary | src/chunking.py:153-157 | the characters from a chunk's snapped end up to the next start hold no space, tab or newline |
| Chunker.SpansLast | src/chunking.py:184-187 | the last span reaches the end of the content, or the start after it would lie beyond the end |
| Chunker.AdaptiveChunks | src/chunking.py:121-189 | no chunks exactly for blank content; short content gives one chunk, the header followed by all of the content, without overlap information; longer content gives one chunk per span of the loop; every chunk's text starts with the title and keyword header, and carries the section title, the given keywords and level 1 |
| Chunker.CreateAdaptiveChunks | src/chunking.py:143-189 | the `while` loop with its `break` returns the chunks of the reference split |
| Chunker.LoopPass | src/chunking.py:147-187 | one pass of the loop emits the chunk at the start and moves strictly forward to where the remaining chunks begin |
| Chunker.SpansFollowLoop | src/chunking.py:147-187 | every span is the span at its own start, and each later span starts where the next-start computation puts it after the one before |
| Chunker.ChunkOfExact | src/chunking.py:149-171 | the chunk of a loop span is the header and `content[start:end]`, with overlap information exactly when the start is not 0: the overlap of what remains at the start and the characters `content[max(0, start - overlap):start]` |
| Chunker.AdaptiveChunksExact | src/chunking.py:143-189 | for content longer than the base, only the first span starts at 0, the spans are the loop's, and each chunk is exactly the one just described |
| Chunker.SkipsTextIff | src/chunking.py:150-187 | a cut inside the content skips text exactly when none of the `overlap` characters before the cut is a space, tab or newline |
| Chunker.SplitChunksOverlap | src/chunking.py:165-171 | in the split loop only the first chunk lacks overlap information; the recorded overlap is at most 200 and its text at most that long; each chunk shows at most `base` content characters |
| Chunker.AdaptiveChunksOverlap | src/chunking.py:125-171 | the same for every outcome, including the single chunk of short content |
| Chunker.FirstChunkOfLongWord | src/chunking.py:153-163 | with no boundary character in the first `base` characters of long content, the first chunk's text is only its header |
| Keywords.LongWords | src/chunking.py:277 | the filter keeps exactly the words longer than three characters, drawn from the input |
| Keywords.LongWordsAppend | src/chunking.py:277 | the filter works word by word: on a concatenation it is the concatenation of the filtered parts |
| Keywords.LongWordsOne | src/chunking.py:277 | a single word is kept exactly when it is longer than three characters |
| Keywords.ExtractKeywords | src/chunking.py:273-278 | the keywords are a prefix of at most five of the long lower-cased words; all of them when there are fewer than five |
| Keywords.KeywordsAreLongLowerWords | src/chunking.py:276-277 | every keyword is longer than three characters, holds no whitespace, is in lower case, and is a word of the lowered title |
| Keywords.LongWordsOfLong | src/chunking.py:277 | a list of long words passes the filter unchanged |
| Keywords.KeywordsOfLongWords | src/chunking.py:276-278 | when every word of the title is long, the keywords are its first five lowered words |
| Assembly.SectionTitle | src/chunking.py:251 | the heading is the section number, one space and the title |
| Assembly.SectionPath | src/chunking.py:260-264 | the path is `number title` when there is no parent path; otherwise it is the parent path, `" > "` and `number title` |
| Assembly.AssembleSection | src/chunking.py:244-264 | a section contributes no chunks exactly when its body is blank; each of its chunks has the section's level, heading, path and keywords, and starts with its header |
| Assembly.AssembleKeepsChunks | src/chunking.py:257-264 | setting level and path changes neither the chunk count, nor their texts, nor their overlap information |
| Assembly.AssembleAll | src/chunking.py:244-266 | a run of sections yields no chunks exactly when every section body is blank |
| Assembly.AssembleAllAppend | src/chunking.py:242-266 | the chunks of two runs of sections are those of the first run followed by those of the second |
| Assembly.ChunkDocument | src/chunking.py:239-268 | a document yields no chunks exactly when every parsed section has a blank body |
| Assembly.AssembleAllSpec | src/chunking.py:244-266 | every chunk belongs to one of the sections, and every section with a non-blank body contributes a chunk |
| Assembly.HierarchicalChunkDocuments | src/chunking.py:233-270 | the result has exactly the input's document names, each mapped to the chunks of that document |
| Assembly.ChunkDocumentSpec | src/chunking.py:239-268 | every chunk of a document has level at least 1 and belongs to a parsed section; every parsed section with content appears in a chunk |
| Assembly.NoHeadingNoChunks | src/chunking.py:241-268 | a document without an accepted heading line yields no chunks |
| Assembly.TrailingDotSubsectionPath | src/chunking.py:260-264 | the chunks of a trailing-dot section without an earlier namesake have just `number title` as path |
| Repair.FirstBreak | fix_overlap.py:29 | the first place where `(?<=[.!?])\s+` can match, or the end: punctuation before, whitespace at, no earlier such place |
| Repair.SplitSentences | fix_overlap.py:29-30 | the split has at least one piece, so `if sentences` always holds |
| Repair.LastPieceSpec | fix_overlap.py:29-31 | the last piece is a suffix without a break; it is the whole text when there is no break, and otherwise it follows a break and the whitespace run after it |
| Repair.LastSentence | fix_overlap.py:29-31 | the carried sentence is stripped and, for a stripped text, is its last piece: the suffix after the last whitespace run that follows `.`, `!` or `?`, with no such break inside it |
| Repair.LastSentenceWithoutBreak | fix_overlap.py:29-31 | with no break, the last sentence is the whole text, stripped |
| Repair.RepairChunk | fix_overlap.py:17-33 | the metadata never changes; the chunk is left exactly as it is, unstripped, when the condition fails, when its text is blank, or when the previous stripped text ends in `.`, `!` or `?` |
| Repair.RepairChunkRewrite | fix_overlap.py:27-33 | a rewritten text is the last piece of the stripped previous text, one space, and the stripped current text |
| Repair.ChainFrom | fix_overlap.py:16-33 | folding from a previous element along the rest gives a chain: each element is the step of the one before and its input |
| Repair.RepairDocument | fix_overlap.py:13-33 | the repaired list is the chain of the repair step over the input: same length, chunk 0 kept, each later chunk repaired against its already repaired predecessor |
| Repair.FixOverlapInDocument | fix_overlap.py:13-33 | the `for` loop that rewrites in place computes that chain |
| Repair.ChainedUnique | fix_overlap.py:16-33 | the input determines the repaired list |
| Repair.FixOverlap | fix_overlap.py:12-33 | the pass keeps the document names and repairs each document's list |
| Repair.RepairedPreserves | fix_overlap.py:12-16 | the pass keeps the chunk count and every chunk's metadata, and leaves lists of fewer than two chunks alone |
| Repair.ChainedKeeps | fix_overlap.py:16-33 | a property of chunk 0 that each step keeps holds all along the pass |
| Repair.CascadeStep | fix_overlap.py:27-33 | a stripped text without sentence ends followed by one that starts lower-case become the two joined by a space |
| Repair.CascadeGrows | fix_overlap.py:16-33 | in a run of such chunks, each repaired text is the repaired text before it, a space, and its own text |
| Repair.Cascade | fix_overlap.py:16-33 | in such a run, chunk `i` ends up holding chunks `0..i` joined by spaces |
| Repair.RepairPair | fix_overlap.py:27-33 | two chunks of that kind become the first, and the first and second joined by a space |
| Repair.SentenceContinuation | fix_overlap.py:27-33 | `Документ содержит правила` followed by `регистрации участников.` yields the whole sentence in the second chunk |
| Repair.SentenceEndStops | fix_overlap.py:25-27 | a previous chunk that ends a sentence leaves the next chunk alone |
| Repair.RepairTwice | fix_overlap.py:12-33 | a second pass prefixes the carried text again, so the pass is not idempotent |
| Legacy.BlankLineAt | src/chunking.py:196 | a match of `\n\s*\n` starting at a position is at least two characters, starts and ends with a newline and is all whitespace |
| Legacy.BlankLineGreedy | src/chunking.py:196 | the match found is the longest one there: any blank-line run starting at that position ends no later |
| Legacy.NextBlankLine | src/chunking.py:196 | the leftmost position at or after a start where a match begins, or the end of the text when none does |
| Legacy.SplitParagraphs | src/chunking.py:196 | the split always has at least one paragraph |
| Legacy.BlankLineRuns | src/chunking.py:196 | one separator fewer than paragraphs, each a blank-line run |
| Legacy.SplitParagraphsRoundTrip | src/chunking.py:196 | the paragraphs with the removed separators put back between them give the text back |
| Legacy.ParagraphsHoldNoBlankLine | src/chunking.py:196 | no paragraph holds a match of `\n\s*\n` |
| Legacy.AfterBlankLine | src/chunking.py:196 | the text after a removed separator starts with whitespace that holds no newline |
| Legacy.FirstParagraphPrefix | src/chunking.py:196 | the first paragraph is a prefix of the text |
| Legacy.BlankLineRunsGreedy | src/chunking.py:196 | every paragraph after the first starts without a newline in its leading whitespace |
| Legacy.OverlapTail | src/chunking.py:205-209 | the carried text is a suffix of the chunk, of length `overlap` when the chunk is longer and the whole chunk otherwise, and the whole chunk for an overlap of 0 |
| Legacy.AddParagraph | src/chunking.py:200-214 | a chunk is emitted exactly when the lengths exceed `chunk_size`; the emitted chunk is the stripped chunk being filled, after which the new one is its tail, `"\n\n"` and the paragraph; with nothing being filled the paragraph itself is emitted; otherwise the paragraph is appended after `"\n\n"` |
| Legacy.PackAll | src/chunking.py:200-214 | the loop over the paragraphs keeps the chunks emitted so far as a prefix and emits at most one more per paragraph |
| Legacy.Finish | src/chunking.py:216-217 | once something was packed, the final list is not empty |
| Legacy.PackCount | src/chunking.py:200-214 | the loop emits at most one chunk per paragraph and, once something is packed, it stays so |
| Legacy.SplitIntoChunks | src/chunking.py:192-219 | between one chunk and one more than the number of paragraphs |
| Legacy.SplitIntoChunksLoop | src/chunking.py:196-219 | the `for` loop that updates its two variables in place computes the fold |
| Legacy.StripOccurs | src/chunking.py:203 | the stripped text of a piece of a chunk occurs in the stripped chunk |
| Legacy.ParagraphsKept | src/chunking.py:196-219 | no text is lost: every paragraph's stripped text occurs in some chunk |
| Legacy.EmptyTextOneEmptyChunk | src/chunking.py:196-219 | an empty text yields exactly one empty chunk |
| Legacy.ChunkDocuments | src/chunking.py:281-287 | the document names are kept and each text is split with chunk size 1000 and overlap 200 |

## Left out

- File and process plumbing is not modelled. This covers `load_documents`, the `__main__` blocks, the reading and writing of `progress_metadata.json` (fix_overlap.py:9-10,38-39) and every `print`. Documents come in and go out as in-memory maps.
- The metadata enrichment, embedding, storage, retrieval and UI scripts are not modelled. They call an LLM, a sentence encoder and a vector store, none of which can be seen here.
- Assembly.HierarchicalChunkDocuments: documents are a `map`, so Python's dictionary insertion order is not modelled.
- Repair.FixOverlap: the same holds for the order of documents.
- Chunker.OverlapSize: `int(remaining * 0.15)` is modelled as exact integer arithmetic `remaining * 15 / 100`. Floating-point rounding of the product is not modelled.
- Chunker.AdaptiveChunks: requires `base > 200` whenever the split loop runs. The source does not check this. With a smaller base, an overlap of `base` or more can leave the start where it was, and the loop then does not terminate.
- Chunker.CreateAdaptiveChunks: the same requirement applies.
- Assembly.AssembleSection: requires `base > 200` for every section, including those whose content is short enough not to need it.
- Assembly.HierarchicalChunkDocuments: the same requirement applies.
- Sections.MatchHeading: requires a line without `\n`. Lines come from `split("\n")`, so the pattern's `(?:\n|$)` can only match at the end.
- Text.IsDigit: `\d` and `isdigit()` accept many non-ASCII digits in Python; the model accepts only `0`-`9`.
- Text.ToLower: `islower()` and `lower()` are modelled for ASCII, Latin-1 (including `ª`, `µ` and `º`, which are lower case) and basic Cyrillic letters only. Python's `lower()` can also change a string's length (for `İ`); the model maps one character to one.
- Text.Lower: the same restriction applies.
- Legacy.SplitIntoChunks: `chunk_size` and `overlap` are natural numbers. Python accepts negative values, which the source never passes and which would change the meaning of `current_chunk[-overlap:]`.
- Legacy.ChunkDocuments: documents are a `map`, so dictionary order is not modelled.
- Legacy.ParagraphsKept: states that each paragraph's stripped text survives, not where. The chunk order and the overlap positions are given step by step by `Legacy.AddParagraph`.
- Sections.ParentPath: its own contract covers level 1 only; the search for the parent and the breadcrumb it yields are stated by `Sections.ParentPathSpec`, which keeps the solver's work on every use of the function small.
- Chunker.SplitChunksOverlap: states bounds on the overlap information only; the exact values are stated by `Chunker.AdaptiveChunksExact`.
- Chunker.AdaptiveChunksOverlap: the same holds.
