/**
 The document-level driver: every document is parsed into sections, every
 section body is cut by the adaptive chunker under the heading
 "<number> <title>" with keywords from its title, and each resulting chunk
 gets the section's level and its full path.
 */
module Assembly {
  import opened Text
  import opened Sections
  import opened Chunker
  import opened Keywords

  /** The heading a section's chunks are titled with:
      its number, one space, its title. */
  function SectionTitle(sec: Section): (t: string)
    ensures |t| == |sec.number| + 1 + |sec.title|
    ensures StartsWith(t, sec.number) && t[|sec.number|] == ' ' && t[|sec.number| + 1..] == sec.title
  {
    sec.number + " " + sec.title
  }

  /** A chunk's full path: the section's parent path, then " > ", then its
      heading; just the heading for a section without a parent path. */
  function SectionPath(sec: Section): (path: string)
    ensures |path| >= |SectionTitle(sec)|
    ensures path[|path| - |SectionTitle(sec)|..] == SectionTitle(sec)
    ensures StartsWith(path, sec.parentPath)
    ensures sec.parentPath == "" ==> path == SectionTitle(sec)
    ensures sec.parentPath != "" ==>
      && |path| == |sec.parentPath| + 3 + |SectionTitle(sec)|
      && path[|sec.parentPath|..|sec.parentPath| + 3] == " > "
  {
    PathJoin(sec.parentPath, SectionTitle(sec))
  }

  /** A chunk that belongs to `sec`: the section's level, heading, path and
      keywords, and the heading and keyword lines at the top of its text. */
  predicate BelongsTo(c: Chunk, sec: Section)
  {
    && c.hierarchyLevel == sec.level
    && c.sectionTitle == SectionTitle(sec)
    && c.sectionPath == SectionPath(sec)
    && c.keywords == ExtractKeywords(sec.title)
    && StartsWith(c.text, Header(SectionTitle(sec), ExtractKeywords(sec.title)))
  }

  /** The chunks of one section: those of the adaptive chunker, with the
      level and path set from the section. */
  function AssembleSection(sec: Section, base: nat): (r: seq<Chunk>)
    requires base > MaxOverlap
    ensures r == [] <==> AllSpace(sec.content)
    ensures forall k :: 0 <= k < |r| ==> BelongsTo(r[k], sec)
  {
    var chunks := AdaptiveChunks(sec.content, SectionTitle(sec), ExtractKeywords(sec.title), base);
    var r := seq(|chunks|, k requires 0 <= k < |chunks| =>
      chunks[k].(hierarchyLevel := sec.level, sectionPath := SectionPath(sec)));
    assert forall k :: 0 <= k < |r| ==> BelongsTo(r[k], sec) by {
      forall k | 0 <= k < |r| ensures BelongsTo(r[k], sec) {
        assert r[k].text == chunks[k].text;
      }
    }
    r
  }

  /** Setting level and path changes neither the chunks' count, nor their
      texts, nor their overlap information. */
  lemma AssembleKeepsChunks(sec: Section, base: nat)
    requires base > MaxOverlap
    ensures var plain := AdaptiveChunks(sec.content, SectionTitle(sec), ExtractKeywords(sec.title), base);
      var r := AssembleSection(sec, base);
      |r| == |plain| && forall k :: 0 <= k < |r| ==> r[k].text == plain[k].text && r[k].overlap == plain[k].overlap
  {
  }

  /** The chunks of a sequence of sections, section after section. */
  function AssembleAll(sections: seq<Section>, base: nat): (r: seq<Chunk>)
    requires base > MaxOverlap
    ensures r == [] <==> AllBlank(sections)
  {
    if sections == [] then []
    else
      AllBlankCons(sections);
      AssembleSection(sections[0], base) + AssembleAll(sections[1..], base)
  }

  /** Every section's body is blank. */
  predicate AllBlank(sections: seq<Section>)
  {
    forall sec :: sec in sections ==> AllSpace(sec.content)
  }

  lemma AllBlankCons(sections: seq<Section>)
    requires sections != []
    ensures AllBlank(sections) <==> AllSpace(sections[0].content) && AllBlank(sections[1..])
  {
    assert sections == [sections[0]] + sections[1..];
  }

  /** Assembling two runs of sections one after the other gives the chunks
      of the first run followed by those of the second. */
  lemma {:induction false} AssembleAllAppend(a: seq<Section>, b: seq<Section>, base: nat)
    requires base > MaxOverlap
    ensures AssembleAll(a + b, base) == AssembleAll(a, base) + AssembleAll(b, base)
    decreases |a|
  {
    if a == [] {
      assert a + b == b;
    } else {
      assert (a + b)[0] == a[0] && (a + b)[1..] == a[1..] + b;
      AssembleAllAppend(a[1..], b, base);
      AppendAssoc(AssembleSection(a[0], base), AssembleAll(a[1..], base), AssembleAll(b, base));
    }
  }

  /** The chunks of one document. */
  function ChunkDocument(text: string, base: nat): (r: seq<Chunk>)
    requires base > MaxOverlap
    ensures r == [] <==> AllBlank(ParseSections(text))
  {
    AssembleAll(ParseSections(text), base)
  }

  /** `hierarchical_chunk_documents(documents, base_chunk_size)`. */
  function HierarchicalChunkDocuments(docs: map<string, string>, base: nat): (r: map<string, seq<Chunk>>)
    requires base > MaxOverlap
    ensures r.Keys == docs.Keys
    ensures forall name :: name in docs ==> r[name] == ChunkDocument(docs[name], base)
  {
    map name | name in docs :: ChunkDocument(docs[name], base)
  }

  /** Every chunk belongs to one of the sections, and every section whose
      body is not blank contributes at least one chunk. */
  lemma {:induction false} AssembleAllSpec(sections: seq<Section>, base: nat)
    requires base > MaxOverlap
    ensures forall c :: c in AssembleAll(sections, base) ==> exists sec :: sec in sections && BelongsTo(c, sec)
    ensures forall sec :: sec in sections && !AllSpace(sec.content) ==>
      exists c :: c in AssembleAll(sections, base) && BelongsTo(c, sec)
  {
    if sections != [] {
      var head := AssembleSection(sections[0], base);
      var tail := AssembleAll(sections[1..], base);
      AssembleAllSpec(sections[1..], base);
      assert AssembleAll(sections, base) == head + tail;
      forall c | c in head + tail ensures exists sec :: sec in sections && BelongsTo(c, sec) {
        if c in head {
          var k :| 0 <= k < |head| && head[k] == c;
          assert BelongsTo(c, sections[0]);
        } else {
          var sec :| sec in sections[1..] && BelongsTo(c, sec);
          assert sec in sections;
        }
      }
      forall sec | sec in sections && !AllSpace(sec.content)
        ensures exists c :: c in head + tail && BelongsTo(c, sec)
      {
        if sec == sections[0] {
          assert BelongsTo(head[0], sec) && head[0] in head + tail;
        } else {
          assert sec in sections[1..];
          var c :| c in tail && BelongsTo(c, sec);
          assert c in head + tail;
        }
      }
    }
  }

  /** Every chunk of a document carries the level (at least 1), heading,
      path and keywords of a section parsed from it; every parsed section
      with a body shows up in at least one chunk. */
  lemma ChunkDocumentSpec(text: string, base: nat)
    requires base > MaxOverlap
    ensures forall c :: c in ChunkDocument(text, base) ==>
      c.hierarchyLevel >= 1 && exists sec :: sec in ParseSections(text) && BelongsTo(c, sec)
    ensures forall sec :: sec in ParseSections(text) && sec.content != [] ==>
      exists c :: c in ChunkDocument(text, base) && BelongsTo(c, sec)
  {
    var sections := ParseSections(text);
    ParseSectionsSpec(text);
    AssembleAllSpec(sections, base);
    forall sec | sec in sections ensures sec.level >= 1 && (sec.content != [] ==> !AllSpace(sec.content)) {
      var k :| 0 <= k < |sections| && sections[k] == sec;
      if sec.content != [] {
        StrippedNotBlank(sec.content);
      }
    }
  }

  /** A stripped string is blank only when it is empty. */
  lemma StrippedNotBlank(s: string)
    requires IsStripped(s) && s != []
    ensures !AllSpace(s)
  {
    assert !IsSpace(s[0]);
  }

  /** A document without any accepted heading line yields no chunks: text
      before the first heading belongs to no section. */
  lemma NoHeadingNoChunks(text: string, base: nat)
    requires base > MaxOverlap
    requires Headings(ClassifyAll(SplitOn(text, '\n'))) == []
    ensures ChunkDocument(text, base) == []
  {
    ParseSectionsSpec(text);
  }

  /** A section numbered with a trailing dot, such as "2.3." after "2.",
      finds no parent unless an earlier section has the very same number, so
      its chunks' path is its own heading only. */
  lemma TrailingDotSubsectionPath(done: seq<Section>, number: string, title: string, content: string)
    requires number != [] && number[|number| - 1] == '.'
    requires forall j :: 0 <= j < |done| ==> done[j].number != number
    ensures SectionPath(Section(Level(number), number, title, content, ParentPath(done, number)))
      == number + " " + title
  {
    NoParentForTrailingDot(done, number);
  }
}
