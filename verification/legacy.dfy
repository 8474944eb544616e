/**
 The older, paragraph-based chunker kept for compatibility: the text is cut
 into paragraphs at blank lines, and paragraphs are packed into chunks of
 about `chunk_size` characters, each new chunk after a full one carrying
 the last `overlap` characters of the one before.
 */
module Legacy {
  import opened Text

  const LegacyChunkSize: nat := 1000
  const LegacyOverlap: nat := 200

  /** The last newline in `s[lo..hi]`, if any. */
  function LastNewline(s: string, lo: nat, hi: nat): (m: Option<nat>)
    requires lo <= hi <= |s|
    ensures m.Some? ==> lo <= m.value < hi && s[m.value] == '\n'
    ensures m.Some? ==> forall i :: m.value < i < hi ==> s[i] != '\n'
    ensures m.None? ==> forall i :: lo <= i < hi ==> s[i] != '\n'
    decreases hi - lo
  {
    if hi == lo then None
    else if s[hi - 1] == '\n' then Some(hi - 1)
    else LastNewline(s, lo, hi - 1)
  }

  /** A separator the paragraph split removes: a match of `\n\s*\n`, that
      is a newline, any whitespace, and a newline. */
  predicate IsBlankLineRun(sep: string)
  {
    |sep| >= 2 && sep[0] == '\n' && sep[|sep| - 1] == '\n' && AllSpace(sep)
  }

  /** Where a match of `\n\s*\n` that begins at `p` ends, if one does.
      `\s*` first takes the whole whitespace run after the newline, then
      gives characters back until a newline follows it, so the match ends
      just after the last newline of that run. */
  function BlankLineAt(s: string, p: nat): (e: Option<nat>)
    requires p < |s|
    ensures e.Some? ==> p + 2 <= e.value <= |s| && IsBlankLineRun(s[p..e.value])
  {
    if s[p] != '\n' then None
    else
      var run := SkipRun(s, p + 1);
      SkipRunSpec(s, p + 1);
      match LastNewline(s, p + 1, run)
      case None => None
      case Some(m) =>
        assert s[p..m + 1] == [s[p]] + s[p + 1..m + 1];
        AllSpacePrefix(s, p + 1, m + 1, run);
        Some(m + 1)
  }

  /** A match found by `BlankLineAt` is the longest one that begins there:
      the whitespace after it holds no further newline. */
  lemma BlankLineGreedy(s: string, p: nat, q: nat)
    requires p < q <= |s| && IsBlankLineRun(s[p..q])
    ensures BlankLineAt(s, p).Some?
    ensures q <= BlankLineAt(s, p).value
  {
    assert s[p] == s[p..q][0];
    assert s[q - 1] == s[p..q][q - 1 - p];
    assert s[p + 1..q] == s[p..q][1..];
    SkipRunMaximal(s, p + 1, q);
  }

  /** The first place at or after `i` where a blank-line run begins, or
      `|s|` when there is none. */
  function NextBlankLine(s: string, i: nat): (p: nat)
    requires i <= |s|
    ensures i <= p <= |s|
    ensures p < |s| ==> BlankLineAt(s, p).Some?
    ensures forall j :: i <= j < p ==> BlankLineAt(s, j).None?
    decreases |s| - i
  {
    if i == |s| then |s|
    else if BlankLineAt(s, i).Some? then i
    else NextBlankLine(s, i + 1)
  }

  /** `re.split(r"\n\s*\n", text)`: the paragraphs between the blank-line
      runs, leftmost first. */
  function SplitParagraphs(s: string): (r: seq<string>)
    ensures |r| >= 1
    decreases |s|
  {
    var p := NextBlankLine(s, 0);
    if p == |s| then [s]
    else [s[..p]] + SplitParagraphs(s[BlankLineAt(s, p).value..])
  }

  /** The blank-line runs the split removes, in order. */
  function BlankLineRuns(s: string): (seps: seq<string>)
    ensures |seps| == |SplitParagraphs(s)| - 1
    ensures forall k :: 0 <= k < |seps| ==> IsBlankLineRun(seps[k])
    decreases |s|
  {
    var p := NextBlankLine(s, 0);
    if p == |s| then []
    else
      var e := BlankLineAt(s, p).value;
      var rest := BlankLineRuns(s[e..]);
      assert |SplitParagraphs(s)| == 1 + |SplitParagraphs(s[e..])|;
      RunsCons(s[p..e], rest);
      [s[p..e]] + rest
  }

  lemma RunsCons(sep: string, rest: seq<string>)
    requires IsBlankLineRun(sep)
    requires forall k :: 0 <= k < |rest| ==> IsBlankLineRun(rest[k])
    ensures forall k :: 0 <= k < |[sep] + rest| ==> IsBlankLineRun(([sep] + rest)[k])
  {
    forall k | 0 <= k < |[sep] + rest| ensures IsBlankLineRun(([sep] + rest)[k]) {
      if k > 0 {
        assert ([sep] + rest)[k] == rest[k - 1];
      }
    }
  }

  /** Putting the removed blank-line runs back between the paragraphs gives
      the text back. */
  lemma {:induction false} SplitParagraphsRoundTrip(s: string)
    ensures Interleave(SplitParagraphs(s), BlankLineRuns(s)) == s
    decreases |s|
  {
    if NextBlankLine(s, 0) < |s| {
      var para, sep, rest := ParagraphStep(s);
      SplitParagraphsRoundTrip(rest);
      InterleaveCons(para, sep, SplitParagraphs(rest), BlankLineRuns(rest));
    } else {
      assert SplitParagraphs(s) == [s] && BlankLineRuns(s) == [];
    }
  }

  /** One step of the split: the first paragraph, the blank-line run after
      it, and the text after that. */
  lemma ParagraphStep(s: string) returns (para: string, sep: string, rest: string)
    requires NextBlankLine(s, 0) < |s|
    ensures s == para + sep + rest && |rest| < |s|
    ensures SplitParagraphs(s) == [para] + SplitParagraphs(rest)
    ensures BlankLineRuns(s) == [sep] + BlankLineRuns(rest)
  {
    var p := NextBlankLine(s, 0);
    var e := BlankLineAt(s, p).value;
    para, sep, rest := s[..p], s[p..e], s[e..];
    assert s == para + sep + rest;
  }

  /** No paragraph holds a blank-line run. */
  predicate NoBlankLine(t: string)
  {
    forall j :: 0 <= j < |t| ==> BlankLineAt(t, j).None?
  }

  /** A blank-line run inside a prefix is one of the whole text too. */
  lemma BlankLineOfPrefix(s: string, p: nat, j: nat)
    requires j < p <= |s| && BlankLineAt(s[..p], j).Some?
    ensures BlankLineAt(s, j).Some?
  {
    var t := s[..p];
    var q := BlankLineAt(t, j).value;
    assert t[j..q] == s[j..q];
    BlankLineGreedy(s, j, q);
  }

  lemma {:induction false} ParagraphsHoldNoBlankLine(s: string)
    ensures forall k :: 0 <= k < |SplitParagraphs(s)| ==> NoBlankLine(SplitParagraphs(s)[k])
    decreases |s|
  {
    var p := NextBlankLine(s, 0);
    if p == |s| {
      assert SplitParagraphs(s) == [s];
    } else {
      var e := BlankLineAt(s, p).value;
      ParagraphsHoldNoBlankLine(s[e..]);
      forall j | 0 <= j < p ensures BlankLineAt(s[..p], j).None? {
        if BlankLineAt(s[..p], j).Some? {
          BlankLineOfPrefix(s, p, j);
        }
      }
      var r := SplitParagraphs(s);
      assert r == [s[..p]] + SplitParagraphs(s[e..]);
      forall k | 0 <= k < |r| ensures NoBlankLine(r[k]) {
        if k > 0 {
          assert r[k] == SplitParagraphs(s[e..])[k - 1];
        }
      }
    }
  }

  /** The whitespace a paragraph starts with holds no newline. */
  predicate LeadsWithoutNewline(t: string)
  {
    forall i :: 0 <= i < LeadingSpaces(t) ==> t[i] != '\n'
  }

  /** Text that follows a removed blank-line run does not start with
      whitespace holding a newline: the run took every newline it could. */
  lemma AfterBlankLine(s: string, p: nat, v: string)
    requires p < |s| && BlankLineAt(s, p).Some?
    requires StartsWith(s[BlankLineAt(s, p).value..], v)
    ensures LeadsWithoutNewline(v)
  {
    var e := BlankLineAt(s, p).value;
    var run := SkipRun(s, p + 1);
    SkipRunSpec(s, p + 1);
    forall i | 0 <= i < LeadingSpaces(v) ensures v[i] != '\n' {
      assert v[i] == s[e + i];
      assert AllSpace(s[p + 1..e + i + 1]) by {
        forall x | p + 1 <= x < e + i + 1 ensures IsSpace(s[x]) {
          if x < e {
            assert s[x] == s[p + 1..run][x - p - 1];
          } else {
            assert s[x] == v[..LeadingSpaces(v)][x - e];
          }
        }
      }
      SkipRunMaximal(s, p + 1, e + i + 1);
    }
  }

  /** The first paragraph is a prefix of the text. */
  lemma FirstParagraphPrefix(s: string)
    ensures StartsWith(s, SplitParagraphs(s)[0])
  {
  }

  /** Every paragraph after the first starts without a newline in its
      leading whitespace: each removed run is the longest `\n\s*\n` there. */
  lemma {:induction false} BlankLineRunsGreedy(s: string)
    ensures forall k :: 1 <= k < |SplitParagraphs(s)| ==> LeadsWithoutNewline(SplitParagraphs(s)[k])
    decreases |s|
  {
    var p := NextBlankLine(s, 0);
    if p < |s| {
      var e := BlankLineAt(s, p).value;
      var rest := SplitParagraphs(s[e..]);
      BlankLineRunsGreedy(s[e..]);
      FirstParagraphPrefix(s[e..]);
      AfterBlankLine(s, p, rest[0]);
      assert SplitParagraphs(s) == [s[..p]] + rest;
      LeadsCons(s[..p], rest);
    }
  }

  lemma LeadsCons(first: string, rest: seq<string>)
    requires rest != [] && LeadsWithoutNewline(rest[0])
    requires forall k :: 1 <= k < |rest| ==> LeadsWithoutNewline(rest[k])
    ensures forall k :: 1 <= k < |[first] + rest| ==> LeadsWithoutNewline(([first] + rest)[k])
  {
    forall k | 1 <= k < |[first] + rest| ensures LeadsWithoutNewline(([first] + rest)[k]) {
      assert ([first] + rest)[k] == rest[k - 1];
    }
  }

  /** Python's `current[-overlap:] if len(current) > overlap else current`;
      the slice `[-0:]` is the whole string. */
  function OverlapTail(current: string, overlap: nat): (t: string)
    ensures |t| <= |current| && current[|current| - |t|..] == t
    ensures overlap > 0 ==> |t| == (if |current| > overlap then overlap else |current|)
    ensures overlap == 0 ==> t == current
  {
    if |current| > overlap && overlap > 0 then current[|current| - overlap..] else current
  }

  predicate EndsWith(s: string, suffix: string)
  {
    |suffix| <= |s| && s[|s| - |suffix|..] == suffix
  }

  /** The loop's state: the chunks emitted so far, and the chunk being
      filled. */
  datatype Packing = Packing(chunks: seq<string>, current: string)

  /** One iteration of the packing loop. A paragraph that fits (counting
      neither separator) is appended after a blank line; otherwise the
      chunk being filled is emitted stripped and a new one starts with its
      tail, or, when nothing is being filled, the paragraph is emitted on
      its own, unstripped. */
  function AddParagraph(st: Packing, paragraph: string, size: nat, overlap: nat): (r: Packing)
    ensures |st.chunks| <= |r.chunks| <= |st.chunks| + 1
    ensures r.chunks[..|st.chunks|] == st.chunks
    ensures |r.chunks| > |st.chunks| <==> |st.current| + |paragraph| > size
    ensures |r.chunks| > |st.chunks| && st.current != [] ==>
      && r.chunks[|st.chunks|] == Strip(st.current)
      && StartsWith(r.current, OverlapTail(st.current, overlap))
      && EndsWith(r.current, paragraph)
      && |r.current| == |OverlapTail(st.current, overlap)| + 2 + |paragraph|
      && r.current[|OverlapTail(st.current, overlap)|..|OverlapTail(st.current, overlap)| + 2] == "\n\n"
    ensures |r.chunks| > |st.chunks| && st.current == [] ==>
      r.chunks[|st.chunks|] == paragraph && r.current == []
    ensures |r.chunks| == |st.chunks| ==>
      && StartsWith(r.current, st.current)
      && EndsWith(r.current, paragraph)
      && |r.current| == |st.current| + 2 + |paragraph|
      && r.current[|st.current|..|st.current| + 2] == "\n\n"
  {
    if |st.current| + |paragraph| > size then
      if st.current != [] then
        Packing(st.chunks + [Strip(st.current)], OverlapTail(st.current, overlap) + "\n\n" + paragraph)
      else
        Packing(st.chunks + [paragraph], st.current)
    else
      Packing(st.chunks, st.current + "\n\n" + paragraph)
  }

  /** The packing loop over a list of paragraphs. */
  function PackAll(st: Packing, paragraphs: seq<string>, size: nat, overlap: nat): (r: Packing)
    ensures |st.chunks| <= |r.chunks| <= |st.chunks| + |paragraphs|
    ensures r.chunks[..|st.chunks|] == st.chunks
    decreases |paragraphs|
  {
    if paragraphs == [] then st
    else
      var next := AddParagraph(st, paragraphs[0], size, overlap);
      var r := PackAll(next, paragraphs[1..], size, overlap);
      assert r.chunks[..|st.chunks|] == r.chunks[..|next.chunks|][..|st.chunks|];
      r
  }

  /** Something has been packed: a chunk was emitted or one is being
      filled. */
  predicate Started(st: Packing)
  {
    st.chunks != [] || st.current != []
  }

  /** The final flush: the chunk being filled is emitted, stripped. */
  function Finish(st: Packing): (chunks: seq<string>)
    ensures Started(st) ==> chunks != []
  {
    if st.current != [] then st.chunks + [Strip(st.current)] else st.chunks
  }

  /** The loop emits at most one chunk per paragraph, and once something
      has been packed it stays so. */
  lemma {:induction false} PackCount(st: Packing, paragraphs: seq<string>, size: nat, overlap: nat)
    ensures var r := PackAll(st, paragraphs, size, overlap);
      && |st.chunks| <= |r.chunks| <= |st.chunks| + |paragraphs|
      && (Started(st) || paragraphs != [] ==> Started(r))
    decreases |paragraphs|
  {
    if paragraphs != [] {
      PackCount(AddParagraph(st, paragraphs[0], size, overlap), paragraphs[1..], size, overlap);
    }
  }

  /** `split_into_chunks(text, chunk_size, overlap)`. */
  function SplitIntoChunks(text: string, size: nat, overlap: nat): (chunks: seq<string>)
    ensures 1 <= |chunks| <= |SplitParagraphs(text)| + 1
  {
    var paragraphs := SplitParagraphs(text);
    PackCount(Packing([], ""), paragraphs, size, overlap);
    Finish(PackAll(Packing([], ""), paragraphs, size, overlap))
  }

  /** The `for` loop of `split_into_chunks`, updating its two variables in
      place. */
  method SplitIntoChunksLoop(text: string, size: nat, overlap: nat) returns (chunks: seq<string>)
    ensures chunks == SplitIntoChunks(text, size, overlap)
  {
    var paragraphs := SplitParagraphs(text);
    chunks := [];
    var current := "";
    for i := 0 to |paragraphs|
      invariant PackAll(Packing(chunks, current), paragraphs[i..], size, overlap)
        == PackAll(Packing([], ""), paragraphs, size, overlap)
    {
      var paragraph := paragraphs[i];
      if |current| + |paragraph| > size {
        if current != [] {
          chunks := chunks + [Strip(current)];
          current := OverlapTail(current, overlap) + "\n\n" + paragraph;
        } else {
          chunks := chunks + [paragraph];
        }
      } else {
        current := current + "\n\n" + paragraph;
      }
      assert paragraphs[i..][1..] == paragraphs[i + 1..];
    }
    if current != [] {
      chunks := chunks + [Strip(current)];
    }
  }

  /** `a` occurs in `b` at index `i`. */
  predicate OccursAt(a: string, b: string, i: nat)
  {
    i + |a| <= |b| && b[i..i + |a|] == a
  }

  predicate Occurs(a: string, b: string)
  {
    exists i :: 0 <= i <= |b| && OccursAt(a, b, i)
  }

  /** A stripped string occurs in the string it was stripped from. */
  lemma StripOccursIn(t: string)
    ensures OccursAt(Strip(t), t, LeadingSpaces(t))
  {
  }

  /** Stripping keeps occurrences: the stripped text of a piece of `s`
      occurs in the stripped `s`. */
  lemma StripOccurs(t: string, s: string, i: nat)
    requires OccursAt(t, s, i)
    ensures Occurs(Strip(t), Strip(s))
  {
    var st := Strip(t);
    var ss := Strip(s);
    if st == [] {
      assert OccursAt(st, ss, 0);
    } else {
      var j := StripOccursNonEmpty(t, s, i);
      assert j <= |ss|;
    }
  }

  lemma StripOccursNonEmpty(t: string, s: string, i: nat) returns (j: nat)
    requires OccursAt(t, s, i) && Strip(t) != []
    ensures OccursAt(Strip(t), Strip(s), j)
  {
    j := TrimmedInside(s, t, i, Strip(t), LeadingSpaces(t), Strip(s), LeadingSpaces(s));
  }

  /** The trimmed window `st` of a piece `t` of `s`, which starts and ends
      with non-whitespace, occurs in any window `ss` of `s` outside which
      `s` holds only whitespace. */
  lemma TrimmedInside(s: string, t: string, i: nat, st: string, a: nat, ss: string, lo: nat) returns (j: nat)
    requires OccursAt(t, s, i)
    requires st != [] && !IsSpace(st[0]) && !IsSpace(st[|st| - 1])
    requires a + |st| <= |t| && st == t[a..a + |st|]
    requires lo + |ss| <= |s| && ss == s[lo..lo + |ss|]
    requires AllSpace(s[..lo]) && AllSpace(s[lo + |ss|..])
    ensures OccursAt(st, ss, j)
  {
    var x := i + a;
    var n := |st|;
    assert s[x] == st[0] && s[x + n - 1] == st[n - 1];
    assert forall k :: 0 <= k < lo ==> s[k] == s[..lo][k];
    assert lo <= x;
    assert forall k :: lo + |ss| <= k < |s| ==> s[k] == s[lo + |ss|..][k - lo - |ss|];
    assert x + n <= lo + |ss|;
    j := x - lo;
    TrimOccurs(s, t, i, a, n, lo, |ss|);
  }

  /** The window `t[a..a + n]` of a piece `t` of `s` occurs in any window
      of `s` that covers it. */
  lemma TrimOccurs(s: string, t: string, i: nat, a: nat, n: nat, lo: nat, m: nat)
    requires OccursAt(t, s, i) && a + n <= |t|
    requires lo <= i + a && i + a + n <= lo + m <= |s|
    ensures OccursAt(t[a..a + n], s[lo..lo + m], i + a - lo)
  {
    var u := s[lo..lo + m][i + a - lo..i + a - lo + n];
    var v := t[a..a + n];
    assert forall k :: 0 <= k < n ==> u[k] == s[i + a + k] == v[k];
  }

  /** A paragraph is kept by the packing state: its stripped text occurs in
      an emitted chunk, or the paragraph occurs in the chunk being filled. */
  predicate Kept(paragraph: string, st: Packing)
  {
    || Occurs(paragraph, st.current)
    || (exists k :: 0 <= k < |st.chunks| && Occurs(Strip(paragraph), st.chunks[k]))
  }

  /** Adding a paragraph keeps every paragraph kept before. */
  lemma AddKeeps(st: Packing, paragraph: string, size: nat, overlap: nat, p: string)
    requires Kept(p, st)
    ensures Kept(p, AddParagraph(st, paragraph, size, overlap))
  {
    var r := AddParagraph(st, paragraph, size, overlap);
    if k :| 0 <= k < |st.chunks| && Occurs(Strip(p), st.chunks[k]) {
      assert st.chunks[k] == r.chunks[..|st.chunks|][k];
    } else {
      var i :| 0 <= i <= |st.current| && OccursAt(p, st.current, i);
      if |r.chunks| > |st.chunks| && st.current != [] {
        StripOccurs(p, st.current, i);
        assert Strip(st.current) == r.chunks[|st.chunks|];
      } else if |r.chunks| > |st.chunks| {
        assert r.current == st.current;
      } else {
        assert r.current[..|st.current|] == st.current;
        assert r.current[i..i + |p|] == r.current[..|st.current|][i..i + |p|];
        assert OccursAt(p, r.current, i);
      }
    }
  }

  /** The paragraph just added is kept. */
  lemma AddKeepsNew(st: Packing, paragraph: string, size: nat, overlap: nat)
    ensures Kept(paragraph, AddParagraph(st, paragraph, size, overlap))
  {
    var r := AddParagraph(st, paragraph, size, overlap);
    if |r.chunks| > |st.chunks| && st.current == [] {
      StripOccursIn(paragraph);
      assert Occurs(Strip(paragraph), r.chunks[|st.chunks|]);
    } else {
      assert OccursAt(paragraph, r.current, |r.current| - |paragraph|);
    }
  }

  lemma {:induction false} PackKeeps(st: Packing, paragraphs: seq<string>, size: nat, overlap: nat, p: string)
    requires Kept(p, st)
    ensures Kept(p, PackAll(st, paragraphs, size, overlap))
    decreases |paragraphs|
  {
    if paragraphs != [] {
      AddKeeps(st, paragraphs[0], size, overlap, p);
      PackKeeps(AddParagraph(st, paragraphs[0], size, overlap), paragraphs[1..], size, overlap, p);
    }
  }

  /** Every paragraph of a list is kept. */
  predicate AllKept(paragraphs: seq<string>, st: Packing)
  {
    forall k :: 0 <= k < |paragraphs| ==> Kept(paragraphs[k], st)
  }

  /** After the loop every paragraph is kept. */
  lemma {:induction false} PackKeepsAll(st: Packing, paragraphs: seq<string>, size: nat, overlap: nat)
    ensures AllKept(paragraphs, PackAll(st, paragraphs, size, overlap))
    decreases |paragraphs|
  {
    if paragraphs != [] {
      var next := AddParagraph(st, paragraphs[0], size, overlap);
      var r := PackAll(next, paragraphs[1..], size, overlap);
      AddKeepsNew(st, paragraphs[0], size, overlap);
      PackKeeps(next, paragraphs[1..], size, overlap, paragraphs[0]);
      PackKeepsAll(next, paragraphs[1..], size, overlap);
      KeptCons(paragraphs[0], paragraphs[1..], r);
      assert [paragraphs[0]] + paragraphs[1..] == paragraphs;
    }
  }

  lemma KeptCons(first: string, rest: seq<string>, st: Packing)
    requires Kept(first, st) && AllKept(rest, st)
    ensures AllKept([first] + rest, st)
  {
    forall k | 0 <= k < |[first] + rest| ensures Kept(([first] + rest)[k], st) {
      if k > 0 {
        assert ([first] + rest)[k] == rest[k - 1];
      }
    }
  }

  /** The final flush turns a kept paragraph into one whose stripped text
      occurs in a chunk. */
  lemma FinishKeeps(st: Packing, p: string)
    requires Kept(p, st) && Started(st)
    ensures exists c :: c in Finish(st) && Occurs(Strip(p), c)
  {
    var chunks := Finish(st);
    if Occurs(p, st.current) && st.current != [] {
      var i :| 0 <= i <= |st.current| && OccursAt(p, st.current, i);
      StripOccurs(p, st.current, i);
      assert Strip(st.current) in chunks;
    } else if Occurs(p, st.current) {
      assert |Strip(p)| == 0;
      assert OccursAt(Strip(p), chunks[0], 0);
      assert chunks[0] in chunks;
    } else {
      var k :| 0 <= k < |st.chunks| && Occurs(Strip(p), st.chunks[k]);
      assert st.chunks[k] in chunks;
    }
  }

  /** No text is lost: the stripped text of every paragraph occurs in one
      of the chunks. */
  lemma ParagraphsKept(text: string, size: nat, overlap: nat)
    ensures var paragraphs := SplitParagraphs(text);
      forall k :: 0 <= k < |paragraphs| ==>
        exists c :: c in SplitIntoChunks(text, size, overlap) && Occurs(Strip(paragraphs[k]), c)
  {
    var paragraphs := SplitParagraphs(text);
    var st := PackAll(Packing([], ""), paragraphs, size, overlap);
    PackKeepsAll(Packing([], ""), paragraphs, size, overlap);
    PackCount(Packing([], ""), paragraphs, size, overlap);
    forall k | 0 <= k < |paragraphs|
      ensures exists c :: c in SplitIntoChunks(text, size, overlap) && Occurs(Strip(paragraphs[k]), c)
    {
      FinishKeeps(st, paragraphs[k]);
    }
  }

  /** An empty text is one empty paragraph, which is appended after a
      blank line and stripped away again: the result is one empty chunk,
      not an empty list. */
  lemma EmptyTextOneEmptyChunk(size: nat, overlap: nat)
    ensures SplitIntoChunks("", size, overlap) == [""]
  {
    assert NextBlankLine("", 0) == 0;
    var st := AddParagraph(Packing([], ""), "", size, overlap);
    assert st == Packing([], "\n\n");
    assert [""][1..] == [];
    assert PackAll(Packing([], ""), [""], size, overlap) == PackAll(st, [], size, overlap);
    assert AllSpace(st.current);
  }

  /** `chunk_documents(documents)`: every document split with the default
      chunk size 1000 and overlap 200. */
  function ChunkDocuments(docs: map<string, string>): (r: map<string, seq<string>>)
    ensures r.Keys == docs.Keys
    ensures forall name :: name in docs ==> r[name] == SplitIntoChunks(docs[name], LegacyChunkSize, LegacyOverlap)
  {
    map name | name in docs :: SplitIntoChunks(docs[name], LegacyChunkSize, LegacyOverlap)
  }
}
