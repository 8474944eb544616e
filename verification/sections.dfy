/**
 The section parser: a document is scanned line by line, numbered heading
 lines open sections, the other non-blank lines become the body of the
 section that is open, and each section learns its nesting level from the
 dots of its number and its parent path from the latest earlier section
 whose number is its parent key.
 */
module Sections {
  import opened Text

  datatype Section = Section(
    level: nat,
    number: string,
    title: string,
    content: string,
    parentPath: string)

  /** Titles of this length or longer are not headings. */
  const MaxTitleLength: nat := 200

  /** The number group of the heading pattern, `\d+(?:\.\d+)*\.?`: digit
      groups separated by single dots, with an optional trailing dot. */
  predicate IsNumberLabel(s: string)
  {
    && |s| > 0
    && IsDigit(s[0])
    && (forall i :: 0 <= i < |s| ==> IsDigit(s[i]) || s[i] == '.')
    && (forall i, j :: 0 <= i < |s| && 0 <= j < |s| && j == i + 1 ==> !(s[i] == '.' && s[j] == '.'))
  }

  /** `line` matches `^(\d+(?:\.\d+)*\.?)\s+(.+?)(?:\n|$)` with the number
      group ending at `k` and the whitespace run `\s+` ending at `j`. */
  predicate HeadingSplit(line: string, k: int, j: int)
  {
    && 0 < k < j < |line|
    && IsNumberLabel(line[..k])
    && AllSpace(line[k..j])
  }

  /** The two groups of a match of the heading pattern. */
  datatype HeadingMatch = HeadingMatch(number: string, rest: string)

  /** The heading pattern applied to a line without newlines: the longest
      whitespace run after the number is taken, as the greedy `\s+` does,
      giving one character back to `(.+?)` when the run reaches the end. */
  function MatchHeading(line: string): (m: Option<HeadingMatch>)
    requires '\n' !in line
    ensures m.Some? ==> IsNumberLabel(m.value.number) && m.value.rest != []
    ensures m.Some? ==> StartsWith(line, m.value.number)
    ensures m.Some? ==> |m.value.rest| <= |line| && m.value.rest == line[|line| - |m.value.rest|..]
    ensures m.Some? && IsStripped(line) ==> IsStripped(m.value.rest)
  {
    var k := FirstSpace(line);
    if k == |line| || !IsNumberLabel(line[..k]) then None
    else
      var j := SkipRun(line, k);
      if j < |line| then Some(HeadingMatch(line[..k], line[j..]))
      else if j - k >= 2 then Some(HeadingMatch(line[..k], line[j - 1..]))
      else None
  }

  /** The matcher agrees with the pattern: it succeeds exactly when the line
      splits into a number, a whitespace run and a non-empty rest; the
      number group is the one of every such split, and the rest group is
      the suffix of the line after the longest such run. */
  lemma MatchHeadingIff(line: string)
    requires '\n' !in line
    ensures MatchHeading(line).Some? <==> exists k, j :: HeadingSplit(line, k, j)
    ensures MatchHeading(line).Some? ==>
      MatchHeading(line).value.rest == line[|line| - |MatchHeading(line).value.rest|..]
    ensures forall k, j :: HeadingSplit(line, k, j) ==>
      && MatchHeading(line).value.number == line[..k]
      && j <= |line| - |MatchHeading(line).value.rest|
      && HeadingSplit(line, k, |line| - |MatchHeading(line).value.rest|)
  {
    if MatchHeading(line).Some? {
      MatchHeadingSplits(line);
    }
    forall k, j | HeadingSplit(line, k, j)
      ensures MatchHeading(line).Some?
      ensures MatchHeading(line).value.number == line[..k]
      ensures j <= |line| - |MatchHeading(line).value.rest|
      ensures HeadingSplit(line, k, |line| - |MatchHeading(line).value.rest|)
    {
      SplitMatches(line, k, j);
    }
  }

  /** A successful match splits the line where the rest begins. */
  lemma MatchHeadingSplits(line: string)
    requires '\n' !in line && MatchHeading(line).Some?
    ensures HeadingSplit(line, FirstSpace(line), |line| - |MatchHeading(line).value.rest|)
  {
    var k := FirstSpace(line);
    SkipRunSpec(line, k);
    var j := SkipRun(line, k);
    var m := MatchHeading(line).value;
    if j < |line| {
      assert |line| - |m.rest| == j;
    } else {
      assert |line| - |m.rest| == j - 1;
      AllSpacePrefix(line, k, j - 1, j);
    }
  }

  /** Every split of the line is matched, with the same number group and a
      whitespace run no longer than the matcher's. */
  lemma SplitMatches(line: string, k: int, j: int)
    requires '\n' !in line && HeadingSplit(line, k, j)
    ensures MatchHeading(line).Some?
    ensures MatchHeading(line).value.number == line[..k]
    ensures j <= |line| - |MatchHeading(line).value.rest|
    ensures HeadingSplit(line, k, |line| - |MatchHeading(line).value.rest|)
  {
    NumberSplitUnique(line, k, j);
    SkipRunMaximal(line, k, j);
    MatchHeadingSplits(line);
  }

  /** A number label holds no whitespace, so the number group of any split
      ends at the first whitespace character of the line. */
  lemma NumberSplitUnique(line: string, k: int, j: int)
    requires HeadingSplit(line, k, j)
    ensures FirstSpace(line) == k
  {
    assert IsSpace(line[k..j][0]);
  }

  /** `title.count(".") <= 1` and `len(title) < 200`: the test that keeps
      numbered sentences out of the headings. */
  predicate IsAcceptedTitle(title: string)
  {
    |title| < MaxTitleLength && Count(title, '.') <= 1
  }

  /** What one raw line of a document is to the parser. */
  datatype LineKind = Blank | Heading(number: string, title: string) | Body(line: string)

  function Classify(raw: string): (kind: LineKind)
    requires '\n' !in raw
    ensures '\n' !in Strip(raw)
    ensures kind.Blank? <==> AllSpace(raw)
    ensures kind.Heading? <==>
      && !AllSpace(raw)
      && MatchHeading(Strip(raw)).Some?
      && IsAcceptedTitle(Strip(MatchHeading(Strip(raw)).value.rest))
    ensures kind.Heading? ==>
      && kind.number == MatchHeading(Strip(raw)).value.number
      && kind.title == Strip(MatchHeading(Strip(raw)).value.rest)
    ensures kind.Body? ==> kind.line == Strip(raw) && kind.line != []
    ensures kind.Heading? ==>
      && IsNumberLabel(kind.number)
      && StartsWith(Strip(raw), kind.number)
      && IsAcceptedTitle(kind.title)
      && kind.title != [] && IsStripped(kind.title)
    ensures !kind.Blank? && MatchHeading(Strip(raw)).None? ==> kind.Body?
  {
    StripChars(raw, '\n');
    var line := Strip(raw);
    if line == [] then Blank
    else
      match MatchHeading(line)
      case None => Body(line)
      case Some(m) =>
        StripStripped(m.rest);
        var title := Strip(m.rest);
        if IsAcceptedTitle(title) then Heading(m.number, title) else Body(line)
  }

  /** The nesting level: the number of pieces of `number.split(".")` minus
      one when the number holds a dot, otherwise 1. */
  function Level(number: string): (level: nat)
    ensures level >= 1
    ensures level == (if Count(number, '.') == 0 then 1 else Count(number, '.'))
  {
    if '.' in number then |SplitOn(number, '.')| - 1 else 1
  }

  /** `".".join(number.split(".")[:-1]) + "."`. */
  function ParentKey(number: string): (key: string)
    ensures '.' !in number ==> key == "."
    ensures '.' in number ==>
      && 0 < |key| <= |number|
      && key == number[..|key|]
      && key[|key| - 1] == '.'
      && '.' !in number[|key|..]
  {
    var pieces := SplitOn(number, '.');
    var key := Join(".", pieces[..|pieces| - 1]) + ".";
    if '.' in number then
      SplitOnDropLast(number, '.');
      assert number == key + pieces[|pieces| - 1];
      key
    else key
  }

  /** The index of the latest section in `done` numbered `key`. */
  function FindLatest(done: seq<Section>, key: string): (r: Option<nat>)
    ensures r.Some? ==>
      && r.value < |done|
      && done[r.value].number == key
      && forall j :: r.value < j < |done| ==> done[j].number != key
    ensures r.None? ==> forall j :: 0 <= j < |done| ==> done[j].number != key
  {
    if done == [] then None
    else if done[|done| - 1].number == key then Some(|done| - 1)
    else FindLatest(done[..|done| - 1], key)
  }

  /** A path extended by one more heading: the heading alone when the path
      is empty, otherwise the path, `" > "` and the heading. */
  function PathJoin(parent: string, leaf: string): (path: string)
    ensures parent == "" ==> path == leaf
    ensures parent != "" ==>
      && |path| == |parent| + 3 + |leaf|
      && StartsWith(path, parent)
      && path[|parent|..|parent| + 3] == " > "
      && path[|parent| + 3..] == leaf
  {
    if parent != "" then parent + " > " + leaf else leaf
  }

  /** The path a child of `sec` inherits: the section's own path followed by
      its title. */
  function Breadcrumb(sec: Section): (b: string)
    ensures sec.parentPath == "" ==> b == sec.title
    ensures sec.parentPath != "" ==>
      StartsWith(b, sec.parentPath + " > ") && b[|sec.parentPath| + 3..] == sec.title
  {
    PathJoin(sec.parentPath, sec.title)
  }

  /** `i` is the latest section of `done` numbered `key`. */
  predicate IsLatest(done: seq<Section>, key: string, i: int)
  {
    && 0 <= i < |done|
    && done[i].number == key
    && forall j :: i < j < |done| ==> done[j].number != key
  }

  lemma LatestUnique(done: seq<Section>, key: string, i: int, i': int)
    requires IsLatest(done, key, i) && IsLatest(done, key, i')
    ensures i == i'
  {
  }

  /** The parent path of a new heading numbered `number`, given the sections
      emitted so far; a level-1 heading has none. */
  function ParentPath(done: seq<Section>, number: string): (path: string)
    ensures Level(number) == 1 ==> path == ""
  {
    if Level(number) > 1 then
      match FindLatest(done, ParentKey(number))
      case Some(i) => Breadcrumb(done[i])
      case None => ""
    else ""
  }

  /** The parent path is empty at level 1 or when no earlier section carries
      the parent key, and otherwise the breadcrumb of the latest one that
      does. */
  lemma ParentPathSpec(done: seq<Section>, number: string)
    ensures Level(number) == 1 ==> ParentPath(done, number) == ""
    ensures (forall j :: 0 <= j < |done| ==> done[j].number != ParentKey(number)) ==>
      ParentPath(done, number) == ""
    ensures Level(number) > 1 ==> forall i :: IsLatest(done, ParentKey(number), i) ==>
      ParentPath(done, number) == Breadcrumb(done[i])
  {
    var key := ParentKey(number);
    match FindLatest(done, key)
    case Some(i) =>
      assert IsLatest(done, key, i);
      forall i' | IsLatest(done, key, i') ensures i' == i {
        LatestUnique(done, key, i, i');
      }
    case None =>
  }

  predicate NoNewlines(lines: seq<string>)
  {
    forall k :: 0 <= k < |lines| ==> '\n' !in lines[k]
  }

  /** Every line of the document, classified. */
  function ClassifyAll(lines: seq<string>): (kinds: seq<LineKind>)
    requires NoNewlines(lines)
    ensures |kinds| == |lines|
    ensures forall k :: 0 <= k < |lines| ==> kinds[k] == Classify(lines[k])
  {
    seq(|lines|, k requires 0 <= k < |lines| => Classify(lines[k]))
  }

  /** The parser's state: the closed sections, the open one (if any) and
      the body lines gathered for it. */
  datatype Scanner = Scanner(closed: seq<Section>, open: Option<Section>, body: seq<string>)

  /** Closes the open section, if any, with its gathered lines as content. */
  function Close(st: Scanner): (r: seq<Section>)
    ensures |r| == |st.closed| + (if st.open.Some? then 1 else 0)
    ensures r[..|st.closed|] == st.closed
    ensures st.open.Some? ==>
      && r[|st.closed|].(content := "") == st.open.value.(content := "")
      && r[|st.closed|].content == Strip(Join("\n", st.body))
  {
    match st.open
    case None => st.closed
    case Some(sec) => st.closed + [sec.(content := Strip(Join("\n", st.body)))]
  }

  /** One iteration of the scanning loop: blank lines are skipped, a
      heading closes the open section and opens a new one, any other line
      joins the open section or is dropped when none is open. */
  function Step(st: Scanner, kind: LineKind): (r: Scanner)
    ensures |Close(r)| == |Close(st)| + (if kind.Heading? then 1 else 0)
    ensures |st.closed| <= |r.closed| && r.closed[..|st.closed|] == st.closed
    ensures kind.Blank? ==> r == st
    ensures kind.Body? ==> r.closed == st.closed && r.open == st.open
    ensures kind.Heading? ==>
      && r.closed == Close(st) && r.body == []
      && r.open.Some? && r.open.value.number == kind.number && r.open.value.title == kind.title
  {
    match kind
    case Blank => st
    case Heading(number, title) =>
      var closed := Close(st);
      Scanner(closed, Some(Section(Level(number), number, title, "", ParentPath(closed, number))), [])
    case Body(line) => if st.open.Some? then st.(body := st.body + [line]) else st
  }

  /** The scanning loop over the classified lines: every heading adds one
      section, and no closed section is changed again. */
  function Scan(st: Scanner, kinds: seq<LineKind>): (r: Scanner)
    ensures |Close(r)| == |Close(st)| + |Headings(kinds)|
    ensures |st.closed| <= |r.closed| && r.closed[..|st.closed|] == st.closed
    decreases |kinds|
  {
    if kinds == [] then st
    else
      var next := Step(st, kinds[0]);
      var r := Scan(next, kinds[1..]);
      assert r.closed[..|st.closed|] == r.closed[..|next.closed|][..|st.closed|];
      r
  }

  /** `parse_sections(text)`: one section per accepted heading line. */
  function ParseSections(text: string): (r: seq<Section>)
    ensures NoNewlines(SplitOn(text, '\n'))
    ensures |r| == |Headings(ClassifyAll(SplitOn(text, '\n')))|
  {
    Close(Scan(Scanner([], None, []), ClassifyAll(SplitOn(text, '\n'))))
  }

  /* An independent description of the result, section by section. */

  /** The body of a section: the stripped non-blank lines that follow its
      heading, up to the next heading. */
  function BodyLines(kinds: seq<LineKind>): seq<string>
  {
    if kinds == [] then []
    else match kinds[0]
      case Heading(_, _) => []
      case Blank => BodyLines(kinds[1..])
      case Body(line) => [line] + BodyLines(kinds[1..])
  }

  /** One section per heading line, with the body that follows it; lines
      before the first heading belong to no section. */
  function RefSections(done: seq<Section>, kinds: seq<LineKind>): seq<Section>
    decreases |kinds|
  {
    if kinds == [] then []
    else match kinds[0]
      case Heading(number, title) =>
        var sec := Section(Level(number), number, title,
          Strip(Join("\n", BodyLines(kinds[1..]))), ParentPath(done, number));
        [sec] + RefSections(done + [sec], kinds[1..])
      case _ => RefSections(done, kinds[1..])
  }

  /** The heading lines, in order. */
  function Headings(kinds: seq<LineKind>): (hs: seq<LineKind>)
    ensures forall k :: 0 <= k < |hs| ==> hs[k].Heading?
  {
    if kinds == [] then []
    else if kinds[0].Heading? then [kinds[0]] + Headings(kinds[1..])
    else Headings(kinds[1..])
  }

  lemma {:induction false} ScanOpen(closed: seq<Section>, cur: Section, body: seq<string>, kinds: seq<LineKind>)
    ensures var sec := cur.(content := Strip(Join("\n", body + BodyLines(kinds))));
      Close(Scan(Scanner(closed, Some(cur), body), kinds))
        == closed + [sec] + RefSections(closed + [sec], kinds)
    decreases |kinds|
  {
    if kinds == [] {
      AppendEmpty(body);
    } else {
      var rest := kinds[1..];
      match kinds[0]
      case Blank =>
        ScanOpen(closed, cur, body, rest);
      case Body(line) =>
        ScanOpen(closed, cur, body + [line], rest);
        AppendAssoc(body, [line], BodyLines(rest));
      case Heading(number, title) =>
        var sec := cur.(content := Strip(Join("\n", body)));
        var open := Section(Level(number), number, title, "", ParentPath(closed + [sec], number));
        ScanOpen(closed + [sec], open, [], rest);
        ScanOpenHeading(closed, cur, body, kinds);
    }
  }

  /** The heading case of `ScanOpen`: the open section closes with the body
      gathered so far and the heading opens the next one. */
  lemma {:induction false} ScanOpenHeading(closed: seq<Section>, cur: Section, body: seq<string>, kinds: seq<LineKind>)
    requires kinds != [] && kinds[0].Heading?
    requires var rest := kinds[1..];
      var sec := cur.(content := Strip(Join("\n", body)));
      var open := Section(Level(kinds[0].number), kinds[0].number, kinds[0].title, "",
        ParentPath(closed + [sec], kinds[0].number));
      var next := open.(content := Strip(Join("\n", [] + BodyLines(rest))));
      Close(Scan(Scanner(closed + [sec], Some(open), []), rest))
        == closed + [sec] + [next] + RefSections(closed + [sec] + [next], rest)
    ensures var sec := cur.(content := Strip(Join("\n", body + BodyLines(kinds))));
      Close(Scan(Scanner(closed, Some(cur), body), kinds))
        == closed + [sec] + RefSections(closed + [sec], kinds)
    decreases |kinds|
  {
    AppendEmpty(body);
    AppendEmpty(BodyLines(kinds[1..]));
    var sec := cur.(content := Strip(Join("\n", body)));
    var open := Section(Level(kinds[0].number), kinds[0].number, kinds[0].title, "",
      ParentPath(closed + [sec], kinds[0].number));
    var next := open.(content := Strip(Join("\n", BodyLines(kinds[1..]))));
    AppendAssoc(closed + [sec], [next], RefSections(closed + [sec] + [next], kinds[1..]));
  }

  lemma {:induction false} ScanNone(closed: seq<Section>, body: seq<string>, kinds: seq<LineKind>)
    ensures Close(Scan(Scanner(closed, None, body), kinds)) == closed + RefSections(closed, kinds)
    decreases |kinds|
  {
    if kinds != [] {
      var rest := kinds[1..];
      match kinds[0]
      case Blank =>
        ScanNone(closed, body, rest);
      case Body(_) =>
        ScanNone(closed, body, rest);
      case Heading(number, title) =>
        var open := Section(Level(number), number, title, "", ParentPath(closed, number));
        ScanOpen(closed, open, [], rest);
        assert [] + BodyLines(rest) == BodyLines(rest);
    }
  }

  /** The scanning loop computes the section-by-section description. */
  lemma ParseSectionsIsRef(text: string)
    ensures NoNewlines(SplitOn(text, '\n'))
    ensures ParseSections(text) == RefSections([], ClassifyAll(SplitOn(text, '\n')))
  {
    ScanNone([], [], ClassifyAll(SplitOn(text, '\n')));
  }

  /** The sections `r`, emitted after `done`, are those of the headings
      `hs`, each with its level, its parent path and stripped content. */
  predicate Shaped(done: seq<Section>, r: seq<Section>, hs: seq<LineKind>)
  {
    && |r| == |hs|
    && forall k :: 0 <= k < |r| ==>
      && hs[k] == Heading(r[k].number, r[k].title)
      && r[k].level == Level(r[k].number)
      && r[k].parentPath == ParentPath(done + r[..k], r[k].number)
      && IsStripped(r[k].content)
  }

  lemma ShapedCons(done: seq<Section>, sec: Section, r: seq<Section>, hs: seq<LineKind>)
    requires Shaped(done + [sec], r, hs)
    requires sec.level == Level(sec.number)
    requires sec.parentPath == ParentPath(done, sec.number)
    requires IsStripped(sec.content)
    ensures Shaped(done, [sec] + r, [Heading(sec.number, sec.title)] + hs)
  {
    var r' := [sec] + r;
    var hs' := [Heading(sec.number, sec.title)] + hs;
    forall k | 0 <= k < |r'|
      ensures hs'[k] == Heading(r'[k].number, r'[k].title)
      ensures r'[k].level == Level(r'[k].number)
      ensures r'[k].parentPath == ParentPath(done + r'[..k], r'[k].number)
      ensures IsStripped(r'[k].content)
    {
      if k == 0 {
        assert done + r'[..0] == done;
      } else {
        assert r'[k] == r[k - 1] && hs'[k] == hs[k - 1];
        assert done + r'[..k] == (done + [sec]) + r[..k - 1] by {
          assert r'[..k] == [sec] + r[..k - 1];
        }
      }
    }
  }

  lemma {:induction false} RefSectionsShape(done: seq<Section>, kinds: seq<LineKind>)
    ensures Shaped(done, RefSections(done, kinds), Headings(kinds))
    decreases |kinds|
  {
    if kinds != [] {
      var rest := kinds[1..];
      match kinds[0]
      case Blank =>
        RefSectionsShape(done, rest);
      case Body(_) =>
        RefSectionsShape(done, rest);
      case Heading(number, title) =>
        var sec := RefSections(done, kinds)[0];
        RefSectionsShape(done + [sec], rest);
        ShapedCons(done, sec, RefSections(done + [sec], rest), Headings(rest));
    }
  }

  /** `parse_sections` returns one section per accepted heading line, in
      document order, each with the level of its number, the parent path
      found among the sections before it, and stripped content. */
  lemma ParseSectionsSpec(text: string)
    ensures NoNewlines(SplitOn(text, '\n'))
    ensures var r := ParseSections(text);
      var hs := Headings(ClassifyAll(SplitOn(text, '\n')));
      && |r| == |hs|
      && forall k :: 0 <= k < |r| ==>
        && hs[k] == Heading(r[k].number, r[k].title)
        && r[k].level == Level(r[k].number) >= 1
        && r[k].parentPath == ParentPath(r[..k], r[k].number)
        && IsStripped(r[k].content)
  {
    ParseSectionsIsRef(text);
    RefSectionsShape([], ClassifyAll(SplitOn(text, '\n')));
    var r := ParseSections(text);
    forall k | 0 <= k < |r| ensures [] + r[..k] == r[..k] { }
  }

  /** A number label, one space and a stripped title match the heading
      pattern with exactly those two groups. */
  lemma MatchNumberSpaceTitle(number: string, title: string)
    requires IsNumberLabel(number)
    requires title != [] && IsStripped(title) && '\n' !in title
    ensures '\n' !in number + " " + title
    ensures IsStripped(number + " " + title)
    ensures MatchHeading(number + " " + title) == Some(HeadingMatch(number, title))
  {
    var line := number + " " + title;
    NumberSpaceTitleParts(number, title);
    assert SkipRun(line, |number|) == |number| + 1;
  }

  /** Where the pattern's pieces lie in `number + " " + title`. */
  lemma NumberSpaceTitleParts(number: string, title: string)
    requires IsNumberLabel(number)
    requires title != [] && IsStripped(title)
    ensures var line := number + " " + title;
      && FirstSpace(line) == |number|
      && line[..|number|] == number
      && LeadingSpaces(line[|number|..]) == 1
      && line[|number| + 1..] == title
  {
    var line := number + " " + title;
    var k := |number|;
    assert forall i :: 0 <= i < k ==> line[i] == number[i];
    assert line[k] == ' ';
    assert line[k..] == " " + title;
    assert (" " + title)[1] == title[0];
  }

  /** A number label, one space and an accepted title make a heading line. */
  lemma ClassifyHeadingLine(number: string, title: string)
    requires IsNumberLabel(number)
    requires title != [] && IsStripped(title) && '\n' !in title
    requires IsAcceptedTitle(title)
    ensures '\n' !in number + " " + title
    ensures Classify(number + " " + title) == Heading(number, title)
  {
    var line := number + " " + title;
    MatchNumberSpaceTitle(number, title);
    StripStripped(line);
    StripStripped(title);
  }

  /** The accepted-title test lets through a sentence that ends in its only
      period, so such a numbered sentence opens a section. */
  lemma NumberedSentenceIsHeading(number: string, words: string)
    requires IsNumberLabel(number)
    requires words != [] && !IsSpace(words[0])
    requires '.' !in words && '\n' !in words
    requires |words| < MaxTitleLength - 1
    ensures '\n' !in number + " " + (words + ".")
    ensures Classify(number + " " + (words + ".")) == Heading(number, words + ".")
  {
    var title := words + ".";
    SentenceTitle(words);
    ClassifyHeadingLine(number, title);
  }

  /** A sentence with one final period is an accepted, stripped title. */
  lemma SentenceTitle(words: string)
    requires words != [] && !IsSpace(words[0])
    requires '.' !in words && '\n' !in words
    requires |words| < MaxTitleLength - 1
    ensures var title := words + ".";
      title != [] && IsStripped(title) && '\n' !in title && IsAcceptedTitle(title)
  {
    var title := words + ".";
    CountAppend(words, ".", '.');
    assert Count(".", '.') == 1;
    assert title[0] == words[0];
    assert title[|title| - 1] == '.';
  }

  /** The level is the number of dots: `2.` and `2.3` are level 1 and
      `2.3.` and `2.3.4` level 2. */
  lemma LevelExamples()
    ensures Level("2.") == 1 && Level("2.3") == 1
    ensures Level("2.3.") == 2 && Level("2.3.4") == 2
  {
    assert Count("2.", '.') == 1;
    assert Count("2.3.", '.') == 2;
    assert Count("2.3", '.') == 1;
    assert Count("2.3.4", '.') == 2;
  }

  /** A number ending in a dot is its own parent key. */
  lemma ParentKeyOfTrailingDot(number: string)
    requires number != [] && number[|number| - 1] == '.'
    ensures ParentKey(number) == number
  {
    assert '.' in number;
  }

  /** Otherwise the parent key is the number up to and including its last
      dot. */
  lemma ParentKeyOfLastDot(number: string, i: nat)
    requires i < |number| && number[i] == '.' && '.' !in number[i + 1..]
    ensures ParentKey(number) == number[..i + 1]
  {
    assert '.' in number;
  }

  /** A number ending in a dot looks up its parent under its own number,
      so it has no parent path unless an earlier section carries that very
      number: `2.3.` after `2.` has none. */
  lemma NoParentForTrailingDot(done: seq<Section>, number: string)
    requires number != [] && number[|number| - 1] == '.'
    requires forall j :: 0 <= j < |done| ==> done[j].number != number
    ensures ParentPath(done, number) == ""
  {
    ParentKeyOfTrailingDot(number);
  }

  /** A number without a trailing dot and with at least two dots finds its
      parent under the number cut after its last dot: `2.3.4` after `2.3.`
      is a child of `2.3.`. */
  lemma ParentForUndottedChild(done: seq<Section>, number: string, i: nat, p: nat)
    requires i < |number| && number[i] == '.' && '.' !in number[i + 1..]
    requires Count(number, '.') >= 2
    requires IsLatest(done, number[..i + 1], p)
    ensures ParentPath(done, number) == Breadcrumb(done[p])
  {
    ParentKeyOfLastDot(number, i);
    ParentPathSpec(done, number);
  }
}
