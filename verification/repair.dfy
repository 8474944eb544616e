/**
 The overlap repair pass: in every document, a chunk whose stripped text
 starts with a lower-case letter, following a chunk whose stripped text does
 not end a sentence, gets the last sentence of that previous chunk put in
 front of it. The pass runs left to right over the chunk list and reads each
 previous chunk after its own repair.
 */
module Repair {
  import opened Text

  /** A chunk as the repair sees it: its text and everything else about it,
      which the repair never touches. */
  datatype Record<M> = Record(text: string, metadata: M)

  /** The characters that end a sentence. */
  predicate IsTerminal(c: char)
  {
    c == '.' || c == '!' || c == '?'
  }

  /** `p` is where a match of `(?<=[.!?])\s+` can begin: a whitespace
      character right after sentence-ending punctuation. */
  predicate IsBreak(s: string, p: int)
  {
    0 < p < |s| && IsTerminal(s[p - 1]) && IsSpace(s[p])
  }

  predicate NoBreak(s: string)
  {
    forall p :: 0 <= p < |s| ==> !IsBreak(s, p)
  }

  /** The first break at or after `i`, or `|s|` when there is none. */
  function BreakFrom(s: string, i: nat): (p: nat)
    requires 1 <= i <= |s|
    ensures i <= p <= |s|
    ensures p < |s| ==> IsBreak(s, p)
    ensures forall j :: i <= j < p ==> !IsBreak(s, j)
    decreases |s| - i
  {
    if i == |s| then |s| else if IsBreak(s, i) then i else BreakFrom(s, i + 1)
  }

  function FirstBreak(s: string): (p: nat)
    ensures p <= |s|
    ensures p < |s| ==> IsBreak(s, p)
    ensures forall j :: 0 <= j < p ==> !IsBreak(s, j)
  {
    if s == [] then 0 else BreakFrom(s, 1)
  }

  /** `re.split(r"(?<=[.!?])\s+", s)`: the pieces between the whitespace
      runs that follow sentence-ending punctuation. */
  function SplitSentences(s: string): (r: seq<string>)
    ensures |r| >= 1
    decreases |s|
  {
    var p := FirstBreak(s);
    if p == |s| then [s]
    else [s[..p]] + SplitSentences(s[SkipRun(s, p)..])
  }

  /** The last piece of a text with a break is the last piece of what
      follows the break's whitespace run. */
  lemma SplitSentencesLast(s: string)
    requires FirstBreak(s) < |s|
    ensures Last(SplitSentences(s)) == Last(SplitSentences(s[SkipRun(s, FirstBreak(s))..]))
  {
    var p := FirstBreak(s);
    LastCons(s[..p], SplitSentences(s[SkipRun(s, p)..]));
  }

  lemma LastCons<T>(x: T, xs: seq<T>)
    requires xs != []
    ensures Last([x] + xs) == Last(xs)
  {
  }

  /** The last piece of `SplitSentences`, stripped: for a stripped text,
      the suffix after its last sentence break. */
  function LastSentence(s: string): (t: string)
    ensures IsStripped(t)
    ensures IsStripped(s) ==> IsLastPiece(s, t)
  {
    LastSentencePiece(s);
    Strip(Last(SplitSentences(s)))
  }

  /** `t` is what the sentence split leaves last of `s`: the suffix after
      the last whitespace run that follows sentence-ending punctuation, or
      all of `s` when there is no such run. It holds no break itself. */
  predicate IsLastPiece(s: string, t: string)
  {
    && |t| <= |s|
    && s[|s| - |t|..] == t
    && NoBreak(t)
    && (|t| == |s| ==> NoBreak(s))
    && (|t| < |s| ==>
          && (t == [] || !IsSpace(t[0]))
          && exists p :: 0 < p <= |s| - |t| && IsBreak(s, p) && AllSpace(s[p..|s| - |t|]))
  }

  /** Splitting off the first piece keeps the last piece of the rest. */
  lemma LastPieceStep(s: string, p: nat, q: nat, t: string, last: string)
    requires p == FirstBreak(s) < |s|
    requires q == SkipRun(s, p) && t == s[q..]
    requires IsLastPiece(t, last)
    ensures IsLastPiece(s, last)
  {
    assert s[|s| - |last|..] == t[|t| - |last|..];
    SkipRunSpec(s, p);
    if |last| == |t| {
      assert s[p..|s| - |last|] == s[p..q];
    } else {
      var p' :| 0 < p' <= |t| - |last| && IsBreak(t, p') && AllSpace(t[p'..|t| - |last|]);
      assert IsBreak(s, q + p') by {
        assert s[q + p' - 1] == t[p' - 1] && s[q + p'] == t[p'];
      }
      assert s[q + p'..|s| - |last|] == t[p'..|t| - |last|];
    }
  }

  /** The last element of a non-empty sequence. */
  function Last<T>(xs: seq<T>): T
    requires xs != []
  {
    xs[|xs| - 1]
  }

  lemma {:induction false} LastPieceSpec(s: string)
    ensures IsLastPiece(s, Last(SplitSentences(s)))
    decreases |s|
  {
    var p := FirstBreak(s);
    if p < |s| {
      var q := SkipRun(s, p);
      var t := s[q..];
      var pieces := SplitSentences(t);
      LastPieceSpec(t);
      SplitSentencesLast(s);
      LastPieceStep(s, p, q, t, Last(pieces));
    } else {
      assert SplitSentences(s) == [s];
      LastPieceWhole(s);
    }
  }

  /** A text without breaks is its own last piece. */
  lemma LastPieceWhole(s: string)
    requires NoBreak(s)
    ensures IsLastPiece(s, s)
  {
    assert s[|s| - |s|..] == s;
  }

  /** The last piece of a stripped text needs no stripping. */
  lemma StrippedLastPiece(s: string, t: string)
    requires IsStripped(s) && IsLastPiece(s, t)
    ensures IsStripped(t)
  {
    if t != [] {
      assert t[|t| - 1] == s[|s| - 1];
      if |t| == |s| {
        assert t == s;
      }
    }
  }

  /** The last piece of a stripped text, stripped, is that piece. */
  lemma LastSentencePiece(s: string)
    ensures IsStripped(s) ==> IsLastPiece(s, Strip(Last(SplitSentences(s))))
  {
    if IsStripped(s) {
      LastPieceSpec(s);
      StrippedLastPiece(s, Last(SplitSentences(s)));
      StripStripped(Last(SplitSentences(s)));
    }
  }

  /** Without any break, the last sentence is the whole text, stripped. */
  lemma LastSentenceWithoutBreak(s: string)
    requires NoBreak(s)
    ensures LastSentence(s) == Strip(s)
  {
    assert SplitSentences(s) == [s];
  }

  predicate StartsLower(s: string)
  {
    s != [] && IsLower(s[0]) && !IsDigit(s[0])
  }

  predicate EndsSentence(s: string)
  {
    s != [] && IsTerminal(s[|s| - 1])
  }

  /** The repair condition: the stripped current text starts with a
      lower-case letter and the stripped previous text does not end a
      sentence. */
  predicate NeedsRepair(prevText: string, curText: string)
  {
    StartsLower(Strip(curText)) && !EndsSentence(Strip(prevText))
  }

  /** One step of the repair loop, given the previous chunk's current
      text. Only the text can change, and only when the condition holds. */
  function RepairChunk<M>(prevText: string, cur: Record<M>): (r: Record<M>)
    ensures r.metadata == cur.metadata
    ensures !NeedsRepair(prevText, cur.text) ==> r == cur
    ensures AllSpace(cur.text) ==> r == cur
    ensures EndsSentence(Strip(prevText)) ==> r == cur
  {
    if NeedsRepair(prevText, cur.text) then
      Record(LastSentence(Strip(prevText)) + " " + Strip(cur.text), cur.metadata)
    else cur
  }

  /** A repaired text is the last piece of the stripped previous text, a
      space, and the stripped current text. */
  lemma RepairChunkRewrite<M>(prevText: string, cur: Record<M>)
    requires NeedsRepair(prevText, cur.text)
    ensures var text := RepairChunk(prevText, cur).text;
      var k := |text| - |Strip(cur.text)| - 1;
      && 0 <= k
      && text[k..] == " " + Strip(cur.text)
      && IsLastPiece(Strip(prevText), text[..k])
  {
    var prev := Strip(prevText);
    var carried := LastSentence(prev);
    var rest := Strip(cur.text);
    assert RepairChunk(prevText, cur).text == carried + " " + rest;
    SpaceJoinParts(carried, rest);
  }

  lemma SpaceJoinParts(a: string, b: string)
    ensures var text := a + " " + b;
      text[|text| - |b| - 1..] == " " + b && text[..|text| - |b| - 1] == a
  {
  }

  /** `out` follows `input` under `step`: as long, the same first element,
      and every later element `step` of the element before it in `out` and
      its own in `input`. */
  ghost predicate Chained<R>(input: seq<R>, out: seq<R>, step: (R, R) -> R)
  {
    && |out| == |input|
    && (|input| > 0 ==> out[0] == input[0])
    && forall i {:trigger out[i], input[i]} :: 1 <= i < |input| ==> out[i] == step(out[i - 1], input[i])
  }

  /** The repair step between two chunk records. */
  function Step<M>(prev: Record<M>, cur: Record<M>): Record<M>
  {
    RepairChunk(prev.text, cur)
  }

  /** The reference for one document's repair: the chunk count and chunk 0
      stay, and every later chunk is the repair step applied to the input
      chunk with the already repaired chunk before it. */
  ghost predicate Repaired<M>(input: seq<Record<M>>, out: seq<Record<M>>)
  {
    Chained(input, out, Step)
  }

  /** The chain that continues from `prev` along `rest`. */
  function ChainFrom<R>(prev: R, rest: seq<R>, step: (R, R) -> R): (out: seq<R>)
    ensures Chained([prev] + rest, [prev] + out, step)
    decreases |rest|
  {
    if rest == [] then []
    else
      var first := step(prev, rest[0]);
      var tail := ChainFrom(first, rest[1..], step);
      ChainedCons(prev, rest, tail, step);
      [first] + tail
  }

  /** The repair of one document's chunk list; a list of fewer than two
      chunks is left as it is. */
  function RepairDocument<M>(chunks: seq<Record<M>>): (out: seq<Record<M>>)
    ensures Repaired(chunks, out)
  {
    if |chunks| < 2 then chunks
    else
      ConsHead(chunks);
      [chunks[0]] + ChainFrom(chunks[0], chunks[1..], Step)
  }

  /** A property that the first element of a chain has, and that every step
      keeps when the input element has a second property, holds all along
      the chain. */
  lemma {:induction false} ChainedKeeps<R>(input: seq<R>, out: seq<R>, step: (R, R) -> R,
                                           inv: R -> bool, ok: R -> bool, i: nat)
    requires Chained(input, out, step) && i < |input|
    requires inv(input[0])
    requires forall k :: 1 <= k < |input| ==> ok(input[k])
    requires forall a, b :: inv(a) && ok(b) ==> inv(step(a, b))
    ensures inv(out[i])
  {
    if i > 0 {
      ChainedKeeps(input, out, step, inv, ok, i - 1);
      assert out[i] == step(out[i - 1], input[i]);
    }
  }

  lemma ChainedAt<R>(input: seq<R>, out: seq<R>, step: (R, R) -> R, i: nat)
    requires Chained(input, out, step) && 1 <= i < |input|
    ensures out[i] == step(out[i - 1], input[i])
  {
  }

  /** Prepending an element to a chain's input prepends it to the chain. */
  lemma ChainedCons<R>(prev: R, rest: seq<R>, tail: seq<R>, step: (R, R) -> R)
    requires rest != []
    requires Chained([step(prev, rest[0])] + rest[1..], [step(prev, rest[0])] + tail, step)
    ensures Chained([prev] + rest, [prev] + ([step(prev, rest[0])] + tail), step)
  {
    var first := step(prev, rest[0]);
    var input, out := [prev] + rest, [prev] + ([first] + tail);
    var input', out' := [first] + rest[1..], [first] + tail;
    forall i | 1 <= i < |input| ensures out[i] == step(out[i - 1], input[i]) {
      if i > 1 {
        assert out[i] == out'[i - 1] && out[i - 1] == out'[i - 2] && input[i] == input'[i - 1];
      }
    }
  }

  /** A chain is determined by its input. */
  lemma {:induction false} ChainedUnique<R>(input: seq<R>, a: seq<R>, b: seq<R>, step: (R, R) -> R)
    requires Chained(input, a, step) && Chained(input, b, step)
    ensures a == b
  {
    forall i | 0 <= i < |input| ensures a[i] == b[i] {
      ChainedAgree(input, a, b, step, i);
    }
  }

  lemma {:induction false} ChainedAgree<R>(input: seq<R>, a: seq<R>, b: seq<R>, step: (R, R) -> R, i: nat)
    requires Chained(input, a, step) && Chained(input, b, step) && i < |input|
    ensures a[i] == b[i]
  {
    if i > 0 {
      ChainedAgree(input, a, b, step, i - 1);
      assert a[i] == step(a[i - 1], input[i]) && b[i] == step(b[i - 1], input[i]);
    }
  }

  /** A chain extends by one element: `step` of its last element and the
      new input. */
  lemma ChainedSnoc<R>(input: seq<R>, out: seq<R>, step: (R, R) -> R, x: R)
    requires Chained(input, out, step) && |input| > 0
    ensures Chained(input + [x], out + [step(out[|out| - 1], x)], step)
  {
    var input' := input + [x];
    var out' := out + [step(out[|out| - 1], x)];
    forall i | 1 <= i < |input'| ensures out'[i] == step(out'[i - 1], input'[i]) {
      if i < |input| {
        assert out'[i] == out[i] && input'[i] == input[i] && out'[i - 1] == out[i - 1];
      }
    }
  }

  /** A chain over a prefix of `input` extends by the next input. */
  lemma ChainedExtend<R>(input: seq<R>, out: seq<R>, step: (R, R) -> R, i: nat)
    requires 1 <= i < |input| && Chained(input[..i], out, step)
    ensures Chained(input[..i + 1], out + [step(out[i - 1], input[i])], step)
  {
    ChainedSnoc(input[..i], out, step, input[i]);
    assert input[..i + 1] == input[..i] + [input[i]];
  }

  /** The repair loop over one document: each chunk from the second on is
      repaired against the chunk before it as already repaired. */
  method FixOverlapInDocument<M>(chunks: seq<Record<M>>) returns (out: seq<Record<M>>)
    ensures Repaired(chunks, out)
    ensures out == RepairDocument(chunks)
  {
    if |chunks| < 2 {
      out := chunks;
    } else {
      out := [chunks[0]];
      var i := 1;
      assert chunks[..1] == [chunks[0]];
      while i < |chunks|
        invariant 1 <= i <= |chunks| && |out| == i
        invariant Chained(chunks[..i], out, Step)
      {
        var next := RepairChunk(out[i - 1].text, chunks[i]);
        assert next == Step(out[i - 1], chunks[i]);
        ChainedExtend(chunks, out, Step, i);
        out := out + [next];
        i := i + 1;
      }
      assert chunks[..i] == chunks;
    }
    ChainedUnique(chunks, out, RepairDocument(chunks), Step);
  }

  /** The repair over every document. */
  function FixOverlap<M>(docs: map<string, seq<Record<M>>>): (r: map<string, seq<Record<M>>>)
    ensures r.Keys == docs.Keys
    ensures forall name :: name in docs ==> Repaired(docs[name], r[name])
  {
    map name | name in docs :: RepairDocument(docs[name])
  }

  /** What the repair never changes: the chunk count, every chunk's
      metadata, chunk 0, and a document of fewer than two chunks. */
  lemma RepairedPreserves<M>(input: seq<Record<M>>, out: seq<Record<M>>)
    requires Repaired(input, out)
    ensures |out| == |input|
    ensures forall i :: 0 <= i < |input| ==> out[i].metadata == input[i].metadata
    ensures |input| < 2 ==> out == input
  {
    forall i | 0 <= i < |input| ensures out[i].metadata == input[i].metadata {
      if i > 0 {
        assert out[i] == Step(out[i - 1], input[i]);
      }
    }
    if |input| == 1 {
      assert out == [out[0]] && input == [input[0]];
    }
  }

  predicate NoTerminal(s: string)
  {
    forall i :: 0 <= i < |s| ==> !IsTerminal(s[i])
  }

  function Texts<M>(chunks: seq<Record<M>>): (texts: seq<string>)
    ensures |texts| == |chunks|
    ensures forall k :: 0 <= k < |chunks| ==> texts[k] == chunks[k].text
  {
    seq(|chunks|, k requires 0 <= k < |chunks| => chunks[k].text)
  }

  /** The inputs of a cascade: stripped non-empty chunks without
      sentence-ending punctuation, each after the first starting with a
      lower-case letter. */
  predicate CascadeInput<M>(input: seq<Record<M>>)
  {
    && (forall k :: 0 <= k < |input| ==> Plain(input[k].text))
    && (forall k :: 1 <= k < |input| ==> StartsLower(input[k].text))
  }

  /** A non-empty stripped text without sentence-ending punctuation. */
  predicate Plain(s: string)
  {
    s != [] && IsStripped(s) && NoTerminal(s)
  }

  /** Along a cascade every repaired text stays stripped and free of
      sentence-ending punctuation, and grows by a space and the next input
      text. */
  lemma CascadeGrows<M>(input: seq<Record<M>>, out: seq<Record<M>>, i: nat)
    requires Repaired(input, out) && CascadeInput(input) && i < |input|
    ensures Plain(out[i].text)
    ensures i > 0 ==> out[i].text == out[i - 1].text + " " + input[i].text
  {
    var plain := (r: Record<M>) => Plain(r.text);
    var next := (r: Record<M>) => Plain(r.text) && StartsLower(r.text);
    forall a, b | plain(a) && next(b) ensures plain(Step(a, b)) {
      CascadeStep(a, b);
    }
    ChainedKeeps(input, out, Step, plain, next, i);
    if i > 0 {
      ChainedKeeps(input, out, Step, plain, next, i - 1);
      ChainedAt(input, out, Step, i);
      CascadeStep(out[i - 1], input[i]);
    }
  }

  lemma JoinPrefix(sep: string, xs: seq<string>, i: nat)
    requires 0 < i < |xs|
    ensures Join(sep, xs[..i + 1]) == Join(sep, xs[..i]) + sep + xs[i]
  {
    assert xs[..i + 1] == xs[..i] + [xs[i]];
    JoinSnoc(sep, xs[..i], xs[i]);
  }

  /** The cascade: in a run of stripped chunks without sentence-ending
      punctuation, each starting lower-case after the first, every chunk
      ends up carrying all the chunks before it, joined by spaces. */
  lemma {:induction false} Cascade<M>(input: seq<Record<M>>, out: seq<Record<M>>, i: nat)
    requires Repaired(input, out) && CascadeInput(input) && i < |input|
    ensures out[i].text == Join(" ", Texts(input)[..i + 1])
  {
    var texts := Texts(input);
    var outs := Texts(out);
    forall k | 1 <= k < |texts| ensures outs[k] == outs[k - 1] + " " + texts[k] {
      CascadeGrows(input, out, k);
    }
    JoinChain(texts, outs, i);
  }

  /** A chain of texts, each the one before, a space and the next input,
      spells out the inputs joined by spaces. */
  lemma {:induction false} JoinChain(texts: seq<string>, outs: seq<string>, i: nat)
    requires |outs| == |texts| && i < |texts| && outs[0] == texts[0]
    requires forall k {:trigger outs[k], texts[k]} :: 1 <= k < |texts| ==> outs[k] == outs[k - 1] + " " + texts[k]
    ensures outs[i] == Join(" ", texts[..i + 1])
  {
    if i == 0 {
      assert texts[..1] == [texts[0]];
    } else {
      JoinChain(texts, outs, i - 1);
      JoinPrefix(" ", texts, i);
    }
  }

  /** One step of the cascade: the text so far, a space, the next text. */
  lemma CascadeStep<M>(prev: Record<M>, cur: Record<M>)
    requires Plain(prev.text) && Plain(cur.text) && StartsLower(cur.text)
    ensures Step(prev, cur).text == prev.text + " " + cur.text
    ensures Plain(prev.text + " " + cur.text)
  {
    StripStripped(prev.text);
    StripStripped(cur.text);
    assert NeedsRepair(prev.text, cur.text);
    LastSentenceWithoutBreak(prev.text);
    PlainJoin(prev.text, cur.text);
  }

  /** Two plain texts joined by a space form a plain text. */
  lemma PlainJoin(a: string, b: string)
    requires Plain(a) && Plain(b)
    ensures Plain(a + " " + b)
  {
    var text := a + " " + b;
    assert text[0] == a[0] && text[|text| - 1] == b[|b| - 1];
    forall k | 0 <= k < |text| ensures !IsTerminal(text[k]) {
      if k < |a| {
        assert text[k] == a[k];
      } else if k > |a| {
        assert text[k] == b[k - |a| - 1];
      }
    }
  }

  /** Two chunks: a stripped first chunk without sentence-ending
      punctuation and a stripped second chunk starting lower-case are
      glued with a space into the second chunk. */
  lemma RepairPair<M>(a: string, b: string, m: M, m': M)
    requires a != [] && IsStripped(a) && NoTerminal(a)
    requires IsStripped(b) && StartsLower(b)
    ensures RepairDocument([Record(a, m), Record(b, m')]) == [Record(a, m), Record(a + " " + b, m')]
  {
    var out := RepairDocument([Record(a, m), Record(b, m')]);
    StripStripped(a);
    StripStripped(b);
    LastSentenceWithoutBreak(a);
    assert out[1] == RepairChunk(a, Record(b, m'));
  }

  /** "Документ содержит правила" followed by "регистрации участников."
      become the full sentence in the second chunk. */
  lemma SentenceContinuation<M>(m: M, m': M)
    ensures RepairDocument([Record("Документ содержит правила", m), Record("регистрации участников.", m')])
      == [Record("Документ содержит правила", m), Record("Документ содержит правила" + " " + "регистрации участников.", m')]
  {
    RepairPair("Документ содержит правила", "регистрации участников.", m, m');
  }

  /** A previous chunk ending a sentence leaves the next chunk alone. */
  lemma SentenceEndStops<M>(a: string, b: Record<M>, m: M)
    requires a != [] && IsStripped(a) && IsTerminal(a[|a| - 1])
    ensures RepairDocument([Record(a, m), b]) == [Record(a, m), b]
  {
    StripStripped(a);
  }

  /** The repair is not idempotent: a second pass carries the same prefix
      again. */
  lemma RepairTwice<M>(m: M)
    ensures RepairDocument([Record("ab", m), Record("cd", m)]) == [Record("ab", m), Record("ab" + " " + "cd", m)]
    ensures RepairDocument(RepairDocument([Record("ab", m), Record("cd", m)]))
      == [Record("ab", m), Record("ab" + " " + ("ab" + " " + "cd"), m)]
  {
    RepairPair("ab", "cd", m, m);
    RepairPair("ab", "ab" + " " + "cd", m, m);
  }
}
