/**
 The string primitives the chunker relies on, in the meaning Python gives
 them: whitespace and case classes of characters, `str.strip()`,
 `str.split(sep)` with a one-character separator, `sep.join(parts)`,
 `str.split()` with no argument, `str.lower()` and `str.count(c)`.
 */
module Text {

  datatype Option<+T> = None | Some(value: T)

  /** `str.isspace()` for one character; the same class is matched by the
      regular-expression escape `\s` and used by `strip()` and `split()`. */
  predicate IsSpace(c: char)
  {
    || ('\t' <= c <= '\r')
    || ('\U{1C}' <= c <= '\U{1F}')
    || c == ' ' || c == '\U{85}' || c == '\U{A0}' || c == '\U{1680}'
    || ('\U{2000}' <= c <= '\U{200A}')
    || c == '\U{2028}' || c == '\U{2029}' || c == '\U{202F}' || c == '\U{205F}'
    || c == '\U{3000}'
  }

  /** The decimal digits matched by `\d` and accepted by `str.isdigit()`
      (restricted to ASCII). */
  predicate IsDigit(c: char)
  {
    '0' <= c <= '9'
  }

  /** `str.islower()` for one character (Latin and Cyrillic letters; `ª`,
      `µ` and `º` are lower case without an upper-case partner). */
  predicate IsLower(c: char)
  {
    || ('a' <= c <= 'z')
    || c == '\U{AA}' || c == '\U{B5}' || c == '\U{BA}'
    || ('\U{DF}' <= c <= '\U{FF}' && c != '\U{F7}')
    || ('\U{430}' <= c <= '\U{45F}')
  }

  /** `str.lower()` for one character (Latin and Cyrillic letters). */
  function ToLower(c: char): (r: char)
    ensures IsSpace(r) <==> IsSpace(c)
    ensures IsLower(c) ==> r == c
    ensures ToLowerFixed(r)
  {
    if 'A' <= c <= 'Z' then (c as int + 32) as char
    else if '\U{C0}' <= c <= '\U{DE}' && c != '\U{D7}' then (c as int + 32) as char
    else if '\U{410}' <= c <= '\U{42F}' then (c as int + 32) as char
    else if '\U{400}' <= c <= '\U{40F}' then (c as int + 80) as char
    else c
  }

  /** `c` is its own lower case. */
  predicate ToLowerFixed(c: char)
  {
    if 'A' <= c <= 'Z' then false
    else if '\U{C0}' <= c <= '\U{DE}' && c != '\U{D7}' then false
    else if '\U{410}' <= c <= '\U{42F}' then false
    else !('\U{400}' <= c <= '\U{40F}')
  }

  predicate AllSpace(s: string)
  {
    forall i :: 0 <= i < |s| ==> IsSpace(s[i])
  }

  /** No whitespace at either end: what `strip()` leaves behind. */
  predicate IsStripped(s: string)
  {
    s == [] || (!IsSpace(s[0]) && !IsSpace(s[|s| - 1]))
  }

  /** The number of leading whitespace characters of `s`. */
  function LeadingSpaces(s: string): (n: nat)
    ensures n <= |s|
    ensures AllSpace(s[..n])
    ensures n == |s| || !IsSpace(s[n])
  {
    if |s| > 0 && IsSpace(s[0]) then
      var n := 1 + LeadingSpaces(s[1..]);
      assert s[..n] == [s[0]] + s[1..][..n - 1];
      n
    else 0
  }

  /** The end of the whitespace run of `s` that starts at `p`. */
  function SkipRun(s: string, p: nat): (q: nat)
    requires p <= |s|
    ensures p <= q <= |s|
  {
    p + LeadingSpaces(s[p..])
  }

  /** `SkipRun` skips a maximal run of whitespace. */
  lemma SkipRunSpec(s: string, p: nat)
    requires p <= |s|
    ensures AllSpace(s[p..SkipRun(s, p)])
    ensures SkipRun(s, p) == |s| || !IsSpace(s[SkipRun(s, p)])
  {
    var n := LeadingSpaces(s[p..]);
    assert s[p..p + n] == s[p..][..n];
    assert p + n < |s| ==> s[p + n] == s[p..][n];
  }

  /** No whitespace run that starts at `p` reaches past `SkipRun`. */
  lemma SkipRunMaximal(s: string, p: nat, j: nat)
    requires p <= j <= |s| && AllSpace(s[p..j])
    ensures j <= SkipRun(s, p)
  {
    SkipRunSpec(s, p);
  }

  /** A whitespace run shortened at its end is still whitespace. */
  lemma AllSpacePrefix(s: string, a: nat, b: nat, c: nat)
    requires a <= b <= c <= |s| && AllSpace(s[a..c])
    ensures AllSpace(s[a..b])
  {
    assert forall i :: 0 <= i < b - a ==> s[a..b][i] == s[a..c][i];
  }

  /** The number of trailing whitespace characters of `s`. */
  function TrailingSpaces(s: string): (n: nat)
    ensures n <= |s|
    ensures AllSpace(s[|s| - n..])
    ensures n == |s| || !IsSpace(s[|s| - n - 1])
  {
    if |s| > 0 && IsSpace(s[|s| - 1]) then
      var n := 1 + TrailingSpaces(s[..|s| - 1]);
      AllSpaceSnoc(s[..|s| - 1][|s| - n..], s[|s| - 1]);
      assert s[|s| - n..] == s[..|s| - 1][|s| - n..] + [s[|s| - 1]];
      n
    else 0
  }

  lemma AllSpaceSnoc(a: string, c: char)
    requires AllSpace(a) && IsSpace(c)
    ensures AllSpace(a + [c])
  {
  }

  /** `str.strip()`: `s` with its leading and trailing whitespace removed. */
  function Strip(s: string): (r: string)
    ensures |r| <= |s|
    ensures IsStripped(r)
    ensures r == [] <==> AllSpace(s)
    ensures LeadingSpaces(s) + |r| <= |s|
    ensures r == s[LeadingSpaces(s)..LeadingSpaces(s) + |r|]
    ensures AllSpace(s[..LeadingSpaces(s)]) && AllSpace(s[LeadingSpaces(s) + |r|..])
  {
    var a := LeadingSpaces(s);
    if a == |s| then []
    else
      var b := TrailingSpaces(s);
      s[a..|s| - b]
  }

  /** A string that is already stripped is its own strip. */
  lemma StripStripped(s: string)
    requires IsStripped(s)
    ensures Strip(s) == s
  {
    if s != [] {
      assert LeadingSpaces(s) == 0;
      assert !AllSpace(s) by { assert !IsSpace(s[0]); }
    }
  }

  /** Every character of the strip is a character of the original. */
  lemma StripChars(s: string, c: char)
    requires c !in s
    ensures c !in Strip(s)
  {
    var r := Strip(s);
    var a := LeadingSpaces(s);
    forall i | 0 <= i < |r| ensures r[i] != c {
      assert r[i] == s[a + i];
    }
  }

  /** `s.count(c)` for a single character: the multiplicity of `c` in the
      characters of `s`. */
  function Count(s: string, c: char): (n: nat)
    ensures n <= |s|
    ensures n == 0 <==> c !in s
    ensures n == multiset(s)[c]
  {
    if s == [] then 0
    else
      assert s == [s[0]] + s[1..];
      (if s[0] == c then 1 else 0) + Count(s[1..], c)
  }

  lemma CountAppend(a: string, b: string, c: char)
    ensures Count(a + b, c) == Count(a, c) + Count(b, c)
  {
    if a == [] {
      assert a + b == b;
    } else {
      assert (a + b)[0] == a[0];
      assert (a + b)[1..] == a[1..] + b;
      CountAppend(a[1..], b, c);
    }
  }

  /** One character counts once exactly when it is the one counted. */
  lemma CountOne(d: char, c: char)
    ensures Count([d], c) == if d == c then 1 else 0
  {
    assert [d][1..] == [];
  }

  /** The index of the first `c` in `s`, or `|s|` when there is none. */
  function IndexOf(s: string, c: char): (i: nat)
    ensures i <= |s|
    ensures c !in s[..i]
    ensures i < |s| ==> s[i] == c
  {
    if s == [] then 0
    else if s[0] == c then 0
    else
      var i := 1 + IndexOf(s[1..], c);
      assert s[..i] == [s[0]] + s[1..][..i - 1];
      i
  }

  /** `sep.join(parts)`. */
  function Join(sep: string, parts: seq<string>): string
  {
    if |parts| == 0 then ""
    else if |parts| == 1 then parts[0]
    else parts[0] + sep + Join(sep, parts[1..])
  }

  /** `s.split(c)` for a one-character separator: the pieces between the
      occurrences of `c`, one more piece than there are separators. */
  function SplitOn(s: string, c: char): (r: seq<string>)
    ensures |r| == Count(s, c) + 1
    ensures forall k :: 0 <= k < |r| ==> c !in r[k]
    decreases |s|
  {
    var i := IndexOf(s, c);
    if i == |s| then [s]
    else
      var rest := SplitOn(s[i + 1..], c);
      CountAtFirst(s, c, i);
      [s[..i]] + rest
  }

  /** Joining the pieces of a split with the separator gives back `s`. */
  lemma {:induction false} SplitOnJoin(s: string, c: char)
    ensures Join([c], SplitOn(s, c)) == s
    decreases |s|
  {
    if c in s {
      var i := SplitOnUnfold(s, c);
      var rest := SplitOn(s[i + 1..], c);
      SplitOnJoin(s[i + 1..], c);
      JoinCons([c], s[..i], rest);
    } else {
      SplitOnNone(s, c);
    }
  }

  lemma CountAtFirst(s: string, c: char, i: nat)
    requires i < |s| && s[i] == c && c !in s[..i]
    ensures Count(s, c) == Count(s[i + 1..], c) + 1
  {
    assert s == s[..i] + ([c] + s[i + 1..]);
    CountAppend(s[..i], [c] + s[i + 1..], c);
    CountAppend([c], s[i + 1..], c);
    assert Count([c], c) == 1 by {
      assert [c][1..] == [];
    }
  }

  /** Dropping the last piece of a split leaves the prefix of `s` up to its
      last separator: `s` is that prefix, the separator, and a separator-free
      last piece. */
  lemma SplitOnDropLast(s: string, c: char)
    requires c in s
    ensures var r := SplitOn(s, c);
      s == Join([c], r[..|r| - 1]) + [c] + r[|r| - 1]
  {
    var r := SplitOn(s, c);
    SplitOnJoin(s, c);
    assert |r| >= 2;
    JoinSnoc([c], r[..|r| - 1], r[|r| - 1]);
    DropLastSnoc(r);
  }

  lemma DropLastSnoc<T>(xs: seq<T>)
    requires |xs| >= 1
    ensures xs[..|xs| - 1] + [xs[|xs| - 1]] == xs
  {
  }

  lemma ConsHead<T>(xs: seq<T>)
    requires xs != []
    ensures [xs[0]] + xs[1..] == xs
  {
  }

  lemma AppendAssoc<T>(a: seq<T>, b: seq<T>, c: seq<T>)
    ensures a + b + c == a + (b + c)
  {
  }

  lemma AppendEmpty<T>(a: seq<T>)
    ensures a + [] == a && [] + a == a
  {
  }

  /** One step of `SplitOn`: the piece before the first separator, then the
      split of the rest. */
  lemma SplitOnUnfold(s: string, c: char) returns (i: nat)
    requires c in s
    ensures i < |s| && s == s[..i] + [c] + s[i + 1..]
    ensures SplitOn(s, c) == [s[..i]] + SplitOn(s[i + 1..], c)
  {
    i := IndexOf(s, c);
    assert s == s[..i] + [c] + s[i + 1..];
  }

  lemma SplitOnNone(s: string, c: char)
    requires c !in s
    ensures SplitOn(s, c) == [s]
  {
    assert IndexOf(s, c) == |s|;
  }

  lemma {:induction false} JoinSnoc(sep: string, xs: seq<string>, x: string)
    requires |xs| >= 1
    ensures Join(sep, xs + [x]) == Join(sep, xs) + sep + x
  {
    if |xs| == 1 {
      assert (xs + [x])[1..] == [x];
    } else {
      assert (xs + [x])[1..] == xs[1..] + [x];
      JoinSnoc(sep, xs[1..], x);
    }
  }

  lemma JoinCons(sep: string, x: string, xs: seq<string>)
    requires |xs| >= 1
    ensures Join(sep, [x] + xs) == x + sep + Join(sep, xs)
  {
    assert ([x] + xs)[1..] == xs;
  }

  /** The index of the first whitespace character, or `|s|`. */
  function FirstSpace(s: string): (i: nat)
    ensures i <= |s|
    ensures forall k :: 0 <= k < i ==> !IsSpace(s[k])
    ensures i < |s| ==> IsSpace(s[i])
  {
    if s == [] || IsSpace(s[0]) then 0 else 1 + FirstSpace(s[1..])
  }

  /** `str.split()` with no argument: the maximal runs of non-whitespace. */
  function Words(s: string): (r: seq<string>)
    ensures forall k :: 0 <= k < |r| ==> r[k] != [] && NoSpace(r[k])
    decreases |s|
  {
    var a := LeadingSpaces(s);
    if a == |s| then []
    else
      var t := s[a..];
      var w := FirstSpace(t);
      [t[..w]] + Words(t[w..])
  }

  /** The parts with the separators put back between them: `parts[0]`,
      `seps[0]`, `parts[1]`, and so on. */
  function Interleave(parts: seq<string>, seps: seq<string>): string
    requires |parts| == |seps| + 1
  {
    if |seps| == 0 then parts[0]
    else parts[0] + seps[0] + Interleave(parts[1..], seps[1..])
  }

  /** The whitespace around and between the words of `split()`: before the
      first word, between each two, and after the last. */
  function WordGaps(s: string): (gaps: seq<string>)
    ensures |gaps| == |Words(s)| + 1
    decreases |s|
  {
    var a := LeadingSpaces(s);
    if a == |s| then [s]
    else
      var t := s[a..];
      var w := FirstSpace(t);
      [s[..a]] + WordGaps(t[w..])
  }

  /** The gaps of a split: all whitespace, and non-empty between two words. */
  predicate GapsSeparate(gaps: seq<string>)
  {
    && (forall k :: 0 <= k < |gaps| ==> AllSpace(gaps[k]))
    && (forall k :: 0 < k < |gaps| - 1 ==> gaps[k] != [])
  }

  /** `split()` cuts at whitespace only and keeps every word whole: the
      string is its whitespace gaps interleaved with its words, the gaps
      between two words are non-empty, and the words hold no whitespace, so
      each word is a maximal run of non-whitespace. */
  lemma {:induction false} WordsSplitAtGaps(s: string)
    ensures Interleave(WordGaps(s), Words(s)) == s
    ensures GapsSeparate(WordGaps(s))
    decreases |s|
  {
    if AllSpace(s) {
      WordsNone(s);
    } else {
      var g, word, u := WordsStep(s);
      WordsSplitAtGaps(u);
      InterleaveCons(g, word, WordGaps(u), Words(u));
      FirstGapOfSpace(u);
      GapsCons(g, WordGaps(u));
    }
  }

  /** A blank string is one gap and no word. */
  lemma WordsNone(s: string)
    requires AllSpace(s)
    ensures WordGaps(s) == [s] && Words(s) == []
  {
    assert LeadingSpaces(s) == |s|;
  }

  /** One step of `split()`: a whitespace gap, a word, and the rest, which
      is empty or starts with whitespace. */
  lemma WordsStep(s: string) returns (g: string, word: string, u: string)
    requires !AllSpace(s)
    ensures s == g + word + u && |u| < |s|
    ensures AllSpace(g) && (u == [] || IsSpace(u[0]))
    ensures WordGaps(s) == [g] + WordGaps(u) && Words(s) == [word] + Words(u)
  {
    var a := LeadingSpaces(s);
    assert a < |s|;
    var t := s[a..];
    var w := FirstSpace(t);
    g, word, u := s[..a], t[..w], t[w..];
    assert s == g + word + u;
  }

  lemma InterleaveCons(p: string, q: string, parts: seq<string>, seps: seq<string>)
    requires |parts| == |seps| + 1
    ensures Interleave([p] + parts, [q] + seps) == p + q + Interleave(parts, seps)
  {
    assert ([p] + parts)[1..] == parts && ([q] + seps)[1..] == seps;
  }

  /** A text that starts with whitespace and holds a word starts with a
      non-empty gap. */
  lemma FirstGapOfSpace(u: string)
    requires u == [] || IsSpace(u[0])
    ensures |WordGaps(u)| > 1 ==> WordGaps(u)[0] != []
  {
  }

  /** A new leading gap keeps the gaps separating when the old leading gap,
      now an inner one, is non-empty. */
  lemma GapsCons(g: string, gaps: seq<string>)
    requires AllSpace(g) && GapsSeparate(gaps) && gaps != []
    requires |gaps| > 1 ==> gaps[0] != []
    ensures GapsSeparate([g] + gaps)
  {
    var r := [g] + gaps;
    assert forall k :: 0 < k < |r| ==> r[k] == gaps[k - 1];
  }

  /** Every character of a word is a character of the split string. */
  lemma {:induction false} WordsChars(s: string)
    ensures forall k, i :: 0 <= k < |Words(s)| && 0 <= i < |Words(s)[k]| ==> Words(s)[k][i] in s
    decreases |s|
  {
    var a := LeadingSpaces(s);
    if a < |s| {
      var t := s[a..];
      var w := FirstSpace(t);
      var rest := Words(t[w..]);
      assert Words(s) == [t[..w]] + rest;
      WordsChars(t[w..]);
      forall k, i | 0 <= k < |Words(s)| && 0 <= i < |Words(s)[k]| ensures Words(s)[k][i] in s {
        if k == 0 {
          assert Words(s)[k][i] == s[a + i];
        } else {
          InSuffix(s, a + w, rest[k - 1][i]);
        }
      }
    }
  }

  predicate NoSpace(s: string)
  {
    forall i :: 0 <= i < |s| ==> !IsSpace(s[i])
  }

  /** All characters of `s` that are not whitespace, in order. */
  function NonSpace(s: string): string
  {
    if s == [] then []
    else (if IsSpace(s[0]) then [] else [s[0]]) + NonSpace(s[1..])
  }

  lemma NonSpaceAppend(a: string, b: string)
    ensures NonSpace(a + b) == NonSpace(a) + NonSpace(b)
  {
    if a == [] {
      assert a + b == b;
    } else {
      assert (a + b)[0] == a[0];
      assert (a + b)[1..] == a[1..] + b;
      NonSpaceAppend(a[1..], b);
    }
  }

  lemma NonSpaceOfSpaces(s: string)
    requires AllSpace(s)
    ensures NonSpace(s) == []
  {
    if s != [] {
      NonSpaceOfSpaces(s[1..]);
    }
  }

  lemma NonSpaceOfWord(s: string)
    requires NoSpace(s)
    ensures NonSpace(s) == s
  {
    if s != [] {
      NonSpaceOfWord(s[1..]);
    }
  }

  /** `split()` loses exactly the whitespace: gluing the words back together
      gives the non-whitespace characters of `s`, in order. */
  lemma {:induction false} WordsKeepNonSpace(s: string)
    ensures Join("", Words(s)) == NonSpace(s)
    decreases |s|
  {
    var a := LeadingSpaces(s);
    NonSpaceSkip(s, a);
    if a < |s| {
      var t := s[a..];
      var w := FirstSpace(t);
      NonSpaceWord(t, w);
      WordsKeepNonSpace(t[w..]);
      JoinNothingCons(t[..w], Words(t[w..]));
    }
  }

  lemma NonSpaceSkip(s: string, a: nat)
    requires a <= |s| && AllSpace(s[..a])
    ensures NonSpace(s) == NonSpace(s[a..])
  {
    assert s == s[..a] + s[a..];
    NonSpaceAppend(s[..a], s[a..]);
    NonSpaceOfSpaces(s[..a]);
  }

  lemma NonSpaceWord(t: string, w: nat)
    requires w <= |t| && NoSpace(t[..w])
    ensures NonSpace(t) == t[..w] + NonSpace(t[w..])
  {
    assert t == t[..w] + t[w..];
    NonSpaceAppend(t[..w], t[w..]);
    NonSpaceOfWord(t[..w]);
  }

  /** Gluing without a separator: the first part, then the rest glued. */
  lemma JoinNothingCons(w: string, ws: seq<string>)
    ensures Join("", [w] + ws) == w + Join("", ws)
  {
    if ws == [] {
      assert [w] + ws == [w] && w + [] == w;
    } else {
      JoinCons("", w, ws);
    }
  }

  lemma InSuffix(s: string, a: nat, x: char)
    requires a <= |s| && x in s[a..]
    ensures x in s
  {
    var j :| 0 <= j < |s[a..]| && s[a..][j] == x;
    assert s[a + j] == x;
  }

  /** `str.lower()`, character by character. */
  function Lower(s: string): (r: string)
    ensures |r| == |s|
    ensures forall i :: 0 <= i < |s| ==> r[i] == ToLower(s[i])
  {
    seq(|s|, i requires 0 <= i < |s| => ToLower(s[i]))
  }

  predicate StartsWith(s: string, prefix: string)
  {
    |prefix| <= |s| && s[..|prefix|] == prefix
  }
}
