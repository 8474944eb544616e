/**
 Keywords of a section title: its lower-cased whitespace-separated words
 longer than three characters, the first five of them, in title order.
 */
module Keywords {
  import opened Text

  const MaxKeywords: nat := 5

  /** Only words longer than this become keywords. */
  const ShortWordLength: nat := 3

  /** The words longer than `ShortWordLength`, in order. */
  function LongWords(words: seq<string>): (r: seq<string>)
    ensures |r| <= |words|
    ensures forall k :: 0 <= k < |r| ==> |r[k]| > ShortWordLength && r[k] in words
    ensures forall w :: w in words && |w| > ShortWordLength ==> w in r
  {
    if words == [] then []
    else if |words[0]| > ShortWordLength then [words[0]] + LongWords(words[1..])
    else LongWords(words[1..])
  }

  /** The filter keeps or drops each word on its own: it distributes over
      concatenation, and on one word it keeps it exactly when it is long. */
  lemma {:induction false} LongWordsAppend(a: seq<string>, b: seq<string>)
    ensures LongWords(a + b) == LongWords(a) + LongWords(b)
    decreases |a|
  {
    if a == [] {
      assert a + b == b;
    } else {
      assert (a + b)[0] == a[0] && (a + b)[1..] == a[1..] + b;
      LongWordsAppend(a[1..], b);
    }
  }

  lemma LongWordsOne(w: string)
    ensures LongWords([w]) == if |w| > ShortWordLength then [w] else []
  {
    assert [w][1..] == [];
  }

  /** Every word is in lower case. */
  predicate AllLowered(w: string)
  {
    forall i :: 0 <= i < |w| ==> ToLowerFixed(w[i])
  }

  /** `extract_keywords_from_title(title)`. */
  function ExtractKeywords(title: string): (keywords: seq<string>)
    ensures |keywords| <= MaxKeywords && |keywords| <= |LongWords(Words(Lower(title)))|
    ensures keywords == LongWords(Words(Lower(title)))[..|keywords|]
    ensures |keywords| < MaxKeywords ==> keywords == LongWords(Words(Lower(title)))
  {
    var long := LongWords(Words(Lower(title)));
    if |long| <= MaxKeywords then long else long[..MaxKeywords]
  }

  /** Each keyword is a lower-case word of the title, longer than three
      characters. */
  lemma KeywordsAreLongLowerWords(title: string)
    ensures forall w :: w in ExtractKeywords(title) ==>
      && |w| > ShortWordLength
      && NoSpace(w)
      && AllLowered(w)
      && w in Words(Lower(title))
  {
    var lowered := Lower(title);
    var words := Words(lowered);
    var keywords := ExtractKeywords(title);
    WordsChars(lowered);
    forall w | w in keywords
      ensures |w| > ShortWordLength && NoSpace(w) && AllLowered(w) && w in words
    {
      assert w in LongWords(words);
      var j :| 0 <= j < |words| && words[j] == w;
      forall i | 0 <= i < |w| ensures ToLowerFixed(w[i]) {
        var m :| 0 <= m < |lowered| && lowered[m] == w[i];
      }
    }
  }

  lemma {:induction false} LongWordsOfLong(words: seq<string>)
    requires forall k :: 0 <= k < |words| ==> |words[k]| > ShortWordLength
    ensures LongWords(words) == words
  {
    if words != [] {
      LongWordsOfLong(words[1..]);
      ConsHead(words);
    }
  }

  /** When every word of a title is longer than three characters, the
      keywords are simply its first five words, lower-cased. */
  lemma KeywordsOfLongWords(title: string)
    requires forall k :: 0 <= k < |Words(Lower(title))| ==> |Words(Lower(title))[k]| > ShortWordLength
    ensures var words := Words(Lower(title));
      ExtractKeywords(title) == if |words| <= MaxKeywords then words else words[..MaxKeywords]
  {
    LongWordsOfLong(Words(Lower(title)));
  }

}
