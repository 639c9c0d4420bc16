/** The spacing-tag vocabulary and the tagger that gives every character of
    a word sequence one BIES label: `S` for a one-character word, `B`, `I`
    ... `I`, `E` across a longer word. Labels are stored as their index in
    the vocabulary. */
module Tagging {
  import opened Text

  /** The label vocabulary, in the order that fixes each label's index. */
  const TAGS: seq<string> := ["I", "O", "B", "E", "S"]

  /** The index codes of the five labels. */
  const Interior: nat := 0
  const Outside: nat := 1
  const Begin: nat := 2
  const End: nat := 3
  const Single: nat := 4

  /** A code the tagger can emit: every label but `O`. */
  predicate Emitted(t: nat)
  {
    t == Interior || t == Begin || t == End || t == Single
  }

  /** Python's `list.index`: the position of the first occurrence of `x`
      (the source only looks up labels that are in the vocabulary). */
  function IndexOf<T(==)>(xs: seq<T>, x: T): (r: nat)
    requires x in xs
    ensures r < |xs| && xs[r] == x
    ensures forall k :: 0 <= k < r ==> xs[k] != x
  {
    if xs[0] == x then 0 else 1 + IndexOf(xs[1..], x)
  }

  /** Looking each label up in the vocabulary yields the named codes. */
  lemma TagCodes()
    ensures IndexOf(TAGS, "I") == Interior && IndexOf(TAGS, "O") == Outside
    ensures IndexOf(TAGS, "B") == Begin && IndexOf(TAGS, "E") == End
    ensures IndexOf(TAGS, "S") == Single
  {
  }

  /** Every emitted code names a label of the vocabulary other than `O`. */
  lemma EmittedNamesLabel(t: nat)
    requires Emitted(t)
    ensures t < |TAGS| && TAGS[t] != "O" && t != IndexOf(TAGS, "O")
  {
    TagCodes();
    assert TAGS[0] != "O" && TAGS[2] != "O" && TAGS[3] != "O" && TAGS[4] != "O";
  }

  /** The labels of one word: none for an empty word, `S` for a single
      character, and otherwise `B` first, `E` last and `I` in between. */
  function WordTags(word: seq<char>): (r: seq<nat>)
    ensures |r| == |word|
    ensures |word| == 1 ==> r[0] == Single
    ensures |word| >= 2 ==> r[0] == Begin && r[|word| - 1] == End
    ensures forall j :: 0 < j < |word| - 1 ==> r[j] == Interior
    ensures forall j :: 0 <= j < |r| ==> Emitted(r[j])
  {
    if |word| == 1 then [Single]
    else if |word| > 1 then [Begin] + seq(|word| - 2, _ => Interior) + [End]
    else []
  }

  /** A one-character word is tagged exactly `S`. */
  lemma OneCharacterWord(word: seq<char>)
    requires |word| == 1
    ensures WordTags(word) == [Single]
  {
    var r := WordTags(word);
    assert r[0] == Single;
  }

  /** A two-character word is tagged exactly `B`, `E`. */
  lemma TwoCharacterWord(word: seq<char>)
    requires |word| == 2
    ensures WordTags(word) == [Begin, End]
  {
    var r := WordTags(word);
    assert r[0] == Begin && r[1] == End;
  }

  /** The labels of a word sequence: each word's labels, in word order. There
      is one per character, and each is a code the tagger emits. */
  function Tags(words: seq<seq<char>>): (r: seq<nat>)
    ensures |r| == TotalLength(words)
    ensures forall j :: 0 <= j < |r| ==> Emitted(r[j])
  {
    if words == [] then [] else WordTags(words[0]) + Tags(words[1..])
  }

  /** Tagging distributes over concatenation of word sequences. */
  lemma {:induction false} TagsAppend(v: seq<seq<char>>, w: seq<seq<char>>)
    ensures Tags(v + w) == Tags(v) + Tags(w)
  {
    if v == [] {
      assert v + w == w;
    } else {
      assert (v + w)[1..] == v[1..] + w;
      TagsAppend(v[1..], w);
    }
  }

  /** An empty word contributes no label wherever it stands. */
  lemma EmptyWordIgnored(v: seq<seq<char>>, w: seq<seq<char>>)
    ensures Tags(v + [[]] + w) == Tags(v + w)
  {
    assert Tags([[]]) == WordTags([]) + Tags([]);
    TagsAppend(v + [[]], w);
    TagsAppend(v, [[]]);
    TagsAppend(v, w);
  }

  /** The labels of word `k` sit at the same positions as its characters in
      the joined text: both start after the characters of the words before. */
  lemma TagsAlignWithText(words: seq<seq<char>>, k: nat)
    requires k < |words|
    ensures var n := TotalLength(words[..k]);
            && n + |words[k]| <= |Concat(words)| == |Tags(words)|
            && Concat(words)[n..n + |words[k]|] == words[k]
            && Tags(words)[n..n + |words[k]|] == WordTags(words[k])
  {
    var before, after := words[..k], words[k + 1..];
    assert words == before + [words[k]] + after;
    TagsAppend(before + [words[k]], after);
    TagsAppend(before, [words[k]]);
    ConcatAppend(before + [words[k]], after);
    ConcatAppend(before, [words[k]]);
    assert Concat([words[k]]) == words[k] + Concat([]);
    assert Tags([words[k]]) == WordTags(words[k]) + Tags([]);
  }

  /** Reads words back from characters and their labels: a word ends at each
      `S` or `E`; `current` holds the characters of the word being read. */
  function SegmentFrom(chars: seq<char>, tags: seq<nat>, current: seq<char>): seq<seq<char>>
    requires |tags| == |chars|
  {
    if chars == [] then (if current == [] then [] else [current])
    else if tags[0] == Single || tags[0] == End then
      [current + [chars[0]]] + SegmentFrom(chars[1..], tags[1..], [])
    else SegmentFrom(chars[1..], tags[1..], current + [chars[0]])
  }

  /** The words that labelled characters spell. */
  function Segment(chars: seq<char>, tags: seq<nat>): seq<seq<char>>
    requires |tags| == |chars|
  {
    SegmentFrom(chars, tags, [])
  }

  /** Reading the rest of a word from position `k` on, with its first `k`
      characters already read, yields the whole word. */
  lemma {:induction false} SegmentWord(word: seq<char>, k: nat, chars: seq<char>, tags: seq<nat>)
    requires k < |word| && |tags| == |chars|
    ensures SegmentFrom(word[k..] + chars, WordTags(word)[k..] + tags, word[..k])
            == [word] + SegmentFrom(chars, tags, [])
    decreases |word| - k
  {
    var wt := WordTags(word);
    var cs, ts := word[k..] + chars, wt[k..] + tags;
    assert cs[0] == word[k] && ts[0] == wt[k];
    assert word[..k] + [word[k]] == word[..k + 1];
    if k == |word| - 1 {
      assert cs[1..] == chars && ts[1..] == tags;
      assert word[..k + 1] == word;
    } else {
      assert cs[1..] == word[k + 1..] + chars;
      assert ts[1..] == wt[k + 1..] + tags;
      SegmentWord(word, k + 1, chars, tags);
    }
  }

  /** The labels determine the words: reading the joined text back along its
      labels yields the original words, provided none is empty. */
  lemma {:induction false} SegmentInvertsTags(words: seq<seq<char>>)
    requires forall k :: 0 <= k < |words| ==> words[k] != []
    ensures |Tags(words)| == |Concat(words)|
    ensures Segment(Concat(words), Tags(words)) == words
  {
    if words != [] {
      var w := words[0];
      SegmentInvertsTags(words[1..]);
      assert w[0..] == w && WordTags(w)[0..] == WordTags(w) && w[..0] == [];
      SegmentWord(w, 0, Concat(words[1..]), Tags(words[1..]));
      assert words == [w] + words[1..];
    }
  }

  /** Tagging one more word appends that word's labels. */
  lemma TagsSnoc(words: seq<seq<char>>, n: nat)
    requires n < |words|
    ensures Tags(words[..n + 1]) == Tags(words[..n]) + WordTags(words[n])
  {
    assert words[..n + 1] == words[..n] + [words[n]];
    TagsAppend(words[..n], [words[n]]);
    assert Tags([words[n]]) == WordTags(words[n]) + Tags([]);
  }

  /** The label of character `i` of a word of two or more characters, as the
      inner loop of `_get_tags` chooses it, extends the labels of the
      characters before it. */
  lemma WordTagsStep(before: seq<nat>, word: seq<char>, i: nat)
    requires 2 <= |word| && i < |word|
    ensures before + WordTags(word)[..i]
              + [if i == 0 then Begin else if i == |word| - 1 then End else Interior]
            == before + WordTags(word)[..i + 1]
  {
    assert WordTags(word)[..i + 1] == WordTags(word)[..i] + [WordTags(word)[i]];
    AppendAssoc(before, WordTags(word)[..i], [WordTags(word)[i]]);
  }

  /** `_get_tags`: walks the words in order and appends one label per
      character, looking each label up in the vocabulary. */
  method GetTags(words: seq<seq<char>>) returns (tags: seq<nat>)
    ensures tags == Tags(words)
  {
    TagCodes();
    tags := [];
    for n := 0 to |words|
      invariant tags == Tags(words[..n])
    {
      var word := words[n];
      ghost var before := tags;
      if |word| == 1 {
        tags := tags + [IndexOf(TAGS, "S")];
        OneCharacterWord(word);
      } else if |word| > 1 {
        for i := 0 to |word|
          invariant tags == before + WordTags(word)[..i]
        {
          WordTagsStep(before, word, i);
          if i == 0 {
            tags := tags + [IndexOf(TAGS, "B")];
          } else if i == |word| - 1 {
            tags := tags + [IndexOf(TAGS, "E")];
          } else {
            tags := tags + [IndexOf(TAGS, "I")];
          }
        }
        assert WordTags(word)[..|word|] == WordTags(word);
      }
      TagsSnoc(words, n);
    }
    assert words[..|words|] == words;
  }
}
