# eKonSpacing record generation in Dafny

This project models the core of the eKonSpacing dataset loader
(`datasets/ekonspacing/ekonspacing.py`). The loader turns raw Korean text
lines into character-level records for spacing recognition. Every line is
stripped. A blank line is skipped. Any other line is split on whitespace
into words. Each character of each word gets one BIES label: `S` for a
one-character word; `B`, then `I` ... `I`, then `E` across a longer word.
Labels are stored as their index in the vocabulary `["I", "O", "B", "E",
"S"]`, and `O` is never emitted. Each record carries the stripped line, its
characters without whitespace, and the labels. It is keyed by the line's
position in the input, blank lines included.

The project has three modules, one per file:

- `Text` (`text.dfy`) holds the Python string operations the loader
  relies on: `str.isspace`, `str.strip()`, `str.split()` without
  arguments and `"".join`. It also holds `Join`, a model of `" ".join`.
  The loader never calls `" ".join`; `Join` is there only as the inverse
  of `split`, in `SplitJoin`.
  `Spaced` lays words out between arbitrary runs of whitespace; `split()`
  is proved to recover the words from any such layout.
- `Tagging` (`tagging.dfy`) holds the label vocabulary and `list.index`.
  It also holds `_get_tags`, as the `GetTags` method with the source's
  nested loops. That method is proved equal to the recursive
  specification `Tags`. `Segment` is a decoder that reads the words back
  from characters and labels; it is the tagger's inverse.
- `Examples` (`generate_examples.dfy`) holds the per-line loop of
  `_generate_examples`, as the `GenerateExamples` method. It is proved
  equal to the specification `Generated`, which keeps the `(position,
  record)` pairs of the lines that are not blank.

Whitespace is the set CPython's `str.isspace` accepts in Python 3.4 and
later:

- U+0009..U+000D;
- U+001C..U+0020;
- U+0085 and U+00A0;
- U+1680;
- U+2000..U+200A;
- U+2028, U+2029, U+202F and U+205F;
- U+3000.

Only the concrete examples depend on that exact set. Every general
property also holds for any other set that contains the space.

Labels are read off in word order and within a word from left to right.
The generator therefore runs `Split` and then `GetTags` on each non-blank
line, and `Concat` gives the tokens.

`row.strip()` cuts whitespace at both ends of a line, not only the
trailing newline, and the model strips both ends.

`split()` never yields a zero-length word, but `_get_tags` accepts one. A
word of length 0 matches neither branch and gets no label. The model
does the same (`WordTags([]) == []`, lemma `EmptyWordIgnored`).

## Model

| member | source | states |
|---|---|---|
| Text.IsSpace | datasets/ekonspacing/ekonspacing.py:160-162 | the whitespace test `strip()` and `split()` cut on: the characters `str.isspace` accepts, listed above; it has no contract of its own, and the lemmas below use it through `AllSpace` and `NoSpace` |
| Text.Strip | datasets/ekonspacing/ekonspacing.py:160 | the result is a slice of the line; everything cut from either end is whitespace; the result neither starts nor ends with whitespace; it is empty exactly when the line is blank; it keeps every non-space character in order |
| Text.StripUnpadded | datasets/ekonspacing/ekonspacing.py:160 | a non-empty line that neither starts nor ends with whitespace is left unchanged by `strip()` |
| Text.StripIdempotent | datasets/ekonspacing/ekonspacing.py:160 | stripping a stripped line changes nothing |
| Text.Split | datasets/ekonspacing/ekonspacing.py:162 | every word `split()` yields is non-empty and contains no whitespace |
| Text.SplitBlank | datasets/ekonspacing/ekonspacing.py:161-162 | a line splits into no words exactly when it is blank |
| Text.SplitConcat | datasets/ekonspacing/ekonspacing.py:162-166 | `"".join(row.split())` is the line with every whitespace character removed |
| Text.SplitJoin | datasets/ekonspacing/ekonspacing.py:162 | `split()` undoes `" ".join` for words that are non-empty and contain no whitespace |
| Text.SplitSpaced | datasets/ekonspacing/ekonspacing.py:162 | `split()` cuts on every run of whitespace, of any length and any whitespace characters, and drops the runs at both ends: a line laid out as runs of whitespace around and between non-empty, whitespace-free words (the runs between words non-empty) splits into exactly those words |
| Text.SplitWordGap | datasets/ekonspacing/ekonspacing.py:162 | a word, then any non-empty whitespace run, then the rest of a line, splits into that word followed by the words of the rest |
| Text.SplitSpacesFirst | datasets/ekonspacing/ekonspacing.py:162 | whitespace in front of a line changes nothing in its split |
| Text.SplitSpacesLast | datasets/ekonspacing/ekonspacing.py:162 | whitespace at the end of a line changes nothing in its split |
| Text.SplitStrip | datasets/ekonspacing/ekonspacing.py:160-162 | splitting the stripped line gives the same words as splitting the raw line |
| Text.JoinEnds | datasets/ekonspacing/ekonspacing.py:162 | a single-space join of non-empty, whitespace-free words neither starts nor ends with whitespace |
| Text.Concat | datasets/ekonspacing/ekonspacing.py:166 | `"".join(words)` has as many characters as all the words together |
| Tagging.IndexOf | datasets/ekonspacing/ekonspacing.py:61-69 | `list.index` returns the position of the first occurrence of the label it looks up |
| Tagging.TAGS | datasets/ekonspacing/ekonspacing.py:54 | the label vocabulary `["I", "O", "B", "E", "S"]`, a constant; `TagCodes` and `EmittedNamesLabel` state what its order means |
| Tagging.TagCodes | datasets/ekonspacing/ekonspacing.py:54 | in `["I","O","B","E","S"]`, `I`, `O`, `B`, `E` and `S` are found at 0, 1, 2, 3 and 4 |
| Tagging.EmittedNamesLabel | datasets/ekonspacing/ekonspacing.py:54 | every code the tagger emits indexes a label of the vocabulary, and that label is never `O` |
| Tagging.WordTags | datasets/ekonspacing/ekonspacing.py:60-69 | a word gets one label per character: `S` for a single character; otherwise `B` first, `E` last and `I` in between; every label is one the tagger emits |
| Tagging.OneCharacterWord | datasets/ekonspacing/ekonspacing.py:60-61 | a one-character word is labelled exactly `[S]` |
| Tagging.TwoCharacterWord | datasets/ekonspacing/ekonspacing.py:62-69 | a two-character word is labelled exactly `[B, E]`, with no `I` |
| Tagging.Tags | datasets/ekonspacing/ekonspacing.py:57-70 | a word sequence gets as many labels as it has characters, and every label is a code other than `O` |
| Tagging.TagsAppend | datasets/ekonspacing/ekonspacing.py:58-59 | tagging distributes over concatenation of word sequences, so words are labelled independently and in order |
| Tagging.EmptyWordIgnored | datasets/ekonspacing/ekonspacing.py:60-62 | an empty word, wherever it stands, adds no label |
| Tagging.TagsAlignWithText | datasets/ekonspacing/ekonspacing.py:163-166 | the labels of word `k` sit at the same positions as that word's characters in the joined tokens |
| Tagging.SegmentInvertsTags | datasets/ekonspacing/ekonspacing.py:57-70 | for non-empty words, reading the joined characters back along their labels, and ending a word at each `S` or `E`, gives back the words |
| Tagging.GetTags | datasets/ekonspacing/ekonspacing.py:57-70 | the nested loops of `_get_tags` return exactly `Tags(words)` |
| Examples.Record | datasets/ekonspacing/ekonspacing.py:164-168 | the yielded dict: the stripped line (`text`), its characters with whitespace removed (`tokens`) and one label code per character (`spacingTags`); it has no contract of its own, and `RecordOfLine` and `RecordOfSpaced` state these properties |
| Examples.RecordOf | datasets/ekonspacing/ekonspacing.py:160-167 | what one line yields: no record exactly when the line is blank; the rest of what the record holds is stated by `RecordOfLine`, `RecordOfJoined` and `RecordOfSpaced` |
| Examples.RecordOfLine | datasets/ekonspacing/ekonspacing.py:160-168 | a line gives no record exactly when it is blank; otherwise `text` is the stripped line and is non-empty, `tokens` are the line's non-space characters, there is one tag per token, every tag is a code the tagger emits, and the words of `text` can be read back from `tokens` and tags |
| Examples.Keyed | datasets/ekonspacing/ekonspacing.py:157 | every key `enumerate` hands out is a position of the input |
| Examples.KeyedIncreasing | datasets/ekonspacing/ekonspacing.py:157 | the keys come out strictly increasing |
| Examples.KeyedMembership | datasets/ekonspacing/ekonspacing.py:157-164 | a pair `(i, v)` is emitted exactly when position `i` holds a value `v` |
| Examples.KeyedPrefix | datasets/ekonspacing/ekonspacing.py:157 | the pairs of a prefix of the input are a prefix of the pairs |
| Examples.LineResults | datasets/ekonspacing/ekonspacing.py:157-168 | what each line yields, one entry per input line, blank lines included |
| Examples.Generated | datasets/ekonspacing/ekonspacing.py:157-168 | the `(id, record)` pairs of the lines that are not blank; every id is a position of the input |
| Examples.GeneratedIdsIncrease | datasets/ekonspacing/ekonspacing.py:157-164 | emitted ids are line positions and strictly increase |
| Examples.GeneratedMembership | datasets/ekonspacing/ekonspacing.py:157-168 | `(id, rec)` is emitted exactly when line `id` exists and its record is `rec` |
| Examples.BlankLineSkipped | datasets/ekonspacing/ekonspacing.py:160-161 | no emitted pair carries the id of a blank line |
| Examples.GeneratedPrefix | datasets/ekonspacing/ekonspacing.py:157-168 | the records of the first `k` lines are a prefix of the records of all lines |
| Examples.GenerateExamples | datasets/ekonspacing/ekonspacing.py:155-168 | the loop of `_generate_examples` returns exactly `Generated(lines)` |
| Examples.RecordOfJoined | datasets/ekonspacing/ekonspacing.py:160-167 | a line made of at least one non-empty, whitespace-free word joined by single spaces yields the record of exactly those words, with the line itself as `text` |
| Examples.RecordOfSpaced | datasets/ekonspacing/ekonspacing.py:160-167 | a line holding at least one word, with any whitespace runs before, between and after its words, yields the record of exactly those words, with the stripped line as `text` |
| Examples.TwoWordLineExample | datasets/ekonspacing/ekonspacing.py:160-168 | `"안녕 하세요"` yields tokens `"안녕하세요"` and labels B E B I E |
| Examples.TabbedLineExample | datasets/ekonspacing/ekonspacing.py:160-168 | `"안녕\t 하세요 "` (a tab and a space between the words, a space after) yields the same tokens `"안녕하세요"` and labels B E B I E |
| Examples.SingleCharacterWordsExample | datasets/ekonspacing/ekonspacing.py:160-168 | `"가 나"` yields tokens `"가나"` and labels S S |
| Examples.BlankLineExample | datasets/ekonspacing/ekonspacing.py:160-161 | `"   "` yields no record |
| Examples.TwoCharacterLineExample | datasets/ekonspacing/ekonspacing.py:160-168 | `"ab"` yields labels B E |

## Left out

- File reading, UTF-8 decoding and line splitting: the generator takes the lines as a sequence of strings. A line's trailing newline is whitespace, so it is cut by `Strip` like any other.
- The laziness of `yield`: `GenerateExamples` returns the whole sequence of pairs, and `GeneratedPrefix` states that a consumer who stops early sees a prefix of it.
- The `logger.info` and `print` calls, and the printing of the first five raw lines. They only produce output.
- `_split_generators`, the download URLs, `BUILDER_CONFIGS` with their config class, and `_info`. These are registration and retrieval, not logic. The feature declaration in `_info` matters only through the label order, which `TagCodes` and `EmittedNamesLabel` state.
- The test script `ekonspacing_test.py`. It loads local small data files through `load_dataset` and prints the dataset and its first rows. It holds no assertions.
- Tagging.IndexOf: the `ValueError` that `list.index` raises for a missing label is excluded by a precondition. The source only looks up labels that are in the vocabulary (`TagCodes`).
- Examples.Record: `tokens` is a sequence of characters rather than a list of one-character strings. `list("".join(words))` makes one string per character, so the two carry the same information.
- `Text.IsSpace`: fixes the CPython whitespace set of Python 3.4 and later. Through Python 3.3, U+180E (Mongolian vowel separator) also counted as whitespace. Later Unicode database updates are not followed.
