/** The record generator of the spacing dataset (`_generate_examples`): each
    input line is stripped, skipped when blank, and otherwise split into
    words whose characters and labels make one record, keyed by the line's
    position in the input. */
module Examples {
  import opened Text
  import opened Tagging

  datatype Option<T> = None | Some(value: T)

  /** One emitted example: the stripped line, its characters with the
      whitespace left out, and one label per character. */
  datatype Record = Record(text: seq<char>, tokens: seq<char>, spacingTags: seq<nat>)

  /** What one input line yields: nothing when it is blank, otherwise the
      record of its stripped text. */
  function RecordOf(line: seq<char>): (r: Option<Record>)
    ensures r.None? <==> AllSpace(line)
  {
    var row := Strip(line);
    if row == [] then None
    else
      var words := Split(row);
      Some(Record(row, Concat(words), Tags(words)))
  }

  /** A line yields nothing exactly when it is blank; otherwise its record
      holds the stripped line, every non-space character of the line in
      order, and as many labels, all codes the tagger emits, from which the
      words of the line are read back. */
  lemma RecordOfLine(line: seq<char>)
    ensures var r := RecordOf(line);
            && (r.None? <==> AllSpace(line))
            && (r.Some? ==> r.value.text == Strip(line) && r.value.text != [])
            && (r.Some? ==> r.value.tokens == RemoveSpaces(line))
            && (r.Some? ==> |r.value.tokens| == |r.value.spacingTags|)
            && (r.Some? ==> forall j :: 0 <= j < |r.value.spacingTags| ==> Emitted(r.value.spacingTags[j]))
            && (r.Some? ==> Segment(r.value.tokens, r.value.spacingTags) == Split(r.value.text))
  {
    var row := Strip(line);
    if row != [] {
      SplitConcat(row);
      SegmentInvertsTags(Split(row));
    }
  }

  /** The enumerate-and-skip pattern of the generator: the pairs `(i, v)` for
      the entries `results[i] == Some(v)`, in order of `i`. */
  function Keyed<T>(results: seq<Option<T>>): (out: seq<(nat, T)>)
    ensures forall a :: 0 <= a < |out| ==> out[a].0 < |results|
  {
    if results == [] then []
    else
      var n := |results| - 1;
      Keyed(results[..n]) + (match results[n] case Some(v) => [(n, v)] case None => [])
  }

  /** Keys strictly increase. */
  lemma {:induction false} KeyedIncreasing<T>(results: seq<Option<T>>)
    ensures forall a, b :: 0 <= a < b < |Keyed(results)| ==> Keyed(results)[a].0 < Keyed(results)[b].0
  {
    if results != [] {
      var n := |results| - 1;
      var prev, out := Keyed(results[..n]), Keyed(results);
      KeyedIncreasing(results[..n]);
      assert |results[..n]| == n;
      if results[n].Some? {
        assert out == prev + [(n, results[n].value)];
        forall a, b | 0 <= a < b < |out| ensures out[a].0 < out[b].0 {
          assert out[a] == prev[a];
          if b < |prev| {
            assert out[b] == prev[b];
          }
        }
      } else {
        assert out == prev;
      }
    }
  }

  /** A pair is present exactly when its key holds `Some` of its value. */
  lemma {:induction false} KeyedMembership<T>(results: seq<Option<T>>)
    ensures forall i: nat, v :: (i, v) in Keyed(results) <==> i < |results| && results[i] == Some(v)
  {
    if results != [] {
      var n := |results| - 1;
      KeyedMembership(results[..n]);
      assert forall i :: 0 <= i < n ==> results[..n][i] == results[i];
    }
  }

  /** One more entry adds at most one pair, keyed by its position. */
  lemma KeyedSnoc<T>(results: seq<Option<T>>, n: nat)
    requires n < |results|
    ensures Keyed(results[..n + 1])
            == Keyed(results[..n]) + (match results[n] case Some(v) => [(n, v)] case None => [])
  {
    assert results[..n + 1][..n] == results[..n];
  }

  /** The pairs of a prefix are a prefix of the pairs. */
  lemma {:induction false} KeyedPrefix<T>(results: seq<Option<T>>, k: nat)
    requires k <= |results|
    ensures Keyed(results[..k]) <= Keyed(results)
    decreases |results|
  {
    if k < |results| {
      var n := |results| - 1;
      assert results[..k] == results[..n][..k];
      KeyedPrefix(results[..n], k);
    } else {
      assert results[..k] == results;
    }
  }

  /** What each line yields, position by position. */
  function LineResults(lines: seq<seq<char>>): (results: seq<Option<Record>>)
    ensures |results| == |lines|
  {
    seq(|lines|, i requires 0 <= i < |lines| => RecordOf(lines[i]))
  }

  /** The `(id, record)` pairs produced for `lines`, in order. */
  function Generated(lines: seq<seq<char>>): (out: seq<(nat, Record)>)
    ensures forall a :: 0 <= a < |out| ==> out[a].0 < |lines|
  {
    Keyed(LineResults(lines))
  }

  /** Emitted ids strictly increase and are positions of the input: the
      records come out in line order. */
  lemma GeneratedIdsIncrease(lines: seq<seq<char>>)
    ensures forall a :: 0 <= a < |Generated(lines)| ==> Generated(lines)[a].0 < |lines|
    ensures forall a, b :: 0 <= a < b < |Generated(lines)| ==> Generated(lines)[a].0 < Generated(lines)[b].0
  {
    KeyedIncreasing(LineResults(lines));
  }

  /** A pair is emitted exactly when its id is the position of a line that
      is not blank and its record is that line's record. */
  lemma GeneratedMembership(lines: seq<seq<char>>)
    ensures forall id: nat, rec :: (id, rec) in Generated(lines) <==> id < |lines| && RecordOf(lines[id]) == Some(rec)
  {
    KeyedMembership(LineResults(lines));
  }

  /** A blank line yields no record: no emitted pair carries its id. */
  lemma BlankLineSkipped(lines: seq<seq<char>>, id: nat)
    requires id < |lines| && AllSpace(lines[id])
    ensures forall a :: 0 <= a < |Generated(lines)| ==> Generated(lines)[a].0 != id
  {
    GeneratedMembership(lines);
    forall a | 0 <= a < |Generated(lines)| ensures Generated(lines)[a].0 != id {
      var p := Generated(lines)[a];
      assert (p.0, p.1) in Generated(lines);
    }
  }

  /** The pairs produced for the first `k` lines are a prefix of those
      produced for all of them: stopping early loses only later records. */
  lemma GeneratedPrefix(lines: seq<seq<char>>, k: nat)
    requires k <= |lines|
    ensures Generated(lines[..k]) <= Generated(lines)
  {
    assert LineResults(lines[..k]) == LineResults(lines)[..k];
    KeyedPrefix(LineResults(lines), k);
  }

  /** `_generate_examples`: enumerates the lines, strips each, skips it
      when blank and otherwise splits it, tags its words and emits the
      record under the line's position. */
  method GenerateExamples(lines: seq<seq<char>>) returns (examples: seq<(nat, Record)>)
    ensures examples == Generated(lines)
  {
    ghost var results := LineResults(lines);
    examples := [];
    var words: seq<seq<char>> := [];
    var spacingTags: seq<nat> := [];
    for id := 0 to |lines|
      invariant examples == Keyed(results[..id])
    {
      var row := Strip(lines[id]);
      if row != [] {
        words := Split(row);
        spacingTags := GetTags(words);
        examples := examples + [(id, Record(row, Concat(words), spacingTags))];
      }
      KeyedSnoc(results, id);
      assert results[id] == RecordOf(lines[id]);
    }
    assert results[..|lines|] == results;
  }

  /** A line made of well-formed words separated by single spaces yields
      the record of exactly those words. */
  lemma RecordOfJoined(line: seq<char>, words: seq<seq<char>>)
    requires forall k :: 0 <= k < |words| ==> words[k] != [] && NoSpace(words[k])
    requires line == Join(words) && words != []
    ensures RecordOf(line) == Some(Record(line, Concat(words), Tags(words)))
  {
    JoinEnds(words);
    StripUnpadded(line);
    SplitJoin(words);
  }

  /** A line holding at least one word, with any runs of whitespace before,
      between and after its words, yields the record of exactly those words;
      its text is the line without the outer runs. */
  lemma RecordOfSpaced(line: seq<char>, words: seq<seq<char>>, gaps: seq<seq<char>>)
    requires WellSpaced(words, gaps) && words != [] && line == Spaced(words, gaps)
    ensures RecordOf(line) == Some(Record(Strip(line), Concat(words), Tags(words)))
  {
    SplitSpaced(words, gaps);
    SplitBlank(line);
    SplitStrip(line);
  }

  lemma TagsOfTwo(words: seq<seq<char>>)
    requires |words| == 2
    ensures Tags(words) == WordTags(words[0]) + WordTags(words[1])
  {
    assert words[1..][1..] == [];
    assert Tags(words[1..]) == WordTags(words[1]) + Tags([]);
  }

  /** The words "안녕" and "하세요" are well formed, and their characters
      are "안녕하세요", labelled B E and B I E. */
  lemma GreetingWords(words: seq<seq<char>>)
    requires words == ["안녕", "하세요"]
    ensures forall k :: 0 <= k < |words| ==> words[k] != [] && NoSpace(words[k])
    ensures Concat(words) == "안녕하세요"
    ensures Tags(words) == [Begin, End, Begin, Interior, End]
  {
    GreetingWellFormed(words);
    GreetingTokens(words);
    TwoWordTags(words);
  }

  lemma GreetingTokens(words: seq<seq<char>>)
    requires words == ["안녕", "하세요"]
    ensures Concat(words) == "안녕하세요"
  {
    ConcatOfTwo(words);
  }

  lemma GreetingWellFormed(words: seq<seq<char>>)
    requires words == ["안녕", "하세요"]
    ensures forall k :: 0 <= k < |words| ==> words[k] != [] && NoSpace(words[k])
  {
    assert NoSpace(words[0]) && NoSpace(words[1]);
  }

  lemma ConcatOfTwo(words: seq<seq<char>>)
    requires |words| == 2
    ensures Concat(words) == words[0] + words[1]
  {
    assert Concat(words[1..]) == words[1] + Concat([]);
  }

  /** A word of two characters followed by one of three is labelled
      B E B I E. */
  lemma TwoWordTags(words: seq<seq<char>>)
    requires |words| == 2 && |words[0]| == 2 && |words[1]| == 3
    ensures Tags(words) == [Begin, End, Begin, Interior, End]
  {
    TwoCharacterWord(words[0]);
    assert WordTags(words[1]) == [Begin, Interior, End];
    TagsOfTwo(words);
  }

  /** A two-word line: the words "안녕" and "하세요" are labelled B E and
      B I E, and the space between them is dropped from the tokens. */
  lemma TwoWordLineExample(line: seq<char>)
    requires line == "안녕 하세요"
    ensures RecordOf(line) == Some(Record(line, "안녕하세요", [Begin, End, Begin, Interior, End]))
  {
    var words: seq<seq<char>> := ["안녕", "하세요"];
    GreetingWords(words);
    assert Join(words) == line by {
      assert Join(words[1..]) == words[1];
    }
    RecordOfJoined(line, words);
  }

  /** The same words separated by a tab and a space, and followed by a
      space, get the same tokens and labels: any whitespace run separates
      words. */
  lemma TabbedLineExample(line: seq<char>)
    requires line == "안녕\t 하세요 "
    ensures RecordOf(line) == Some(Record(Strip(line), "안녕하세요", [Begin, End, Begin, Interior, End]))
  {
    var words: seq<seq<char>> := ["안녕", "하세요"];
    var gaps: seq<seq<char>> := ["", "\t ", " "];
    GreetingWords(words);
    assert WellSpaced(words, gaps);
    assert Spaced(words, gaps) == line by {
      assert Spaced(words[1..], gaps[1..]) == gaps[1] + (words[1] + gaps[2]);
    }
    RecordOfSpaced(line, words, gaps);
  }

  /** Two one-character words are each labelled S. */
  lemma SingleCharacterWordsExample(line: seq<char>)
    requires line == "가 나"
    ensures RecordOf(line) == Some(Record(line, "가나", [Single, Single]))
  {
    var words: seq<seq<char>> := ["가", "나"];
    SingleCharacterWords(words);
    assert Join(words) == line by {
      assert Join(words[1..]) == words[1];
    }
    RecordOfJoined(line, words);
  }

  /** The words "가" and "나" are well formed, and their characters are
      "가나", each labelled S. */
  lemma SingleCharacterWords(words: seq<seq<char>>)
    requires words == ["가", "나"]
    ensures forall k :: 0 <= k < |words| ==> words[k] != [] && NoSpace(words[k])
    ensures Concat(words) == "가나"
    ensures Tags(words) == [Single, Single]
  {
    assert NoSpace(words[0]) && NoSpace(words[1]);
    ConcatOfTwo(words);
    SingleCharacterTags(words);
  }

  lemma SingleCharacterTags(words: seq<seq<char>>)
    requires |words| == 2 && |words[0]| == 1 && |words[1]| == 1
    ensures Tags(words) == [Single, Single]
  {
    OneCharacterWord(words[0]);
    OneCharacterWord(words[1]);
    TagsOfTwo(words);
  }

  /** A line of spaces only yields no record. */
  lemma BlankLineExample(line: seq<char>)
    requires line == "   "
    ensures RecordOf(line) == None
  {
    RecordOfLine(line);
  }

  /** A lone two-character word is labelled B E, with no I. */
  lemma TwoCharacterLineExample(line: seq<char>)
    requires line == "ab"
    ensures RecordOf(line) == Some(Record(line, line, [Begin, End]))
  {
    var words := [line];
    RecordOfJoined(line, words);
    assert Concat(words) == line + Concat([]);
    assert Concat(words) == line;
    TwoCharacterWord(line);
    assert Tags(words) == WordTags(line) + Tags([]);
    assert Tags(words) == [Begin, End];
  }
}
