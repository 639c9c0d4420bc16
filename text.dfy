/** The Python string operations the spacing tagger is built on: the
    whitespace test used by `str.strip()` and `str.split()` without
    arguments, those two operations, and `"".join` (with `" ".join` as the
    inverse of `split`). Strings are sequences of Unicode scalar values. */
module Text {

  /** A character Python treats as whitespace (`str.isspace`), the ones
      `strip()` and `split()` without arguments cut on: U+0009..U+000D,
      U+001C..U+001F, the space, U+0085, U+00A0, U+1680, U+2000..U+200A,
      U+2028, U+2029, U+202F, U+205F and U+3000. */
  predicate IsSpace(c: char)
  {
    || ('\t' <= c <= '\r')
    || ('\U{1C}' <= c <= ' ')
    || c == '\U{85}' || c == '\U{A0}' || c == '\U{1680}'
    || ('\U{2000}' <= c <= '\U{200A}')
    || c == '\U{2028}' || c == '\U{2029}' || c == '\U{202F}' || c == '\U{205F}'
    || c == '\U{3000}'
  }

  predicate NoSpace(s: seq<char>)
  {
    forall j :: 0 <= j < |s| ==> !IsSpace(s[j])
  }

  predicate AllSpace(s: seq<char>)
  {
    forall j :: 0 <= j < |s| ==> IsSpace(s[j])
  }

  /** How many whitespace characters `s` starts with. */
  function LeadingSpaces(s: seq<char>): (n: nat)
    ensures n <= |s| && AllSpace(s[..n])
    ensures n < |s| ==> !IsSpace(s[n])
  {
    if s != [] && IsSpace(s[0]) then 1 + LeadingSpaces(s[1..]) else 0
  }

  /** The length of `s` once its trailing whitespace is cut off. */
  function TextEnd(s: seq<char>): (n: nat)
    ensures n <= |s| && AllSpace(s[n..])
    ensures n > 0 ==> !IsSpace(s[n - 1])
  {
    if s != [] && IsSpace(s[|s| - 1]) then TextEnd(s[..|s| - 1]) else |s|
  }

  /** Python's `str.strip()`: a slice of `s` that neither starts nor ends
      with whitespace, everything cut off being whitespace; it is empty
      exactly when `s` is blank, and it keeps every non-space character. */
  function Strip(s: seq<char>): (r: seq<char>)
    ensures exists i, j :: 0 <= i <= j <= |s| && r == s[i..j] && AllSpace(s[..i]) && AllSpace(s[j..])
    ensures r != [] ==> !IsSpace(r[0]) && !IsSpace(r[|r| - 1])
    ensures r == [] <==> AllSpace(s)
    ensures RemoveSpaces(r) == RemoveSpaces(s)
  {
    var i := LeadingSpaces(s);
    var j := i + TextEnd(s[i..]);
    StripSlice(s, i, j);
    s[i..j]
  }

  /** A string that neither starts nor ends with whitespace is its own
      strip. */
  lemma StripUnpadded(s: seq<char>)
    requires s != [] && !IsSpace(s[0]) && !IsSpace(s[|s| - 1])
    ensures Strip(s) == s
  {
    assert LeadingSpaces(s) == 0;
    assert s[0..] == s;
    assert TextEnd(s) == |s|;
  }

  /** Stripping twice is stripping once. */
  lemma StripIdempotent(s: seq<char>)
    ensures Strip(Strip(s)) == Strip(s)
  {
    var r := Strip(s);
    if r != [] {
      StripUnpadded(r);
    }
  }

  /** What cutting whitespace off both ends keeps and what it drops. */
  lemma StripSlice(s: seq<char>, i: nat, j: nat)
    requires i == LeadingSpaces(s) && j == i + TextEnd(s[i..])
    ensures j <= |s| && AllSpace(s[..i]) && AllSpace(s[j..])
    ensures i < j ==> !IsSpace(s[i]) && !IsSpace(s[j - 1])
    ensures i == j <==> AllSpace(s)
    ensures RemoveSpaces(s[i..j]) == RemoveSpaces(s)
  {
    StripSliceEnd(s, i, j);
    if i == j {
      StripBlank(s, i, j);
    }
    StripRemoveSpaces(s, i, j);
  }

  /** The end of the stripped slice, seen from the whole line. */
  lemma StripSliceEnd(s: seq<char>, i: nat, j: nat)
    requires i <= |s| && j == i + TextEnd(s[i..])
    ensures j <= |s| && AllSpace(s[j..])
    ensures i < j ==> !IsSpace(s[j - 1])
  {
    forall k | 0 <= k < |s| - j ensures IsSpace(s[j..][k]) {
      assert s[j..][k] == s[i..][j - i + k];
    }
    if i < j {
      assert s[i..][j - i - 1] == s[j - 1];
    }
  }

  lemma StripBlank(s: seq<char>, i: nat, j: nat)
    requires i <= j <= |s| && AllSpace(s[..i]) && AllSpace(s[j..]) && i == j
    ensures AllSpace(s)
  {
    forall k | 0 <= k < |s| ensures IsSpace(s[k]) {
      if k < i { assert s[k] == s[..i][k]; } else { assert s[k] == s[j..][k - j]; }
    }
  }

  lemma StripRemoveSpaces(s: seq<char>, i: nat, j: nat)
    requires i <= j <= |s| && AllSpace(s[..i]) && AllSpace(s[j..])
    ensures RemoveSpaces(s[i..j]) == RemoveSpaces(s)
  {
    assert s == s[..i] + s[i..j] + s[j..];
    RemoveSpacesAppend(s[..i] + s[i..j], s[j..]);
    RemoveSpacesAppend(s[..i], s[i..j]);
    RemoveSpacesAllSpace(s[..i]);
    RemoveSpacesAllSpace(s[j..]);
  }

  /** The characters of `s` that are not whitespace, in order. */
  function RemoveSpaces(s: seq<char>): seq<char>
  {
    if s == [] then [] else (if IsSpace(s[0]) then [] else [s[0]]) + RemoveSpaces(s[1..])
  }

  lemma {:induction false} RemoveSpacesAppend(a: seq<char>, b: seq<char>)
    ensures RemoveSpaces(a + b) == RemoveSpaces(a) + RemoveSpaces(b)
  {
    if a == [] {
      assert a + b == b;
    } else {
      assert (a + b)[1..] == a[1..] + b;
      RemoveSpacesAppend(a[1..], b);
    }
  }

  lemma {:induction false} RemoveSpacesAllSpace(s: seq<char>)
    requires AllSpace(s)
    ensures RemoveSpaces(s) == []
  {
    if s != [] {
      RemoveSpacesAllSpace(s[1..]);
    }
  }

  lemma {:induction false} RemoveSpacesNoSpace(s: seq<char>)
    requires NoSpace(s)
    ensures RemoveSpaces(s) == s
  {
    if s != [] {
      RemoveSpacesNoSpace(s[1..]);
      assert s == [s[0]] + s[1..];
    }
  }

  /** Python's `str.split()` without arguments: the maximal runs of
      non-whitespace characters of `s`, in order. No word is empty or holds
      whitespace. */
  function Split(s: seq<char>): (words: seq<seq<char>>)
    ensures forall k :: 0 <= k < |words| ==> words[k] != [] && NoSpace(words[k])
  {
    SplitFrom(s, [])
  }

  /** The words of `s` when the characters `current` of a word have been
      read just before it: a whitespace character ends the word being read
      (if any), any other character extends it. */
  function SplitFrom(s: seq<char>, current: seq<char>): (words: seq<seq<char>>)
    requires NoSpace(current)
    ensures forall k :: 0 <= k < |words| ==> words[k] != [] && NoSpace(words[k])
    decreases |s|
  {
    if s == [] then Pending(current)
    else if IsSpace(s[0]) then Pending(current) + SplitFrom(s[1..], [])
    else
      NoSpaceSnoc(current, s[0]);
      SplitFrom(s[1..], current + [s[0]])
  }

  /** The word being read, as a list of no or one word. */
  function Pending(current: seq<char>): seq<seq<char>>
  {
    if current == [] then [] else [current]
  }

  /** `"".join(words)`: the words written one after another. */
  function Concat(words: seq<seq<char>>): (r: seq<char>)
    ensures |r| == TotalLength(words)
  {
    if words == [] then [] else words[0] + Concat(words[1..])
  }

  /** The number of characters in all the words together. */
  function TotalLength(words: seq<seq<char>>): nat
  {
    if words == [] then 0 else |words[0]| + TotalLength(words[1..])
  }

  /** `" ".join(words)`: the words separated by single spaces. */
  function Join(words: seq<seq<char>>): seq<char>
  {
    if words == [] then []
    else if |words| == 1 then words[0]
    else words[0] + [' '] + Join(words[1..])
  }

  lemma {:induction false} ConcatAppend(v: seq<seq<char>>, w: seq<seq<char>>)
    ensures Concat(v + w) == Concat(v) + Concat(w)
  {
    if v == [] {
      assert v + w == w;
    } else {
      assert (v + w)[1..] == v[1..] + w;
      ConcatAppend(v[1..], w);
    }
  }

  /** Joining the words of a split line gives the line's characters with
      every whitespace character removed. */
  lemma SplitConcat(s: seq<char>)
    ensures Concat(Split(s)) == RemoveSpaces(s)
  {
    SplitFromConcat(s, []);
  }

  lemma {:induction false} SplitFromConcat(s: seq<char>, current: seq<char>)
    requires NoSpace(current)
    ensures Concat(SplitFrom(s, current)) == current + RemoveSpaces(s)
    decreases |s|
  {
    if s == [] {
      ConcatPending(current);
    } else if IsSpace(s[0]) {
      SplitFromConcat(s[1..], []);
      SplitFromConcatSpace(s, current);
    } else {
      NoSpaceSnoc(current, s[0]);
      SplitFromConcat(s[1..], current + [s[0]]);
      SplitFromConcatLetter(s, current);
    }
  }

  /** One step of `SplitFromConcat` at a whitespace character. */
  lemma SplitFromConcatSpace(s: seq<char>, current: seq<char>)
    requires s != [] && IsSpace(s[0]) && NoSpace(current)
    requires Concat(SplitFrom(s[1..], [])) == RemoveSpaces(s[1..])
    ensures Concat(SplitFrom(s, current)) == current + RemoveSpaces(s)
  {
    var later := SplitFrom(s[1..], []);
    assert SplitFrom(s, current) == Pending(current) + later;
    ConcatAppend(Pending(current), later);
    ConcatPending(current);
    RemoveSpacesStep(s);
  }

  /** One step of `SplitFromConcat` at any other character. */
  lemma SplitFromConcatLetter(s: seq<char>, current: seq<char>)
    requires s != [] && !IsSpace(s[0]) && NoSpace(current) && NoSpace(current + [s[0]])
    requires Concat(SplitFrom(s[1..], current + [s[0]])) == current + [s[0]] + RemoveSpaces(s[1..])
    ensures Concat(SplitFrom(s, current)) == current + RemoveSpaces(s)
  {
    assert SplitFrom(s, current) == SplitFrom(s[1..], current + [s[0]]);
    RemoveSpacesStep(s);
    AppendAssoc(current, [s[0]], RemoveSpaces(s[1..]));
  }

  /** `RemoveSpaces` drops a leading whitespace character and keeps any
      other. */
  lemma RemoveSpacesStep(s: seq<char>)
    requires s != []
    ensures IsSpace(s[0]) ==> RemoveSpaces(s) == RemoveSpaces(s[1..])
    ensures !IsSpace(s[0]) ==> RemoveSpaces(s) == [s[0]] + RemoveSpaces(s[1..])
  {
    if IsSpace(s[0]) {
      assert [] + RemoveSpaces(s[1..]) == RemoveSpaces(s[1..]);
    }
  }

  lemma AppendAssoc<T>(a: seq<T>, b: seq<T>, c: seq<T>)
    ensures a + b + c == a + (b + c)
  {
  }

  /** Appending a non-space character keeps a string free of whitespace. */
  lemma NoSpaceSnoc(current: seq<char>, c: char)
    requires NoSpace(current) && !IsSpace(c)
    ensures NoSpace(current + [c])
  {
    assert forall j :: 0 <= j < |current| ==> (current + [c])[j] == current[j];
  }

  /** The word being read contributes its characters. */
  lemma ConcatPending(current: seq<char>)
    ensures Concat(Pending(current)) == current
  {
    if current != [] {
      assert Concat([current]) == current + Concat([]);
    }
  }

  /** A line splits into no words exactly when it is blank. */
  lemma SplitBlank(s: seq<char>)
    ensures Split(s) == [] <==> AllSpace(s)
  {
    SplitFromBlank(s, []);
  }

  lemma {:induction false} SplitFromBlank(s: seq<char>, current: seq<char>)
    requires NoSpace(current)
    ensures SplitFrom(s, current) == [] <==> current == [] && AllSpace(s)
    decreases |s|
  {
    if s != [] {
      assert AllSpace(s) <==> IsSpace(s[0]) && AllSpace(s[1..]) by {
        assert forall j :: 0 < j < |s| ==> s[j] == s[1..][j - 1];
      }
      if IsSpace(s[0]) {
        SplitFromBlank(s[1..], []);
      } else {
        NoSpaceSnoc(current, s[0]);
        SplitFromBlank(s[1..], current + [s[0]]);
      }
    }
  }

  /** Reading the characters of a word only extends the word being read. */
  lemma {:induction false} SplitFromWord(w: seq<char>, rest: seq<char>, current: seq<char>)
    requires NoSpace(w) && NoSpace(current)
    ensures NoSpace(current + w)
    ensures SplitFrom(w + rest, current) == SplitFrom(rest, current + w)
    decreases |w|
  {
    assert NoSpace(current + w) by {
      forall j | 0 <= j < |current + w| ensures !IsSpace((current + w)[j]) {
        if j >= |current| {
          assert (current + w)[j] == w[j - |current|];
        }
      }
    }
    if w == [] {
      assert w + rest == rest && current + w == current;
    } else {
      var s := w + rest;
      assert s[0] == w[0] && s[1..] == w[1..] + rest;
      assert current + w == (current + [w[0]]) + w[1..];
      SplitFromWord(w[1..], rest, current + [w[0]]);
    }
  }

  /** A lone word splits into itself. */
  lemma SplitOneWord(w: seq<char>)
    requires w != [] && NoSpace(w)
    ensures Split(w) == [w]
  {
    SplitFromWord(w, [], []);
    assert w + [] == w && [] + w == w;
  }

  /** Whitespace in front of a line changes nothing in its split. */
  lemma {:induction false} SplitSpacesFirst(sp: seq<char>, s: seq<char>)
    requires AllSpace(sp)
    ensures Split(sp + s) == Split(s)
    decreases |sp|
  {
    if sp == [] {
      assert sp + s == s;
    } else {
      var t := sp + s;
      assert t[0] == sp[0] && t[1..] == sp[1..] + s;
      assert AllSpace(sp[1..]) by {
        assert forall k :: 0 <= k < |sp| - 1 ==> sp[1..][k] == sp[k + 1];
      }
      assert SplitFrom(t, []) == [] + SplitFrom(t[1..], []);
      assert [] + SplitFrom(t[1..], []) == SplitFrom(t[1..], []);
      SplitSpacesFirst(sp[1..], s);
    }
  }

  /** A word followed by nothing or by whitespace is split off as the first
      word. */
  lemma SplitWordThen(w: seq<char>, rest: seq<char>)
    requires w != [] && NoSpace(w)
    requires rest == [] || IsSpace(rest[0])
    ensures Split(w + rest) == [w] + Split(rest)
  {
    SplitFromWord(w, rest, []);
    assert [] + w == w;
    if rest == [] {
      assert [w] + [] == [w];
    } else {
      assert SplitFrom(rest, w) == [w] + SplitFrom(rest[1..], []);
      assert SplitFrom(rest, []) == [] + SplitFrom(rest[1..], []);
      assert [] + SplitFrom(rest[1..], []) == SplitFrom(rest[1..], []);
    }
  }

  /** A word, a non-empty run of whitespace and the rest of a line split
      into that word followed by the words of the rest: any whitespace run
      separates words. */
  lemma SplitWordGap(w: seq<char>, sp: seq<char>, j: seq<char>)
    requires w != [] && NoSpace(w)
    requires sp != [] && AllSpace(sp)
    ensures Split(w + sp + j) == [w] + Split(j)
  {
    assert w + sp + j == w + (sp + j);
    assert (sp + j)[0] == sp[0];
    SplitWordThen(w, sp + j);
    SplitSpacesFirst(sp, j);
  }

  /** Splitting undoes joining with single spaces, for words that are
      non-empty and hold no whitespace. */
  lemma {:induction false} SplitJoin(words: seq<seq<char>>)
    requires forall k :: 0 <= k < |words| ==> words[k] != [] && NoSpace(words[k])
    ensures Split(Join(words)) == words
  {
    if |words| == 1 {
      SplitOneWord(words[0]);
    } else if words != [] {
      assert AllSpace([' ']);
      SplitWordGap(words[0], [' '], Join(words[1..]));
      SplitJoin(words[1..]);
      assert words == [words[0]] + words[1..];
    }
  }

  /** Whitespace at the end of the input only closes the word being read. */
  lemma {:induction false} SplitFromBlankTail(sp: seq<char>, current: seq<char>)
    requires AllSpace(sp) && NoSpace(current)
    ensures SplitFrom(sp, current) == Pending(current)
    decreases |sp|
  {
    if sp != [] {
      assert AllSpace(sp[1..]) by {
        assert forall k :: 0 <= k < |sp| - 1 ==> sp[1..][k] == sp[k + 1];
      }
      SplitFromBlankTail(sp[1..], []);
      assert Pending(current) + [] == Pending(current);
    }
  }

  lemma {:induction false} SplitFromSpacesLast(x: seq<char>, sp: seq<char>, current: seq<char>)
    requires AllSpace(sp) && NoSpace(current)
    ensures SplitFrom(x + sp, current) == SplitFrom(x, current)
    decreases |x|
  {
    if x == [] {
      assert x + sp == sp;
      SplitFromBlankTail(sp, current);
    } else {
      var t := x + sp;
      assert t[0] == x[0] && t[1..] == x[1..] + sp;
      if IsSpace(x[0]) {
        SplitFromSpacesLast(x[1..], sp, []);
      } else {
        NoSpaceSnoc(current, x[0]);
        SplitFromSpacesLast(x[1..], sp, current + [x[0]]);
      }
    }
  }

  /** Whitespace at the end of a line changes nothing in its split. */
  lemma SplitSpacesLast(x: seq<char>, sp: seq<char>)
    requires AllSpace(sp)
    ensures Split(x + sp) == Split(x)
  {
    SplitFromSpacesLast(x, sp, []);
  }

  /** `row.strip().split()` is `row.split()`. */
  lemma SplitStrip(s: seq<char>)
    ensures Split(Strip(s)) == Split(s)
  {
    var i, j :| 0 <= i <= j <= |s| && Strip(s) == s[i..j] && AllSpace(s[..i]) && AllSpace(s[j..]);
    assert s == s[..i] + (s[i..j] + s[j..]);
    SplitSpacesFirst(s[..i], s[i..j] + s[j..]);
    SplitSpacesLast(s[i..j], s[j..]);
  }

  /** The line `gaps[0] + words[0] + gaps[1] + ... + words[n - 1] + gaps[n]`:
      the words with a run of whitespace before, between and after them. */
  function Spaced(words: seq<seq<char>>, gaps: seq<seq<char>>): seq<char>
    requires |gaps| == |words| + 1
  {
    if words == [] then gaps[0] else gaps[0] + (words[0] + Spaced(words[1..], gaps[1..]))
  }

  /** The words are non-empty and hold no whitespace, every gap is
      whitespace only, and the gaps between two words are not empty. */
  predicate WellSpaced(words: seq<seq<char>>, gaps: seq<seq<char>>)
  {
    && |gaps| == |words| + 1
    && (forall k :: 0 <= k < |words| ==> words[k] != [] && NoSpace(words[k]))
    && (forall k :: 0 <= k < |gaps| ==> AllSpace(gaps[k]))
    && (forall k :: 0 < k < |words| ==> gaps[k] != [])
  }

  lemma WellSpacedTail(words: seq<seq<char>>, gaps: seq<seq<char>>)
    requires WellSpaced(words, gaps) && words != []
    ensures WellSpaced(words[1..], gaps[1..])
  {
    assert forall k :: 0 <= k < |words| - 1 ==> words[1..][k] == words[k + 1];
    assert forall k :: 0 <= k < |gaps| - 1 ==> gaps[1..][k] == gaps[k + 1];
  }

  /** What follows a word in a well-spaced line is nothing or starts with
      whitespace. */
  lemma SpacedAfterWord(words: seq<seq<char>>, gaps: seq<seq<char>>)
    requires WellSpaced(words, gaps) && words != []
    ensures var rest := Spaced(words[1..], gaps[1..]);
            rest == [] || IsSpace(rest[0])
  {
    var rest := Spaced(words[1..], gaps[1..]);
    if |words| == 1 {
      assert rest == gaps[1];
    } else {
      assert gaps[1] != [] && AllSpace(gaps[1]);
      assert rest[0] == gaps[1][0];
    }
  }

  /** `str.split()` cuts on every run of whitespace, whatever its length and
      whatever whitespace characters it holds, and drops the whitespace at
      both ends: a well-spaced line splits into exactly its words. */
  lemma {:induction false} SplitSpaced(words: seq<seq<char>>, gaps: seq<seq<char>>)
    requires WellSpaced(words, gaps)
    ensures Split(Spaced(words, gaps)) == words
  {
    if words == [] {
      SplitBlank(gaps[0]);
    } else {
      var rest := Spaced(words[1..], gaps[1..]);
      SplitSpacesFirst(gaps[0], words[0] + rest);
      SpacedAfterWord(words, gaps);
      SplitWordThen(words[0], rest);
      WellSpacedTail(words, gaps);
      SplitSpaced(words[1..], gaps[1..]);
      assert words == [words[0]] + words[1..];
    }
  }

  /** A single-space join of non-empty words without whitespace neither
      starts nor ends with whitespace. */
  lemma {:induction false} JoinEnds(words: seq<seq<char>>)
    requires words != []
    requires forall k :: 0 <= k < |words| ==> words[k] != [] && NoSpace(words[k])
    ensures Join(words) != [] && !IsSpace(Join(words)[0]) && !IsSpace(Join(words)[|Join(words)| - 1])
  {
    if |words| > 1 {
      var j := Join(words[1..]);
      JoinEnds(words[1..]);
      var line := words[0] + [' '] + j;
      assert Join(words) == line;
      assert line[0] == words[0][0];
      assert line[|line| - 1] == j[|j| - 1];
    }
  }
}
