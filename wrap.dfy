/** `wrap` in picker.go: greedy word wrapping of a description to a limit
    measured in bytes. The words are those of `strings.Fields`; a word
    goes on a new line when the current line, one space and the word
    would exceed the limit. The space is counted even when the line is
    still empty, so a first word longer than `limit - 1` bytes leaves an
    empty first line. */
module Wrap {
  import opened Text

  /** The lines already written to the builder and the line being filled. */
  datatype WrapState = WrapState(lines: seq<string>, line: string)

  predicate Breaks(line: string, word: string, limit: int) {
    ByteLen(line) + ByteLen(word) + 1 > limit
  }

  function WrapStep(st: WrapState, word: string, limit: int): WrapState {
    if Breaks(st.line, word, limit) then WrapState(st.lines + [st.line], word)
    else WrapState(st.lines, (if st.line != "" then st.line + " " else "") + word)
  }

  /** The state after the words `words`, one step per word. */
  function WrapFold(words: seq<string>, limit: int): WrapState {
    if words == [] then WrapState([], "")
    else WrapStep(WrapFold(words[..|words| - 1], limit), words[|words| - 1], limit)
  }

  /** What the builder holds: each finished line followed by a newline. */
  function Terminated(lines: seq<string>): string {
    if lines == [] then "" else Terminated(lines[..|lines| - 1]) + lines[|lines| - 1] + "\n"
  }

  /** The output of a state: its lines joined with newlines. */
  function Rendered(st: WrapState): string {
    Join(st.lines + [st.line], '\n')
  }

  /** The result of `wrap`: the input itself when it has no words. */
  function WrapSpec(s: string, limit: int): string {
    var words := Fields(s);
    if words == [] then s else Rendered(WrapFold(words, limit))
  }

  lemma {:induction false} TerminatedJoin(lines: seq<string>, last: string)
    ensures Terminated(lines) + last == Join(lines + [last], '\n')
    decreases |lines|
  {
    if lines == [] {
      assert [] + [last] == [last];
    } else {
      var init, l := lines[..|lines| - 1], lines[|lines| - 1];
      TerminatedJoin(init, l);
      assert init + [l] == lines;
      assert lines + [last] == (init + [l]) + [last];
      JoinSnoc(init + [l], last, '\n');
      calc {
        Terminated(lines) + last;
        Terminated(init) + l + "\n" + last;
        (Terminated(init) + l) + ['\n'] + last;
        Join(init + [l], '\n') + ['\n'] + last;
        Join(lines + [last], '\n');
      }
    }
  }

  lemma FoldPrefixStep(words: seq<string>, i: nat, limit: int)
    requires i < |words|
    ensures WrapFold(words[..i + 1], limit) == WrapStep(WrapFold(words[..i], limit), words[i], limit)
  {
    assert words[..i + 1][..i] == words[..i] && words[..i + 1][i] == words[i];
  }

  lemma TerminatedSnoc(lines: seq<string>, l: string)
    ensures Terminated(lines + [l]) == Terminated(lines) + (l + "\n")
  {
    assert (lines + [l])[..|lines|] == lines;
  }

  method Wrap(s: string, limit: int) returns (r: string)
    ensures r == WrapSpec(s, limit)
    ensures Fields(s) == [] ==> r == s
  {
    var words := Fields(s);
    if |words| == 0 {
      return s;
    }
    var result := "";
    var line := "";
    var i := 0;
    while i < |words|
      invariant 0 <= i <= |words|
      invariant result == Terminated(WrapFold(words[..i], limit).lines)
      invariant line == WrapFold(words[..i], limit).line
    {
      var word := words[i];
      ghost var st := WrapFold(words[..i], limit);
      FoldPrefixStep(words, i, limit);
      if ByteLen(line) + ByteLen(word) + 1 > limit {
        TerminatedSnoc(st.lines, line);
        result := result + (line + "\n");
        line := word;
      } else {
        if line != "" {
          line := line + " ";
        }
        line := line + word;
      }
      i := i + 1;
    }
    assert words[..i] == words;
    TerminatedJoin(WrapFold(words, limit).lines, line);
    r := result + line;
  }

  // ---------------------------------------------------------------------
  // Properties of the fold

  lemma JoinLast(lines: seq<string>, a: string, b: string, sep: char)
    ensures Join(lines + [a + b], sep) == Join(lines + [a], sep) + b
  {
    if lines == [] {
      assert [] + [a + b] == [a + b] && [] + [a] == [a];
    } else {
      JoinSnoc(lines, a + b, sep);
      JoinSnoc(lines, a, sep);
    }
  }

  /** After at least one word the current line is never empty. */
  lemma FoldLineNonEmpty(words: seq<string>, limit: int)
    requires forall k :: 0 <= k < |words| ==> IsWord(words[k])
    ensures words == [] ==> WrapFold(words, limit) == WrapState([], "")
    ensures words != [] ==> WrapFold(words, limit).line != []
  {
  }

  /** The text of the state holds exactly the words folded so far. */
  lemma {:induction false} FoldFields(words: seq<string>, limit: int)
    requires words != []
    requires forall k :: 0 <= k < |words| ==> IsWord(words[k])
    ensures Fields(Rendered(WrapFold(words, limit))) == words
    decreases |words|
  {
    var init, w := words[..|words| - 1], words[|words| - 1];
    assert init + [w] == words;
    var st := WrapFold(init, limit);
    FoldLineNonEmpty(init, limit);
    if init == [] {
      if Breaks(st.line, w, limit) {
        assert Rendered(WrapFold(words, limit)) == Join(["", w], '\n');
        assert ["", w][1..] == [w];
        assert Join(["", w], '\n') == "" + ['\n'] + w;
        FieldsAppendWord("", '\n', w);
      } else {
        assert WrapFold(words, limit) == WrapState([], w);
        assert Rendered(WrapState([], w)) == Join([w], '\n') == w;
        FieldsOfWord(w);
      }
    } else {
      FoldFields(init, limit);
      if Breaks(st.line, w, limit) {
        JoinSnoc(st.lines + [st.line], w, '\n');
        assert Rendered(WrapFold(words, limit)) == Rendered(st) + ['\n'] + w;
        FieldsAppendWord(Rendered(st), '\n', w);
      } else {
        assert st.line + " " + w == st.line + ([' '] + w);
        JoinLast(st.lines, st.line, [' '] + w, '\n');
        assert Rendered(WrapFold(words, limit)) == Rendered(st) + [' '] + w;
        FieldsAppendWord(Rendered(st), ' ', w);
      }
    }
  }

  /** A line is within the limit, or is a single word, or is empty. */
  predicate LineFits(line: string, limit: int) {
    ByteLen(line) <= limit || IsWord(line) || line == []
  }

  /** Every line of the state fits and none holds a newline. */
  predicate LinesFit(st: WrapState, limit: int) {
    (forall k :: 0 <= k < |st.lines| ==> LineFits(st.lines[k], limit) && '\n' !in st.lines[k])
    && LineFits(st.line, limit) && '\n' !in st.line
  }

  lemma WordHasNoNewline(w: string)
    requires IsWord(w)
    ensures '\n' !in w
  {
    forall k | 0 <= k < |w| ensures w[k] != '\n' {
      assert !IsSpace(w[k]);
    }
  }

  lemma {:induction false} FoldLinesFit(words: seq<string>, limit: int)
    requires forall k :: 0 <= k < |words| ==> IsWord(words[k])
    ensures LinesFit(WrapFold(words, limit), limit)
    decreases |words|
  {
    if words != [] {
      var init, w := words[..|words| - 1], words[|words| - 1];
      assert init + [w] == words;
      var st := WrapFold(init, limit);
      FoldLinesFit(init, limit);
      WordHasNoNewline(w);
      if !Breaks(st.line, w, limit) && st.line != "" {
        var l := st.line + " " + w;
        ByteLenAppend(st.line, " ");
        ByteLenAppend(st.line + " ", w);
        assert ByteLen(l) <= limit;
        assert forall c :: c in l ==> c in st.line || c == ' ' || c in w;
      } else if !Breaks(st.line, w, limit) {
        assert "" + w == w;
      }
    }
  }

  /** Only the first line can be empty, and it is when the first word and
      a space do not fit. */
  predicate FirstLineRule(st: WrapState, first: string, limit: int) {
    var all := st.lines + [st.line];
    (all[0] == [] <==> Breaks("", first, limit))
    && forall k :: 0 < k < |all| ==> all[k] != []
  }

  /** The first word starts the first line, or leaves it empty and starts
      the second. */
  lemma FirstStepRule(w: string, limit: int)
    requires w != []
    ensures FirstLineRule(WrapStep(WrapState([], ""), w, limit), w, limit)
  {
    var next := WrapStep(WrapState([], ""), w, limit);
    if Breaks("", w, limit) {
      assert next.lines + [next.line] == ["", w];
    } else {
      assert "" + w == w;
      assert next.lines + [next.line] == [w];
    }
  }

  /** A later word either extends the non-empty current line or starts a
      new non-empty line; the first line is left as it was. */
  lemma LaterStepRule(st: WrapState, w: string, first: string, limit: int)
    requires FirstLineRule(st, first, limit)
    requires st.line != [] && w != []
    ensures FirstLineRule(WrapStep(st, w, limit), first, limit)
  {
    var next := WrapStep(st, w, limit);
    var all := st.lines + [st.line];
    var all' := next.lines + [next.line];
    if Breaks(st.line, w, limit) {
      assert all' == all + [w];
    } else {
      assert |all'| == |all|;
      assert next.line != [];
      assert forall k :: 0 <= k < |st.lines| ==> all'[k] == all[k];
    }
  }

  lemma {:induction false} FoldFirstLine(words: seq<string>, limit: int)
    requires words != []
    requires forall k :: 0 <= k < |words| ==> IsWord(words[k])
    ensures FirstLineRule(WrapFold(words, limit), words[0], limit)
    decreases |words|
  {
    var init, w := words[..|words| - 1], words[|words| - 1];
    assert init + [w] == words;
    assert IsWord(w);
    FoldLineNonEmpty(init, limit);
    if init == [] {
      assert words[0] == w;
      FirstStepRule(w, limit);
    } else {
      FoldFirstLine(init, limit);
      assert words[0] == init[0];
      LaterStepRule(WrapFold(init, limit), w, words[0], limit);
    }
  }

  // ---------------------------------------------------------------------
  // Properties of `wrap`

  /** The words of the output, in order, are the words of the input. */
  lemma WrapKeepsWords(s: string, limit: int)
    ensures Fields(WrapSpec(s, limit)) == Fields(s)
  {
    if Fields(s) != [] {
      FoldFields(Fields(s), limit);
    }
  }

  /** The output lines are the lines of the fold, and each is within the
      limit unless it holds a single word or is empty. */
  lemma WrapLinesFit(s: string, limit: int)
    requires Fields(s) != []
    ensures var st := WrapFold(Fields(s), limit);
            var out := Split(WrapSpec(s, limit), '\n');
            out == st.lines + [st.line]
            && forall k :: 0 <= k < |out| ==> LineFits(out[k], limit)
  {
    var st := WrapFold(Fields(s), limit);
    FoldLinesFit(Fields(s), limit);
    var all := st.lines + [st.line];
    assert forall k :: 0 <= k < |all| ==> '\n' !in all[k] && LineFits(all[k], limit) by {
      forall k | 0 <= k < |all| ensures '\n' !in all[k] && LineFits(all[k], limit) {
        if k < |st.lines| { assert all[k] == st.lines[k]; }
      }
    }
    SplitJoin(all, '\n');
  }

  /** The first output line is empty exactly when the first word and one
      space exceed the limit; no other output line is empty. */
  lemma WrapFirstLine(s: string, limit: int)
    requires Fields(s) != []
    ensures var out := Split(WrapSpec(s, limit), '\n');
            (out[0] == [] <==> ByteLen(Fields(s)[0]) + 1 > limit)
            && forall k :: 0 < k < |out| ==> out[k] != []
  {
    WrapLinesFit(s, limit);
    FoldFirstLine(Fields(s), limit);
  }
}
