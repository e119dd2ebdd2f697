/** String helpers with the meaning Go's standard library gives them: the
    character classes of `unicode.IsSpace` and of the regexp `\s` class,
    `strings.Split`/`strings.Join` on a one-character separator,
    `strings.Fields`, `len` of a string (its UTF-8 byte count), string
    ordering, and ASCII title casing. */
module Text {

  datatype Option<T> = None | Some(value: T)

  // ---------------------------------------------------------------------
  // Character classes

  /** Go's `unicode.IsSpace`: the characters `strings.Fields` splits on. */
  predicate IsSpace(c: char) {
    c == '\t' || c == '\n' || c == '\U{0B}' || c == '\U{0C}' || c == '\r' || c == ' '
    || c == '\U{85}' || c == '\U{A0}' || c == '\U{1680}'
    || ('\U{2000}' <= c <= '\U{200A}')
    || c == '\U{2028}' || c == '\U{2029}' || c == '\U{202F}' || c == '\U{205F}' || c == '\U{3000}'
  }

  /** The `\s` class of Go's regexp syntax (RE2): `[\t\n\f\r ]`. */
  predicate IsRegexSpace(c: char) {
    c == '\t' || c == '\n' || c == '\U{0C}' || c == '\r' || c == ' '
  }

  /** The class `[a-zA-Z0-9_-]` of a recipe name. */
  predicate IsNameChar(c: char) {
    ('a' <= c <= 'z') || ('A' <= c <= 'Z') || ('0' <= c <= '9') || c == '_' || c == '-'
  }

  predicate IsDigit(c: char) {
    '0' <= c <= '9'
  }

  /** A word in the sense of `strings.Fields`: non-empty, no space in it. */
  predicate IsWord(w: string) {
    w != [] && forall i :: 0 <= i < |w| ==> !IsSpace(w[i])
  }

  // ---------------------------------------------------------------------
  // Maximal runs. Each result is pinned down by its contract: the longest
  // prefix whose characters are all in the class.

  function RegexSpaceRun(s: string): (n: nat)
    ensures n <= |s|
    ensures forall i :: 0 <= i < n ==> IsRegexSpace(s[i])
    ensures n == |s| || !IsRegexSpace(s[n])
  {
    if s != [] && IsRegexSpace(s[0]) then 1 + RegexSpaceRun(s[1..]) else 0
  }

  function NameRun(s: string): (n: nat)
    ensures n <= |s|
    ensures forall i :: 0 <= i < n ==> IsNameChar(s[i])
    ensures n == |s| || !IsNameChar(s[n])
  {
    if s != [] && IsNameChar(s[0]) then 1 + NameRun(s[1..]) else 0
  }

  function DigitRun(s: string): (n: nat)
    ensures n <= |s|
    ensures forall i :: 0 <= i < n ==> IsDigit(s[i])
    ensures n == |s| || !IsDigit(s[n])
  {
    if s != [] && IsDigit(s[0]) then 1 + DigitRun(s[1..]) else 0
  }

  /** Length of the leading run of non-space characters. */
  function WordRun(s: string): (n: nat)
    ensures n <= |s|
    ensures forall i :: 0 <= i < n ==> !IsSpace(s[i])
    ensures n == |s| || IsSpace(s[n])
  {
    if s != [] && !IsSpace(s[0]) then 1 + WordRun(s[1..]) else 0
  }

  /** Index of the first `c` in `s`, or `|s|` when there is none. */
  function IndexOf(s: string, c: char): (i: nat)
    ensures i <= |s|
    ensures forall j :: 0 <= j < i ==> s[j] != c
    ensures i < |s| ==> s[i] == c
  {
    if s == [] then 0 else if s[0] == c then 0 else 1 + IndexOf(s[1..], c)
  }

  // ---------------------------------------------------------------------
  // Prefixes, suffixes and substrings

  predicate HasPrefix(s: string, p: string) {
    |p| <= |s| && s[..|p|] == p
  }

  predicate HasSuffix(s: string, p: string) {
    |p| <= |s| && s[|s| - |p|..] == p
  }

  predicate OccursAt(s: string, sub: string, i: int) {
    0 <= i && i + |sub| <= |s| && s[i..i + |sub|] == sub
  }

  /** `strings.Contains`. */
  function Contains(s: string, sub: string): (b: bool)
    ensures b <==> exists i :: OccursAt(s, sub, i)
    decreases |s|
  {
    if HasPrefix(s, sub) then
      assert OccursAt(s, sub, 0);
      true
    else if s == [] then
      false
    else
      var b := Contains(s[1..], sub);
      assert b ==> exists i :: OccursAt(s, sub, i) by {
        if b {
          var i :| OccursAt(s[1..], sub, i);
          assert s[i + 1..i + 1 + |sub|] == s[1..][i..i + |sub|];
          assert OccursAt(s, sub, i + 1);
        }
      }
      assert (exists i :: OccursAt(s, sub, i)) ==> b by {
        if exists i :: OccursAt(s, sub, i) {
          var i :| OccursAt(s, sub, i);
          assert i != 0;
          assert s[1..][i - 1..i - 1 + |sub|] == s[i..i + |sub|];
          assert OccursAt(s[1..], sub, i - 1);
        }
      }
      b
  }

  /** `strings.TrimSuffix`. */
  function TrimSuffix(s: string, suffix: string): (r: string)
    ensures HasSuffix(s, suffix) ==> r + suffix == s
    ensures !HasSuffix(s, suffix) ==> r == s
  {
    if HasSuffix(s, suffix) then s[..|s| - |suffix|] else s
  }

  // ---------------------------------------------------------------------
  // Split and Join on a one-character separator

  /** `strings.Split(s, sep)`: always at least one part (`[""]` for `""`),
      none of them containing the separator. */
  function Split(s: string, sep: char): (parts: seq<string>)
    ensures |parts| >= 1
    ensures forall k :: 0 <= k < |parts| ==> sep !in parts[k]
    decreases |s|
  {
    var i := IndexOf(s, sep);
    if i == |s| then [s] else [s[..i]] + Split(s[i + 1..], sep)
  }

  /** There is one part more than there are separators. */
  lemma {:induction false} SplitCount(s: string, sep: char)
    ensures |Split(s, sep)| == 1 + multiset(s)[sep]
    decreases |s|
  {
    var i := IndexOf(s, sep);
    if i == |s| {
      assert sep !in multiset(s);
    } else {
      var head, tail := s[..i], s[i + 1..];
      SplitCount(tail, sep);
      assert sep !in multiset(head);
      assert s == head + [sep] + tail;
      assert multiset(s) == multiset(head) + multiset{sep} + multiset(tail);
    }
  }

  /** `strings.Join(parts, sep)`. */
  function Join(parts: seq<string>, sep: char): string
  {
    if parts == [] then []
    else if |parts| == 1 then parts[0]
    else parts[0] + [sep] + Join(parts[1..], sep)
  }

  lemma {:induction false} JoinSplit(s: string, sep: char)
    ensures Join(Split(s, sep), sep) == s
    decreases |s|
  {
    var i := IndexOf(s, sep);
    if i < |s| {
      var rest := Split(s[i + 1..], sep);
      JoinSplit(s[i + 1..], sep);
      assert Split(s, sep) == [s[..i]] + rest;
      JoinCons(s[..i], rest, sep);
      assert s == s[..i] + [sep] + s[i + 1..];
    }
  }

  lemma {:induction false} SplitJoin(parts: seq<string>, sep: char)
    requires |parts| >= 1
    requires forall k :: 0 <= k < |parts| ==> sep !in parts[k]
    ensures Split(Join(parts, sep), sep) == parts
  {
    var p := parts[0];
    if |parts| == 1 {
      assert IndexOf(p, sep) == |p|;
    } else {
      var s := p + [sep] + Join(parts[1..], sep);
      assert s[|p|] == sep;
      assert forall j :: 0 <= j < |p| ==> s[j] == p[j];
      assert IndexOf(s, sep) == |p|;
      assert s[..|p|] == p;
      assert s[|p| + 1..] == Join(parts[1..], sep);
      SplitJoin(parts[1..], sep);
    }
  }

  lemma JoinCons(p: string, parts: seq<string>, sep: char)
    requires |parts| >= 1
    ensures Join([p] + parts, sep) == p + [sep] + Join(parts, sep)
  {
    assert ([p] + parts)[1..] == parts;
  }

  lemma {:induction false} JoinSnoc(parts: seq<string>, p: string, sep: char)
    requires |parts| >= 1
    ensures Join(parts + [p], sep) == Join(parts, sep) + [sep] + p
  {
    if |parts| > 1 {
      assert (parts + [p])[1..] == parts[1..] + [p];
      JoinSnoc(parts[1..], p, sep);
    }
  }

  // ---------------------------------------------------------------------
  // strings.Fields

  /** `strings.Fields`: the maximal runs of non-space characters, in order. */
  function Fields(s: string): (ws: seq<string>)
    ensures forall k :: 0 <= k < |ws| ==> IsWord(ws[k])
    decreases |s|
  {
    if s == [] then []
    else if IsSpace(s[0]) then Fields(s[1..])
    else
      var n := WordRun(s);
      [s[..n]] + Fields(s[n..])
  }

  lemma FieldsOfWord(w: string)
    requires IsWord(w)
    ensures Fields(w) == [w]
  {
    assert !IsSpace(w[0]);
    var n := WordRun(w);
    assert n == |w|;
    assert w[..n] == w;
    assert w[n..] == [];
  }

  /** Appending a separator and a word to any string adds exactly that word. */
  lemma {:induction false} FieldsAppendWord(x: string, c: char, w: string)
    requires IsSpace(c) && IsWord(w)
    ensures Fields(x + [c] + w) == Fields(x) + [w]
    decreases |x|
  {
    var s := x + [c] + w;
    if x == [] {
      assert s[1..] == w;
      FieldsOfWord(w);
    } else if IsSpace(x[0]) {
      assert s[1..] == x[1..] + [c] + w;
      FieldsAppendWord(x[1..], c, w);
    } else {
      var n := WordRun(x);
      var m := WordRun(s);
      assert forall i :: 0 <= i < |x| ==> s[i] == x[i];
      assert s[|x|] == c;
      assert m <= |x|;
      assert m == n;
      assert s[..n] == x[..n];
      assert s[n..] == x[n..] + [c] + w;
      FieldsAppendWord(x[n..], c, w);
    }
  }

  // ---------------------------------------------------------------------
  // Byte length: Go's `len` of a string counts UTF-8 bytes.

  function CharBytes(c: char): nat {
    if c as int < 0x80 then 1
    else if c as int < 0x800 then 2
    else if c as int < 0x10000 then 3
    else 4
  }

  function ByteLen(s: string): (n: nat)
    ensures |s| <= n <= 4 * |s|
    ensures s == [] <==> n == 0
  {
    if s == [] then 0 else CharBytes(s[0]) + ByteLen(s[1..])
  }

  lemma {:induction false} ByteLenAppend(a: string, b: string)
    ensures ByteLen(a + b) == ByteLen(a) + ByteLen(b)
  {
    if a == [] {
      assert a + b == b;
    } else {
      assert (a + b)[0] == a[0];
      assert (a + b)[1..] == a[1..] + b;
      ByteLenAppend(a[1..], b);
      calc {
        ByteLen(a + b);
        CharBytes(a[0]) + ByteLen(a[1..] + b);
        CharBytes(a[0]) + ByteLen(a[1..]) + ByteLen(b);
        ByteLen(a) + ByteLen(b);
      }
    }
  }

  // ---------------------------------------------------------------------
  // Ordering: Go compares strings byte by byte, and UTF-8 preserves the
  // order of code points, so this is lexicographic order on characters.

  predicate LexLe(a: string, b: string) {
    a == [] || (b != [] && (a[0] < b[0] || (a[0] == b[0] && LexLe(a[1..], b[1..]))))
  }

  lemma {:induction false} LexLeTotal(a: string, b: string)
    ensures LexLe(a, b) || LexLe(b, a)
  {
    if a != [] && b != [] && a[0] == b[0] {
      LexLeTotal(a[1..], b[1..]);
    }
  }

  lemma {:induction false} LexLeTransitive(a: string, b: string, c: string)
    requires LexLe(a, b) && LexLe(b, c)
    ensures LexLe(a, c)
  {
    if a != [] && b != [] && c != [] && a[0] == b[0] == c[0] {
      LexLeTransitive(a[1..], b[1..], c[1..]);
    }
  }

  // ---------------------------------------------------------------------
  // ASCII case mapping

  function ToUpper(c: char): char {
    if 'a' <= c <= 'z' then (c as int - 32) as char else c
  }

  function ToLower(c: char): char {
    if 'A' <= c <= 'Z' then (c as int + 32) as char else c
  }

  predicate IsLetter(c: char) {
    'a' <= c <= 'z' || 'A' <= c <= 'Z'
  }

  /** Some letter occurs among the first `i` characters of `s`. */
  predicate LetterBefore(s: string, i: int) {
    exists j :: 0 <= j < i && j < |s| && IsLetter(s[j])
  }

  /** Title case of one word: characters before the first letter are kept,
      the first letter is upper-cased and every later letter lower-cased. */
  function TitleWord(s: string): (r: string)
    ensures |r| == |s|
    ensures forall i :: 0 <= i < |s| ==> r[i] == if LetterBefore(s, i) then ToLower(s[i]) else ToUpper(s[i])
  {
    if s == [] then []
    else
      var rest := if IsLetter(s[0]) then Lowered(s[1..]) else TitleWord(s[1..]);
      LetterBeforeTail(s);
      assert forall i :: 1 <= i < |s| ==> s[1..][i - 1] == s[i];
      [ToUpper(s[0])] + rest
  }

  /** Every letter lower-cased. */
  function Lowered(s: string): (r: string)
    ensures |r| == |s| && forall i :: 0 <= i < |s| ==> r[i] == ToLower(s[i])
  {
    seq(|s|, i requires 0 <= i < |s| => ToLower(s[i]))
  }

  /** A letter before position `i` is the first character or one before
      position `i - 1` of the rest. */
  lemma LetterBeforeTail(s: string)
    requires s != []
    ensures forall i :: 1 <= i <= |s| ==> (LetterBefore(s, i) <==> IsLetter(s[0]) || LetterBefore(s[1..], i - 1))
  {
    forall i | 1 <= i <= |s|
      ensures LetterBefore(s, i) <==> IsLetter(s[0]) || LetterBefore(s[1..], i - 1)
    {
      if LetterBefore(s, i) && !IsLetter(s[0]) {
        var j :| 0 <= j < i && j < |s| && IsLetter(s[j]);
        assert s[1..][j - 1] == s[j];
      }
      if LetterBefore(s[1..], i - 1) {
        var j :| 0 <= j < i - 1 && j < |s[1..]| && IsLetter(s[1..][j]);
        assert s[j + 1] == s[1..][j];
      }
    }
  }

  /** `cases.Title` leaves a leading digit and upper-cases the letter after it. */
  lemma ExampleTitleAfterDigit()
    ensures TitleWord("4k") == "4K"
  {
    assert !IsLetter('4');
    assert TitleWord("k") == "K";
    assert "4k"[1..] == "k";
  }
}
