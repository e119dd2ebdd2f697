/** The recipe catalog: which lines of a `.just` file declare recipes, which
    description each recipe gets, how a file name becomes a category name,
    and how the catalog is assembled from all files and sorted
    (`initialModel` and `cleanCategoryName` in picker.go). */
module Catalog {
  import opened Text

  datatype Recipe = Recipe(name: string, description: string, similarity: int)

  /** One file found by the directory scan: its base name and its lines as
      the line scanner delivers them. An unreadable file has no lines. */
  datatype SourceFile = SourceFile(base: string, lines: seq<string>)

  datatype Catalog = Catalog(categories: seq<string>, recipesByCat: map<string, seq<Recipe>>, allRecipes: seq<Recipe>)

  // ---------------------------------------------------------------------
  // The two line patterns

  /** `^\s*#`: only regexp spaces before a `#` at index `k`. */
  predicate CommentMarkAt(line: string, k: int) {
    0 <= k < |line| && line[k] == '#' && forall i :: 0 <= i < k ==> IsRegexSpace(line[i])
  }

  /** What `.*` matches at the start of `s`: everything up to the first
      newline. */
  function UpToNewline(s: string): (r: string)
    ensures '\n' !in r && HasPrefix(s, r)
    ensures |r| == |s| || s[|r|] == '\n'
  {
    s[..IndexOf(s, '\n')]
  }

  /** The capture of `^\s*#\s*(.*)`, or None when the line does not match.
      Both `\s*` are greedy and `.` stops at a newline. */
  function CommentText(line: string): (r: Option<string>)
    ensures r.Some? <==> exists k :: CommentMarkAt(line, k)
    ensures r.Some? ==> '\n' !in r.value && (r.value == [] || !IsRegexSpace(r.value[0]))
    ensures r.Some? && '\n' !in line ==> HasSuffix(line, r.value)
  {
    var i := RegexSpaceRun(line);
    if i < |line| && line[i] == '#' then
      assert CommentMarkAt(line, i);
      var rest := line[i + 1..];
      var text := rest[RegexSpaceRun(rest)..];
      var r := UpToNewline(text);
      assert '\n' !in line ==> r == text && line[|line| - |text|..] == text;
      Some(r)
    else
      assert forall k :: !CommentMarkAt(line, k) by {
        forall k ensures !CommentMarkAt(line, k) {
          assert 0 <= k < i ==> IsRegexSpace(line[k]);
          assert i < k < |line| ==> !IsRegexSpace(line[i]);
        }
      }
      None
  }

  /** The shape `^\s*#\s*` with the `#` at `k` and the capture starting at
      `m`: the second `\s*` takes every space after the mark. */
  predicate CommentShape(line: string, k: int, m: int) {
    CommentMarkAt(line, k) && k < m <= |line|
    && (forall i :: k < i < m ==> IsRegexSpace(line[i]))
    && (m == |line| || !IsRegexSpace(line[m]))
  }

  /** Every comment shape of a line is the one the greedy scan finds. */
  lemma CommentShapeIsGreedy(line: string, k: int, m: int)
    requires CommentShape(line, k, m)
    ensures k == RegexSpaceRun(line)
    ensures m - k - 1 == RegexSpaceRun(line[k + 1..])
  {
    var k0 := RegexSpaceRun(line);
    assert !IsRegexSpace(line[k]);
    assert k0 < |line| ==> !IsRegexSpace(line[k0]);
    var rest := line[k + 1..];
    var j0 := RegexSpaceRun(rest);
    assert m - k - 1 < |rest| ==> !IsRegexSpace(rest[m - k - 1]);
    assert j0 < |rest| ==> !IsRegexSpace(rest[j0]);
    assert forall i :: 0 <= i < m - k - 1 ==> IsRegexSpace(rest[i]);
  }

  /** Hand-written matching agrees with the comment pattern: a line matches
      exactly when it has the comment shape, and the capture is the text
      from the end of the spaces after `#` up to the first newline. */
  lemma CommentTextIsPattern(line: string)
    ensures CommentText(line).Some? <==> exists k, m :: CommentShape(line, k, m)
    ensures forall k, m :: CommentShape(line, k, m)
              ==> CommentText(line) == Some(UpToNewline(line[m..]))
  {
    if CommentText(line).Some? {
      CommentHasShape(line);
    }
    forall k, m | CommentShape(line, k, m)
      ensures CommentText(line) == Some(UpToNewline(line[m..]))
    {
      CommentTextOfShape(line, k, m);
    }
  }

  /** A line the pattern matches has the shape the greedy scan delimits. */
  lemma CommentHasShape(line: string)
    requires CommentText(line).Some?
    ensures var k := RegexSpaceRun(line);
            CommentShape(line, k, k + 1 + RegexSpaceRun(line[k + 1..]))
  {
    var i := RegexSpaceRun(line);
    assert line[i] == '#';
    var rest := line[i + 1..];
    var j := RegexSpaceRun(rest);
    forall t | i < t < i + 1 + j ensures IsRegexSpace(line[t]) {
      assert line[t] == rest[t - i - 1];
    }
    assert i + 1 + j < |line| ==> line[i + 1 + j] == rest[j];
  }

  lemma CommentTextOfShape(line: string, k: int, m: int)
    requires CommentShape(line, k, m)
    ensures CommentText(line) == Some(UpToNewline(line[m..]))
  {
    CommentShapeIsGreedy(line, k, m);
    var rest := line[k + 1..];
    var text := rest[RegexSpaceRun(rest)..];
    assert text == line[m..];
  }

  /** The shape `^\s*([a-zA-Z0-9_-]+)\s*:` with the name at `line[i..i+n]`
      and the colon at `j`. */
  predicate DeclShape(line: string, i: int, n: int, j: int) {
    0 <= i && 0 < n && i + n <= j < |line|
    && (forall k :: 0 <= k < i ==> IsRegexSpace(line[k]))
    && (forall k :: i <= k < i + n ==> IsNameChar(line[k]))
    && (forall k :: i + n <= k < j ==> IsRegexSpace(line[k]))
    && line[j] == ':'
  }

  /** The capture of `^\s*([a-zA-Z0-9_-]+)\s*:\s*.*`, or None. */
  function DeclaredName(line: string): (r: Option<string>)
    ensures r.Some? ==> r.value != [] && forall k :: 0 <= k < |r.value| ==> IsNameChar(r.value[k])
  {
    var i := RegexSpaceRun(line);
    var t := line[i..];
    var n := NameRun(t);
    var u := t[n..];
    var j := RegexSpaceRun(u);
    if n > 0 && j < |u| && u[j] == ':' then Some(t[..n]) else None
  }

  /** Every declaration shape of a line is the one the greedy scan finds. */
  lemma DeclShapeIsGreedy(line: string, i: int, n: int, j: int)
    requires DeclShape(line, i, n, j)
    ensures i == RegexSpaceRun(line)
    ensures n == NameRun(line[i..])
    ensures j - i - n == RegexSpaceRun(line[i + n..])
  {
    var i0 := RegexSpaceRun(line);
    assert !IsRegexSpace(line[i]);
    assert i0 < |line| ==> !IsRegexSpace(line[i0]);
    assert i0 == i;
    var t := line[i..];
    var n0 := NameRun(t);
    assert !IsNameChar(t[n]);
    assert n0 < |t| ==> !IsNameChar(t[n0]);
    assert n0 == n;
    var u := line[i + n..];
    var j0 := RegexSpaceRun(u);
    assert !IsRegexSpace(u[j - i - n]);
    assert j0 < |u| ==> !IsRegexSpace(u[j0]);
  }

  /** Hand-written matching agrees with the pattern: a line matches exactly
      when it has the declaration shape, and the captured name is the one
      every such shape delimits. */
  lemma DeclaredNameIsPattern(line: string)
    ensures DeclaredName(line).Some? <==> exists i, n, j :: DeclShape(line, i, n, j)
    ensures forall i, n, j :: DeclShape(line, i, n, j) ==> DeclaredName(line) == Some(line[i..i + n])
  {
    var i := RegexSpaceRun(line);
    var t := line[i..];
    var n := NameRun(t);
    var u := t[n..];
    var j := RegexSpaceRun(u);
    assert u == line[i + n..];
    if n > 0 && j < |u| && u[j] == ':' {
      assert DeclShape(line, i, n, i + n + j);
    }
    forall i', n', j' | DeclShape(line, i', n', j')
      ensures DeclaredName(line) == Some(line[i'..i' + n'])
    {
      DeclaredNameOfShape(line, i', n', j');
    }
  }

  lemma DeclaredNameOfShape(line: string, i: int, n: int, j: int)
    requires DeclShape(line, i, n, j)
    ensures DeclaredName(line) == Some(line[i..i + n])
  {
    DeclShapeIsGreedy(line, i, n, j);
    var t := line[i..];
    var u := t[n..];
    assert u == line[i + n..];
    assert u[j - i - n] == line[j] == ':';
    assert t[..n] == line[i..i + n];
  }

  lemma CommentIsNotDeclaration(line: string)
    requires CommentText(line).Some?
    ensures DeclaredName(line).None?
  {
    var i := RegexSpaceRun(line);
    assert line[i] == '#';
    assert line[i..][0] == '#';
  }

  /** Declarations the picker hides: private helpers named `_…`, and any line
      mentioning `alias` or `[private]`. */
  function Hidden(name: string, line: string): (h: bool)
    ensures h <==> (name != [] && name[0] == '_')
                   || (exists i :: OccursAt(line, "alias", i))
                   || (exists i :: OccursAt(line, "[private]", i))
  {
    assert HasPrefix(name, "_") <==> name != [] && name[0] == '_' by {
      if name != [] { assert name[..1] == [name[0]]; }
    }
    HasPrefix(name, "_") || Contains(line, "alias") || Contains(line, "[private]")
  }

  /** What one line means to the scan. */
  datatype LineKind = Comment(text: string) | Declaration(name: string) | Skipped

  function Classify(line: string): (k: LineKind)
    ensures k.Comment? <==> CommentText(line).Some?
    ensures k.Comment? ==> k.text == CommentText(line).value
    ensures k.Declaration? <==> CommentText(line).None? && DeclaredName(line).Some? && !Hidden(DeclaredName(line).value, line)
    ensures k.Declaration? ==> k.name == DeclaredName(line).value
  {
    match CommentText(line)
    case Some(text) => Comment(text)
    case None =>
      match DeclaredName(line)
      case Some(name) => if Hidden(name, line) then Skipped else Declaration(name)
      case None => Skipped
  }

  // ---------------------------------------------------------------------
  // Scanning one file

  /** The kind of every line, in order. */
  function Kinds(lines: seq<string>): (ks: seq<LineKind>)
    ensures |ks| == |lines|
    ensures forall k :: 0 <= k < |lines| ==> ks[k] == Classify(lines[k])
  {
    seq(|lines|, k requires 0 <= k < |lines| => Classify(lines[k]))
  }

  /** Recipes of the remaining lines, given their kinds, when `pending` is
      the description waiting for the next accepted declaration. */
  function ParseFrom(ks: seq<LineKind>, pending: string): (rs: seq<Recipe>)
    ensures |rs| <= |ks|
  {
    if ks == [] then []
    else match ks[0]
      case Comment(text) => ParseFrom(ks[1..], text)
      case Declaration(name) => [Recipe(name, pending, 0)] + ParseFrom(ks[1..], "")
      case Skipped => ParseFrom(ks[1..], pending)
  }

  /** The recipes of one file. A file yields a recipe exactly when one of
      its lines is an accepted declaration (the `found` of the scan). */
  function ParseFile(lines: seq<string>): (rs: seq<Recipe>)
    ensures |rs| <= |lines|
    ensures rs == [] <==> forall k :: 0 <= k < |lines| ==> !Classify(lines[k]).Declaration?
  {
    ParseFromEmpty(Kinds(lines), "");
    ParseFrom(Kinds(lines), "")
  }

  lemma {:induction false} ParseFromEmpty(ks: seq<LineKind>, pending: string)
    ensures ParseFrom(ks, pending) == [] <==> forall k :: 0 <= k < |ks| ==> !ks[k].Declaration?
  {
    if ks != [] {
      assert forall k :: 1 <= k < |ks| ==> ks[k] == ks[1..][k - 1];
      match ks[0]
      case Comment(text) => ParseFromEmpty(ks[1..], text);
      case Declaration(name) =>
      case Skipped => ParseFromEmpty(ks[1..], pending);
    }
  }

  /** The source's per-file loop: `lastComment` is the pending description,
      `found` whether any recipe was accepted. */
  method ScanLines(lines: seq<string>) returns (recipes: seq<Recipe>, found: bool)
    ensures recipes == ParseFile(lines)
    ensures found <==> recipes != []
  {
    ghost var ks := Kinds(lines);
    var lastComment := "";
    recipes, found := [], false;
    var i := 0;
    while i < |lines|
      invariant 0 <= i <= |lines|
      invariant recipes + ParseFrom(ks[i..], lastComment) == ParseFile(lines)
      invariant found <==> recipes != []
    {
      var line := lines[i];
      ParseFromAt(ks, i, lastComment);
      var comment := CommentText(line);
      if comment.Some? {
        assert ks[i] == Comment(comment.value);
        lastComment := comment.value;
      } else {
        var name := DeclaredName(line);
        if name.Some? && !Hidden(name.value, line) {
          assert ks[i] == Declaration(name.value);
          AppendAssoc(recipes, [Recipe(name.value, lastComment, 0)], ParseFrom(ks[i + 1..], ""));
          recipes := recipes + [Recipe(name.value, lastComment, 0)];
          lastComment := "";
          found := true;
        } else {
          assert ks[i] == Skipped;
        }
      }
      i := i + 1;
    }
    assert ks[i..] == [];
  }

  /** One step of the scan, at line `i`. */
  lemma ParseFromAt(ks: seq<LineKind>, i: nat, pending: string)
    requires i < |ks|
    ensures ks[i].Comment? ==> ParseFrom(ks[i..], pending) == ParseFrom(ks[i + 1..], ks[i].text)
    ensures ks[i].Declaration?
            ==> ParseFrom(ks[i..], pending) == [Recipe(ks[i].name, pending, 0)] + ParseFrom(ks[i + 1..], "")
    ensures ks[i].Skipped? ==> ParseFrom(ks[i..], pending) == ParseFrom(ks[i + 1..], pending)
  {
    assert ks[i..][0] == ks[i] && ks[i..][1..] == ks[i + 1..];
  }

  // ---------------------------------------------------------------------
  // Which description each recipe gets, stated without the scan

  /** The description pending when the scan reaches line `i`: the text of
      the last comment line before `i`, unless an accepted declaration came
      after it; lines of any other kind leave it as it was. */
  function PendingBefore(ks: seq<LineKind>, i: int): string
    requires 0 <= i <= |ks|
  {
    if i == 0 then ""
    else match ks[i - 1]
      case Comment(text) => text
      case Declaration(_) => ""
      case Skipped => PendingBefore(ks, i - 1)
  }

  /** Indices, from `from` on, of the lines that declare an accepted recipe. */
  function DeclIndicesFrom(ks: seq<LineKind>, from: nat): (idx: seq<nat>)
    requires from <= |ks|
    ensures forall k :: 0 <= k < |idx| ==> from <= idx[k] < |ks| && ks[idx[k]].Declaration?
    ensures forall k, l :: 0 <= k < l < |idx| ==> idx[k] < idx[l]
    ensures forall i :: from <= i < |ks| && ks[i].Declaration? ==> i in idx
    decreases |ks| - from
  {
    if from == |ks| then []
    else
      var rest := DeclIndicesFrom(ks, from + 1);
      if ks[from].Declaration? then
        var idx := [from] + rest;
        assert forall k :: 0 < k < |idx| ==> idx[k] == rest[k - 1];
        idx
      else rest
  }

  /** The recipe an accepted declaration at `i` yields. */
  function RecipeAt(ks: seq<LineKind>, i: nat): Recipe
    requires i < |ks| && ks[i].Declaration?
  {
    Recipe(ks[i].name, PendingBefore(ks, i), 0)
  }

  /** One line of the scan: an accepted declaration contributes its
      recipe and its index, every other line neither. */
  lemma ParseFromStep(ks: seq<LineKind>, i: nat)
    requires i < |ks|
    ensures var d := ks[i].Declaration?;
            ParseFrom(ks[i..], PendingBefore(ks, i))
              == (if d then [RecipeAt(ks, i)] else []) + ParseFrom(ks[i + 1..], PendingBefore(ks, i + 1))
            && DeclIndicesFrom(ks, i) == (if d then [i] else []) + DeclIndicesFrom(ks, i + 1)
  {
    assert ks[i..][0] == ks[i] && ks[i..][1..] == ks[i + 1..];
    var rest := ParseFrom(ks[i + 1..], PendingBefore(ks, i + 1));
    if !ks[i].Declaration? {
      assert [] + rest == rest;
      assert [] + DeclIndicesFrom(ks, i + 1) == DeclIndicesFrom(ks, i + 1);
    }
  }

  /** `rs` are the recipes of the accepted declarations at `idx`, in order. */
  predicate RecipesAt(ks: seq<LineKind>, rs: seq<Recipe>, idx: seq<nat>) {
    |rs| == |idx|
    && forall k :: 0 <= k < |idx| ==> idx[k] < |ks| && ks[idx[k]].Declaration? && rs[k] == RecipeAt(ks, idx[k])
  }

  lemma RecipesAtCons(ks: seq<LineKind>, rs: seq<Recipe>, idx: seq<nat>, i: nat)
    requires RecipesAt(ks, rs, idx)
    requires i < |ks| && ks[i].Declaration?
    ensures RecipesAt(ks, [RecipeAt(ks, i)] + rs, [i] + idx)
  {
    var rs', idx' := [RecipeAt(ks, i)] + rs, [i] + idx;
    forall k | 1 <= k < |idx'|
      ensures idx'[k] < |ks| && ks[idx'[k]].Declaration? && rs'[k] == RecipeAt(ks, idx'[k])
    {
      assert rs'[k] == rs[k - 1] && idx'[k] == idx[k - 1];
    }
  }

  lemma {:induction false} ParseFromSuffix(ks: seq<LineKind>, i: nat)
    requires i <= |ks|
    ensures RecipesAt(ks, ParseFrom(ks[i..], PendingBefore(ks, i)), DeclIndicesFrom(ks, i))
    decreases |ks| - i
  {
    if i < |ks| {
      ParseFromSuffix(ks, i + 1);
      ParseFromStep(ks, i);
      if ks[i].Declaration? {
        RecipesAtCons(ks, ParseFrom(ks[i + 1..], PendingBefore(ks, i + 1)), DeclIndicesFrom(ks, i + 1), i);
      }
    } else {
      assert ks[i..] == [];
    }
  }

  /** The recipes of a file are its accepted declarations, in file order,
      each carrying the description pending at its line. */
  lemma ParseFileExact(lines: seq<string>)
    ensures RecipesAt(Kinds(lines), ParseFile(lines), DeclIndicesFrom(Kinds(lines), 0))
  {
    ParseFromSuffix(Kinds(lines), 0);
    assert Kinds(lines)[0..] == Kinds(lines);
  }

  /** A comment line replaces the pending description; an accepted
      declaration clears it; every other line, a hidden declaration
      included, leaves it for the next accepted recipe. */
  lemma PendingAfterLine(lines: seq<string>, i: nat)
    requires i < |lines|
    ensures var ks := Kinds(lines);
            && (CommentText(lines[i]).Some? ==> PendingBefore(ks, i + 1) == CommentText(lines[i]).value)
            && (CommentText(lines[i]).None? && DeclaredName(lines[i]).Some? && !Hidden(DeclaredName(lines[i]).value, lines[i])
                ==> PendingBefore(ks, i + 1) == "")
            && (CommentText(lines[i]).None? && DeclaredName(lines[i]).Some? && Hidden(DeclaredName(lines[i]).value, lines[i])
                ==> PendingBefore(ks, i + 1) == PendingBefore(ks, i))
  {
  }

  /** A comment directly above an accepted declaration is its description. */
  lemma CommentThenDeclaration(comment: string, decl: string)
    requires Classify(comment).Comment? && Classify(decl).Declaration?
    ensures ParseFile([comment, decl]) == [Recipe(Classify(decl).name, Classify(comment).text, 0)]
  {
    var text, name := Classify(comment).text, Classify(decl).name;
    var ks := Kinds([comment, decl]);
    assert ks == [Comment(text), Declaration(name)];
    assert ks[1..] == [Declaration(name)] && ks[1..][1..] == [];
    assert ParseFrom(ks, "") == ParseFrom(ks[1..], text);
    assert ParseFrom(ks[1..], text) == [Recipe(name, text, 0)] + ParseFrom([], "");
  }

  lemma ExampleDescribedRecipe()
    ensures ParseFile(["# hi", "go:"]) == [Recipe("go", "hi", 0)]
  {
    ExampleCommentLine();
    ExampleDeclarationLine();
    CommentThenDeclaration("# hi", "go:");
  }

  lemma ExampleCommentLine()
    ensures Classify("# hi") == Comment("hi")
  {
    var l := "# hi";
    assert !IsRegexSpace(l[0]);
    assert RegexSpaceRun(l) == 0;
    var rest := l[1..];
    assert rest == " hi";
    assert IsRegexSpace(rest[0]) && !IsRegexSpace(rest[1]);
    assert RegexSpaceRun(rest) == 1;
    assert rest[1..] == "hi";
    assert IndexOf("hi", '\n') == 2;
  }

  lemma ExampleDeclarationLine()
    ensures Classify("go:") == Declaration("go")
  {
    ExampleDeclaredName();
    ExampleNotHidden();
  }

  lemma ExampleNotHidden()
    ensures !Hidden("go", "go:")
  {
    assert "go"[..1] != "_" by { assert "go"[..1][0] == 'g'; }
    assert forall i :: !OccursAt("go:", "alias", i);
    assert forall i :: !OccursAt("go:", "[private]", i);
  }

  lemma ExampleDeclaredName()
    ensures CommentText("go:").None? && DeclaredName("go:") == Some("go")
  {
    NameStartIsNoComment("go:");
    var l := "go:";
    assert DeclShape(l, 0, 2, 2);
    DeclaredNameOfShape(l, 0, 2, 2);
    assert l[0..2] == "go";
  }

  /** A line starting with a name character is no comment. */
  lemma NameStartIsNoComment(l: string)
    requires l != [] && IsNameChar(l[0])
    ensures CommentText(l).None?
  {
    assert !CommentMarkAt(l, 0);
  }

  /** A declaration the picker hides contributes nothing. */
  lemma HiddenDeclarationSkipped(line: string)
    requires CommentText(line).None? && DeclaredName(line).Some? && Hidden(DeclaredName(line).value, line)
    ensures ParseFile([line]) == []
  {
    var ks := Kinds([line]);
    assert ks == [Skipped];
    assert ks[1..] == [];
  }

  lemma ExampleHiddenRecipe()
    ensures ParseFile(["_x:"]) == []
  {
    ExampleHiddenName();
    HiddenDeclarationSkipped("_x:");
  }

  lemma ExampleHiddenName()
    ensures CommentText("_x:").None? && DeclaredName("_x:") == Some("_x") && Hidden("_x", "_x:")
  {
    NameStartIsNoComment("_x:");
    ExampleHiddenDeclared();
    assert "_x"[0] == '_';
  }

  lemma ExampleHiddenDeclared()
    ensures DeclaredName("_x:") == Some("_x")
  {
    var l := "_x:";
    assert DeclShape(l, 0, 2, 2);
    DeclaredNameOfShape(l, 0, 2, 2);
    assert l[0..2] == "_x";
  }

  // ---------------------------------------------------------------------
  // Category names

  /** `^[0-9]+-` at index 0 with the dash at `n`. */
  predicate OrderPrefix(s: string, n: int) {
    0 < n < |s| && s[n] == '-' && forall i :: 0 <= i < n ==> IsDigit(s[i])
  }

  /** Removes one leading `digits-` prefix. */
  function StripOrderPrefix(s: string): (r: string)
    ensures forall n :: OrderPrefix(s, n) ==> r == s[n + 1..]
    ensures (forall n :: !OrderPrefix(s, n)) ==> r == s
  {
    var n := DigitRun(s);
    if 0 < n < |s| && s[n] == '-' then
      assert OrderPrefix(s, n);
      assert forall m :: OrderPrefix(s, m) ==> m == n by {
        forall m | OrderPrefix(s, m) ensures m == n {
          assert !IsDigit(s[m]);
          assert !IsDigit(s[n]);
        }
      }
      s[n + 1..]
    else
      assert forall m :: !OrderPrefix(s, m) by {
        forall m ensures !OrderPrefix(s, m) {
          assert 0 <= m < n ==> IsDigit(s[m]);
          assert n < m < |s| ==> !IsDigit(s[n]);
        }
      }
      s
  }

  function TitleAll(parts: seq<string>): (r: seq<string>)
    ensures |r| == |parts| && forall k :: 0 <= k < |parts| ==> r[k] == TitleWord(parts[k])
  {
    if parts == [] then [] else [TitleWord(parts[0])] + TitleAll(parts[1..])
  }

  /** The text of the name before the dashes are turned into spaces. */
  function CategoryStem(filename: string): string {
    StripOrderPrefix(TrimSuffix(filename, ".just"))
  }

  /** `cleanCategoryName`: the stem split on `-`, each part title-cased,
      joined with single spaces. Read character by character, the name is
      the stem with every dash turned into a space, the first letter of each
      dash-separated part upper-cased and its later letters lower-cased. */
  function CategoryName(filename: string): (r: string)
    ensures CasedLike(r, CategoryStem(filename))
  {
    DashedTitleChars(CategoryStem(filename));
    Join(TitleAll(Split(CategoryStem(filename), '-')), ' ')
  }

  /** Some letter occurs in the stem `t` before position `k` and after the
      last dash before `k`. */
  predicate LetterInPartBefore(t: string, k: int)
    requires 0 <= k <= |t|
  {
    k > 0 && t[k - 1] != '-' && (IsLetter(t[k - 1]) || LetterInPartBefore(t, k - 1))
  }

  /** Character `k` of a category name, read off the stem alone. */
  function TitleCharAt(t: string, k: int): char
    requires 0 <= k < |t|
  {
    if t[k] == '-' then ' '
    else if LetterInPartBefore(t, k) then ToLower(t[k])
    else ToUpper(t[k])
  }

  /** `r` is the title casing of the stem `t`, character by character. */
  predicate CasedLike(r: string, t: string) {
    |r| == |t| && forall k :: 0 <= k < |t| ==> r[k] == TitleCharAt(t, k)
  }

  lemma {:induction false} DashedTitleChars(t: string)
    ensures CasedLike(Join(TitleAll(Split(t, '-')), ' '), t)
    decreases |t|
  {
    var i := IndexOf(t, '-');
    if i == |t| {
      assert Split(t, '-') == [t];
      assert TitleAll([t]) == [TitleWord(t)];
      assert '-' !in t;
      TitleCharsWord(t);
    } else {
      DashedTitleChars(t[i + 1..]);
      DashedTitleStep(t, i);
    }
  }

  /** The step of the induction: the first dash-free part, then the rest. */
  lemma DashedTitleStep(t: string, i: nat)
    requires i == IndexOf(t, '-') < |t|
    requires CasedLike(Join(TitleAll(Split(t[i + 1..], '-')), ' '), t[i + 1..])
    ensures CasedLike(Join(TitleAll(Split(t, '-')), ' '), t)
  {
    var head, rest := t[..i], t[i + 1..];
    SplitAround(t, i);
    var tail := Join(TitleAll(Split(rest, '-')), ' ');
    TitleJoinCons(t, i);
    assert '-' !in head;
    TitleCharsCons(head, rest, tail);
  }

  lemma SplitAround(t: string, i: nat)
    requires i < |t|
    ensures t[..i] + [t[i]] + t[i + 1..] == t
  {
  }

  lemma TitleJoinCons(t: string, i: nat)
    requires i == IndexOf(t, '-') < |t|
    ensures Join(TitleAll(Split(t, '-')), ' ') == TitleWord(t[..i]) + [' '] + Join(TitleAll(Split(t[i + 1..], '-')), ' ')
  {
    var parts := Split(t[i + 1..], '-');
    assert Split(t, '-') == [t[..i]] + parts;
    assert ([t[..i]] + parts)[1..] == parts;
    JoinCons(TitleWord(t[..i]), TitleAll(parts), ' ');
  }

  lemma TitleCharsWord(t: string)
    requires '-' !in t
    ensures CasedLike(TitleWord(t), t)
  {
    forall k | 0 <= k < |t| ensures TitleWord(t)[k] == TitleCharAt(t, k) {
      assert t[k] != '-';
      PartIsWord(t, k);
    }
  }

  /** One step of the dash-separated title casing: a dash-free head, the dash
      turned into a space, and a tail already cased character by character. */
  lemma TitleCharsCons(head: string, rest: string, tail: string)
    requires '-' !in head
    requires CasedLike(tail, rest)
    ensures CasedLike(TitleWord(head) + [' '] + tail, head + ['-'] + rest)
  {
    var t, r := head + ['-'] + rest, TitleWord(head) + [' '] + tail;
    var i := |head|;
    forall k | 0 <= k < |t| ensures r[k] == TitleCharAt(t, k) {
      if k < i {
        assert r[k] == TitleWord(head)[k] && t[k] == head[k];
        PartBeforeInHead(head, rest, k);
      } else if k == i {
        assert r[k] == ' ' && t[k] == '-';
      } else {
        assert r[k] == tail[k - i - 1] && t[k] == rest[k - i - 1];
        PartBeforeInRest(head, rest, k);
      }
    }
  }

  /** In a stem without dashes, the part before `k` is everything before it. */
  lemma {:induction false} PartIsWord(t: string, k: int)
    requires '-' !in t && 0 <= k <= |t|
    ensures LetterInPartBefore(t, k) <==> LetterBefore(t, k)
  {
    if k > 0 {
      PartIsWord(t, k - 1);
      assert t[k - 1] in t;
      if LetterBefore(t, k) && !IsLetter(t[k - 1]) {
        var j :| 0 <= j < k && j < |t| && IsLetter(t[j]);
        assert j < k - 1;
      }
    }
  }

  /** The part before `k` does not look past `k`. */
  lemma {:induction false} PartBeforePrefix(t: string, n: int, k: int)
    requires 0 <= k <= n <= |t|
    ensures LetterInPartBefore(t, k) <==> LetterInPartBefore(t[..n], k)
  {
    if k > 0 {
      PartBeforePrefix(t, n, k - 1);
      assert t[..n][k - 1] == t[k - 1];
    }
  }

  /** Within the first part, the letters before `k` are those of the head. */
  lemma PartBeforeInHead(head: string, rest: string, k: int)
    requires '-' !in head && 0 <= k < |head|
    ensures LetterInPartBefore(head + ['-'] + rest, k) <==> LetterBefore(head, k)
  {
    var t := head + ['-'] + rest;
    PartBeforePrefix(t, |head|, k);
    assert t[..|head|] == head;
    PartIsWord(head, k);
  }

  /** After the first dash, the part before `k` lies in the rest. */
  lemma {:induction false} PartBeforeInRest(head: string, rest: string, k: int)
    requires |head| < k <= |head| + 1 + |rest|
    ensures LetterInPartBefore(head + ['-'] + rest, k) <==> LetterInPartBefore(rest, k - |head| - 1)
  {
    var t := head + ['-'] + rest;
    if k == |head| + 1 {
      assert t[k - 1] == '-';
    } else {
      PartBeforeInRest(head, rest, k - 1);
      assert t[k - 1] == rest[k - |head| - 2];
    }
  }

  /** The parts of a category name, split on spaces, are the title-cased
      dash-separated parts of the stem when the stem has no spaces. */
  lemma CategoryNameParts(filename: string)
    requires ' ' !in CategoryStem(filename)
    ensures Split(CategoryName(filename), ' ') == TitleAll(Split(CategoryStem(filename), '-'))
  {
    var parts := TitleAll(Split(CategoryStem(filename), '-'));
    forall k | 0 <= k < |parts| ensures ' ' !in parts[k] {
      var p := Split(CategoryStem(filename), '-')[k];
      assert forall c :: c in p ==> c in CategoryStem(filename) by {
        JoinSplit(CategoryStem(filename), '-');
        JoinContains(Split(CategoryStem(filename), '-'), '-', k);
      }
      forall m | 0 <= m < |p| ensures parts[k][m] != ' ' {
        assert p[m] in p;
        assert p[m] != ' ';
      }
    }
    SplitJoin(parts, ' ');
  }

  lemma {:induction false} JoinContains(parts: seq<string>, sep: char, k: int)
    requires 0 <= k < |parts|
    ensures forall c :: c in parts[k] ==> c in Join(parts, sep)
  {
    if |parts| > 1 {
      if k > 0 { JoinContains(parts[1..], sep, k - 1); }
    }
  }

  /** The method over the source's loop that title-cases `parts[i]` in place. */
  method CleanCategoryName(filename: string) returns (name: string)
    ensures name == CategoryName(filename)
  {
    var stem := TrimSuffix(filename, ".just");
    stem := StripOrderPrefix(stem);
    var parts := Split(stem, '-');
    ghost var original := parts;
    var i := 0;
    while i < |parts|
      invariant 0 <= i <= |parts| == |original|
      invariant forall k :: 0 <= k < i ==> parts[k] == TitleWord(original[k])
      invariant forall k :: i <= k < |parts| ==> parts[k] == original[k]
    {
      parts := parts[i := TitleWord(parts[i])];
      i := i + 1;
    }
    assert parts == TitleAll(original);
    name := Join(parts, ' ');
  }

  lemma ExampleCategoryName()
    ensures CategoryName("82-bazzite-sunshine.just") == "Bazzite Sunshine"
  {
    ExampleStem();
    ExampleSplitStem();
    ExampleTitleAll();
    ExampleJoinWords();
  }

  /** A leading digit that is not an order prefix stays, and the letter
      after it is the one upper-cased. */
  lemma ExampleDigitCategoryName()
    ensures CategoryName("4k-gaming.just") == "4K Gaming"
  {
    ExampleDigitStem();
    ExampleDigitSplit();
    ExampleDigitTitleAll();
    ExampleDigitJoin();
  }

  lemma ExampleDigitJoin()
    ensures Join(["4K", "Gaming"], ' ') == "4K Gaming"
  {
    assert ["4K", "Gaming"][1..] == ["Gaming"];
  }

  lemma ExampleDigitStem()
    ensures CategoryStem("4k-gaming.just") == "4k-gaming"
  {
    var f, s := "4k-gaming.just", "4k-gaming";
    assert TrimSuffix(f, ".just") == s by {
      assert f[|f| - 5..] == ".just";
      assert f[..|f| - 5] == s;
    }
    forall n ensures !OrderPrefix(s, n) {
      assert !IsDigit(s[1]);
    }
  }

  lemma ExampleDigitSplit()
    ensures Split("4k-gaming", '-') == ["4k", "gaming"]
  {
    var parts := ["4k", "gaming"];
    assert parts[1..] == ["gaming"];
    assert Join(parts, '-') == "4k-gaming";
    SplitJoin(parts, '-');
  }

  lemma ExampleDigitTitleAll()
    ensures TitleAll(["4k", "gaming"]) == ["4K", "Gaming"]
  {
    ExampleTitleAfterDigit();
    ExampleTitleGaming();
    assert ["4k", "gaming"][1..] == ["gaming"];
  }

  lemma ExampleTitleGaming()
    ensures TitleWord("gaming") == "Gaming"
  {
  }

  lemma ExampleTitleAll()
    ensures TitleAll(["bazzite", "sunshine"]) == ["Bazzite", "Sunshine"]
  {
    ExampleTitleWords();
    assert ["bazzite", "sunshine"][1..] == ["sunshine"];
  }

  lemma ExampleStem()
    ensures CategoryStem("82-bazzite-sunshine.just") == "bazzite-sunshine"
  {
    var f, s := "82-bazzite-sunshine.just", "82-bazzite-sunshine";
    assert TrimSuffix(f, ".just") == s by {
      assert f[|f| - 5..] == ".just";
      assert f[..|f| - 5] == s;
    }
    assert OrderPrefix(s, 2);
    assert s[3..] == "bazzite-sunshine";
  }

  lemma ExampleSplitStem()
    ensures Split("bazzite-sunshine", '-') == ["bazzite", "sunshine"]
  {
    var parts := ["bazzite", "sunshine"];
    assert parts[1..] == ["sunshine"];
    assert Join(parts, '-') == "bazzite-sunshine";
    SplitJoin(parts, '-');
  }

  lemma ExampleTitleWords()
    ensures TitleWord("bazzite") == "Bazzite" && TitleWord("sunshine") == "Sunshine"
  {
    ExampleTitleFirst();
    ExampleTitleSecond();
  }

  lemma ExampleTitleFirst()
    ensures TitleWord("bazzite") == "Bazzite"
  {
  }

  lemma ExampleTitleSecond()
    ensures TitleWord("sunshine") == "Sunshine"
  {
  }

  lemma ExampleJoinWords()
    ensures Join(["Bazzite", "Sunshine"], ' ') == "Bazzite Sunshine"
  {
    assert ["Bazzite", "Sunshine"][1..] == ["Sunshine"];
  }

  // ---------------------------------------------------------------------
  // Assembling the catalog from all files

  /** Reading a category absent from the map gives the empty list, as a Go
      map read does. */
  function Lookup(m: map<string, seq<Recipe>>, k: string): seq<Recipe> {
    if k in m then m[k] else []
  }

  predicate IsPickerFile(f: SourceFile) {
    Contains(f.base, "picker")
  }

  /** A file adds its category when it is not the picker's own file and at
      least one recipe of it was accepted. */
  predicate Contributes(f: SourceFile) {
    !IsPickerFile(f) && ParseFile(f.lines) != []
  }

  /** The effect of one iteration of the loop over files. */
  function AddFile(c: Catalog, f: SourceFile): Catalog {
    if IsPickerFile(f) then c
    else
      var category := CategoryName(f.base);
      var recipes := ParseFile(f.lines);
      if recipes == [] then c
      else Catalog(c.categories + [category],
                   c.recipesByCat[category := Lookup(c.recipesByCat, category) + recipes],
                   c.allRecipes + recipes)
  }

  function GatherFrom(c: Catalog, files: seq<SourceFile>): Catalog
    decreases |files|
  {
    if files == [] then c else GatherFrom(AddFile(c, files[0]), files[1..])
  }

  /** The catalog before sorting. */
  function Gather(files: seq<SourceFile>): Catalog {
    GatherFrom(Catalog([], map[], []), files)
  }

  /** Recipes of the files with category `cat`, file after file. */
  function RecipesOf(files: seq<SourceFile>, cat: string): seq<Recipe> {
    if files == [] then []
    else (if CategoryName(files[0].base) == cat then FileRecipes(files[0]) else []) + RecipesOf(files[1..], cat)
  }

  /** Recipes of all files, file after file. */
  function AllRecipesOf(files: seq<SourceFile>): seq<Recipe> {
    if files == [] then []
    else FileRecipes(files[0]) + AllRecipesOf(files[1..])
  }

  /** Recipes a file adds to the flat list. */
  function FileRecipes(f: SourceFile): seq<Recipe> {
    if IsPickerFile(f) then [] else ParseFile(f.lines)
  }

  lemma AddFileCategories(c: Catalog, f: SourceFile)
    ensures AddFile(c, f).categories == c.categories + (if Contributes(f) then [CategoryName(f.base)] else [])
  {
    if !Contributes(f) {
      assert c.categories + [] == c.categories;
    }
  }

  lemma AddFileAll(c: Catalog, f: SourceFile)
    ensures AddFile(c, f).allRecipes == c.allRecipes + FileRecipes(f)
  {
    if FileRecipes(f) == [] {
      assert c.allRecipes + [] == c.allRecipes;
    }
  }

  lemma AddFileLookup(c: Catalog, f: SourceFile, cat: string)
    ensures Lookup(AddFile(c, f).recipesByCat, cat)
            == Lookup(c.recipesByCat, cat) + (if CategoryName(f.base) == cat then FileRecipes(f) else [])
  {
    if CategoryName(f.base) != cat || FileRecipes(f) == [] {
      assert Lookup(c.recipesByCat, cat) + [] == Lookup(c.recipesByCat, cat);
    }
  }

  lemma AddFileKeys(c: Catalog, f: SourceFile)
    ensures AddFile(c, f).recipesByCat.Keys
            == c.recipesByCat.Keys + (if Contributes(f) then {CategoryName(f.base)} else {})
  {
  }

  lemma {:induction false} GatherCategories(c: Catalog, files: seq<SourceFile>, cat: string)
    ensures cat in GatherFrom(c, files).categories
            <==> cat in c.categories
                 || exists k :: 0 <= k < |files| && Contributes(files[k]) && CategoryName(files[k].base) == cat
    decreases |files|
  {
    if files != [] {
      AddFileCategories(c, files[0]);
      GatherCategories(AddFile(c, files[0]), files[1..], cat);
      if exists k :: 0 <= k < |files| && Contributes(files[k]) && CategoryName(files[k].base) == cat {
        var k :| 0 <= k < |files| && Contributes(files[k]) && CategoryName(files[k].base) == cat;
        if k > 0 {
          assert files[1..][k - 1] == files[k];
        }
      }
      if exists k :: 0 <= k < |files[1..]| && Contributes(files[1..][k]) && CategoryName(files[1..][k].base) == cat {
        var k :| 0 <= k < |files[1..]| && Contributes(files[1..][k]) && CategoryName(files[1..][k].base) == cat;
        assert files[k + 1] == files[1..][k];
      }
    }
  }

  lemma AppendAssoc<T>(a: seq<T>, b: seq<T>, c: seq<T>)
    ensures (a + b) + c == a + (b + c)
  {
  }

  lemma {:induction false} GatherPerCategory(c: Catalog, files: seq<SourceFile>, cat: string)
    ensures Lookup(GatherFrom(c, files).recipesByCat, cat) == Lookup(c.recipesByCat, cat) + RecipesOf(files, cat)
    decreases |files|
  {
    if files != [] {
      var d := AddFile(c, files[0]);
      var own := if CategoryName(files[0].base) == cat then FileRecipes(files[0]) else [];
      var before, after := Lookup(c.recipesByCat, cat), RecipesOf(files[1..], cat);
      assert Lookup(d.recipesByCat, cat) == before + own by { AddFileLookup(c, files[0], cat); }
      assert Lookup(GatherFrom(d, files[1..]).recipesByCat, cat) == Lookup(d.recipesByCat, cat) + after by {
        GatherPerCategory(d, files[1..], cat);
      }
      assert GatherFrom(c, files) == GatherFrom(d, files[1..]);
      assert RecipesOf(files, cat) == own + after;
      AppendAssoc(before, own, after);
    } else {
      assert Lookup(c.recipesByCat, cat) + [] == Lookup(c.recipesByCat, cat);
    }
  }

  lemma {:induction false} GatherAll(c: Catalog, files: seq<SourceFile>)
    ensures GatherFrom(c, files).allRecipes == c.allRecipes + AllRecipesOf(files)
    decreases |files|
  {
    if files != [] {
      var d := AddFile(c, files[0]);
      var own, after := FileRecipes(files[0]), AllRecipesOf(files[1..]);
      assert d.allRecipes == c.allRecipes + own by { AddFileAll(c, files[0]); }
      assert GatherFrom(d, files[1..]).allRecipes == d.allRecipes + after by { GatherAll(d, files[1..]); }
      assert GatherFrom(c, files) == GatherFrom(d, files[1..]);
      assert AllRecipesOf(files) == own + after;
      AppendAssoc(c.allRecipes, own, after);
    } else {
      assert c.allRecipes + [] == c.allRecipes;
    }
  }

  lemma {:induction false} GatherKeys(c: Catalog, files: seq<SourceFile>)
    requires c.recipesByCat.Keys == set x | x in c.categories
    ensures GatherFrom(c, files).recipesByCat.Keys == set x | x in GatherFrom(c, files).categories
    decreases |files|
  {
    if files != [] {
      var d := AddFile(c, files[0]);
      AddFileCategories(c, files[0]);
      AddFileKeys(c, files[0]);
      assert d.recipesByCat.Keys == set x | x in d.categories;
      GatherKeys(d, files[1..]);
    }
  }

  /** What the loop over files produces: a category for exactly the files
      that contribute one, a map entry for exactly the listed categories,
      per-category recipes in file and declaration order, and all recipes. */
  lemma GatherFacts(files: seq<SourceFile>, cat: string)
    ensures var g := Gather(files);
            && (cat in g.categories <==> exists k :: 0 <= k < |files| && Contributes(files[k]) && CategoryName(files[k].base) == cat)
            && g.recipesByCat.Keys == set x | x in g.categories
            && Lookup(g.recipesByCat, cat) == RecipesOf(files, cat)
            && g.allRecipes == AllRecipesOf(files)
  {
    var e := Catalog([], map[], []);
    GatherCategories(e, files, cat);
    GatherKeys(e, files);
    GatherPerCategory(e, files, cat);
    GatherAll(e, files);
  }

  // ---------------------------------------------------------------------
  // Sorting (sort.Strings and sort.Slice by name)

  function Self(s: string): string { s }

  function NameOf(r: Recipe): string { r.name }

  predicate SortedBy<T>(s: seq<T>, key: T -> string) {
    forall i, j :: 0 <= i < j < |s| ==> LexLe(key(s[i]), key(s[j]))
  }

  function InsertBy<T>(x: T, s: seq<T>, key: T -> string): (r: seq<T>)
    requires SortedBy(s, key)
    ensures SortedBy(r, key)
    ensures multiset(r) == multiset(s) + multiset{x}
  {
    if s == [] then [x]
    else if LexLe(key(x), key(s[0])) then
      assert forall j :: 0 <= j < |s| ==> LexLe(key(x), key(s[j])) by {
        forall j | 0 <= j < |s| ensures LexLe(key(x), key(s[j])) {
          if j > 0 { LexLeTransitive(key(x), key(s[0]), key(s[j])); }
        }
      }
      [x] + s
    else
      LexLeTotal(key(x), key(s[0]));
      var t := InsertBy(x, s[1..], key);
      assert s == [s[0]] + s[1..];
      assert forall j :: 0 <= j < |t| ==> LexLe(key(s[0]), key(t[j])) by {
        forall j | 0 <= j < |t| ensures LexLe(key(s[0]), key(t[j])) {
          assert t[j] in multiset(t);
          if t[j] != x {
            assert t[j] in multiset(s[1..]);
            var m :| 0 <= m < |s[1..]| && s[1..][m] == t[j];
            assert s[m + 1] == t[j];
          }
        }
      }
      [s[0]] + t
  }

  /** A sorted permutation (the model's order among equal keys is one of
      those the unstable library sort may produce). */
  function SortBy<T>(s: seq<T>, key: T -> string): (r: seq<T>)
    ensures SortedBy(r, key)
    ensures multiset(r) == multiset(s)
  {
    if s == [] then []
    else
      assert s == [s[0]] + s[1..];
      InsertBy(s[0], SortBy(s[1..], key), key)
  }

  /** `initialModel`'s loading: the loop over files, then the two sorts. */
  method LoadCatalog(files: seq<SourceFile>) returns (c: Catalog)
    ensures c.recipesByCat == Gather(files).recipesByCat
    ensures SortedBy(c.categories, Self) && multiset(c.categories) == multiset(Gather(files).categories)
    ensures SortedBy(c.allRecipes, NameOf) && multiset(c.allRecipes) == multiset(Gather(files).allRecipes)
  {
    var categories: seq<string> := [];
    var recipesByCat: map<string, seq<Recipe>> := map[];
    var allRecipes: seq<Recipe> := [];
    var i := 0;
    while i < |files|
      invariant 0 <= i <= |files|
      invariant GatherFrom(Catalog(categories, recipesByCat, allRecipes), files[i..]) == Gather(files)
    {
      var file := files[i];
      assert files[i..][0] == file && files[i..][1..] == files[i + 1..];
      if !Contains(file.base, "picker") {
        var category := CleanCategoryName(file.base);
        var recipes, found := ScanLines(file.lines);
        if found {
          recipesByCat := recipesByCat[category := Lookup(recipesByCat, category) + recipes];
          allRecipes := allRecipes + recipes;
          categories := categories + [category];
        }
      }
      i := i + 1;
    }
    assert files[i..] == [];
    c := Catalog(SortBy(categories, Self), recipesByCat, SortBy(allRecipes, NameOf));
  }
}
