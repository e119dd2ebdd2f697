# ujust picker — a verified model of its core

`picker.go` is a terminal picker for `ujust` recipes. It reads every
`*.just` file of the recipe directory into a catalog and groups the recipes
into categories named after the files. A tab row then shows one category at
a time. Keys and the mouse move the selection, toggle a fuzzy search over all
recipes, and toggle a view of the selected recipe's code. Enter, or a click
on the selected row, records the recipe to run and ends the program.

This project models that core in Dafny and proves its properties:

- `text.dfy` (module `Text`): the Go library behaviour the core relies on.
  This covers the regexp `\s` class, `strings.Split`/`Join`/`Fields`/
  `Contains`/`TrimSuffix`, `len` as a UTF-8 byte count, the `<` order on
  strings, and ASCII title case.
- `catalog.dfy` (module `Catalog`): the line scan of `initialModel`, in two
  forms. One is the imperative loop; the other is a function over the kinds
  of the lines, with what each recipe's description is. The module also has
  `cleanCategoryName`, the fold over files, and the two final sorts.
- `search.dfy` (module `Search`): `updateFilteredRecipe`. The fuzzy matcher
  is a parameter `rank` (-1 means no match).
- `wrap.dfy` (module `Wrap`): `wrap`, the greedy word wrapper.
- `navigation.dfy` (module `Navigation`): the arithmetic of `changeTab`,
  `changeRecipeScroll` and `scrollViewport`, on plain integers.
- `picker.dfy` (module `Picker`): the `model` struct as a class and
  `Update` with the helpers it calls, as methods on it. Three things that
  are not part of this model become inputs:
  - the resolved mouse target;
  - the text input's value after a message (`typed`);
  - the outcome of `ujust -n <name>` (`show`).

Four behaviours of the code shape the model:

- Enter on an empty active list indexes that list and panics
  (picker.go:242-243, 506-510). `Update` returns `Crash` in exactly that
  case.
- The scroll offset moves by at most one row, and only after the key and
  mouse branches (picker.go:231, 268, 517-528). A resize, `s`, a query
  change, or a tab change can leave the selection outside the window. A tab
  change comes from the left and right keys or a click on a tab arrow, and
  resets the selection to the first row (picker.go:481-493). The model
  proves that moves by one row keep the selection visible: the up and down
  keys and the wheel over the list (`Navigation.MoveKeepsWindow`,
  `Picker.Model.KeyPress`, `Picker.Model.Mouse`, `Picker.Model.Handle`), and
  in `Picker.Model.Update` when the query did not change. It does not prove
  this for every message.
- The search list is ordered by `slices.SortFunc`, which is not stable
  (picker.go:450-452). The order among equal similarities is therefore not
  fixed. The model states the search list as any similarity-sorted
  permutation of the accepted recipes.
- `q` and `ctrl+c` quit even while the search input has the focus. Only
  `esc` gives way to the focus (picker.go:261-266).

## Model

| member | source | states |
|---|---|---|
| Text.Contains | picker.go:101 | `strings.Contains`: true exactly when the substring occurs at some index |
| Text.TrimSuffix | picker.go:168 | the suffix is removed exactly when the string ends with it, otherwise the string is unchanged |
| Text.Split | picker.go:170 | there is at least one part, and no part holds the separator |
| Text.SplitCount | picker.go:170 | there is one more part than there are separators |
| Text.JoinSplit | picker.go:170-174 | joining the parts of a split with the same separator gives back the string |
| Text.SplitJoin | picker.go:170-174 | splitting a join of separator-free parts gives back the parts |
| Text.Fields | picker.go:457 | `strings.Fields`: every field is a non-empty word without white space |
| Text.FieldsAppendWord | picker.go:457 | appending a separator and a word to a text appends that word to its fields |
| Text.ByteLenAppend | picker.go:466 | the byte length of a concatenation is the sum of the byte lengths |
| Text.LexLeTotal | picker.go:141-144 | the string order is total |
| Text.LexLeTransitive | picker.go:141-144 | the string order is transitive |
| Text.TitleWord | picker.go:172 | same length; characters before the first letter are kept, the first letter is upper-cased and every later letter lower-cased |
| Text.ExampleTitleAfterDigit | picker.go:172 | `4k` is title-cased to `4K`: a leading digit stays and the letter after it is upper-cased |
| Catalog.CommentText | picker.go:97 | `^\s*#\s*(.*)`: matches exactly when only spaces precede a `#`; the capture has no newline, does not start with a space, and ends the line |
| Catalog.CommentShapeIsGreedy | picker.go:97 | in every comment shape, the `#` sits after the longest run of leading spaces and the capture starts after the longest run of spaces that follows it |
| Catalog.CommentTextIsPattern | picker.go:97-117 | the hand-written match succeeds exactly when the line has the comment shape (spaces, `#`, spaces, then no space); the capture is everything after that shape up to the first newline |
| Catalog.DeclaredName | picker.go:96 | the capture of the declaration pattern is a non-empty run of name characters |
| Catalog.DeclaredNameIsPattern | picker.go:96 | the hand-written match succeeds exactly when the line has the declaration shape, and captures the name every such shape delimits |
| Catalog.CommentIsNotDeclaration | picker.go:115-120 | a comment line is never a declaration |
| Catalog.Hidden | picker.go:122-124 | a declaration is hidden exactly when its name starts with `_` or the line contains `alias` or `[private]` |
| Catalog.Classify | picker.go:114-124 | a line is a comment exactly when the comment pattern matches, and then carries its capture; it is a declaration exactly when it is no comment, the name pattern matches and the name is not hidden, and then carries that name |
| Catalog.ScanLines | picker.go:109-138 | the per-file loop yields exactly the recipes of the line-kind parse, and `found` holds exactly when there are any |
| Catalog.DeclIndicesFrom | picker.go:120-134 | the accepted declaration lines, strictly increasing, and all of them |
| Catalog.ParseFile | picker.go:110-138 | a file yields no more recipes than it has lines, and none exactly when none of its lines is an accepted declaration, so `found` is false |
| Catalog.ParseFileExact | picker.go:110-134 | the recipes of a file are its accepted declarations in file order, each with the description pending at its line |
| Catalog.PendingAfterLine | picker.go:115-133 | a comment replaces the pending description; an accepted declaration clears it; a hidden declaration keeps it |
| Catalog.CommentThenDeclaration | picker.go:115-131 | a comment directly above an accepted declaration becomes its description |
| Catalog.ExampleDescribedRecipe | picker.go:115-131 | the lines `# hi`, `go:` give the one recipe `go` described as `hi` |
| Catalog.HiddenDeclarationSkipped | picker.go:122-124 | a hidden declaration contributes no recipe |
| Catalog.ExampleHiddenRecipe | picker.go:122-124 | the line `_x:` gives no recipe |
| Catalog.StripOrderPrefix | picker.go:169 | removes the one leading `digits-` prefix when there is one, otherwise nothing |
| Catalog.TitleAll | picker.go:171-173 | each part is title-cased in place, keeping the number of parts |
| Catalog.CleanCategoryName | picker.go:167-175 | the loop that title-cases the parts in place computes the category name |
| Catalog.CategoryName | picker.go:167-175 | the name has its stem's length; dashes become spaces; in each dash-separated part the first letter is upper-cased, the later letters lower-cased, and the characters before the first letter are kept |
| Catalog.CategoryNameParts | picker.go:170-174 | for a stem without spaces, the words of the name are the title-cased parts of the stem |
| Catalog.ExampleCategoryName | picker.go:167-175 | `82-bazzite-sunshine.just` is named `Bazzite Sunshine` |
| Catalog.ExampleDigitCategoryName | picker.go:167-175 | `4k-gaming.just` has no order prefix and is named `4K Gaming` |
| Catalog.GatherCategories | picker.go:99-139 | a category is listed exactly when some file other than the picker's own yields at least one recipe under it |
| Catalog.GatherPerCategory | picker.go:129 | a category's list is its files' recipes, file after file, in declaration order |
| Catalog.GatherAll | picker.go:130 | the flat list is every file's recipes, file after file |
| Catalog.GatherKeys | picker.go:129-138 | the map has an entry for exactly the listed categories |
| Catalog.GatherFacts | picker.go:99-139 | the four facts above for the catalog built from all files |
| Catalog.InsertBy | picker.go:141-144 | inserting into a sorted list keeps it sorted and adds exactly the element |
| Catalog.SortBy | picker.go:141-144 | the result is sorted by the key and is a permutation of the input |
| Catalog.LoadCatalog | picker.go:99-144 | the loading loop builds the gathered map, and sorted permutations of the gathered categories and recipes |
| Search.Ranked | picker.go:443-449 | at most the input's length; every kept recipe carries its name's rank, which is above -1 |
| Search.RankedMembers | picker.go:443-449 | a recipe is kept exactly when its rank is above -1, with only its similarity changed |
| Search.RankedNone | picker.go:444-445 | when the matcher rejects every name nothing is kept |
| Search.InsertBySimilarity | picker.go:450-452 | inserting keeps the similarity order and adds exactly the element |
| Search.SortBySimilarity | picker.go:450-452 | ordered by non-decreasing similarity and a permutation of the input |
| Search.RankedFilterMembers | picker.go:441-454 | the search list holds exactly the accepted recipes, each carrying its rank |
| Search.FilterRecipes | picker.go:441-454 | the loop and the sort produce a search list: sorted by similarity, a permutation of the accepted recipes |
| Search.NothingMatches | picker.go:441-454 | a query nothing matches gives the empty search list |
| Navigation.TabAfter | picker.go:481-493 | stays in range, moves by at most one towards the direction, and moves exactly when not at that end |
| Navigation.SelectionAfter | picker.go:494-504 | stays in the list, moves by at most one towards the direction, and moves exactly when not at that end |
| Navigation.ScrollStep | picker.go:517-528 | no-op when the list fits or the selection is visible; otherwise, for a positive height, exactly one row towards the selection; for a positive height, keeps the offset in range |
| Navigation.ScrollRestoresWindow | picker.go:517-528 | after a selection move of at most one row, one correction makes the selection visible again |
| Navigation.MoveKeepsWindow | picker.go:494-528 | an up or down move followed by the correction keeps the selection visible |
| Wrap.Wrap | picker.go:456-479 | the loop over the words builds the greedy wrap; an input without words comes back unchanged |
| Wrap.TerminatedJoin | picker.go:467-477 | the builder's content plus the last line is the lines joined by newlines |
| Wrap.FoldFields | picker.go:465-475 | the text of the fold holds exactly the words folded so far |
| Wrap.FoldLinesFit | picker.go:465-475 | no line of the fold has a newline, and each is within the limit, one word, or empty |
| Wrap.FoldFirstLine | picker.go:465-475 | only the first line of the fold can be empty, exactly when the first word and a space exceed the limit |
| Wrap.WrapKeepsWords | picker.go:456-479 | the words of the output, in order, are the words of the input |
| Wrap.WrapLinesFit | picker.go:456-479 | every output line is within the limit unless it is a single word or empty |
| Wrap.WrapFirstLine | picker.go:466-468 | the first output line is empty exactly when the first word plus one byte exceeds the limit; no other line is empty |
| Picker.Model.constructor | picker.go:146-164 | the initial state: first tab, first row, no search, no code view, not ready |
| Picker.Model.CurrentRecipesAre | picker.go:431-439 | all recipes when searching with an empty query; the ranked, similarity-ordered matches with a query; otherwise the current tab's list |
| Picker.Model.ChangeTab | picker.go:481-493 | the tab moves as `TabAfter` says, and the selection resets exactly when the tab moved |
| Picker.Model.ChangeRecipeScroll | picker.go:494-504 | the selection moves as `SelectionAfter` says in the active list, and nothing else changes |
| Picker.Model.RunRecipe | picker.go:506-510 | a selection inside the list is recorded to run and quits; any other selection is the index panic |
| Picker.Model.ScrollViewport | picker.go:517-528 | the offset becomes `ScrollStep` of the old one |
| Picker.Model.FetchRecipeCode | picker.go:530-549 | with the code view on and a selection inside the list, the code shown becomes the fetched text or the error text; otherwise it is unchanged |
| Picker.Model.UpdateModel | picker.go:512-515 | the scroll correction, then the fetch |
| Picker.Model.UpdateFilteredRecipe | picker.go:441-454 | the search list becomes a search list for the current query |
| Picker.Model.ToggleCode | picker.go:244-248 | `c` toggles the code view unless the input has the focus |
| Picker.Model.ToggleSearch | picker.go:249-260 | `s`, unless the input has the focus, resets the selection, toggles the search, focuses the input exactly when the search is shown, and ends the update |
| Picker.Model.Escape | picker.go:261-266 | `esc` only blurs a focused input, and otherwise quits |
| Picker.Model.MoveKey | picker.go:234-241 | the arrows change the tab or the selection as the two helpers do |
| Picker.KeyStep | picker.go:232-267 | what each key does to the navigation state: the arrows move the tab or the selection, `c` and `s` toggle their views unless the input has the focus, `esc` blurs; the offset, the code and the query are kept, and only the arrows change the tab |
| Picker.ClickStep | picker.go:196-223 | what a left release does: the focus follows the search box, the tab arrows change the tab, the back button closes the code view, a visible row becomes the selection; the offset, code, query and search mode are kept |
| Picker.MouseStep | picker.go:186-223 | the wheel over the list moves the selection, a left release is a click, anything else changes nothing; the offset, code, query and search mode are kept |
| Picker.MsgStep | picker.go:186-310 | a key or mouse message steps as above; a window size or other message leaves the navigation state alone |
| Picker.Model.CommandKey | picker.go:242-266 | the new state is the key's step; the returning keys are exactly enter, `q`, `ctrl+c`, and `esc` or `s` without focus; enter runs the selection or panics on an empty list, and no other key records a recipe; quits exactly on enter over a non-empty list, `q`, `ctrl+c`, or `esc` without focus |
| Picker.Model.KeyAction | picker.go:233-267 | the key switch: the new state is the key's step; only enter panics, exactly on an empty list; it quits exactly as `CommandKey` says; only enter records a recipe; up and down move the selection and change nothing else |
| Picker.Model.KeyPress | picker.go:232-268 | the key branch: apart from the offset and the code, the new state is the key's step; panic, quit and the recorded recipe as in the switch; the scroll and fetch follow exactly when the switch did not return; up and down keep the selection visible |
| Picker.Model.ClickRows | picker.go:213-221 | a click on the selected visible row runs it; a click on another visible row selects it; otherwise nothing changes |
| Picker.Model.Click | picker.go:196-223 | the new state is the click's step; it returns exactly on a release over the selected visible row, which quits and records that row; nothing else records a recipe |
| Picker.Model.MouseAction | picker.go:186-223 | the new state is the mouse step; never panics; returns and quits exactly when the selected visible row is clicked, recording that row; nothing else records a recipe; a wheel move keeps a visible selection visible once scrolled |
| Picker.Model.Mouse | picker.go:186-231 | the mouse branch: apart from the offset and the code, the new state is the mouse step; quits and records exactly as the switch does; the scroll and fetch follow exactly when no row was run; the wheel keeps a visible selection visible |
| Picker.Model.Resize | picker.go:269-310 | records the size; too small exactly when the list height is at most 3 or the width under 80; dual view exactly when the width is at least 160; the first message creates the viewports |
| Picker.Model.SyncSearch | picker.go:311-319 | while searching, a changed input value becomes the query, resets the selection and rebuilds the search list |
| Picker.Model.KeyBranch | picker.go:232-268 | the key branch stated in the terms of a whole message, as `Handle` states it |
| Picker.Model.MouseBranch | picker.go:186-231 | the mouse branch stated in the terms of a whole message, as `Handle` states it |
| Picker.Model.SizeBranch | picker.go:269-310 | the window-size branch stated in the terms of a whole message, as `Handle` states it |
| Picker.Model.Handle | picker.go:185-310 | apart from the offset and the code, the state after the message's branch is its step; it returns exactly as that step says; panics exactly on enter over an empty list; quits exactly on enter over a non-empty list, `q`, `ctrl+c`, `esc` without focus, or a click on the selected visible row; only enter or a click records a recipe, the selected row; a window size sets the size fields as `Resize` does and no other message changes them; after a key or mouse branch that did not return, the offset is scrolled and the code fetched for the new selection; the first window size clears them; otherwise they are kept; up, down and the wheel keep a visible selection visible |
| Picker.Model.Update | picker.go:179-322 | keeps the invariants; panics and quits exactly as `Handle` says; only enter or a click records a recipe, the selected row; the size fields as `Handle` says; the tab and modes are those of the message's step; the query follows the input exactly when searching and the branch did not return, and a new query resets the selection, otherwise the selection is the step's; the offset and code as `Handle` says, for the step's selection in the list before the search input's turn; the search list is kept whenever the query is; up, down and the wheel keep a visible selection visible when the query did not change |

## Left out

- Rendering, which is not part of this model: `View`, `headerView`,
  `footerView`, `codeHeaderView`, `divider`, `renderTextBlockCustom` and all
  lipgloss styles. Their heights reach `Resize` as inputs.
- Mouse hit-testing through bubblezone is library code. A mouse event
  arrives with its target already resolved to one zone, and an `inList`
  flag for the list's zone.
- A row target's index is below the active list's length, as rows are drawn
  from that list. `Update`, `Handle`, `MouseBranch`, `Mouse`, `MouseAction`
  and `Click` require this.
- Forwarding mouse events to the code viewport, and the textinput and
  viewport widgets themselves, are library code. The model keeps a focus
  flag, the query, the list's offset and height, and the code text as plain
  fields. The viewport's own clamping of its offset is not modelled.
- File I/O is left out: `filepath.Glob`, `os.Open` and `bufio.Scanner`.
  Each file arrives as its base name and its lines. An unreadable file has
  no lines. The scanner's 64 KiB line limit and its stripping of `\r` are
  not modelled.
- Running `ujust -n` and the runner in `main` are process calls. The fetch
  is the parameter `show`, which gives the text to display or the error
  text.
- `FetchRecipeCode`: the wrapping of fetched text by `wordwrap.String` is
  library code. `show` gives the text as it is displayed.
- The fuzzy scoring of `fuzzy.RankMatchFold` is library code and is the
  parameter `rank`.
- `TitleWord`: Unicode title casing by `cases.Title` is library code. The
  model cases ASCII letters only. Like `cases.Title`, it keeps the
  characters before a part's first letter and upper-cases that letter, so
  `4k` becomes `4K`. A non-ASCII letter is kept as it is and does not count
  as the first letter. A whole dash-separated part is one word; the word
  breaks `cases.Title` finds inside a part, such as a space or a point, are
  not modelled.
- An empty catalog is outside the model. The source indexes its empty
  category list as soon as it looks up the current tab.
  `Picker.Model.constructor` requires at least one category.
- The package variable `runRecipe` is a field of the model.
- `Catalog.LoadCatalog` appends each file's recipes to the map and the flat
  list once per file, not once per recipe. The resulting lists are the same.
- The sort order among equal keys is not modelled. The sorts are specified
  only as sorted permutations, since the library sorts are unstable.
- Version printing and the bubbletea program loop in `main` are process
  plumbing.
