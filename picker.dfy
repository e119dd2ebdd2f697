/** The picker's state and its message handling (`model`, `Update` and the
    helpers it calls in picker.go). Rendering is not modelled; the
    mouse hit-testing, the text input's value, the terminal's header and
    footer heights and the output of `ujust -n` arrive as inputs. */
module Picker {
  import opened Text
  import opened Catalog
  import opened Search
  import Navigation

  /** The picker's fixed width (`tuiWidth`, the model's `width`). */
  const Width := 80

  /** The keys the picker reacts to, as `msg.String()` names them:
      left, right, up, down, enter, c, s, esc, q, ctrl+c; anything else. */
  datatype Key = LeftKey | RightKey | UpKey | DownKey | EnterKey
               | CodeKey | SearchKey | EscKey | QuitKey | CtrlCKey | OtherKey

  datatype Button = WheelUp | WheelDown | LeftButton | OtherButton

  datatype Action = Press | Release | Motion

  /** The zone a mouse event falls in: the search box, a tab arrow, the
      back button, the row of the recipe with index `index`, or none. */
  datatype Target = SearchBox | LeftTab | RightTab | BackButton | Row(index: int) | Elsewhere

  /** `inList` tells whether the event lies in the recipe list's viewport. */
  datatype MouseEvent = MouseEvent(button: Button, action: Action, inList: bool, target: Target)

  /** A window-size message carries the heights the header, the footer and
      the code header have in the current view. */
  datatype Msg = KeyMsg(key: Key)
               | MouseMsg(event: MouseEvent)
               | SizeMsg(width: int, height: int, headerHeight: int, footerHeight: int, codeHeaderHeight: int)
               | OtherMsg

  /** The outcome of `ujust -n <name>`: the text to show, or the error. */
  datatype Fetch = Shown(text: string) | Failed(error: string)

  /** What `Update` hands back to the program loop: nothing, quit, or the
      runtime panic of indexing an empty list. */
  datatype Cmd = NoCmd | Quit | Crash

  /** The navigation part of the state, for stating what a step leaves alone. */
  datatype Snapshot = Snapshot(tab: int, selected: int, showCode: bool, showSearch: bool,
                               focused: bool, query: string, offset: int, code: string)

  /** The size part of the state, which only a window-size message changes. */
  datatype Sizes = Sizes(height: int, actualWidth: int, tooSmall: bool, dualView: bool, ready: bool,
                         listHeight: int, listWidth: int, codeHeight: int)

  function FetchText(f: Fetch): string {
    match f
    case Shown(text) => text
    case Failed(error) => error
  }

  /** The arrow keys. */
  predicate IsMoveKey(k: Key) {
    k == LeftKey || k == RightKey || k == UpKey || k == DownKey
  }

  /** What the key switch does to the navigation state, before the scroll
      correction and the fetch: `tabs` is the number of categories and
      `count` the length of the active list. */
  function KeyStep(k: Key, s: Snapshot, tabs: int, count: int): (r: Snapshot)
    ensures r.offset == s.offset && r.code == s.code && r.query == s.query
    ensures !IsMoveKey(k) ==> r.tab == s.tab
  {
    match k
    case LeftKey =>
      var t := Navigation.TabAfter(s.tab, tabs, Navigation.Left);
      s.(tab := t, selected := if t != s.tab then 0 else s.selected)
    case RightKey =>
      var t := Navigation.TabAfter(s.tab, tabs, Navigation.Right);
      s.(tab := t, selected := if t != s.tab then 0 else s.selected)
    case UpKey => s.(selected := Navigation.SelectionAfter(s.selected, count, Navigation.Up))
    case DownKey => s.(selected := Navigation.SelectionAfter(s.selected, count, Navigation.Down))
    case CodeKey => if s.focused then s else s.(showCode := !s.showCode)
    case SearchKey => if s.focused then s else s.(selected := 0, showSearch := !s.showSearch, focused := !s.showSearch)
    case EscKey => s.(focused := false)
    case EnterKey => s
    case QuitKey => s
    case CtrlCKey => s
    case OtherKey => s
  }

  /** Whether the key switch returns at once, skipping the scroll
      correction, the fetch and the search input's turn. */
  predicate KeyReturns(k: Key, focused: bool) {
    k == EnterKey || k == QuitKey || k == CtrlCKey || (!focused && (k == EscKey || k == SearchKey))
  }

  /** What a release of the left button does to the navigation state: the
      focus moves to the search box or away from it, the tab arrows change
      the tab, the back button closes the code view and a visible row
      becomes the selection. `height` is the list viewport's height. */
  function ClickStep(target: Target, s: Snapshot, tabs: int, height: int): (r: Snapshot)
    ensures r.offset == s.offset && r.code == s.code && r.query == s.query && r.showSearch == s.showSearch
    ensures r.focused == (target == SearchBox)
  {
    var f := s.(focused := target == SearchBox);
    match target
    case LeftTab =>
      var t := Navigation.TabAfter(s.tab, tabs, Navigation.Left);
      f.(tab := t, selected := if t != s.tab then 0 else s.selected)
    case RightTab =>
      var t := Navigation.TabAfter(s.tab, tabs, Navigation.Right);
      f.(tab := t, selected := if t != s.tab then 0 else s.selected)
    case BackButton => f.(showCode := false)
    case Row(i) => if s.offset <= i < s.offset + height then f.(selected := i) else f
    case SearchBox => f
    case Elsewhere => f
  }

  /** What the mouse switch does to the navigation state: the wheel over
      the list moves the selection, a release of the left button is a
      click, and nothing else changes anything. `count` is the length of
      the active list. */
  function MouseStep(ev: MouseEvent, s: Snapshot, tabs: int, count: int, height: int): (r: Snapshot)
    ensures r.offset == s.offset && r.code == s.code && r.query == s.query && r.showSearch == s.showSearch
  {
    match ev.button
    case WheelUp => if ev.inList then s.(selected := Navigation.SelectionAfter(s.selected, count, Navigation.Up)) else s
    case WheelDown => if ev.inList then s.(selected := Navigation.SelectionAfter(s.selected, count, Navigation.Down)) else s
    case OtherButton => s
    case LeftButton => if ev.action == Release then ClickStep(ev.target, s, tabs, height) else s
  }

  /** Whether a mouse event runs a recipe: a left release on the selected
      row while it is visible. */
  predicate MouseRuns(ev: MouseEvent, s: Snapshot, height: int) {
    ev.button == LeftButton && ev.action == Release && ev.target.Row?
    && s.offset <= ev.target.index < s.offset + height && ev.target.index == s.selected
  }

  /** What a message's own branch does to the navigation state before the
      search input's turn: keys and mouse events as above, and a window
      size or any other message leaves it alone. */
  function MsgStep(msg: Msg, s: Snapshot, tabs: int, count: int, height: int): (r: Snapshot)
    ensures r.offset == s.offset && r.code == s.code && r.query == s.query
    ensures !(msg.KeyMsg? || msg.MouseMsg?) ==> r == s
  {
    match msg
    case KeyMsg(k) => KeyStep(k, s, tabs, count)
    case MouseMsg(ev) => MouseStep(ev, s, tabs, count, height)
    case SizeMsg(_, _, _, _, _) => s
    case OtherMsg => s
  }

  /** Whether a message's branch returns before the search input's turn. */
  predicate MsgReturns(msg: Msg, s: Snapshot, height: int) {
    match msg
    case KeyMsg(k) => KeyReturns(k, s.focused)
    case MouseMsg(ev) => MouseRuns(ev, s, height)
    case SizeMsg(_, _, _, _, _) => false
    case OtherMsg => false
  }

  /** The recipe to run after a step: row `selected` of `list` when the step
      `chooses` one (and the row exists), otherwise the `previous` choice. */
  function Recorded(chooses: bool, list: seq<Recipe>, selected: int, previous: string): string {
    if chooses && 0 <= selected < |list| then list[selected].name else previous
  }

  /** The size fields after a message: a window size of `height` rows and
      `width` columns sets them, with the list `headerHeight + footerHeight`
      rows and the code `codeHeaderHeight` rows shorter than the window;
      any other message keeps `s`. */
  function SizesAfter(msg: Msg, s: Sizes): Sizes {
    match msg
    case SizeMsg(width, height, headerHeight, footerHeight, codeHeaderHeight) =>
      var list := height - headerHeight - footerHeight;
      Sizes(height, width, list <= 3 || width < Width, width >= 2 * Width, true,
            list, width, height - codeHeaderHeight)
    case _ => s
  }

  /** Whether a message quits the program: enter over a non-empty list,
      `q`, `ctrl+c`, or `esc` without the focus, and a click on the selected
      visible row. `count` is the length of the active list. */
  predicate MsgQuits(msg: Msg, s: Snapshot, count: int, height: int) {
    match msg
    case KeyMsg(k) => (k == EnterKey && count > 0) || k == QuitKey || k == CtrlCKey || (k == EscKey && !s.focused)
    case MouseMsg(ev) => MouseRuns(ev, s, height)
    case SizeMsg(_, _, _, _, _) => false
    case OtherMsg => false
  }

  /** The messages that move the selection by one row: up, down and the wheel. */
  predicate MovesSelection(msg: Msg) {
    msg == KeyMsg(UpKey) || msg == KeyMsg(DownKey)
    || (msg.MouseMsg? && (msg.event.button == WheelUp || msg.event.button == WheelDown))
  }

  class Model {
    const categories: seq<string>
    const recipesByCat: map<string, seq<Recipe>>
    const allRecipes: seq<Recipe>
    /** The fuzzy matcher: the rank of a name for a query, -1 for no match. */
    const rank: (string, string) -> int

    var currentTab: int
    var selectedRecipe: int
    var showCode: bool
    var dualView: bool
    var ready: bool
    /** The recipe list's viewport: first visible row, height and width. */
    var yOffset: int
    var listHeight: int
    var listWidth: int
    /** The code viewport: its height and the text it shows. */
    var codeHeight: int
    var code: string
    var height: int
    var actualWidth: int
    var tooSmall: bool
    var showSearch: bool
    /** Whether the search input has the focus. */
    var focused: bool
    var searchQuery: string
    var filteredRecipe: seq<Recipe>
    /** The recipe chosen to run when the program ends. */
    var runRecipe: string

    /** `initialModel`'s result for a loaded catalog. A catalog without
        categories is outside the model: the source then indexes an empty
        category list as soon as it looks up the current tab. */
    constructor (c: Catalog, rank: (string, string) -> int)
      requires |c.categories| > 0
      ensures categories == c.categories && recipesByCat == c.recipesByCat && allRecipes == c.allRecipes
      ensures this.rank == rank
      ensures State() == Snapshot(0, 0, false, false, false, "", 0, "")
      ensures !ready && height == 0 && actualWidth == 0 && !tooSmall && !dualView
      ensures filteredRecipe == [] && runRecipe == ""
      ensures Valid() && SearchListOk()
    {
      categories, recipesByCat, allRecipes := c.categories, c.recipesByCat, c.allRecipes;
      this.rank := rank;
      currentTab, selectedRecipe := 0, 0;
      showCode, dualView, ready := false, false, false;
      yOffset, listHeight, listWidth, codeHeight, code := 0, 0, 0, 0, "";
      height, actualWidth, tooSmall := 0, 0, false;
      showSearch, focused, searchQuery := false, false, "";
      filteredRecipe, runRecipe := [], "";
    }

    function State(): Snapshot
      reads this`currentTab, this`selectedRecipe, this`showCode, this`showSearch, this`focused,
            this`searchQuery, this`yOffset, this`code
    {
      Snapshot(currentTab, selectedRecipe, showCode, showSearch, focused, searchQuery, yOffset, code)
    }

    function Size(): Sizes
      reads this`height, this`actualWidth, this`tooSmall, this`dualView, this`ready,
            this`listHeight, this`listWidth, this`codeHeight
    {
      Sizes(height, actualWidth, tooSmall, dualView, ready, listHeight, listWidth, codeHeight)
    }

    /** The state every handler keeps: the tab exists, the selection is the
        first row or a row of the active list, and the offset is not
        negative. */
    ghost predicate Valid()
      reads this`currentTab, this`selectedRecipe, this`yOffset, this`showSearch, this`searchQuery,
            this`filteredRecipe
    {
      0 <= currentTab < |categories|
      && 0 <= selectedRecipe && (selectedRecipe == 0 || selectedRecipe < |CurrentRecipes()|)
      && 0 <= yOffset
    }

    /** The search list of a non-empty query is the ranked filter of all
        recipes for it. */
    ghost predicate SearchListOk()
      reads this`searchQuery, this`filteredRecipe
    {
      searchQuery != "" ==> IsRankedFilter(filteredRecipe, allRecipes, searchQuery, rank)
    }

    /** The active list: all recipes while searching with an empty query,
        the search list while searching with a query, and otherwise the
        current tab's recipes. */
    function CurrentRecipes(): seq<Recipe>
      reads this`currentTab, this`showSearch, this`searchQuery, this`filteredRecipe
      requires 0 <= currentTab < |categories|
    {
      ListFor(searchQuery, filteredRecipe)
    }

    /** The active list for the query `query` and the search list `filtered`. */
    function ListFor(query: string, filtered: seq<Recipe>): seq<Recipe>
      reads this`currentTab, this`showSearch
      requires 0 <= currentTab < |categories|
    {
      if showSearch then
        if query == "" then allRecipes else filtered
      else
        Lookup(recipesByCat, categories[currentTab])
    }

    /** The list viewport shows the selected row. */
    ghost predicate Visible()
      reads this`currentTab, this`selectedRecipe, this`yOffset, this`listHeight, this`showSearch,
            this`searchQuery, this`filteredRecipe
      requires 0 <= currentTab < |categories|
    {
      Navigation.WindowOk(yOffset, selectedRecipe, listHeight, |CurrentRecipes()|)
    }

    /** The list viewport shows the selected row once it has scrolled. */
    ghost predicate ScrolledVisible()
      reads this`currentTab, this`selectedRecipe, this`yOffset, this`listHeight, this`showSearch,
            this`searchQuery, this`filteredRecipe
      requires 0 <= currentTab < |categories|
    {
      var count := |CurrentRecipes()|;
      Navigation.WindowOk(Navigation.ScrollStep(yOffset, selectedRecipe, listHeight, count), selectedRecipe,
                          listHeight, count)
    }

    /** What the active list is, in terms of the catalog and the query. */
    lemma CurrentRecipesAre(x: Recipe)
      requires Valid() && SearchListOk()
      ensures showSearch && searchQuery == "" ==> CurrentRecipes() == allRecipes
      ensures showSearch && searchQuery != "" ==>
                SortedBySimilarity(CurrentRecipes())
                && (x in CurrentRecipes()
                    <==> exists i :: 0 <= i < |allRecipes| && rank(searchQuery, allRecipes[i].name) > -1
                                     && x == allRecipes[i].(similarity := rank(searchQuery, allRecipes[i].name)))
      ensures !showSearch ==> CurrentRecipes() == Lookup(recipesByCat, categories[currentTab])
    {
      if showSearch && searchQuery != "" {
        RankedFilterMembers(filteredRecipe, allRecipes, searchQuery, rank, x);
      }
    }

    /** The code the picker shows after fetching: the fetched text of the
        selected recipe when the code view is on and the selection is a row
        of the active list, otherwise `previous`. */
    function CodeShown(previous: string, show: string -> Fetch): string
      reads this`currentTab, this`selectedRecipe, this`showCode, this`showSearch, this`searchQuery,
            this`filteredRecipe
      requires 0 <= currentTab < |categories| && 0 <= selectedRecipe
    {
      ShownFrom(previous, CurrentRecipes(), selectedRecipe, show)
    }

    /** The code shown after fetching for row `selected` of `list`. */
    function ShownFrom(previous: string, list: seq<Recipe>, selected: int, show: string -> Fetch): string
      reads this`showCode
    {
      if showCode && 0 <= selected < |list| then FetchText(show(list[selected].name)) else previous
    }

    // -------------------------------------------------------------------
    // The helpers Update calls

    method ChangeTab(dir: Navigation.Direction)
      requires Valid()
      modifies this`currentTab, this`selectedRecipe
      ensures Valid()
      ensures currentTab == Navigation.TabAfter(old(currentTab), |categories|, dir)
      ensures selectedRecipe == if currentTab != old(currentTab) then 0 else old(selectedRecipe)
    {
      match dir
      case Left =>
        if currentTab > 0 {
          currentTab := currentTab - 1;
          selectedRecipe := 0;
        }
      case Right =>
        if currentTab < |categories| - 1 {
          currentTab := currentTab + 1;
          selectedRecipe := 0;
        }
    }

    method ChangeRecipeScroll(dir: Navigation.Vertical)
      requires Valid()
      modifies this`selectedRecipe
      ensures Valid()
      ensures selectedRecipe == Navigation.SelectionAfter(old(selectedRecipe), |CurrentRecipes()|, dir)
      // the scroll that follows keeps the selection visible
      ensures old(Visible()) ==> ScrolledVisible()
    {
      Navigation.MoveKeepsWindow(yOffset, selectedRecipe, listHeight, |CurrentRecipes()|, dir);
      match dir
      case Up =>
        if selectedRecipe > 0 {
          selectedRecipe := selectedRecipe - 1;
        }
      case Down =>
        if selectedRecipe < |CurrentRecipes()| - 1 {
          selectedRecipe := selectedRecipe + 1;
        }
    }

    method RunRecipe() returns (cmd: Cmd)
      requires 0 <= currentTab < |categories|
      modifies this`runRecipe
      ensures 0 <= selectedRecipe < |CurrentRecipes()| ==> cmd == Quit && runRecipe == CurrentRecipes()[selectedRecipe].name
      ensures !(0 <= selectedRecipe < |CurrentRecipes()|) ==> cmd == Crash && runRecipe == old(runRecipe)
    {
      var list := CurrentRecipes();
      if 0 <= selectedRecipe < |list| {
        runRecipe := list[selectedRecipe].name;
        cmd := Quit;
      } else {
        cmd := Crash;
      }
    }

    method ScrollViewport()
      requires 0 <= currentTab < |categories|
      modifies this`yOffset
      ensures yOffset == Navigation.ScrollStep(old(yOffset), selectedRecipe, listHeight, |CurrentRecipes()|)
    {
      if listHeight < |CurrentRecipes()| {
        var visibleIndexStart := yOffset;
        var visibleIndexStop := visibleIndexStart + listHeight - 1;
        if selectedRecipe < visibleIndexStart {
          yOffset := yOffset - 1;
        }
        if selectedRecipe > visibleIndexStop {
          yOffset := yOffset + 1;
        }
      }
    }

    method FetchRecipeCode(show: string -> Fetch)
      requires 0 <= currentTab < |categories| && 0 <= selectedRecipe
      modifies this`code
      ensures code == CodeShown(old(code), show)
    {
      if !showCode {
        return;
      }
      var list := CurrentRecipes();
      if |list| <= selectedRecipe {
        return;
      }
      var selected := list[selectedRecipe];
      match show(selected.name)
      case Failed(error) => code := error;
      case Shown(text) => code := text;
    }

    method UpdateModel(show: string -> Fetch)
      requires Valid()
      modifies this`yOffset, this`code
      ensures Valid()
      ensures yOffset == Navigation.ScrollStep(old(yOffset), selectedRecipe, listHeight, |CurrentRecipes()|)
      ensures code == CodeShown(old(code), show)
    {
      ScrollViewport();
      FetchRecipeCode(show);
    }

    method UpdateFilteredRecipe()
      modifies this`filteredRecipe
      ensures IsRankedFilter(filteredRecipe, allRecipes, searchQuery, rank)
    {
      filteredRecipe := FilterRecipes(allRecipes, searchQuery, rank);
    }

    /** `c`: the code view is toggled unless the search input has the focus. */
    method ToggleCode()
      modifies this`showCode
      ensures showCode == (old(showCode) != !focused)
    {
      if !focused {
        showCode := !showCode;
      }
    }

    /** `s`: unless the search input has the focus, the search view is
        toggled, the selection reset and the input focused exactly when the
        view is now shown; the update then ends. */
    method ToggleSearch() returns (done: bool)
      requires Valid()
      modifies this`selectedRecipe, this`showSearch, this`focused
      ensures Valid()
      ensures done == !old(focused)
      ensures done ==> selectedRecipe == 0 && showSearch == !old(showSearch) && focused == showSearch
      ensures !done ==> selectedRecipe == old(selectedRecipe) && showSearch == old(showSearch) && focused
    {
      done := false;
      if !focused {
        selectedRecipe := 0;
        showSearch := !showSearch;
        focused := showSearch;
        done := true;
      }
    }

    /** `esc`: blurs the focused search input, and quits otherwise. */
    method Escape() returns (cmd: Cmd, done: bool)
      modifies this`focused
      ensures old(focused) ==> cmd == NoCmd && !done && !focused
      ensures !old(focused) ==> cmd == Quit && done && !focused
    {
      cmd, done := NoCmd, false;
      if focused {
        focused := false;
      } else {
        cmd, done := Quit, true;
      }
    }

    // -------------------------------------------------------------------
    // The branches of Update

    /** The switch on the key name, without the scroll and fetch that
        follow it. `done` means Update returns at once, without the search
        input's turn. */
    method KeyAction(k: Key) returns (cmd: Cmd, done: bool)
      requires Valid()
      modifies this`currentTab, this`selectedRecipe, this`showCode, this`showSearch, this`focused,
               this`runRecipe
      ensures Valid()
      ensures State() == KeyStep(k, old(State()), |categories|, |old(CurrentRecipes())|)
      ensures done == KeyReturns(k, old(focused))
      ensures !done ==> cmd == NoCmd
      ensures cmd == Crash <==> k == EnterKey && old(CurrentRecipes()) == []
      ensures k == EnterKey && cmd == Quit ==> runRecipe == old(CurrentRecipes())[old(selectedRecipe)].name
      ensures k != EnterKey || cmd != Quit ==> runRecipe == old(runRecipe)
      ensures cmd == Quit <==> (k == EnterKey && old(CurrentRecipes()) != []) || k == QuitKey || k == CtrlCKey
                               || (k == EscKey && !old(focused))
      ensures k == UpKey || k == DownKey
              ==> !done
                  && selectedRecipe == Navigation.SelectionAfter(old(selectedRecipe), |old(CurrentRecipes())|,
                                                                 if k == UpKey then Navigation.Up else Navigation.Down)
                  && State() == old(State()).(selected := selectedRecipe)
      ensures (k == UpKey || k == DownKey) && old(Visible()) ==> ScrolledVisible()
    {
      if IsMoveKey(k) {
        MoveKey(k);
        cmd, done := NoCmd, false;
      } else {
        cmd, done := CommandKey(k);
      }
    }

    /** The arrow keys: left and right change the tab, up and down the
        selection. */
    method MoveKey(k: Key)
      requires Valid()
      requires IsMoveKey(k)
      modifies this`currentTab, this`selectedRecipe
      ensures Valid()
      ensures State() == KeyStep(k, old(State()), |categories|, |old(CurrentRecipes())|)
      ensures k == LeftKey || k == RightKey
              ==> currentTab == Navigation.TabAfter(old(currentTab), |categories|,
                                                    if k == LeftKey then Navigation.Left else Navigation.Right)
                  && selectedRecipe == (if currentTab != old(currentTab) then 0 else old(selectedRecipe))
      ensures k == UpKey || k == DownKey
              ==> currentTab == old(currentTab)
                  && selectedRecipe == Navigation.SelectionAfter(old(selectedRecipe), |old(CurrentRecipes())|,
                                                                 if k == UpKey then Navigation.Up else Navigation.Down)
      ensures (k == UpKey || k == DownKey) && old(Visible()) ==> ScrolledVisible()
    {
      match k {
      case LeftKey => ChangeTab(Navigation.Left);
      case RightKey => ChangeTab(Navigation.Right);
      case UpKey => ChangeRecipeScroll(Navigation.Up);
      case DownKey => ChangeRecipeScroll(Navigation.Down);
      }
    }

    /** The other keys: enter runs the selection, c and s toggle the code
        and search views, esc, q and ctrl+c quit. */
    method CommandKey(k: Key) returns (cmd: Cmd, done: bool)
      requires Valid()
      requires !IsMoveKey(k)
      modifies this`selectedRecipe, this`showCode, this`showSearch, this`focused, this`runRecipe
      ensures Valid()
      ensures State() == KeyStep(k, old(State()), |categories|, |old(CurrentRecipes())|)
      ensures done == KeyReturns(k, old(focused))
      ensures !done ==> cmd == NoCmd
      // only enter chooses a recipe: it runs the selection or indexes an empty list
      ensures cmd == Crash <==> k == EnterKey && old(CurrentRecipes()) == []
      ensures k == EnterKey && cmd == Quit ==> runRecipe == old(CurrentRecipes())[old(selectedRecipe)].name
      ensures k != EnterKey || cmd != Quit ==> runRecipe == old(runRecipe)
      // esc, q and ctrl+c quit, unless esc only blurs the focused input
      ensures cmd == Quit <==> (k == EnterKey && old(CurrentRecipes()) != []) || k == QuitKey || k == CtrlCKey
                               || (k == EscKey && !old(focused))
    {
      cmd, done := NoCmd, false;
      match k {
      case EnterKey =>
        cmd := RunRecipe();
        done := true;
      case CodeKey => ToggleCode();
      case SearchKey => done := ToggleSearch();
      case EscKey => cmd, done := Escape();
      case QuitKey => cmd, done := Quit, true;
      case CtrlCKey => cmd, done := Quit, true;
      case OtherKey =>
      }
    }

    /** The keyboard branch: the switch, then, unless it returned, the
        scroll correction and the code fetch. */
    method KeyPress(k: Key, show: string -> Fetch) returns (cmd: Cmd, done: bool)
      requires Valid()
      modifies this`currentTab, this`selectedRecipe, this`showCode, this`showSearch, this`focused,
               this`yOffset, this`code, this`runRecipe
      ensures Valid()
      ensures State().(offset := old(yOffset), code := old(code))
              == KeyStep(k, old(State()), |categories|, |old(CurrentRecipes())|)
      ensures done == KeyReturns(k, old(focused))
      ensures cmd == Crash <==> k == EnterKey && old(CurrentRecipes()) == []
      ensures k == EnterKey && cmd == Quit ==> runRecipe == old(CurrentRecipes())[old(selectedRecipe)].name
      ensures k != EnterKey || cmd != Quit ==> runRecipe == old(runRecipe)
      ensures cmd == Quit <==> (k == EnterKey && old(CurrentRecipes()) != []) || k == QuitKey || k == CtrlCKey
                               || (k == EscKey && !old(focused))
      ensures done ==> yOffset == old(yOffset) && code == old(code)
      ensures !done ==> cmd == NoCmd
      ensures !done ==> yOffset == Navigation.ScrollStep(old(yOffset), selectedRecipe, listHeight, |CurrentRecipes()|)
                        && code == CodeShown(old(code), show)
      // a move up or down keeps the selection visible
      ensures (k == UpKey || k == DownKey) && old(Visible()) ==> Visible()
    {
      cmd, done := KeyAction(k);
      if !done {
        UpdateModel(show);
      }
    }

    /** The switch on the mouse event, without the scroll and fetch that
        follow it. A row target with an index past the active list cannot
        occur: rows are hit-tested against the list last drawn. */
    method MouseAction(ev: MouseEvent) returns (cmd: Cmd, done: bool)
      requires Valid()
      requires ev.target.Row? ==> ev.target.index < |CurrentRecipes()|
      modifies this`currentTab, this`selectedRecipe, this`showCode, this`focused, this`runRecipe
      ensures Valid()
      ensures State() == MouseStep(ev, old(State()), |categories|, |old(CurrentRecipes())|, listHeight)
      ensures cmd != Crash && (cmd == Quit <==> done)
      ensures done == MouseRuns(ev, old(State()), listHeight)
      ensures cmd == Quit ==> runRecipe == old(CurrentRecipes())[old(selectedRecipe)].name
      ensures cmd != Quit ==> runRecipe == old(runRecipe)
      // the scroll that follows a wheel event keeps the selection visible
      ensures (ev.button == WheelUp || ev.button == WheelDown) && old(Visible()) ==> ScrolledVisible()
    {
      cmd, done := NoCmd, false;
      match ev.button {
      case WheelUp =>
        if ev.inList {
          ChangeRecipeScroll(Navigation.Up);
        }
      case WheelDown =>
        if ev.inList {
          ChangeRecipeScroll(Navigation.Down);
        }
      case LeftButton =>
        if ev.action == Release {
          cmd, done := Click(ev.target);
        }
      case OtherButton =>
      }
    }

    /** A release of the left button: the focus follows the search box,
        then the target acts. */
    method Click(target: Target) returns (cmd: Cmd, done: bool)
      requires Valid()
      requires target.Row? ==> target.index < |CurrentRecipes()|
      modifies this`currentTab, this`selectedRecipe, this`showCode, this`focused, this`runRecipe
      ensures Valid()
      ensures State() == ClickStep(target, old(State()), |categories|, listHeight)
      ensures cmd != Crash && (cmd == Quit <==> done)
      ensures done <==> target.Row? && yOffset <= target.index < yOffset + listHeight
                        && target.index == old(selectedRecipe)
      ensures cmd == Quit ==> runRecipe == old(CurrentRecipes())[old(selectedRecipe)].name
      ensures cmd != Quit ==> runRecipe == old(runRecipe)
    {
      cmd, done := NoCmd, false;
      focused := target == SearchBox;
      match target {
      case LeftTab => ChangeTab(Navigation.Left);
      case RightTab => ChangeTab(Navigation.Right);
      case BackButton => showCode := false;
      case Row(_) =>
        cmd := ClickRows(target);
        done := cmd == Quit;
      case SearchBox =>
      case Elsewhere =>
      }
    }

    /** The mouse branch: the switch, then, unless it returned, the
        scroll correction and the code fetch. */
    method Mouse(ev: MouseEvent, show: string -> Fetch) returns (cmd: Cmd, done: bool)
      requires Valid()
      requires ev.target.Row? ==> ev.target.index < |CurrentRecipes()|
      modifies this`currentTab, this`selectedRecipe, this`showCode, this`focused,
               this`yOffset, this`code, this`runRecipe
      ensures Valid()
      ensures State().(offset := old(yOffset), code := old(code))
              == MouseStep(ev, old(State()), |categories|, |old(CurrentRecipes())|, listHeight)
      ensures cmd != Crash && (cmd == Quit <==> done)
      ensures done == MouseRuns(ev, old(State()), listHeight)
      ensures cmd == Quit ==> 0 <= old(selectedRecipe) < |old(CurrentRecipes())|
                              && runRecipe == old(CurrentRecipes())[old(selectedRecipe)].name
      ensures cmd != Quit ==> runRecipe == old(runRecipe)
      ensures done ==> yOffset == old(yOffset) && code == old(code)
      ensures !done ==> yOffset == Navigation.ScrollStep(old(yOffset), selectedRecipe, listHeight, |CurrentRecipes()|)
                        && code == CodeShown(old(code), show)
      // the wheel keeps the selection visible
      ensures (ev.button == WheelUp || ev.button == WheelDown) && old(Visible()) ==> Visible()
    {
      cmd, done := MouseAction(ev);
      if !done {
        UpdateModel(show);
      }
    }

    /** The loop over the visible rows: a click on the selected row runs
        it, a click on another visible row selects it. */
    method ClickRows(target: Target) returns (cmd: Cmd)
      requires Valid()
      requires target.Row? ==> target.index < |CurrentRecipes()|
      modifies this`selectedRecipe, this`runRecipe
      ensures Valid()
      ensures var clicked := target.Row? && yOffset <= target.index < yOffset + listHeight;
              && (cmd == Quit <==> clicked && target.index == old(selectedRecipe))
              && (cmd == Quit ==> selectedRecipe == old(selectedRecipe) && runRecipe == CurrentRecipes()[selectedRecipe].name)
              && (cmd != Quit ==> cmd == NoCmd && runRecipe == old(runRecipe))
              && (cmd != Quit && clicked ==> selectedRecipe == target.index)
              && (!clicked ==> selectedRecipe == old(selectedRecipe))
    {
      cmd := NoCmd;
      ghost var before := selectedRecipe;
      var i := 0;
      while i < listHeight
        invariant 0 <= i <= if listHeight >= 0 then listHeight else 0
        invariant Valid()
        invariant runRecipe == old(runRecipe)
        invariant target.Row? && yOffset <= target.index < yOffset + i
                  ==> selectedRecipe == target.index && target.index != before
        invariant !(target.Row? && yOffset <= target.index < yOffset + i) ==> selectedRecipe == before
      {
        var actualIndex := yOffset + i;
        if target == Row(actualIndex) {
          if actualIndex == selectedRecipe {
            cmd := RunRecipe();
            return;
          }
          selectedRecipe := actualIndex;
        }
        i := i + 1;
      }
    }

    /** The window-size branch: the size flags and the viewports' sizes; the
        first such message also creates the viewports. */
    method Resize(width: int, h: int, headerHeight: int, footerHeight: int, codeHeaderHeight: int)
      modifies this`height, this`actualWidth, this`tooSmall, this`dualView, this`ready,
               this`yOffset, this`listHeight, this`listWidth, this`codeHeight, this`code
      ensures height == h && actualWidth == width && ready
      ensures tooSmall <==> h - headerHeight - footerHeight <= 3 || width < Width
      ensures dualView <==> width >= 2 * Width
      ensures listHeight == h - headerHeight - footerHeight && listWidth == width
      ensures codeHeight == h - codeHeaderHeight
      ensures old(ready) ==> yOffset == old(yOffset) && code == old(code)
      ensures !old(ready) ==> yOffset == 0 && code == ""
    {
      height := h;
      actualWidth := width;
      var mainViewportHeight := h - (headerHeight + footerHeight);
      var codeViewportHeight := h - codeHeaderHeight;
      if mainViewportHeight <= 3 || width < Width {
        tooSmall := true;
      } else {
        tooSmall := false;
      }
      dualView := actualWidth >= Width * 2;
      if !ready {
        yOffset, listHeight, listWidth := 0, mainViewportHeight, width;
        codeHeight, code := codeViewportHeight, "";
        ready := true;
      } else {
        listWidth := width;
        listHeight := mainViewportHeight;
        codeHeight := codeViewportHeight;
      }
    }

    /** The search input's turn, after every branch that did not return:
        a changed value becomes the query, resets the selection and
        refilters. `typed` is the input's value after the message. */
    method SyncSearch(typed: string)
      requires Valid() && SearchListOk()
      modifies this`searchQuery, this`selectedRecipe, this`filteredRecipe
      ensures Valid() && SearchListOk()
      ensures showSearch && typed != old(searchQuery)
              ==> searchQuery == typed && selectedRecipe == 0
                  && IsRankedFilter(filteredRecipe, allRecipes, typed, rank)
      ensures !(showSearch && typed != old(searchQuery))
              ==> searchQuery == old(searchQuery) && selectedRecipe == old(selectedRecipe)
                  && filteredRecipe == old(filteredRecipe)
      ensures Size() == old(Size()) && runRecipe == old(runRecipe)
      ensures searchQuery == old(searchQuery) ==> Visible() == old(Visible())
    {
      if showSearch {
        if searchQuery != typed {
          searchQuery := typed;
          selectedRecipe := 0;
          UpdateFilteredRecipe();
        }
      }
    }

    /** A message's own branch: the key, mouse or window-size handler. */
    method Handle(msg: Msg, show: string -> Fetch) returns (cmd: Cmd, done: bool)
      requires Valid()
      requires msg.MouseMsg? && msg.event.target.Row? ==> msg.event.target.index < |CurrentRecipes()|
      modifies this`currentTab, this`selectedRecipe, this`showCode, this`showSearch, this`focused,
               this`yOffset, this`code, this`runRecipe,
               this`height, this`actualWidth, this`tooSmall, this`dualView, this`ready,
               this`listHeight, this`listWidth, this`codeHeight
      ensures Valid()
      // apart from the offset and the code, the navigation state is the message's step
      ensures State().(offset := old(yOffset), code := old(code))
              == MsgStep(msg, old(State()), |categories|, |old(CurrentRecipes())|, old(listHeight))
      ensures done == MsgReturns(msg, old(State()), old(listHeight))
      ensures cmd == Crash <==> old(CurrentRecipes()) == [] && msg == KeyMsg(EnterKey)
      ensures cmd == Quit <==> MsgQuits(msg, old(State()), |old(CurrentRecipes())|, old(listHeight))
      // only a quit by enter or a click records a recipe: the selected row, which is in the list
      ensures var list, chooses := old(CurrentRecipes()), cmd == Quit && (msg == KeyMsg(EnterKey) || msg.MouseMsg?);
              (chooses ==> 0 <= old(selectedRecipe) < |list|)
              && runRecipe == Recorded(chooses, list, old(selectedRecipe), old(runRecipe))
      // a window size sets the size fields, and no other message changes them
      ensures Size() == SizesAfter(msg, old(Size()))
      // the offset and the code: scrolled and fetched after a key or mouse branch that did not
      // return, set up by the first window size, and otherwise kept
      ensures (msg.KeyMsg? || msg.MouseMsg?) && !done
              ==> yOffset == Navigation.ScrollStep(old(yOffset), selectedRecipe, listHeight, |CurrentRecipes()|)
                  && code == CodeShown(old(code), show)
      ensures msg.SizeMsg? && !old(ready) ==> yOffset == 0 && code == ""
      ensures done || msg.OtherMsg? || (msg.SizeMsg? && old(ready)) ==> yOffset == old(yOffset) && code == old(code)
      // a move by one row keeps the selection visible
      ensures MovesSelection(msg) && old(Visible()) ==> Visible()
    {
      cmd, done := NoCmd, false;
      match msg {
        case KeyMsg(_) =>
          cmd, done := KeyBranch(msg, show);
        case MouseMsg(_) =>
          cmd, done := MouseBranch(msg, show);
        case SizeMsg(_, _, _, _, _) =>
          cmd, done := SizeBranch(msg, show);
        case OtherMsg =>
      }
    }

    /** `KeyPress`, stated as the branch of a key message. */
    method KeyBranch(msg: Msg, show: string -> Fetch) returns (cmd: Cmd, done: bool)
      requires Valid() && msg.KeyMsg?
      modifies this`currentTab, this`selectedRecipe, this`showCode, this`showSearch, this`focused,
               this`yOffset, this`code, this`runRecipe
      ensures Valid()
      // apart from the offset and the code, the navigation state is the message's step
      ensures State().(offset := old(yOffset), code := old(code))
              == MsgStep(msg, old(State()), |categories|, |old(CurrentRecipes())|, old(listHeight))
      ensures done == MsgReturns(msg, old(State()), old(listHeight))
      ensures cmd == Crash <==> old(CurrentRecipes()) == [] && msg == KeyMsg(EnterKey)
      ensures cmd == Quit <==> MsgQuits(msg, old(State()), |old(CurrentRecipes())|, old(listHeight))
      // only a quit by enter or a click records a recipe: the selected row, which is in the list
      ensures var list, chooses := old(CurrentRecipes()), cmd == Quit && (msg == KeyMsg(EnterKey) || msg.MouseMsg?);
              (chooses ==> 0 <= old(selectedRecipe) < |list|)
              && runRecipe == Recorded(chooses, list, old(selectedRecipe), old(runRecipe))
      // a window size sets the size fields, and no other message changes them
      ensures Size() == SizesAfter(msg, old(Size()))
      // the offset and the code: scrolled and fetched after a key or mouse branch that did not
      // return, set up by the first window size, and otherwise kept
      ensures (msg.KeyMsg? || msg.MouseMsg?) && !done
              ==> yOffset == Navigation.ScrollStep(old(yOffset), selectedRecipe, listHeight, |CurrentRecipes()|)
                  && code == CodeShown(old(code), show)
      ensures msg.SizeMsg? && !old(ready) ==> yOffset == 0 && code == ""
      ensures done || msg.OtherMsg? || (msg.SizeMsg? && old(ready)) ==> yOffset == old(yOffset) && code == old(code)
      // a move by one row keeps the selection visible
      ensures MovesSelection(msg) && old(Visible()) ==> Visible()
    {
      assert MovesSelection(msg) <==> msg.key == UpKey || msg.key == DownKey;
      cmd, done := KeyPress(msg.key, show);
      assert unchanged(this`height, this`actualWidth, this`tooSmall, this`dualView, this`ready,
                       this`listHeight, this`listWidth, this`codeHeight);
    }

    /** `Mouse`, stated as the branch of a mouse message. */
    method MouseBranch(msg: Msg, show: string -> Fetch) returns (cmd: Cmd, done: bool)
      requires Valid() && msg.MouseMsg?
      requires msg.event.target.Row? ==> msg.event.target.index < |CurrentRecipes()|
      modifies this`currentTab, this`selectedRecipe, this`showCode, this`focused,
               this`yOffset, this`code, this`runRecipe
      ensures Valid()
      // apart from the offset and the code, the navigation state is the message's step
      ensures State().(offset := old(yOffset), code := old(code))
              == MsgStep(msg, old(State()), |categories|, |old(CurrentRecipes())|, old(listHeight))
      ensures done == MsgReturns(msg, old(State()), old(listHeight))
      ensures cmd == Crash <==> old(CurrentRecipes()) == [] && msg == KeyMsg(EnterKey)
      ensures cmd == Quit <==> MsgQuits(msg, old(State()), |old(CurrentRecipes())|, old(listHeight))
      // only a quit by enter or a click records a recipe: the selected row, which is in the list
      ensures var list, chooses := old(CurrentRecipes()), cmd == Quit && (msg == KeyMsg(EnterKey) || msg.MouseMsg?);
              (chooses ==> 0 <= old(selectedRecipe) < |list|)
              && runRecipe == Recorded(chooses, list, old(selectedRecipe), old(runRecipe))
      // a window size sets the size fields, and no other message changes them
      ensures Size() == SizesAfter(msg, old(Size()))
      // the offset and the code: scrolled and fetched after a key or mouse branch that did not
      // return, set up by the first window size, and otherwise kept
      ensures (msg.KeyMsg? || msg.MouseMsg?) && !done
              ==> yOffset == Navigation.ScrollStep(old(yOffset), selectedRecipe, listHeight, |CurrentRecipes()|)
                  && code == CodeShown(old(code), show)
      ensures msg.SizeMsg? && !old(ready) ==> yOffset == 0 && code == ""
      ensures done || msg.OtherMsg? || (msg.SizeMsg? && old(ready)) ==> yOffset == old(yOffset) && code == old(code)
      // a move by one row keeps the selection visible
      ensures MovesSelection(msg) && old(Visible()) ==> Visible()
    {
      cmd, done := Mouse(msg.event, show);
      assert unchanged(this`height, this`actualWidth, this`tooSmall, this`dualView, this`ready,
                       this`listHeight, this`listWidth, this`codeHeight);
    }

    /** `Resize`, stated as the branch of a window-size message. */
    method SizeBranch(msg: Msg, show: string -> Fetch) returns (cmd: Cmd, done: bool)
      requires Valid() && msg.SizeMsg?
      modifies this`height, this`actualWidth, this`tooSmall, this`dualView, this`ready,
               this`yOffset, this`listHeight, this`listWidth, this`codeHeight, this`code
      ensures Valid()
      // apart from the offset and the code, the navigation state is the message's step
      ensures State().(offset := old(yOffset), code := old(code))
              == MsgStep(msg, old(State()), |categories|, |old(CurrentRecipes())|, old(listHeight))
      ensures done == MsgReturns(msg, old(State()), old(listHeight))
      ensures cmd == Crash <==> old(CurrentRecipes()) == [] && msg == KeyMsg(EnterKey)
      ensures cmd == Quit <==> MsgQuits(msg, old(State()), |old(CurrentRecipes())|, old(listHeight))
      // only a quit by enter or a click records a recipe: the selected row, which is in the list
      ensures var list, chooses := old(CurrentRecipes()), cmd == Quit && (msg == KeyMsg(EnterKey) || msg.MouseMsg?);
              (chooses ==> 0 <= old(selectedRecipe) < |list|)
              && runRecipe == Recorded(chooses, list, old(selectedRecipe), old(runRecipe))
      // a window size sets the size fields, and no other message changes them
      ensures Size() == SizesAfter(msg, old(Size()))
      // the offset and the code: scrolled and fetched after a key or mouse branch that did not
      // return, set up by the first window size, and otherwise kept
      ensures (msg.KeyMsg? || msg.MouseMsg?) && !done
              ==> yOffset == Navigation.ScrollStep(old(yOffset), selectedRecipe, listHeight, |CurrentRecipes()|)
                  && code == CodeShown(old(code), show)
      ensures msg.SizeMsg? && !old(ready) ==> yOffset == 0 && code == ""
      ensures done || msg.OtherMsg? || (msg.SizeMsg? && old(ready)) ==> yOffset == old(yOffset) && code == old(code)
      // a move by one row keeps the selection visible
      ensures MovesSelection(msg) && old(Visible()) ==> Visible()
    {
      cmd, done := NoCmd, false;
      Resize(msg.width, msg.height, msg.headerHeight, msg.footerHeight, msg.codeHeaderHeight);
    }

    /** One message: its own branch, then, unless that returned, the search
        input's turn. The result says whether the program quits; a crash
        happens exactly when enter is pressed on an empty list, and only
        enter or a click chooses the recipe to run. */
    method Update(msg: Msg, typed: string, show: string -> Fetch) returns (cmd: Cmd)
      requires Valid() && SearchListOk()
      requires msg.MouseMsg? && msg.event.target.Row? ==> msg.event.target.index < |CurrentRecipes()|
      modifies this
      ensures Valid() && SearchListOk()
      ensures cmd == Crash <==> old(CurrentRecipes()) == [] && msg == KeyMsg(EnterKey)
      ensures cmd == Quit <==> MsgQuits(msg, old(State()), |old(CurrentRecipes())|, old(listHeight))
      // only a quit by enter or a click records a recipe: the selected row, which is in the list
      ensures var list, chooses := old(CurrentRecipes()), cmd == Quit && (msg == KeyMsg(EnterKey) || msg.MouseMsg?);
              (chooses ==> 0 <= old(selectedRecipe) < |list|)
              && runRecipe == Recorded(chooses, list, old(selectedRecipe), old(runRecipe))
      // a window size sets the size fields, and no other message changes them
      ensures Size() == SizesAfter(msg, old(Size()))
      // apart from the offset and the code, the navigation state is the message's step followed,
      // unless the branch returned, by the search input's turn
      ensures var s := MsgStep(msg, old(State()), |categories|, |old(CurrentRecipes())|, old(listHeight));
              currentTab == s.tab && showCode == s.showCode && showSearch == s.showSearch && focused == s.focused
      ensures var s := MsgStep(msg, old(State()), |categories|, |old(CurrentRecipes())|, old(listHeight));
              var sync := !MsgReturns(msg, old(State()), old(listHeight)) && showSearch && typed != old(searchQuery);
              (sync ==> searchQuery == typed && selectedRecipe == 0)
              && (!sync ==> searchQuery == old(searchQuery) && selectedRecipe == s.selected)
      // the offset and the code: scrolled and fetched, for the step's selection in the list before
      // the search input's turn, after a key or mouse branch that did not return; set up by the
      // first window size; otherwise kept
      ensures var s := MsgStep(msg, old(State()), |categories|, |old(CurrentRecipes())|, old(listHeight));
              var list := ListFor(old(searchQuery), old(filteredRecipe));
              (msg.KeyMsg? || msg.MouseMsg?) && !MsgReturns(msg, old(State()), old(listHeight))
              ==> yOffset == Navigation.ScrollStep(old(yOffset), s.selected, listHeight, |list|)
                  && code == ShownFrom(old(code), list, s.selected, show)
      ensures msg.SizeMsg? && !old(ready) ==> yOffset == 0 && code == ""
      ensures MsgReturns(msg, old(State()), old(listHeight)) || msg.OtherMsg? || (msg.SizeMsg? && old(ready))
              ==> yOffset == old(yOffset) && code == old(code)
      // the search list is rebuilt only for a new query
      ensures searchQuery == old(searchQuery) ==> filteredRecipe == old(filteredRecipe)
      // a move by one row keeps the selection visible unless the query changed
      ensures MovesSelection(msg) && old(Visible()) && searchQuery == old(searchQuery) ==> Visible()
    {
      var done;
      cmd, done := Handle(msg, show);
      ghost var list := CurrentRecipes();
      assert list == ListFor(old(searchQuery), old(filteredRecipe));
      if !done {
        SyncSearch(typed);
      }
    }
  }
}
