/** The arithmetic of moving between tabs, moving the selection and
    scrolling the recipe list (`changeTab`, `changeRecipeScroll` and
    `scrollViewport` in picker.go), stated on plain integers. */
module Navigation {

  datatype Direction = Left | Right

  datatype Vertical = Up | Down

  /** The tab after a move: one step towards `dir`, never past either end
      and without wrapping around. */
  function TabAfter(tab: int, count: int, dir: Direction): (r: int)
    ensures 0 <= tab < count ==> 0 <= r < count
    ensures -1 <= r - tab <= 1
    ensures dir == Left ==> r <= tab
    ensures dir == Right ==> r >= tab
    ensures r != tab <==> (dir == Left && tab > 0) || (dir == Right && tab < count - 1)
  {
    match dir
    case Left => if tab > 0 then tab - 1 else tab
    case Right => if tab < count - 1 then tab + 1 else tab
  }

  /** The selection after a move in a list of `count` entries, clamped to
      the list. */
  function SelectionAfter(sel: int, count: int, dir: Vertical): (r: int)
    ensures 0 <= sel < count ==> 0 <= r < count
    ensures sel == 0 && count == 0 ==> r == 0
    ensures -1 <= r - sel <= 1
    ensures dir == Up ==> r <= sel
    ensures dir == Down ==> r >= sel
    ensures r != sel <==> (dir == Up && sel > 0) || (dir == Down && sel < count - 1)
  {
    match dir
    case Up => if sel > 0 then sel - 1 else sel
    case Down => if sel < count - 1 then sel + 1 else sel
  }

  /** The first visible row after one scroll correction: when the list is
      longer than the viewport and the selection lies above (below) the
      visible rows, the offset moves by one towards it. Both tests use the
      window as it was before either of them ran. */
  function ScrollStep(offset: int, selected: int, height: int, count: int): (r: int)
    ensures height >= count ==> r == offset
    ensures offset <= selected < offset + height ==> r == offset
    ensures 1 <= height < count && selected < offset ==> r == offset - 1
    ensures 1 <= height < count && selected >= offset + height ==> r == offset + 1
    ensures 1 <= height && 0 <= offset <= count - height && 0 <= selected < count
            ==> 0 <= r <= count - height
    ensures 0 <= offset && 0 <= selected ==> 0 <= r
  {
    if height < count then
      var start := offset;
      var stop := start + height - 1;
      var afterUp := if selected < start then offset - 1 else offset;
      if selected > stop then afterUp + 1 else afterUp
    else
      offset
  }

  /** The viewport shows the selection: the offset is in range (zero when
      the whole list fits) and, for a non-empty list, the selected row is
      one of the `height` visible rows. */
  predicate WindowOk(offset: int, selected: int, height: int, count: int) {
    1 <= height && 0 <= offset
    && (if height >= count then offset == 0 else offset <= count - height)
    && (count > 0 ==> offset <= selected < offset + height)
  }

  /** A selection that moves by at most one row stays visible after one
      scroll correction. */
  lemma ScrollRestoresWindow(offset: int, selected: int, next: int, height: int, count: int)
    requires WindowOk(offset, selected, height, count)
    requires 0 <= next < count || (count == 0 && next == 0)
    requires -1 <= next - selected <= 1
    ensures WindowOk(ScrollStep(offset, next, height, count), next, height, count)
  {
    var r := ScrollStep(offset, next, height, count);
    if height < count {
      assert next < offset ==> r == offset - 1;
      assert next >= offset + height ==> r == offset + 1;
    }
  }

  /** Moving up or down keeps the selection visible. */
  lemma MoveKeepsWindow(offset: int, selected: int, height: int, count: int, dir: Vertical)
    requires 0 <= selected < count || (count == 0 && selected == 0)
    ensures var next := SelectionAfter(selected, count, dir);
            WindowOk(offset, selected, height, count)
            ==> WindowOk(ScrollStep(offset, next, height, count), next, height, count)
  {
    if WindowOk(offset, selected, height, count) {
      ScrollRestoresWindow(offset, selected, SelectionAfter(selected, count, dir), height, count);
    }
  }
}
