/** The button-click callback, which hands every click to both handlers. */
module Dispatch {
  import opened Decimal
  import opened Buttons
  import opened Pager

  method OnButtonClick(menu: LanguageMenu, pages: PerUserPages, clicker: UserId, customId: string) returns (action: Action, reply: Reply)
    requires menu.Valid() && pages.Valid()
    modifies pages
    ensures menu.Valid() && pages.Valid()
    ensures action == ActionFor(customId, menu.LanguageOf(clicker))
    ensures pages.Snapshot() == Click(old(pages.Snapshot()), clicker, PressOf(customId))
    ensures action == NoAction || reply == Ignored
    ensures action != NoAction ==> pages.Snapshot() == old(pages.Snapshot())
  {
    NeverBothAct(customId, menu.LanguageOf(clicker));
    action := menu.HandleSolutionButton(clicker, customId);
    reply := Ignored;
    if PREV_PAGE <= customId || NEXT_PAGE <= customId {
      reply := pages.HandlePageButton(clicker, customId);
    }
  }
}
