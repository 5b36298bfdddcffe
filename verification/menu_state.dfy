/**
 * The menu part of the editor state, state/menu.go: showing and hiding the
 * menu, executing the selected item, moving the selection with wraparound, and
 * editing the search query (which resets the selection).
 */
module MenuStates {
  import opened Menu
  import opened MenuText

  datatype Option<T> = None | Some(value: T)

  datatype MenuStyle = MenuStyleCommand | MenuStyleFile

  /** The editor's input modes; only the two the menu switches between are
      told apart here. */
  datatype InputMode = InputModeNormal | InputModeMenu | OtherInputMode

  datatype StatusMsgStyle = StatusMsgStyleSuccess | StatusMsgStyleError

  datatype StatusMsg = StatusMsg(style: StatusMsgStyle, text: string)

  /** Go's `a % b` for b > 0: division truncates toward zero, so the
      remainder takes the sign of a. */
  function GoRem(a: int, b: int): (r: int)
    requires b > 0
    ensures -b < r < b
    ensures a >= 0 ==> r >= 0
    ensures a < 0 ==> r <= 0
  {
    if a >= 0 then a % b else -((-a) % b)
  }

  /** Adding the divisor to a negative Go remainder gives the Euclidean
      remainder: the wraparound of MoveMenuSelection lands on a mod b. */
  lemma WrapAround(a: int, b: int)
    requires b > 0
    ensures var r := GoRem(a, b); (if r < 0 then b + r else r) == a % b
  {
    if a < 0 {
      var q, m := (-a) / b, (-a) % b;
      assert -a == b * q + m;
      if m == 0 {
        assert a == b * (-q) + 0;
        ModUnique(a, b, -q, 0);
      } else {
        assert a == b * (-q - 1) + (b - m);
        ModUnique(a, b, -q - 1, b - m);
      }
    }
  }

  /** A multiple of b by at least one is at least b. */
  lemma {:induction false} MulAtLeast(b: int, d: int)
    requires b > 0 && d >= 1
    ensures b * d >= b
    decreases d
  {
    if d > 1 {
      MulAtLeast(b, d - 1);
      assert b * d == b * (d - 1) + b;
    }
  }

  /** The Euclidean remainder is the unique w in [0, b) with a = b * k + w. */
  lemma ModUnique(a: int, b: int, k: int, w: int)
    requires b > 0 && 0 <= w < b && a == b * k + w
    ensures a % b == w
  {
    var q, w' := a / b, a % b;
    assert a == b * q + w';
    assert b * (k - q) == w' - w;
    if k > q {
      MulAtLeast(b, k - q);
    } else if k < q {
      MulAtLeast(b, q - k);
    }
  }

  /** The menu. */
  class MenuState {
    var visible: bool
    var style: MenuStyle
    var search: Search?
    var selectedResultIdx: int

    /** `&MenuState{}`: hidden, no search, nothing selected. */
    constructor ()
      ensures !visible && style == MenuStyleCommand && search == null && selectedResultIdx == 0
    {
      visible := false;
      style := MenuStyleCommand;
      search := null;
      selectedResultIdx := 0;
    }

    /** A visible menu over a search, with the first result selected. */
    constructor Shown(style: MenuStyle, search: Search)
      ensures visible && this.style == style && this.search == search && selectedResultIdx == 0
    {
      visible := true;
      this.style := style;
      this.search := search;
      selectedResultIdx := 0;
    }

    /** The documented invariant: the selection is zero when there are no
        results and below the number of results otherwise. */
    ghost predicate Valid()
      reads this, search
    {
      && (search == null ==> selectedResultIdx == 0)
      && (search != null ==>
            && search.Valid()
            && var n := |Matches(search.scoredItems)|;
               (n == 0 ==> selectedResultIdx == 0) && (n > 0 ==> 0 <= selectedResultIdx < n))
    }

    function Visible(): bool
      reads this
    {
      visible
    }

    function Style(): MenuStyle
      reads this
    {
      style
    }

    /** The query, or "" when there is no search. */
    function SearchQuery(): (q: string)
      reads this, search
      ensures search == null ==> q == []
      ensures search != null ==> q == search.query
    {
      if search == null then [] else search.Query()
    }

    /** The results and the selected index; no results and index 0 when there
        is no search. */
    method SearchResults() returns (results: seq<Item>, idx: int)
      ensures search == null ==> results == [] && idx == 0
      ensures search != null ==> results == Matches(search.scoredItems) && idx == selectedResultIdx
      ensures Valid() ==> (results == [] ==> idx == 0) && (results != [] ==> 0 <= idx < |results|)
    {
      if search == null {
        return [], 0;
      }
      results := search.Results();
      idx := selectedResultIdx;
    }
  }

  /** The parts of the editor state the menu reads and writes. */
  class EditorState {
    var menu: MenuState
    var inputMode: InputMode
    var customMenuItems: seq<Item>
    var statusMsg: Option<StatusMsg>

    constructor (customMenuItems: seq<Item>)
      ensures fresh(menu) && menu.search == null && !menu.visible
      ensures inputMode == InputModeNormal && this.customMenuItems == customMenuItems
      ensures statusMsg == None
      ensures Valid()
    {
      menu := new MenuState();
      inputMode := InputModeNormal;
      this.customMenuItems := customMenuItems;
      statusMsg := None;
    }

    ghost predicate Valid()
      reads this, menu, menu.search
    {
      menu.Valid()
    }
  }

  /** ShowMenu: the file menu shows every item for the empty query; only the
      command menu gets the custom menu items. `loaded` is what loadItems
      returned; `normalize` is the search's normalization, which maps the
      empty string to itself. */
  method ShowMenu(state: EditorState, style: MenuStyle, loaded: seq<Item>, normalize: string -> string)
    requires normalize([]) == []
    modifies state
    ensures state.Valid()
    ensures fresh(state.menu) && state.menu.search != null && fresh(state.menu.search)
    ensures state.menu.visible && state.menu.style == style && state.menu.selectedResultIdx == 0
    ensures state.menu.search.emptyQueryShowAll <==> style == MenuStyleFile
    ensures state.menu.search.query == [] && state.menu.search.queryWords == []
    ensures state.menu.search.normalize == normalize
    ensures state.menu.search.scoredItems
         == SortByScore(Initial(loaded + (if style == MenuStyleCommand then state.customMenuItems else []),
                                style == MenuStyleFile, normalize))
    ensures multiset(ItemsOf(state.menu.search.scoredItems))
         == multiset(loaded + if style == MenuStyleCommand then state.customMenuItems else [])
    ensures var results := Matches(state.menu.search.scoredItems);
            && (style == MenuStyleFile ==> |results| == |loaded|)
            && (style == MenuStyleCommand ==> results == [])
    ensures state.inputMode == InputModeMenu
    ensures state.customMenuItems == old(state.customMenuItems) && state.statusMsg == old(state.statusMsg)
  {
    var emptyQueryShowAll := style == MenuStyleFile;
    var items := loaded;
    if style == MenuStyleCommand {
      items := items + state.customMenuItems;
    }
    assert items == loaded + (if style == MenuStyleCommand then state.customMenuItems else []);
    var search := new Search(items, emptyQueryShowAll, normalize);
    InitialResults(items, emptyQueryShowAll, normalize);
    state.menu := new MenuState.Shown(style, search);
    state.inputMode := InputModeMenu;
  }

  /** HideMenu: a zero-valued menu and normal input mode. */
  method HideMenu(state: EditorState)
    modifies state
    ensures state.Valid()
    ensures fresh(state.menu) && !state.menu.visible && state.menu.search == null
    ensures state.menu.style == MenuStyleCommand && state.menu.selectedResultIdx == 0
    ensures state.inputMode == InputModeNormal
    ensures state.customMenuItems == old(state.customMenuItems) && state.statusMsg == old(state.statusMsg)
  {
    state.menu := new MenuState();
    state.inputMode := InputModeNormal;
  }

  /** ExecuteSelectedMenuItem: with no results, an error status and the menu
      is hidden; otherwise the menu is hidden and the selected item's action,
      if it is a function over the editor state, is the one to run (returned
      as `toRun`; running it is left to the caller). */
  method ExecuteSelectedMenuItem(state: EditorState) returns (toRun: Option<nat>)
    requires state.Valid() && state.menu.search != null
    modifies state
    ensures state.Valid()
    ensures fresh(state.menu) && !state.menu.visible && state.menu.search == null
    ensures state.menu.style == MenuStyleCommand && state.menu.selectedResultIdx == 0
    ensures state.inputMode == InputModeNormal
    ensures state.customMenuItems == old(state.customMenuItems)
    ensures var results := Matches(old(state.menu.search.scoredItems));
            results == [] ==>
              toRun == None && state.statusMsg == Some(StatusMsg(StatusMsgStyleError, "No menu item selected"))
    ensures var results := Matches(old(state.menu.search.scoredItems));
            results != [] ==>
              && old(state.menu.selectedResultIdx) < |results|
              && state.statusMsg == old(state.statusMsg)
              && toRun == match results[old(state.menu.selectedResultIdx)].action
                        case StateAction(id) => Some(id)
                        case NotAStateAction => None
  {
    var search := state.menu.search;
    var results := search.Results();
    if |results| == 0 {
      state.statusMsg := Some(StatusMsg(StatusMsgStyleError, "No menu item selected"));
      HideMenu(state);
      return None;
    }
    var idx := state.menu.selectedResultIdx;
    var selectedItem := results[idx];
    HideMenu(state);
    match selectedItem.action {
      case StateAction(id) => toRun := Some(id);
      case NotAStateAction => toRun := None;
    }
  }

  /** MoveMenuSelection: with no results nothing changes; otherwise the
      selection moves by delta with wraparound. */
  method MoveMenuSelection(state: EditorState, delta: int)
    requires state.Valid() && state.menu.search != null
    modifies state.menu
    ensures state.Valid()
    ensures state.menu.search == old(state.menu.search)
    ensures state.menu.visible == old(state.menu.visible) && state.menu.style == old(state.menu.style)
    ensures var n := |Matches(state.menu.search.scoredItems)|;
            n == 0 ==> state.menu.selectedResultIdx == old(state.menu.selectedResultIdx)
    ensures var n := |Matches(state.menu.search.scoredItems)|;
            n > 0 ==>
              && state.menu.selectedResultIdx == (old(state.menu.selectedResultIdx) + delta) % n
              && 0 <= state.menu.selectedResultIdx < n
  {
    var results := state.menu.search.Results();
    var numResults := |results|;
    if numResults == 0 {
      return;
    }
    var newIdx := GoRem(state.menu.selectedResultIdx + delta, numResults);
    if newIdx < 0 {
      newIdx := numResults + newIdx;
    }
    WrapAround(state.menu.selectedResultIdx + delta, numResults);
    state.menu.selectedResultIdx := newIdx;
  }

  /** AppendRuneToMenuSearch: extends the query by r and selects the first
      result. */
  method AppendRuneToMenuSearch(state: EditorState, r: char)
    requires state.Valid() && state.menu.search != null
    modifies state.menu, state.menu.search
    ensures state.Valid()
    ensures state.menu.search == old(state.menu.search)
    ensures state.menu.visible == old(state.menu.visible) && state.menu.style == old(state.menu.style)
    ensures state.menu.selectedResultIdx == 0
    ensures var search := state.menu.search;
            && search.query == old(search.query) + [r]
            && search.queryWords == Words(search.normalize(search.query))
            && search.scoredItems
               == SortByScore(Rescore(old(search.scoredItems), search.query, search.emptyQueryShowAll, search.queryWords))
    ensures multiset(ItemsOf(state.menu.search.scoredItems)) == multiset(ItemsOf(old(state.menu.search.scoredItems)))
  {
    var menu := state.menu;
    menu.search.AppendRuneToQuery(r);
    menu.selectedResultIdx := 0;
  }

  /** DeleteRuneFromMenuSearch: drops the last rune of the query (if any) and
      selects the first result. */
  method DeleteRuneFromMenuSearch(state: EditorState)
    requires state.Valid() && state.menu.search != null
    modifies state.menu, state.menu.search
    ensures state.Valid()
    ensures state.menu.search == old(state.menu.search)
    ensures state.menu.visible == old(state.menu.visible) && state.menu.style == old(state.menu.style)
    ensures state.menu.selectedResultIdx == 0
    ensures var search := state.menu.search;
            old(search.query) == [] ==>
              && search.query == []
              && search.queryWords == old(search.queryWords)
              && search.scoredItems == old(search.scoredItems)
    ensures var search := state.menu.search;
            old(search.query) != [] ==>
              && search.query == old(search.query)[..|old(search.query)| - 1]
              && search.queryWords == Words(search.normalize(search.query))
              && search.scoredItems
                 == SortByScore(Rescore(old(search.scoredItems), search.query, search.emptyQueryShowAll, search.queryWords))
    ensures multiset(ItemsOf(state.menu.search.scoredItems)) == multiset(ItemsOf(old(state.menu.search.scoredItems)))
  {
    var menu := state.menu;
    menu.search.DeleteRuneFromQuery();
    menu.selectedResultIdx := 0;
  }
}
