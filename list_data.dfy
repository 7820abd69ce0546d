/** The values a list screen works on: items, sections, the cells the table
    view shows, and the table-view calls the controller makes. The pure parts
    of the controller (its table queries, its filter of empty sections and
    the arithmetic of a swipe-to-delete) are functions over these values. */
module ListData {
  import opened Options

  /** The identity under which two items compare equal. */
  type ItemId = nat

  /** A caller-supplied closure, known to the model only by a name. */
  type HandlerId = nat

  /** A row of the list with its optional selection and deletion handlers. */
  datatype Item = Item(id: ItemId, selectionHandler: Option<HandlerId>, deletionHandler: Option<HandlerId>)

  /** A group of rows under an optional title. */
  datatype Section = Section(title: Option<string>, items: seq<Item>)

  /** A visible cell: the item it is bound to (if any) and whether its
      loading indicator is showing. */
  datatype Cell = Cell(item: Option<ItemId>, loading: bool)

  /** The two header heights the controller answers: 40 points, or the
      smallest positive height, which hides the header. */
  datatype HeaderHeight = Forty | Minimal

  /** The editing styles a table view may commit. */
  datatype EditingStyle = NoEditing | Delete | Insert

  /** What the controller asks of the table view, and which handlers it runs. */
  datatype Event =
    | ReloadData
    | DeleteSections(section: nat)
    | DeleteRows(section: nat, row: nat)
    | DeselectRow(section: nat, row: nat)
    | SelectionHandlerCalled(handler: HandlerId)
    | DeletionHandlerCalled(handler: HandlerId)

  predicate NonEmpty(s: Section) {
    |s.items| > 0
  }

  /** The invariant the controller keeps on its stored sections. */
  predicate AllNonEmpty(ss: seq<Section>) {
    forall k :: 0 <= k < |ss| ==> NonEmpty(ss[k])
  }

  /** An index path that names an existing row. */
  predicate ValidIndexPath(ss: seq<Section>, section: int, row: int) {
    0 <= section < |ss| && 0 <= row < |ss[section].items|
  }

  // ---------------------------------------------------------------------
  // Table queries

  function NumberOfSections(ss: seq<Section>): (n: nat)
    ensures n == |ss|
  {
    |ss|
  }

  function HeaderHeightFor(ss: seq<Section>, section: nat): (h: HeaderHeight)
    requires section < |ss|
    ensures h == Forty <==> ss[section].title.Some?
  {
    if ss[section].title.Some? then Forty else Minimal
  }

  /** Every row is 56 points high, whatever the sections and the index path. */
  function RowHeight(ss: seq<Section>, section: nat, row: nat): (h: nat)
    ensures h == 56
  {
    56
  }

  function NumberOfRows(ss: seq<Section>, section: nat): (n: nat)
    requires section < |ss|
    ensures n == |ss[section].items|
    ensures AllNonEmpty(ss) ==> n >= 1
  {
    |ss[section].items|
  }

  function CanEditRow(ss: seq<Section>, section: nat, row: nat): (b: bool)
    requires ValidIndexPath(ss, section, row)
    ensures b <==> ss[section].items[row].deletionHandler.Some?
  {
    ss[section].items[row].deletionHandler.Some?
  }

  /** The activity-indicator colour of a cell: the screen's own colour, else
      the shared appearance's, else the disclosure-indicator colour. */
  function ActivityIndicatorColor<C>(screen: Option<C>, shared: Option<C>, disclosure: C): (c: C)
    ensures screen.Some? ==> c == screen.value
    ensures screen.None? && shared.Some? ==> c == shared.value
    ensures screen.None? && shared.None? ==> c == disclosure
  {
    match screen
    case Some(s) => s
    case None =>
      match shared
      case Some(a) => a
      case None => disclosure
  }

  /** The first present value of a list of optional values. */
  function FirstPresent<C>(options: seq<Option<C>>): (r: Option<C>)
    ensures r.None? <==> forall k :: 0 <= k < |options| ==> options[k].None?
    ensures r.Some? ==> exists k :: 0 <= k < |options| && options[k] == r && forall j :: 0 <= j < k ==> options[j].None?
  {
    if options == [] then None
    else if options[0].Some? then options[0]
    else FirstPresent(options[1..])
  }

  lemma ActivityIndicatorColorIsFirstPresent<C>(screen: Option<C>, shared: Option<C>, disclosure: C)
    ensures FirstPresent([screen, shared, Some(disclosure)]) == Some(ActivityIndicatorColor(screen, shared, disclosure))
  {
    var opts := [screen, shared, Some(disclosure)];
    if screen.None? {
      assert opts[1..] == [shared, Some(disclosure)];
      if shared.None? {
        assert opts[1..][1..] == [Some(disclosure)];
        assert FirstPresent([Some(disclosure)]) == Some(disclosure);
      }
    }
  }

  // ---------------------------------------------------------------------
  // Dropping empty sections

  /** The sections that have at least one item, in their original order. */
  function FilterNonEmpty(ss: seq<Section>): (r: seq<Section>)
    ensures |r| <= |ss|
    ensures AllNonEmpty(r)
    ensures forall x :: x in r <==> x in ss && NonEmpty(x)
  {
    if ss == [] then []
    else if |ss[0].items| > 0 then [ss[0]] + FilterNonEmpty(ss[1..])
    else FilterNonEmpty(ss[1..])
  }

  /** Filtering keeps the length exactly when it keeps the sequence, and
      both happen exactly when no section is empty. */
  lemma {:induction false} FilterUnchangedIff(ss: seq<Section>)
    ensures |FilterNonEmpty(ss)| == |ss| <==> AllNonEmpty(ss)
    ensures FilterNonEmpty(ss) == ss <==> AllNonEmpty(ss)
  {
    if ss != [] {
      FilterUnchangedIff(ss[1..]);
      assert AllNonEmpty(ss) <==> NonEmpty(ss[0]) && AllNonEmpty(ss[1..]) by {
        if NonEmpty(ss[0]) && AllNonEmpty(ss[1..]) {
          forall k | 0 <= k < |ss| ensures NonEmpty(ss[k]) {
            if k > 0 { assert ss[k] == ss[1..][k - 1]; }
          }
        }
      }
      if NonEmpty(ss[0]) {
        assert ss == [ss[0]] + ss[1..];
      }
    }
  }

  /** Filtering distributes over concatenation. */
  lemma {:induction false} FilterConcat(a: seq<Section>, b: seq<Section>)
    ensures FilterNonEmpty(a + b) == FilterNonEmpty(a) + FilterNonEmpty(b)
  {
    if a == [] {
      assert a + b == b;
    } else {
      assert (a + b)[0] == a[0];
      assert (a + b)[1..] == a[1..] + b;
      FilterConcat(a[1..], b);
    }
  }

  /** Two non-empty sections keep their relative order, and what lies
      before, between and after them is filtered on its own. */
  lemma FilterKeepsOrder(a: seq<Section>, x: Section, b: seq<Section>, y: Section, c: seq<Section>)
    requires NonEmpty(x) && NonEmpty(y)
    ensures FilterNonEmpty(a + [x] + b + [y] + c)
         == FilterNonEmpty(a) + [x] + FilterNonEmpty(b) + [y] + FilterNonEmpty(c)
  {
    assert FilterNonEmpty([x]) == [x] by { assert [x][1..] == []; }
    assert FilterNonEmpty([y]) == [y] by { assert [y][1..] == []; }
    FilterConcat(a + [x] + b + [y], c);
    FilterConcat(a + [x] + b, [y]);
    FilterConcat(a + [x], b);
    FilterConcat(a, [x]);
  }

  /** Filtering twice filters no more: storing the filtered sections again
      would not change them. */
  lemma FilterIdempotent(ss: seq<Section>)
    ensures FilterNonEmpty(FilterNonEmpty(ss)) == FilterNonEmpty(ss)
  {
    FilterUnchangedIff(FilterNonEmpty(ss));
  }

  // ---------------------------------------------------------------------
  // Swipe-to-delete

  /** Swift's `Array.remove(at:)`. */
  function RemoveAt<T>(s: seq<T>, k: nat): (r: seq<T>)
    requires k < |s|
    ensures |r| == |s| - 1
    ensures forall m :: 0 <= m < k ==> r[m] == s[m]
    ensures forall m :: k <= m < |r| ==> r[m] == s[m + 1]
  {
    s[..k] + s[k + 1..]
  }

  /** The sections after deleting the row at (section, row): the whole
      section when it held that one item, otherwise just the row. */
  function AfterDelete(ss: seq<Section>, section: nat, row: nat): (r: seq<Section>)
    requires ValidIndexPath(ss, section, row)
    ensures |r| == if |ss[section].items| == 1 then |ss| - 1 else |ss|
  {
    if |ss[section].items| == 1 then RemoveAt(ss, section)
    else ss[section := ss[section].(items := RemoveAt(ss[section].items, row))]
  }

  /** The animated table update a delete issues. */
  function DeleteEvent(ss: seq<Section>, section: nat, row: nat): (e: Event)
    requires ValidIndexPath(ss, section, row)
    ensures e == DeleteSections(section) <==> |ss[section].items| == 1
    ensures e == DeleteRows(section, row) <==> |ss[section].items| > 1
  {
    if |ss[section].items| == 1 then DeleteSections(section) else DeleteRows(section, row)
  }

  lemma DeleteOnlyItemRemovesSection(ss: seq<Section>, section: nat, row: nat)
    requires ValidIndexPath(ss, section, row) && |ss[section].items| == 1
    ensures NumberOfSections(AfterDelete(ss, section, row)) == NumberOfSections(ss) - 1
    ensures AfterDelete(ss, section, row) == ss[..section] + ss[section + 1..]
  {
  }

  lemma DeleteRowKeepsSection(ss: seq<Section>, section: nat, row: nat)
    requires ValidIndexPath(ss, section, row) && |ss[section].items| > 1
    ensures NumberOfSections(AfterDelete(ss, section, row)) == NumberOfSections(ss)
    ensures AfterDelete(ss, section, row)[section].title == ss[section].title
    ensures NumberOfRows(AfterDelete(ss, section, row), section) == NumberOfRows(ss, section) - 1
    ensures AfterDelete(ss, section, row)[section].items == ss[section].items[..row] + ss[section].items[row + 1..]
    ensures multiset(AfterDelete(ss, section, row)[section].items)
         == multiset(ss[section].items) - multiset{ss[section].items[row]}
    ensures forall k :: 0 <= k < |ss| && k != section ==> AfterDelete(ss, section, row)[k] == ss[k]
  {
    var items := ss[section].items;
    var left := AfterDelete(ss, section, row)[section].items;
    assert left == items[..row] + items[row + 1..] by {
      assert |left| == |items[..row] + items[row + 1..]|;
      forall m | 0 <= m < |left| ensures left[m] == (items[..row] + items[row + 1..])[m] {
      }
    }
    assert items == items[..row] + [items[row]] + items[row + 1..];
  }

  /** A delete never leaves an empty section behind, so the observer that
      runs after it has nothing to filter. */
  lemma DeleteKeepsSectionsNonEmpty(ss: seq<Section>, section: nat, row: nat)
    requires AllNonEmpty(ss) && ValidIndexPath(ss, section, row)
    ensures AllNonEmpty(AfterDelete(ss, section, row))
    ensures FilterNonEmpty(AfterDelete(ss, section, row)) == AfterDelete(ss, section, row)
  {
    var r := AfterDelete(ss, section, row);
    if |ss[section].items| == 1 {
      assert forall m :: 0 <= m < |r| ==> r[m] == ss[if m < section then m else m + 1];
    }
    FilterUnchangedIff(r);
  }

  // ---------------------------------------------------------------------
  // The cell of the last selected item

  predicate Shows(c: Cell, id: ItemId) {
    c.item == Some(id)
  }

  /** The index of the first cell bound to `id`, if there is one. */
  function FirstMatch(cells: seq<Cell>, id: ItemId): (r: Option<nat>)
    ensures r.Some? ==> r.value < |cells| && Shows(cells[r.value], id)
    ensures r.Some? ==> forall k :: 0 <= k < r.value ==> !Shows(cells[k], id)
    ensures r.None? ==> forall k :: 0 <= k < |cells| ==> !Shows(cells[k], id)
  {
    if cells == [] then None
    else if Shows(cells[0], id) then Some(0)
    else
      match FirstMatch(cells[1..], id)
      case None => None
      case Some(k) => Some(k + 1)
  }

  /** The cell the processing indicator belongs to: none without a selection. */
  function SelectedCell(cells: seq<Cell>, selected: Option<Item>): (r: Option<nat>)
    ensures selected.None? ==> r.None?
    ensures r.Some? ==> r.value < |cells|
    ensures selected.Some? ==> (r.None? <==> forall k :: 0 <= k < |cells| ==> !Shows(cells[k], selected.value.id))
    ensures selected.Some? && r.Some? ==>
              Shows(cells[r.value], selected.value.id) && forall k :: 0 <= k < r.value ==> !Shows(cells[k], selected.value.id)
  {
    match selected
    case None => None
    case Some(item) => FirstMatch(cells, item.id)
  }

  /** The cells after `showLoadingIndicator(on)` on the cell at `at`, if any. */
  function ShowLoadingIndicator(cells: seq<Cell>, at: Option<nat>, on: bool): (r: seq<Cell>)
    ensures |r| == |cells|
    ensures forall k :: 0 <= k < |cells| ==> r[k].item == cells[k].item
    ensures forall k :: 0 <= k < |cells| ==> r[k].loading == (if at == Some(k as nat) then on else cells[k].loading)
  {
    match at
    case Some(k) => if k < |cells| then cells[k := cells[k].(loading := on)] else cells
    case None => cells
  }

  /** Showing or hiding an indicator does not move the cell an item is found in. */
  lemma LoadingKeepsMatch(cells: seq<Cell>, at: Option<nat>, on: bool, id: ItemId)
    ensures FirstMatch(ShowLoadingIndicator(cells, at, on), id) == FirstMatch(cells, id)
  {
  }

  /** Starting and then stopping processing with the same selection finds
      the same cell both times and leaves no indicator showing. */
  lemma StartThenStopRestores(cells: seq<Cell>, selected: Option<Item>)
    requires forall k :: 0 <= k < |cells| ==> !cells[k].loading
    ensures var started := ShowLoadingIndicator(cells, SelectedCell(cells, selected), true);
            SelectedCell(started, selected) == SelectedCell(cells, selected) &&
            ShowLoadingIndicator(started, SelectedCell(started, selected), false) == cells
  {
  }
}
