/** The list screen controller: the stored sections, the reload flag, the
    last selected item, the table view's visible cells, and a ghost log of
    the table-view calls and handler invocations it makes. */
module ListView {
  import opened Options
  import opened ListData

  class ListViewController {
    /** The sections on screen; the owner replaces them through SetSections. */
    var sections: seq<Section>
    /** Whether storing sections reloads the whole table; off while a
        delete applies its own animated update. */
    var reloadDataOnSectionUpdate: bool
    var lastSelectedItem: Option<Item>
    /** The table view's visible cells, in the order it reports them; which
        cells are visible is decided by the table view, not by this class. */
    var visibleCells: seq<Cell>
    /** The table-view calls and handler invocations, oldest first. */
    ghost var log: seq<Event>

    /** No stored section is ever empty. */
    ghost predicate Valid()
      reads this
    {
      AllNonEmpty(sections)
    }

    constructor ()
      ensures Valid()
      ensures sections == [] && reloadDataOnSectionUpdate && lastSelectedItem == None
      ensures visibleCells == [] && log == []
    {
      sections := [];
      reloadDataOnSectionUpdate := true;
      lastSelectedItem := None;
      visibleCells := [];
      log := [];
    }

    /** The `didSet` observer of `sections`. When it drops empty sections it
        stores the rest; that store does not run the observer again, so the
        filtering path issues no reload. */
    method SectionsDidSet()
      modifies this`sections, this`log
      ensures Valid()
      ensures sections == FilterNonEmpty(old(sections))
      ensures log == old(log) + (if AllNonEmpty(old(sections)) && reloadDataOnSectionUpdate then [ReloadData] else [])
    {
      var filtered := FilterNonEmpty(sections);
      FilterUnchangedIff(sections);
      if |filtered| != |sections| {
        sections := filtered;
      } else if reloadDataOnSectionUpdate {
        log := log + [ReloadData];
      }
    }

    /** `sections = newSections` from the owner. */
    method SetSections(newSections: seq<Section>)
      modifies this`sections, this`log
      ensures Valid()
      ensures sections == FilterNonEmpty(newSections)
      ensures log == old(log) + (if AllNonEmpty(newSections) && reloadDataOnSectionUpdate then [ReloadData] else [])
    {
      sections := newSections;
      SectionsDidSet();
    }

    /** A tap on the row at (section, row). */
    method DidSelectRow(section: nat, row: nat)
      requires ValidIndexPath(sections, section, row)
      modifies this`lastSelectedItem, this`log
      ensures lastSelectedItem == Some(sections[section].items[row])
      ensures log == old(log) + [DeselectRow(section, row)]
                   + match sections[section].items[row].selectionHandler
                     case Some(h) => [SelectionHandlerCalled(h)]
                     case None => []
    {
      log := log + [DeselectRow(section, row)];
      var item := sections[section].items[row];
      lastSelectedItem := Some(item);
      match item.selectionHandler {
        case Some(h) => log := log + [SelectionHandlerCalled(h)];
        case None =>
      }
    }

    /** Whether a commit of `style` on (section, row) deletes something. */
    ghost predicate DeleteApplies(style: EditingStyle, section: nat, row: nat)
      reads this
    {
      style == Delete && ValidIndexPath(sections, section, row) && CanEditRow(sections, section, row)
    }

    /** A committed swipe-to-delete on (section, row). */
    method CommitEditingStyle(style: EditingStyle, section: nat, row: nat)
      requires Valid()
      requires style == Delete ==> ValidIndexPath(sections, section, row)
      modifies this`sections, this`reloadDataOnSectionUpdate, this`log
      ensures Valid()
      ensures !old(DeleteApplies(style, section, row)) ==>
                sections == old(sections) && reloadDataOnSectionUpdate == old(reloadDataOnSectionUpdate) &&
                log == old(log)
      ensures old(DeleteApplies(style, section, row)) ==>
                sections == AfterDelete(old(sections), section, row) && reloadDataOnSectionUpdate &&
                log == old(log) + [DeleteEvent(old(sections), section, row),
                                   DeletionHandlerCalled(old(sections)[section].items[row].deletionHandler.value)]
    {
      if style != Delete {
        return;
      }
      var current := sections[section];
      var item := current.items[row];
      var containsSingleItemBeforeDeletion := |current.items| == 1;
      if item.deletionHandler.None? {
        return;
      }
      var deletionHandler := item.deletionHandler.value;
      ghost var before := sections;
      DeleteKeepsSectionsNonEmpty(sections, section, row);

      reloadDataOnSectionUpdate := false;
      if containsSingleItemBeforeDeletion {
        sections := RemoveAt(sections, section);
        assert sections == AfterDelete(before, section, row);
        SectionsDidSet();
        log := log + [DeleteSections(section)];
      } else {
        sections := sections[section := sections[section].(items := RemoveAt(sections[section].items, row))];
        assert sections == AfterDelete(before, section, row);
        SectionsDidSet();
        log := log + [DeleteRows(section, row)];
      }
      reloadDataOnSectionUpdate := true;
      log := log + [DeletionHandlerCalled(deletionHandler)];
    }

    /** The index in `visibleCells` of the first cell bound to the last
        selected item. */
    method LastSelectedCell() returns (found: Option<nat>)
      ensures found == SelectedCell(visibleCells, lastSelectedItem)
    {
      if lastSelectedItem.None? {
        return None;
      }
      var id := lastSelectedItem.value.id;
      for i := 0 to |visibleCells|
        invariant forall k :: 0 <= k < i ==> !Shows(visibleCells[k], id)
      {
        if Shows(visibleCells[i], id) {
          return Some(i);
        }
      }
      return None;
    }

    /** Shows the loading indicator on the last selected item's cell, if it
        is visible. */
    method StartProcessing()
      modifies this`visibleCells
      ensures visibleCells == ShowLoadingIndicator(old(visibleCells), SelectedCell(old(visibleCells), lastSelectedItem), true)
    {
      var cell := LastSelectedCell();
      match cell {
        case None => return;
        case Some(k) =>
          visibleCells := visibleCells[k := visibleCells[k].(loading := true)];
      }
    }

    /** Hides the loading indicator on the last selected item's cell and
        forgets the selection; does neither when no such cell is visible. */
    method StopProcessing()
      modifies this`visibleCells, this`lastSelectedItem
      ensures visibleCells == ShowLoadingIndicator(old(visibleCells), SelectedCell(old(visibleCells), old(lastSelectedItem)), false)
      ensures lastSelectedItem == if SelectedCell(old(visibleCells), old(lastSelectedItem)).Some? then None else old(lastSelectedItem)
    {
      var cell := LastSelectedCell();
      match cell {
        case None => return;
        case Some(k) =>
          visibleCells := visibleCells[k := visibleCells[k].(loading := false)];
          lastSelectedItem := None;
      }
    }
  }

  /** The example of a two-section list: deleting the only item of the first
      section removes that section and runs its deletion handler. */
  method DeleteExample() {
    var a := Item(1, None, Some(10));
    var x := Item(2, None, None);
    var y := Item(3, None, Some(20));
    var controller := new ListViewController();
    controller.SetSections([Section(None, [a]), Section(Some("B"), [x, y])]);
    assert controller.sections == [Section(None, [a]), Section(Some("B"), [x, y])] by {
      FilterUnchangedIff([Section(None, [a]), Section(Some("B"), [x, y])]);
    }
    assert !CanEditRow(controller.sections, 1, 0);
    controller.CommitEditingStyle(Delete, 1, 0);
    assert controller.log == [ReloadData];
    controller.CommitEditingStyle(Delete, 0, 0);
    assert controller.sections == [Section(Some("B"), [x, y])];
    assert controller.log == [ReloadData, DeleteSections(0), DeletionHandlerCalled(10)];
  }
}
