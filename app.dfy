/** The state that the callbacks registered in `main` share: the cached task
    list, the four text entries, the "No tasks" label, the window content
    (the current screen) and the list selection. Each button or entry
    callback is one method. */
module App {
  import opened SpaceCollapse
  import opened Trim
  import opened Store

  /** The window content: the task list, the create form, the details of the
      task at an index of the cached list, or the edit form for it. */
  datatype Screen = ListScreen | CreateScreen | DetailScreen(index: nat) | EditScreen(index: nat)

  /** The selection of the task list widget. */
  datatype Selection = NoSelection | Selected(index: nat)

  /** A snapshot of every field, so that each event can state its whole new state. */
  datatype AppState = AppState(
    db: Db, tasks: seq<Task>, screen: Screen, selection: Selection,
    titleText: string, descText: string, editTitle: string, editDesc: string,
    noTasksVisible: bool)

  class ToDoApp {
    /** The contents of `todo.db`. */
    var db: Db
    /** The cached slice `tasks`, refreshed by `DB.Find(&tasks)`. */
    var tasks: seq<Task>
    var screen: Screen
    var selection: Selection
    /** `titleEntry.Text` and `descriptionEntry.Text` of the create form. */
    var titleText: string
    var descText: string
    /** The entries of the edit form. */
    var editTitle: string
    var editDesc: string
    /** Whether `noTasksLabel` is shown. */
    var noTasksVisible: bool

    ghost function State(): AppState
      reads this
    {
      AppState(db, tasks, screen, selection, titleText, descText, editTitle, editDesc, noTasksVisible)
    }

    /** The invariant every callback keeps: the cache equals the table, the
        label is shown exactly when the cache is empty, a task is selected
        exactly while its details or its edit form are shown, the create
        form is empty whenever it is not on screen, and its entries never hold
        two adjacent spaces, since every change to them passes through the
        collapsing handler. */
    ghost predicate Valid()
      reads this
    {
      WellFormed(db)
      && tasks == db.rows
      && noTasksVisible == (|tasks| == 0)
      && (match screen
          case ListScreen => selection == NoSelection
          case CreateScreen => selection == NoSelection
          case DetailScreen(i) => i < |tasks| && selection == Selected(i)
          case EditScreen(i) => i < |tasks| && selection == Selected(i))
      && (!screen.CreateScreen? ==> titleText == [] && descText == [])
      && !HasDoubleSpace(titleText) && !HasDoubleSpace(descText)
    }

    /** Start-up: the table is read into the cache, the label is hidden when
        there are tasks, and the list screen is shown with empty entries. */
    constructor (table: Db)
      requires WellFormed(table)
      ensures Valid()
      ensures State() == AppState(table, table.rows, ListScreen, NoSelection, [], [], [], [], |table.rows| == 0)
    {
      db := table;
      tasks := table.rows;
      var empty := true;
      if |table.rows| != 0 {
        empty := false;
      }
      noTasksVisible := empty;
      titleText, descText := [], [];
      editTitle, editDesc := [], [];
      screen := ListScreen;
      selection := NoSelection;
    }

    /** The "new" button of the list screen opens the create form. */
    method NewTask()
      requires Valid() && screen == ListScreen
      modifies this
      ensures Valid()
      ensures State() == old(State()).(screen := CreateScreen)
    {
      screen := CreateScreen;
    }

    /** `titleEntry.OnChanged`: the entry keeps the collapsed text. */
    method TitleChanged(text: string)
      requires Valid() && screen == CreateScreen
      modifies this
      ensures Valid()
      ensures State() == old(State()).(titleText := Collapse(text))
    {
      titleText := CollapseSpaces(text);
    }

    /** `descriptionEntry.OnChanged`. */
    method DescriptionChanged(text: string)
      requires Valid() && screen == CreateScreen
      modifies this
      ensures Valid()
      ensures State() == old(State()).(descText := Collapse(text))
    {
      descText := CollapseSpaces(text);
    }

    /** The "Save task" button of the create form. Nothing happens when the
        title is blank; otherwise the raw entry texts are stored, the cache is
        re-read, both entries are cleared and the list is shown unselected. */
    method SaveTask()
      requires Valid() && screen == CreateScreen
      modifies this
      ensures Valid()
      ensures TrimSpace(old(titleText)) == [] ==> State() == old(State())
      ensures TrimSpace(old(titleText)) != [] ==>
        db == Insert(old(db), old(titleText), old(descText))
        && State() == old(State()).(db := db, tasks := db.rows, titleText := [], descText := [],
                                    screen := ListScreen, noTasksVisible := false)
      ensures TrimSpace(old(titleText)) != [] ==>
        tasks == old(tasks) + [Task(old(db).nextId, old(titleText), old(descText))]
        && !HasId(old(tasks), old(db).nextId)
      ensures TrimSpace(old(titleText)) != [] ==>
        !HasDoubleSpace(tasks[|tasks| - 1].title) && !HasDoubleSpace(tasks[|tasks| - 1].description)
      ensures State() == old(State()) <==> IsBlank(old(titleText))
    {
      ghost var before := State();
      TrimSpaceEmptyIff(titleText);
      var blank := TrimSpace(titleText) == [];
      if !blank {
        var created := Task(db.nextId, titleText, descText);
        assert !HasDoubleSpace(created.title) && !HasDoubleSpace(created.description);
        InsertAppends(db, titleText, descText);
        db := Insert(db, titleText, descText);
        tasks := db.rows;
        titleText := [];
        descText := [];
        screen := ListScreen;
        selection := NoSelection;
        noTasksVisible := |tasks| == 0;
        assert State() == before.(db := db, tasks := db.rows, titleText := [], descText := [],
                                  screen := ListScreen, noTasksVisible := false);
        assert tasks[|tasks| - 1] == created;
      }
    }

    /** The "back" button of the create form discards both entries. */
    method CreateBack()
      requires Valid() && screen == CreateScreen
      modifies this
      ensures Valid()
      ensures State() == old(State()).(titleText := [], descText := [], screen := ListScreen)
    {
      titleText := [];
      descText := [];
      screen := ListScreen;
      selection := NoSelection;
    }

    /** `tasksList.OnSelected(id)`: the details of the task at `id` are shown. */
    method Select(id: nat)
      requires Valid() && screen == ListScreen && id < |tasks|
      modifies this
      ensures Valid()
      ensures State() == old(State()).(screen := DetailScreen(id), selection := Selected(id))
    {
      selection := Selected(id);
      screen := DetailScreen(id);
    }

    /** The "back" button of the details screen unselects the task. */
    method DetailBack()
      requires Valid() && screen.DetailScreen?
      modifies this
      ensures Valid()
      ensures State() == old(State()).(screen := ListScreen, selection := NoSelection)
    {
      screen := ListScreen;
      selection := NoSelection;
    }

    /** The callback of the delete confirmation dialog. Only a confirmed
        dialog deletes the shown task and re-reads the cache; either way the
        list is shown with nothing selected. */
    method DeleteConfirm(b: bool)
      requires Valid() && screen.DetailScreen?
      modifies this
      ensures Valid()
      ensures !b ==> State() == old(State()).(screen := ListScreen, selection := NoSelection)
      ensures b ==>
        db == DeleteById(old(db), old(tasks)[old(screen).index].id)
        && State() == old(State()).(db := db, tasks := db.rows, screen := ListScreen,
                                    selection := NoSelection, noTasksVisible := |db.rows| == 0)
      ensures b ==> tasks == old(tasks[..screen.index] + tasks[screen.index + 1..])
    {
      var i := screen.index;
      if b {
        DeleteAt(db, i);
        db := DeleteById(db, tasks[i].id);
        tasks := db.rows;
        if |tasks| == 0 {
          noTasksVisible := true;
        } else {
          noTasksVisible := false;
        }
      }
      selection := NoSelection;
      screen := ListScreen;
    }

    /** The "edit" button of the details screen opens the edit form filled
        with the selected task's title and description. */
    method Edit()
      requires Valid() && screen.DetailScreen?
      modifies this
      ensures Valid()
      ensures State() == old(State()).(screen := EditScreen(old(screen).index),
                                       editTitle := old(tasks)[old(screen).index].title,
                                       editDesc := old(tasks)[old(screen).index].description)
    {
      var i := screen.index;
      editTitle := tasks[i].title;
      editDesc := tasks[i].description;
      screen := EditScreen(i);
    }

    /** `editTitle.OnChanged`. */
    method EditTitleChanged(text: string)
      requires Valid() && screen.EditScreen?
      modifies this
      ensures Valid()
      ensures State() == old(State()).(editTitle := Collapse(text))
    {
      editTitle := CollapseSpaces(text);
    }

    /** `editDescription.OnChanged`. */
    method EditDescriptionChanged(text: string)
      requires Valid() && screen.EditScreen?
      modifies this
      ensures Valid()
      ensures State() == old(State()).(editDesc := Collapse(text))
    {
      editDesc := CollapseSpaces(text);
    }

    /** The "back" button of the edit form discards the edits and unselects. */
    method EditBack()
      requires Valid() && screen.EditScreen?
      modifies this
      ensures Valid()
      ensures State() == old(State()).(screen := ListScreen, selection := NoSelection)
    {
      screen := ListScreen;
      selection := NoSelection;
    }

    /** The "Save task" button of the edit form: the selected task gets the
        edited title and description, without any check that the title is
        blank, and the list is shown unselected. */
    method EditSave()
      requires Valid() && screen.EditScreen?
      modifies this
      ensures Valid()
      ensures db == UpdateById(old(db), old(tasks)[old(screen).index].id, old(editTitle), old(editDesc))
      ensures State() == old(State()).(db := db, tasks := db.rows, screen := ListScreen,
                                       selection := NoSelection)
      ensures var i := old(screen).index;
        tasks == old(tasks)[i := Task(old(tasks)[i].id, old(editTitle), old(editDesc))]
    {
      var i := screen.index;
      UpdateAt(db, i, editTitle, editDesc);
      db := UpdateById(db, tasks[i].id, editTitle, editDesc);
      tasks := db.rows;
      screen := ListScreen;
      selection := NoSelection;
    }
  }
}
