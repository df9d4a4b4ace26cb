/**
 * The state cells of the three components that hold state: the root `App`
 * (the task list and, beside it, the browser's stored snapshot), the entry
 * form `Enter` (its draft) and each row `Item` (its edit flag and edit
 * draft). Every handler runs as one atomic step: the state update and the
 * persistence effect that follows it.
 */
module Components {
  import opened Wrappers
  import opened Tasks
  import Text

  /** The root component: owner of the list and of the stored snapshot. */
  class App {
    /** The `items` state cell. */
    var items: seq<Task>
    /** The storage slot under the key 'items'; None when nothing was ever written. */
    var stored: Option<seq<Task>>

    /** What the persistence effect guarantees: a non-empty list is what is stored. */
    ghost predicate Synced()
      reads this
    {
      items != [] ==> stored == Some(items)
    }

    /**
     * Mounting: the load effect seeds the list from the slot (empty when the
     * slot is empty), then the persistence effect runs on the loaded list.
     */
    constructor (slot: Option<seq<Task>>)
      ensures items == slot.GetOr([])
      ensures stored == slot
      ensures Synced()
    {
      items := slot.GetOr([]);
      stored := slot;
      new;
      Persist();
    }

    /** The persistence effect: write the list, but only when it is non-empty. */
    method Persist()
      modifies this`stored
      ensures items != [] ==> stored == Some(items)
      ensures items == [] ==> stored == old(stored)
      ensures Synced()
    {
      if |items| > 0 {
        stored := Some(items);
      }
    }

    /** `handleAddItem`: append, then persist (the list is never empty after). */
    method AddItem(item: Task)
      modifies this
      ensures items == Add(old(items), item)
      ensures stored == Some(items)
    {
      items := Add(items, item);
      Persist();
    }

    /** `handleDeleteItem`: drop every task with `id`, then persist. */
    method DeleteItem(id: int)
      modifies this
      ensures items == Delete(old(items), id)
      ensures stored == if items == [] then old(stored) else Some(items)
      ensures Synced()
    {
      items := Delete(items, id);
      Persist();
    }

    /** `handleToggleItem`: flip `state` of every task with `id`, then persist. */
    method ToggleItem(id: int)
      modifies this
      ensures items == Toggle(old(items), id)
      ensures stored == if items == [] then old(stored) else Some(items)
      ensures Synced()
    {
      items := Toggle(items, id);
      Persist();
    }

    /** `handleEditItem`: set the text of every task with `id`, then persist. */
    method EditItem(id: int, text: string)
      modifies this
      ensures items == Edit(old(items), id, text)
      ensures stored == if items == [] then old(stored) else Some(items)
      ensures Synced()
    {
      items := Edit(items, id, text);
      Persist();
    }
  }

  /** The entry form `Enter`, with its draft bound to the text input. */
  class EntryForm {
    /** The `description` state cell. */
    var description: string

    constructor ()
      ensures description == ""
    {
      description := "";
    }

    /** The input's change handler. */
    method Change(text: string)
      modifies this
      ensures description == text
    {
      description := text;
    }

    /**
     * `handleSubmit`: only the exact empty draft is refused; any other draft,
     * white space alone included, becomes a new undone task stamped `now`,
     * and the draft is cleared.
     */
    method Submit(app: App, now: int)
      modifies this, app
      ensures old(description) == "" ==>
        description == "" && app.items == old(app.items) && app.stored == old(app.stored)
      ensures old(description) != "" ==>
        description == "" &&
        app.items == old(app.items) + [Task(now, old(description), false)] &&
        app.stored == Some(app.items)
    {
      if description == "" {
        return;
      }
      var newItem := Task(now, description, false);
      app.AddItem(newItem);
      description := "";
    }
  }

  /** One row `Item`: the task's id, the edit flag and the edit draft. */
  class ItemRow {
    /** The id of the task the row shows. */
    const id: int
    /** The `isEditing` state cell. */
    var isEditing: bool
    /** The `newDescription` state cell, seeded once from the task's text. */
    var newDescription: string

    constructor (item: Task)
      ensures id == item.id
      ensures !isEditing
      ensures newDescription == item.description
    {
      id := item.id;
      isEditing := false;
      newDescription := item.description;
    }

    /** `toggleEditMode`: switch between viewing and editing; the draft is kept. */
    method ToggleEditMode()
      modifies this`isEditing
      ensures isEditing == !old(isEditing)
    {
      isEditing := !isEditing;
    }

    /** `handleEditChange`: the edit input's change handler (the input exists only in edit mode). */
    method EditChange(text: string)
      requires isEditing
      modifies this`newDescription
      ensures newDescription == text
    {
      newDescription := text;
    }

    /**
     * `handleEditSubmit`: a draft that trims to nothing is refused and nothing
     * changes and the row stays in edit mode; otherwise the untrimmed draft
     * becomes the text of every task with this row's id and edit mode is
     * left. The edit form is rendered only in edit mode, so it can be
     * submitted only then.
     */
    method EditSubmit(app: App)
      requires isEditing
      modifies this`isEditing, app
      ensures Text.Blank(newDescription) ==>
        isEditing && app.items == old(app.items) && app.stored == old(app.stored)
      ensures !Text.Blank(newDescription) ==>
        !isEditing &&
        app.items == Edit(old(app.items), id, newDescription) &&
        app.stored == (if app.items == [] then old(app.stored) else Some(app.items))
    {
      if Text.Trim(newDescription) != "" {
        app.EditItem(id, newDescription);
        ToggleEditMode();
      }
    }

    /** The checkbox's change handler: toggle this row's task, in either mode. */
    method CheckboxChange(app: App)
      modifies app
      ensures app.items == Toggle(old(app.items), id)
      ensures app.stored == if app.items == [] then old(app.stored) else Some(app.items)
    {
      app.ToggleItem(id);
    }

    /** The delete icon's click handler: delete this row's task, in either mode. */
    method DeleteClick(app: App)
      modifies app
      ensures app.items == Delete(old(app.items), id)
      ensures app.stored == if app.items == [] then old(app.stored) else Some(app.items)
    {
      app.DeleteItem(id);
    }
  }

  /**
   * Deleting the only task leaves its snapshot stored, so the next mount
   * brings the deleted task back.
   */
  method ClearingLeavesStaleSnapshot(t: Task) returns (afterDelete: seq<Task>, reloaded: seq<Task>)
    ensures afterDelete == []
    ensures reloaded == [t]
  {
    var app := new App(None);
    app.AddItem(t);
    app.DeleteItem(t.id);
    afterDelete := app.items;
    var next := new App(app.stored);
    reloaded := next.items;
  }

  /** A non-empty list that was persisted is exactly what the next mount loads. */
  method PersistThenReload(app: App) returns (reloaded: seq<Task>)
    requires app.Synced() && app.items != []
    ensures reloaded == app.items
  {
    var next := new App(app.stored);
    reloaded := next.items;
  }
}
