/** The dialog of one tab: it edits the tab's name and forwards renaming,
    deleting and cleaning to the application, the last two through the
    confirmation dialog. Its read-only display of the tab's rows and their
    aggregate is `Aggregate.DisplayRows`. */
module ModalTab {
  import opened Basics
  import opened Entities
  import Mutations
  import App

  class ModalTab {
    const app: App.App
    const block: Tab
    var newName: string

    /** The name field starts out holding the tab's current name. */
    constructor (app: App.App, block: Tab)
      ensures this.app == app && this.block == block
      ensures newName == block.name
    {
      this.app := app;
      this.block := block;
      newName := block.name;
    }

    method SetNewName(name: string)
      modifies this`newName
      ensures newName == name
    {
      newName := name;
    }

    /** Saving renames the tab to the edited name and closes the dialog. */
    method HandleSave()
      modifies app`tabs, app`modalTab
      ensures app.tabs == Mutations.RenameTab(old(app.tabs), block.id, newName)
      ensures old(Mutations.Valid(app.State())) ==> Mutations.Valid(app.State())
      ensures app.modalTab.None?
    {
      app.RenameTab(block.id, newName);
      app.CloseModalTab();
    }

    /** Deleting only asks for confirmation, then closes the dialog. */
    method HandleDelete()
      modifies app`confirmation, app`modalTab
      ensures app.confirmation == Some(App.DeleteTabRequest(block.id))
      ensures app.modalTab.None?
    {
      app.OpenConfirmation(App.DeleteTabRequest(block.id));
      app.CloseModalTab();
    }

    /** Cleaning only asks for confirmation, then closes the dialog. */
    method ClickClean()
      modifies app`confirmation, app`modalTab
      ensures app.confirmation == Some(App.CleanTabRequest(block.id))
      ensures app.modalTab.None?
    {
      app.OpenConfirmation(App.CleanTabRequest(block.id));
      app.CloseModalTab();
    }

    /** A mouse press outside the dialog closes it; one inside leaves it open. */
    method HandleClickOutside(insideDialog: bool)
      modifies app`modalTab
      ensures insideDialog ==> app.modalTab == old(app.modalTab)
      ensures !insideDialog ==> app.modalTab.None?
    {
      if !insideDialog {
        app.CloseModalTab();
      }
    }
  }
}
