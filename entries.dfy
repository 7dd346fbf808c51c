/** The launcher's value type `LauncherEntry`, its two factory functions, and
    the validation the entry form performs before it creates or edits one. */
module Entries {
  import opened Text
  import opened Paths
  import opened Wrappers

  /** The two values of `entry_type` the program itself writes. */
  const AppType: string := "app"
  const SeparatorType: string := "separator"

  /** One registered item. `entryType` is kept as the string the document
      holds: the program writes only "app" and "separator", but it loads any
      string and treats everything that is not "separator" as an application. */
  datatype Entry = Entry(id: string, name: string, path: string, description: string, entryType: string)
  {
    predicate IsSeparator()
    {
      entryType == SeparatorType
    }
  }

  /** `LauncherEntry.from_file`: an application entry for a dropped file, named
      after the file without its directory and extension. `freshId` stands for
      the new uuid and `absPath` for `os.path.abspath(filepath)`, which depends
      on the working directory. */
  function FromFile(filepath: string, freshId: string, absPath: string): (e: Entry)
    ensures e.id == freshId && e.path == absPath
    ensures e.description == "" && e.entryType == AppType
    ensures e.name + Ext(Basename(filepath)) == Basename(filepath)
    ensures NoSep(e.name)
  {
    var base := Basename(filepath);
    RootHasNoSep(base);
    Entry(freshId, Root(base), absPath, "", AppType)
  }

  /** `LauncherEntry.create_separator`: a category marker with no path. */
  function CreateSeparator(name: string, freshId: string): (e: Entry)
    ensures e.id == freshId && e.name == name
    ensures e.IsSeparator() && e.path == "" && e.description == ""
  {
    Entry(freshId, name, "", "", SeparatorType)
  }

  /** What the entry form holds when the user presses Save: the raw text of
      the name, path and description fields and the type chosen in the combo
      box (index 1, "category", or index 0, "application"). */
  datatype Form = Form(nameText: string, pathText: string, descriptionText: string, isCategory: bool)

  /** Why the form refused to produce an entry. */
  datatype Rejection =
    | EmptyName     // the name is blank
    | EmptyPath     // an application without a path
    | NotConfirmed  // the path does not exist and the user said no

  /** The values the form writes into a new or edited entry. */
  datatype Fields = Fields(name: string, path: string, description: string, entryType: string)

  datatype Validation = Rejected(reason: Rejection) | Accepted(fields: Fields)

  /** The decisions of `EntryDialog.get_entry`. `pathExists` is
      `os.path.exists` of the stripped path and `confirmed` is the user's answer
      to the question asked when it is false. */
  function Validate(form: Form, pathExists: bool, confirmed: bool): (v: Validation)
    ensures v == Rejected(EmptyName) <==> AllSpace(form.nameText)
    ensures v == Rejected(EmptyPath) <==>
              !AllSpace(form.nameText) && !form.isCategory && AllSpace(form.pathText)
    ensures v == Rejected(NotConfirmed) <==>
              !AllSpace(form.nameText) && !form.isCategory && !AllSpace(form.pathText)
              && !pathExists && !confirmed
    ensures v.Accepted? ==>
              && v.fields.name == Strip(form.nameText)
              && v.fields.description == Strip(form.descriptionText)
              && (form.isCategory ==> v.fields.path == "" && v.fields.entryType == SeparatorType)
              && (!form.isCategory ==> v.fields.path == Strip(form.pathText) && v.fields.entryType == AppType)
  {
    StripEmptyIffAllSpace(form.nameText);
    StripEmptyIffAllSpace(form.pathText);
    var name := Strip(form.nameText);
    var desc := Strip(form.descriptionText);
    if name == "" then Rejected(EmptyName)
    else if form.isCategory then Accepted(Fields(name, "", desc, SeparatorType))
    else
      var path := Strip(form.pathText);
      if path == "" then Rejected(EmptyPath)
      else if !pathExists && !confirmed then Rejected(NotConfirmed)
      else Accepted(Fields(name, path, desc, AppType))
  }

  /** The invariant the creation boundary establishes: a trimmed non-empty
      name, a trimmed description, and either a category without a path or an
      application with a trimmed non-empty path. */
  predicate WellFormed(e: Entry)
  {
    && e.name != "" && Trimmed(e.name)
    && Trimmed(e.description)
    && ((e.entryType == SeparatorType && e.path == "")
        || (e.entryType == AppType && e.path != "" && Trimmed(e.path)))
  }

  /** The entry with the editable fields replaced and the id kept. */
  function WithFields(e: Entry, f: Fields): Entry
  {
    Entry(e.id, f.name, f.path, f.description, f.entryType)
  }

  /** `EntryDialog.get_entry`: `None` when validation fails; otherwise the
      edited entry (same id, new fields) when the dialog was opened on an
      entry, or a new entry with the fresh id. */
  function GetEntry(form: Form, pathExists: bool, confirmed: bool, editing: Option<Entry>, freshId: string): (r: Option<Entry>)
    ensures r.Some? <==> Validate(form, pathExists, confirmed).Accepted?
    ensures r.Some? ==> WellFormed(r.value)
    ensures r.Some? ==> r.value.id == (if editing.Some? then editing.value.id else freshId)
    ensures r.Some? ==> r.value.name == Strip(form.nameText) && r.value.description == Strip(form.descriptionText)
    ensures r.Some? && form.isCategory ==> r.value.IsSeparator() && r.value.path == ""
    ensures r.Some? && !form.isCategory ==> r.value.entryType == AppType && r.value.path == Strip(form.pathText)
  {
    match Validate(form, pathExists, confirmed)
    case Rejected(_) => None
    case Accepted(f) =>
      StripIsTrimmed(form.nameText);
      StripIsTrimmed(form.pathText);
      StripIsTrimmed(form.descriptionText);
      var base := if editing.Some? then editing.value else Entry(freshId, "", "", "", AppType);
      Some(WithFields(base, f))
  }

  /** A dialog pre-filled from an entry that carries the fresh id produces the
      same entry as an empty dialog: the result depends only on the form and
      the id, never on the pre-filled entry's other fields. */
  lemma GetEntryIgnoresPrefill(form: Form, pathExists: bool, confirmed: bool, e: Entry, freshId: string)
    requires e.id == freshId
    ensures GetEntry(form, pathExists, confirmed, Some(e), freshId) == GetEntry(form, pathExists, confirmed, None, freshId)
  {
  }

  /** The form as the dialog fills it in when it is opened on an entry. */
  function PrefilledForm(e: Entry): Form
  {
    Form(e.name, e.path, e.description, e.IsSeparator())
  }

  /** Saving the edit dialog of a well-formed entry without touching any field
      gives back the same entry (for an application whose path exists or
      whose missing path is confirmed). */
  lemma {:induction false} ResubmitUnchanged(e: Entry, pathExists: bool, confirmed: bool, freshId: string)
    requires WellFormed(e)
    requires e.IsSeparator() || pathExists || confirmed
    ensures GetEntry(PrefilledForm(e), pathExists, confirmed, Some(e), freshId) == Some(e)
  {
    var form := PrefilledForm(e);
    var f := Fields(e.name, if e.IsSeparator() then "" else e.path, e.description, e.entryType);
    assert Validate(form, pathExists, confirmed) == Accepted(f) by {
      StripTrimmed(e.name);
      StripTrimmed(e.description);
      StripTrimmed(e.path);
    }
    assert WithFields(e, f) == e;
  }
}
