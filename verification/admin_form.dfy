/** The project form of the admin panel: its state, the handlers that edit it
    and the multipart request it submits to the backend. */
module AdminForm {
  import opened JsValues
  import opened Seqs
  import opened JsStrings
  import opened Multipart
  import opened Reconcile
  import opened Tech
  import opened Repository

  /** The form state. `existingImages` is the keep list of an edited record;
      it is `None` after a reset, which leaves the field undefined. */
  datatype ProjectForm = ProjectForm(
    title: string,
    description: string,
    tech: string,
    github: string,
    live: string,
    images: seq<FileRef>,
    existingImages: Option<seq<string>>)

  /** The state the form starts in. */
  const InitialForm: ProjectForm := ProjectForm("", "", "", "", "", [], Some([]))

  /** The state `resetForm` sets: it does not set `existingImages`. */
  const ClearedForm: ProjectForm := ProjectForm("", "", "", "", "", [], None)

  /** Where a submit goes: POST `/projects` or PUT `/projects/:id`. */
  datatype Target = Post | Put(id: Id)

  datatype Request = Request(target: Target, entries: seq<Entry>)

  /** The keep list an edit starts from: the record's images when it has any,
      else its legacy image when that is truthy, else nothing. */
  function EditImages(p: Project): (r: seq<string>)
    ensures |p.images| > 0 ==> r == p.images
    ensures |p.images| == 0 ==> (|r| > 0 <==> Truthy(p.image))
    ensures |p.images| == 0 && Truthy(p.image) ==> r == [p.image.value]
    ensures forall x :: x in r ==> x in p.images || p.image == Some(x)
  {
    if |p.images| > 0 then p.images
    else if Truthy(p.image) then [p.image.value]
    else []
  }

  /** The form `handleEditClick` loads for a record. */
  function EditForm(p: Project): (r: ProjectForm)
    ensures r.title == p.title && r.description == p.description
    ensures r.images == [] && r.existingImages == Some(EditImages(p))
    ensures r.tech == Join(p.tech, ", ")
    ensures Truthy(p.github) ==> r.github == p.github.value
    ensures !Truthy(p.github) ==> r.github == ""
    ensures Truthy(p.live) ==> r.live == p.live.value
    ensures !Truthy(p.live) ==> r.live == ""
  {
    ProjectForm(p.title, p.description, Join(p.tech, ", "),
                OrElse(p.github, ""), OrElse(p.live, ""), [], Some(EditImages(p)))
  }

  /** One text entry per value, in order, all under `name`. */
  function TextEntries(name: string, values: seq<string>): (r: seq<Entry>)
    ensures |r| == |values|
    ensures forall i :: 0 <= i < |r| ==> r[i] == Entry(name, Text(values[i]))
  {
    if |values| == 0 then []
    else [Entry(name, Text(values[0]))] + TextEntries(name, values[1..])
  }

  /** One `images` file entry per selected file, in order. */
  function FileEntries(files: seq<FileRef>): (r: seq<Entry>)
    ensures |r| == |files|
    ensures forall i :: 0 <= i < |r| ==> r[i] == Entry("images", Upload(files[i]))
  {
    if |files| == 0 then []
    else [Entry("images", Upload(files[0]))] + FileEntries(files[1..])
  }

  function ScalarEntries(form: ProjectForm): seq<Entry>
  {
    [Entry("title", Text(form.title)), Entry("description", Text(form.description)),
     Entry("techStr", Text(form.tech)), Entry("github", Text(form.github)),
     Entry("live", Text(form.live))]
  }

  /** What is sent as `existingImages` in edit mode: the keep list when it is
      non-empty, otherwise a single empty string. */
  function KeepValues(existing: Option<seq<string>>): (r: seq<string>)
    ensures |r| >= 1
  {
    if existing.Some? && |existing.value| > 0 then existing.value else [""]
  }

  /** The entries `handleSubmitProject` appends, in order: the five text
      fields, the selected files, and in edit mode the keep list. */
  function EncodeForm(form: ProjectForm, editing: bool): seq<Entry>
  {
    ScalarEntries(form) + FileEntries(form.images)
    + (if editing then TextEntries("existingImages", KeepValues(form.existingImages)) else [])
  }

  lemma {:induction false} TextEntriesAppend(name: string, a: seq<string>, b: seq<string>)
    ensures TextEntries(name, a + b) == TextEntries(name, a) + TextEntries(name, b)
  {
    if |a| == 0 {
      assert a + b == b;
    } else {
      assert (a + b)[1..] == a[1..] + b;
      TextEntriesAppend(name, a[1..], b);
    }
  }

  lemma {:induction false} FileEntriesAppend(a: seq<FileRef>, b: seq<FileRef>)
    ensures FileEntries(a + b) == FileEntries(a) + FileEntries(b)
  {
    if |a| == 0 {
      assert a + b == b;
    } else {
      assert (a + b)[1..] == a[1..] + b;
      FileEntriesAppend(a[1..], b);
    }
  }

  /** Text entries under `name` carry exactly their values under `name`, and
      nothing under any other name and no files. */
  lemma TextEntriesValues(name: string, values: seq<string>, other: string)
    ensures TextValues(TextEntries(name, values), name) == values
    ensures other != name ==> TextValues(TextEntries(name, values), other) == []
    ensures Files(TextEntries(name, values), other) == []
  {
    TextEntriesOwn(name, values);
    TextEntriesOther(name, values, other);
  }

  lemma {:induction false} TextEntriesOwn(name: string, values: seq<string>)
    ensures TextValues(TextEntries(name, values), name) == values
  {
    if |values| > 0 {
      var e, rest := Entry(name, Text(values[0])), TextEntries(name, values[1..]);
      assert TextEntries(name, values) == [e] + rest;
      TextEntriesOwn(name, values[1..]);
      TextValuesCons(e, rest, name);
      assert values == [values[0]] + values[1..];
    }
  }

  lemma {:induction false} TextEntriesOther(name: string, values: seq<string>, other: string)
    ensures other != name ==> TextValues(TextEntries(name, values), other) == []
    ensures Files(TextEntries(name, values), other) == []
  {
    if |values| > 0 {
      var e, rest := Entry(name, Text(values[0])), TextEntries(name, values[1..]);
      assert TextEntries(name, values) == [e] + rest;
      TextEntriesOther(name, values[1..], other);
      TextValuesCons(e, rest, other);
      FilesCons(e, rest, other);
    }
  }

  /** File entries carry the files, in order, and no text. */
  lemma {:induction false} FileEntriesValues(files: seq<FileRef>, name: string)
    ensures Files(FileEntries(files), "images") == files
    ensures TextValues(FileEntries(files), name) == []
  {
    if |files| > 0 {
      var e, rest := Entry("images", Upload(files[0])), FileEntries(files[1..]);
      assert FileEntries(files) == [e] + rest;
      FileEntriesValues(files[1..], name);
      FilesCons(e, rest, "images");
      TextValuesCons(e, rest, name);
      assert files == [files[0]] + files[1..];
    }
  }

  lemma {:induction false} ScalarTextValues(form: ProjectForm, name: string)
    ensures TextValues(ScalarEntries(form), name)
            == (if name == "title" then [form.title] else [])
               + (if name == "description" then [form.description] else [])
               + (if name == "techStr" then [form.tech] else [])
               + (if name == "github" then [form.github] else [])
               + (if name == "live" then [form.live] else [])
  {
    var es := ScalarEntries(form);
    assert es == [es[0]] + ([es[1]] + ([es[2]] + ([es[3]] + ([es[4]] + []))));
    TextValuesCons(es[4], [], name);
    TextValuesCons(es[3], [es[4]] + [], name);
    TextValuesCons(es[2], [es[3]] + ([es[4]] + []), name);
    TextValuesCons(es[1], [es[2]] + ([es[3]] + ([es[4]] + [])), name);
    TextValuesCons(es[0], [es[1]] + ([es[2]] + ([es[3]] + ([es[4]] + []))), name);
  }

  lemma ScalarEntriesValues(form: ProjectForm)
    ensures TextValues(ScalarEntries(form), "title") == [form.title]
    ensures TextValues(ScalarEntries(form), "description") == [form.description]
    ensures TextValues(ScalarEntries(form), "techStr") == [form.tech]
    ensures TextValues(ScalarEntries(form), "github") == [form.github]
    ensures TextValues(ScalarEntries(form), "live") == [form.live]
    ensures TextValues(ScalarEntries(form), "existingImages") == []
  {
    ScalarTextValues(form, "title");
    ScalarTextValues(form, "description");
    ScalarTextValues(form, "techStr");
    ScalarTextValues(form, "github");
    ScalarTextValues(form, "live");
    ScalarTextValues(form, "existingImages");
  }

  lemma ScalarEntriesHaveNoFiles(form: ProjectForm)
    ensures Files(ScalarEntries(form), "images") == []
  {
    var es := ScalarEntries(form);
    assert es == [es[0]] + ([es[1]] + ([es[2]] + ([es[3]] + ([es[4]] + []))));
    FilesCons(es[4], [], "images");
    FilesCons(es[3], [es[4]] + [], "images");
    FilesCons(es[2], [es[3]] + ([es[4]] + []), "images");
    FilesCons(es[1], [es[2]] + ([es[3]] + ([es[4]] + [])), "images");
    FilesCons(es[0], [es[1]] + ([es[2]] + ([es[3]] + ([es[4]] + []))), "images");
  }

  /** The keep entries, sent only in edit mode. */
  function KeepEntries(form: ProjectForm, editing: bool): (r: seq<Entry>)
    ensures EncodeForm(form, editing) == ScalarEntries(form) + FileEntries(form.images) + r
  {
    if editing then TextEntries("existingImages", KeepValues(form.existingImages)) else []
  }

  /** The text values sent under each name, taken apart by the parts of the request. */
  lemma EncodeFormValues(form: ProjectForm, editing: bool, name: string)
    ensures TextValues(EncodeForm(form, editing), name)
            == TextValues(ScalarEntries(form), name) + TextValues(KeepEntries(form, editing), name)
  {
    var a, b, keep := ScalarEntries(form), FileEntries(form.images), KeepEntries(form, editing);
    TextValuesAppend(a + b, keep, name);
    TextValuesAppend(a, b, name);
    FileEntriesValues(form.images, name);
  }

  /** Every submit sends the five text fields once each, blank ones as "", so
      the server reads each of them as the form's text. */
  lemma ScalarsAlwaysSent(form: ProjectForm, editing: bool)
    ensures RequestFields(EncodeForm(form, editing))
            == Fields(Some(form.title), Some(form.description), Some(form.tech),
                      Some(form.github), Some(form.live))
  {
    ScalarEntriesValues(form);
    var keep := KeepValues(form.existingImages);
    EncodeFormValues(form, editing, "title");
    EncodeFormValues(form, editing, "description");
    EncodeFormValues(form, editing, "techStr");
    EncodeFormValues(form, editing, "github");
    EncodeFormValues(form, editing, "live");
    if editing {
      TextEntriesValues("existingImages", keep, "title");
      TextEntriesValues("existingImages", keep, "description");
      TextEntriesValues("existingImages", keep, "techStr");
      TextEntriesValues("existingImages", keep, "github");
      TextEntriesValues("existingImages", keep, "live");
    }
  }

  /** The selected files reach the server as the upload list, in order. */
  lemma FilesInOrder(form: ProjectForm, editing: bool)
    ensures Files(EncodeForm(form, editing), "images") == form.images
  {
    var a, b, keep := ScalarEntries(form), FileEntries(form.images), KeepEntries(form, editing);
    FilesAppend(a + b, keep, "images");
    FilesAppend(a, b, "images");
    FileEntriesValues(form.images, "images");
    ScalarEntriesHaveNoFiles(form);
    if editing {
      TextEntriesValues("existingImages", KeepValues(form.existingImages), "images");
    }
  }

  /** On the wire: create sends no keep field; edit sends one entry per kept
      URL, or a single "" when the list is empty or unset. */
  lemma KeepFieldOnTheWire(form: ProjectForm, editing: bool)
    ensures !editing ==> BodyField(EncodeForm(form, editing), "existingImages") == Absent
    ensures editing ==> TextValues(EncodeForm(form, editing), "existingImages")
                        == KeepValues(form.existingImages)
  {
    ScalarEntriesValues(form);
    EncodeFormValues(form, editing, "existingImages");
    if editing {
      TextEntriesValues("existingImages", KeepValues(form.existingImages), "existingImages");
    }
  }

  /** The server decodes the edit-mode keep field back to the form's list, so
      "keep none" and "keep exactly these" both arrive as meant. */
  lemma KeepFieldRoundTrip(form: ProjectForm, previous: seq<string>)
    requires form.existingImages.Some? ==> NoEmptyEntries(form.existingImages.value)
    ensures KeptImages(BodyField(EncodeForm(form, true), "existingImages"), previous)
            == if form.existingImages.Some? then form.existingImages.value else []
  {
    KeepFieldOnTheWire(form, true);
    var xs := KeepValues(form.existingImages);
    if form.existingImages.Some? && |form.existingImages.value| > 0 {
      FilterKeepsAll(xs, (img: string) => img != "");
      if |xs| == 1 {
        assert [xs[0]] == xs;
      }
    } else {
      assert xs == [""];
    }
  }

  /** The end-to-end edit: loading a record into the form and submitting it
      unchanged, with no new files, saves the same record and destroys
      nothing, when its tech entries are clean, its images non-empty URLs,
      and it has no legacy image lying outside its empty list. */
  lemma EditUnchangedKeepsRecord(p: Project)
    requires forall i :: 0 <= i < |p.tech| ==> CleanTechEntry(p.tech[i])
    requires NoEmptyEntries(p.images)
    requires |p.images| > 0 || !Truthy(p.image)
    ensures var entries := EncodeForm(EditForm(p), true);
            var rec := ReconcileImages(p.images, BodyField(entries, "existingImages"), []);
            ApplyUpdate(p, RequestFields(entries), rec.finalImages) == p && rec.toDelete == []
  {
    var form := EditForm(p);
    var entries := EncodeForm(form, true);
    var keep := BodyField(entries, "existingImages");
    ScalarsAlwaysSent(form, true);
    KeepFieldRoundTrip(form, p.images);
    TechJoinRoundTrip(p.tech);
    var rec := ReconcileImages(p.images, keep, []);
    FinalImagesOrder(p.images, keep, []);
    assert rec.finalImages == p.images;
    NoMemberIsEmpty(rec.toDelete);
  }

  /** Editing a record that has only a legacy image moves that image into
      the list: the saved record has it as its one image, and keeps the
      legacy field as it was. */
  lemma EditMovesLegacyImage(p: Project)
    requires |p.images| == 0 && Truthy(p.image)
    ensures var entries := EncodeForm(EditForm(p), true);
            var rec := ReconcileImages(p.images, BodyField(entries, "existingImages"), []);
            var saved := ApplyUpdate(p, RequestFields(entries), rec.finalImages);
            saved.images == [p.image.value] && saved.image == p.image && rec.toDelete == []
  {
    var form := EditForm(p);
    var entries := EncodeForm(form, true);
    var keep := BodyField(entries, "existingImages");
    KeepFieldRoundTrip(form, p.images);
    FinalImagesOrder(p.images, keep, []);
    NoMemberIsEmpty(ReconcileImages(p.images, keep, []).toDelete);
  }

  /** `files.forEach((file) => formData.append("images", file))`. */
  method AppendFiles(prefix: seq<Entry>, files: seq<FileRef>) returns (entries: seq<Entry>)
    ensures entries == prefix + FileEntries(files)
  {
    entries := prefix;
    var i := 0;
    while i < |files|
      invariant 0 <= i <= |files|
      invariant entries == prefix + FileEntries(files[..i])
    {
      FileEntriesAppend(files[..i], [files[i]]);
      assert files[..i + 1] == files[..i] + [files[i]];
      entries := entries + [Entry("images", Upload(files[i]))];
      i := i + 1;
    }
    assert files[..i] == files;
  }

  /** `values.forEach((v) => formData.append(name, v))`. */
  method AppendTexts(prefix: seq<Entry>, name: string, values: seq<string>) returns (entries: seq<Entry>)
    ensures entries == prefix + TextEntries(name, values)
  {
    entries := prefix;
    var j := 0;
    while j < |values|
      invariant 0 <= j <= |values|
      invariant entries == prefix + TextEntries(name, values[..j])
    {
      TextEntriesAppend(name, values[..j], [values[j]]);
      assert values[..j + 1] == values[..j] + [values[j]];
      entries := entries + [Entry(name, Text(values[j]))];
      j := j + 1;
    }
    assert values[..j] == values;
  }

  /** The admin panel's project-form state. */
  class AdminPanel {
    var form: ProjectForm
    var isEditing: bool
    var currentProjectId: Option<Id>

    ghost predicate Valid()
      reads this
    {
      (isEditing <==> currentProjectId.Some?) && (isEditing ==> form.existingImages.Some?)
    }

    constructor ()
      ensures Valid() && form == InitialForm && !isEditing
    {
      form := InitialForm;
      isEditing := false;
      currentProjectId := None;
    }

    /** `handleFileChange`: the chosen files go after those already selected. */
    method FileChange(files: seq<FileRef>)
      requires Valid()
      modifies this`form
      ensures Valid()
      ensures form == old(form).(images := old(form.images) + files)
    {
      form := form.(images := form.images + files);
    }

    /** `handleRemoveNewImage`: drops the selected file at `k`. */
    method RemoveNewImage(k: int)
      requires Valid()
      modifies this`form
      ensures Valid()
      ensures form == old(form).(images := DropIndex(old(form.images), k))
    {
      form := form.(images := DropIndex(form.images, k));
    }

    /** `handleRemoveExistingImage`: drops the kept URL at `k`. */
    method RemoveExistingImage(k: int)
      requires Valid() && form.existingImages.Some?
      modifies this`form
      ensures Valid()
      ensures form == old(form).(existingImages := Some(DropIndex(old(form.existingImages.value), k)))
    {
      form := form.(existingImages := Some(DropIndex(form.existingImages.value, k)));
    }

    /** `handleEditClick`: edit mode for the record `id`, with its form loaded. */
    method EditClick(p: Project, id: Id)
      modifies this
      ensures Valid()
      ensures isEditing && currentProjectId == Some(id) && form == EditForm(p)
    {
      isEditing := true;
      currentProjectId := Some(id);
      form := EditForm(p);
    }

    /** `handleCancelEdit`: leaves edit mode and resets the form. */
    method CancelEdit()
      modifies this
      ensures Valid()
      ensures !isEditing && currentProjectId == None && form == ClearedForm
    {
      isEditing := false;
      currentProjectId := None;
      form := ClearedForm;
    }

    /** The request `handleSubmitProject` sends, built append by append. */
    method Submit() returns (req: Request)
      requires Valid()
      ensures req.target == if isEditing then Put(currentProjectId.value) else Post
      ensures req.entries == EncodeForm(form, isEditing)
    {
      var entries: seq<Entry> := [];
      entries := entries + [Entry("title", Text(form.title))];
      entries := entries + [Entry("description", Text(form.description))];
      entries := entries + [Entry("techStr", Text(form.tech))];
      entries := entries + [Entry("github", Text(form.github))];
      entries := entries + [Entry("live", Text(form.live))];
      assert entries == ScalarEntries(form);
      entries := AppendFiles(entries, form.images);
      if isEditing {
        if form.existingImages.Some? && |form.existingImages.value| > 0 {
          entries := AppendTexts(entries, "existingImages", form.existingImages.value);
        } else {
          assert TextEntries("existingImages", [""]) == [Entry("existingImages", Text(""))];
          entries := entries + [Entry("existingImages", Text(""))];
        }
      }
      req := Request(if isEditing then Put(currentProjectId.value) else Post, entries);
    }

    /** After a successful submit: an edit leaves edit mode; both reset the form. */
    method SubmitSucceeded()
      requires Valid()
      modifies this
      ensures Valid()
      ensures !isEditing && currentProjectId == None && form == ClearedForm
    {
      if isEditing {
        isEditing := false;
        currentProjectId := None;
      }
      form := ClearedForm;
    }
  }
}
