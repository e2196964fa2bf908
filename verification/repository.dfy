/** The project records of the backend and the create, update and delete
    handlers of `/api/projects`, over an in-memory store of records. */
module Repository {
  import opened JsValues
  import opened Seqs
  import opened JsStrings
  import opened Multipart
  import opened Reconcile
  import opened Cloudinary
  import opened Tech

  type Id = nat

  /** A stored project; `image` is the legacy single image of older records. */
  datatype Project = Project(
    title: string,
    description: string,
    tech: seq<string>,
    github: Option<string>,
    live: Option<string>,
    image: Option<string>,
    images: seq<string>,
    createdAt: int)

  /** The text fields of a create or update request. */
  datatype Fields = Fields(
    title: Option<string>,
    description: Option<string>,
    techStr: Option<string>,
    github: Option<string>,
    live: Option<string>)

  datatype ApiError = ValidationError | NotFound

  function StatusCode(e: ApiError): int
  {
    match e
    case ValidationError => 400
    case NotFound => 404
  }

  function ErrorMessage(e: ApiError): string
  {
    match e
    case ValidationError => "Title and description are required"
    case NotFound => "Project not found"
  }

  datatype Result<T> = Success(value: T) | Failure(error: ApiError)

  const DeletedMessage: string := "Deleted successfully"

  /** A request field as a string: a field sent once is its text; a field not sent,
      or sent several times, is read as absent. */
  function AsText(v: BodyValue): (r: Option<string>)
    ensures r.Some? <==> v.Str?
    ensures v.Str? ==> r == Some(v.s)
  {
    if v.Str? then Some(v.s) else None
  }

  /** The text fields of a multipart request. */
  function RequestFields(entries: seq<Entry>): Fields
  {
    Fields(AsText(BodyField(entries, "title")), AsText(BodyField(entries, "description")),
           AsText(BodyField(entries, "techStr")), AsText(BodyField(entries, "github")),
           AsText(BodyField(entries, "live")))
  }

  /** The record POST `/api/projects` saves: 400 without a truthy title and
      description; otherwise the fields as sent, the parsed tech list and the
      uploaded images in upload order. */
  function CreateProject(f: Fields, uploads: seq<string>, now: int): (r: Result<Project>)
    ensures r.Failure? <==> !Truthy(f.title) || !Truthy(f.description)
    ensures r.Failure? ==> r.error == ValidationError && StatusCode(r.error) == 400
                           && ErrorMessage(r.error) == "Title and description are required"
    ensures r.Success? ==> r.value.title == f.title.value && r.value.description == f.description.value
                           && r.value.tech == ParseTechCreate(f.techStr)
                           && r.value.github == f.github && r.value.live == f.live
                           && r.value.images == uploads && r.value.image == None
                           && r.value.createdAt == now
  {
    if !Truthy(f.title) || !Truthy(f.description) then Failure(ValidationError)
    else Success(Project(f.title.value, f.description.value, ParseTechCreate(f.techStr),
                         f.github, f.live, None, uploads, now))
  }

  /** The record PUT `/api/projects/:id` saves: the reconciled images and, for
      each text field, the input when it is truthy and the stored value otherwise. */
  function ApplyUpdate(p: Project, f: Fields, finalImages: seq<string>): (r: Project)
    ensures r.images == finalImages
    ensures r.image == p.image && r.createdAt == p.createdAt
    ensures Truthy(f.title) ==> r.title == f.title.value
    ensures Truthy(f.description) ==> r.description == f.description.value
    ensures Truthy(f.github) ==> r.github == f.github
    ensures Truthy(f.live) ==> r.live == f.live
    ensures Truthy(f.techStr) ==> r.tech == UpdatedTech(f.techStr, p.tech)
  {
    p.(title := OrElse(f.title, p.title),
       description := OrElse(f.description, p.description),
       tech := UpdatedTech(f.techStr, p.tech),
       github := OrElseOpt(f.github, p.github),
       live := OrElseOpt(f.live, p.live),
       images := finalImages)
  }

  /** Partial update: a field is replaced by its input exactly when the input
      is truthy, and keeps its stored value otherwise; tech is re-parsed
      exactly when `techStr` is truthy. */
  lemma PartialUpdate(p: Project, f: Fields, finalImages: seq<string>)
    ensures var r := ApplyUpdate(p, f, finalImages);
            (r.title == if Truthy(f.title) then f.title.value else p.title)
            && (r.description == if Truthy(f.description) then f.description.value else p.description)
            && (r.github == if Truthy(f.github) then f.github else p.github)
            && (r.live == if Truthy(f.live) then f.live else p.live)
            && (r.tech == if Truthy(f.techStr) then UpdatedTech(f.techStr, p.tech) else p.tech)
            && (r.title != p.title ==> Truthy(f.title))
            && (r.description != p.description ==> Truthy(f.description))
            && (r.github != p.github ==> Truthy(f.github))
            && (r.live != p.live ==> Truthy(f.live))
            && (r.tech != p.tech ==> Truthy(f.techStr))
  {
  }

  /** A request whose text fields are all blank or missing changes nothing but the images. */
  lemma BlankUpdateKeepsFields(p: Project, f: Fields, finalImages: seq<string>)
    requires !Truthy(f.title) && !Truthy(f.description) && !Truthy(f.techStr)
    requires !Truthy(f.github) && !Truthy(f.live)
    ensures ApplyUpdate(p, f, finalImages) == p.(images := finalImages)
  {
  }

  /** Applying the same update twice is applying it once. */
  lemma UpdateIdempotent(p: Project, f: Fields, finalImages: seq<string>)
    ensures ApplyUpdate(ApplyUpdate(p, f, finalImages), f, finalImages) == ApplyUpdate(p, f, finalImages)
  {
  }

  datatype Created = Created(id: Id, project: Project)

  /** The stored projects by id, and the public ids handed to the blob store's
      destroy call, in the order the handlers issued them. */
  class ProjectStore {
    var projects: map<Id, Project>
    var nextId: Id
    var destroyCalls: seq<string>

    ghost predicate Valid()
      reads this
    {
      forall id :: id in projects ==> id < nextId
    }

    constructor ()
      ensures Valid()
      ensures projects == map[] && destroyCalls == []
    {
      projects := map[];
      nextId := 0;
      destroyCalls := [];
    }

    /** The cleanup loop: one destroy per Cloudinary URL, in list order. */
    method IssueDestroys(urls: seq<string>)
      modifies this`destroyCalls
      ensures destroyCalls == old(destroyCalls) + DestroyIds(urls)
    {
      var i := 0;
      while i < |urls|
        invariant 0 <= i <= |urls|
        invariant destroyCalls == old(destroyCalls) + DestroyIds(urls[..i])
      {
        var url := urls[i];
        if IsCloudinaryUrl(url) {
          destroyCalls := destroyCalls + [PublicId(url)];
        }
        DestroyIdsSnoc(urls, i);
        i := i + 1;
      }
      assert urls[..|urls|] == urls;
    }

    /** POST `/api/projects`. */
    method Create(f: Fields, uploads: seq<string>, now: int) returns (r: Result<Created>)
      requires Valid()
      modifies this
      ensures Valid() && destroyCalls == old(destroyCalls)
      ensures CreateProject(f, uploads, now).Failure? ==>
                r == Failure(ValidationError) && StatusCode(r.error) == 400
                && ErrorMessage(r.error) == "Title and description are required"
                && projects == old(projects) && nextId == old(nextId)
      ensures CreateProject(f, uploads, now).Success? ==>
                r.Success? && r.value.id !in old(projects)
                && r.value.project == CreateProject(f, uploads, now).value
                && projects == old(projects)[r.value.id := r.value.project]
    {
      var made := CreateProject(f, uploads, now);
      if made.Failure? {
        return Failure(ValidationError);
      }
      var id := nextId;
      nextId := nextId + 1;
      projects := projects[id := made.value];
      r := Success(Created(id, made.value));
    }

    /** PUT `/api/projects/:id`: 404 for an unknown id; otherwise destroys the
        orphaned images and saves the reconciled, partially updated record. */
    method Update(id: Id, f: Fields, uploads: seq<string>, keep: BodyValue) returns (r: Result<Project>)
      requires Valid()
      modifies this
      ensures Valid() && nextId == old(nextId)
      ensures id !in old(projects) ==>
                r == Failure(NotFound) && StatusCode(r.error) == 404
                && ErrorMessage(r.error) == "Project not found"
                && projects == old(projects) && destroyCalls == old(destroyCalls)
      ensures id in old(projects) ==>
                var rec := ReconcileImages(old(projects)[id].images, keep, uploads);
                r == Success(ApplyUpdate(old(projects)[id], f, rec.finalImages))
                && projects == old(projects)[id := r.value]
                && destroyCalls == old(destroyCalls) + DestroyIds(rec.toDelete)
    {
      if id !in projects {
        return Failure(NotFound);
      }
      var project := projects[id];
      var rec := ReconcileImages(project.images, keep, uploads);
      IssueDestroys(rec.toDelete);
      var saved := ApplyUpdate(project, f, rec.finalImages);
      projects := projects[id := saved];
      r := Success(saved);
    }

    /** DELETE `/api/projects/:id`: 404 for an unknown id; otherwise one destroy
        per Cloudinary image of the record, then the record is removed. */
    method Delete(id: Id) returns (r: Result<string>)
      requires Valid()
      modifies this
      ensures Valid() && nextId == old(nextId)
      ensures id !in old(projects) ==>
                r == Failure(NotFound) && StatusCode(r.error) == 404
                && ErrorMessage(r.error) == "Project not found"
                && projects == old(projects) && destroyCalls == old(destroyCalls)
      ensures id in old(projects) ==>
                r == Success(DeletedMessage)
                && projects == old(projects) - {id}
                && destroyCalls == old(destroyCalls) + DestroyIds(old(projects)[id].images)
    {
      if id !in projects {
        return Failure(NotFound);
      }
      var project := projects[id];
      if |project.images| > 0 {
        IssueDestroys(project.images);
      } else {
        assert DestroyIds(project.images) == [];
      }
      projects := projects - {id};
      r := Success(DeletedMessage);
    }
  }
}
