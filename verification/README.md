# Portfolio projects: a Dafny model

A portfolio site keeps its projects in a small Express backend. Each project
record has a title, a description, a tech list, optional GitHub and live
links, a list of image URLs and, on older records, a single legacy image.
Images are uploaded to Cloudinary. An admin panel (React) creates, edits and
deletes projects with multipart requests. The public site shows the projects
as cards, with a lightbox that pages through each project's images.

This project models the core of the three parts:

- **The backend** (`backend/server.js`):
  - the create, update and delete handlers of `/api/projects`;
  - image reconciliation on update: the keep list, the final image list, and
    the images to delete;
  - the parsing of the comma-separated tech field on create and on update;
  - the partial update of text fields (`x || stored`);
  - how a Cloudinary public id is derived from an image URL;
  - the login decision;
  - the seeding of the admin account.
- **The admin panel** (`admin/src/App.jsx`):
  - the form state and the handlers that change it (choosing and removing
    files, removing kept images, loading a record for editing, cancelling,
    resetting);
  - the multipart request that a submit builds.
- **The public projects section** (`Protfolio/src/components/Projects.jsx`):
  - the lightbox state and its next, previous and thumbnail actions;
  - the card cover image and the tech badges.

Modules:

| module | file | contents |
|---|---|---|
| `JsValues` | js_values.dfy | optional (`undefined`) values, truthiness, `a \|\| b` |
| `Seqs` | seqs.dfy | `Array.prototype.filter`, filtering by index, subsequences |
| `JsStrings` | js_strings.dfy | `trim` over the ECMAScript whitespace set, `split` on one character, `join`, `includes` |
| `Multipart` | multipart.dfy | the entries a `FormData` carries, and how the body parser turns them into `req.body` fields and `req.files` |
| `Reconcile` | reconcile.dfy | the update handler's image reconciliation |
| `Cloudinary` | cloudinary.dfy | which URLs are destroyed, and under which public id |
| `Tech` | tech.dfy | the parsing of `techStr` on create and on update |
| `Repository` | repository.dfy | project records; the create, update and delete handlers over a `ProjectStore` class |
| `Auth` | auth.dfy | login and `seedAdmin`, over a `UserStore` class |
| `AdminForm` | admin_form.dfy | the admin panel's form state (`AdminPanel` class) and its request encoding |
| `Gallery` | gallery.dfy | the public cards and the lightbox (`Lightbox` class) |

How the model represents the outside world:

- A request body field is `Absent`, `Str` or `Arr`. Multer gives a text field
  sent once as a string and one sent several times as an array.
- Uploaded files reach the handlers as the URLs that Cloudinary storage puts
  in `file.path`, given in upload order.
- The handlers' calls to `cloudinary.uploader.destroy` are recorded, in the
  order they are issued, in `ProjectStore.destroyCalls`.
- `bcrypt.compare` and `jwt.sign` are function parameters of `Auth.Login`, and
  `bcrypt.hash` one of `Auth.UserStore.SeedAdmin`.

Where the code may surprise a reader, the model follows the code (the form's
own comment at `admin/src/App.jsx:36` calls the legacy field "for edit cleanup",
yet nothing cleans it up):

- On update, the tech list keeps empty pieces: `"a,,b"` yields three entries.
  On create, empty pieces are dropped (`Tech.UpdateKeepsEmptyTech`).
- The final image list is not deduplicated (`Reconcile.FinalImagesKeepDuplicates`).
- The keep list is not checked against the record's own images. A URL the
  record never had is saved as one of its images (`Reconcile.KeepListNotChecked`).
- The legacy `image` field is never destroyed or cleared, on update or on delete.
  An edit moves it into `images` and also leaves it in place
  (`AdminForm.EditMovesLegacyImage`).
- `resetForm` does not set `existingImages`, so after a reset the field is
  undefined rather than `[]` (`AdminForm.ClearedForm`).

## Model

| member | source | states |
|---|---|---|
| JsValues.OrElse | backend/server.js:269-270 | `a \|\| b` on strings is `a` when `a` is truthy, `b` otherwise |
| JsValues.OrElseOpt | backend/server.js:272-273 | `a \|\| b` on optional strings is `a` when `a` is truthy, `b` otherwise |
| Seqs.Filter | backend/server.js:243-245 | the filtered list holds exactly the members that satisfy the test, in order, as a subsequence |
| Seqs.FilterCounts | backend/server.js:243-245 | `filter` keeps every occurrence of an element that passes the test and none of the others |
| Seqs.DropIndexSpec | admin/src/App.jsx:101-106 | filtering out position `k` removes exactly the element at `k` and keeps the rest in order; an index outside the list changes nothing |
| JsStrings.TrimIsTrimmed | backend/server.js:180 | `trim` leaves no whitespace at either end |
| JsStrings.TrimIsSlice | backend/server.js:180 | `trim` removes only whitespace, from the two ends |
| JsStrings.TrimmedIsFixed | backend/server.js:180 | `trim` leaves a trimmed string unchanged |
| JsStrings.SplitPiecesLackSeparator | backend/server.js:179 | no piece of `split(sep)` contains the separator |
| JsStrings.JoinSplit | backend/server.js:179 | joining the pieces of a split with the separator gives back the string |
| JsStrings.SplitJoin | backend/server.js:179 | splitting a join of separator-free pieces gives back the pieces |
| JsStrings.ContainsInfix | backend/server.js:249 | `includes` holds for every string that has the text inside it |
| Multipart.BodyField | backend/server.js:218 | a field sent no times is absent, sent once is its text, sent two or more times is the list of its values in order |
| Reconcile.NonEmpty | backend/server.js:238 | the filter keeps exactly the non-empty entries, in order |
| Reconcile.NonEmptyCounts | backend/server.js:238 | every copy of a non-empty entry is kept, so a repeated URL stays repeated |
| Reconcile.KeptImages | backend/server.js:218-238 | the decoded keep list has no empty entry; when the field is missing it is drawn from the previous images |
| Reconcile.KeptImagesCases | backend/server.js:224-238 | the four wire shapes: missing keeps the previous images, `""` keeps none, one string keeps itself, an array keeps its non-empty entries |
| Reconcile.ReconcileImages | backend/server.js:240-245 | an image is deleted exactly when it was a previous image and is not in the final list, once per time it was stored (a URL stored twice is deleted twice); the deletions keep the previous order; the final list holds exactly the kept images and the uploads |
| Reconcile.FinalImagesOrder | backend/server.js:240 | the final list is the kept images followed by the uploads |
| Reconcile.AbsentKeepsEverything | backend/server.js:224-226 | without the keep field, every non-empty previous image is kept and nothing is deleted |
| Reconcile.AbsentAppendsUploads | backend/server.js:224-240 | without the keep field, the uploads are appended to the previous images |
| Reconcile.ExplicitEmptyDiscardsAll | backend/server.js:227-229 | an explicit `""` deletes every previous image and leaves only the uploads |
| Reconcile.ReconcileIdempotent | backend/server.js:218-245 | re-submitting the saved list as the keep list, with no uploads, changes and deletes nothing |
| Reconcile.KeepTwoUploadOne | backend/server.js:218-245 | keeping two of three images and uploading one gives those three in order, and deletes the third |
| Reconcile.FinalImagesKeepDuplicates | backend/server.js:240 | a kept URL that is uploaded again appears twice in the final list |
| Reconcile.KeepListNotChecked | backend/server.js:238-240 | a kept URL that was never one of the record's images is saved |
| Cloudinary.FileName | backend/server.js:253-254 | the text after the last slash: a slash-free suffix of the URL |
| Cloudinary.Stem | backend/server.js:255 | the text before the first dot: a dot-free prefix of the file name |
| Cloudinary.PublicId | backend/server.js:255 | the folder, a slash, then text with no slash and no dot |
| Cloudinary.PublicIdOf | backend/server.js:252-255 | for `<dir>/<stem>.<ext>` the public id is `portfolio_projects/<stem>` |
| Cloudinary.HostInUrl | backend/server.js:249 | every URL with `cloudinary.com` in it is destroyed |
| Cloudinary.DestroyIdsSpec | backend/server.js:248-261 | one destroy per Cloudinary URL; the destroyed ids are exactly the public ids of the Cloudinary URLs |
| Cloudinary.DestroyIdsPointwise | backend/server.js:248-261 | the `i`-th destroy is for the public id of the `i`-th Cloudinary URL in list order, so a URL listed twice is destroyed twice |
| Cloudinary.DestroyIdsNone | backend/server.js:249 | a list without Cloudinary URLs destroys nothing |
| Tech.ParseTechCreate | backend/server.js:177-182 | for a truthy `techStr`, update's list (the trimmed comma-separated pieces) with the empty entries dropped, so every entry is non-empty, trimmed and comma-free; a falsy `techStr` gives `[]` |
| Tech.UpdatedTech | backend/server.js:265-267 | for a truthy `techStr`, one entry per comma-separated piece, entry `i` being the trim of piece `i` (trimmed and comma-free); a falsy one keeps the stored list |
| Tech.UpdateKeepsEmptyTech | backend/server.js:177-182 | on `"a,,b"` update keeps an empty entry that create drops; otherwise the two lists agree |
| Tech.CreateTechExample | backend/server.js:177-182 | `"A, B ,, C"` parses to `["A", "B", "C"]` on create |
| Tech.TechJoinRoundTrip | backend/server.js:265-267 | the text `tech.join(", ")` parses back to the same clean list on update, and on create when no entry is empty |
| Repository.AsText | backend/server.js:161 | a field is read as text exactly when it was sent once, and then as the text sent |
| Repository.CreateProject | backend/server.js:160-191 | 400 exactly when the title or the description is falsy; otherwise the title, description and links as sent, the tech parsed by the create rule, the uploads in order, and no legacy image |
| Repository.ApplyUpdate | backend/server.js:263-273 | the saved images are the final list; each truthy text input replaces its field, and a truthy `techStr` replaces the tech by update's parse of it; the legacy image and the creation time are unchanged |
| Repository.PartialUpdate | backend/server.js:265-273 | each text field is replaced by its input exactly when the input is truthy and keeps its stored value otherwise; tech is re-parsed exactly when `techStr` is truthy |
| Repository.BlankUpdateKeepsFields | backend/server.js:265-273 | with every text input blank or missing, only the images change |
| Repository.UpdateIdempotent | backend/server.js:263-273 | applying the same update twice is applying it once |
| Repository.ProjectStore.IssueDestroys | backend/server.js:248-261 | the loop appends one destroy call per Cloudinary URL, in list order |
| Repository.ProjectStore.Create | backend/server.js:160-201 | 400 "Title and description are required" and no change on failed validation; otherwise the new record is stored under a fresh id and nothing is destroyed |
| Repository.ProjectStore.Update | backend/server.js:204-281 | 404 "Project not found" and no change for an unknown id; otherwise the record is replaced by the partially updated one with the reconciled images, and the orphaned Cloudinary images are destroyed |
| Repository.ProjectStore.Delete | backend/server.js:284-310 | 404 "Project not found" and no change for an unknown id; otherwise one destroy per Cloudinary image, the record removed, and "Deleted successfully" |
| Auth.FindUser | backend/server.js:119 | the account found has the name; none is found exactly when no account has it |
| Auth.Login | backend/server.js:116-138 | every failure is 401 "Invalid credentials"; a token is issued only to an account with that name whose hash matches, for `{id, username}` with expiry "1d"; with unique names, a token is issued exactly when such an account exists |
| Auth.SeedUsers | backend/server.js:92-100 | with an admin account the users are unchanged; otherwise the admin account is appended |
| Auth.AdminAccounts | backend/server.js:94 | the accounts with the admin's name |
| Auth.SeedIdempotent | backend/server.js:92-100 | seeding twice is seeding once |
| Auth.SeedAdminCount | backend/server.js:92-100 | seeding leaves exactly one admin where there was none, and never adds a second |
| Auth.SeedKeepsUnique | backend/server.js:72-74 | seeding keeps user names unique |
| Auth.SeededAdminCanLogin | backend/server.js:92-138 | after seeding, the admin logs in with the default password |
| Auth.UserStore.SeedAdmin | backend/server.js:92-106 | the store's users become the seeded list, the admin's hash being the default password hashed at 10 salt rounds, with names still unique |
| AdminForm.EditImages | admin/src/App.jsx:120-125 | the record's images when it has any, else exactly `[image]` for a truthy legacy image, else none |
| AdminForm.EditForm | admin/src/App.jsx:111-126 | the loaded form copies the title and description, has no files, the edit images as its keep list, the tech joined with ", ", each truthy link copied and a falsy one blank |
| AdminForm.TextEntries | admin/src/App.jsx:181-183 | one `name` text entry per value, entry `i` carrying value `i` |
| AdminForm.FileEntries | admin/src/App.jsx:169-171 | one `images` file entry per selected file, entry `i` carrying file `i` |
| AdminForm.AppendFiles | admin/src/App.jsx:168-172 | the `forEach` loop appends exactly the file entries of the selected files, in order, after what was there |
| AdminForm.AppendTexts | admin/src/App.jsx:181-183 | the `forEach` loop appends exactly one text entry per kept URL, in order, after what was there |
| AdminForm.ScalarsAlwaysSent | admin/src/App.jsx:161-166 | every submit sends the five text fields once each, so the server reads each as the form's text |
| AdminForm.FilesInOrder | admin/src/App.jsx:168-172 | the selected files reach the server as the uploads, in order |
| AdminForm.KeepFieldOnTheWire | admin/src/App.jsx:176-188 | a create sends no keep field; an edit sends the keep list, or one `""` when the list is empty or unset |
| AdminForm.KeepFieldRoundTrip | admin/src/App.jsx:176-188 | the server decodes the edit-mode keep field back to the form's list, with `[]` for an empty or unset one |
| AdminForm.EditUnchangedKeepsRecord | admin/src/App.jsx:108-188 | loading a clean record and submitting it unchanged saves the same record and destroys nothing |
| AdminForm.EditMovesLegacyImage | admin/src/App.jsx:120-125 | editing a record that has only a legacy image saves it as the one listed image and keeps the legacy field |
| AdminForm.AdminPanel.FileChange | admin/src/App.jsx:92-99 | the chosen files go after those already selected; nothing else changes |
| AdminForm.AdminPanel.RemoveNewImage | admin/src/App.jsx:101-106 | the selected file at the index is removed; nothing else changes |
| AdminForm.AdminPanel.RemoveExistingImage | admin/src/App.jsx:131-138 | the kept URL at the index is removed; nothing else changes |
| AdminForm.AdminPanel.EditClick | admin/src/App.jsx:108-129 | edit mode for the record's id, with its edit form loaded |
| AdminForm.AdminPanel.CancelEdit | admin/src/App.jsx:140-156 | leaves edit mode and resets the form, with no keep list |
| AdminForm.AdminPanel.Submit | admin/src/App.jsx:158-202 | the request goes to PUT for the edited id or to POST, and carries exactly the form's encoding |
| AdminForm.AdminPanel.SubmitSucceeded | admin/src/App.jsx:194-205 | after success the panel is out of edit mode and the form is reset |
| Gallery.GalleryImages | Protfolio/src/components/Projects.jsx:50-53 | the lightbox list is the record's images, or the legacy image alone; it is never empty |
| Gallery.NextIndex | Protfolio/src/components/Projects.jsx:43-56 | the next index stays in range: one more, or 0 after the last |
| Gallery.PrevIndex | Protfolio/src/components/Projects.jsx:58-68 | the previous index stays in range: one less, or the last before the first |
| Gallery.PrevUndoesNext | Protfolio/src/components/Projects.jsx:43-68 | next and previous undo each other |
| Gallery.NextCycles | Protfolio/src/components/Projects.jsx:55 | pressing next once per image returns to the starting image |
| Gallery.CardCover | Protfolio/src/components/Projects.jsx:97-127 | a photo exactly when the record has images or a truthy legacy image, and it is the lightbox's first image; otherwise the icon for the card's position, of three |
| Gallery.TechBadges | Protfolio/src/components/Projects.jsx:139-151 | the first three entries (all of them when there are at most three); a "+n" badge exactly when there are more, with n the number of the rest |
| Gallery.Lightbox.Shown | Protfolio/src/components/Projects.jsx:198-208 | the lightbox shows the image at the index of the lightbox list |
| Gallery.Lightbox.Open | Protfolio/src/components/Projects.jsx:32-36 | the record is selected and shown from its first image |
| Gallery.Lightbox.Close | Protfolio/src/components/Projects.jsx:38-41 | nothing is selected; the index is left as it was |
| Gallery.Lightbox.Next | Protfolio/src/components/Projects.jsx:43-56 | no change without a record; otherwise the next index |
| Gallery.Lightbox.Prev | Protfolio/src/components/Projects.jsx:58-68 | no change without a record; otherwise the previous index |
| Gallery.Lightbox.SelectThumbnail | Protfolio/src/components/Projects.jsx:258-270 | a thumbnail click shows that image |

## Left out

- GET `/api/projects` and its newest-first sort: it is a plain query.
- MongoDB itself, the 500 replies of every `try`/`catch`, and malformed ids are
  not modelled. An unknown id is a 404, and the store is an in-memory map.
- The 201 status of a successful create is not modelled; `Create` returns the stored record.
- Multer's limit of ten files and the `allowed_formats` list are left out.
  Uploads are given as the URLs Cloudinary storage returns.
- The destroy calls are async and never awaited. Their errors are swallowed,
  and the response does not depend on them. The model records which calls
  are issued, not their outcomes or their timing.
- `bcrypt` and `jwt` are cryptography: `matches`, `sign` and `hash` are parameters.
- Repository.AsText: a text field sent several times arrives as an array. The
  handlers would use it as an array, or save it as text; the model reads it as
  absent. The admin panel always sends each text field once (`AdminForm.ScalarsAlwaysSent`).
- Auth.Login: a request without a `username` or `password` is not modelled.
  The names are strings.
- A record whose `images` is missing is the same as one whose list is empty.
- AdminForm.AdminPanel.RemoveExistingImage requires a keep list. After a reset
  the list is undefined, and the source's `filter` on it would throw.
- The form's `image: null` field is not modelled: nothing reads it and it is never sent.
- `handleInputChange` is a plain assignment of one form field and is not modelled.
- Login and logout in the admin panel, fetching and deleting through axios,
  `alert`/`confirm`, `localStorage`, scrolling and `document.body` overflow are I/O.
- The card gradients, animations and all other rendering are left out; only
  the cover, the badges and the lightbox image are modelled.
