# DocumentSignatureApp in Dafny

A model of the core of DocumentSignatureApp, a full-stack application in which
users upload PDF documents, then sign, reject or delete them. It has a Spring
backend and a React client.

**Server side**
- The document table holds rows, each moving through the statuses PENDING, SIGNED,
  REJECTED and DELETED.
- The document service stores uploads and produces signed copies.
- The document controller does the following:
  - validates uploads;
  - chooses the name printed on a signature;
  - rejects documents;
  - soft-deletes a document, but only for an ADMIN or the owner;
  - names downloads;
  - filters the listing by role.
- User registration is modelled twice: AuthController compares the role case-insensitively, and UserService
  uses the exact `Role.valueOf`. Login looks a user up by username or email.

**Client side**
- The session lives in `localStorage` under `user`.
- The request interceptor attaches `Bearer <token>`.
- The dashboard keeps and shows local state.

Modules follow the program's layers:

| module | models |
|---|---|
| `Entity` | `Document` (a class with its `@PrePersist` hook), `User`, the two enums |
| `Repository` | the two Spring Data repositories as classes over maps from id to row |
| `Dto` | the request and response records |
| `Service` | `DocumentService`, `UserService`, and the path and footer rules |
| `Controller` | `DocumentController`, `AuthController`; a reply is a status and a body |
| `Js`, `Api`, `AuthService` | JavaScript values, `localStorage`, `api.js`, `auth.service.js` |
| `Dashboard` | `Dashboard.js`: its state as a class, its pure rules as functions |
| `EndToEnd` | lemmas joining a client rule to the server rule it meets |

Support modules:
- `Text`: Java and JavaScript string operations.
- `UriComponent`: `encodeURIComponent` and its inverse `decodeURIComponent`.
- `Sequences`: `Array.prototype.filter`.
- `Java`: exceptions as an `Outcome`.
- `Wrappers`: `Option`.

**How Java behaviour is represented**
- A Java exception is `Thrown(e)`, and a normal return is `Normal(v)`.
- A Spring Data query returning `Optional` behaves as follows:
  - no matching row gives empty;
  - one matching row gives that row;
  - several matching rows throw `IncorrectResultSizeDataAccessException`.
- `save` of an entity with a null id persists it: the `@PrePersist` hook runs, then the next IDENTITY value is assigned.
  `save` of a stored entity merges it.

**Inputs**
The model does not read a clock, a random source, the file system, the PDF library, the password encoder,
the authentication manager or the JWT service. Each of them is a parameter of the operation that uses it:
- `now`, `millis`, `today` and `uuid` for the clock and random readings;
- `write` for the file step, which returns an IOException message when it fails, and `stamp` for the PDF step, which returns the exception it throws (an IOException, or an unchecked one such as iText's error for a file that is not a PDF);
- `encode`, `authenticate` and `generateToken` for the password encoder, the authentication manager and the JWT service.

On the client side, each of the following is a parameter: a dialog's answer, whether an HTTP request
succeeded, and the server's response.

**Where the code has a consequence worth knowing**
- The signed copy's path replaces every ".pdf" in the stored path (`String.replace`). A path without ".pdf" is therefore its own
  signed path, so the copy is written over the file being read (`Service.SignedPath`).
- Neither sign nor reject checks who the caller is. Only delete checks ownership.
- The download name depends on which side computes it. The server's check ignores case and the client's does not, so "a.PDF"
  downloads as "a.PDF" according to the server header and as "a.PDF.pdf" according to the client (`EndToEnd.DownloadNamesAgree`).
- The two registration paths disagree on "admin": AuthController makes an ADMIN, UserService throws (`EndToEnd.LowerCaseAdmin`).
- The dashboard gates the Sign and Reject buttons on a status of exactly `SIGNED`, while its badge compares the status
  upper-cased. For the four statuses the server stores, both agree (`EndToEnd.StoredStatusOnClient`).

## Model

| member | source | states |
|---|---|---|
| Entity.Created | DocumentSignature-Backend/DocumentSignatureApp/src/main/java/com/deepika/DocumentSignatureApp/entity/Document.java:30-34 | the hook stamps createdAt, gives a null status PENDING, keeps a set status, and changes no other field |
| Entity.CreatedTwice | DocumentSignature-Backend/DocumentSignatureApp/src/main/java/com/deepika/DocumentSignatureApp/entity/Document.java:33 | running the hook a second time keeps the status the first run chose |
| Entity.Document.OnCreate | DocumentSignature-Backend/DocumentSignatureApp/src/main/java/com/deepika/DocumentSignatureApp/entity/Document.java:30-34 | the entity's new state is Created of its old state at the given clock reading |
| Entity.Document.Build | DocumentSignature-Backend/DocumentSignatureApp/src/main/java/com/deepika/DocumentSignatureApp/service/DocumentService.java:46-51 | a built document has the given name, path, type and owner, and a null id, status and creation time |
| Entity.RoleValueOf | DocumentSignature-Backend/DocumentSignatureApp/src/main/java/com/deepika/DocumentSignatureApp/service/UserService.java:29 | valueOf succeeds exactly for "USER" and "ADMIN", and the parsed role's name is the string |
| Repository.DocumentStore.FindById | DocumentSignature-Backend/DocumentSignatureApp/src/main/java/com/deepika/DocumentSignatureApp/repository/DocumentRepository.java:8 | null exactly for an unknown id; otherwise a fresh entity holding the stored row |
| Repository.DocumentStore.FindAll | DocumentSignature-Backend/DocumentSignatureApp/src/main/java/com/deepika/DocumentSignatureApp/controller/DocumentController.java:169 | every stored row is returned, and nothing that is not stored |
| Repository.DocumentStore.FindByUser | DocumentSignature-Backend/DocumentSignatureApp/src/main/java/com/deepika/DocumentSignatureApp/repository/DocumentRepository.java:10 | a row is returned exactly when it is stored and its user_id is the user's id |
| Repository.DocumentStore.Save | DocumentSignature-Backend/DocumentSignatureApp/src/main/java/com/deepika/DocumentSignatureApp/repository/DocumentRepository.java:8 | a new entity gets the hook's values and the next id; a stored entity overwrites its own row only; the id-per-row invariant is kept |
| Repository.UserStore.ExistsByEmail | DocumentSignature-Backend/DocumentSignatureApp/src/main/java/com/deepika/DocumentSignatureApp/controller/AuthController.java:52 | true exactly when some stored user has the email |
| Repository.UserStore.FindByEmail | DocumentSignature-Backend/DocumentSignatureApp/src/main/java/com/deepika/DocumentSignatureApp/controller/DocumentController.java:110-111 | empty exactly when no user has the email; a single match is that user; several matches throw |
| Repository.UserStore.FindByUsernameOrEmail | DocumentSignature-Backend/DocumentSignatureApp/src/main/java/com/deepika/DocumentSignatureApp/controller/AuthController.java:88-89 | the single user whose username or email is the identifier, or empty, or a throw when several users match |
| Repository.UserStore.SaveNew | DocumentSignature-Backend/DocumentSignatureApp/src/main/java/com/deepika/DocumentSignatureApp/service/UserService.java:33 | the saved user gets the next id and is the only row added |
| Repository.UserStore.UniqueEmailsFindOne | DocumentSignature-Backend/DocumentSignatureApp/src/main/java/com/deepika/DocumentSignatureApp/service/UserService.java:20-22 | while emails are unique, an email lookup meets at most one row |
| Service.Resolve | DocumentSignature-Backend/DocumentSignatureApp/src/main/java/com/deepika/DocumentSignatureApp/service/DocumentService.java:40 | resolving a name without '/' against any directory gives a path whose file name is that name |
| Service.StoredPath | DocumentSignature-Backend/DocumentSignatureApp/src/main/java/com/deepika/DocumentSignatureApp/service/DocumentService.java:39-40 | the stored file's name is the uuid, '_' and the original name (a null name is written "null") |
| Service.SignedPath | DocumentSignature-Backend/DocumentSignatureApp/src/main/java/com/deepika/DocumentSignatureApp/service/DocumentService.java:62 | a path whose only ".pdf" is at its end gets "_signed_<millis>" inserted before the extension; a path without ".pdf" is its own signed path |
| Service.Footer | DocumentSignature-Backend/DocumentSignatureApp/src/main/java/com/deepika/DocumentSignatureApp/service/DocumentService.java:71-72 | the footer starts with "Digitally Signed by: "; for a name without a line break, name and date read back from it |
| Service.RequestedRole | DocumentSignature-Backend/DocumentSignatureApp/src/main/java/com/deepika/DocumentSignatureApp/service/UserService.java:29 | USER exactly for a null role or "USER", ADMIN exactly for "ADMIN", and a throw for any other string |
| Service.DocumentService.SaveDocument | DocumentSignature-Backend/DocumentSignatureApp/src/main/java/com/deepika/DocumentSignatureApp/service/DocumentService.java:31-54 | a failed write throws an IOException and adds nothing; otherwise exactly one row is added, holding the original name, the stored path, the content type, PENDING, the uploader and the clock reading |
| Service.DocumentService.SignDocument | DocumentSignature-Backend/DocumentSignatureApp/src/main/java/com/deepika/DocumentSignatureApp/service/DocumentService.java:56-88 | an unknown id throws "Document not found"; a failed stamp throws the library's exception; either way nothing changes. Otherwise only that row changes: its path becomes the signed path and its status SIGNED |
| Service.UserService.Register | DocumentSignature-Backend/DocumentSignatureApp/src/main/java/com/deepika/DocumentSignatureApp/service/UserService.java:18-34 | a known email throws "Email already registered" and a role naming no constant throws; each throw adds no user and keeps the next id. Otherwise it adds one user under the next id, with no username, the request's email, the encoded password and the parsed role, and advances the next id. Unique emails stay unique |
| Controller.UploadRejection | DocumentSignature-Backend/DocumentSignatureApp/src/main/java/com/deepika/DocumentSignatureApp/controller/DocumentController.java:43-50 | an upload may proceed exactly when it is non-empty and its type is exactly "application/pdf"; each refusal carries its message |
| Controller.NameToPrint | DocumentSignature-Backend/DocumentSignatureApp/src/main/java/com/deepika/DocumentSignatureApp/controller/DocumentController.java:68-70 | the custom name when it is given and non-empty, the user's name otherwise |
| Controller.DownloadFileName | DocumentSignature-Backend/DocumentSignatureApp/src/main/java/com/deepika/DocumentSignatureApp/controller/DocumentController.java:146-149 | ".pdf" is appended exactly when the lower-cased name does not already end with it, so the result always ends with .pdf ignoring case |
| Controller.DownloadFileNameIdempotent | DocumentSignature-Backend/DocumentSignatureApp/src/main/java/com/deepika/DocumentSignatureApp/controller/DocumentController.java:146-149 | normalising a download name twice changes nothing |
| Controller.ContentDisposition | DocumentSignature-Backend/DocumentSignatureApp/src/main/java/com/deepika/DocumentSignatureApp/controller/DocumentController.java:154 | the header value is "attachment; filename=" followed by the file name between double quotes |
| Controller.TargetRole | DocumentSignature-Backend/DocumentSignatureApp/src/main/java/com/deepika/DocumentSignatureApp/controller/AuthController.java:57-65 | ADMIN exactly for a non-null role equal to "ADMIN" ignoring case; USER for anything else, null included |
| Controller.DocumentController.UploadDocument | DocumentSignature-Backend/DocumentSignatureApp/src/main/java/com/deepika/DocumentSignatureApp/controller/DocumentController.java:37-58 | an empty or non-PDF upload gets 400 and saves nothing; a failed write gets 500 and saves nothing; otherwise 200 with the new id and exactly one new row |
| Controller.DocumentController.SignDocument | DocumentSignature-Backend/DocumentSignatureApp/src/main/java/com/deepika/DocumentSignatureApp/controller/DocumentController.java:60-78 | signs under NameToPrint. An IOException gets 500 and changes nothing. An unknown id and any unchecked exception of the PDF library propagate and change nothing. Success gets 200 naming the signer and updates only that row's path and status |
| Controller.DocumentController.RejectDocument | DocumentSignature-Backend/DocumentSignatureApp/src/main/java/com/deepika/DocumentSignatureApp/controller/DocumentController.java:80-87 | an unknown id throws and changes nothing; otherwise that row alone becomes REJECTED, whatever it was |
| Controller.DocumentController.DeleteDocument | DocumentSignature-Backend/DocumentSignatureApp/src/main/java/com/deepika/DocumentSignatureApp/controller/DocumentController.java:106-130 | an unknown caller throws; an unknown id gets 404; an ADMIN or the owner gets 200 and that row alone becomes DELETED; anyone else gets 403. On every path except the soft delete, the table is unchanged |
| Controller.DocumentController.DownloadDocument | DocumentSignature-Backend/DocumentSignatureApp/src/main/java/com/deepika/DocumentSignatureApp/controller/DocumentController.java:132-161 | an unknown id or a null name gets 500; otherwise the stored file with "attachment; filename=\"<download name>\"" |
| Controller.DocumentController.GetAllDocuments | DocumentSignature-Backend/DocumentSignatureApp/src/main/java/com/deepika/DocumentSignatureApp/controller/DocumentController.java:162-175 | an ADMIN gets exactly the stored rows; anyone else gets exactly the rows they own |
| Controller.AuthController.Register | DocumentSignature-Backend/DocumentSignatureApp/src/main/java/com/deepika/DocumentSignatureApp/controller/AuthController.java:47-76 | a known email gets 400 and adds no user. Otherwise it adds one user with the request's email and username, the encoder's output as password and TargetRole as role, and replies 200. Unique emails stay unique |
| Controller.AuthController.Authenticate | DocumentSignature-Backend/DocumentSignatureApp/src/main/java/com/deepika/DocumentSignatureApp/controller/AuthController.java:78-93 | a refused login throws. Otherwise the user is the single one whose username or email is the identifier, and the reply is its token. No such user throws |
| Js.Or | DocumentSignature-Frontend/src/api.js:13 | the left operand when it is truthy, else the right; truthy exactly when either is |
| Api.Token | DocumentSignature-Frontend/src/api.js:13 | token when it is truthy; accessToken only when token is falsy |
| Api.Authorization | DocumentSignature-Frontend/src/api.js:8-20 | no header without a stored user; "Bearer " + the token when token or accessToken is truthy; no header when both are falsy |
| Api.Intercept | DocumentSignature-Frontend/src/api.js:7-23 | returns the same config; sets only the Authorization header, and only when Authorization yields one |
| AuthService.Login | DocumentSignature-Frontend/src/services/auth.service.js:15-23 | stores the response under "user" exactly when its token is truthy, with no other entry changed; always returns the response |
| AuthService.Logout | DocumentSignature-Frontend/src/services/auth.service.js:25-27 | the "user" entry is removed and nothing else; without one, nothing changes |
| AuthService.GetCurrentUser | DocumentSignature-Frontend/src/services/auth.service.js:29-32 | null exactly when no "user" entry exists, else that entry |
| AuthService.LoginThenCurrentUser | DocumentSignature-Frontend/src/services/auth.service.js:18-31 | after a login that stored its data, getCurrentUser returns that data |
| AuthService.LogoutThenCurrentUser | DocumentSignature-Frontend/src/services/auth.service.js:25-31 | after logout, getCurrentUser returns null |
| AuthService.LoginThenRequest | DocumentSignature-Frontend/src/services/auth.service.js:15-23 | a request after a login with a string token carries "Bearer <token>" |
| Dashboard.StatusBadge | DocumentSignature-Frontend/src/components/Dashboard.js:180-186 | Signed exactly for a status whose upper case is SIGNED, Rejected exactly for REJECTED, Pending for anything else and for null |
| Dashboard.StatusBadgeIgnoresCase | DocumentSignature-Frontend/src/components/Dashboard.js:181 | the badge of a status and of its upper case are the same |
| Dashboard.Visible | DocumentSignature-Frontend/src/components/Dashboard.js:260 | the rendered rows are exactly the documents not DELETED, each as often as in the list, in their original order |
| Dashboard.OffersSignAndReject | DocumentSignature-Frontend/src/components/Dashboard.js:273 | a document without the Sign and Reject buttons always shows the Signed badge |
| Dashboard.WithoutId | DocumentSignature-Frontend/src/components/Dashboard.js:157 | no document with the id remains; every other document is kept as often as before and in order |
| Dashboard.WithoutIdTwice | DocumentSignature-Frontend/src/components/Dashboard.js:157 | removing an id a second time removes nothing |
| Dashboard.ClientDownloadName | DocumentSignature-Frontend/src/components/Dashboard.js:171 | ".pdf" is appended exactly when the name does not end with it case-sensitively; a null name yields no download |
| Dashboard.ClientDownloadNameIdempotent | DocumentSignature-Frontend/src/components/Dashboard.js:171 | normalising the client download name twice changes nothing |
| Dashboard.SignUrl | DocumentSignature-Frontend/src/components/Dashboard.js:86-91 | a request is sent exactly for a non-empty name, whose URI-encoding is the customName parameter |
| Dashboard.Dashboard.ValidateAndSetFile | DocumentSignature-Frontend/src/components/Dashboard.js:46-52 | a file is accepted exactly when it is present and typed "application/pdf"; otherwise the selection is unchanged |
| Dashboard.Dashboard.HandleUpload | DocumentSignature-Frontend/src/components/Dashboard.js:54-75 | without a selected file nothing is sent and nothing changes. Otherwise the file is sent and loading ends false. A failed upload keeps the selection and the list; a successful one clears the selection and the list becomes the refetched one (unchanged if the refetch fails) |
| Dashboard.Dashboard.FetchDocuments | DocumentSignature-Frontend/src/components/Dashboard.js:16-23 | a response replaces the list; a failed request leaves it |
| Dashboard.Dashboard.HandleDelete | DocumentSignature-Frontend/src/components/Dashboard.js:144-163 | the request is sent exactly when confirmed; the list loses that id only when the request succeeded |
| UriComponent.DecodeEncode | DocumentSignature-Frontend/src/components/Dashboard.js:91 | decodeURIComponent gives back the string that encodeURIComponent encoded |
| UriComponent.Encode | DocumentSignature-Frontend/src/components/Dashboard.js:91 | an encoded name is no shorter than the name and holds only unreserved characters and '%', so no '&', '=' or '+' can split the query |
| UriComponent.Decode | DocumentSignature-Frontend/src/components/Dashboard.js:91 | text without '%' decodes to itself, and decoding never lengthens the text |
| EndToEnd.ClientAcceptedUpload | DocumentSignature-Backend/DocumentSignatureApp/src/main/java/com/deepika/DocumentSignatureApp/controller/DocumentController.java:43-50 | a file the client accepts passes the server's type check; an empty one is still refused as empty |
| EndToEnd.TypeChecksAgree | DocumentSignature-Frontend/src/components/Dashboard.js:47 | on non-empty files, the client's PDF check and the server's content-type check agree |
| EndToEnd.RoleParsersAgree | DocumentSignature-Backend/DocumentSignatureApp/src/main/java/com/deepika/DocumentSignatureApp/controller/AuthController.java:59-63 | wherever valueOf succeeds, the case-insensitive parse gives the same role |
| EndToEnd.LowerCaseAdmin | DocumentSignature-Backend/DocumentSignatureApp/src/main/java/com/deepika/DocumentSignatureApp/service/UserService.java:29 | "admin" is ADMIN to AuthController and an error to UserService |
| EndToEnd.DownloadNamesAgree | DocumentSignature-Frontend/src/components/Dashboard.js:171 | the two download names are equal exactly when the name ends in ".pdf" or does not end in it in any case |
| EndToEnd.DownloadNameMismatch | DocumentSignature-Backend/DocumentSignatureApp/src/main/java/com/deepika/DocumentSignatureApp/controller/DocumentController.java:147 | "a.PDF" is "a.PDF" to the server and "a.PDF.pdf" to the client |
| EndToEnd.SignNameRoundTrip | DocumentSignature-Backend/DocumentSignatureApp/src/main/java/com/deepika/DocumentSignatureApp/controller/DocumentController.java:68-70 | the name typed in the dialog arrives as customName and is the name printed |
| EndToEnd.StoredStatusOnClient | DocumentSignature-Frontend/src/components/Dashboard.js:273-278 | for a stored status, Signed is shown and Sign/Reject hidden exactly for SIGNED; Rejected is shown exactly for REJECTED |
| EndToEnd.DeletedNotVisible | DocumentSignature-Frontend/src/components/Dashboard.js:260 | a soft-deleted document is never rendered |

## Left out

**Runtime and library behaviour outside the model**
- HTTP and the libraries around it are not modelled:
  - Spring request mapping, CORS and security filters;
  - axios and its promises;
  - SweetAlert dialogs and the React rendering;
  - drag state.
  Each handler's network call and dialog is a parameter.
- The file system is not modelled: directory creation, `Files.copy` and `UrlResource` loading. The write is a parameter that may fail with an IOException.
  The download's file resource is its path.
- iText rendering is a parameter that may fail with any exception. This includes the footer's floating-point coordinates and font size.
  The footer text itself is modelled.
- `UUID.randomUUID`, `System.currentTimeMillis`, `LocalDate.now` and `LocalDateTime.now` are inputs.
  A date is the text `LocalDate.toString` gives.
- JWT generation, `PasswordEncoder` and `AuthenticationManager` are uninterpreted functions.
  The authentication manager's own user lookup is not modelled.
- Logging is not modelled: the `System.out.println` debug lines (AuthController.java:50, 61, 64), `console.log` and
  `console.warn` in the interceptor (api.js:17, 19) and `console.error` in fetchDocuments (Dashboard.js:21) have no effect on state.

**Modelling simplifications**
- JSON is not modelled: `JSON.stringify` and `JSON.parse` are taken to give the object back. localStorage holds the
  object, and malformed stored text, on which `JSON.parse` throws, is not modelled.
- JavaScript numbers are integers here. NaN and fractional ids do not occur in the data modelled.
- Case mapping covers ASCII plus the four characters whose simple case mapping lands in ASCII. It is exact for the ASCII words
  compared ("ADMIN", ".pdf", "SIGNED", "REJECTED"). It is not exact elsewhere:
  - Java's full `toLowerCase` turns the capital I with dot above into two characters, and `Lower` keeps it as one;
  - characters such as "ß" uppercase to two letters in JavaScript.
  Neither can change a comparison with those words.
- `Resolve` joins a directory and a name on a '/'-separated file system. It does not normalise repeated or trailing separators
  beyond one trailing '/'.

**Narrowed contracts and preconditions**
- Repository.DocumentStore.Save: requires the entity's id to be null or stored. JPA's merge of an entity with an unknown id is not
  modelled, because no caller does that.
- Repository.DocumentStore.FindByUser: it and findAll return sets of rows. List order is not modelled.
- RegisterRequest's email and password are taken as non-null. With a null email, Spring Data's derived queries would bind `email IS NULL` and match users stored without an email; that case is not modelled.
- The Document entity's `user` association is its owner's id. The rest of the owning user is not loaded.

**Client handlers left out**
- handleReject, handleComment and auth.service's `register` are only a dialog and an HTTP call (Dashboard.js:100-142,
  auth.service.js:6-13). The states they can reach are those of the server operations modelled.
