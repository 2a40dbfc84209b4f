/** DocumentController and AuthController: the server's HTTP endpoints, as status and body. */
module Controller {
  import opened Wrappers
  import opened Java
  import opened Text
  import opened Entity
  import opened Repository
  import opened Dto
  import opened Service

  /** What a ResponseEntity carries in the model. */
  datatype Body =
    | Message(text: string)
    | Documents(docs: set<DocumentRow>)
      /** a file resource with its Content-Disposition header */
    | Attachment(path: string, contentDisposition: string)
    | NoBody

  datatype Reply = Reply(status: int, body: Body)

  const OK := 200
  const BAD_REQUEST := 400
  const FORBIDDEN := 403
  const NOT_FOUND := 404
  const INTERNAL_SERVER_ERROR := 500

  const PDF := "application/pdf"

  /**
   * The upload checks, in order: an empty file, then a content type that is not
   * exactly "application/pdf". None when the upload may go ahead.
   */
  function UploadRejection(file: MultipartFile): (r: Option<string>)
    ensures r.None? <==> !file.IsEmpty() && file.contentType == Some(PDF)
    ensures file.IsEmpty() ==> r == Some("Please select a file to upload.")
    ensures !file.IsEmpty() && file.contentType != Some(PDF) ==> r == Some("Only PDF files are allowed.")
  {
    if file.IsEmpty() then Some("Please select a file to upload.")
    else if file.contentType != Some(PDF) then Some("Only PDF files are allowed.")
    else None
  }

  /** The name printed on a signature: the custom name when one was given and is not empty, else the user's name. */
  function NameToPrint(customName: Option<string>, username: string): (r: string)
    ensures customName.Some? && customName.value != "" ==> r == customName.value
    ensures customName.None? || customName.value == "" ==> r == username
  {
    if customName.Some? && customName.value != "" then customName.value else username
  }

  /** The server's download name: ".pdf" is added unless the name already ends with it, ignoring case. */
  function DownloadFileName(fileName: string): (r: string)
    ensures EndsWith(Lower(r), ".pdf")
    ensures EndsWith(Lower(fileName), ".pdf") ==> r == fileName
    ensures !EndsWith(Lower(fileName), ".pdf") ==> r == fileName + ".pdf"
  {
    if EndsWith(Lower(fileName), ".pdf") then fileName
    else
      LowerAppend(fileName, ".pdf");
      assert Lower(".pdf") == ".pdf";
      EndsWithAppended(Lower(fileName), ".pdf");
      fileName + ".pdf"
  }

  /** Normalising a download name twice changes nothing. */
  lemma DownloadFileNameIdempotent(fileName: string)
    ensures DownloadFileName(DownloadFileName(fileName)) == DownloadFileName(fileName)
  {
  }

  /** The Content-Disposition value of a download: an attachment whose quoted filename is the given one. */
  function ContentDisposition(filename: string): (header: string)
    ensures |header| == |filename| + 23
    ensures header[..22] == "attachment; filename=\"" && header[22..|header| - 1] == filename
    ensures header[|header| - 1] == '"'
  {
    "attachment; filename=\"" + filename + "\""
  }

  /** The role AuthController gives a request: ADMIN for any spelling of "ADMIN" up to case, otherwise USER. */
  function TargetRole(role: Option<string>): (r: Role)
    ensures r == ADMIN <==> role.Some? && EqualsIgnoreCase(role.value, "ADMIN")
    ensures role.None? ==> r == USER
  {
    if role.Some? && EqualsIgnoreCase(role.value, "ADMIN") then ADMIN else USER
  }

  /** DocumentController, over the document service, the document table and the user table. */
  class DocumentController {
    const service: DocumentService
    const repo: DocumentStore
    const users: UserStore

    ghost predicate Valid()
      reads repo
    {
      service.repo == repo && repo.Valid()
    }

    constructor (service: DocumentService, users: UserStore)
      requires service.repo.Valid()
      ensures Valid()
      ensures this.service == service && this.repo == service.repo && this.users == users
    {
      this.service := service;
      this.repo := service.repo;
      this.users := users;
    }

    /** uploadDocument: validate, then save; an IOException becomes a 500 reply. */
    method UploadDocument(file: MultipartFile, currentUser: User, uuid: string, now: Timestamp,
                          write: string -> Option<string>)
      returns (reply: Reply)
      requires Valid()
      modifies repo
      ensures Valid()
      ensures UploadRejection(file).Some? ==>
                reply == Reply(BAD_REQUEST, Message(UploadRejection(file).value))
                && repo.rows == old(repo.rows) && repo.nextId == old(repo.nextId)
      ensures UploadRejection(file).None? ==>
                var target := StoredPath(service.uploadDir, uuid, file.originalFilename);
                match write(target)
                case Some(e) =>
                  reply == Reply(INTERNAL_SERVER_ERROR, Message("Could not upload file: " + e))
                  && repo.rows == old(repo.rows) && repo.nextId == old(repo.nextId)
                case None =>
                  var id := old(repo.nextId);
                  && reply == Reply(OK, Message("Document uploaded successfully! ID: " + IntToString(id)))
                  && repo.rows == old(repo.rows)[id := DocumentRow(Some(id), file.originalFilename, target,
                                                                    Some(PDF), Some(PENDING), currentUser.id, Some(now))]
                  && repo.nextId == id + 1
    {
      if file.IsEmpty() {
        return Reply(BAD_REQUEST, Message("Please select a file to upload."));
      }
      if file.contentType != Some(PDF) {
        return Reply(BAD_REQUEST, Message("Only PDF files are allowed."));
      }
      var saved := service.SaveDocument(file, currentUser, uuid, now, write);
      match saved
      case Thrown(e) =>
        reply := Reply(INTERNAL_SERVER_ERROR, Message("Could not upload file: " + e.message));
      case Normal(doc) =>
        reply := Reply(OK, Message("Document uploaded successfully! ID: " + IntToString(doc.id.value)));
    }

    /**
     * signDocument: signs under NameToPrint(customName, username), where `username`
     * is the principal's getUsername(); an IOException becomes a 500 reply, while
     * an unknown id and the PDF library's unchecked exceptions propagate.
     */
    method SignDocument(id: int, customName: Option<string>, username: string, millis: nat, today: string,
                        stamp: (string, string, string) -> Option<Exception>)
      returns (r: Outcome<Reply>)
      requires Valid()
      modifies repo
      ensures Valid() && repo.nextId == old(repo.nextId)
      ensures id !in old(repo.rows) ==>
                r == Thrown(RuntimeException("Document not found")) && repo.rows == old(repo.rows)
      ensures id in old(repo.rows) ==>
                var d := old(repo.rows)[id];
                var name := NameToPrint(customName, username);
                var signed := SignedPath(d.filePath, millis);
                match stamp(d.filePath, signed, Footer(name, today))
                case Some(IOException(message)) =>
                  r == Normal(Reply(INTERNAL_SERVER_ERROR, Message("Error signing document: " + message)))
                  && repo.rows == old(repo.rows)
                case Some(e) =>
                  r == Thrown(e) && repo.rows == old(repo.rows)
                case None =>
                  r == Normal(Reply(OK, Message("Document signed successfully as: " + name)))
                  && repo.rows == old(repo.rows)[id := d.(filePath := signed, status := Some(SIGNED))]
    {
      var nameToPrint := NameToPrint(customName, username);
      var signed := service.SignDocument(id, nameToPrint, millis, today, stamp);
      match signed
      case Thrown(IOException(e)) =>
        r := Normal(Reply(INTERNAL_SERVER_ERROR, Message("Error signing document: " + e)));
      case Thrown(other) =>
        r := Thrown(other);
      case Normal(_) =>
        r := Normal(Reply(OK, Message("Document signed successfully as: " + nameToPrint)));
    }

    /** rejectDocument: any prior status becomes REJECTED; an unknown id throws. */
    method RejectDocument(id: int) returns (r: Outcome<Reply>)
      requires Valid()
      modifies repo
      ensures Valid() && repo.nextId == old(repo.nextId)
      ensures id !in old(repo.rows) ==>
                r == Thrown(RuntimeException("Document not found")) && repo.rows == old(repo.rows)
      ensures id in old(repo.rows) ==>
                r == Normal(Reply(OK, Message("Document rejected.")))
                && repo.rows == old(repo.rows)[id := old(repo.rows)[id].(status := Some(REJECTED))]
    {
      var doc := repo.FindById(id);
      if doc == null {
        return Thrown(RuntimeException("Document not found"));
      }
      doc.status := Some(REJECTED);
      // the entity is stored already, so save merges it and the creation hook's clock is not read
      var _ := repo.Save(doc, 0);
      r := Normal(Reply(OK, Message("Document rejected.")));
    }

    /**
     * deleteDocument: the caller is the user whose email is the authentication's
     * name. An ADMIN or the document's owner soft-deletes it; anyone else gets 403
     * and the table is left as it was.
     */
    method DeleteDocument(id: int, authName: string) returns (r: Outcome<Reply>)
      requires Valid()
      modifies repo
      ensures Valid() && repo.nextId == old(repo.nextId)
      ensures users.WithEmail(authName) == {} ==>
                r == Thrown(RuntimeException("User not found")) && repo.rows == old(repo.rows)
      ensures |users.WithEmail(authName)| > 1 ==>
                r == Thrown(IncorrectResultSizeDataAccessException(|users.WithEmail(authName)|))
                && repo.rows == old(repo.rows)
      ensures |users.WithEmail(authName)| == 1 && id !in old(repo.rows) ==>
                r == Normal(Reply(NOT_FOUND, NoBody)) && repo.rows == old(repo.rows)
      ensures |users.WithEmail(authName)| == 1 && id in old(repo.rows) ==>
                forall k :: k in users.WithEmail(authName) ==>
                  var caller := users.users[k];
                  if caller.role == ADMIN || old(repo.rows)[id].owner == caller.id then
                    r == Normal(Reply(OK, Message("Document deleted successfully")))
                    && repo.rows == old(repo.rows)[id := old(repo.rows)[id].(status := Some(DELETED))]
                  else
                    r == Normal(Reply(FORBIDDEN, Message("You can only delete your own documents!")))
                    && repo.rows == old(repo.rows)
    {
      var found := users.FindByEmail(authName);
      if found.Thrown? {
        return Thrown(found.exception);
      }
      if found.value.None? {
        return Thrown(RuntimeException("User not found"));
      }
      var currentUser := found.value.value;
      var k :| k in users.WithEmail(authName) && currentUser == users.users[k];
      SingletonMember(users.WithEmail(authName), k);
      var doc := repo.FindById(id);
      if doc == null {
        return Normal(Reply(NOT_FOUND, NoBody));
      }
      var isAdmin := currentUser.role == ADMIN;
      var isOwner := doc.owner == currentUser.id;
      if isAdmin || isOwner {
        doc.status := Some(DELETED);
        // a merge of the stored entity: the creation hook's clock is not read
        var _ := repo.Save(doc, 0);
        r := Normal(Reply(OK, Message("Document deleted successfully")));
      } else {
        r := Normal(Reply(FORBIDDEN, Message("You can only delete your own documents!")));
      }
    }

    /**
     * downloadDocument: the stored file under its download name; an unknown id or
     * a null file name is caught and answered with 500.
     */
    method DownloadDocument(id: int) returns (reply: Reply)
      ensures id !in repo.rows || repo.rows[id].fileName.None? ==> reply == Reply(INTERNAL_SERVER_ERROR, NoBody)
      ensures id in repo.rows && repo.rows[id].fileName.Some? ==>
                var d := repo.rows[id];
                reply == Reply(OK, Attachment(d.filePath, ContentDisposition(DownloadFileName(d.fileName.value))))
    {
      var document := repo.FindById(id);
      if document == null || document.fileName.None? {
        return Reply(INTERNAL_SERVER_ERROR, NoBody);
      }
      var filename := document.fileName.value;
      if !EndsWith(Lower(filename), ".pdf") {
        filename := filename + ".pdf";
      }
      reply := Reply(OK, Attachment(document.filePath, ContentDisposition(filename)));
    }

    /** getAllDocuments: an ADMIN sees every document, anyone else only their own. */
    method GetAllDocuments(currentUser: User) returns (reply: Reply)
      ensures reply.status == OK && reply.body.Documents?
      ensures forall d :: d in reply.body.docs <==>
                d in repo.rows.Values && (currentUser.role == ADMIN || d.owner == currentUser.id)
    {
      if RoleName(currentUser.role) == "ADMIN" {
        reply := Reply(OK, Documents(repo.FindAll()));
      } else {
        reply := Reply(OK, Documents(repo.FindByUser(currentUser)));
      }
    }
  }

  /** AuthController, over the user table. */
  class AuthController {
    const users: UserStore

    constructor (users: UserStore)
      ensures this.users == users
    {
      this.users := users;
    }

    /**
     * register: a known email gets 400 and adds no user; otherwise exactly one user
     * is added, with the request's email and username, the encoder's output as
     * password and TargetRole as role.
     */
    method Register(request: RegisterRequest, encode: string -> string) returns (reply: Reply)
      requires users.Valid()
      modifies users
      ensures users.Valid()
      ensures old(users.UniqueEmails()) ==> users.UniqueEmails()
      ensures old(users.ExistsByEmail(request.email)) ==>
                reply == Reply(BAD_REQUEST, Message("Error: Email is already in use!"))
                && users.users == old(users.users) && users.nextId == old(users.nextId)
      ensures !old(users.ExistsByEmail(request.email)) ==>
                && reply == Reply(OK, Message("User registered successfully"))
                && users.users == old(users.users)[old(users.nextId) :=
                     User(old(users.nextId), request.username, request.email, encode(request.password), TargetRole(request.role))]
                && users.nextId == old(users.nextId) + 1
    {
      if users.ExistsByEmail(request.email) {
        return Reply(BAD_REQUEST, Message("Error: Email is already in use!"));
      }
      var targetRole: Role;
      if request.role.Some? && EqualsIgnoreCase(request.role.value, "ADMIN") {
        targetRole := ADMIN;
      } else {
        targetRole := USER;
      }
      users.NoneWithEmail(request.email);
      var saved := users.SaveNew(NewUser(request.username, request.email, encode(request.password), targetRole));
      users.SaveFreshEmail(old(users.users), old(users.UniqueEmails()), saved);
      reply := Reply(OK, Message("User registered successfully"));
    }

    /**
     * authenticate (the login endpoint): `authenticate` is the AuthenticationManager's
     * verdict on the identifier and password, `generateToken` the JWT service. The
     * user is the one whose username or email is the identifier.
     */
    method Authenticate(request: LoginRequest, authenticate: (string, string) -> bool, generateToken: User -> string)
      returns (r: Outcome<AuthResponse>)
      ensures !authenticate(request.identifier, request.password) ==> r == Thrown(AuthenticationException)
      ensures authenticate(request.identifier, request.password) ==>
                match users.One(users.WithUsernameOrEmail(request.identifier))
                case Normal(None) => r == Thrown(NoSuchElementException)
                case Normal(Some(u)) => r == Normal(AuthResponse(generateToken(u)))
                case Thrown(e) => r == Thrown(e)
      ensures r.Normal? ==>
                exists k :: k in users.users
                  && (users.users[k].username == Some(request.identifier) || users.users[k].email == request.identifier)
                  && r.value.token == generateToken(users.users[k])
    {
      if !authenticate(request.identifier, request.password) {
        return Thrown(AuthenticationException);
      }
      var found := users.FindByUsernameOrEmail(request.identifier);
      match found
      case Thrown(e) =>
        r := Thrown(e);
      case Normal(None) =>
        r := Thrown(NoSuchElementException);
      case Normal(Some(u)) =>
        r := Normal(AuthResponse(generateToken(u)));
    }
  }
}
