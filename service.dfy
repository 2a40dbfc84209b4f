/** DocumentService and UserService: the server's business operations on the two tables. */
module Service {
  import opened Wrappers
  import opened Java
  import opened Text
  import opened Entity
  import opened Repository
  import opened Dto

  /** A multipart upload as Spring hands it over: its size, original name and content type. */
  datatype MultipartFile = MultipartFile(size: nat, originalFilename: Option<string>, contentType: Option<string>) {
    predicate IsEmpty() {
      size == 0
    }
  }

  // ---- file paths ----

  /**
   * Paths.get(dir).resolve(name).toString() for a relative name on a '/'-separated
   * file system: the resolved file keeps the name it was given, whatever the directory.
   */
  function Resolve(dir: string, name: string): (r: string)
    ensures '/' !in name ==> FileNameOf(r) == name
  {
    if dir == [] then
      FileNameOfSuffix([], name);
      assert [] + name == name;
      name
    else if dir[|dir| - 1] == '/' then
      FileNameOfSuffix(dir, name);
      dir + name
    else
      FileNameOfSuffix(dir + "/", name);
      assert dir + "/" + name == (dir + "/") + name;
      dir + "/" + name
  }

  /** Path.getFileName(): what follows the last '/'. */
  function FileNameOf(path: string): string
    decreases |path|
  {
    if path == [] || path[|path| - 1] == '/' then []
    else FileNameOf(path[..|path| - 1]) + [path[|path| - 1]]
  }

  lemma {:induction false} FileNameOfSuffix(p: string, name: string)
    requires p == [] || p[|p| - 1] == '/'
    ensures '/' !in name ==> FileNameOf(p + name) == name
    decreases |name|
  {
    if '/' !in name {
      if name == [] {
        assert p + name == p;
      } else {
        var last := |name| - 1;
        assert (p + name)[..|p + name| - 1] == p + name[..last];
        FileNameOfSuffix(p, name[..last]);
        assert name[..last] + [name[last]] == name;
      }
    }
  }

  /** The name an upload is stored under: "<uuid>_<original name>", with a null name printed as "null". */
  function StoredName(uuid: string, originalFilename: Option<string>): string {
    uuid + "_" + Str(originalFilename)
  }

  /** The path an upload is written to; its own file name is "<uuid>_<original name>". */
  function StoredPath(uploadDir: string, uuid: string, originalFilename: Option<string>): (r: string)
    ensures '/' !in uuid + "_" + Str(originalFilename) ==> FileNameOf(r) == uuid + "_" + Str(originalFilename)
  {
    Resolve(uploadDir, StoredName(uuid, originalFilename))
  }

  /**
   * The path a signed copy is written to: every ".pdf" becomes "_signed_<millis>.pdf".
   * A path that ends in its only ".pdf" gets the marker inserted before the
   * extension; a path without ".pdf" is its own signed path, so the signed copy
   * would overwrite the file being read.
   */
  function SignedPath(path: string, millis: nat): (r: string)
    ensures EndsWith(path, ".pdf") && !Contains(path[..|path| - 4], ".pdf") ==>
              r == path[..|path| - 4] + "_signed_" + NatToString(millis) + ".pdf"
    ensures !Contains(path, ".pdf") ==> r == path
  {
    var marker := "_signed_" + NatToString(millis) + ".pdf";
    if EndsWith(path, ".pdf") && !Contains(path[..|path| - 4], ".pdf") then
      var base := path[..|path| - 4];
      assert base + ".pdf" == path;
      ReplaceAllAtEnd(base, ".pdf", marker);
      EndsWithContains(path, ".pdf");
      ReplaceAll(path, ".pdf", marker)
    else if !Contains(path, ".pdf") then
      ReplaceAllAbsent(path, ".pdf", marker);
      ReplaceAll(path, ".pdf", marker)
    else
      ReplaceAll(path, ".pdf", marker)
  }

  // ---- the signature footer ----

  const FooterLead := "Digitally Signed by: "
  const FooterDateLead := "\nDate: "

  /**
   * The text stamped on the last page: "Digitally Signed by: <name>\nDate: <date>".
   * A name without a line break and the date can be read back from it.
   */
  function Footer(name: string, date: string): (text: string)
    ensures |FooterLead| <= |text| && text[..|FooterLead|] == FooterLead
    ensures '\n' !in name ==> ParseFooter(text) == Some((name, date))
  {
    ParseFooterOf(name, date);
    FooterLead + name + FooterDateLead + date
  }

  /** The position of the first occurrence of `c`. */
  function IndexOf(s: string, c: char): (r: Option<nat>)
    ensures r.Some? ==> r.value < |s| && s[r.value] == c && c !in s[..r.value]
    ensures r.None? ==> c !in s
  {
    if s == [] then None
    else if s[0] == c then Some(0)
    else match IndexOf(s[1..], c)
      case Some(i) => assert s[..i + 1] == [s[0]] + s[1..][..i]; Some(i + 1)
      case None => assert s == [s[0]] + s[1..]; None
  }

  /** Reads a footer back: the name runs up to the first line break, the date follows "\nDate: ". */
  function ParseFooter(text: string): Option<(string, string)> {
    if |text| < |FooterLead| || text[..|FooterLead|] != FooterLead then None
    else
      var rest := text[|FooterLead|..];
      match IndexOf(rest, '\n')
      case None => None
      case Some(i) =>
        if |rest| - i >= |FooterDateLead| && rest[i..i + |FooterDateLead|] == FooterDateLead
        then Some((rest[..i], rest[i + |FooterDateLead|..]))
        else None
  }

  lemma ParseFooterOf(name: string, date: string)
    ensures (FooterLead + name + FooterDateLead + date)[..|FooterLead|] == FooterLead
    ensures '\n' !in name ==> ParseFooter(FooterLead + name + FooterDateLead + date) == Some((name, date))
  {
    var text := FooterLead + name + FooterDateLead + date;
    assert text[..|FooterLead|] == FooterLead;
    if '\n' in name {
      return;
    }
    var rest := name + FooterDateLead + date;
    assert text[..|FooterLead|] == FooterLead;
    assert text[|FooterLead|..] == rest;
    var i := |name|;
    assert rest[i] == '\n';
    assert rest[..i] == name;
    var j := IndexOf(rest, '\n');
    assert j == Some(i);
    assert rest[i..i + |FooterDateLead|] == FooterDateLead;
    assert rest[i + |FooterDateLead|..] == date;
  }

  // ---- the services ----

  /** DocumentService, over the document table and the configured upload directory (app.upload.dir). */
  class DocumentService {
    const repo: DocumentStore
    const uploadDir: string

    constructor (repo: DocumentStore, uploadDir: string)
      ensures this.repo == repo && this.uploadDir == uploadDir
    {
      this.repo := repo;
      this.uploadDir := uploadDir;
    }

    /**
     * saveDocument. `uuid` is the UUID.randomUUID() text, `now` the clock reading of
     * the @PrePersist hook, and `write` the file system step (creating the directory
     * and copying the upload to the target path), which yields an IOException
     * message when it fails.
     */
    method SaveDocument(file: MultipartFile, user: User, uuid: string, now: Timestamp, write: string -> Option<string>)
      returns (r: Outcome<DocumentRow>)
      requires repo.Valid()
      modifies repo
      ensures repo.Valid()
      ensures var target := StoredPath(uploadDir, uuid, file.originalFilename);
        match write(target)
        case Some(e) =>
          r == Thrown(IOException(e)) && repo.rows == old(repo.rows) && repo.nextId == old(repo.nextId)
        case None =>
          && r == Normal(DocumentRow(Some(old(repo.nextId)), file.originalFilename, target, file.contentType,
                                     Some(PENDING), user.id, Some(now)))
          && repo.rows == old(repo.rows)[old(repo.nextId) := r.value]
          && repo.nextId == old(repo.nextId) + 1
    {
      var target := StoredPath(uploadDir, uuid, file.originalFilename);
      var failure := write(target);
      if failure.Some? {
        return Thrown(IOException(failure.value));
      }
      var document := new Document.Build(file.originalFilename, target, file.contentType, user.id);
      var saved := repo.Save(document, now);
      r := Normal(saved);
    }

    /**
     * signDocument. `millis` is System.currentTimeMillis(), `today` the text of
     * LocalDate.now(), and `stamp` the PDF library's step (read the original path,
     * write the signed path with the footer on the last page), which yields the
     * exception it throws when it fails: an IOException, or an unchecked one such
     * as iText's error for a file that is not a PDF.
     */
    method SignDocument(documentId: int, nameToPrint: string, millis: nat, today: string,
                        stamp: (string, string, string) -> Option<Exception>)
      returns (r: Outcome<()>)
      requires repo.Valid()
      modifies repo
      ensures repo.Valid() && repo.nextId == old(repo.nextId)
      ensures documentId !in old(repo.rows) ==>
                r == Thrown(RuntimeException("Document not found")) && repo.rows == old(repo.rows)
      ensures documentId in old(repo.rows) ==>
                var d := old(repo.rows)[documentId];
                var signed := SignedPath(d.filePath, millis);
                match stamp(d.filePath, signed, Footer(nameToPrint, today))
                case Some(e) =>
                  r == Thrown(e) && repo.rows == old(repo.rows)
                case None =>
                  r == Normal(()) && repo.rows == old(repo.rows)[documentId := d.(filePath := signed, status := Some(SIGNED))]
    {
      var docEntity := repo.FindById(documentId);
      if docEntity == null {
        return Thrown(RuntimeException("Document not found"));
      }
      var originalPath := docEntity.filePath;
      var signedPath := SignedPath(originalPath, millis);
      var failure := stamp(originalPath, signedPath, Footer(nameToPrint, today));
      if failure.Some? {
        return Thrown(failure.value);
      }
      docEntity.filePath := signedPath;
      docEntity.status := Some(SIGNED);
      var _ := repo.Save(docEntity, 0);
      r := Normal(());
    }
  }

  /**
   * The role UserService gives a request: USER when none is given, otherwise the
   * Role constant named exactly by the string, and None where Role.valueOf throws.
   */
  function RequestedRole(role: Option<string>): (r: Option<Role>)
    ensures r == Some(ADMIN) <==> role == Some("ADMIN")
    ensures r == Some(USER) <==> role.None? || role == Some("USER")
    ensures r.None? <==> role.Some? && role.value != "USER" && role.value != "ADMIN"
  {
    match role
    case None => Some(USER)
    case Some(s) => RoleValueOf(s)
  }

  /** The message of the IllegalArgumentException that Role.valueOf throws. */
  function NoEnumConstant(name: string): string {
    "No enum constant com.deepika.DocumentSignatureApp.entity.Role." + name
  }

  /** UserService, over the user table. */
  class UserService {
    const users: UserStore

    constructor (users: UserStore)
      ensures this.users == users
    {
      this.users := users;
    }

    /**
     * register: refuses a known email, parses the role exactly, and saves a user
     * without a username whose password is the encoder's output.
     */
    method Register(request: RegisterRequest, encode: string -> string) returns (r: Outcome<User>)
      requires users.Valid()
      modifies users
      ensures users.Valid()
      ensures old(users.UniqueEmails()) ==> users.UniqueEmails()
      ensures |old(users.WithEmail(request.email))| == 1 ==>
                r == Thrown(RuntimeException("Email already registered"))
                && users.users == old(users.users) && users.nextId == old(users.nextId)
      ensures |old(users.WithEmail(request.email))| > 1 ==>
                r == Thrown(IncorrectResultSizeDataAccessException(|old(users.WithEmail(request.email))|))
                && users.users == old(users.users) && users.nextId == old(users.nextId)
      ensures !old(users.ExistsByEmail(request.email)) && RequestedRole(request.role).None? ==>
                r == Thrown(IllegalArgumentException(NoEnumConstant(request.role.value)))
                && users.users == old(users.users) && users.nextId == old(users.nextId)
      ensures !old(users.ExistsByEmail(request.email)) && RequestedRole(request.role).Some? ==>
                && r == Normal(User(old(users.nextId), None, request.email, encode(request.password), RequestedRole(request.role).value))
                && users.users == old(users.users)[old(users.nextId) := r.value]
                && users.nextId == old(users.nextId) + 1
    {
      var existing := users.FindByEmail(request.email);
      if existing.Thrown? {
        return Thrown(existing.exception);
      }
      if existing.value.Some? {
        return Thrown(RuntimeException("Email already registered"));
      }
      var role := RequestedRole(request.role);
      if role.None? {
        return Thrown(IllegalArgumentException(NoEnumConstant(request.role.value)));
      }
      users.NoneWithEmail(request.email);
      var saved := users.SaveNew(NewUser(None, request.email, encode(request.password), role.value));
      r := Normal(saved);
      users.SaveFreshEmail(old(users.users), old(users.UniqueEmails()), saved);
    }
  }
}
