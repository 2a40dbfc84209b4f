/**
 * The server's persistent entities: documents, users, their roles and the
 * document lifecycle statuses.
 */
module Entity {
  import opened Wrappers

  /** A LocalDateTime reading; the clock itself is an input of the model. */
  type Timestamp = int

  datatype DocumentStatus = PENDING | SIGNED | REJECTED | DELETED

  /** The enum constant's name, as Enum.name() and JSON serialisation write it. */
  function StatusName(s: DocumentStatus): string {
    match s
    case PENDING => "PENDING"
    case SIGNED => "SIGNED"
    case REJECTED => "REJECTED"
    case DELETED => "DELETED"
  }

  datatype Role = USER | ADMIN

  function RoleName(r: Role): string {
    match r
    case USER => "USER"
    case ADMIN => "ADMIN"
  }

  /** Enum.valueOf(Role.class, name): exact, case-sensitive match on the constant's name. */
  function RoleValueOf(name: string): (r: Option<Role>)
    ensures r.Some? <==> name == "USER" || name == "ADMIN"
    ensures r.Some? ==> RoleName(r.value) == name
  {
    if name == "USER" then Some(USER)
    else if name == "ADMIN" then Some(ADMIN)
    else None
  }

  /** A stored user. Its id is assigned by the database when it is first saved. */
  datatype User = User(id: int, username: Option<string>, email: string, password: string, role: Role)

  /** A User built with User.builder() and not yet saved: it has no id. */
  datatype NewUser = NewUser(username: Option<string>, email: string, password: string, role: Role)

  /** The values of one Document row; `owner` is the id of the owning user (column user_id). */
  datatype DocumentRow = DocumentRow(
    id: Option<int>,
    fileName: Option<string>,
    filePath: string,
    fileType: Option<string>,
    status: Option<DocumentStatus>,
    owner: int,
    createdAt: Option<Timestamp>)

  /**
   * What the @PrePersist hook makes of a document: it stamps the creation time,
   * gives a document without a status the status PENDING, and touches nothing else.
   */
  function Created(d: DocumentRow, now: Timestamp): (c: DocumentRow)
    ensures c.createdAt == Some(now)
    ensures d.status.None? ==> c.status == Some(PENDING)
    ensures d.status.Some? ==> c.status == d.status
    ensures c.id == d.id && c.fileName == d.fileName && c.filePath == d.filePath
    ensures c.fileType == d.fileType && c.owner == d.owner
  {
    d.(createdAt := Some(now), status := if d.status.None? then Some(PENDING) else d.status)
  }

  /** Running the hook again keeps the status the first run chose. */
  lemma CreatedTwice(d: DocumentRow, t1: Timestamp, t2: Timestamp)
    ensures Created(Created(d, t1), t2).status == Created(d, t1).status
    ensures Created(Created(d, t1), t2) == Created(d, t2)
  {
  }

  /** The JPA entity Document: a mutable object whose state is one DocumentRow. */
  class Document {
    var id: Option<int>
    var fileName: Option<string>
    var filePath: string
    var fileType: Option<string>
    var status: Option<DocumentStatus>
    var owner: int
    var createdAt: Option<Timestamp>

    function Row(): DocumentRow
      reads this
    {
      DocumentRow(id, fileName, filePath, fileType, status, owner, createdAt)
    }

    /** Document.builder().fileName(..).filePath(..).fileType(..).user(..).build(): id, status and createdAt stay null. */
    constructor Build(fileName: Option<string>, filePath: string, fileType: Option<string>, owner: int)
      ensures Row() == DocumentRow(None, fileName, filePath, fileType, None, owner, None)
    {
      this.id := None;
      this.fileName := fileName;
      this.filePath := filePath;
      this.fileType := fileType;
      this.status := None;
      this.owner := owner;
      this.createdAt := None;
    }

    /** The entity the persistence layer materialises from a stored row. */
    constructor Load(r: DocumentRow)
      ensures Row() == r
    {
      id, fileName, filePath, fileType := r.id, r.fileName, r.filePath, r.fileType;
      status, owner, createdAt := r.status, r.owner, r.createdAt;
    }

    /** onCreate, the @PrePersist hook. */
    method OnCreate(now: Timestamp)
      modifies this
      ensures Row() == Created(old(Row()), now)
    {
      createdAt := Some(now);
      if status == None {
        status := Some(PENDING);
      }
    }
  }
}
