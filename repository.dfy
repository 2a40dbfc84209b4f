/**
 * The two database tables behind the Spring Data repositories: documents and
 * users, each a map from generated id to stored row.
 */
module Repository {
  import opened Wrappers
  import opened Java
  import opened Entity

  /** DocumentRepository: the document table and the next IDENTITY value. */
  class DocumentStore {
    var rows: map<int, DocumentRow>
    var nextId: int

    /** Every row is stored under the id it carries, and ids are handed out in increasing order. */
    ghost predicate Valid()
      reads this
    {
      0 < nextId && forall k :: k in rows ==> 0 < k < nextId && rows[k].id == Some(k)
    }

    constructor ()
      ensures Valid() && rows == map[]
    {
      rows, nextId := map[], 1;
    }

    /** findById: a fresh entity holding the stored row, or null for an unknown id. */
    method FindById(id: int) returns (doc: Document?)
      ensures doc == null <==> id !in rows
      ensures doc != null ==> fresh(doc) && doc.Row() == rows[id]
    {
      if id in rows {
        doc := new Document.Load(rows[id]);
      } else {
        doc := null;
      }
    }

    /** findAll: every stored row and nothing else. */
    function FindAll(): (r: set<DocumentRow>)
      reads this
      ensures forall k :: k in rows ==> rows[k] in r
      ensures forall d :: d in r ==> exists k :: k in rows && rows[k] == d
    {
      set k | k in rows :: rows[k]
    }

    /** findByUser: the rows whose user_id is the user's id. */
    function FindByUser(user: User): (r: set<DocumentRow>)
      reads this
      ensures forall d :: d in r <==> d in FindAll() && d.owner == user.id
    {
      set d | d in rows.Values && d.owner == user.id
    }

    /**
     * save: an entity without an id is persisted (the @PrePersist hook runs, then it
     * gets the next id); an entity with the id of a stored row is merged over that row.
     */
    method Save(doc: Document, now: Timestamp) returns (saved: DocumentRow)
      requires Valid()
      requires doc.id.None? || doc.id.value in rows
      modifies this, doc
      ensures Valid()
      ensures old(doc.id).None? ==>
                && saved == Created(old(doc.Row()), now).(id := Some(old(nextId)))
                && doc.Row() == saved
                && rows == old(rows)[old(nextId) := saved]
                && nextId == old(nextId) + 1
      ensures old(doc.id).Some? ==>
                && saved == old(doc.Row())
                && doc.Row() == saved
                && rows == old(rows)[old(doc.id).value := saved]
                && nextId == old(nextId)
    {
      if doc.id.None? {
        doc.OnCreate(now);
        doc.id := Some(nextId);
        rows := rows[nextId := doc.Row()];
        nextId := nextId + 1;
      } else {
        rows := rows[doc.id.value := doc.Row()];
      }
      saved := doc.Row();
    }
  }

  /** UserRepository: the user table and the next IDENTITY value. */
  class UserStore {
    var users: map<int, User>
    var nextId: int

    ghost predicate Valid()
      reads this
    {
      0 < nextId && forall k :: k in users ==> 0 < k < nextId && users[k].id == k
    }

    /** No two users share an email: what the registration checks are there to keep. */
    ghost predicate UniqueEmails()
      reads this
    {
      forall j, k :: j in users && k in users && users[j].email == users[k].email ==> j == k
    }

    constructor ()
      ensures Valid() && UniqueEmails() && users == map[]
    {
      users, nextId := map[], 1;
    }

    /** The ids of the users with this email. */
    function WithEmail(email: string): set<int>
      reads this
    {
      set k | k in users && users[k].email == email
    }

    /** The ids of the users whose username or whose email is the identifier. */
    function WithUsernameOrEmail(identifier: string): set<int>
      reads this
    {
      set k | k in users && (users[k].username == Some(identifier) || users[k].email == identifier)
    }

    /** existsByEmail: whether some stored user has the email. */
    function ExistsByEmail(email: string): (r: bool)
      reads this
      ensures r <==> exists k :: k in users && users[k].email == email
    {
      if WithEmail(email) == {} then
        assert forall k :: k in users && users[k].email == email ==> k in WithEmail(email);
        false
      else
        HasMember(WithEmail(email));
        true
    }

    /**
     * What a Spring Data query returning Optional<User> yields for the matching ids:
     * empty for none, the user for one, an exception for several.
     */
    ghost function One(ks: set<int>): (r: Outcome<Option<User>>)
      reads this
      requires ks <= users.Keys
      ensures r.Normal? && r.value.Some? ==> |ks| == 1 && exists k :: k in ks && r.value.value == users[k]
    {
      if |ks| == 0 then Normal(None)
      else if |ks| > 1 then Thrown(IncorrectResultSizeDataAccessException(|ks|))
      else HasMember(ks); var k :| k in ks; Normal(Some(users[k]))
    }

    method PickOne(ks: set<int>) returns (r: Outcome<Option<User>>)
      requires ks <= users.Keys
      ensures r == One(ks)
    {
      if |ks| == 0 {
        r := Normal(None);
      } else if |ks| > 1 {
        r := Thrown(IncorrectResultSizeDataAccessException(|ks|));
      } else {
        HasMember(ks);
        var k :| k in ks;
        SingletonMember(ks, k);
        r := Normal(Some(users[k]));
      }
    }

    /** findByEmail */
    method FindByEmail(email: string) returns (r: Outcome<Option<User>>)
      ensures r == One(WithEmail(email))
      ensures r == Normal(None) <==> !ExistsByEmail(email)
    {
      r := PickOne(WithEmail(email));
    }

    /** findByUsernameOrEmail(identifier, identifier) */
    method FindByUsernameOrEmail(identifier: string) returns (r: Outcome<Option<User>>)
      ensures r == One(WithUsernameOrEmail(identifier))
    {
      r := PickOne(WithUsernameOrEmail(identifier));
    }

    /** save of a user built with User.builder(): the row gets the next id. */
    method SaveNew(u: NewUser) returns (saved: User)
      requires Valid()
      modifies this
      ensures Valid()
      ensures saved == User(old(nextId), u.username, u.email, u.password, u.role)
      ensures users == old(users)[old(nextId) := saved] && nextId == old(nextId) + 1
    {
      saved := User(nextId, u.username, u.email, u.password, u.role);
      users := users[nextId := saved];
      nextId := nextId + 1;
    }

    lemma NoneWithEmail(email: string)
      requires !ExistsByEmail(email)
      ensures forall k :: k in users ==> users[k].email != email
    {
      forall k | k in users
        ensures users[k].email != email
      {
        assert users[k].email == email ==> k in WithEmail(email);
      }
    }

    /** Adding a user whose email no stored user has keeps emails unique. */
    lemma SaveFreshEmail(before: map<int, User>, wasUnique: bool, added: User)
      requires wasUnique ==> forall j, k :: j in before && k in before && before[j].email == before[k].email ==> j == k
      requires forall k :: k in before ==> before[k].email != added.email
      requires users == before[added.id := added]
      ensures wasUnique ==> UniqueEmails()
    {
    }

    /** With unique emails, findByEmail never meets several rows. */
    lemma UniqueEmailsFindOne(email: string)
      requires UniqueEmails()
      ensures |WithEmail(email)| <= 1
    {
      var ks := WithEmail(email);
      if ks != {} {
        HasMember(ks);
        var a :| a in ks;
        forall k | k in ks
          ensures k == a
        {
          assert users[k].email == users[a].email;
        }
        assert ks == {a};
      }
    }
  }

  lemma HasMember(ks: set<int>)
    requires |ks| > 0
    ensures exists k :: k in ks
  {
    if forall k :: k !in ks {
      assert false;
    }
  }

  /** A set of one element has no other member. */
  lemma SingletonMember(ks: set<int>, k: int)
    requires |ks| == 1 && k in ks
    ensures ks == {k}
  {
    assert |ks - {k}| == 0;
  }
}
