/**
 * A logged-in forum session: logging in against Login and the role tables, creating a
 * thread (four INSERT statements, each committed on its own) and creating a reply (an
 * INSERT and an UPDATE of the target's Thread row). The database behind the connection is
 * the session's `db` field; the prompts are replaced by the sequence of inputs the user
 * types, and the new UUIDs by parameters.
 */
module Session {
  import opened Wrappers
  import opened Schema
  import opened ThreadColour
  import opened Queries

  // ----- login -----

  datatype Credentials = Credentials(email: string, password: string)

  /** The three messages that make the user try again, and the IndexError raised when the
      user has no UserInCourse row. */
  datatype LoginError = EmailNotInDatabase | IncorrectPassword | NotInRole | NoCourse

  /** What a successful login stores in the session. */
  datatype LoginIds = LoginIds(user: Uuid, course: Uuid, pcid: Uuid)

  /** SELECT UserID FROM User WHERE UserEmail = email, for an e-mail that has a Login row. */
  function UserWithEmail(db: Store, email: string): (u: Uuid)
    requires WellFormed(db) && email in db.logins
    ensures u in db.users && db.users[u].email == email
  {
    var u :| u in db.users && db.users[u].email == email;
    u
  }

  /** The first row of SELECT CourseID FROM UserInCourse WHERE UserID = u: rows come back in
      primary key order, so the least CourseID among the user's courses. */
  function FirstCourse(db: Store, u: Uuid): (c: Option<Uuid>)
    ensures c.Some? <==> exists m :: m in db.memberships && m.user == u
    ensures c.Some? ==> Membership(u, c.value) in db.memberships &&
                        forall m :: m in db.memberships && m.user == u ==> c.value <= m.course
  {
    var courses := set m | m in db.memberships && m.user == u :: m.course;
    assert forall m :: m in db.memberships && m.user == u ==> m.course in courses;
    if courses == {} then None
    else
      var c := Least(courses);
      assert exists m :: m in db.memberships && m.user == u && m.course == c;
      Some(c)
  }

  predicate Authenticates(db: Store, c: Credentials) {
    c.email in db.logins && db.logins[c.email] == c.password
  }

  /** One round of the login loop for a session of the given role. */
  function LoginAttempt(db: Store, role: Role, c: Credentials): (r: Result<LoginIds, LoginError>)
    requires WellFormed(db)
    ensures r == Failure(EmailNotInDatabase) <==> c.email !in db.logins
    ensures r == Failure(IncorrectPassword) <==> c.email in db.logins && db.logins[c.email] != c.password
    ensures r == Failure(NotInRole) <==>
              Authenticates(db, c) && UserWithEmail(db, c.email) !in RoleTable(db, role)
    ensures r == Failure(NoCourse) <==>
              && Authenticates(db, c) && UserWithEmail(db, c.email) in RoleTable(db, role)
              && FirstCourse(db, UserWithEmail(db, c.email)).None?
    ensures r.Success? <==>
              && Authenticates(db, c) && UserWithEmail(db, c.email) in RoleTable(db, role)
              && FirstCourse(db, UserWithEmail(db, c.email)).Some?
    ensures r.Success? ==>
              r.value.user == UserWithEmail(db, c.email) && FirstCourse(db, r.value.user) == Some(r.value.course)
    ensures r.Success? ==>
      && Authenticates(db, c)
      && r.value.user in db.users && db.users[r.value.user].email == c.email
      && r.value.user in RoleTable(db, role) && RoleTable(db, role)[r.value.user] == r.value.pcid
      && r.value.pcid in db.creators
      && Membership(r.value.user, r.value.course) in db.memberships
      && r.value.course in db.courses
  {
    if c.email !in db.logins then Failure(EmailNotInDatabase)
    else if db.logins[c.email] != c.password then Failure(IncorrectPassword)
    else
      var u := UserWithEmail(db, c.email);
      var table := RoleTable(db, role);
      if u !in table then Failure(NotInRole)
      else match FirstCourse(db, u)
        case None => Failure(NoCourse)
        case Some(course) => Success(LoginIds(u, course, table[u]))
  }

  /** The user id left in the session after the given rounds: each round whose password is
      right stores its user's id, before the role is checked. */
  function LastAuthenticated(db: Store, cs: seq<Credentials>, before: Option<Uuid>): Option<Uuid>
    requires WellFormed(db)
  {
    if cs == [] then before
    else if Authenticates(db, cs[|cs| - 1]) then Some(UserWithEmail(db, cs[|cs| - 1].email))
    else LastAuthenticated(db, cs[..|cs| - 1], before)
  }

  /** One more round extends the user id left in the session by that round alone. */
  lemma LastAuthenticatedStep(db: Store, cs: seq<Credentials>, i: nat, before: Option<Uuid>)
    requires WellFormed(db) && i < |cs|
    ensures LastAuthenticated(db, cs[..i + 1], before) ==
            if Authenticates(db, cs[i]) then Some(UserWithEmail(db, cs[i].email))
            else LastAuthenticated(db, cs[..i], before)
  {
    assert cs[..i + 1][..i] == cs[..i];
  }

  datatype LoginStatus = SignedIn | Crashed | InputExhausted

  // ----- create_thread -----

  /** The store after a run of committed statements, and the error that stopped the run. */
  datatype Outcome = Outcome(db: Store, error: Option<Violation>)

  /** The four INSERT statements of create_thread. Each is committed before the next runs,
      so a refused statement leaves the earlier ones in place. */
  function ThreadCreation(db: Store, postid: Uuid, content: string, pcid: Uuid, course: Uuid,
                          folder: string, tag: string): (o: Outcome)
    ensures db.posts.Keys <= o.db.posts.Keys && db.threads.Keys <= o.db.threads.Keys
    ensures db.tags <= o.db.tags && db.placements <= o.db.placements
    ensures o.db.threads == db.threads || o.db.threads == db.threads[postid := ThreadRow(0, Slots(None, None))]
    ensures o.error == None ==>
              && postid !in db.posts && postid !in db.threads
              && postid in o.db.posts && o.db.posts[postid] == PostRow(content, pcid, ThreadType)
              && postid in o.db.threads && o.db.threads[postid] == ThreadRow(0, Slots(None, None))
              && Tag(postid, tag) in o.db.tags && Placement(postid, course, folder) in o.db.placements
    ensures o.db == db.(posts := o.db.posts, threads := o.db.threads, tags := o.db.tags, placements := o.db.placements)
    ensures o.db.posts == db.posts || o.db.posts == db.posts[postid := PostRow(content, pcid, ThreadType)]
    ensures o.db.tags == db.tags || o.db.tags == db.tags + {Tag(postid, tag)}
    ensures o.db.placements == db.placements || o.db.placements == db.placements + {Placement(postid, course, folder)}
  {
    match InsertPost(db, postid, PostRow(content, pcid, ThreadType))
    case Failure(e) => Outcome(db, Some(e))
    case Success(db1) =>
      match InsertThread(db1, postid, ThreadRow(0, Slots(None, None)))
      case Failure(e) => Outcome(db1, Some(e))
      case Success(db2) =>
        match InsertTag(db2, Tag(postid, tag))
        case Failure(e) => Outcome(db2, Some(e))
        case Success(db3) =>
          match InsertPlacement(db3, Placement(postid, course, folder))
          case Failure(e) => Outcome(db3, Some(e))
          case Success(db4) => Outcome(db4, None)
  }

  /** The outcome at each point where create_thread can stop: the statements committed
      before the refused one stay, and the refused one and those after it add nothing. */
  lemma ThreadCreationStages(db: Store, postid: Uuid, content: string, pcid: Uuid, course: Uuid,
                             folder: string, tag: string)
    ensures var o := ThreadCreation(db, postid, content, pcid, course, folder, tag);
      var withPost := db.(posts := db.posts[postid := PostRow(content, pcid, ThreadType)]);
      var withThread := withPost.(threads := db.threads[postid := ThreadRow(0, Slots(None, None))]);
      var withTag := withThread.(tags := db.tags + {Tag(postid, tag)});
      && (postid in db.posts ==> o == Outcome(db, Some(DuplicateKey)))
      && (postid !in db.posts && pcid !in db.creators ==> o == Outcome(db, Some(MissingReference)))
      && (postid !in db.posts && pcid in db.creators ==>
            && (postid in db.threads ==> o == Outcome(withPost, Some(DuplicateKey)))
            && (postid !in db.threads && Tag(postid, tag) in db.tags ==> o == Outcome(withThread, Some(DuplicateKey)))
            && (postid !in db.threads && Tag(postid, tag) !in db.tags ==>
                  && (Placement(postid, course, folder) in db.placements ==> o == Outcome(withTag, Some(DuplicateKey)))
                  && (Placement(postid, course, folder) !in db.placements && Folder(course, folder) !in db.folders ==>
                        o == Outcome(withTag, Some(MissingReference)))
                  && (Placement(postid, course, folder) !in db.placements && Folder(course, folder) in db.folders ==>
                        o == Outcome(withTag.(placements := db.placements + {Placement(postid, course, folder)}), None))))
  {
  }

  /** With a fresh id, a known author and an existing folder of the course, all four rows
      are added and nothing else changes. */
  lemma ThreadCreationAddsFourRows(db: Store, postid: Uuid, content: string, pcid: Uuid, course: Uuid,
                                   folder: string, tag: string)
    requires WellFormed(db)
    requires postid !in db.posts && postid !in db.threads && pcid in db.creators
    requires Folder(course, folder) in db.folders
    ensures ThreadCreation(db, postid, content, pcid, course, folder, tag) ==
      Outcome(db.(posts := db.posts[postid := PostRow(content, pcid, ThreadType)],
                  threads := db.threads[postid := ThreadRow(0, Slots(None, None))],
                  tags := db.tags + {Tag(postid, tag)},
                  placements := db.placements + {Placement(postid, course, folder)}),
              None)
  {
  }

  /** A folder name the course does not have: the Post, Thread and Tags rows stay committed
      while the ThreadInFolder insert is refused. */
  lemma ThreadCreationWithUnknownFolder(db: Store, postid: Uuid, content: string, pcid: Uuid, course: Uuid,
                                        folder: string, tag: string)
    requires WellFormed(db)
    requires postid !in db.posts && postid !in db.threads && pcid in db.creators
    requires Folder(course, folder) !in db.folders
    ensures var o := ThreadCreation(db, postid, content, pcid, course, folder, tag);
      && o.error == Some(MissingReference)
      && postid in o.db.posts && postid in o.db.threads && Tag(postid, tag) in o.db.tags
      && o.db.placements == db.placements
  {
  }

  /** Whatever statement is refused, the store keeps every schema constraint, and every
      colour stays derived from its slots. */
  lemma ThreadCreationKeepsInvariants(db: Store, postid: Uuid, content: string, pcid: Uuid, course: Uuid,
                                      folder: string, tag: string)
    requires WellFormed(db)
    ensures WellFormed(ThreadCreation(db, postid, content, pcid, course, folder, tag).db)
    ensures ColoursDerived(db) ==> ColoursDerived(ThreadCreation(db, postid, content, pcid, course, folder, tag).db)
  {
    var row := ThreadRow(0, Slots(None, None));
    var o := ThreadCreation(db, postid, content, pcid, course, folder, tag);
    if ColoursDerived(db) && o.db.threads != db.threads {
      assert row == ThreadRow(Colour(row.slots), row.slots);
      SetDerivedRowKeepsColours(db, o.db, postid, row.slots);
    }
    match InsertPost(db, postid, PostRow(content, pcid, ThreadType))
    case Failure(_) =>
    case Success(db1) =>
      InsertPostKeepsWellFormed(db, postid, PostRow(content, pcid, ThreadType));
      match InsertThread(db1, postid, row)
      case Failure(_) =>
      case Success(db2) =>
        InsertThreadKeepsWellFormed(db1, postid, row);
        match InsertTag(db2, Tag(postid, tag))
        case Failure(_) =>
        case Success(db3) =>
          InsertTagKeepsWellFormed(db2, Tag(postid, tag));
          match InsertPlacement(db3, Placement(postid, course, folder))
          case Failure(_) =>
          case Success(db4) =>
            InsertPlacementKeepsWellFormed(db3, Placement(postid, course, folder));
  }

  /** A created thread is found by every keyword that occurs in its content, its tag or its
      folder name. */
  lemma CreatedThreadIsFound(db: Store, postid: Uuid, content: string, pcid: Uuid, course: Uuid,
                             folder: string, tag: string, k: string)
    requires ThreadCreation(db, postid, content, pcid, course, folder, tag).error == None
    requires Contains(content, k) || Contains(tag, k) || Contains(folder, k)
    ensures postid in Search(ThreadCreation(db, postid, content, pcid, course, folder, tag).db, k)
  {
    var db' := ThreadCreation(db, postid, content, pcid, course, folder, tag).db;
    assert db'.posts[postid].content == content;
    assert Tag(postid, tag) in db'.tags;
    assert Placement(postid, course, folder) in db'.placements && Folder(course, folder) in db'.folders;
    if Contains(content, k) {
      assert postid in ContentMatches(db', k);
    } else if Contains(tag, k) {
      assert postid in TagMatches(db', k);
    } else {
      assert postid in FolderMatches(db', k);
    }
  }

  // ----- create_reply -----

  datatype ReplyInput = ReplyInput(target: Uuid, content: string)

  /** The colour create_reply writes, whoever replies. */
  const ReplyColour: int := 13

  /** The statements create_reply runs once the target post is found, as written: a Reply
      post, then InstructorReplyID and colour 13 on the Thread row whose id is the target. */
  function ReplyAsWritten(db: Store, target: Uuid, reply: Uuid, content: string, pcid: Uuid): (o: Outcome)
    ensures o.error == Some(DuplicateKey) <==> reply in db.posts
    ensures o.error == None <==> reply !in db.posts && pcid in db.creators
    ensures o.error == None ==> o.db.posts == db.posts[reply := PostRow(content, pcid, ReplyType)]
    ensures o.db.threads.Keys == db.threads.Keys
    ensures o.error.Some? ==> o.db == db
    ensures o.error == None ==>
              var withPost := db.(posts := db.posts[reply := PostRow(content, pcid, ReplyType)]);
              o.db == if target in db.threads
                      then withPost.(threads := db.threads[target := ThreadRow(ReplyColour, db.threads[target].slots.(instructorReply := Some(reply)))])
                      else withPost
  {
    match InsertPost(db, reply, PostRow(content, pcid, ReplyType))
    case Failure(e) => Outcome(db, Some(e))
    case Success(db1) =>
      match UpdateInstructorReply(db1, target, reply, ReplyColour)
      case Failure(e) => Outcome(db1, Some(e))
      case Success(db2) => Outcome(db2, None)
  }

  /** As written, the reply goes to the instructor slot whoever writes it, the student slot is
      never touched, and the Thread row is left with colour 13, which no slot combination
      gives; a target that is not a thread id changes no Thread row. */
  lemma ReplyAsWrittenBreaksColours(db: Store, target: Uuid, reply: Uuid, content: string, pcid: Uuid)
    requires reply !in db.posts && pcid in db.creators
    ensures var o := ReplyAsWritten(db, target, reply, content, pcid);
      && o.error == None
      && o.db.posts == db.posts[reply := PostRow(content, pcid, ReplyType)]
      && (target in db.threads ==>
            && o.db.threads == db.threads[target := ThreadRow(13, db.threads[target].slots.(instructorReply := Some(reply)))]
            && !ColoursDerived(o.db))
      && (target !in db.threads ==> o.db.threads == db.threads)
  {
    var o := ReplyAsWritten(db, target, reply, content, pcid);
    if target in db.threads {
      assert o.db.threads[target].colour == 13 != Colour(o.db.threads[target].slots);
    }
  }

  /** The reply as the colour rules intend it: the replier's own slot is set and the colour
      is recomputed from the slots. */
  function ReplyByRole(db: Store, target: Uuid, reply: Uuid, content: string, pcid: Uuid, role: Role): (o: Outcome)
    ensures o.error == Some(DuplicateKey) <==> reply in db.posts
    ensures o.error == None ==> reply !in db.posts && pcid in db.creators
    ensures o.db.threads == db.threads ||
            (target in db.threads &&
             o.db.threads == db.threads[target := ThreadRow(Colour(WithReply(db.threads[target].slots, role, reply)),
                                                            WithReply(db.threads[target].slots, role, reply))])
    ensures WellFormed(db) ==> (o.error == None <==> reply !in db.posts && pcid in db.creators)
    ensures o.db.threads.Keys == db.threads.Keys
    ensures o.error == None && target in db.threads ==>
              o.db.threads[target] == ThreadRow(Colour(WithReply(db.threads[target].slots, role, reply)),
                                                WithReply(db.threads[target].slots, role, reply))
    ensures o.error == None ==>
              var withPost := db.(posts := db.posts[reply := PostRow(content, pcid, ReplyType)]);
              o.db == if target in db.threads
                      then var slots := WithReply(db.threads[target].slots, role, reply);
                           withPost.(threads := db.threads[target := ThreadRow(Colour(slots), slots)])
                      else withPost
    ensures o.error.Some? ==>
              o.db == db ||
              (o.error == Some(MissingReference) && o.db == db.(posts := db.posts[reply := PostRow(content, pcid, ReplyType)]))
    ensures WellFormed(db) && o.error.Some? ==> o.db == db
  {
    match InsertPost(db, reply, PostRow(content, pcid, ReplyType))
    case Failure(e) => Outcome(db, Some(e))
    case Success(db1) =>
      if target !in db1.threads then Outcome(db1, None)
      else
        var slots := WithReply(db1.threads[target].slots, role, reply);
        match UpdateThread(db1, target, ThreadRow(Colour(slots), slots))
        case Failure(e) => Outcome(db1, Some(e))
        case Success(db2) => Outcome(db2, None)
  }

  /** The intended reply keeps every schema constraint and keeps every colour derived. */
  lemma ReplyByRoleKeepsInvariants(db: Store, target: Uuid, reply: Uuid, content: string, pcid: Uuid, role: Role)
    requires WellFormed(db) && ColoursDerived(db)
    ensures WellFormed(ReplyByRole(db, target, reply, content, pcid, role).db)
    ensures ColoursDerived(ReplyByRole(db, target, reply, content, pcid, role).db)
  {
    var o := ReplyByRole(db, target, reply, content, pcid, role);
    if o.db.threads != db.threads {
      SetDerivedRowKeepsColours(db, o.db, target, WithReply(db.threads[target].slots, role, reply));
    }
    match InsertPost(db, reply, PostRow(content, pcid, ReplyType))
    case Failure(_) =>
    case Success(db1) =>
      InsertPostKeepsWellFormed(db, reply, PostRow(content, pcid, ReplyType));
      if target in db1.threads {
        var slots := WithReply(db1.threads[target].slots, role, reply);
        match UpdateThread(db1, target, ThreadRow(Colour(slots), slots))
        case Failure(_) =>
        case Success(db2) =>
          UpdateThreadKeepsWellFormed(db1, target, ThreadRow(Colour(slots), slots));
      }
  }

  /** A store with one student (user 1, PostCreator 2) and one uncoloured thread 3. */
  const OneThread: Store :=
    EmptyStore.(users := map[1 := UserRow("Ada", "ada@example.com")],
                creators := map[2 := StudentType],
                students := map[1 := 2],
                posts := map[3 := PostRow("Question", 2, ThreadType)],
                threads := map[3 := ThreadRow(0, Slots(None, None))])

  /** The student's reply 4 to thread 3: as written it sits in the instructor slot with colour
      13; as intended it sits in the student slot with colour 2. */
  lemma StudentReplyExample()
    ensures var o := ReplyAsWritten(OneThread, 3, 4, "Answer", 2);
      o.error == None && o.db.threads[3] == ThreadRow(13, Slots(None, Some(4)))
    ensures var o := ReplyByRole(OneThread, 3, 4, "Answer", 2, Student);
      o.error == None && o.db.threads[3] == ThreadRow(2, Slots(Some(4), None))
  {
  }

  // ----- the session object -----

  /** A PiazzaUser after the connection is made: its role (the Student or Instructor
      subclass), the database, and the ids login stores. */
  class PiazzaSession {
    const role: Role
    var db: Store
    var userid: Option<Uuid>
    var courseid: Option<Uuid>
    var pcid: Option<Uuid>

    ghost predicate Valid()
      reads this
    {
      WellFormed(db)
    }

    predicate LoggedIn()
      reads this
    {
      userid.Some? && courseid.Some? && pcid.Some?
    }

    constructor (role: Role, db: Store)
      requires WellFormed(db)
      ensures Valid() && this.role == role && this.db == db
      ensures userid == None && courseid == None && pcid == None
    {
      this.role := role;
      this.db := db;
      userid, courseid, pcid := None, None, None;
    }

    /** One round of the login loop: the e-mail is looked up, the password compared, the
        user's id stored, and then the role row and the first course are looked up. */
    method Attempt(c: Credentials) returns (result: Result<LoginIds, LoginError>)
      requires Valid()
      modifies this`userid
      ensures result == LoginAttempt(db, role, c)
      ensures userid == if Authenticates(db, c) then Some(UserWithEmail(db, c.email)) else old(userid)
    {
      if c.email !in db.logins {
        result := Failure(EmailNotInDatabase);
      } else if db.logins[c.email] != c.password {
        result := Failure(IncorrectPassword);
      } else {
        var u := UserWithEmail(db, c.email);
        userid := Some(u);
        var table := RoleTable(db, role);
        if u !in table {
          result := Failure(NotInRole);
        } else {
          var course := FirstCourse(db, u);
          if course.None? {
            result := Failure(NoCourse);
          } else {
            result := Success(LoginIds(u, course.value, table[u]));
          }
        }
      }
    }

    /** The login loop over the credentials the user types, until one round succeeds, a round
        crashes for want of a course, or the input runs out. */
    method Login(attempts: seq<Credentials>) returns (failures: seq<LoginError>, status: LoginStatus)
      requires Valid()
      modifies this
      ensures Valid() && db == old(db)
      ensures |failures| <= |attempts|
      ensures forall j :: 0 <= j < |failures| ==>
                LoginAttempt(db, role, attempts[j]) == Failure(failures[j]) && failures[j] != NoCourse
      ensures status == InputExhausted <==> |failures| == |attempts|
      ensures status == SignedIn ==>
                && LoginAttempt(db, role, attempts[|failures|]).Success?
                && var ids := LoginAttempt(db, role, attempts[|failures|]).value;
                   userid == Some(ids.user) && courseid == Some(ids.course) && pcid == Some(ids.pcid)
      ensures status == Crashed ==>
                && LoginAttempt(db, role, attempts[|failures|]) == Failure(NoCourse)
                && userid == LastAuthenticated(db, attempts[..|failures| + 1], old(userid))
      ensures status == InputExhausted ==> userid == LastAuthenticated(db, attempts, old(userid))
      ensures status != SignedIn ==> courseid == old(courseid) && pcid == old(pcid)
    {
      failures := [];
      var i := 0;
      while i < |attempts|
        invariant 0 <= i <= |attempts| && |failures| == i
        invariant db == old(db) && courseid == old(courseid) && pcid == old(pcid)
        invariant forall j :: 0 <= j < i ==>
                    LoginAttempt(db, role, attempts[j]) == Failure(failures[j]) && failures[j] != NoCourse
        invariant userid == LastAuthenticated(db, attempts[..i], old(userid))
      {
        var c := attempts[i];
        LastAuthenticatedStep(db, attempts, i, old(userid));
        var result := Attempt(c);
        assert attempts[|failures|] == c;
        if result.Success? {
          courseid := Some(result.value.course);
          pcid := Some(result.value.pcid);
          status := SignedIn;
          return;
        } else if result.error == NoCourse {
          status := Crashed;
          return;
        }
        failures := failures + [result.error];
        i := i + 1;
      }
      assert attempts[..i] == attempts;
      status := InputExhausted;
    }

    /** create_thread: the four inserts under the session's PCID and course. */
    method CreateThread(postid: Uuid, content: string, folder: string, tag: string) returns (error: Option<Violation>)
      requires Valid() && LoggedIn()
      modifies this`db
      ensures Valid()
      ensures Outcome(db, error) == ThreadCreation(old(db), postid, content, pcid.value, courseid.value, folder, tag)
    {
      ThreadCreationKeepsInvariants(db, postid, content, pcid.value, courseid.value, folder, tag);
      var r1 := InsertPost(db, postid, PostRow(content, pcid.value, ThreadType));
      if r1.Failure? {
        return Some(r1.error);
      }
      db := r1.value;
      var r2 := InsertThread(db, postid, ThreadRow(0, Slots(None, None)));
      if r2.Failure? {
        return Some(r2.error);
      }
      db := r2.value;
      var r3 := InsertTag(db, Tag(postid, tag));
      if r3.Failure? {
        return Some(r3.error);
      }
      db := r3.value;
      var r4 := InsertPlacement(db, Placement(postid, courseid.value, folder));
      if r4.Failure? {
        return Some(r4.error);
      }
      db := r4.value;
      error := None;
    }

    /** create_reply: re-prompts while the typed post id matches no post, then inserts the
        reply under the session's PCID and updates the Thread row with the target's id. */
    method CreateReply(attempts: seq<ReplyInput>, replyId: Uuid) returns (rejected: nat, error: Option<Violation>)
      requires Valid() && LoggedIn()
      modifies this`db
      ensures Valid()
      ensures rejected <= |attempts|
      ensures forall j :: 0 <= j < rejected ==> attempts[j].target !in old(db).posts
      ensures rejected == |attempts| ==> db == old(db) && error == None
      ensures rejected < |attempts| ==>
                && attempts[rejected].target in old(db).posts
                && Outcome(db, error) ==
                   ReplyAsWritten(old(db), attempts[rejected].target, replyId, attempts[rejected].content, pcid.value)
    {
      rejected := 0;
      while rejected < |attempts| && attempts[rejected].target !in db.posts
        invariant 0 <= rejected <= |attempts|
        invariant forall j :: 0 <= j < rejected ==> attempts[j].target !in db.posts
      {
        rejected := rejected + 1;
      }
      if rejected == |attempts| {
        return rejected, None;
      }
      var input := attempts[rejected];
      var r1 := InsertPost(db, replyId, PostRow(input.content, pcid.value, ReplyType));
      if r1.Failure? {
        return rejected, Some(r1.error);
      }
      InsertPostKeepsWellFormed(db, replyId, PostRow(input.content, pcid.value, ReplyType));
      db := r1.value;
      // The reply post now exists, so the update cannot be refused.
      var r2 := UpdateInstructorReply(db, input.target, replyId, ReplyColour);
      UpdateInstructorReplyKeepsWellFormed(db, input.target, replyId, ReplyColour);
      db := r2.value;
      error := None;
    }
  }
}
