/**
 * The relational store of the forum: one table per entity of the schema, keyed exactly as
 * the schema keys it, the constraints the schema declares, the INSERT and UPDATE statements
 * the session issues (each checked against those constraints), and the ON DELETE CASCADE
 * rules as deletion functions.
 */
module Schema {
  import opened Wrappers

  /** A BINARY(16) identifier: the 128 bits of a UUID read as an unsigned big-endian number,
      so that comparing two identifiers compares their bytes. */
  newtype Uuid = x: int | 0 <= x < 0x1_0000_0000_0000_0000_0000_0000_0000_0000

  /** Values of `PostCreator.CreatorType` and `Post.PostType` that the code writes and tests. */
  const StudentType: string := "Student"
  const InstructorType: string := "Instructor"
  const ThreadType: string := "Thread"
  const ReplyType: string := "Reply"

  /** Which role table a session looks itself up in (the Student or Instructor subclass). */
  datatype Role = Student | Instructor

  datatype UserRow = UserRow(name: string, email: string)
  datatype PostRow = PostRow(content: string, pcid: Uuid, postType: string)
  /** The two nullable reply columns of a Thread row. */
  datatype Slots = Slots(studentReply: Option<Uuid>, instructorReply: Option<Uuid>)
  datatype ThreadRow = ThreadRow(colour: int, slots: Slots)
  datatype CourseRow = CourseRow(name: string, term: string, postAnonymity: bool, invitationUrl: string)

  /** Rows of the tables whose primary key is the whole row. */
  datatype Like = Like(user: Uuid, post: Uuid)
  datatype View = View(user: Uuid, thread: Uuid)
  datatype Tag = Tag(thread: Uuid, tag: string)
  datatype Folder = Folder(course: Uuid, name: string)
  datatype Placement = Placement(thread: Uuid, course: Uuid, folder: string)
  datatype Membership = Membership(user: Uuid, course: Uuid)

  /** The database: a map per table with a single-column key, a set of rows per table whose
      key is all of its columns. */
  datatype Store = Store(
    users: map<Uuid, UserRow>,          // User, keyed by UserID
    logins: map<string, string>,        // Login, UserEmail -> Password
    creators: map<Uuid, string>,        // PostCreator, PCID -> CreatorType
    students: map<Uuid, Uuid>,          // Student, StudentID -> PCID
    instructors: map<Uuid, Uuid>,       // Instructor, InstructorID -> PCID
    posts: map<Uuid, PostRow>,          // Post, keyed by PostID
    likes: set<Like>,                   // UserLikesPost
    threads: map<Uuid, ThreadRow>,      // Thread, keyed by ThreadID
    tags: set<Tag>,                     // Tags
    courses: map<Uuid, CourseRow>,      // CourseForum, keyed by CourseID
    folders: set<Folder>,               // Folder
    placements: set<Placement>,         // ThreadInFolder
    views: set<View>,                   // UserViewsThread
    memberships: set<Membership>)       // UserInCourse

  const EmptyStore: Store :=
    Store(map[], map[], map[], map[], map[], map[], {}, map[], {}, map[], {}, {}, {}, {})

  /** The role table a session of the given role queries. */
  function RoleTable(db: Store, role: Role): map<Uuid, Uuid> {
    if role == Student then db.students else db.instructors
  }

  function Emails(db: Store): set<string> {
    set u | u in db.users :: db.users[u].email
  }

  /** UNIQUE KEY on User.UserEmail. */
  predicate UniqueEmails(db: Store) {
    forall u, v :: u in db.users && v in db.users && db.users[u].email == db.users[v].email ==> u == v
  }

  /** UNIQUE KEY on the PCID column of one role table. */
  predicate UniquePcids(table: map<Uuid, Uuid>) {
    forall u, v :: u in table && v in table && table[u] == table[v] ==> u == v
  }

  predicate RefersToPost(slot: Option<Uuid>, posts: map<Uuid, PostRow>) {
    slot.Some? ==> slot.value in posts
  }

  /** Keys and foreign keys of User, Login, PostCreator, Student and Instructor. */
  predicate IdentityIntegrity(db: Store) {
    && UniqueEmails(db)
    && db.logins.Keys <= Emails(db)
    && db.students.Keys <= db.users.Keys
    && db.students.Values <= db.creators.Keys
    && UniquePcids(db.students)
    && db.instructors.Keys <= db.users.Keys
    && db.instructors.Values <= db.creators.Keys
    && UniquePcids(db.instructors)
  }

  /** Foreign keys of Post, UserLikesPost, Thread, Tags and UserViewsThread. */
  predicate PostIntegrity(db: Store) {
    && (forall p :: p in db.posts ==> db.posts[p].pcid in db.creators)
    && (forall l :: l in db.likes ==> l.user in db.users && l.post in db.posts)
    && (forall t :: t in db.threads ==>
          RefersToPost(db.threads[t].slots.studentReply, db.posts) &&
          RefersToPost(db.threads[t].slots.instructorReply, db.posts))
    && (forall g :: g in db.tags ==> g.thread in db.threads)
    && (forall v :: v in db.views ==> v.user in db.users && v.thread in db.threads)
  }

  /** Foreign keys of Folder, ThreadInFolder and UserInCourse. */
  predicate CourseIntegrity(db: Store) {
    && (forall f :: f in db.folders ==> f.course in db.courses)
    && (forall pl :: pl in db.placements ==> pl.thread in db.threads && Folder(pl.course, pl.folder) in db.folders)
    && (forall m :: m in db.memberships ==> m.user in db.users && m.course in db.courses)
  }

  /** Every constraint the schema declares. Thread.ThreadID has no foreign key, so a Thread
      row need not have a Post with its id. */
  predicate WellFormed(db: Store) {
    IdentityIntegrity(db) && PostIntegrity(db) && CourseIntegrity(db)
  }

  // ----- Key order -----

  lemma {:induction false} LeastExists(s: set<Uuid>)
    requires s != {}
    ensures exists m :: m in s && IsLeast(m, s)
  {
    var y :| y in s;
    if s == {y} {
      assert IsLeast(y, s);
    } else {
      var rest := s - {y};
      LeastExists(rest);
      var m :| m in rest && IsLeast(m, rest);
      var least := if y < m then y else m;
      forall x | x in s
        ensures least <= x
      {
        if x != y { assert x in rest; }
      }
      assert least in s && IsLeast(least, s);
    }
  }

  predicate IsLeast(m: Uuid, s: set<Uuid>) {
    forall x :: x in s ==> m <= x
  }

  /** The smallest key of a set: the first of its rows in primary key order. */
  function Least(s: set<Uuid>): (m: Uuid)
    requires s != {}
    ensures m in s && forall x :: x in s ==> m <= x
  {
    LeastExists(s);
    var m :| m in s && IsLeast(m, s);
    m
  }

  /** The keys of a set in primary key order. */
  function Ascending(s: set<Uuid>): (r: seq<Uuid>)
    ensures |r| == |s|
    ensures forall x :: x in r <==> x in s
    ensures forall i, j :: 0 <= i < j < |r| ==> r[i] < r[j]
    decreases s
  {
    if s == {} then []
    else
      var m := Least(s);
      var rest := Ascending(s - {m});
      assert |s - {m}| == |s| - 1;
      var r := [m] + rest;
      assert forall i, j :: 0 <= i < j < |r| ==> r[i] < r[j] by {
        forall i, j | 0 <= i < j < |r|
          ensures r[i] < r[j]
        {
          assert r[j] == rest[j - 1] && r[j] in s - {m};
          if i > 0 {
            assert r[i] == rest[i - 1];
          }
        }
      }
      r
  }

  // ----- Statements -----

  /** Why a statement is refused: a primary or unique key taken, or a foreign key dangling. */
  datatype Violation = DuplicateKey | MissingReference

  /** INSERT INTO Post. */
  function InsertPost(db: Store, id: Uuid, row: PostRow): (r: Result<Store, Violation>)
    ensures r == Failure(DuplicateKey) <==> id in db.posts
    ensures r == Failure(MissingReference) <==> id !in db.posts && row.pcid !in db.creators
    ensures r.Success? ==> r.value.posts.Keys == db.posts.Keys + {id} && r.value.posts[id] == row
    ensures r.Success? ==> r.value == db.(posts := db.posts[id := row])
  {
    if id in db.posts then Failure(DuplicateKey)
    else if row.pcid !in db.creators then Failure(MissingReference)
    else Success(db.(posts := db.posts[id := row]))
  }

  /** INSERT INTO Thread. */
  function InsertThread(db: Store, id: Uuid, row: ThreadRow): (r: Result<Store, Violation>)
    ensures r == Failure(DuplicateKey) <==> id in db.threads
    ensures r == Failure(MissingReference) <==>
              id !in db.threads &&
              !(RefersToPost(row.slots.studentReply, db.posts) && RefersToPost(row.slots.instructorReply, db.posts))
    ensures r.Success? ==> r.value.threads.Keys == db.threads.Keys + {id} && r.value.threads[id] == row
    ensures r.Success? ==> r.value == db.(threads := db.threads[id := row])
  {
    if id in db.threads then Failure(DuplicateKey)
    else if !RefersToPost(row.slots.studentReply, db.posts) || !RefersToPost(row.slots.instructorReply, db.posts)
    then Failure(MissingReference)
    else Success(db.(threads := db.threads[id := row]))
  }

  /** INSERT INTO Tags. */
  function InsertTag(db: Store, g: Tag): (r: Result<Store, Violation>)
    ensures r == Failure(DuplicateKey) <==> g in db.tags
    ensures r == Failure(MissingReference) <==> g !in db.tags && g.thread !in db.threads
    ensures r.Success? ==> r.value == db.(tags := db.tags + {g})
  {
    if g in db.tags then Failure(DuplicateKey)
    else if g.thread !in db.threads then Failure(MissingReference)
    else Success(db.(tags := db.tags + {g}))
  }

  /** INSERT INTO ThreadInFolder. */
  function InsertPlacement(db: Store, pl: Placement): (r: Result<Store, Violation>)
    ensures r == Failure(DuplicateKey) <==> pl in db.placements
    ensures r == Failure(MissingReference) <==>
              pl !in db.placements && (pl.thread !in db.threads || Folder(pl.course, pl.folder) !in db.folders)
    ensures r.Success? ==> r.value == db.(placements := db.placements + {pl})
  {
    if pl in db.placements then Failure(DuplicateKey)
    else if pl.thread !in db.threads || Folder(pl.course, pl.folder) !in db.folders then Failure(MissingReference)
    else Success(db.(placements := db.placements + {pl}))
  }

  /** UPDATE Thread SET InstructorReplyID = reply, ThreadColor = colour WHERE ThreadID = id:
      no row changes when no Thread has that id. */
  function UpdateInstructorReply(db: Store, id: Uuid, reply: Uuid, colour: int): (r: Result<Store, Violation>)
    ensures r.Failure? <==> id in db.threads && reply !in db.posts
    ensures r.Failure? ==> r.error == MissingReference
    ensures r.Success? ==> r.value.threads.Keys == db.threads.Keys
    ensures r.Success? && id in db.threads ==>
              && r.value.threads[id].colour == colour
              && r.value.threads[id].slots.instructorReply == Some(reply)
              && r.value.threads[id].slots.studentReply == db.threads[id].slots.studentReply
    ensures r.Success? && id in db.threads ==>
              r.value == db.(threads := db.threads[id := ThreadRow(colour, db.threads[id].slots.(instructorReply := Some(reply)))])
    ensures r.Success? && id !in db.threads ==> r.value == db
  {
    if id !in db.threads then Success(db)
    else if reply !in db.posts then Failure(MissingReference)
    else
      var row := db.threads[id];
      Success(db.(threads := db.threads[id := ThreadRow(colour, row.slots.(instructorReply := Some(reply)))]))
  }

  /** UPDATE Thread SET StudentReplyID = ..., InstructorReplyID = ..., ThreadColor = ...
      WHERE ThreadID = id. */
  function UpdateThread(db: Store, id: Uuid, row: ThreadRow): (r: Result<Store, Violation>)
    ensures r.Failure? <==>
              id in db.threads &&
              !(RefersToPost(row.slots.studentReply, db.posts) && RefersToPost(row.slots.instructorReply, db.posts))
    ensures r.Failure? ==> r.error == MissingReference
    ensures r.Success? && id in db.threads ==> r.value == db.(threads := db.threads[id := row])
    ensures r.Success? && id !in db.threads ==> r.value == db
  {
    if id !in db.threads then Success(db)
    else if !RefersToPost(row.slots.studentReply, db.posts) || !RefersToPost(row.slots.instructorReply, db.posts)
    then Failure(MissingReference)
    else Success(db.(threads := db.threads[id := row]))
  }

  lemma InsertPostKeepsWellFormed(db: Store, id: Uuid, row: PostRow)
    requires WellFormed(db) && InsertPost(db, id, row).Success?
    ensures WellFormed(InsertPost(db, id, row).value)
  {
    var db' := InsertPost(db, id, row).value;
    assert Emails(db') == Emails(db);
  }

  lemma InsertThreadKeepsWellFormed(db: Store, id: Uuid, row: ThreadRow)
    requires WellFormed(db) && InsertThread(db, id, row).Success?
    ensures WellFormed(InsertThread(db, id, row).value)
  {
    var db' := InsertThread(db, id, row).value;
    assert Emails(db') == Emails(db);
  }

  lemma InsertTagKeepsWellFormed(db: Store, g: Tag)
    requires WellFormed(db) && InsertTag(db, g).Success?
    ensures WellFormed(InsertTag(db, g).value)
  {
    var db' := InsertTag(db, g).value;
    assert Emails(db') == Emails(db);
  }

  lemma InsertPlacementKeepsWellFormed(db: Store, pl: Placement)
    requires WellFormed(db) && InsertPlacement(db, pl).Success?
    ensures WellFormed(InsertPlacement(db, pl).value)
  {
    var db' := InsertPlacement(db, pl).value;
    assert Emails(db') == Emails(db);
  }

  lemma UpdateInstructorReplyKeepsWellFormed(db: Store, id: Uuid, reply: Uuid, colour: int)
    requires WellFormed(db) && UpdateInstructorReply(db, id, reply, colour).Success?
    ensures WellFormed(UpdateInstructorReply(db, id, reply, colour).value)
  {
    var db' := UpdateInstructorReply(db, id, reply, colour).value;
    assert Emails(db') == Emails(db);
  }

  lemma UpdateThreadKeepsWellFormed(db: Store, id: Uuid, row: ThreadRow)
    requires WellFormed(db) && UpdateThread(db, id, row).Success?
    ensures WellFormed(UpdateThread(db, id, row).value)
  {
    var db' := UpdateThread(db, id, row).value;
    assert Emails(db') == Emails(db);
  }

  // ----- ON DELETE CASCADE -----

  /** Deletes the Thread rows `ts`; their Tags, ThreadInFolder and UserViewsThread rows go with them. */
  function DeleteThreads(db: Store, ts: set<Uuid>): (r: Store)
    ensures r.threads.Keys == db.threads.Keys - ts
    ensures forall g :: g in r.tags ==> g.thread !in ts
    ensures forall pl :: pl in r.placements ==> pl.thread !in ts
    ensures forall v :: v in r.views ==> v.thread !in ts
    ensures r.posts == db.posts
    ensures r.threads == db.threads - ts
    ensures forall g :: g in r.tags <==> g in db.tags && g.thread !in ts
    ensures forall pl :: pl in r.placements <==> pl in db.placements && pl.thread !in ts
    ensures forall v :: v in r.views <==> v in db.views && v.thread !in ts
    ensures r == db.(threads := r.threads, tags := r.tags, placements := r.placements, views := r.views)
  {
    db.(threads := db.threads - ts,
        tags := (set g | g in db.tags && g.thread !in ts),
        placements := (set pl | pl in db.placements && pl.thread !in ts),
        views := (set v | v in db.views && v.thread !in ts))
  }

  predicate SlotIn(slot: Option<Uuid>, ids: set<Uuid>) {
    slot.Some? && slot.value in ids
  }

  /** Thread rows one of whose reply slots holds one of `ps`. */
  function ThreadsReplyingWith(db: Store, ps: set<Uuid>): set<Uuid> {
    set t | t in db.threads && (SlotIn(db.threads[t].slots.studentReply, ps) || SlotIn(db.threads[t].slots.instructorReply, ps))
  }

  /** Deletes the Post rows `ps`: the likes of those posts go, and so does every Thread row
      whose reply slot holds one of them (with that thread's own dependants). */
  function DeletePosts(db: Store, ps: set<Uuid>): (r: Store)
    ensures r.posts.Keys == db.posts.Keys - ps
    ensures forall l :: l in r.likes ==> l.post !in ps
    ensures r.threads.Keys == db.threads.Keys - ThreadsReplyingWith(db, ps)
    ensures r.posts == db.posts - ps
    ensures forall l :: l in r.likes <==> l in db.likes && l.post !in ps
    ensures r.threads == db.threads - ThreadsReplyingWith(db, ps)
    ensures forall g :: g in r.tags <==> g in db.tags && g.thread !in ThreadsReplyingWith(db, ps)
    ensures forall pl :: pl in r.placements <==> pl in db.placements && pl.thread !in ThreadsReplyingWith(db, ps)
    ensures forall v :: v in r.views <==> v in db.views && v.thread !in ThreadsReplyingWith(db, ps)
    ensures r == db.(posts := r.posts, likes := r.likes, threads := r.threads, tags := r.tags,
                     placements := r.placements, views := r.views)
  {
    var dropped := ThreadsReplyingWith(db, ps);
    DeleteThreads(db.(posts := db.posts - ps, likes := (set l | l in db.likes && l.post !in ps)), dropped)
  }

  function PostsBy(db: Store, pc: Uuid): set<Uuid> {
    set p | p in db.posts && db.posts[p].pcid == pc
  }

  /** Deletes the PostCreator `pc`: its Student and Instructor rows go, and so do its posts. */
  function DeletePostCreator(db: Store, pc: Uuid): (r: Store)
    ensures r.creators == db.creators - {pc}
    ensures r.posts.Keys == db.posts.Keys - PostsBy(db, pc)
    ensures forall x :: x in r.students <==> x in db.students && db.students[x] != pc
    ensures forall x :: x in r.students ==> r.students[x] == db.students[x]
    ensures forall x :: x in r.instructors <==> x in db.instructors && db.instructors[x] != pc
    ensures forall x :: x in r.instructors ==> r.instructors[x] == db.instructors[x]
    ensures r.posts == db.posts - PostsBy(db, pc)
    ensures forall l :: l in r.likes <==> l in db.likes && l.post !in PostsBy(db, pc)
    ensures r.threads == db.threads - ThreadsReplyingWith(db, PostsBy(db, pc))
    ensures forall g :: g in r.tags <==> g in db.tags && g.thread !in ThreadsReplyingWith(db, PostsBy(db, pc))
    ensures forall pl :: pl in r.placements <==> pl in db.placements && pl.thread !in ThreadsReplyingWith(db, PostsBy(db, pc))
    ensures forall v :: v in r.views <==> v in db.views && v.thread !in ThreadsReplyingWith(db, PostsBy(db, pc))
    ensures r == db.(creators := r.creators, students := r.students, instructors := r.instructors,
                     posts := r.posts, likes := r.likes, threads := r.threads, tags := r.tags,
                     placements := r.placements, views := r.views)
  {
    var rest := db.(creators := db.creators - {pc},
                    students := map u | u in db.students && db.students[u] != pc :: db.students[u],
                    instructors := map u | u in db.instructors && db.instructors[u] != pc :: db.instructors[u]);
    DeletePosts(rest, PostsBy(db, pc))
  }

  /** Deletes the User `u`: its Login row (by e-mail), Student and Instructor rows, likes,
      views and course memberships go with it. PostCreator is referenced by the role tables,
      not the other way round, so the user's PostCreator and posts stay. */
  function DeleteUser(db: Store, u: Uuid): (r: Store)
    ensures r.users == db.users - {u}
    ensures forall e :: e in r.logins <==> e in db.logins && (u in db.users ==> e != db.users[u].email)
    ensures forall e :: e in r.logins ==> r.logins[e] == db.logins[e]
    ensures r.students == db.students - {u}
    ensures r.instructors == db.instructors - {u}
    ensures forall l :: l in r.likes <==> l in db.likes && l.user != u
    ensures forall v :: v in r.views <==> v in db.views && v.user != u
    ensures forall m :: m in r.memberships <==> m in db.memberships && m.user != u
    ensures r == db.(users := r.users, logins := r.logins, students := r.students, instructors := r.instructors,
                     likes := r.likes, views := r.views, memberships := r.memberships)
  {
    var email := if u in db.users then {db.users[u].email} else {};
    db.(users := db.users - {u},
        logins := db.logins - email,
        students := db.students - {u},
        instructors := db.instructors - {u},
        likes := (set l | l in db.likes && l.user != u),
        views := (set v | v in db.views && v.user != u),
        memberships := (set m | m in db.memberships && m.user != u))
  }

  /** Deletes the CourseForum `c`: its folders (and the threads' placements in them) and its
      memberships go. */
  function DeleteCourse(db: Store, c: Uuid): (r: Store)
    ensures r.courses == db.courses - {c}
    ensures forall f :: f in r.folders <==> f in db.folders && f.course != c
    ensures forall pl :: pl in r.placements <==> pl in db.placements && pl.course != c
    ensures forall m :: m in r.memberships <==> m in db.memberships && m.course != c
    ensures r.threads == db.threads && r.posts == db.posts && r.tags == db.tags
    ensures r == db.(courses := r.courses, folders := r.folders, placements := r.placements, memberships := r.memberships)
  {
    db.(courses := db.courses - {c},
        folders := (set f | f in db.folders && f.course != c),
        placements := (set pl | pl in db.placements && pl.course != c),
        memberships := (set m | m in db.memberships && m.course != c))
  }

  lemma DeleteThreadsKeepsWellFormed(db: Store, ts: set<Uuid>)
    requires WellFormed(db)
    ensures WellFormed(DeleteThreads(db, ts))
  {
  }

  lemma DeletePostsKeepsWellFormed(db: Store, ps: set<Uuid>)
    requires WellFormed(db)
    ensures WellFormed(DeletePosts(db, ps))
  {
  }

  lemma DeletePostCreatorKeepsWellFormed(db: Store, pc: Uuid)
    requires WellFormed(db)
    ensures WellFormed(DeletePostCreator(db, pc))
  {
    DeletePostCreatorKeepsIdentities(db, pc);
    DeletePostCreatorKeepsPostReferences(db, pc);
    DeletePostCreatorKeepsCourseReferences(db, pc);
  }

  lemma DeletePostCreatorKeepsIdentities(db: Store, pc: Uuid)
    requires WellFormed(db)
    ensures IdentityIntegrity(DeletePostCreator(db, pc))
  {
    var r := DeletePostCreator(db, pc);
    assert r.users == db.users && r.logins == db.logins;
    assert Emails(r) == Emails(db);
    forall x | x in r.students.Values
      ensures x in r.creators
    {
      var u :| u in r.students && r.students[u] == x;
      assert db.students[u] == x != pc;
    }
    forall x | x in r.instructors.Values
      ensures x in r.creators
    {
      var u :| u in r.instructors && r.instructors[u] == x;
      assert db.instructors[u] == x != pc;
    }
  }

  lemma DeletePostCreatorKeepsPostReferences(db: Store, pc: Uuid)
    requires WellFormed(db)
    ensures PostIntegrity(DeletePostCreator(db, pc))
  {
    var r := DeletePostCreator(db, pc);
    var dropped := ThreadsReplyingWith(db, PostsBy(db, pc));
    forall t | t in r.threads
      ensures RefersToPost(r.threads[t].slots.studentReply, r.posts)
      ensures RefersToPost(r.threads[t].slots.instructorReply, r.posts)
    {
      assert t in db.threads && t !in dropped;
    }
    assert forall g :: g in r.tags ==> g in db.tags && g.thread !in dropped;
    assert forall v :: v in r.views ==> v in db.views && v.thread !in dropped;
  }

  lemma DeletePostCreatorKeepsCourseReferences(db: Store, pc: Uuid)
    requires WellFormed(db)
    ensures CourseIntegrity(DeletePostCreator(db, pc))
  {
  }

  lemma DeleteUserKeepsWellFormed(db: Store, u: Uuid)
    requires WellFormed(db)
    ensures WellFormed(DeleteUser(db, u))
  {
    DeleteUserKeepsIdentities(db, u);
    DeleteUserKeepsPostReferences(db, u);
    DeleteUserKeepsCourseReferences(db, u);
  }

  lemma DeleteUserKeepsIdentities(db: Store, u: Uuid)
    requires WellFormed(db)
    ensures IdentityIntegrity(DeleteUser(db, u))
  {
    var db' := DeleteUser(db, u);
    forall e | e in db'.logins
      ensures e in Emails(db')
    {
      var v :| v in db.users && db.users[v].email == e;
      assert v != u;
      assert v in db'.users;
    }
  }

  lemma DeleteUserKeepsPostReferences(db: Store, u: Uuid)
    requires WellFormed(db)
    ensures PostIntegrity(DeleteUser(db, u))
  {
  }

  lemma DeleteUserKeepsCourseReferences(db: Store, u: Uuid)
    requires WellFormed(db)
    ensures CourseIntegrity(DeleteUser(db, u))
  {
  }

  lemma DeleteCourseKeepsWellFormed(db: Store, c: Uuid)
    requires WellFormed(db)
    ensures WellFormed(DeleteCourse(db, c))
  {
  }

  /** After deleting a user, no row of any table that references User refers to it. */
  lemma DeleteUserLeavesNoReference(db: Store, u: Uuid)
    requires WellFormed(db) && u in db.users
    ensures var db' := DeleteUser(db, u);
      && u !in db'.users && db.users[u].email !in db'.logins
      && u !in db'.students && u !in db'.instructors
      && (forall l :: l in db'.likes ==> l.user != u)
      && (forall v :: v in db'.views ==> v.user != u)
      && (forall m :: m in db'.memberships ==> m.user != u)
      && db'.users == db.users - {u}
  {
  }

  /** Deleting a user leaves its PostCreator rows and its posts in place. */
  lemma DeleteUserKeepsPosts(db: Store, u: Uuid)
    ensures DeleteUser(db, u).creators == db.creators
    ensures DeleteUser(db, u).posts == db.posts
    ensures DeleteUser(db, u).threads == db.threads
  {
  }

  /** Deleting a PostCreator removes every post it authored and every role row pointing at it. */
  lemma DeletePostCreatorRemovesItsPosts(db: Store, pc: Uuid)
    ensures var db' := DeletePostCreator(db, pc);
      && pc !in db'.creators
      && (forall p :: p in db'.posts ==> db'.posts[p].pcid != pc)
      && (forall s :: s in db'.students ==> db'.students[s] != pc)
      && (forall i :: i in db'.instructors ==> db'.instructors[i] != pc)
      && (forall p :: p in db.posts && db.posts[p].pcid != pc ==> p in db'.posts)
  {
  }

  /** Deleting a post recorded in a reply slot deletes the whole Thread row, with its tags,
      placements and views. */
  lemma DeletingReplyDropsThread(db: Store, p: Uuid, t: Uuid)
    requires t in db.threads
    requires db.threads[t].slots.studentReply == Some(p) || db.threads[t].slots.instructorReply == Some(p)
    ensures var db' := DeletePosts(db, {p});
      && t !in db'.threads
      && (forall g :: g in db'.tags ==> g.thread != t)
      && (forall pl :: pl in db'.placements ==> pl.thread != t)
      && (forall v :: v in db'.views ==> v.thread != t)
  {
    assert t in ThreadsReplyingWith(db, {p});
  }

  /** Thread.ThreadID has no foreign key: deleting a thread's own post keeps the Thread row
      unless that post also sits in one of its reply slots. */
  lemma DeletingRootPostKeepsThread(db: Store, t: Uuid)
    requires t in db.threads
    requires db.threads[t].slots.studentReply != Some(t) && db.threads[t].slots.instructorReply != Some(t)
    ensures var db' := DeletePosts(db, {t});
      t !in db'.posts && t in db'.threads && db'.threads[t] == db.threads[t]
  {
  }
}
