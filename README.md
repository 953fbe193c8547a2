# Piazza forum store — a Dafny model

This project models the core of a Piazza-style course forum backed by a MySQL schema. It has
three parts:

- **The schema** (`tables.py`). Each table is a map keyed by its single-column primary key,
  or a set of rows when all columns form the key. One predicate, `Schema.WellFormed`, gathers
  every primary, unique and foreign key. The `ON DELETE CASCADE` rules become delete functions.
  Each INSERT and UPDATE the program issues becomes a function that either refuses the
  statement (duplicate key or missing reference) or returns the new store.
- **The user session** (`piazza_user.py`). `PiazzaSession` is a class holding the database
  and the ids that login stores. Its methods are:
  - `Login`: the re-prompting login loop.
  - `CreateThread`: four INSERTs, each committed on its own.
  - `CreateReply`: re-prompts until the post id exists, then one INSERT and one UPDATE.

  The keyword search and the instructors' statistics are pure functions over the store.
- **The seeding script** (`data.py`). Its loops are methods proved against specification
  functions:
  - the student/instructor split;
  - the PostCreator rows, folders and memberships;
  - post authorship;
  - like and view de-duplication;
  - the reply-slot loop and the colour loop;
  - the tag and folder draws.

  Every random draw and every new UUID is a parameter. Each is constrained only by what the
  drawing function guarantees.

Ids are `Schema.Uuid`, the integers below 2^128. A BINARY(16) UUID compares byte by byte, so
its primary-key order is this numeric order. The model uses that order in two places:

- "The first UserInCourse row" at login is the least CourseID of the user.
- The statistics list users in UserID order before sorting them.

Files: `wrappers.dfy` (Option, Result), `schema.dfy`, `thread_colour.dfy`, `queries.dfy`,
`session.dfy`, `seed.dfy`.

### What the schema and the code do that one might not expect

The model follows the code in each case:

- **Search.** An empty keyword becomes `'%%'`, which matches every post, so every post id is
  reported; an empty search does not return nothing. See `Queries.EmptyKeywordFindsEveryPost`.
- **Deleting a User.** This removes the user's Login, Student, Instructor, likes, views and
  memberships. It does not remove the user's PostCreator or posts, because PostCreator is the
  referenced side of the role tables' foreign key. See `Schema.DeleteUserKeepsPosts`.
- **Deleting a post.** `Thread.ThreadID` has no foreign key, so deleting a thread's own post
  leaves the Thread row in place (`Schema.DeletingRootPostKeepsThread`). Deleting a post held
  in a reply slot deletes the whole Thread row (`Schema.DeletingReplyDropsThread`).
- **create_thread.** Each of its statements is committed separately, so a refused statement
  leaves the earlier rows in place. See `Session.ThreadCreationWithUnknownFolder`.
- **create_reply.** It updates only the Thread row whose id equals the typed post id. It does
  not walk from a reply to its thread. It writes the instructor slot and colour 13 whatever
  the role (see Findings).
- **Seeding.** The reply-slot loop attaches each reply to the post just before it. That post
  must already be a recorded thread, or the script stops with an IndexError.

## Model

| member | source | states |
|---|---|---|
| Schema.WellFormed | piazza/tables.py:20-201 | every primary key, unique key and foreign key the CREATE TABLE statements declare (map keys are primary keys; Thread.ThreadID has no foreign key) |
| Schema.InsertPost | piazza/tables.py:77-87 | the Post insert is refused as a duplicate exactly when the PostID is taken, and for a missing reference exactly when the PCID has no PostCreator row; otherwise the store is the old one with exactly that Post row added |
| Schema.InsertThread | piazza/tables.py:103-115 | the Thread insert is refused as a duplicate exactly when the ThreadID is taken, and for a missing reference exactly when a non-NULL reply slot names no post; otherwise the store is the old one with exactly that Thread row added |
| Schema.InsertTag | piazza/tables.py:132-140 | the Tags insert is refused as a duplicate exactly when the (ThreadID, Tag) pair exists, and for a missing reference exactly when the thread does not; otherwise only that row is added |
| Schema.InsertPlacement | piazza/tables.py:164-175 | the ThreadInFolder insert is refused as a duplicate exactly when the row exists, and for a missing reference exactly when the thread or the (CourseID, FolderName) folder does not; otherwise only that row is added |
| Schema.UpdateInstructorReply | piazza/piazza_user.py:270-277 | the UPDATE fails only when a Thread row has the id and the reply is no post; on the matching row it sets the instructor slot and colour and keeps the student slot, every other row and table is unchanged, and with no matching row the store is unchanged |
| Schema.UpdateThread | piazza/tables.py:103-115 | the UPDATE of a Thread row fails only when a row has the id and a non-NULL slot names no post; otherwise it replaces exactly that row, and with no matching row the store is unchanged |
| Schema.DeleteThreads | piazza/tables.py:132-188 | exactly the given Thread rows go; a Tags, ThreadInFolder or UserViewsThread row stays exactly when its thread is not one of them; every other table is unchanged |
| Schema.DeletePosts | piazza/tables.py:89-115 | exactly the given posts go; a like stays exactly when its post is not one of them; exactly the Thread rows holding one of them in a reply slot go, and a tag, placement or view stays exactly when its thread is not one of those; every other table is unchanged |
| Schema.DeletePostCreator | piazza/tables.py:42-188 | the PostCreator row goes; a Student or Instructor row stays, unchanged, exactly when its PCID is another one; exactly the posts written under that PCID go, with the likes of those posts and the Thread rows replying with them; a Tags, ThreadInFolder or UserViewsThread row stays exactly when its thread is not one of those; users, logins, courses, folders and memberships are unchanged |
| Schema.DeleteUser | piazza/tables.py:20-201 | exactly the User row goes, with the Login row of its e-mail, its Student and Instructor rows and its likes, views and memberships; every other Login row stays with its password, every other user's role, like, view and membership row stays, and PostCreator, Post, Thread, Tags, CourseForum, Folder and ThreadInFolder are unchanged |
| Schema.DeleteCourse | piazza/tables.py:154-201 | the course goes; a Folder, ThreadInFolder or UserInCourse row stays exactly when it belongs to another course; every other table is unchanged |
| Schema.InsertPostKeepsWellFormed | piazza/tables.py:77-87 | an accepted Post insert (fresh PostID, PCID of an existing PostCreator) keeps every key and foreign key of the store |
| Schema.InsertThreadKeepsWellFormed | piazza/tables.py:103-115 | an accepted Thread insert (fresh ThreadID, reply slots NULL or existing posts) keeps every constraint |
| Schema.InsertTagKeepsWellFormed | piazza/tables.py:132-140 | an accepted Tags insert (new (ThreadID, Tag) pair of an existing thread) keeps every constraint |
| Schema.InsertPlacementKeepsWellFormed | piazza/tables.py:164-175 | an accepted ThreadInFolder insert (existing thread, existing (CourseID, FolderName) folder) keeps every constraint |
| Schema.UpdateInstructorReplyKeepsWellFormed | piazza/tables.py:103-115 | the UPDATE that create_reply issues, when accepted, keeps every constraint |
| Schema.UpdateThreadKeepsWellFormed | piazza/tables.py:103-115 | an accepted update of a Thread row's slots and colour keeps every constraint |
| Schema.DeleteThreadsKeepsWellFormed | piazza/tables.py:132-188 | deleting Thread rows with their Tags, ThreadInFolder and UserViewsThread rows leaves a well-formed store |
| Schema.DeletePostsKeepsWellFormed | piazza/tables.py:89-115 | deleting posts with their likes and every Thread row that records one of them in a slot leaves a well-formed store |
| Schema.DeletePostCreatorKeepsWellFormed | piazza/tables.py:50-87 | deleting a PostCreator with its Student/Instructor rows and its posts leaves a well-formed store |
| Schema.DeleteUserKeepsWellFormed | piazza/tables.py:31-201 | deleting a User with its Login, role rows, likes, views and memberships leaves a well-formed store (the Login foreign key still holds for every other e-mail) |
| Schema.DeleteCourseKeepsWellFormed | piazza/tables.py:154-201 | deleting a CourseForum with its folders, their placements and its memberships leaves a well-formed store |
| Schema.DeleteUserLeavesNoReference | piazza/tables.py:31-201 | after deleting a user, no Login, Student, Instructor, UserLikesPost, UserViewsThread or UserInCourse row refers to it, and every other user remains |
| Schema.DeleteUserKeepsPosts | piazza/tables.py:50-87 | deleting a user changes neither PostCreator, Post nor Thread, since no foreign key points from them to User |
| Schema.DeletePostCreatorRemovesItsPosts | piazza/tables.py:50-87 | deleting a PostCreator leaves no post and no role row with its PCID, and keeps every post by another PCID |
| Schema.DeletingReplyDropsThread | piazza/tables.py:103-140 | deleting a post held in a thread's reply slot deletes that Thread row and its tags, placements and views |
| Schema.DeletingRootPostKeepsThread | piazza/tables.py:103-115 | deleting a thread's own post, when it is in neither slot, keeps the Thread row unchanged |
| ThreadColour.WithReply | piazza/data.py:157-160 | the replier's role slot holds the reply and the other slot is unchanged |
| ThreadColour.SetDerivedRowKeepsColours | piazza/data.py:162-172 | writing one Thread row whose colour is derived from its slots keeps every colour derived |
| ThreadColour.Colour | piazza/data.py:162-172 | the colour lies in 0..3 and equals 2·(student slot set) + (instructor slot set) |
| ThreadColour.ReplyRaisesColour | piazza/data.py:157-172 | recording a reply raises the colour by 2 (student) or 1 (instructor) exactly when that slot was empty, and otherwise leaves it |
| ThreadColour.SameRoleReplyOverwrites | piazza/data.py:157-160 | a second reply of the same role replaces the first in its slot and leaves the colour |
| ThreadColour.ColourIgnoresReplyIds | piazza/data.py:162-172 | the colour depends only on which slots are set |
| Queries.ContainsIffOccurs | piazza/piazza_user.py:293-297 | `s LIKE '%k%'` holds exactly when `k` starts at some index of `s` |
| Queries.Search | piazza/piazza_user.py:292-347 | in a well-formed store every reported id is a Post or Thread id |
| Queries.EmptyKeywordFindsEveryPost | piazza/piazza_user.py:292-302 | the keyword `''` becomes `'%%'` and every post id is reported |
| Queries.SearchNarrowsAsKeywordGrows | piazza/piazza_user.py:292-347 | every id reported for a keyword is reported for each piece of it, on all four axes |
| Queries.PostsCreated | piazza/piazza_user.py:479-491 | the outer count of posts is 0 exactly when no post carries one of the user's PCIDs |
| Queries.ThreadsRead | piazza/piazza_user.py:493-497 | the outer count of views is 0 exactly when the user viewed no thread |
| Queries.GroupedRows | piazza/piazza_user.py:469-497 | one row per user with a Student or Instructor row, in UserID order, each holding the user's name and outer counts |
| Queries.InsertByReads | piazza/piazza_user.py:498 | inserting a row into a list sorted by threads read keeps it sorted and adds exactly that row |
| Queries.SortByReads | piazza/piazza_user.py:498 | ORDER BY threads read DESC: the result is sorted, most first, and is a permutation of its input |
| Queries.Statistics | piazza/piazza_user.py:469-498 | the statistics are sorted by threads read, most first, are a permutation of the grouped rows, and have one row per user with a role |
| Queries.StatisticsHasEveryRoleUser | piazza/piazza_user.py:479-497 | every user with a Student or Instructor row has its row in the statistics |
| Queries.StatisticsRowIsRoleUsers | piazza/piazza_user.py:479-497 | every statistics row belongs to a user with a Student or Instructor row |
| Queries.IdleUserCountsZero | piazza/piazza_user.py:479-497 | the counts are outer: a user with a role but no post and no view appears with 0 and 0 |
| Session.UserWithEmail | piazza/piazza_user.py:93-101 | the user whose UserEmail is the logged-in e-mail |
| Session.FirstCourse | piazza/piazza_user.py:123-132 | None exactly when the user has no UserInCourse row; otherwise a course of the user, the least in key order |
| Session.LoginAttempt | piazza/piazza_user.py:72-162 | one round fails with "Email not in database" exactly when the e-mail has no Login row, and with "Incorrect password" exactly when the password differs. Once the password matches, it fails for the role exactly when the e-mail's user has no row in the session's role table, and with the IndexError exactly when that user has no UserInCourse row; otherwise it succeeds. On success it stores that user, the PCID of its role row (a PostCreator) and the user's first course in key order, which exists |
| Session.PiazzaSession.constructor | piazza/piazza_user.py:39-53 | a session of the given role over a well-formed database with no ids stored |
| Session.PiazzaSession.Attempt | piazza/piazza_user.py:72-162 | one round of the login loop gives the outcome LoginAttempt specifies, storing the UserID once the password matches |
| Session.PiazzaSession.Login | piazza/piazza_user.py:55-162 | rounds repeat while they fail with one of the three messages. The round that succeeds stores its user, course and PCID. A user with no course ends the loop with the IndexError, with its UserID already stored. The database is unchanged |
| Session.ThreadCreation | piazza/piazza_user.py:201-234 | the committed statements only add rows: Post, Thread, Tags and ThreadInFolder each either stay as they were or gain exactly the new thread's row, and every other table is unchanged; with no error, all four rows are present and the id was fresh |
| Session.ThreadCreationStages | piazza/piazza_user.py:201-234 | the exact outcome at each point create_thread can stop: the refused statement and its violation, with the statements before it committed and nothing after it |
| Session.ThreadCreationAddsFourRows | piazza/piazza_user.py:201-234 | with a fresh id, a known PCID and a folder of the course, create_thread adds exactly the Post ('Thread', content, session PCID), the Thread (colour 0, both slots NULL), the Tags row and the ThreadInFolder row |
| Session.ThreadCreationWithUnknownFolder | piazza/piazza_user.py:201-234 | with a folder name the course lacks, the Post, Thread and Tags rows stay committed and the ThreadInFolder insert is refused |
| Session.ThreadCreationKeepsInvariants | piazza/piazza_user.py:201-234 | whichever statement is refused, the store stays well-formed and colours stay derived from slots |
| Session.CreatedThreadIsFound | piazza/piazza_user.py:201-347 | a created thread is found by every keyword occurring in its content, its tag or its folder name |
| Session.PiazzaSession.CreateThread | piazza/piazza_user.py:189-234 | runs the four inserts under the session's PCID and course, stopping at the first refused one, and keeps the store well-formed |
| Session.ReplyAsWritten | piazza/piazza_user.py:258-278 | as written: refused as a duplicate exactly when the reply id is a post, error-free exactly when the id is fresh and the PCID known, then the new store is the old one plus the Reply row, with the target's Thread row (if any) given InstructorReplyID and colour 13; a refused reply leaves the store unchanged |
| Session.ReplyAsWrittenBreaksColours | piazza/piazza_user.py:258-278 | as written, a reply to a thread id sets InstructorReplyID and colour 13 whatever the role. This breaks the derived-colour invariant. A reply to a non-thread id changes no Thread row |
| Session.StudentReplyExample | piazza/piazza_user.py:268-278 | a student's reply to an uncoloured thread: as written, instructor slot and colour 13; as intended, student slot and colour 2 |
| Session.ReplyByRole | piazza/piazza_user.py:258-278 | the corrected reply: refused as a duplicate exactly when the reply id is a post; without error the new store is the old one plus the Reply post, with the target's Thread row (if any) holding the reply in the replier's slot and the colour of its slots; a refused reply on a well-formed store leaves it unchanged |
| Session.ReplyByRoleKeepsInvariants | piazza/piazza_user.py:258-278 | the intended reply (the replier's own slot, colour recomputed) keeps the store well-formed and the colours derived |
| Session.PiazzaSession.CreateReply | piazza/piazza_user.py:236-280 | skips every typed id that is no post ("Wrong post id"), then runs the Reply insert and the UPDATE on the first existing target, and keeps the store well-formed |
| Seed.InstructorIds | piazza/data.py:30 | the instructors are exactly the users not drawn as students, without repeats |
| Seed.StudentInstructorPartition | piazza/data.py:28-30 | the students (75 distinct users) and the instructors are disjoint and together all users, with 75 fewer instructors than users |
| Seed.RoleRows | piazza/data.py:33-47 | the role table maps each role id to the PCID drawn beside it; its PCID column is exactly the drawn PCIDs, and is unique when they are distinct |
| Seed.SeededRoleTables | piazza/data.py:28-61 | the seeded Student and Instructor tables split the users, each has a unique PCID column, and each PCID has a PostCreator row of the matching type (Student_FK2, Instructor_FK2 and the UNIQUE KEYs hold) |
| Seed.BuildPostCreators | piazza/data.py:50-61 | a PostCreator row per student PCID with type Student, then one per instructor PCID with type Instructor |
| Seed.OneCreatorPerRole | piazza/data.py:50-61 | with fresh PCIDs, each PCID has exactly one PostCreator row, of its role's type, and so replies as that role |
| Seed.BuildFolders | piazza/data.py:86-95 | one Folder row per fixed folder name in the course, without repeats |
| Seed.BuildMemberships | piazza/data.py:98-106 | every user, and only the users, is placed in the single course, each once |
| Seed.AssignAuthors | piazza/data.py:110-119 | every post gets its new id and its drawn PCID, all other columns unchanged |
| Seed.Dedup | piazza/data.py:134 | drop_duplicates keeps every drawn row and no row twice |
| Seed.SeededLikes | piazza/data.py:129-134 | the likes are exactly the drawn (user, post) pairs, each once, over seeded users and posts |
| Seed.SeededViews | piazza/data.py:181-185 | the views are exactly the drawn (user, thread) pairs, each once, over seeded users and threads |
| Seed.Preceding | piazza/data.py:150 | `iloc[ind - 1]` names a row of the table |
| Seed.PrecedingWrapsAround | piazza/data.py:150 | row `ind` follows its preceding row cyclically, so row 0 reads the last row |
| Seed.CreatorTypes | piazza/data.py:152-156 | the CreatorType values listed for a PCID are exactly the types of its PostCreator rows |
| Seed.ReplierRole | piazza/data.py:152-160 | a reply's author counts as Instructor exactly when its PCID has an Instructor row (tested first), as Student exactly when it has a Student row and no Instructor row, and has no role otherwise |
| Seed.RecordPost | piazza/data.py:144-160 | one round crashes exactly when the post is a Reply whose preceding post is not a recorded thread; a Thread post appends an uncoloured row with no replies; a Reply whose author has a role writes its id into that role's slot on the first row of the preceding post's id, changing nothing else; any other post changes nothing |
| Seed.ThreadsAfter | piazza/data.py:144-160 | the thread table after the first n posts has at most n rows |
| Seed.CrashPoint | piazza/data.py:148-151 | a crash is raised by a Reply post whose preceding post is not a recorded thread, all earlier posts having been recorded |
| Seed.FindThread | piazza/data.py:151 | the first row of the thread table with the id, or None when there is none |
| Seed.CrashIsFinal | piazza/data.py:151 | once the IndexError is raised, no later post changes the outcome |
| Seed.BuildThreads | piazza/data.py:144-160 | the reply-slot loop computes the thread table, or the index of the post that crashes it |
| Seed.ThreadPostIds | piazza/data.py:145-147 | the listed ids are exactly the ids of the Thread posts so far |
| Seed.ThreadRowsAreThreadPosts | piazza/data.py:144-147 | every Thread post gives exactly one thread row with its id, in post order, and no colour yet |
| Seed.RecordedRepliesBelongToTheirThread | piazza/data.py:148-160 | every filled slot holds a Reply post whose preceding post is that thread and whose author has the slot's role |
| Seed.SeedingSucceedsIff | piazza/data.py:148-151 | with distinct post ids, the loop finishes exactly when every Reply directly follows a Thread post |
| Seed.RepliesAreRecorded | piazza/data.py:148-160 | every Reply whose author has a role is recorded on the row of the post before it: that role's slot holds the latest reply of that role to that thread, which is this reply or a later one |
| Seed.AtMostOneReplyPerThread | piazza/data.py:148-172 | with distinct post ids no seeded thread gets both slots, so no seeded colour is 3 |
| Seed.DeriveColours | piazza/data.py:162-172 | the colour loop gives each thread row, in place, the colour of its slots |
| Seed.Picks | piazza/data.py:203-209 | every (thread, name) row names one of the given threads |
| Seed.AssignPicks | piazza/data.py:203-209 | the tag loop (and the folder loop) appends, thread by thread, one row per drawn name |
| Seed.PicksMembership | piazza/data.py:203-209 | a (thread, name) row is present exactly when the name was drawn for that thread |
| Seed.PicksDistinct | piazza/data.py:220-227 | with distinct threads and distinct draws, no (thread, name) row repeats, so the Tags and ThreadInFolder keys hold |
| Seed.ThreadPicks | piazza/data.py:203-227 | each thread gets exactly the names drawn for it, as many as drawn; a draw between `lo` and `hi` names (0–3 tags, `randint(0, 3)`; 1–3 folders, `randint(1, 3)`) gives that thread between `lo` and `hi` rows |
| Seed.PicksFromList | piazza/data.py:220-227 | every row names a seeded thread and a name from the fixed list the draw came from |

## Left out

- Interactive I/O is not modelled: the menus, `input` and `getpass` prompts, the PrettyTable
  printing and `sys.exit`. Each prompt's answers become an input sequence (`Login`,
  `CreateReply`) or a parameter (`CreateThread`).
- Session.PiazzaSession.Login: the source loops until a round succeeds. When the input
  sequence runs out, the model returns `InputExhausted`; this status exists only in the model.
- Session.PiazzaSession.constructor: the MySQL connection is left out. The store is passed in,
  and login is called separately.
- Database creation and CSV bulk loading are not modelled. That code lives in `utils.py`,
  which is not part of this model.
- Connections, cursors and commits are not modelled. Each statement is treated as committed on
  its own, in order. Concurrent sessions and transactions are not modelled.
- UUID generation and the BIN_TO_UUID and bytes conversions are not modelled. New ids are
  parameters, and a reused id is refused as a duplicate key.
- `LIKE` is modelled as plain substring containment. The collation's folding of letter case
  and accents and the `%` and `_` wildcards in a typed keyword are not modelled.
- Column widths (varchar(100), varchar(500), int(10)) are not modelled. Strings and colours are
  unbounded.
- `ON UPDATE CASCADE` is not modelled, because the code never updates a key.
- The DiscussionPost table is not modelled; no code reads or writes it.
- Queries.Statistics: MySQL leaves the order of equal thread counts unspecified. The model fixes
  it as UserID order.
- Search results are a set. The list order after `set()` is unspecified in the source.
- Session.LoginAttempt, Session.PiazzaSession.Login: the database is created with
  `DEFAULT CHARACTER SET 'utf8'` (utils.py:32), whose default collation, utf8_general_ci,
  compares strings without regard to case, accents or trailing spaces (it is PAD SPACE for
  `=`). The model compares e-mails and passwords exactly, so an e-mail typed in another case,
  with an accent dropped or with a trailing space is refused where MySQL would accept it.
- Schema.InsertTag, Schema.InsertPlacement: for the same reason the Tags key and the
  ThreadInFolder folder reference compare names without regard to case, accents or trailing
  spaces in MySQL, so MySQL refuses as duplicates, or accepts as references, names the model
  holds distinct; the model compares them exactly.
- Schema.WellFormed: the UNIQUE KEY on UserEmail and the Login foreign key likewise ignore case,
  accents and trailing spaces in MySQL; the model's UniqueEmails and Login reference compare
  exactly.
- Session.PiazzaSession.CreateThread: in the source a refused INSERT raises an uncaught
  mysql.connector error and the program ends (piazza_user.py:202-234, main.py:42-50). The model
  returns the violation and leaves the session open; the rows already committed are the same.
- Session.PiazzaSession.CreateReply: the source keeps prompting until an existing post id is
  typed. When the input sequence runs out, the model returns with every attempt rejected, no
  error and the store unchanged; this outcome exists only in the model.
- Session.PiazzaSession.CreateReply: in the source a refused INSERT of the Reply post raises an
  uncaught mysql.connector error and the program ends (piazza_user.py:259-266, main.py:42-50).
  The model returns the violation and keeps the session open; the store is the same.
- In the seeding script, the random draws (`random.sample`, `random.choices`, `random.randint`)
  are not modelled. They become parameters, constrained only by the draw's guarantees: distinct
  draws for `sample`, and the size ranges as stated in the lemmas.
- The seeding script's CSV reads and writes are not modelled.
- The Login file (column concatenation of e-mails and passwords, data.py:64-68) and the single
  CourseForum row (data.py:70-84) are not modelled. Both are constant data with no logic.
- Seed.DeriveColours: the NaN colour before the colour loop is `None`, and the float/int
  conversion of the CSV column is not modelled.

## Findings

| source | as written | input that shows it | evidently intended | confidence | as-written member | corrected member |
|---|---|---|---|---|---|---|
| piazza/piazza_user.py:270-277 | every reply sets InstructorReplyID to the reply and ThreadColor to 13, whatever the replier's role; StudentReplyID is never written | a student (PCID 2) replies (post 4) to thread 3, which has no replies: the row becomes colour 13 with the reply in the instructor slot | the replier's own slot is set and the colour is recomputed as 2·student + instructor (here colour 2, student slot 4), as the seeding script's colour loop does | medium; not executed | Session.ReplyAsWrittenBreaksColours | Session.ReplyByRoleKeepsInvariants |

`Session.ReplyAsWritten` models the statements as written. `PiazzaSession.CreateReply` runs
them, so the session stays faithful to the program. `Session.StudentReplyExample` shows the
difference on the concrete input above. `Session.ReplyByRole` is the corrected reply. It is
built from `ThreadColour.WithReply` and `ThreadColour.Colour`, the same slot and colour rules
the seeding loop (`Seed.BuildThreads`, `Seed.DeriveColours`) uses.
