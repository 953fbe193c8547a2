/**
 * The seeding script that builds the CSV files the database is loaded from. Every random
 * choice (the student sample, the author of each post, the liked and viewed pairs, the tags
 * and folders of each thread) and every new UUID is a parameter, constrained only as the
 * random function that makes it guarantees.
 */
module Seed {
  import opened Wrappers
  import opened Schema
  import opened ThreadColour

  const FolderNames: seq<string> :=
    ["Ov1", "Ov2", "Ov3", "Ov4", "Project", "Exam", "Logistics", "Other", "Midterm",
     "Forelesninger", "Treningsoppgaver"]

  const TagNames: seq<string> :=
    ["Question", "Announcement", "Homework", "Homework Solution", "Lecture Notes",
     "General Announcement"]

  /** How many user ids are drawn as students. */
  const StudentSampleSize: nat := 75

  predicate NoDuplicates<T(==)>(xs: seq<T>) {
    forall i, j :: 0 <= i < j < |xs| ==> xs[i] != xs[j]
  }

  lemma {:induction false} DistinctCard<T>(xs: seq<T>)
    requires NoDuplicates(xs)
    ensures |set x | x in xs| == |xs|
  {
    if xs != [] {
      var n := |xs| - 1;
      DistinctCard(xs[..n]);
      assert xs == xs[..n] + [xs[n]];
      assert (set x | x in xs) == (set x | x in xs[..n]) + {xs[n]};
      assert xs[n] !in (set x | x in xs[..n]);
    }
  }

  // ----- Student, Instructor and PostCreator -----

  /** The users not drawn as students, in user order. */
  function InstructorIds(users: seq<Uuid>, students: seq<Uuid>): (r: seq<Uuid>)
    ensures forall x :: x in r <==> x in users && x !in students
    ensures NoDuplicates(users) ==> NoDuplicates(r)
  {
    if users == [] then []
    else
      var n := |users| - 1;
      var rest := InstructorIds(users[..n], students);
      assert users == users[..n] + [users[n]];
      if users[n] in students then rest else rest + [users[n]]
  }

  /** A sample of 75 distinct user ids makes the students; the rest are the instructors. The two
      groups are disjoint, together they are every user, and there are 75 fewer instructors than
      users. */
  lemma StudentInstructorPartition(users: seq<Uuid>, sample: seq<Uuid>)
    requires NoDuplicates(users)
    requires |sample| == StudentSampleSize && NoDuplicates(sample)
    requires forall x :: x in sample ==> x in users
    ensures forall u :: u in users ==> (u in sample <==> u !in InstructorIds(users, sample))
    ensures forall u :: u in InstructorIds(users, sample) ==> u in users
    ensures |InstructorIds(users, sample)| == |users| - StudentSampleSize
  {
    var instructors := InstructorIds(users, sample);
    DistinctCard(users);
    DistinctCard(sample);
    DistinctCard(instructors);
    var u, s, i := set x | x in users, set x | x in sample, set x | x in instructors;
    assert i == u - s;
    assert s <= u;
    assert |u - s| == |u| - |s|;
  }

  /** A role table read back from its two columns: role id to PCID. Fresh PCIDs make the
      PCID column unique, as its UNIQUE KEY demands. */
  function RoleRows(ids: seq<Uuid>, pcids: seq<Uuid>): (m: map<Uuid, Uuid>)
    requires |ids| == |pcids| && NoDuplicates(ids)
    ensures m.Keys == set x | x in ids
    ensures m.Values == set x | x in pcids
    ensures forall k :: 0 <= k < |ids| ==> m[ids[k]] == pcids[k]
    ensures NoDuplicates(pcids) ==> UniquePcids(m)
  {
    var m := map k | 0 <= k < |ids| :: ids[k] := pcids[k];
    RoleRowsValues(ids, pcids, m);
    RoleRowsUnique(ids, pcids, m);
    m
  }

  lemma RoleRowsValues(ids: seq<Uuid>, pcids: seq<Uuid>, m: map<Uuid, Uuid>)
    requires |ids| == |pcids| && m.Keys == set x | x in ids
    requires forall k :: 0 <= k < |ids| ==> m[ids[k]] == pcids[k]
    ensures m.Values == set x | x in pcids
  {
    forall x | x in pcids
      ensures x in m.Values
    {
      var k :| 0 <= k < |pcids| && pcids[k] == x;
      assert m[ids[k]] == x;
    }
    forall x | x in m.Values
      ensures x in pcids
    {
      var u :| u in m && m[u] == x;
      var k :| 0 <= k < |ids| && ids[k] == u;
    }
  }

  lemma RoleRowsUnique(ids: seq<Uuid>, pcids: seq<Uuid>, m: map<Uuid, Uuid>)
    requires |ids| == |pcids| && m.Keys == set x | x in ids
    requires forall k :: 0 <= k < |ids| ==> m[ids[k]] == pcids[k]
    ensures NoDuplicates(pcids) ==> UniquePcids(m)
  {
    if NoDuplicates(pcids) {
      forall u, v | u in m && v in m && m[u] == m[v]
        ensures u == v
      {
        var i :| 0 <= i < |ids| && ids[i] == u;
        var j :| 0 <= j < |ids| && ids[j] == v;
      }
    }
  }

  /** One PostCreator row. */
  datatype CreatorEntry = CreatorEntry(pcid: Uuid, creatorType: string)

  /** The PostCreator rows: every student PCID with type Student, then every instructor PCID
      with type Instructor. */
  predicate CreatorLayout(rows: seq<CreatorEntry>, studentPcids: seq<Uuid>, instructorPcids: seq<Uuid>) {
    && |rows| == |studentPcids| + |instructorPcids|
    && (forall k :: 0 <= k < |studentPcids| ==> rows[k] == CreatorEntry(studentPcids[k], StudentType))
    && (forall k :: 0 <= k < |instructorPcids| ==>
          rows[|studentPcids| + k] == CreatorEntry(instructorPcids[k], InstructorType))
  }

  method BuildPostCreators(studentPcids: seq<Uuid>, instructorPcids: seq<Uuid>) returns (rows: seq<CreatorEntry>)
    ensures CreatorLayout(rows, studentPcids, instructorPcids)
  {
    rows := [];
    for k := 0 to |studentPcids|
      invariant |rows| == k
      invariant forall j :: 0 <= j < k ==> rows[j] == CreatorEntry(studentPcids[j], StudentType)
    {
      rows := rows + [CreatorEntry(studentPcids[k], StudentType)];
    }
    for k := 0 to |instructorPcids|
      invariant |rows| == |studentPcids| + k
      invariant forall j :: 0 <= j < |studentPcids| ==> rows[j] == CreatorEntry(studentPcids[j], StudentType)
      invariant forall j :: 0 <= j < k ==> rows[|studentPcids| + j] == CreatorEntry(instructorPcids[j], InstructorType)
    {
      rows := rows + [CreatorEntry(instructorPcids[k], InstructorType)];
    }
  }

  /** Some PostCreator row has the given PCID and type. */
  predicate HasCreatorRow(rows: seq<CreatorEntry>, pcid: Uuid, creatorType: string) {
    exists i :: 0 <= i < |rows| && rows[i] == CreatorEntry(pcid, creatorType)
  }

  /** The CreatorType column of the PostCreator rows with the given PCID, in row order. */
  function CreatorTypes(rows: seq<CreatorEntry>, pcid: Uuid): (types: seq<string>)
    ensures |types| <= |rows|
    ensures forall t :: t in types <==> exists i :: 0 <= i < |rows| && rows[i] == CreatorEntry(pcid, t)
  {
    if rows == [] then []
    else
      var n := |rows| - 1;
      CreatorTypes(rows[..n], pcid) + (if rows[n].pcid == pcid then [rows[n].creatorType] else [])
  }

  /** The role a PCID replies as: Instructor is tested first, then Student. */
  function ReplierRole(rows: seq<CreatorEntry>, pcid: Uuid): (r: Option<Role>)
    ensures r == Some(Instructor) <==> HasCreatorRow(rows, pcid, InstructorType)
    ensures r == Some(Student) <==> !HasCreatorRow(rows, pcid, InstructorType) && HasCreatorRow(rows, pcid, StudentType)
    ensures r == None <==> !HasCreatorRow(rows, pcid, InstructorType) && !HasCreatorRow(rows, pcid, StudentType)
  {
    var types := CreatorTypes(rows, pcid);
    if InstructorType in types then Some(Instructor)
    else if StudentType in types then Some(Student)
    else None
  }

  lemma {:induction false} SingleCreatorRow(rows: seq<CreatorEntry>, i: nat)
    requires i < |rows|
    requires forall j :: 0 <= j < |rows| && j != i ==> rows[j].pcid != rows[i].pcid
    ensures CreatorTypes(rows, rows[i].pcid) == [rows[i].creatorType]
  {
    var n := |rows| - 1;
    if i == n {
      NoCreatorRow(rows[..n], rows[i].pcid);
    } else {
      SingleCreatorRow(rows[..n], i);
    }
  }

  lemma {:induction false} NoCreatorRow(rows: seq<CreatorEntry>, pcid: Uuid)
    requires forall j :: 0 <= j < |rows| ==> rows[j].pcid != pcid
    ensures CreatorTypes(rows, pcid) == []
  {
    if rows != [] {
      NoCreatorRow(rows[..|rows| - 1], pcid);
    }
  }

  /** With fresh PCIDs, each student PCID has exactly one PostCreator row, of type Student,
      and each instructor PCID exactly one, of type Instructor. */
  lemma OneCreatorPerRole(rows: seq<CreatorEntry>, studentPcids: seq<Uuid>, instructorPcids: seq<Uuid>)
    requires CreatorLayout(rows, studentPcids, instructorPcids)
    requires NoDuplicates(studentPcids + instructorPcids)
    ensures forall k :: 0 <= k < |studentPcids| ==>
              CreatorTypes(rows, studentPcids[k]) == [StudentType] && ReplierRole(rows, studentPcids[k]) == Some(Student)
    ensures forall k :: 0 <= k < |instructorPcids| ==>
              CreatorTypes(rows, instructorPcids[k]) == [InstructorType] && ReplierRole(rows, instructorPcids[k]) == Some(Instructor)
  {
    var all := studentPcids + instructorPcids;
    assert forall j :: 0 <= j < |rows| ==> rows[j].pcid == all[j];
    forall k | 0 <= k < |all|
      ensures CreatorTypes(rows, all[k]) == [rows[k].creatorType]
    {
      SingleCreatorRow(rows, k);
    }
    forall k | 0 <= k < |instructorPcids|
      ensures CreatorTypes(rows, instructorPcids[k]) == [InstructorType]
    {
      assert all[|studentPcids| + k] == instructorPcids[k];
    }
  }

  /** The Student and Instructor tables the script writes: their keys split the users, each
      PCID column is unique, and every PCID has its PostCreator row of the matching type. */
  lemma SeededRoleTables(users: seq<Uuid>, sample: seq<Uuid>, studentPcids: seq<Uuid>,
                         instructorPcids: seq<Uuid>, rows: seq<CreatorEntry>)
    requires NoDuplicates(users) && NoDuplicates(sample)
    requires forall x :: x in sample ==> x in users
    requires |studentPcids| == |sample| && |instructorPcids| == |InstructorIds(users, sample)|
    requires NoDuplicates(studentPcids + instructorPcids)
    requires CreatorLayout(rows, studentPcids, instructorPcids)
    ensures var students := RoleRows(sample, studentPcids);
            var instructors := RoleRows(InstructorIds(users, sample), instructorPcids);
      && students.Keys !! instructors.Keys
      && students.Keys + instructors.Keys == set x | x in users
      && UniquePcids(students) && UniquePcids(instructors)
      && (forall u :: u in students ==> CreatorEntry(students[u], StudentType) in rows)
      && (forall u :: u in instructors ==> CreatorEntry(instructors[u], InstructorType) in rows)
  {
    var all := studentPcids + instructorPcids;
    assert NoDuplicates(studentPcids) by {
      forall i, j | 0 <= i < j < |studentPcids| ensures studentPcids[i] != studentPcids[j] {
        assert all[i] == studentPcids[i] && all[j] == studentPcids[j];
      }
    }
    assert NoDuplicates(instructorPcids) by {
      forall i, j | 0 <= i < j < |instructorPcids| ensures instructorPcids[i] != instructorPcids[j] {
        assert all[|studentPcids| + i] == instructorPcids[i] && all[|studentPcids| + j] == instructorPcids[j];
      }
    }
    var instructorIds := InstructorIds(users, sample);
    var students := RoleRows(sample, studentPcids);
    var instructors := RoleRows(instructorIds, instructorPcids);
    forall u | u in students
      ensures CreatorEntry(students[u], StudentType) in rows
    {
      var k :| 0 <= k < |sample| && sample[k] == u;
      assert rows[k] == CreatorEntry(studentPcids[k], StudentType);
    }
    forall u | u in instructors
      ensures CreatorEntry(instructors[u], InstructorType) in rows
    {
      var k :| 0 <= k < |instructorIds| && instructorIds[k] == u;
      assert rows[|studentPcids| + k] == CreatorEntry(instructorPcids[k], InstructorType);
    }
  }

  // ----- CourseForum, Folder and UserInCourse -----

  method BuildFolders(course: Uuid) returns (rows: seq<Folder>)
    ensures |rows| == |FolderNames|
    ensures forall k :: 0 <= k < |rows| ==> rows[k] == Folder(course, FolderNames[k])
    ensures NoDuplicates(rows)
  {
    rows := [];
    for k := 0 to |FolderNames|
      invariant |rows| == k
      invariant forall j :: 0 <= j < k ==> rows[j] == Folder(course, FolderNames[j])
    {
      rows := rows + [Folder(course, FolderNames[k])];
    }
  }

  /** Every user is placed in the single course. */
  method BuildMemberships(users: seq<Uuid>, course: Uuid) returns (rows: seq<Membership>)
    ensures |rows| == |users|
    ensures forall k :: 0 <= k < |rows| ==> rows[k] == Membership(users[k], course)
    ensures forall u :: u in users <==> Membership(u, course) in rows
    ensures NoDuplicates(users) ==> NoDuplicates(rows)
  {
    rows := [];
    for k := 0 to |users|
      invariant |rows| == k
      invariant forall j :: 0 <= j < k ==> rows[j] == Membership(users[j], course)
    {
      rows := rows + [Membership(users[k], course)];
    }
  }

  // ----- Post -----

  /** A row of Post.csv: its id, content, author and type. */
  datatype SeedPost = SeedPost(id: Uuid, content: string, pcid: Uuid, postType: string)

  /** Gives every post its new id and its drawn author, in place. */
  method AssignAuthors(posts: array<SeedPost>, ids: seq<Uuid>, authors: seq<Uuid>)
    requires |ids| == posts.Length && |authors| == posts.Length
    modifies posts
    ensures forall k :: 0 <= k < posts.Length ==>
              posts[k] == old(posts[k]).(id := ids[k], pcid := authors[k])
  {
    for ind := 0 to posts.Length
      invariant forall k :: 0 <= k < ind ==> posts[k] == old(posts[k]).(id := ids[k], pcid := authors[k])
      invariant forall k :: ind <= k < posts.Length ==> posts[k] == old(posts[k])
    {
      posts[ind] := posts[ind].(id := ids[ind], pcid := authors[ind]);
    }
  }

  // ----- UserLikesPost and UserViewsThread -----

  /** drop_duplicates: keeps the first occurrence of each row. */
  function Dedup<T(==, !new)>(xs: seq<T>): (r: seq<T>)
    ensures NoDuplicates(r)
    ensures forall x :: x in r <==> x in xs
  {
    if xs == [] then []
    else
      var n := |xs| - 1;
      var rest := Dedup(xs[..n]);
      assert xs == xs[..n] + [xs[n]];
      if xs[n] in rest then rest else rest + [xs[n]]
  }

  function LikeRows(users: seq<Uuid>, posts: seq<Uuid>): seq<Like>
    requires |users| == |posts|
  {
    seq(|users|, i requires 0 <= i < |users| => Like(users[i], posts[i]))
  }

  function ViewRows(users: seq<Uuid>, threads: seq<Uuid>): seq<View>
    requires |users| == |threads|
  {
    seq(|users|, i requires 0 <= i < |users| => View(users[i], threads[i]))
  }

  /** The likes are the drawn (user, post) pairs, each pair once, every user and post drawn
      from the seeded ones. */
  lemma SeededLikes(users: seq<Uuid>, posts: seq<Uuid>, userIds: seq<Uuid>, postIds: seq<Uuid>)
    requires |users| == |posts|
    requires forall u :: u in users ==> u in userIds
    requires forall p :: p in posts ==> p in postIds
    ensures NoDuplicates(Dedup(LikeRows(users, posts)))
    ensures forall l :: l in Dedup(LikeRows(users, posts)) <==>
              exists i :: 0 <= i < |users| && l == Like(users[i], posts[i])
    ensures forall l :: l in Dedup(LikeRows(users, posts)) ==> l.user in userIds && l.post in postIds
  {
    var rows := LikeRows(users, posts);
    forall l | l in rows
      ensures exists i :: 0 <= i < |users| && l == Like(users[i], posts[i])
    {
      var i :| 0 <= i < |rows| && rows[i] == l;
    }
    forall i | 0 <= i < |users|
      ensures Like(users[i], posts[i]) in rows
    {
      assert rows[i] == Like(users[i], posts[i]);
    }
  }

  /** The views are the drawn (user, thread) pairs, each pair once, every user and thread
      drawn from the seeded ones. */
  lemma SeededViews(users: seq<Uuid>, threads: seq<Uuid>, userIds: seq<Uuid>, threadIds: seq<Uuid>)
    requires |users| == |threads|
    requires forall u :: u in users ==> u in userIds
    requires forall t :: t in threads ==> t in threadIds
    ensures NoDuplicates(Dedup(ViewRows(users, threads)))
    ensures forall v :: v in Dedup(ViewRows(users, threads)) <==>
              exists i :: 0 <= i < |users| && v == View(users[i], threads[i])
    ensures forall v :: v in Dedup(ViewRows(users, threads)) ==> v.user in userIds && v.thread in threadIds
  {
    var rows := ViewRows(users, threads);
    forall v | v in rows
      ensures exists i :: 0 <= i < |users| && v == View(users[i], threads[i])
    {
      var i :| 0 <= i < |rows| && rows[i] == v;
    }
    forall i | 0 <= i < |users|
      ensures View(users[i], threads[i]) in rows
    {
      assert rows[i] == View(users[i], threads[i]);
    }
  }

  // ----- Thread: reply slots -----

  /** A row of the thread table while it is built: the colour is NaN (None) until the colour
      loop runs. */
  datatype SeedThread = SeedThread(id: Uuid, colour: Option<int>, slots: Slots)

  /** The row iloc[ind - 1] reads: the previous row, or the last row when ind is 0. */
  function Preceding(ind: nat, n: nat): (r: nat)
    requires ind < n
    ensures r < n
  {
    if ind == 0 then n - 1 else ind - 1
  }

  /** Row `ind` is the successor of its preceding row, counting cyclically over the table. */
  lemma PrecedingWrapsAround(ind: nat, n: nat)
    requires ind < n
    ensures (Preceding(ind, n) + 1) % n == ind
  {
    if ind == 0 {
      assert (n - 1 + 1) % n == 0;
    }
  }

  /** The first row of the thread table with the given id. */
  function FindThread(threads: seq<SeedThread>, id: Uuid): (r: Option<nat>)
    ensures r.Some? ==> r.value < |threads| && threads[r.value].id == id &&
                        forall k :: 0 <= k < r.value ==> threads[k].id != id
    ensures r.None? ==> forall k :: 0 <= k < |threads| ==> threads[k].id != id
  {
    if threads == [] then None
    else if threads[0].id == id then Some(0)
    else match FindThread(threads[1..], id)
      case None => None
      case Some(k) => Some(k + 1)
  }

  /** One round of the reply-slot loop over post `ind`; Failure(ind) is the IndexError raised
      when the preceding post is not a recorded thread. */
  function RecordPost(posts: seq<SeedPost>, creators: seq<CreatorEntry>, ind: nat, threads: seq<SeedThread>)
    : (r: Result<seq<SeedThread>, nat>)
    requires ind < |posts|
    ensures r.Failure? <==>
              posts[ind].postType == ReplyType && FindThread(threads, posts[Preceding(ind, |posts|)].id).None?
    ensures r.Failure? ==> r.error == ind
    ensures r.Success? ==> |r.value| == |threads| + (if posts[ind].postType == ThreadType then 1 else 0)
    ensures r.Success? ==> forall k :: 0 <= k < |threads| ==>
              r.value[k].id == threads[k].id && r.value[k].colour == threads[k].colour
    ensures r.Success? && posts[ind].postType == ThreadType ==>
              r.value == threads + [SeedThread(posts[ind].id, None, Slots(None, None))]
    ensures r.Success? && posts[ind].postType != ThreadType && posts[ind].postType != ReplyType ==> r.value == threads
    ensures r.Success? && posts[ind].postType == ReplyType ==>
              var k := FindThread(threads, posts[Preceding(ind, |posts|)].id).value;
              match ReplierRole(creators, posts[ind].pcid)
              case None => r.value == threads
              case Some(role) => r.value == threads[k := threads[k].(slots := WithReply(threads[k].slots, role, posts[ind].id))]
  {
    var p := posts[ind];
    if p.postType == ThreadType then Success(threads + [SeedThread(p.id, None, Slots(None, None))])
    else if p.postType == ReplyType then
      match FindThread(threads, posts[Preceding(ind, |posts|)].id)
      case None => Failure(ind)
      case Some(k) =>
        match ReplierRole(creators, p.pcid)
        case None => Success(threads)
        case Some(role) => Success(threads[k := threads[k].(slots := WithReply(threads[k].slots, role, p.id))])
    else Success(threads)
  }

  /** The thread table after the first `n` posts, or the index of the post that crashed. */
  function ThreadsAfter(posts: seq<SeedPost>, creators: seq<CreatorEntry>, n: nat): (r: Result<seq<SeedThread>, nat>)
    requires n <= |posts|
    ensures r.Success? ==> |r.value| <= n
  {
    if n == 0 then Success([])
    else match ThreadsAfter(posts, creators, n - 1)
      case Failure(i) => Failure(i)
      case Success(threads) => RecordPost(posts, creators, n - 1, threads)
  }

  lemma {:induction false} CrashIsFinal(posts: seq<SeedPost>, creators: seq<CreatorEntry>, m: nat, n: nat)
    requires m <= n <= |posts| && ThreadsAfter(posts, creators, m).Failure?
    ensures ThreadsAfter(posts, creators, n) == ThreadsAfter(posts, creators, m)
    decreases n - m
  {
    if m < n {
      CrashIsFinal(posts, creators, m, n - 1);
    }
  }

  /** A crash is raised by a Reply post whose preceding post is not a recorded thread, every
      post before it having been recorded. */
  lemma {:induction false} CrashPoint(posts: seq<SeedPost>, creators: seq<CreatorEntry>, n: nat)
    requires n <= |posts| && ThreadsAfter(posts, creators, n).Failure?
    ensures var i := ThreadsAfter(posts, creators, n).error;
      && i < n && posts[i].postType == ReplyType
      && ThreadsAfter(posts, creators, i).Success?
      && FindThread(ThreadsAfter(posts, creators, i).value, posts[Preceding(i, |posts|)].id).None?
  {
    if ThreadsAfter(posts, creators, n - 1).Failure? {
      CrashPoint(posts, creators, n - 1);
    }
  }

  /** The reply-slot loop: appends a row for every Thread post, and for every Reply post writes
      its id into the slot of its author's role on the row of the preceding post. */
  method BuildThreads(posts: seq<SeedPost>, creators: seq<CreatorEntry>) returns (r: Result<seq<SeedThread>, nat>)
    ensures r == ThreadsAfter(posts, creators, |posts|)
  {
    var threads: seq<SeedThread> := [];
    for ind := 0 to |posts|
      invariant ThreadsAfter(posts, creators, ind) == Success(threads)
    {
      var row := posts[ind];
      if row.postType == ThreadType {
        threads := threads + [SeedThread(row.id, None, Slots(None, None))];
      } else if row.postType == ReplyType {
        var threadid := posts[Preceding(ind, |posts|)].id;
        var found := FindThread(threads, threadid);
        if found.None? {
          CrashIsFinal(posts, creators, ind + 1, |posts|);
          return Failure(ind);
        }
        var threadind := found.value;
        var replier := CreatorTypes(creators, row.pcid);
        if InstructorType in replier {
          threads := threads[threadind := threads[threadind].(slots := threads[threadind].slots.(instructorReply := Some(row.id)))];
        } else if StudentType in replier {
          threads := threads[threadind := threads[threadind].(slots := threads[threadind].slots.(studentReply := Some(row.id)))];
        }
      }
    }
    r := Success(threads);
  }

  /** The ids of the Thread posts among the first `n`, in order. */
  function ThreadPostIds(posts: seq<SeedPost>, n: nat): (ids: seq<Uuid>)
    requires n <= |posts|
    ensures forall x :: x in ids <==> exists i :: 0 <= i < n && posts[i].postType == ThreadType && posts[i].id == x
  {
    if n == 0 then []
    else ThreadPostIds(posts, n - 1) + (if posts[n - 1].postType == ThreadType then [posts[n - 1].id] else [])
  }

  /** Every Thread post gives exactly one row of the thread table, with its id and in post
      order, and no row has a colour yet. */
  lemma {:induction false} ThreadRowsAreThreadPosts(posts: seq<SeedPost>, creators: seq<CreatorEntry>, n: nat)
    requires n <= |posts| && ThreadsAfter(posts, creators, n).Success?
    ensures var threads := ThreadsAfter(posts, creators, n).value;
      && |threads| == |ThreadPostIds(posts, n)|
      && (forall k :: 0 <= k < |threads| ==> threads[k].id == ThreadPostIds(posts, n)[k] && threads[k].colour.None?)
  {
    if n > 0 {
      ThreadRowsAreThreadPosts(posts, creators, n - 1);
    }
  }

  /** Post `j` is a reply, by an author of the given role, to the post before it, whose id is `t`. */
  predicate IsReplyTo(posts: seq<SeedPost>, creators: seq<CreatorEntry>, j: nat, t: Uuid, role: Role)
    requires j < |posts|
  {
    posts[j].postType == ReplyType && posts[Preceding(j, |posts|)].id == t &&
    ReplierRole(creators, posts[j].pcid) == Some(role)
  }

  /** A filled slot of role `role` on the row of thread `t` holds a reply to `t` by that role
      among the first `n` posts. */
  predicate SlotHoldsReply(posts: seq<SeedPost>, creators: seq<CreatorEntry>, n: nat, t: Uuid, slot: Option<Uuid>, role: Role)
    requires n <= |posts|
  {
    slot.Some? ==> exists j :: 0 <= j < n && posts[j].id == slot.value && IsReplyTo(posts, creators, j, t, role)
  }

  predicate SlotsHoldReplies(posts: seq<SeedPost>, creators: seq<CreatorEntry>, n: nat, threads: seq<SeedThread>)
    requires n <= |posts|
  {
    forall k :: 0 <= k < |threads| ==>
      SlotHoldsReply(posts, creators, n, threads[k].id, threads[k].slots.studentReply, Student) &&
      SlotHoldsReply(posts, creators, n, threads[k].id, threads[k].slots.instructorReply, Instructor)
  }

  /** Every recorded reply is a reply to the post before it, by an author of the slot's role. */
  lemma {:induction false} RecordedRepliesBelongToTheirThread(posts: seq<SeedPost>, creators: seq<CreatorEntry>, n: nat)
    requires n <= |posts| && ThreadsAfter(posts, creators, n).Success?
    ensures SlotsHoldReplies(posts, creators, n, ThreadsAfter(posts, creators, n).value)
  {
    if n > 0 {
      RecordedRepliesBelongToTheirThread(posts, creators, n - 1);
      var before := ThreadsAfter(posts, creators, n - 1).value;
      var after := ThreadsAfter(posts, creators, n).value;
      forall k | 0 <= k < |after|
        ensures SlotHoldsReply(posts, creators, n, after[k].id, after[k].slots.studentReply, Student)
        ensures SlotHoldsReply(posts, creators, n, after[k].id, after[k].slots.instructorReply, Instructor)
      {
        if k < |before| && after[k] != before[k] {
          // Post n - 1 is the reply just recorded on row k.
          assert IsReplyTo(posts, creators, n - 1, after[k].id, ReplierRole(creators, posts[n - 1].pcid).value);
        }
      }
    }
  }

  /** Post `j` is a reply to `t` by `role` among the first `n` posts, and no later one of
      those is. */
  predicate LatestReplyTo(posts: seq<SeedPost>, creators: seq<CreatorEntry>, n: nat, j: nat, t: Uuid, role: Role)
    requires n <= |posts|
  {
    j < n && IsReplyTo(posts, creators, j, t, role) &&
    forall i :: j < i < n ==> !IsReplyTo(posts, creators, i, t, role)
  }

  /** A post that is no reply to `t` by `role` leaves the latest such reply the latest. */
  lemma LatestReplyStays(posts: seq<SeedPost>, creators: seq<CreatorEntry>, n: nat, j: nat, t: Uuid, role: Role)
    requires 0 < n <= |posts| && LatestReplyTo(posts, creators, n - 1, j, t, role)
    requires !IsReplyTo(posts, creators, n - 1, t, role)
    ensures LatestReplyTo(posts, creators, n, j, t, role)
  {
  }

  /** Reply `j`, when its author has a role, is in that role's slot on the row of the post
      before it, unless a later reply of the same role to the same thread replaced it; the
      slot then holds the latest such reply. */
  predicate ReplyRecorded(posts: seq<SeedPost>, creators: seq<CreatorEntry>, n: nat, threads: seq<SeedThread>, j: nat)
    requires j < n <= |posts|
  {
    posts[j].postType == ReplyType && ReplierRole(creators, posts[j].pcid).Some? ==>
      var role := ReplierRole(creators, posts[j].pcid).value;
      var t := posts[Preceding(j, |posts|)].id;
      && FindThread(threads, t).Some?
      && exists last :: j <= last < n && LatestReplyTo(posts, creators, n, last, t, role) &&
                        SlotOf(threads[FindThread(threads, t).value].slots, role) == Some(posts[last].id)
  }

  /** Rows keep their ids and order as the table grows, so the first row of a thread stays
      the first. */
  lemma FindThreadStable(before: seq<SeedThread>, after: seq<SeedThread>, t: Uuid)
    requires |before| <= |after| && forall k :: 0 <= k < |before| ==> after[k].id == before[k].id
    requires FindThread(before, t).Some?
    ensures FindThread(after, t) == FindThread(before, t)
  {
    var v := FindThread(before, t).value;
    assert after[v].id == t;
  }

  /** The reply the loop has just recorded is in its role's slot. */
  lemma RecordsNewReply(posts: seq<SeedPost>, creators: seq<CreatorEntry>, n: nat,
                        before: seq<SeedThread>, after: seq<SeedThread>)
    requires 0 < n <= |posts| && RecordPost(posts, creators, n - 1, before) == Success(after)
    ensures ReplyRecorded(posts, creators, n, after, n - 1)
  {
    var j := n - 1;
    if posts[j].postType == ReplyType && ReplierRole(creators, posts[j].pcid).Some? {
      var role := ReplierRole(creators, posts[j].pcid).value;
      var t := posts[Preceding(j, |posts|)].id;
      FindThreadStable(before, after, t);
      var k := FindThread(before, t).value;
      assert SlotOf(after[k].slots, role) == Some(posts[j].id);
      assert LatestReplyTo(posts, creators, n, j, t, role);
    }
  }

  /** A reply recorded earlier stays recorded: the next post either replaces it with a later
      reply of the same role to the same thread, or leaves its slot alone. */
  lemma RecordKeepsReply(posts: seq<SeedPost>, creators: seq<CreatorEntry>, n: nat,
                         before: seq<SeedThread>, after: seq<SeedThread>, j: nat)
    requires j < n - 1 && n <= |posts| && RecordPost(posts, creators, n - 1, before) == Success(after)
    requires ReplyRecorded(posts, creators, n - 1, before, j)
    ensures ReplyRecorded(posts, creators, n, after, j)
  {
    if posts[j].postType == ReplyType && ReplierRole(creators, posts[j].pcid).Some? {
      var role := ReplierRole(creators, posts[j].pcid).value;
      var t := posts[Preceding(j, |posts|)].id;
      FindThreadStable(before, after, t);
      var k := FindThread(before, t).value;
      var last :| j <= last < n - 1 && LatestReplyTo(posts, creators, n - 1, last, t, role) &&
                  SlotOf(before[k].slots, role) == Some(posts[last].id);
      var p := posts[n - 1];
      if IsReplyTo(posts, creators, n - 1, t, role) {
        assert SlotOf(after[k].slots, role) == Some(posts[n - 1].id);
        assert LatestReplyTo(posts, creators, n, n - 1, t, role);
      } else {
        if p.postType == ReplyType && ReplierRole(creators, p.pcid).Some? {
          var k2 := FindThread(before, posts[Preceding(n - 1, |posts|)].id).value;
          if k2 == k {
            assert ReplierRole(creators, p.pcid).value != role;
          }
        }
        assert SlotOf(after[k].slots, role) == SlotOf(before[k].slots, role);
        LatestReplyStays(posts, creators, n, last, t, role);
      }
    }
  }

  /** Every Reply whose author has a role is recorded on its thread's row: its id is in that
      role's slot, or the id of a later reply of the same role to the same thread is. */
  lemma {:induction false} RepliesAreRecorded(posts: seq<SeedPost>, creators: seq<CreatorEntry>, n: nat)
    requires n <= |posts| && ThreadsAfter(posts, creators, n).Success?
    ensures forall j :: 0 <= j < n ==> ReplyRecorded(posts, creators, n, ThreadsAfter(posts, creators, n).value, j)
  {
    if n > 0 {
      RepliesAreRecorded(posts, creators, n - 1);
      var before := ThreadsAfter(posts, creators, n - 1).value;
      var after := ThreadsAfter(posts, creators, n).value;
      RecordsNewReply(posts, creators, n, before, after);
      forall j | 0 <= j < n - 1
        ensures ReplyRecorded(posts, creators, n, after, j)
      {
        RecordKeepsReply(posts, creators, n, before, after, j);
      }
    }
  }

  predicate DistinctIds(posts: seq<SeedPost>) {
    forall i, j :: 0 <= i < j < |posts| ==> posts[i].id != posts[j].id
  }

  /** Every Reply among the first `n` posts directly follows a Thread post. */
  predicate RepliesFollowThreads(posts: seq<SeedPost>, n: nat)
    requires n <= |posts|
  {
    forall j :: 0 <= j < n && posts[j].postType == ReplyType ==> 0 < j && posts[j - 1].postType == ThreadType
  }

  /** With distinct post ids the loop runs to the end exactly when every Reply directly follows
      a Thread post: a Reply first in the file or after another Reply crashes it. */
  lemma {:induction false} SeedingSucceedsIff(posts: seq<SeedPost>, creators: seq<CreatorEntry>, n: nat)
    requires n <= |posts| && DistinctIds(posts)
    ensures ThreadsAfter(posts, creators, n).Success? <==> RepliesFollowThreads(posts, n)
  {
    if n > 0 {
      SeedingSucceedsIff(posts, creators, n - 1);
      var m := n - 1;
      if ThreadsAfter(posts, creators, m).Success? && posts[m].postType == ReplyType {
        ReplyFindsItsThread(posts, creators, m);
      }
    }
  }

  /** With distinct ids, a Reply finds a row for the post before it exactly when that post is
      a Thread post earlier in the file. */
  lemma ReplyFindsItsThread(posts: seq<SeedPost>, creators: seq<CreatorEntry>, m: nat)
    requires m < |posts| && DistinctIds(posts) && ThreadsAfter(posts, creators, m).Success?
    ensures FindThread(ThreadsAfter(posts, creators, m).value, posts[Preceding(m, |posts|)].id).Some? <==>
            0 < m && posts[m - 1].postType == ThreadType
  {
    var threads := ThreadsAfter(posts, creators, m).value;
    ThreadRowsAreThreadPosts(posts, creators, m);
    var prev := Preceding(m, |posts|);
    var target := posts[prev].id;
    assert (exists k :: 0 <= k < |threads| && threads[k].id == target) <==> target in ThreadPostIds(posts, m);
    if FindThread(threads, target).Some? {
      var i :| 0 <= i < m && posts[i].postType == ThreadType && posts[i].id == target;
      assert i == prev;
    }
  }

  /** With distinct ids, only the post right after a thread's post can reply to it. */
  lemma OneReplyPerThreadPost(posts: seq<SeedPost>, creators: seq<CreatorEntry>, j1: nat, j2: nat, t: Uuid, r1: Role, r2: Role)
    requires DistinctIds(posts) && j1 < |posts| && j2 < |posts|
    requires IsReplyTo(posts, creators, j1, t, r1) && IsReplyTo(posts, creators, j2, t, r2)
    ensures j1 == j2 && r1 == r2
  {
    var n := |posts|;
    assert Preceding(j1, n) == Preceding(j2, n);
    PrecedingWrapsAround(j1, n);
    PrecedingWrapsAround(j2, n);
  }

  /** With distinct post ids no seeded thread gets both a student and an instructor reply, so
      the colour loop never yields 3. */
  lemma AtMostOneReplyPerThread(posts: seq<SeedPost>, creators: seq<CreatorEntry>, threads: seq<SeedThread>)
    requires DistinctIds(posts) && ThreadsAfter(posts, creators, |posts|) == Success(threads)
    ensures forall k :: 0 <= k < |threads| ==>
              !(threads[k].slots.studentReply.Some? && threads[k].slots.instructorReply.Some?) &&
              Colour(threads[k].slots) <= 2
  {
    RecordedRepliesBelongToTheirThread(posts, creators, |posts|);
    forall k | 0 <= k < |threads|
      ensures !(threads[k].slots.studentReply.Some? && threads[k].slots.instructorReply.Some?)
    {
      var t := threads[k];
      if t.slots.studentReply.Some? && t.slots.instructorReply.Some? {
        assert SlotHoldsReply(posts, creators, |posts|, t.id, t.slots.studentReply, Student);
        assert SlotHoldsReply(posts, creators, |posts|, t.id, t.slots.instructorReply, Instructor);
        var j1 :| 0 <= j1 < |posts| && posts[j1].id == t.slots.studentReply.value && IsReplyTo(posts, creators, j1, t.id, Student);
        var j2 :| 0 <= j2 < |posts| && posts[j2].id == t.slots.instructorReply.value && IsReplyTo(posts, creators, j2, t.id, Instructor);
        OneReplyPerThreadPost(posts, creators, j1, j2, t.id, Student, Instructor);
        assert false;
      }
    }
  }

  // ----- Thread: colours -----

  /** The colour loop: every row gets the colour its slots give, in place. */
  method DeriveColours(threads: array<SeedThread>)
    modifies threads
    ensures forall k :: 0 <= k < threads.Length ==>
              threads[k] == old(threads[k]).(colour := Some(Colour(old(threads[k]).slots)))
  {
    for ind := 0 to threads.Length
      invariant forall k :: 0 <= k < ind ==> threads[k] == old(threads[k]).(colour := Some(Colour(old(threads[k]).slots)))
      invariant forall k :: ind <= k < threads.Length ==> threads[k] == old(threads[k])
    {
      var slots := threads[ind].slots;
      var colour;
      if slots.studentReply.Some? && slots.instructorReply.Some? {
        colour := 3;
      } else if slots.studentReply.Some? {
        colour := 2;
      } else if slots.instructorReply.Some? {
        colour := 1;
      } else {
        colour := 0;
      }
      threads[ind] := threads[ind].(colour := Some(colour));
    }
  }

  // ----- Tags and ThreadInFolder -----

  /** The (thread, name) rows the tag and folder loops append: for each thread in order, one
      row per name drawn for it. */
  function Picks(threads: seq<Uuid>, picks: seq<seq<string>>): (r: seq<(Uuid, string)>)
    requires |threads| == |picks|
    ensures forall row :: row in r ==> row.0 in threads
  {
    if threads == [] then []
    else
      var n := |threads| - 1;
      Picks(threads[..n], picks[..n]) + seq(|picks[n]|, j requires 0 <= j < |picks[n]| => (threads[n], picks[n][j]))
  }

  method AssignPicks(threads: seq<Uuid>, picks: seq<seq<string>>) returns (rows: seq<(Uuid, string)>)
    requires |threads| == |picks|
    ensures rows == Picks(threads, picks)
  {
    rows := [];
    for i := 0 to |threads|
      invariant rows == Picks(threads[..i], picks[..i])
    {
      ghost var before := rows;
      for j := 0 to |picks[i]|
        invariant |rows| == |before| + j && rows[..|before|] == before
        invariant forall m :: 0 <= m < j ==> rows[|before| + m] == (threads[i], picks[i][m])
      {
        rows := rows + [(threads[i], picks[i][j])];
      }
      assert threads[..i + 1][..i] == threads[..i] && picks[..i + 1][..i] == picks[..i];
      assert rows == before + rows[|before|..];
    }
    assert threads[..|threads|] == threads && picks[..|picks|] == picks;
  }

  /** A row belongs to the table exactly when its name was drawn for its thread. */
  lemma {:induction false} PicksMembership(threads: seq<Uuid>, picks: seq<seq<string>>, t: Uuid, x: string)
    requires |threads| == |picks|
    ensures (t, x) in Picks(threads, picks) <==> exists k :: 0 <= k < |threads| && threads[k] == t && x in picks[k]
  {
    if threads != [] {
      var n := |threads| - 1;
      PicksMembership(threads[..n], picks[..n], t, x);
      var block := seq(|picks[n]|, j requires 0 <= j < |picks[n]| => (threads[n], picks[n][j]));
      assert (t, x) in block <==> t == threads[n] && x in picks[n] by {
        if t == threads[n] && x in picks[n] {
          var j :| 0 <= j < |picks[n]| && picks[n][j] == x;
          assert block[j] == (t, x);
        }
      }
    }
  }

  /** Distinct threads, each drawing distinct names: no (thread, name) row repeats, so the
      composite keys of Tags and ThreadInFolder hold. */
  lemma {:induction false} PicksDistinct(threads: seq<Uuid>, picks: seq<seq<string>>)
    requires |threads| == |picks| && NoDuplicates(threads)
    requires forall k :: 0 <= k < |picks| ==> NoDuplicates(picks[k])
    ensures NoDuplicates(Picks(threads, picks))
  {
    if threads != [] {
      var n := |threads| - 1;
      PicksDistinct(threads[..n], picks[..n]);
      var front := Picks(threads[..n], picks[..n]);
      var block := seq(|picks[n]|, j requires 0 <= j < |picks[n]| => (threads[n], picks[n][j]));
      forall i | 0 <= i < |front|
        ensures front[i].0 != threads[n]
      {
        PicksMembership(threads[..n], picks[..n], front[i].0, front[i].1);
      }
      assert Picks(threads, picks) == front + block;
    }
  }

  /** The names a thread gets are exactly those drawn for it: 0 to 3 tags, or 1 to 3 folders,
      as many as the draw. */
  lemma ThreadPicks(threads: seq<Uuid>, picks: seq<seq<string>>, k: nat, lo: nat, hi: nat)
    requires |threads| == |picks| && NoDuplicates(threads) && k < |threads|
    requires NoDuplicates(picks[k]) && lo <= |picks[k]| <= hi
    ensures (set r | r in Picks(threads, picks) && r.0 == threads[k] :: r.1) == set x | x in picks[k]
    ensures |set r | r in Picks(threads, picks) && r.0 == threads[k] :: r.1| == |picks[k]|
    ensures lo <= |set r | r in Picks(threads, picks) && r.0 == threads[k] :: r.1| <= hi
  {
    forall x
      ensures (threads[k], x) in Picks(threads, picks) <==> x in picks[k]
    {
      PicksMembership(threads, picks, threads[k], x);
    }
    DistinctCard(picks[k]);
  }

  /** Every row names a seeded thread and a name from the list the draw was made from. */
  lemma PicksFromList(threads: seq<Uuid>, picks: seq<seq<string>>, names: seq<string>)
    requires |threads| == |picks|
    requires forall k, x :: 0 <= k < |picks| && x in picks[k] ==> x in names
    ensures forall r :: r in Picks(threads, picks) ==> r.0 in threads && r.1 in names
  {
    forall r | r in Picks(threads, picks)
      ensures r.0 in threads && r.1 in names
    {
      PicksMembership(threads, picks, r.0, r.1);
    }
  }
}
