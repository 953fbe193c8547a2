/**
 * The two read-only queries of a session: the keyword search, a union of four
 * `LIKE '%keyword%'` selections with duplicates removed, and the instructors' statistics,
 * one row per user with a role, with outer counts of posts written and threads read,
 * ordered by threads read, most first.
 */
module Queries {
  import opened Wrappers
  import opened Schema

  // ----- LIKE '%k%' -----

  /** `k` starts at index `i` of `s`. */
  predicate OccursAt(s: string, k: string, i: nat) {
    i + |k| <= |s| && s[i..i + |k|] == k
  }

  /** `s LIKE '%k%'`: `k` occurs in `s` as a contiguous piece. */
  predicate Contains(s: string, k: string)
    decreases |s|
  {
    k <= s || (|s| > 0 && Contains(s[1..], k))
  }

  lemma {:induction false} ContainsAt(s: string, k: string, i: nat)
    requires i + |k| <= |s| && s[i..i + |k|] == k
    ensures Contains(s, k)
    decreases i
  {
    if i == 0 {
      assert s[..|k|] == k;
    } else {
      assert s[1..][i - 1..i - 1 + |k|] == s[i..i + |k|];
      ContainsAt(s[1..], k, i - 1);
    }
  }

  lemma {:induction false} ContainsWitness(s: string, k: string) returns (i: nat)
    requires Contains(s, k)
    ensures i + |k| <= |s| && s[i..i + |k|] == k
    decreases |s|
  {
    if k <= s {
      i := 0;
    } else {
      var j := ContainsWitness(s[1..], k);
      assert s[1..][j..j + |k|] == s[j + 1..j + 1 + |k|];
      i := j + 1;
    }
  }

  /** The recursive definition agrees with the positional one: `k` matches exactly when it
      starts at some index of `s`. */
  lemma ContainsIffOccurs(s: string, k: string)
    ensures Contains(s, k) <==> exists i: nat :: OccursAt(s, k, i)
  {
    if Contains(s, k) {
      var i := ContainsWitness(s, k);
      assert OccursAt(s, k, i);
    }
    if i: nat :| OccursAt(s, k, i) {
      ContainsAt(s, k, i);
    }
  }

  /** A piece of a piece of `a` is a piece of `a`. */
  lemma ContainsTransitive(a: string, b: string, c: string)
    requires Contains(a, b) && Contains(b, c)
    ensures Contains(a, c)
  {
    var i := ContainsWitness(a, b);
    var j := ContainsWitness(b, c);
    forall n | 0 <= n < |c|
      ensures a[i + j + n] == c[n]
    {
      assert c[n] == b[j + n];
      assert b[j + n] == a[i + j + n];
    }
    assert a[i + j..i + j + |c|] == c;
    ContainsAt(a, c, i + j);
  }

  // ----- search_keyword -----

  /** Posts whose content matches. */
  function ContentMatches(db: Store, k: string): set<Uuid> {
    set p | p in db.posts && Contains(db.posts[p].content, k)
  }

  /** Threads carrying a matching tag. */
  function TagMatches(db: Store, k: string): set<Uuid> {
    set g | g in db.tags && Contains(g.tag, k) :: g.thread
  }

  /** Threads placed in a matching folder, ThreadInFolder joined with Folder on
      (CourseID, FolderName). */
  function FolderMatches(db: Store, k: string): set<Uuid> {
    set pl | pl in db.placements && Folder(pl.course, pl.folder) in db.folders && Contains(pl.folder, k) :: pl.thread
  }

  /** PCIDs of the students and of the instructors whose user name matches. */
  function MatchingPcids(db: Store, k: string): set<Uuid> {
    (set u | u in db.students && u in db.users && Contains(db.users[u].name, k) :: db.students[u]) +
    (set u | u in db.instructors && u in db.users && Contains(db.users[u].name, k) :: db.instructors[u])
  }

  /** Posts written under one of those PCIDs. */
  function AuthorMatches(db: Store, k: string): set<Uuid> {
    set p | p in db.posts && db.posts[p].pcid in MatchingPcids(db, k)
  }

  /** The ids the search reports: the four selections concatenated, each id kept once. */
  function Search(db: Store, k: string): (r: set<Uuid>)
    ensures WellFormed(db) ==> r <= db.posts.Keys + db.threads.Keys
  {
    ContentMatches(db, k) + TagMatches(db, k) + FolderMatches(db, k) + AuthorMatches(db, k)
  }

  /** The empty keyword becomes `'%%'`, which every content matches: every post is reported. */
  lemma EmptyKeywordFindsEveryPost(db: Store)
    ensures db.posts.Keys <= Search(db, "")
  {
    forall p | p in db.posts
      ensures p in ContentMatches(db, "")
    {
      assert "" <= db.posts[p].content;
    }
  }

  /** Lengthening the keyword can only narrow the result: whatever matches a keyword matches
      every piece of it. */
  lemma SearchNarrowsAsKeywordGrows(db: Store, k: string, piece: string)
    requires Contains(k, piece)
    ensures Search(db, k) <= Search(db, piece)
  {
    forall p | p in ContentMatches(db, k)
      ensures p in ContentMatches(db, piece)
    {
      ContainsTransitive(db.posts[p].content, k, piece);
    }
    forall t | t in TagMatches(db, k)
      ensures t in TagMatches(db, piece)
    {
      var g :| g in db.tags && Contains(g.tag, k) && g.thread == t;
      ContainsTransitive(g.tag, k, piece);
    }
    forall t | t in FolderMatches(db, k)
      ensures t in FolderMatches(db, piece)
    {
      var pl :| pl in db.placements && Folder(pl.course, pl.folder) in db.folders && Contains(pl.folder, k) && pl.thread == t;
      ContainsTransitive(pl.folder, k, piece);
    }
    forall pc | pc in MatchingPcids(db, k)
      ensures pc in MatchingPcids(db, piece)
    {
      if u :| u in db.students && u in db.users && Contains(db.users[u].name, k) && db.students[u] == pc {
        ContainsTransitive(db.users[u].name, k, piece);
      } else {
        var u :| u in db.instructors && u in db.users && Contains(db.users[u].name, k) && db.instructors[u] == pc;
        ContainsTransitive(db.users[u].name, k, piece);
      }
    }
  }

  // ----- view_statistics -----

  /** One row of the statistics: UserName, NumberOfThreadsRead, NumberOfPostsCreated. */
  datatype StatRow = StatRow(userName: string, threadsRead: nat, postsCreated: nat)

  /** The PCIDs a user posts under: its Student row's and its Instructor row's. */
  function PcidsOf(db: Store, u: Uuid): set<Uuid> {
    (if u in db.students then {db.students[u]} else {}) +
    (if u in db.instructors then {db.instructors[u]} else {})
  }

  /** COUNT(PostID) over the user's PCIDs LEFT OUTER JOIN Post: 0 when there is none. */
  function PostsCreated(db: Store, u: Uuid): (n: nat)
    ensures n == 0 <==> forall p :: p in db.posts ==> db.posts[p].pcid !in PcidsOf(db, u)
  {
    var written := set p | p in db.posts && db.posts[p].pcid in PcidsOf(db, u);
    if written == {} then
      assert forall p :: p in db.posts ==> db.posts[p].pcid !in PcidsOf(db, u) by {
        forall p | p in db.posts
          ensures db.posts[p].pcid !in PcidsOf(db, u)
        {
          assert p !in written;
        }
      }
      0
    else
      var p :| p in written;
      |written|
  }

  /** COUNT(ThreadID) over User LEFT OUTER JOIN UserViewsThread: 0 when there is none. */
  function ThreadsRead(db: Store, u: Uuid): (n: nat)
    ensures n == 0 <==> forall v :: v in db.views ==> v.user != u
  {
    var read := set v | v in db.views && v.user == u;
    if read == {} then
      assert forall v :: v in db.views ==> v.user != u by {
        forall v | v in db.views
          ensures v.user != u
        {
          assert v !in read;
        }
      }
      0
    else
      var v :| v in read;
      |read|
  }

  /** The users the inner joins keep: those with a Student or an Instructor row. */
  function RoleUsers(db: Store): set<Uuid> {
    (db.students.Keys + db.instructors.Keys) * db.users.Keys
  }

  function UserStats(db: Store, u: Uuid): StatRow
    requires u in db.users
  {
    StatRow(db.users[u].name, ThreadsRead(db, u), PostsCreated(db, u))
  }

  /** The grouped rows before ORDER BY, in UserID order. */
  function GroupedRows(db: Store): (rows: seq<StatRow>)
    ensures |rows| == |RoleUsers(db)|
    ensures forall i :: 0 <= i < |rows| ==>
              Ascending(RoleUsers(db))[i] in RoleUsers(db) && rows[i] == UserStats(db, Ascending(RoleUsers(db))[i])
  {
    var us := Ascending(RoleUsers(db));
    assert forall i :: 0 <= i < |us| ==> us[i] in RoleUsers(db);
    seq(|us|, i requires 0 <= i < |us| && us[i] in db.users => UserStats(db, us[i]))
  }

  predicate SortedByReads(rows: seq<StatRow>) {
    forall i, j :: 0 <= i < j < |rows| ==> rows[i].threadsRead >= rows[j].threadsRead
  }

  /** Places `row` after every row that read at least as many threads. */
  function InsertByReads(row: StatRow, sorted: seq<StatRow>): (r: seq<StatRow>)
    requires SortedByReads(sorted)
    ensures SortedByReads(r)
    ensures forall x :: x in r ==> x == row || x in sorted
    ensures multiset(r) == multiset(sorted) + multiset{row}
  {
    if sorted == [] then [row]
    else if sorted[0].threadsRead < row.threadsRead then [row] + sorted
    else
      var head, tail := sorted[0], sorted[1..];
      assert sorted == [head] + tail;
      var rest := InsertByReads(row, tail);
      assert forall x :: x in tail ==> head.threadsRead >= x.threadsRead;
      PrependSorted(head, rest);
      [head] + rest
  }

  lemma PrependSorted(head: StatRow, rest: seq<StatRow>)
    requires SortedByReads(rest)
    requires forall x :: x in rest ==> head.threadsRead >= x.threadsRead
    ensures SortedByReads([head] + rest)
  {
    var r := [head] + rest;
    forall i, j | 0 <= i < j < |r|
      ensures r[i].threadsRead >= r[j].threadsRead
    {
      assert r[j] == rest[j - 1];
      if i > 0 {
        assert r[i] == rest[i - 1];
      }
    }
  }

  /** ORDER BY NumberOfThreadsRead DESC, rows with equal counts kept in their given order. */
  function SortByReads(rows: seq<StatRow>): (r: seq<StatRow>)
    ensures SortedByReads(r)
    ensures multiset(r) == multiset(rows)
  {
    if rows == [] then []
    else
      assert rows == rows[..|rows| - 1] + [rows[|rows| - 1]];
      InsertByReads(rows[|rows| - 1], SortByReads(rows[..|rows| - 1]))
  }

  /** The statistics table: sorted by threads read, most first, and a permutation of the
      per-user rows. */
  function Statistics(db: Store): (r: seq<StatRow>)
    ensures SortedByReads(r)
    ensures multiset(r) == multiset(GroupedRows(db))
    ensures |r| == |RoleUsers(db)|
  {
    var rows := GroupedRows(db);
    var r := SortByReads(rows);
    assert |r| == |multiset(r)| == |multiset(rows)| == |rows|;
    r
  }

  /** Every user with a role has its row in the statistics. */
  lemma StatisticsHasEveryRoleUser(db: Store, u: Uuid)
    requires u in RoleUsers(db)
    ensures UserStats(db, u) in Statistics(db)
  {
    var us := Ascending(RoleUsers(db));
    var rows := GroupedRows(db);
    var i :| 0 <= i < |us| && us[i] == u;
    assert rows[i] == UserStats(db, u);
    assert UserStats(db, u) in multiset(rows);
    assert UserStats(db, u) in multiset(Statistics(db));
  }

  /** Every row of the statistics is the row of a user with a role. */
  lemma StatisticsRowIsRoleUsers(db: Store, row: StatRow)
    requires row in Statistics(db)
    ensures exists u :: u in RoleUsers(db) && row == UserStats(db, u)
  {
    var rows := GroupedRows(db);
    assert row in multiset(Statistics(db));
    assert row in multiset(rows);
    var i :| 0 <= i < |rows| && rows[i] == row;
    var u := Ascending(RoleUsers(db))[i];
    assert u in RoleUsers(db) && row == UserStats(db, u);
  }

  /** The counts are outer counts: a user with a role but no post and no view still has a
      row, with both counts 0. */
  lemma IdleUserCountsZero(db: Store, u: Uuid)
    requires u in RoleUsers(db)
    requires forall p :: p in db.posts ==> db.posts[p].pcid !in PcidsOf(db, u)
    requires forall v :: v in db.views ==> v.user != u
    ensures StatRow(db.users[u].name, 0, 0) in Statistics(db)
  {
    assert (set v | v in db.views && v.user == u) == {};
    assert (set p | p in db.posts && db.posts[p].pcid in PcidsOf(db, u)) == {};
    StatisticsHasEveryRoleUser(db, u);
  }
}
