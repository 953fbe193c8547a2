/**
 * The thread colour: 0 with no recorded reply, 1 with only an instructor reply, 2 with only
 * a student reply, 3 with both. The seeding script derives it from the reply slots; a later
 * reply of the same role overwrites its slot.
 */
module ThreadColour {
  import opened Wrappers
  import opened Schema

  function Bit(slot: Option<Uuid>): int {
    if slot.Some? then 1 else 0
  }

  /** The colour of a thread from its reply slots, tested in the seeding script's order. */
  function Colour(s: Slots): (c: int)
    ensures 0 <= c <= 3
    ensures c == 2 * Bit(s.studentReply) + Bit(s.instructorReply)
  {
    if s.studentReply.Some? && s.instructorReply.Some? then 3
    else if s.studentReply.Some? then 2
    else if s.instructorReply.Some? then 1
    else 0
  }

  /** Records `reply` in the slot of the replier's role, replacing what was there. */
  function WithReply(s: Slots, role: Role, reply: Uuid): (r: Slots)
    ensures role == Student ==> r.studentReply == Some(reply) && r.instructorReply == s.instructorReply
    ensures role == Instructor ==> r.instructorReply == Some(reply) && r.studentReply == s.studentReply
    ensures SlotOf(r, role) == Some(reply)
  {
    match role
    case Student => s.(studentReply := Some(reply))
    case Instructor => s.(instructorReply := Some(reply))
  }

  /** The slot a reply by `role` goes to. */
  function SlotOf(s: Slots, role: Role): Option<Uuid> {
    match role
    case Student => s.studentReply
    case Instructor => s.instructorReply
  }

  /** Every Thread row carries the colour its slots determine. */
  predicate ColoursDerived(db: Store) {
    forall t :: t in db.threads ==> db.threads[t].colour == Colour(db.threads[t].slots)
  }

  /** Writing one Thread row whose colour is derived from its own slots keeps every colour
      derived. */
  lemma SetDerivedRowKeepsColours(db: Store, db': Store, t: Uuid, s: Slots)
    requires ColoursDerived(db)
    requires db'.threads == db.threads[t := ThreadRow(Colour(s), s)]
    ensures ColoursDerived(db')
  {
  }

  /** A reply never lowers the colour; it raises it exactly when it fills an empty slot, by 2
      for a student and by 1 for an instructor. */
  lemma ReplyRaisesColour(s: Slots, role: Role, reply: Uuid)
    ensures var c := Colour(WithReply(s, role, reply));
      c == Colour(s) + (match role
                        case Student => 2 * (1 - Bit(s.studentReply))
                        case Instructor => 1 - Bit(s.instructorReply))
  {
  }

  /** A second reply from the same role replaces the recorded reply and leaves the colour. */
  lemma SameRoleReplyOverwrites(s: Slots, role: Role, first: Uuid, second: Uuid)
    ensures WithReply(WithReply(s, role, first), role, second) == WithReply(s, role, second)
    ensures Colour(WithReply(WithReply(s, role, first), role, second)) == Colour(WithReply(s, role, first))
  {
  }

  /** The colour is a function of which slots are set, not of the replies they hold. */
  lemma ColourIgnoresReplyIds(s: Slots, t: Slots)
    requires s.studentReply.Some? == t.studentReply.Some?
    requires s.instructorReply.Some? == t.instructorReply.Some?
    ensures Colour(s) == Colour(t)
  {
  }
}
