/**
 * The base every persisted entity embeds (`AbstractBase` in both the users and the
 * courses domain packages, which define it identically): a primary-key UUID, an
 * active flag whose column default is true, and creation/update timestamps.
 * UUID generation and the clock are not modelled: a fresh UUID and the current time
 * are passed in by the caller of each create operation.
 */
module Entity {
  import opened Wrappers

  /** An opaque clock reading; only whether a timestamp is set matters to the core. */
  type Time = nat

  predicate IsHexDigit(c: char) {
    '0' <= c <= '9' || 'a' <= c <= 'f'
  }

  /** The canonical 36-character text form of a UUID (8-4-4-4-12 hex digits). */
  predicate IsUuidText(s: string) {
    |s| == 36 &&
    forall i :: 0 <= i < |s| ==>
      if i == 8 || i == 13 || i == 18 || i == 23 then s[i] == '-' else IsHexDigit(s[i])
  }

  /** What the UUID generator yields: never the empty string. */
  type Uuid = s: string | IsUuidText(s) witness "00000000-0000-0000-0000-000000000000"

  /** The columns of `AbstractBase` as stored in a table row. */
  datatype BaseRow = BaseRow(uuid: string, active: bool, createdAt: Option<Time>, updatedAt: Option<Time>)

  /** The row before creation: every field at its zero value. */
  const ZeroBase := BaseRow("", false, None, None)

  /** A timestamp the ORM fills at creation when the caller left it unset. */
  function Stamp(t: Option<Time>, now: Time): (r: Option<Time>)
    ensures r.Some?
    ensures t.Some? ==> r == t
  {
    if t.None? then Some(now) else t
  }

  /**
   * The base of a record once creation has run, and of the row it inserts: the
   * identity is the fresh id, whatever the caller supplied; `active` is true (a false
   * value is the column's zero value, so the default applies); timestamps are set.
   */
  function Created(b: BaseRow, id: Uuid, now: Time): (r: BaseRow)
    ensures r.uuid == id
    ensures r.active
    ensures r.createdAt.Some? && r.updatedAt.Some?
    ensures b.createdAt.Some? ==> r.createdAt == b.createdAt
    ensures b.updatedAt.Some? ==> r.updatedAt == b.updatedAt
  {
    BaseRow(id, true, Stamp(b.createdAt, now), Stamp(b.updatedAt, now))
  }

  /** Creation discards any caller-supplied identity and active flag. */
  lemma CreatedIgnoresCallerIdentity(b1: BaseRow, b2: BaseRow, id: Uuid, now: Time)
    requires b1.createdAt == b2.createdAt && b1.updatedAt == b2.updatedAt
    ensures Created(b1, id, now) == Created(b2, id, now)
  {
  }

  /** The embedded base of an entity record, updated in place during creation. */
  class AbstractBase {
    var uuid: string
    var active: bool
    var createdAt: Option<Time>
    var updatedAt: Option<Time>

    constructor (row: BaseRow)
      ensures Row() == row
    {
      uuid, active, createdAt, updatedAt := row.uuid, row.active, row.createdAt, row.updatedAt;
    }

    function Row(): BaseRow
      reads this
    {
      BaseRow(uuid, active, createdAt, updatedAt)
    }

    /** The create hook: overwrites the identity with a freshly generated UUID. */
    method BeforeCreate(id: Uuid)
      modifies this
      ensures uuid == id && uuid != ""
      ensures active == old(active) && createdAt == old(createdAt) && updatedAt == old(updatedAt)
    {
      uuid := id;
    }

    /**
     * The ORM's creation step after the hook, before the insert: unset timestamps
     * take the current time, and a false `active` (the zero value) takes the column
     * default, true.
     */
    method FillDefaults(now: Time)
      modifies this
      ensures uuid == old(uuid) && active
      ensures createdAt.Some? && updatedAt.Some?
      ensures createdAt == Stamp(old(createdAt), now) && updatedAt == Stamp(old(updatedAt), now)
    {
      createdAt := Stamp(createdAt, now);
      updatedAt := Stamp(updatedAt, now);
      if !active {
        active := true;
      }
    }
  }
}
