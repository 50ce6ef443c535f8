/**
 * The create pipeline of a BotData record (db/model/botData.js): the
 * values, the two lifecycle hooks as functions, the field and index
 * constraints of the table, and the properties of the whole pipeline.
 *
 * The stages run in the order the ORM calls them on `create`:
 *   1. beforeValidate: `botId` holding a bot name is rewritten to that bot's id;
 *   2. field validation: `name` is non-null and matches the name pattern;
 *   3. beforeCreate: a row with the same room, bot and exactly the same name is refused;
 *   4. INSERT: the primary key on `id` and the unique index on
 *      (lower(name), roomId, botId) are enforced by the store.
 */
module BotData {
  import opened CaseFold

  datatype Option<T> = None | Some(value: T)

  /** A row of the Bot table; the pipeline only reads it. */
  datatype Bot = Bot(id: string, name: string)

  /** A committed row of the BotData table. */
  datatype Row = Row(id: string, name: string, roomId: string, botId: string)

  /** The values an instance carries into `create`; `name` may be null. */
  datatype Candidate = Candidate(roomId: string, botId: string, name: Option<string>)

  /** The name of the unique index over (lower(name), roomId, botId). */
  const IndexName: string := "BotDataRoomBotandUniqueName"

  /** The ways a create attempt is rejected. */
  datatype CreateError =
    | BotNotFound(botName: string)             // beforeValidate: no bot has that name
    | NameNull                                 // `name` has allowNull: false
    | NameInvalid(name: string)                // `name` fails the name pattern
    | DuplicateName(name: string, conflictId: string, message: string)  // beforeCreate's ValidationError
    | PrimaryKeyViolation(id: string)          // `id` is already taken
    | UniqueIndexViolation(index: string)      // the unique index refuses the row

  datatype Result<T> = Success(value: T) | Failure(error: CreateError)

  datatype Outcome = Pass | Fail(error: CreateError)

  // ---------------------------------------------------------------------------
  // Stage 1: resolving `botId` (hooks.beforeValidate)
  // ---------------------------------------------------------------------------

  /** `Bot.findOne({ where: { name } })`: some bot with exactly that name, or null. */
  function FindBotByName(bots: seq<Bot>, name: string): (r: Option<Bot>)
    ensures r.None? <==> forall b :: b in bots ==> b.name != name
    ensures r.Some? ==> r.value in bots && r.value.name == name
  {
    if |bots| == 0 then None
    else if bots[0].name == name then Some(bots[0])
    else FindBotByName(bots[1..], name)
  }

  /**
   * The value `botId` holds after beforeValidate: itself when it already
   * looks like an id, otherwise the id of the bot of that name. With no
   * such bot the hook fails (the source dereferences the null lookup).
   */
  function ResolveBotId(bots: seq<Bot>, looksLikeId: string -> bool, botId: string): (r: Result<string>)
    ensures looksLikeId(botId) ==> r == Success(botId)
    ensures !looksLikeId(botId) ==>
      (r.Success? <==> exists b :: b in bots && b.name == botId)
    ensures !looksLikeId(botId) && r.Success? ==>
      exists b :: b in bots && b.name == botId && b.id == r.value
    ensures r.Failure? ==> r.error == BotNotFound(botId)
  {
    if looksLikeId(botId) then Success(botId)
    else
      match FindBotByName(bots, botId)
      case Some(b) => Success(b.id)
      case None => Failure(BotNotFound(botId))
  }

  /**
   * Resolution is idempotent once every bot id looks like an id: running
   * the hook again on a resolved `botId` leaves it as it is.
   */
  lemma ResolveIdempotent(bots: seq<Bot>, looksLikeId: string -> bool, botId: string)
    requires forall b :: b in bots ==> looksLikeId(b.id)
    requires ResolveBotId(bots, looksLikeId, botId).Success?
    ensures var id := ResolveBotId(bots, looksLikeId, botId).value;
            ResolveBotId(bots, looksLikeId, id) == Success(id)
  {
    var id := ResolveBotId(bots, looksLikeId, botId).value;
    if !looksLikeId(botId) {
      var b :| b in bots && b.name == botId && b.id == id;
      assert looksLikeId(id);
    }
  }

  // ---------------------------------------------------------------------------
  // Stage 2: field validation of `name`
  // ---------------------------------------------------------------------------

  /** `name` is non-null (allowNull: false) and matches the name pattern (validate.is). */
  function ValidateName(name: Option<string>, nameRegex: string -> bool): (r: Result<string>)
    ensures r.Success? <==> name.Some? && nameRegex(name.value)
    ensures r.Success? ==> r.value == name.value
    ensures name.None? ==> r == Failure(NameNull)
    ensures name.Some? && !nameRegex(name.value) ==> r == Failure(NameInvalid(name.value))
  {
    match name
    case None => Failure(NameNull)
    case Some(n) => if nameRegex(n) then Success(n) else Failure(NameInvalid(n))
  }

  // ---------------------------------------------------------------------------
  // Stage 3: the duplicate guard (hooks.beforeCreate)
  // ---------------------------------------------------------------------------

  /** The filter of beforeCreate's lookup: equal room, equal bot, exactly equal name. */
  predicate SameTriple(row: Row, roomId: string, botId: string, name: string)
  {
    row.roomId == roomId && row.botId == botId && row.name == name
  }

  /** `BotData.findOne` with that filter: some existing row matching it, or null. */
  function FindConflict(rows: seq<Row>, roomId: string, botId: string, name: string): (r: Option<Row>)
    ensures r.None? <==> forall row :: row in rows ==> !SameTriple(row, roomId, botId, name)
    ensures r.Some? ==> r.value in rows && SameTriple(r.value, roomId, botId, name)
  {
    if |rows| == 0 then None
    else if SameTriple(rows[0], roomId, botId, name) then Some(rows[0])
    else FindConflict(rows[1..], roomId, botId, name)
  }

  /** The text of the ValidationError, with a space between the name and the rest. */
  function DuplicateMessage(name: string, id: string): string
  {
    "Bot data with the name " + name + " already is in use in this room at ID " + id
  }

  /** The text of the ValidationError as the source concatenates it. */
  function DuplicateMessageAsWritten(name: string, id: string): string
  {
    "Bot data with the name " + name + "already is in use in this room at ID " + id
  }

  /** In the message as written, the name runs straight into the word "already". */
  lemma AsWrittenMessageJoinsName(name: string, id: string)
    ensures var m := DuplicateMessageAsWritten(name, id);
            var k := |"Bot data with the name "| + |name|;
            k + 7 <= |m| && m[k - |name|..k] == name && m[k..k + 7] == "already"
  {
    var p := "Bot data with the name ";
    var rest := "already is in use in this room at ID ";
    var m := DuplicateMessageAsWritten(name, id);
    assert m == p + name + rest + id;
    var k := |p| + |name|;
    assert m[|p|..k] == name;
    assert m[k..k + 7] == rest[..7];
  }

  /** The corrected message sets the name off as a word of its own and ends with the conflicting id. */
  lemma DuplicateMessageDelimitsName(name: string, id: string)
    ensures var m := DuplicateMessage(name, id);
            var k := |"Bot data with the name "| + |name|;
            k < |m| && m[k - |name|..k] == name && m[k - |name| - 1] == ' ' && m[k] == ' '
            && m[|m| - |id|..] == id
  {
    var p := "Bot data with the name ";
    var rest := " already is in use in this room at ID ";
    var m := DuplicateMessage(name, id);
    assert m == p + name + rest + id;
    var k := |p| + |name|;
    assert m[|p|..k] == name;
    assert m[k] == rest[0];
    assert m[|m| - |id|..] == id;
  }

  /**
   * beforeCreate: fails with a ValidationError naming the candidate's name
   * and the id of a conflicting row exactly when some existing row has the
   * same room, bot and name; otherwise lets the instance through.
   */
  function BeforeCreate(rows: seq<Row>, roomId: string, botId: string, name: string): (r: Outcome)
    ensures r.Fail? <==> exists row :: row in rows && SameTriple(row, roomId, botId, name)
    ensures r.Fail? ==> exists row :: row in rows && SameTriple(row, roomId, botId, name) &&
                                      r.error == DuplicateName(name, row.id, DuplicateMessage(name, row.id))
  {
    match FindConflict(rows, roomId, botId, name)
    case Some(found) => Fail(DuplicateName(name, found.id, DuplicateMessage(name, found.id)))
    case None => Pass
  }

  // ---------------------------------------------------------------------------
  // Stage 4: the constraints the store enforces on INSERT
  // ---------------------------------------------------------------------------

  /** A row's key in the unique index: (lower(name), roomId, botId). */
  predicate SameKey(row: Row, roomId: string, botId: string, name: string)
  {
    SameUpToCase(row.name, name) && row.roomId == roomId && row.botId == botId
  }

  predicate IndexClash(rows: seq<Row>, roomId: string, botId: string, name: string)
  {
    exists row :: row in rows && SameKey(row, roomId, botId, name)
  }

  predicate IdInUse(rows: seq<Row>, id: string)
  {
    exists row :: row in rows && row.id == id
  }

  /** The INSERT: the primary key is checked first, then the unique index. */
  function CheckConstraints(rows: seq<Row>, row: Row): (r: Outcome)
    ensures r.Pass? <==> !IdInUse(rows, row.id) && !IndexClash(rows, row.roomId, row.botId, row.name)
    ensures IdInUse(rows, row.id) ==> r == Fail(PrimaryKeyViolation(row.id))
    ensures !IdInUse(rows, row.id) && IndexClash(rows, row.roomId, row.botId, row.name) ==>
            r == Fail(UniqueIndexViolation(IndexName))
  {
    if IdInUse(rows, row.id) then Fail(PrimaryKeyViolation(row.id))
    else if IndexClash(rows, row.roomId, row.botId, row.name) then Fail(UniqueIndexViolation(IndexName))
    else Pass
  }

  // ---------------------------------------------------------------------------
  // The table invariant
  // ---------------------------------------------------------------------------

  /** No two rows share (lower(name), roomId, botId). */
  predicate KeysUnique(rows: seq<Row>)
  {
    forall i, j :: 0 <= i < j < |rows| ==> !SameKey(rows[j], rows[i].roomId, rows[i].botId, rows[i].name)
  }

  /** No two rows share an id (the primary key). */
  predicate IdsUnique(rows: seq<Row>)
  {
    forall i, j :: 0 <= i < j < |rows| ==> rows[i].id != rows[j].id
  }

  /** Every stored name passed the name pattern. */
  predicate NamesValid(rows: seq<Row>, nameRegex: string -> bool)
  {
    forall row :: row in rows ==> nameRegex(row.name)
  }

  predicate TableInvariant(rows: seq<Row>, nameRegex: string -> bool)
  {
    KeysUnique(rows) && IdsUnique(rows) && NamesValid(rows, nameRegex)
  }

  // ---------------------------------------------------------------------------
  // The pipeline
  // ---------------------------------------------------------------------------

  /**
   * Stages 2 to 4 for an instance whose `botId` is already resolved: the
   * row to insert, or the first stage's error.
   */
  function Admit(rows: seq<Row>, roomId: string, botId: string, name: Option<string>,
                 newId: string, nameRegex: string -> bool): (r: Result<Row>)
    ensures r.Success? <==>
      && name.Some? && nameRegex(name.value)
      && (forall row :: row in rows ==> !SameTriple(row, roomId, botId, name.value))
      && !IdInUse(rows, newId)
      && !IndexClash(rows, roomId, botId, name.value)
    ensures r.Success? ==> r.value == Row(newId, name.value, roomId, botId)
  {
    match ValidateName(name, nameRegex)
    case Failure(e) => Failure(e)
    case Success(n) =>
      match BeforeCreate(rows, roomId, botId, n)
      case Fail(e) => Failure(e)
      case Pass =>
        var row := Row(newId, n, roomId, botId);
        match CheckConstraints(rows, row)
        case Fail(e) => Failure(e)
        case Pass => Success(row)
  }

  /** The whole create pipeline: resolve `botId`, then stages 2 to 4. */
  function CreateOutcome(rows: seq<Row>, bots: seq<Bot>, looksLikeId: string -> bool,
                         nameRegex: string -> bool, c: Candidate, newId: string): (r: Result<Row>)
    ensures ResolveBotId(bots, looksLikeId, c.botId).Failure? ==> r == Failure(BotNotFound(c.botId))
    ensures r.Success? ==>
      && r.value.id == newId && r.value.roomId == c.roomId && c.name == Some(r.value.name)
      && nameRegex(r.value.name)
      && (looksLikeId(c.botId) ==> r.value.botId == c.botId)
      && (!looksLikeId(c.botId) ==> exists b :: b in bots && b.name == c.botId && b.id == r.value.botId)
  {
    match ResolveBotId(bots, looksLikeId, c.botId)
    case Failure(e) => Failure(e)
    case Success(botId) => Admit(rows, c.roomId, botId, c.name, newId, nameRegex)
  }

  // ---------------------------------------------------------------------------
  // Properties
  // ---------------------------------------------------------------------------

  /** Every successful insert keeps the table invariant. */
  lemma AdmitPreservesInvariant(rows: seq<Row>, roomId: string, botId: string, name: Option<string>,
                                newId: string, nameRegex: string -> bool)
    requires TableInvariant(rows, nameRegex)
    requires Admit(rows, roomId, botId, name, newId, nameRegex).Success?
    ensures TableInvariant(rows + [Admit(rows, roomId, botId, name, newId, nameRegex).value], nameRegex)
  {
    var row := Admit(rows, roomId, botId, name, newId, nameRegex).value;
    var rows' := rows + [row];
    forall i, j | 0 <= i < j < |rows'|
      ensures !SameKey(rows'[j], rows'[i].roomId, rows'[i].botId, rows'[i].name)
      ensures rows'[i].id != rows'[j].id
    {
      if j == |rows| {
        assert rows'[i] in rows;
        assert !SameKey(rows'[i], roomId, botId, row.name);
      }
    }
  }

  /** A candidate equal to an existing row in room, bot and exact name is refused by the hook, which names that row. */
  lemma ExactDuplicateRejectedByHook(rows: seq<Row>, nameRegex: string -> bool, existing: Row, newId: string)
    requires TableInvariant(rows, nameRegex)
    requires existing in rows
    ensures Admit(rows, existing.roomId, existing.botId, Some(existing.name), newId, nameRegex)
            == Failure(DuplicateName(existing.name, existing.id, DuplicateMessage(existing.name, existing.id)))
  {
    var r := BeforeCreate(rows, existing.roomId, existing.botId, existing.name);
    assert SameTriple(existing, existing.roomId, existing.botId, existing.name);
    var other :| other in rows && SameTriple(other, existing.roomId, existing.botId, existing.name) &&
                 r.error == DuplicateName(existing.name, other.id, DuplicateMessage(existing.name, other.id));
    SameKeyIsUnique(rows, existing, other);
  }

  /** Under the invariant, two rows with the same index key are the same row. */
  lemma SameKeyIsUnique(rows: seq<Row>, a: Row, b: Row)
    requires KeysUnique(rows)
    requires a in rows && b in rows
    requires SameKey(b, a.roomId, a.botId, a.name)
    ensures a == b
  {
    var i :| 0 <= i < |rows| && rows[i] == a;
    var j :| 0 <= j < |rows| && rows[j] == b;
  }

  /**
   * The gap between the hook and the index: a name that differs from an
   * existing row's only in letter case passes beforeCreate (its lookup is
   * exact) and is stopped only by the unique index on lower(name).
   */
  lemma CaseVariantRejectedOnlyByIndex(rows: seq<Row>, nameRegex: string -> bool, existing: Row,
                                       name: string, newId: string)
    requires TableInvariant(rows, nameRegex)
    requires existing in rows
    requires name != existing.name && SameUpToCase(name, existing.name)
    requires nameRegex(name) && !IdInUse(rows, newId)
    ensures BeforeCreate(rows, existing.roomId, existing.botId, name) == Pass
    ensures Admit(rows, existing.roomId, existing.botId, Some(name), newId, nameRegex)
            == Failure(UniqueIndexViolation(IndexName))
  {
    forall row | row in rows
      ensures !SameTriple(row, existing.roomId, existing.botId, name)
    {
      if SameTriple(row, existing.roomId, existing.botId, name) {
        SameKeyIsUnique(rows, existing, row);
      }
    }
    assert SameKey(existing, existing.roomId, existing.botId, name);
  }

  /**
   * Two records with the same name but a different room or a different
   * bot are both admitted, in either order: the key includes both.
   */
  lemma SameNameOtherScopeAdmitted(rows: seq<Row>, nameRegex: string -> bool, name: string,
                                   roomId1: string, botId1: string, id1: string,
                                   roomId2: string, botId2: string, id2: string)
    requires Admit(rows, roomId1, botId1, Some(name), id1, nameRegex).Success?
    requires Admit(rows, roomId2, botId2, Some(name), id2, nameRegex).Success?
    requires roomId1 != roomId2 || botId1 != botId2
    requires id1 != id2
    ensures var first := Admit(rows, roomId1, botId1, Some(name), id1, nameRegex).value;
            Admit(rows + [first], roomId2, botId2, Some(name), id2, nameRegex)
            == Success(Row(id2, name, roomId2, botId2))
  {
    var first := Admit(rows, roomId1, botId1, Some(name), id1, nameRegex).value;
    var rows' := rows + [first];
    assert !SameKey(first, roomId2, botId2, name);
    assert !IndexClash(rows', roomId2, botId2, name);
  }

  /**
   * After a successful create, a second create in the same room for the
   * same bot with a name equal up to case fails: with the hook's error
   * naming the first row when the name is exactly equal, with the
   * index's error when it differs in letter case.
   */
  lemma SecondCreateSameKeyRejected(rows: seq<Row>, nameRegex: string -> bool, roomId: string, botId: string,
                                    name1: string, id1: string, name2: string, id2: string)
    requires Admit(rows, roomId, botId, Some(name1), id1, nameRegex).Success?
    requires SameUpToCase(name1, name2) && nameRegex(name2)
    ensures var first := Admit(rows, roomId, botId, Some(name1), id1, nameRegex).value;
            var second := Admit(rows + [first], roomId, botId, Some(name2), id2, nameRegex);
            && second.Failure?
            && (name1 == name2 ==> second.error == DuplicateName(name1, id1, DuplicateMessage(name1, id1)))
            && (name1 != name2 && !IdInUse(rows + [first], id2) ==> second.error == UniqueIndexViolation(IndexName))
  {
    var first := Admit(rows, roomId, botId, Some(name1), id1, nameRegex).value;
    var rows' := rows + [first];
    assert first in rows';
    forall row | row in rows' && row != first
      ensures !SameTriple(row, roomId, botId, name2)
    {
      assert row in rows;
      assert !SameKey(row, roomId, botId, name1);
    }
    assert SameKey(first, roomId, botId, name2);
  }

  /** A failed resolution blocks the insert: no row is produced, whatever the table holds. */
  lemma UnknownBotBlocksCreate(rows: seq<Row>, bots: seq<Bot>, looksLikeId: string -> bool,
                               nameRegex: string -> bool, c: Candidate, newId: string)
    requires !looksLikeId(c.botId)
    requires forall b :: b in bots ==> b.name != c.botId
    ensures CreateOutcome(rows, bots, looksLikeId, nameRegex, c, newId) == Failure(BotNotFound(c.botId))
  {
  }
}
