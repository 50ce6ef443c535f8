/**
 * The stateful side of the BotData create pipeline: the instance whose
 * `botId` beforeValidate rewrites in place, and the table that `create`
 * inserts into.
 */
module Table {
  import opened BotData

  /** A BotData instance before it is saved. */
  class Instance {
    var roomId: string
    var botId: string
    var name: Option<string>

    constructor (roomId: string, botId: string, name: Option<string>)
      ensures this.roomId == roomId && this.botId == botId && this.name == name
    {
      this.roomId := roomId;
      this.botId := botId;
      this.name := name;
    }

    function Values(): Candidate
      reads this
    {
      Candidate(roomId, botId, name)
    }

    /**
     * hooks.beforeValidate: leaves an id-shaped `botId` alone; otherwise
     * looks the bot up by name and overwrites `botId` with its id. When no
     * bot has that name the hook fails and the instance keeps its value.
     * No other field changes.
     */
    method BeforeValidate(bots: seq<Bot>, looksLikeId: string -> bool) returns (r: Outcome)
      modifies this
      ensures roomId == old(roomId) && name == old(name)
      ensures r.Pass? <==> ResolveBotId(bots, looksLikeId, old(botId)).Success?
      ensures r.Pass? ==> botId == ResolveBotId(bots, looksLikeId, old(botId)).value
      ensures r.Fail? ==> botId == old(botId) && r.error == BotNotFound(old(botId))
    {
      if looksLikeId(botId) {
        return Pass;
      }
      var bot := FindBotByName(bots, botId);
      match bot {
        case None =>
          r := Fail(BotNotFound(botId));
        case Some(b) =>
          botId := b.id;
          r := Pass;
      }
    }
  }

  /** The BotData table together with the read-only Bot table it resolves names against. */
  class BotDataTable {
    const bots: seq<Bot>
    const looksLikeId: string -> bool
    const nameRegex: string -> bool
    var rows: seq<Row>

    ghost predicate Valid()
      reads this
    {
      TableInvariant(rows, nameRegex)
    }

    constructor (bots: seq<Bot>, looksLikeId: string -> bool, nameRegex: string -> bool)
      ensures Valid() && rows == []
      ensures this.bots == bots && this.looksLikeId == looksLikeId && this.nameRegex == nameRegex
    {
      this.bots := bots;
      this.looksLikeId := looksLikeId;
      this.nameRegex := nameRegex;
      rows := [];
    }

    /**
     * `BotData.create(inst)` with `newId` the generated UUID: runs
     * beforeValidate on the instance, then the name validation, then
     * beforeCreate, then the insert. Either exactly one row is appended,
     * carrying `newId`, or the table is unchanged; the invariant holds
     * either way. The instance keeps a resolved `botId` even when a later
     * stage fails.
     */
    method Create(inst: Instance, newId: string) returns (r: Result<Row>)
      requires Valid()
      modifies this, inst
      ensures Valid()
      ensures r == CreateOutcome(old(rows), bots, looksLikeId, nameRegex, old(inst.Values()), newId)
      ensures rows == if r.Success? then old(rows) + [r.value] else old(rows)
      ensures r.Success? ==> r.value.id == newId && !IdInUse(old(rows), newId)
      ensures inst.roomId == old(inst.roomId) && inst.name == old(inst.name)
      ensures var resolved := ResolveBotId(bots, looksLikeId, old(inst.botId));
              inst.botId == if resolved.Success? then resolved.value else old(inst.botId)
    {
      var hook := inst.BeforeValidate(bots, looksLikeId);
      if hook.Fail? {
        return Failure(hook.error);
      }
      r := Admit(rows, inst.roomId, inst.botId, inst.name, newId, nameRegex);
      if r.Success? {
        AdmitPreservesInvariant(rows, inst.roomId, inst.botId, inst.name, newId, nameRegex);
        rows := rows + [r.value];
      }
    }
  }
}
