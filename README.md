# BotData create pipeline

A model of how a `BotData` record is created (`db/model/botData.js`). A
BotData row holds one named piece of bot data for a room, keyed by
`roomId`, `botId` and `name`. Creating one runs four stages in order:

1. **beforeValidate** (`Table.Instance.BeforeValidate`, `BotData.ResolveBotId`).
   If `botId` already looks like an id, it is left alone. Otherwise `botId` is
   read as a bot name, looked up in the Bot table, and overwritten in place
   with that bot's id. If no bot has that name, the create fails.
2. **field validation** (`BotData.ValidateName`). `name` must be non-null and
   must match the name pattern.
3. **beforeCreate** (`BotData.BeforeCreate`). The create is refused with a
   validation error when an existing row has the same room, the same bot
   and exactly the same name. The error carries the name and the id of the
   conflicting row.
4. **insert** (`BotData.CheckConstraints`). The store enforces the primary
   key on `id` and the unique index `BotDataRoomBotandUniqueName` over
   (`lower(name)`, `roomId`, `botId`).

`Table.BotDataTable` holds the rows as a `seq<Row>` and the read-only Bot
table. Its `Create` method appends exactly one row or changes nothing. It
always keeps `BotData.TableInvariant`: no two rows share an index key, no two
rows share an id, and every stored name matches the pattern.

The model takes these as parameters, because their definitions are not part
of it:
- `looksLikeId`: the id-shape test of the verbs utilities (`api/v1/helpers/verbs/utils`).
- `nameRegex`: the configured name pattern (`db/constants`).
- `newId`: the UUIDv4 the ORM generates for `id`.

The SQL `lower` is modelled as a fold of ASCII letters (`CaseFold.Lower`).

The main property is about a gap between the hook and the index. The hook
compares `name` exactly, but the index compares `lower(name)`. So a name that
differs from an existing row's name only in letter case passes the hook. Only
the index stops it, and the error it raises is the index violation, not the
hook's validation error. `BotData.CaseVariantRejectedOnlyByIndex` proves this.

## Model

| member | source | states |
|---|---|---|
| BotData.FindBotByName | db/model/botData.js:78-82 | the lookup finds a bot exactly when some bot in the table has that exact name, and the bot it returns is in the table and has that name |
| BotData.ResolveBotId | db/model/botData.js:72-86 | an id-shaped `botId` resolves to itself; otherwise resolution succeeds exactly when a bot of that name exists and yields that bot's id; failure is `BotNotFound` for the given value |
| BotData.ResolveIdempotent | db/model/botData.js:72-86 | when every bot id looks like an id, resolving an already resolved `botId` again leaves it unchanged |
| BotData.UnknownBotBlocksCreate | db/model/botData.js:78-85 | a non-id `botId` that names no bot makes the whole create fail with `BotNotFound`, whatever the table holds |
| Table.Instance.BeforeValidate | db/model/botData.js:72-86 | the hook passes exactly when resolution succeeds; on success `botId` becomes the resolved id, on failure it keeps its value; `roomId` and `name` never change |
| BotData.ValidateName | db/model/botData.js:29-36 | validation passes exactly when `name` is non-null and matches the name pattern; a null name fails with `NameNull`, a name off the pattern with `NameInvalid` |
| BotData.FindConflict | db/model/botData.js:95-101 | the guard's lookup finds a row exactly when some existing row has an equal room, an equal bot and an exactly equal name, and the row it returns is such a row |
| BotData.BeforeCreate | db/model/botData.js:93-113 | the hook fails exactly when a row with the same room, bot and exact name exists; its error carries the candidate's name and the id of such a row; otherwise it passes |
| BotData.CheckConstraints | db/model/botData.js:24-121 | the insert (primary key of lines 24-28, unique index of lines 115-121) is accepted exactly when the new id is unused and no row shares (lower(name), roomId, botId); a taken id fails on the primary key, a shared key fails on `BotDataRoomBotandUniqueName` |
| BotData.Admit | db/model/botData.js:24-121 | after resolution, a row is produced exactly when the name is non-null and valid, no row matches the exact triple, the id is fresh and no row shares the case-folded key; the row carries the new id, the name, the room and the resolved bot |
| BotData.CreateOutcome | db/model/botData.js:72-121 | a failed resolution fails the create; a successful create yields a row with the new id, the candidate's room and name, a name on the pattern, and a bot id that is either the given id or the id of the bot with the given name |
| BotData.AdmitPreservesInvariant | db/model/botData.js:115-121 | every successful insert keeps the table invariant: unique case-folded keys, unique ids, valid names |
| BotData.SameKeyIsUnique | db/model/botData.js:115-121 | under the invariant, two rows with the same (lower(name), roomId, botId) key are the same row |
| BotData.ExactDuplicateRejectedByHook | db/model/botData.js:95-108 | a candidate with an existing row's room, bot and exact name is refused by the hook, and its error names that row's id |
| BotData.CaseVariantRejectedOnlyByIndex | db/model/botData.js:96-121 | a name that differs from an existing row's name only in letter case passes beforeCreate but is refused by the unique index |
| BotData.SameNameOtherScopeAdmitted | db/model/botData.js:96-121 | two records with the same name but a different room or a different bot are both admitted, one after the other |
| BotData.SecondCreateSameKeyRejected | db/model/botData.js:93-121 | after a successful create, a second create with the same room and bot and a name equal up to case fails; an exactly equal name gets the hook's error naming the first row's id, a case variant gets the index error |
| BotData.AsWrittenMessageJoinsName | db/model/botData.js:105-106 | in the error message as the source builds it, the name is followed directly by the word "already", with no space |
| BotData.DuplicateMessageDelimitsName | db/model/botData.js:105-106 | the corrected message has a space on each side of the name and ends with the conflicting id |
| Table.BotDataTable.Create | db/model/botData.js:22-121 | create runs the pipeline on the instance and appends exactly its row on success; on failure the table is unchanged; the new row's id was unused; the invariant holds afterwards; the instance keeps its resolved `botId` |
| CaseFold.CaseVariantsExist | db/model/botData.js:119 | there are distinct names that fold to the same index key |

## Findings

| source | as written | input that shows it | evidently intended | confidence | as-written member | corrected member |
|---|---|---|---|---|---|---|
| db/model/botData.js:105-106 | `'... the name ' + name + 'already is in use ...'` has no space before "already" | name `temp`, id `7`: the message reads "Bot data with the name tempalready is in use in this room at ID 7" | a space between the name and "already" | high, not executed | BotData.DuplicateMessageAsWritten, shown by BotData.AsWrittenMessageJoinsName | BotData.DuplicateMessage, proved by BotData.DuplicateMessageDelimitsName; used by BotData.BeforeCreate |

## Left out

- BotData.BeforeCreate: the message in its error is the corrected text (`BotData.DuplicateMessage`, with a space before "already"), not the text the source builds (`BotData.DuplicateMessageAsWritten`); see "## Findings". The name and the conflicting id it carries are as in the source.
- The length of `name`: the column is `STRING` (VARCHAR(255)), so the store refuses a longer name. The model admits any name `nameRegex` accepts, so it assumes the pattern bounds the length.
- Null `roomId` or `botId`: the model types both as non-null strings. In SQL a NULL in a unique-index column makes two keys distinct; that case is not modelled.
- `looksLikeId` and the name pattern: their definitions are not part of this model. They are parameters of type `string -> bool`.
- UUID generation: the generated id is the `newId` parameter of `Create`. The primary key constraint refuses an id that is already taken, so freshness is proved, not assumed.
- `Bot.findOne` with several bots of the same name: the query returns one of them, and which one is unspecified. The model takes the first in table order.
- `lower`: the database's `lower` is locale-aware. The model folds only the ASCII letters `A`-`Z`.
- Which unique constraint fires first when a row breaks both the primary key and the name index is up to the database. The model checks the primary key first.
- The failure when no bot has the name is modelled as the typed error `BotNotFound`. The source raises it as an untyped runtime error, because it reads `id` from a null result.
- `classMethods.postImport` and `getBotDataAssociations` (lines 42-61): these only wire up associations. Line 52 assigns `assoc.room` a second time, so the Bot association overwrites the Room one. This is framework configuration with nothing to verify.
- The foreign-key constraints the associations add on `roomId` and `botId`: the Room table and the check that a bot id exists are not part of this model.
- The `value` field and the `writers` relation: no hook reads or writes them.
- Updates: beforeValidate also runs when a record is updated. Only create is modelled.
- Concurrency: two creates racing between the hook's check and the insert. Creates are modelled as atomic and sequential, so the index is the only guard that would hold under a race.
- tests/api/v1/generators/put.js: an HTTP test of another resource. It is not part of this model.
- Promise scheduling and the ORM's asynchronous error channels: failures are modelled as `Result` and `Outcome` values.
