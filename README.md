# StudyHub chat core in Dafny

StudyHub's backend lets authenticated users create study rooms, join and leave them, and chat
in them in real time. This project models its core in Dafny:

- the SignalR `ChatHub`: join, leave, send and history, with the SignalR group registry and an
  outbox of everything sent to clients;
- the room, chat and authentication services, and the seeding step run at startup;
- the three EF Core repositories;
- the `ChatDbContext` schema.

## How things are modelled

- **Database.** The database is one `Schema.ChatDbContext` object with four tables as
  sequences: users, rooms, memberships and the message log.
- **Schema invariants.** `ChatDbContext.Valid()` gathers the constraints `OnModelCreating` declares:
  - primary keys;
  - the unique indexes on user name and room slug;
  - the composite membership key;
  - the two membership foreign keys;
  - the column length limits.
- **What the columns store.** PostgreSQL stores a `varchar(n)` value as is when it fits. A longer
  value whose characters past the n-th are all spaces is cut to n characters, and any other longer
  value makes the insert fail (section 8.3 of the PostgreSQL documentation). `Schema.Varchar` states
  this rule. PostgreSQL timestamps keep whole microseconds, while a .NET `DateTime` counts 100 ns
  ticks (`Schema.StoredTime`). `StoredMessage`, `StoredUser` and `StoredRoom` give the row the
  database keeps for an entity. The tables hold those stored rows. The objects the code goes on
  using (the DTOs and the claims of a token) keep the values as they were built.
- **Repository writes.** Each write performs the check SaveChanges would make. A row the database
  would reject is not stored, and the call fails with `DbUpdate`. Every write keeps `Valid()`.
- **Queries.** Repository and service queries are functions over those sequences. LINQ's `FirstOrDefault`, `Where`,
  `Select`, `Take`, `SingleOrDefault` and a stable `OrderByDescending` are defined and
  specified in module `Linq` with their in-memory meaning. Where a query goes to PostgreSQL and
  the SQL meaning differs (a negative `LIMIT`), the repository function states the difference.
- **Exceptions.** A thrown exception is the error half of a `Result` or `Outcome`. Each .NET
  exception type is one constructor of `Exceptions.Exception`.
- **Framework services.** The core calls these framework services, which are given to the model
  as values:
  - `Guid.TryParse`/`Guid.Parse`, `Guid.ToString()`, `PasswordHasher.Hash`, `PasswordHasher.Verify`
    and `Roles.Admin` form the fields of `Entities.Platform`. Only where a lemma says so is it
    assumed that parsing reads back a formatted Guid (`FormatParsesBack`) or that Verify accepts
    a hashed password (`HashVerifies`).
  - `Guid.NewGuid()` is `Entities.NewGuid`, some id not in a given set.
  - `DateTime.UtcNow` is a `now` argument.
  - A transport failure (for example a Redis backplane timeout) is an argument (`Hubs.Transport`).
- **Room ids are strings in the hub.** The hub checks membership on the parsed Guid, but it keys
  the SignalR group and the stored message by the raw `roomId` string. Two spellings of one Guid
  therefore share a membership, but not a group or a history (`Hubs.SpellingsShareOnlyMembership`).

## Behaviours of the code the model keeps

- `JoinRoom` lets a failure of the join notice propagate to the caller, after the connection has
  already joined the group (StudyHub.Presentation/Hubs/ChatHub.cs:30-31).
- `JoinRoom` on a room that does not exist fails in `JoinAsync` with `KeyNotFoundException`
  "Room not Found" (StudyHub.Core/Services/RoomService.cs:33).
- `LeaveRoom` swallows only `TaskCanceledException`, for the group removal and for the notice alike,
  and rethrows every other exception (StudyHub.Presentation/Hubs/ChatHub.cs:41-54). It never removes
  the membership, since its call to `LeaveAsync` is commented out (ChatHub.cs:39).
- `SendMessage` checks neither that the content is non-empty nor its size
  (StudyHub.Presentation/Hubs/ChatHub.cs:58-70). Only the 2000-character column
  (StudyHub.Infrastructure/Data/ChatDbContext.cs:24) limits a message, when it is saved and so
  before any broadcast. It rejects a longer message unless everything past 2000 characters is
  spaces. A message padded that way is stored cut, but broadcast whole. The live copy and the
  history then differ in content, and in the timestamp unless the time is a whole microsecond
  (`Hubs.BroadcastInHistory`, `Hubs.PaddedContentStoredCut`). A failed broadcast propagates to the
  sender, with the message already stored (ChatHub.cs:68-69).
- A user name padded with spaces past 100 characters registers successfully under the cut name. The
  token carries the name as typed, and logging in with that name finds no user
  (`AuthService.Register`). The unique index compares stored names, so a second name with the same
  cut form is rejected with `DbUpdate`.
- A configured admin name padded that way is seeded under the cut name. The database is then not
  seeded for the configured name, and a second run fails on the unique index
  (`SeedData.EnsureSeeded`).
- History is ordered by timestamp alone, with no tie-break by id
  (StudyHub.Infrastructure/Repositories/ChatRepository.cs:27).
- The history query runs on PostgreSQL (StudyHub.Infrastructure/Config/DependencyInjection.cs:16),
  where `Take(count)` becomes `LIMIT count`. A negative `count`, which a client can pass to
  `GetHistory` (ChatHub.cs:74), makes the server reject the query, so the hub sends nothing and the
  call throws.

## Model

| member | source | states |
|---|---|---|
| Linq.FirstOrDefault | StudyHub.Infrastructure/Repositories/RoomRepository.cs:13-17 | the result is in the sequence and satisfies the predicate, and it is the first such element; None exactly when no element satisfies it |
| Linq.Where | StudyHub.Infrastructure/Repositories/ChatRepository.cs:26 | an element is kept exactly when it is in the input and satisfies the predicate; each matching element occurs as often as in the input and each other element not at all |
| Linq.Select | StudyHub.Core/Services/RoomService.cs:58 | same length, and each output is the image of the input at the same index |
| Linq.Take | StudyHub.Infrastructure/Repositories/ChatRepository.cs:28 | Enumerable.Take: a prefix of length min(count, length) for a non-negative count (the only counts the repository passes on to the database) and empty otherwise |
| Linq.SingleOrDefault | StudyHub.Infrastructure/Repositories/UserRepository.cs:18-22 | None exactly when nothing matches; a returned element matches; InvalidOperationException exactly when more than one element matches |
| Linq.WhereOfKeyUnique | StudyHub.Infrastructure/Repositories/UserRepository.cs:18-22 | under a key that is unique by index, at most one element matches |
| Linq.InsertDesc | StudyHub.Infrastructure/Repositories/ChatRepository.cs:27 | inserting into a newest-first sequence keeps it sorted, with one more occurrence of the element |
| Linq.OrderByDescending | StudyHub.Infrastructure/Repositories/ChatRepository.cs:27 | the output is sorted by key, largest first, and is a permutation of the input |
| Linq.OrderByDescendingOfSorted | StudyHub.Core/Services/ChatService.cs:37-38 | the stable sort leaves an already-sorted sequence exactly as it is |
| Linq.TakeOfSorted | StudyHub.Infrastructure/Repositories/ChatRepository.cs:27-28 | a prefix of a sorted sequence is sorted and a sub-multiset of it |
| Linq.TakeKeepsLargest | StudyHub.Infrastructure/Repositories/ChatRepository.cs:27-28 | each element left out by Take has a key no larger than the key of any element kept |
| Entities.FindFirst | StudyHub.Presentation/Hubs/ChatHub.cs:20 | the value found belongs to a claim of that type; None exactly when no claim has that type |
| Entities.FindFirstAt | StudyHub.Presentation/Hubs/ChatHub.cs:20 | the first claim of a type decides the value found |
| Entities.FindFirstIsFirst | StudyHub.Presentation/Hubs/ChatHub.cs:20 | for every claim that is the first of its type, FindFirst returns that claim's value |
| Entities.NewGuid | StudyHub.Core/Entities/Room.cs:5 | the new id is not among the ids already used |
| Entities.ToMessage | StudyHub.Core/Services/ChatService.cs:19-30 | the entity built from a DTO's five values maps back to that DTO |
| Schema.Varchar | StudyHub.Infrastructure/Data/ChatDbContext.cs:22-24 | a varchar(n) column takes a value exactly when it fits or only spaces follow the n-th character; a value that fits is kept whole; a kept value is a prefix of at most n characters, and only spaces were cut |
| Schema.VarcharStable | StudyHub.Infrastructure/Data/ChatDbContext.cs:22-24 | a stored value is stored again unchanged |
| Schema.StoredTime | StudyHub.Core/Entities/ChatMessage.cs:13 | the stored timestamp is the tick count rounded down to a whole microsecond |
| Schema.StoredMessage | StudyHub.Infrastructure/Data/ChatDbContext.cs:19-27 | a row exists exactly when the three columns take the values; it fits the columns, keeps the id, holds each string as its column stores it and the timestamp cut to microseconds; a message that fits is stored whole up to the timestamp |
| Schema.StoredUser | StudyHub.Infrastructure/Data/ChatDbContext.cs:29-36 | a row exists exactly when name and role columns take the values; it fits, keeps id and hash, holds the name and the role as their columns store them; a user who fits is stored unchanged |
| Schema.StoredRoom | StudyHub.Infrastructure/Data/ChatDbContext.cs:38-44 | a row exists exactly when slug and title columns take the values; it fits, keeps id and owner, holds the slug and the title as their columns store them; a room that fits is stored unchanged |
| Schema.InsertMessageValid | StudyHub.Infrastructure/Data/ChatDbContext.cs:19-27 | SaveChanges accepts the message exactly when its columns take the values and its id is new, and then the table with the stored row appended is valid; a valid table stays valid only for such a message |
| Schema.InsertUserValid | StudyHub.Infrastructure/Data/ChatDbContext.cs:29-36 | SaveChanges accepts the user exactly when the name and role columns take the values, the id is new and the name as stored is not taken; exactly then the table with the stored row appended is valid |
| Schema.InsertRoomValid | StudyHub.Infrastructure/Data/ChatDbContext.cs:38-44 | SaveChanges accepts the room exactly when the slug and title columns take the values, the id is new and the slug as stored is not taken; exactly then the table with the stored row appended is valid |
| Schema.InsertMemberValid | StudyHub.Infrastructure/Data/ChatDbContext.cs:46-51 | appending keeps memberships valid exactly when the pair is new and its room and user exist |
| Schema.MembersValidGrow | StudyHub.Infrastructure/Data/ChatDbContext.cs:49-50 | adding rooms or users never breaks a membership's foreign keys |
| Schema.ChatDbContext.constructor | StudyHub.Infrastructure/Data/ChatDbContext.cs:6-15 | a new database has empty tables and satisfies every constraint |
| RoomRepository.GetById | StudyHub.Infrastructure/Repositories/RoomRepository.cs:13-14 | a room found is stored and has that id; None exactly when no room has it |
| RoomRepository.GetBySlug | StudyHub.Infrastructure/Repositories/RoomRepository.cs:16-17 | a room found is stored and has that slug; None exactly when no room has it |
| RoomRepository.GetByIdFindsStored | StudyHub.Infrastructure/Repositories/RoomRepository.cs:13-14 | on a table with unique ids the lookup returns exactly the stored room |
| RoomRepository.GetBySlugFindsStored | StudyHub.Infrastructure/Repositories/RoomRepository.cs:16-17 | on a table with unique slugs the lookup returns exactly the stored room |
| RoomRepository.Add | StudyHub.Infrastructure/Repositories/RoomRepository.cs:19-23 | the room's stored row (slug and title cut only of trailing spaces) is appended exactly when SaveChanges accepts it, else DbUpdate; the other rooms and every other table are unchanged |
| RoomRepository.IsMember | StudyHub.Infrastructure/Repositories/RoomRepository.cs:25-26 | true exactly when the (room, user) record exists |
| RoomRepository.AddMember | StudyHub.Infrastructure/Repositories/RoomRepository.cs:28-32 | the pair is appended exactly when it is new and its room and user exist; a duplicate pair fails, so the call alone is not idempotent |
| RoomRepository.RemoveMember | StudyHub.Infrastructure/Repositories/RoomRepository.cs:34-43 | afterwards the pair is absent and every other pair is unchanged; a no-op when the pair is absent, one record fewer when it is present |
| RoomRepository.RemovedOnce | StudyHub.Infrastructure/Repositories/RoomRepository.cs:40 | deleting a record that occurs once drops exactly that one record |
| RoomRepository.NoneRemoved | StudyHub.Infrastructure/Repositories/RoomRepository.cs:38 | filtering out an absent record leaves the table as it was |
| RoomRepository.GetRoomsForUser | StudyHub.Infrastructure/Repositories/RoomRepository.cs:45-51 | a room is returned exactly when it is stored and the user has a membership in it |
| ChatRepository.AddMessage | StudyHub.Infrastructure/Repositories/ChatRepository.cs:17-21 | the message's stored row (columns cut only of trailing spaces, the timestamp to whole microseconds) is appended exactly when SaveChanges accepts it, else DbUpdate; earlier messages are untouched |
| ChatRepository.GetRecentMessages | StudyHub.Infrastructure/Repositories/ChatRepository.cs:23-30 | a negative count is refused by PostgreSQL's LIMIT (SQLSTATE 2201W), and only a negative count fails; otherwise only the room's messages (raw string match), min(count, number in the room) of them, newest first, none newer left out, and all of them when the count covers the room |
| ChatRepository.RecentInRoom | StudyHub.Infrastructure/Repositories/ChatRepository.cs:26-28 | the ordered prefix is sorted and drawn from the room's messages, and is all of them when the count covers the room |
| ChatRepository.RecentIsNewest | StudyHub.Infrastructure/Repositories/ChatRepository.cs:27-28 | every message of the room the query leaves out is no newer than every message it returns |
| UserRepository.NameMatchesAtMostOne | StudyHub.Infrastructure/Data/ChatDbContext.cs:35 | under the unique name index, at most one user has a given name |
| UserRepository.IdMatchesAtMostOne | StudyHub.Infrastructure/Data/ChatDbContext.cs:31 | under the primary key, at most one user has a given id |
| UserRepository.GetByUsername | StudyHub.Infrastructure/Repositories/UserRepository.cs:18-19 | on a table with unique keys the lookup does not throw; a user found is stored with that name; null exactly when no user has it |
| UserRepository.GetById | StudyHub.Infrastructure/Repositories/UserRepository.cs:21-22 | on a table with unique keys the lookup does not throw; a user found is stored with that id; null exactly when no user has it |
| UserRepository.GetByUsernameFindsStored | StudyHub.Infrastructure/Repositories/UserRepository.cs:18-19 | on a valid table, looking up a stored user's name returns that user |
| UserRepository.GetByIdFindsStored | StudyHub.Infrastructure/Repositories/UserRepository.cs:21-22 | on a valid table, looking up a stored user's id returns that user |
| UserRepository.Add | StudyHub.Infrastructure/Repositories/UserRepository.cs:24-28 | the user's stored row is appended exactly when SaveChanges accepts it, else DbUpdate; after a success both lookups, by the name as stored and by the id, find that row |
| RoomService.CreateRoom | StudyHub.Core/Services/RoomService.cs:19-29 | a slug in use throws "Slug already in use" and adds nothing; every other failure is DbUpdate; success exactly when the slug is free, the table accepts the slug and title (as stored) and the owner exists; success appends the stored row of one room with a fresh id, the slug, the title and the owner, and the owner's membership, and the DTO carries the values as given; when only the owner is missing the room stays stored without a membership |
| RoomService.Join | StudyHub.Core/Services/RoomService.cs:31-37 | a missing room throws "Room not Found" and changes nothing; an existing member changes nothing; after a success the pair is a member; at most the one pair is added; a non-member who is not a stored user throws DbUpdate |
| RoomService.Leave | StudyHub.Core/Services/RoomService.cs:39 | the caller's pair is absent afterwards and every other pair is unchanged; a no-op when absent |
| RoomService.IsMember | StudyHub.Core/Services/RoomService.cs:41 | true exactly when the membership record exists |
| RoomService.IsOwnerOrAdmin | StudyHub.Core/Services/RoomService.cs:43-52 | false for a missing room; true for the owner; true only for an existing room whose owner or an admin user is the caller; does not throw on a valid user table |
| RoomService.IsOwnerOrAdminMeaning | StudyHub.Core/Services/RoomService.cs:43-52 | on valid tables: the room exists and the user owns it or is a stored user whose role is Roles.Admin |
| RoomService.GetRoomsForUser | StudyHub.Core/Services/RoomService.cs:54-59 | the DTOs are exactly those of the rooms the user is a member of |
| ChatService.SendMessage | StudyHub.Core/Services/ChatService.cs:17-31 | success exactly when the columns take room id, user id and content; then the stored row of one message with a fresh id and `now` is appended, and the DTO carries the five values as built; otherwise DbUpdate and nothing stored |
| ChatService.GetHistory | StudyHub.Core/Services/ChatService.cs:33-41 | `count` defaults to 50; fails exactly when the repository query fails (a negative count), with its exception; otherwise equals the repository's recent list mapped to DTOs; at most `count` entries, all of the room and all stored; newest first |
| ChatService.SelectKeepsOrder | StudyHub.Core/Services/ChatService.cs:39 | mapping to DTOs keeps the newest-first order |
| ChatService.HistoryHoldsRoom | StudyHub.Core/Services/ChatService.cs:33-41 | with a count covering the room, every stored message of the room appears in the history |
| AuthService.GenerateJwtToken | StudyHub.Core/Services/AuthService.cs:65-78 | `sub` and NameIdentifier carry the formatted user id, `unique_name`, `name` and ClaimTypes.Name carry the user name, `role` carries the role; no claim carries anything else |
| AuthService.Login | StudyHub.Core/Services/AuthService.cs:24-38 | null for an unknown user name; a response only for a stored user with that name whose hash Verify accepts, carrying that user's claims and the refresh token |
| AuthService.LoginOfStoredUser | StudyHub.Core/Services/AuthService.cs:26-36 | for a stored user, login succeeds exactly when Verify accepts the password, and then returns that user's token; otherwise null |
| AuthService.LoginAfterStore | StudyHub.Core/Services/AuthService.cs:24-58 | once a registered user's row is stored, logging in under the name as given succeeds with that user's token when the name needed no cutting, finds nobody when it was cut, and logging in under the stored name succeeds |
| AuthService.TokenClaimsFound | StudyHub.Core/Services/AuthService.cs:65-78 | each claim type of the token is found with its own value |
| AuthService.Register | StudyHub.Core/Services/AuthService.cs:40-58 | a taken name throws "Username taken" and adds nothing; every other failure is DbUpdate; success exactly when the name is free and the table accepts it as stored; success appends the stored row of one user with a fresh id, the name, Hash(password) and role "student", and returns that user's token; logging in with the same credentials then gives the same response when the name fits 100 characters and finds nobody when it was cut, and logging in under the stored name succeeds |
| SeedData.EnsureAdmin | StudyHub.Infrastructure/Data/SeedData.cs:21-33 | an existing user with the admin name is returned and nothing changes; else one user with a fresh id, the name, Hash(password) and Roles.Admin is built and its stored row appended; DbUpdate exactly when the name is free and the table refuses it as stored; a user returned has that name and its id is stored |
| SeedData.EnsureSampleRoom | StudyHub.Infrastructure/Data/SeedData.cs:35-41 | on an empty rooms table, adds the room "math101" / "Math 101" owned by the admin and the admin's membership; otherwise nothing changes |
| SeedData.EnsureSeeded | StudyHub.Infrastructure/Data/SeedData.cs:12-42 | the defaults "admin" and "admin123!" apply; the admin is created only if absent, stored as its columns keep it, and the sample room is added only if there are no rooms; fails with DbUpdate exactly when the admin save does; after a success a stored admin row carries the name as stored and owns the new room, and the database is seeded for the configured name exactly when that name fits 100 characters; a seeded database is left unchanged, so a second run adds nothing |
| Hubs.Joined | StudyHub.Presentation/Hubs/ChatHub.cs:30 | the connection is added to that group and every other group is unchanged |
| Hubs.Left | StudyHub.Presentation/Hubs/ChatHub.cs:43 | the connection is removed from that group and every other group is unchanged |
| Hubs.JoinedTwice | StudyHub.Presentation/Hubs/ChatHub.cs:30 | adding a connection to a group twice is the same as adding it once |
| Hubs.LeftAfterJoined | StudyHub.Presentation/Hubs/ChatHub.cs:30-43 | leaving after joining takes the connection out of the group and keeps the other connections |
| Hubs.GroupManager.constructor | StudyHub.Presentation/Hubs/ChatHub.cs:9 | the SignalR group registry a Hub starts from has no groups and has sent nothing |
| Hubs.GroupManager.AddToGroup | StudyHub.Presentation/Hubs/ChatHub.cs:30 | adds the connection to the group, or throws the transport fault and changes nothing |
| Hubs.GroupManager.RemoveFromGroup | StudyHub.Presentation/Hubs/ChatHub.cs:43 | removes the connection from the group, or throws the transport fault and changes nothing |
| Hubs.GroupManager.SendToGroup | StudyHub.Presentation/Hubs/ChatHub.cs:31 | records one send reaching the group's current connections, or throws and records nothing |
| Hubs.GroupManager.SendToCaller | StudyHub.Presentation/Hubs/ChatHub.cs:77 | records one send reaching only the calling connection, or throws and records nothing |
| Hubs.CurrentUserId | StudyHub.Presentation/Hubs/ChatHub.cs:20 | NullReference exactly when there is no NameIdentifier claim; an id returned is what a NameIdentifier claim parses to; whenever a first NameIdentifier claim exists, the result is Ok of its parse, or Format when it does not parse |
| Hubs.TokenIdentifiesUser | StudyHub.Core/Services/AuthService.cs:65-78 | when Guid.Parse reads back Guid.ToString(), the claims of a user's token identify that user |
| Hubs.BroadcastInHistory | StudyHub.Presentation/Hubs/ChatHub.cs:68-77 | a message broadcast live is in the history of the room it was stored under, once the count covers the room, as the stored row: the same id, room id, user id and content cut only of trailing spaces, the timestamp cut to whole microseconds; when nothing needed cutting it equals the broadcast DTO up to the timestamp |
| Hubs.NoticePersisted | StudyHub.Presentation/Hubs/ChatHub.cs:31 | a send that carries no chat message keeps every broadcast message stored |
| Hubs.NothingSentPersisted | StudyHub.Presentation/Hubs/ChatHub.cs:9 | a registry that has sent nothing has broadcast only stored messages |
| Hubs.PaddedContentStoredCut | StudyHub.Presentation/Hubs/ChatHub.cs:68-69 | a message padded with spaces past 2000 characters is stored with its first 2000 characters, so the history entry differs from the broadcast DTO |
| Hubs.IdentityName | StudyHub.Presentation/Hubs/ChatHub.cs:31 | `Context.User.Identity.Name` as interpolated in the join notice (and in the leave notice, line 44): the value of a ClaimTypes.Name claim when there is one, the empty string when there is none |
| Hubs.TokenNamesUser | StudyHub.Core/Services/AuthService.cs:65-78 | on an issued token the join and leave notices name the token's user |
| Hubs.BroadcastPersisted | StudyHub.Presentation/Hubs/ChatHub.cs:68-69 | broadcasting a message right after storing its row keeps every broadcast message stored |
| Hubs.LogGrowthPersisted | StudyHub.Presentation/Hubs/ChatHub.cs:68 | appending to the log keeps every broadcast message stored |
| Hubs.SpellingsShareOnlyMembership | StudyHub.Presentation/Hubs/ChatHub.cs:24-31 | two spellings of one Guid give the same membership answer, but joining one group leaves the other unchanged and their histories share no message |
| Hubs.ChatHub.constructor | StudyHub.Presentation/Hubs/ChatHub.cs:14-18 | the hub uses the given database, groups, caller and platform services; on a valid database whose registry has broadcast only stored messages, the hub starts valid |
| Hubs.ChatHub.JoinRoom | StudyHub.Presentation/Hubs/ChatHub.cs:22-32 | a bad id throws "Invalid Room" and an unidentifiable caller throws, both before any change; a missing room for a non-member throws "Room not Found" with nothing changed; a non-member who is not a stored user throws DbUpdate with nothing changed; an existing member keeps exactly its membership; once the membership holds, a group fault throws with the groups unchanged, and a notice fault throws with the connection already in the group; a success leaves the pair a member, adds the connection to the raw-string group and tells the group "<name> joined <roomId>" |
| Hubs.ChatHub.LeaveRoom | StudyHub.Presentation/Hubs/ChatHub.cs:34-56 | no table changes; a bad id throws "Invalid RoomId"; the connection leaves the group and the rest of the group is told "<name> left <roomId>"; a TaskCanceled fault is swallowed and any other fault rethrown |
| Hubs.ChatHub.SendMessage | StudyHub.Presentation/Hubs/ChatHub.cs:58-70 | a bad id or unidentifiable caller throws first; a non-member gets "Not a room member" with nothing stored or sent; a member's message that the columns refuse throws DbUpdate before any broadcast; otherwise its stored row (raw room id, the caller's id) is appended, and only then the DTO as built is broadcast to the raw-string group; a send fault throws after the store; every broadcast message is stored |
| Hubs.ChatHub.GetHistory | StudyHub.Presentation/Hubs/ChatHub.cs:74-78 | `count` defaults to 50; no id or membership check; no table or group changes; a negative count throws the database's error and sends nothing; otherwise sends the room's history to the caller's connection only, or throws the send fault |

## Left out

- Program.cs is left out: host wiring, JWT bearer validation, CORS, Swagger, health checks and the
  Redis backplane. These are transport and configuration. Groups are one in-process map and sends
  are an outbox.
- Connection lifecycle and disconnect cleanup are left out. The hub defines no disconnect handler,
  and SignalR drops a closed connection's groups itself.
- Concurrency and async scheduling are left out. Each call runs to completion on one consistent
  state. The backplane's distribution across processes is not modelled.
- PBKDF2, the random salt, Base64 and fixed-time comparison in PasswordHasher are left out. Hash and
  Verify are uninterpreted functions.
- JWT signing, encoding, issuer, audience and the two-hour expiry are left out. A token is the list
  of claims it carries.
- The inbound claim-type mapping of the JWT handler is left out. Context.User is taken to carry the
  claims as issued.
- `Guid.TryParse`/`Guid.Parse` format rules are left out, as is the real randomness of
  `Guid.NewGuid`. They are an oracle and a fresh-id choice.
- `DateTime` kinds and time zones are left out. A timestamp is a count of 100 ns ticks, and the
  database keeps it to whole microseconds.
- Npgsql is taken to send every string whole, as PostgreSQL text. Character encodings, and the
  characters PostgreSQL cannot store (NUL), are left out.
- The HTTP controllers and logging are left out. They only delegate to the services or write to
  the console.
- EF Core migrations are left out.
- The `Room.Members` navigation list is not modelled. Memberships live in their own table.
- The index on (RoomId, TimeStamp) in the message table affects speed only, and is left out.
- The database's order among messages with equal timestamps is left out. The model keeps table
  order, which is one of the orders the database may return.
- After a failed SaveChanges, EF keeps the rejected entity tracked, and a later save on the same
  context would try it again. The model drops the rejected row. Each request uses a fresh scope.
- `IsRequired()` (non-null) columns are not modelled. Strings in the model are never null.
- The message timestamp, the password hash and the refresh token are not checked against null or
  empty values. The source does not check them either.
