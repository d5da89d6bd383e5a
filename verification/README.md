# Verification of the authentication core

A Dafny model of the repository's authentication core: the C stores behind the HAL (credential database, executor pool,
schedules, edit session, authentication contexts), the two codecs of the attribute wire format, and the service that
collects the executors' reports for a schedule. `dafny verify dfyconfig.toml` checks all of it.

## How it is built

Code that changes things in place is modelled by classes and loops: the linked list on its heap nodes, the record list
behind its dummy head, the growing write buffer, the user list with its one-entry cache, the executor pool, the schedule
list, the session, the contexts, the attribute object with its typed maps, the schedule pool of the service. Each method
is proved equal to a function of the values before the call (`DatabaseSpec`, `CoAuth`, `ContextSpec`, `UserIdmSpec`,
`ServiceSpec`, `AttributeValues` and `AttributeCodec`), and the main results are lemmas about those functions over all
inputs or all runs:

- **Lists** (`Base`, `LinkedList`): the heap list stands for a sequence, insertion is in front, removal takes the first
  match.
- **Database and file** (`IdmCommon`, `FileManager`, `FileLoader`, `DatabaseSpec`, `Database`, `DatabaseRuns`),
  with `UserDeletion` and `DatabaseIndex` on the same runs and `FileBound` on the size of the file.
- **Wire format** (`Tlv`, `ExecutorMessage` on the C side; `AttributeValues`, `AttributeCodec`, `AttributeObject` on the
  C++ side; `CodecAgreement` between them).
- **Executors and trust** (`Pool`, `AuthLevel`).
- **Schedules, session, contexts, enrolment** (`CoAuth`, `CoAuthFuncs`, `IdmSession`, `ContextSpec`, `Contexts`,
  `UserIdmSpec`, `UserIdm`), put together as one state machine over HAL calls in `HalState`, with its invariants in
  `HalCalls`, `HalCache`, `HalSchedules`, `HalContexts`, `HalProvenance`, `HalSession` and `TokenReuse`. `Traces` is
  about the states of a run in general, and `SampleRuns` holds runs from the start that reach the failures.
- **Service** (`ServiceSpec`, `Service`): the countdown of reports for a schedule.

Inputs stand for what the code cannot know: random numbers (`Draws`, a list of results of the generator), the clock
(`now`), allocation and file outcomes (booleans and `WriteOutcome`), the MAC and Ed25519 (function parameters), values
read from uninitialised variables (`stray`, `out`).

## What the proofs found

- A save succeeds only while the encoding fits 2048 bytes: the buffer is asked to hold the record, not what it already
  holds plus the record, so it never grows (`FileManager.StreamWrite`, `FileManager.UpdateFileInfo`). That is 26
  enrolled users, of up to 1000 in the list (`FileBound.SavedUsersBound`, `FileBound.PinUsersSaved`).
- A write that is cut short leaves a proper prefix of the encoding, and no proper prefix loads
  (`FileLoader.TornFileNeverLoads`); the loader refuses a file of a run only then (`DatabaseRuns.ReloadAfterRun`).
- A user whose last credential was deleted cannot be deleted any more, because zero bytes cannot be allocated
  (`UserDeletion.DeleteUserInfoIff`). The user stays over every run that adds no credential for it
  (`UserDeletion.EmptiedUserStays`); `UserDeletion.EmptiedUser` is a run to such a user.
- The cache survives destroying and loading the user list; it is transparent exactly while it is empty or holds a user of
  the list (`Database.IdmDatabase.CacheTransparentIff`): over a run, exactly when no Init or Close follows a lookup that
  found its user without a new start or a deletion in between (`HalCache.CacheTransparentIff`; a run in
  `SampleRuns.StaleRun`).
- The enrolled entries index the credentials exactly until an addition fails between updating the entry and inserting the
  credential of a type the user has none of: over a run, if and only if (`DatabaseIndex.AddExactIff`,
  `DatabaseIndex.ExactRunIff`); `DatabaseIndex.BrokenIndex` is a run that breaks it.
- Unpacking drops empty byte arrays; the round trip is the identity exactly when there is none
  (`AttributeCodec.RoundTripIff`, `AttributeCodec.EmptyArrayLost`).
- The C++ type table has no entry for AUTH_CAPABILITY_LEVEL, which the C decoder demands, so no packed attribute object
  is accepted as an executor message, unless the decoder runs out of memory (`CodecAgreement.PackedNeverDecodes`).
- When the list for the records of the verified data cannot be created, the decoder reports success with every field
  zero. So the claims of a signed token are those of the verified bytes exactly when it can be created or they are zeros
  (`CoAuth.SignedClaimsIff`); `CoAuth.ZeroClaims` is a failure report that is signed as a success.
- ScheduleFinish reports success without a signature, and without checking one, exactly when a live schedule without a
  verifier (or without memory for its key) gets a success report (`CoAuth.FinishUnsignedIff`; an input in
  `CoAuth.UnsignedFinish`).
- A failed registration has already removed the executor of the same kind: it changes nothing exactly when the kind was
  new (`AuthLevel.RegisterOk`; a run in `SampleRuns.LostExecutor`).
- An enrolment without a session, and a solution whose context cannot be entered, leave behind a schedule that nothing
  refers to: exactly when, in `UserIdmSpec.OrphanEnrolmentIff` and `ContextSpec.OrphanScheduleIff`; inputs in
  `UserIdmSpec.OrphanEnrolment` and `ContextSpec.OrphanSchedule`.
- The file is not written when a credential goes whose type the user has another credential of: it is back after a new
  start, and only then (`UserDeletion.DeletedReturnsIff`; a run in `SampleRuns.ReturnedFace`).
- A last report of a failure, and the death of the client, leave the schedule live in the HAL
  (`ServiceSpec.EndedInHalIff`, `ServiceSpec.LeftInHal`).
- An update that fails after its deletion loses the PIN: exactly when, in `UserIdmSpec.PinLostIff`; a run in
  `SampleRuns.LostPin`.
- Adding a credential uses up neither the token nor the session: another token than one for a PIN adds again while it is
  in time and there is room (`TokenReuse.TokenReusedIff`; a run in `SampleRuns.ReusedFaceToken`). PIN tokens add at most
  one PIN unless one is lost (`TokenReuse.PinsAddedAfterLost`, `TokenReuse.PinAddedOnce`).
- A schedule delivers more than once exactly when a start fails and the schedule was concluded before the starts ended
  (`ServiceSpec.AtMostOnceIff`), which, when each started executor reports once, is a timer that fires during the starts
  (`ServiceSpec.AtMostOnceUnlessEarlyTimeOut`, `ServiceSpec.EarlyTimeOutDeliversTwice`). An executor without a callback
  leaves the schedule to the timer (`ServiceSpec.TooFewReportsWait`).

## Model

| member | source | states |
|---|---|---|
| Base.GenerateDeduplicateUint64 | common/database/src/idm_database.c:375-396 | the first of up to 100 random numbers outside the taken set, unless the generator fails before it |
| Base.FirstFreshFails | common/database/src/idm_database.c:375-396 | generation fails exactly when all draws up to a failed one, or up to the hundredth, are taken |
| LinkedLists.LinkedList.Insert | common/common/src/linked_list.c:23-43 | the new element comes in front of the old contents; a full counter or a failed allocation changes nothing |
| LinkedLists.LinkedList.Remove | common/common/src/linked_list.c:45-81 | exactly the first matching element goes; the size stays the length of the chain |
| LinkedLists.LinkedListIterator.Next | common/common/src/linked_list.c:101-110 | returns the elements in order, one a call, and then nothing |
| FileManager.DoubledIsLeast | common/database/src/idm_file_manager.c:42-70 | the new capacity is size times the least power of two that reaches the target |
| FileManager.CapacityExpansion | common/database/src/idm_file_manager.c:42-70 | terminates; on success the capacity is that size, at most 512000, and the content is kept; otherwise nothing changes |
| FileManager.StreamWrite | common/database/src/idm_file_manager.c:72-91 | appends exactly the bytes or changes nothing, and never exceeds the capacity; when it succeeds, given the size it asks for |
| FileManager.FileBytesLength | common/database/src/idm_file_manager.c:120-234 | the length of an encoded user list: 8 bytes, 20 a user, 40 a credential, 16 an enrolled entry |
| FileManager.FileLayout | common/database/src/idm_file_manager.c:177-234 | version, number of users, users, in little-endian words |
| FileManager.UserLayout | common/database/src/idm_file_manager.c:93-175 | id, secure uid, counted credentials, counted enrolled entries |
| IdmCommon.CredentialLayout | common/database/src/idm_file_manager.c:93-118 | the offsets of the fields of a stored credential |
| FileManager.StreamWriteUserInfo | common/database/src/idm_file_manager.c:147-175 | writes the encoding of the user, or fails because it does not fit |
| FileManager.UpdateFileInfo | common/database/src/idm_file_manager.c:177-234 | saves the encoding of the list exactly when it fits 2048 bytes and memory and file allow it; a torn write leaves a prefix |
| FileManager.SavesIff | common/database/src/idm_file_manager.c:177-234 | a save succeeds exactly when the encoding fits 2048 bytes, memory is there and the whole of it is written |
| FileBound.SavedUsersBound | common/database/src/idm_file_manager.c:177-234 | no list of more than 26 users with a credential and an enrolled entry each can be saved, though the list takes 1000 |
| FileBound.PinUsersSaved | common/database/src/idm_file_manager.c:177-234 | well-formed lists of any number of users with one PIN each, which can be saved exactly up to 26 |
| FileLoader.StreamReadList | common/database/src/idm_file_manager.c:250-314 | reads a counted list within its cap, which comes out reversed, or fails |
| FileLoader.StreamReadUserInfo | common/database/src/idm_file_manager.c:316-339 | reads what the user parser reads, field by field |
| FileLoader.LoadFileInfo | common/database/src/idm_file_manager.c:341-439 | loads what the file parser parses, an empty list when there is no file |
| FileLoader.ReadUserBack | common/database/src/idm_file_manager.c:316-339 | reading back a written user within the caps gives it with both lists reversed |
| FileLoader.ReadFileBack | common/database/src/idm_file_manager.c:368-405 | a written list reads back, as its deep reversal, exactly when it is within the loader's caps |
| FileLoader.LoadOfSaved | common/database/src/idm_file_manager.c:407-439 | after a successful save the loader returns the deep reversal of what was saved |
| FileLoader.TwoCyclesRestore | common/database/src/idm_file_manager.c:177-439 | two successful cycles of saving and loading give back the list |
| FileLoader.ProperPrefixFails | common/database/src/idm_file_manager.c:236-248 | no proper prefix of a file that parses completely parses |
| FileLoader.TornFileNeverLoads | common/database/src/idm_file_manager.c:368-439 | a file cut short anywhere is refused |
| FileLoader.LoadIgnores | common/database/src/idm_file_manager.c:368-439 | the version, and what follows the last user, do not matter to the loader |
| Database.IdmDatabase.CacheTransparentIff | common/database/src/idm_database.c:197-222 | looking a user up through the cache equals a walk through the list for all ids exactly when the cache is empty or holds a user of the list |
| Database.IdmDatabase.InitUserInfoList | common/database/src/idm_database.c:46-59 | the list becomes what the file loads as; the cache is left alone |
| Database.IdmDatabase.DestroyUserInfoList | common/database/src/idm_database.c:61-65 | the list goes, the cache stays; the state is consistent afterwards exactly when the cache was empty |
| Database.IdmDatabase.QueryUserInfo | common/database/src/idm_database.c:197-222 | finds the first user with the id, as a walk would, and caches it |
| Database.IdmDatabase.GetSecureUid | common/database/src/idm_database.c:98-111 | the secure uid of the user, or not found; like every lookup it caches the user it finds |
| Database.IdmDatabase.GetEnrolledInfoAuthType | common/database/src/idm_database.c:113-140 | the first enrolled entry of the type |
| Database.IdmDatabase.GetEnrolledInfo | common/database/src/idm_database.c:142-154 | all enrolled entries of the user; fails for a user without any |
| Database.IdmDatabase.QueryCredentialInfoAll | common/database/src/idm_database.c:183-195 | all credentials of the user; fails for a user without any |
| Database.IdmDatabase.QueryCredentialInfo | common/database/src/idm_database.c:666-688 | the first credential of the type, else the caller's buffer unchanged |
| Database.IdmDatabase.UpdateEnrolledId | common/database/src/idm_database.c:398-433 | refreshes the id of the type's entry or adds an entry; a failure leaves the list |
| Database.IdmDatabase.AddCredentialToUser | common/database/src/idm_database.c:435-472 | index first, then the credential, with the order of failures of the source |
| Database.IdmDatabase.AddUser | common/database/src/idm_database.c:474-513 | refuses a full list and a known id; otherwise adds a user with a fresh secure uid and its credential, or nothing |
| Database.IdmDatabase.AddCredentialInfo | common/database/src/idm_database.c:515-555 | the whole new state, file and result; for a new user the result is that of the save |
| Database.IdmDatabase.DeleteCredentialInfo | common/database/src/idm_database.c:583-628 | removes the first credential with the id, the enrolled entry with the last of its type, and writes the file only then |
| Database.IdmDatabase.DeleteUserInfo | common/database/src/idm_database.c:156-181 | hands back the credentials, empties the cache, removes the user and saves; when and what, says UserDeletion.DeleteUserMeans |
| DatabaseSpec.EnrolledUpdated | common/database/src/idm_database.c:398-433 | an update keeps the types of the entries distinct and adds at most the requested one |
| DatabaseSpec.EnrolledIdFresh | common/database/src/idm_database.c:398-433 | the entry of the type gets an id no entry had, its own included; the other entries stay |
| DatabaseSpec.AddToUserOk | common/database/src/idm_database.c:435-472 | adding to a well-formed user keeps it well formed; on success the credential, with a new id, is in front |
| DatabaseRuns.AddCredentialInfoOk | common/database/src/idm_database.c:515-555 | adding keeps the list well formed, whatever fails |
| DatabaseRuns.AddMeans | common/database/src/idm_database.c:515-555 | for a known user, success means exactly the credential with a new id was added, its type is enrolled, and the file holds the list; a second PIN changes nothing |
| DatabaseRuns.AddMeansForNew | common/database/src/idm_database.c:474-531 | for an unknown user only a PIN is taken; success means the file was written, with the new user or, when adding failed, without |
| TokenReuse.AddSucceedsIff | common/database/src/idm_database.c:515-555 | for a known user adding succeeds exactly with room, memory, numbers and a list that can be saved |
| TokenReuse.NewUserIff | common/database/src/idm_database.c:474-531 | an unknown user comes into the list exactly with a PIN, below 1000 users, and with memory and numbers; the call succeeds exactly if the list, with the user or without, can be saved |
| DatabaseRuns.DeleteMeans | common/database/src/idm_database.c:583-628 | exactly the credential of the id goes and is handed back; the enrolled entry goes with the last of its type, and only then the file is written |
| DatabaseRuns.DeletedUsers | common/database/src/idm_database.c:583-628 | the enrolled entry of a deleted credential is never missed |
| UserDeletion.DeleteUserInfoIff | common/database/src/idm_database.c:156-181 | a user goes exactly when it exists, still has a credential and memory allows it |
| UserDeletion.DeleteUserMeans | common/database/src/idm_database.c:156-181 | success exactly for a user with a credential, with memory, when the list without the user can be saved; then its credentials are handed back, only it is gone, and the file holds the others |
| UserDeletion.DeletedForGood | common/database/src/idm_database.c:156-181 | after success a new start does not find the user |
| UserDeletion.DeletedReturnsIff | common/database/src/idm_database.c:583-628 | with the file up to date, a credential deleted with success is back after a new start if and only if the user has another of its type |
| SampleRuns.ReturnedFace | common/database/src/idm_database.c:583-628 | a run in which a deleted face is back after a new start |
| UserDeletion.EmptiedUserStays | common/database/src/idm_database.c:156-181 | over every run that adds no credential for a user without one, the user stays, without credentials, also across new starts |
| UserDeletion.LastDeletionEmpties | common/database/src/idm_database.c:583-628 | successfully deleting the last credential of a user puts the user into that state, in memory and in the file |
| UserDeletion.EmptiedUser | common/database/src/idm_database.c:156-628 | a run to that state: the first PIN of a user, then its deletion |
| DatabaseRuns.SavesOnly | common/database/src/idm_file_manager.c:177-234 | the file changes only by saving the list the call ends with |
| DatabaseRuns.StepOk | common/database/src/idm_database.c:156-628 | every call keeps: unique user ids and secure uids, unique credential ids, one PIN, one entry a type with an id of its own, and the limits 1000, 5 and 3 |
| DatabaseRuns.RunOk | common/database/src/idm_database.c:375-628 | ... over every run, and the file holds a prefix of the encoding of such a list |
| DatabaseRuns.ReloadAfterRun | common/database/src/idm_file_manager.c:262-386 | after any run from empty, the loader refuses the file only when the last write was cut short, never for its counts |
| DatabaseIndex.AddExactIff | common/database/src/idm_database.c:398-472 | from exact entries, they stay exactly the types of the credentials if and only if the call stops before them, the type is in already, or nothing after them fails |
| DatabaseIndex.DeleteKeepsExact | common/database/src/idm_database.c:583-628 | deleting keeps exact entries exact |
| DatabaseIndex.StepExactIff | common/database/src/idm_database.c:156-628 | one call keeps the entries of all users exact if and only if it is no addition that stops in between |
| DatabaseIndex.ExactRunIff | common/database/src/idm_database.c:156-628 | the entries are exact in every state of a run, in memory and in the file, if and only if every step is of that kind |
| DatabaseIndex.BrokenIndex | common/database/src/idm_database.c:447-471 | a run that breaks them: a PIN, then a face for which no memory is left once its entry is made |
| DatabaseIndex.QueriedTypeIsEnrolled | common/database/src/idm_database.c:113-140 | an enrolled entry is found for every type a credential is found of |
| Tlv.TlvList.AddTlvNode | common/common/src/tlv_base.c:107-129 | appends at the tail of the chain |
| Tlv.TlvList.PutTlvObject | common/common/src/tlv_wrapper.c:25-68 | the record at the start of the bytes goes to the tail, if it is complete |
| Tlv.TlvList.ParseTlvWrapper | common/common/src/tlv_wrapper.c:83-111 | accepts exactly a non-empty buffer of at most 512000 bytes that is a concatenation of records, and appends those records in order |
| Tlv.ParsesIff | common/common/src/tlv_wrapper.c:25-111 | a buffer parses to records exactly when it is the concatenation of their encodings |
| Tlv.RecordLayout | common/common/src/tlv_wrapper.c:25-68 | type, length and value of a record, in little-endian words |
| Tlv.TlvList.GetUint32Para | common/common/src/tlv_wrapper.c:255-274 | the first record of the type, if it is four bytes long |
| Tlv.TlvList.GetUint64Para | common/common/src/tlv_wrapper.c:234-253 | the first record of the type, if it is eight bytes long |
| Tlv.TlvList.GetBuffPara | common/common/src/tlv_wrapper.c:297-316 | the value of the first record of the type, if not empty |
| Tlv.LookupIff | common/common/src/tlv_wrapper.c:234-316 | a lookup finds exactly the first record of the type: a number of the right length, or bytes that are not empty |
| ExecutorMessage.ParseExecutorResultData | common/coauth/src/executor_message.c:73-119 | the five fields, each the first record of its tag in the data; zeros, as a success, when the list for the records cannot be created |
| ExecutorMessage.ParseRoot | common/coauth/src/executor_message.c:131-164 | data, its fields and the signature, or nothing |
| ExecutorMessage.GetExecutorResultInfo | common/coauth/src/executor_message.c:166-206 | decodes the three levels, or refuses the message |
| ExecutorMessage.DecodeIff | common/coauth/src/executor_message.c:73-206 | a message decodes to fields exactly when it holds data and signature three levels of concatenated records deep, and the fields are the first records of their tags in the data, or zeros when their list cannot be created |
| ExecutorMessage.FieldsComeFromData | common/coauth/src/coauth_funcs.c:58-115 | the fields are a function of the verified bytes and of whether that list can be created |
| ExecutorMessage.FieldsComeFromDataIff | common/coauth/src/executor_message.c:73-119 | they are the fields in those bytes if and only if the list can be created or the bytes hold zeros |
| ExecutorMessage.MessageDecodes | common/coauth/src/executor_message.c:131-206 | a root of data and signature decodes exactly when its data does and the signature is not empty; without that list, whenever neither is empty |
| ExecutorMessage.ReportDecodes | common/coauth/src/executor_message.c:73-206 | the message of any report fields and any signature that fits decodes to exactly those |
| AttributeValues.ValueBack | interfaces/innerkits/src/auth_attributes.cpp:294-348 | every typed value reads back from its bytes and passes the length check |
| AttributeValues.SetWellFormed | interfaces/innerkits/src/auth_attributes.cpp:117-176 | a setter keeps every value under a tag of its type and the tag list exact |
| AttributeObject.InitialTable | interfaces/innerkits/src/auth_attributes.cpp:21-45 | the constructor's table is the type of every tag |
| AttributeObject.AuthAttributes.SetBoolValue | interfaces/innerkits/src/auth_attributes.cpp:117-125 | stores under a tag of its type, else fails, entering an unknown tag in the table |
| AttributeObject.AuthAttributes.SetUint32Value | interfaces/innerkits/src/auth_attributes.cpp:127-136 | a 32 bit value goes under a tag of that type, which joins the tag list again; any other tag fails |
| AttributeObject.AuthAttributes.SetUint64Value | interfaces/innerkits/src/auth_attributes.cpp:138-146 | the same for 64 bit values; no other attribute changes |
| AttributeObject.AuthAttributes.SetUint32ArrayValue | interfaces/innerkits/src/auth_attributes.cpp:148-156 | always fails: no tag has the type |
| AttributeObject.AuthAttributes.SetUint64ArrayValue | interfaces/innerkits/src/auth_attributes.cpp:158-166 | stores under a tag of its type, else fails |
| AttributeObject.AuthAttributes.SetUint8ArrayValue | interfaces/innerkits/src/auth_attributes.cpp:168-176 | the same for byte arrays, the signature among them |
| AttributeObject.AuthAttributes.PackToBuffer | interfaces/innerkits/src/auth_attributes.cpp:412-462 | the length, cut to 32 bits, and the bytes of the value; an absent signature is empty |
| AttributeObject.AuthAttributes.Pack | interfaces/innerkits/src/auth_attributes.cpp:350-391 | sorts the tags; below 4 GB the bytes are a root of the attributes in ascending order and the signature |
| AttributeObject.AuthAttributes.Unpack | interfaces/innerkits/src/auth_attributes.cpp:247-292 | equals the loop specification: the object with every record stored, nullptr with the records before the bad one stored, or a state the code does not define |
| AttributeObject.GetUint64ArrayFromUint8 | interfaces/innerkits/src/auth_attributes.cpp:340-348 | the whole words of the bytes |
| AttributeCodec.RoundTrip | interfaces/innerkits/src/auth_attributes.cpp:247-391 | unpacking what was packed, below 4 GB, brings back every attribute but the empty byte arrays |
| AttributeCodec.RoundTripIff | interfaces/innerkits/src/auth_attributes.cpp:235-391 | the round trip is the identity on attributes exactly when no byte array is empty |
| AttributeCodec.EmptyArrayLost | interfaces/innerkits/src/auth_attributes.cpp:235-391 | an object with one empty byte array, set by one call, which is empty after the round trip |
| AttributeCodec.RepackSame | interfaces/innerkits/src/auth_attributes.cpp:350-391 | packing the unpacked object gives the same bytes, despite repeated tags and the signature moved last |
| AttributeCodec.BuiltRoundTrip | interfaces/innerkits/src/auth_attributes.cpp:117-391 | after any sequence of setter calls without an empty byte array: all values come back, and packing again gives the same bytes |
| AttributeCodec.UnpackStores | interfaces/innerkits/src/auth_attributes.cpp:186-292 | over good records unpacking stores them in order; at a record of a wrong length, or cut short, it refuses the bytes with exactly those before it stored |
| CodecAgreement.PackedParses | common/common/src/tlv_wrapper.c:83-111 | packed bytes parse to one AUTH_ROOT, and that to AUTH_DATA and AUTH_SIGNATURE |
| CodecAgreement.PackedDataParses | common/common/src/tlv_wrapper.c:83-111 | the data parses to the attributes in ascending tag order, or not at all when there is none but the signature |
| CodecAgreement.LookupsAgree | common/common/src/tlv_wrapper.c:234-274 | the C lookups return exactly the 32 and 64 bit values that were set |
| CodecAgreement.PackedNeverDecodes | common/coauth/src/executor_message.c:73-119 | a packed object is accepted as an executor message exactly when the list for the records of its data cannot be created and it fits, with an attribute and a signature; with the list, never |
| Pool.ResourcePool.RegisterExecutorToPool | common/coauth/src/pool.c:130-160 | removes the executor of the kind, then adds the new one with a fresh id in front, or fails |
| Pool.ResourcePool.UnregisterExecutorToPool | common/coauth/src/pool.c:162-169 | removes the executor with the id, or reports it missing |
| Pool.ResourcePool.QueryExecutor | common/coauth/src/pool.c:190-234 | all executors of the type, in reverse order |
| AuthLevel.RegisterOk | common/coauth/src/pool.c:130-160 | ids and kinds stay unique; after success one executor of the kind is left, the new one; after failure none, so that the pool is unchanged exactly when the kind was new |
| AuthLevel.RegisterIff | common/coauth/src/pool.c:130-160 | a registration succeeds exactly with memory, room beside the executors of other kinds and a new id |
| AuthLevel.UnregisterOk | common/coauth/src/pool.c:162-169 | unregistering takes exactly the executor with the id |
| SampleRuns.LostExecutor | common/coauth/src/pool.c:130-160 | a run from the start in which a failed registration leaves no executor of the kind |
| AuthLevel.PoolRunOk | common/coauth/src/pool.c:92-169 | over any run of registrations ids and kinds are unique |
| AuthLevel.GetAsl | common/user_auth/src/auth_level.c:58-89 | the level of the type, or nothing without an executor |
| AuthLevel.AslIff | common/user_auth/src/auth_level.c:58-89 | it is the least of 4 and the executors' levels |
| AuthLevel.SingleAuthTrustLevel | common/user_auth/src/auth_level.c:104-132 | the level AuthLevel.TrustLevelIs describes; the user is looked up, and cached, only if the type has an executor |
| AuthLevel.SearchFinds | common/user_auth/src/auth_level.c:124-131 | the search never falls off the table and finds the largest level of any satisfied row |
| AuthLevel.SearchMonotone | common/user_auth/src/auth_level.c:53-132 | more capable credentials and more secure executors never lower the level |
| AuthLevel.TrustLevelIff | common/user_auth/src/auth_level.c:104-132 | a level is given exactly when the type has an executor and the user a credential |
| AuthLevel.TrustLevelIs | common/user_auth/src/auth_level.c:33-132 | the level is that of the highest row of the table whose security no executor of the type falls short of (nor 4) and whose capability the user's first credential of the type reaches |
| AuthLevel.Levels | common/user_auth/src/auth_level.c:33-132 | the table as levels by capability and security |
| AuthLevel.AslAfterRegister | common/coauth/src/pool.c:130-160 | what a registration does to the level of every type |
| AuthLevel.NewKindNeverRaises | common/user_auth/src/auth_level.c:58-132 | an executor of a new kind never raises the trust level of any user, nor changes that of other types |
| CoAuthFuncs.CoAuthCenter.AddCoAuthSchedule | common/coauth/src/coauth.c:67-94 | the schedule comes in front, or nothing changes |
| CoAuth.AddIff | common/coauth/src/coauth.c:67-94 | adding fails and changes nothing exactly without a list, without memory, or at the largest size, and with which result |
| CoAuthFuncs.CoAuthCenter.RemoveCoAuthSchedule | common/coauth/src/coauth.c:107-114 | the first schedule with the id goes |
| CoAuthFuncs.CoAuthCenter.GetCoAuthSchedule | common/coauth/src/coauth.c:116-148 | the first schedule with the id |
| CoAuthFuncs.CoAuthCenter.GenerateValidScheduleId | common/coauth/src/coauth.c:165-186 | an id no live schedule has |
| CoAuthFuncs.MountExecutor | common/coauth/src/coauth.c:188-222 | all executors of the type, if there are one or two |
| CoAuthFuncs.CoAuthCenter.GenerateAuthSchedule | common/coauth/src/coauth.c:224-258 | a schedule for the context and template, or nothing |
| CoAuthFuncs.CoAuthCenter.GenerateIdmSchedule | common/coauth/src/coauth.c:260-291 | a schedule for the challenge, or nothing |
| CoAuth.GenerateOk | common/coauth/src/coauth.c:165-291 | a fresh id and one or two executors, exactly those of the requested type |
| CoAuth.GenerateIff | common/coauth/src/coauth.c:165-291 | a schedule is generated exactly with memory, a new id and one or two executors of the type |
| CoAuthFuncs.CoAuthCenter.GetScheduleInfo | common/coauth/src/coauth_funcs.c:29-56 | the schedule, if it is live |
| CoAuthFuncs.CoAuthCenter.FinishSchedule | common/coauth/src/coauth_funcs.c:71-122 | result, token and remaining schedules, in the order of the source's checks; which they are say CoAuth.FinishSignsIff, FinishUnsignedIff and FinishRemoves |
| CoAuth.SignThenVerify | common/coauth/src/coauth_sign_centre.c:27-112 | a signed token verifies exactly for ten minutes from its time, and no other signature on it does |
| CoAuth.FinishSignsIff | common/coauth/src/coauth_funcs.c:58-122 | a token is signed exactly for a success report of a live schedule that verifies with the key of its first executor of type verifier or all-in-one; every claim is then that of the report, the schedule and the clock, and it verifies exactly for ten minutes from then |
| CoAuth.FinishRefused | common/coauth/src/coauth_funcs.c:84-113 | what a success report is refused with |
| CoAuth.SignedClaimsIff | common/coauth/src/coauth_funcs.c:58-122 | the claims of a signed token are those in the verified bytes if and only if the list for their records could be created or they are zeros |
| CoAuth.ZeroClaims | common/coauth/src/executor_message.c:80-84 | such an input: for the schedule with id 0, a failure report is signed as a success with zero claims |
| CoAuth.FinishUnsignedIff | common/coauth/src/coauth_funcs.c:95-107 | success without a signature exactly when no executor of the live schedule is a verifier or all-in-one, or the key cannot be copied; nothing but the result is set |
| CoAuth.UnsignedFinish | common/coauth/src/coauth_funcs.c:95-107 | such an input: a schedule generated from one collector and a message that decodes, with any signature |
| CoAuth.FinishRemoves | common/coauth/src/coauth_funcs.c:117-121 | afterwards no schedule with the id is live, whatever the result |
| IdmSession.Session.GenerateChallenge | common/idm/src/idm_session.c:48-62 | the first non-zero draw of five, else zero |
| IdmSession.ChallengeIff | common/idm/src/idm_session.c:48-62 | the challenge is the first draw that is not zero, when no call fails before it |
| IdmSession.Session.OpenEditSession | common/idm/src/idm_session.c:64-98 | replaces the session by a fresh one, or leaves none |
| IdmSession.ThresholdMonotone | common/idm/src/idm_session.c:64-126 | under a clock that does not go back the token threshold never decreases, across refresh, close and reopening |
| IdmSession.RefusedForever | common/idm/src/idm_session.c:109-116 | a token older than the threshold is refused in every later state |
| HalSession.TooOldForever | common/hal_sdk/useridm_interface.cpp:189-285 | the same over runs of HAL calls, of which two refresh the threshold |
| HalSession.TooOldFromStart | common/hal_sdk/useridm_interface.cpp:189-285 | a token refused as too old after a run from the start stays refused over every further run, under a forward clock and while Init and Close meet an empty cache |
| HalSession.SuccessRefusesOlder | common/hal_sdk/useridm_interface.cpp:189-285 | after a successful update or deletion of a user exactly the user tokens from then on are in time, in the same session; after a failed one nothing changes |
| Contexts.ContextManager.GetContext | common/user_auth/src/context_manager.c:97-118 | the first context with the id |
| Contexts.ContextManager.GenerateContext | common/user_auth/src/context_manager.c:58-95 | admits, creates and inserts, leaving the schedule behind on a late failure |
| Contexts.CreateCoauthSchedule | common/user_auth/src/context_manager.c:160-181 | an authentication schedule for the user's template, added to the live ones |
| Contexts.UserAuthContext.ScheduleOnceFinish | common/user_auth/src/context_manager.c:258-265 | takes the schedule off the context |
| Contexts.UserAuthContext.GetScheduleIds | common/user_auth/src/context_manager.c:204-243 | the ids of the schedules left, in order |
| Contexts.ContextManager.DestoryContext | common/user_auth/src/context_manager.c:272-283 | exactly that context goes |
| Contexts.ContextManager.GenerateSolutionFunc | common/user_auth/src/user_auth_funcs.c:27-44 | the ids of the new context's schedules, which is destroyed again without memory for them |
| Contexts.ContextManager.RequestAuthResultFunc | common/user_auth/src/user_auth_funcs.c:68-117 | result, user token, ids and remaining contexts |
| Contexts.ContextManager.CancelContextFunc | common/user_auth/src/user_auth_funcs.c:119-132 | the ids of the context, which goes |
| ContextSpec.GenerateContextOk | common/user_auth/src/context_manager.c:58-95 | context ids stay unique; the new context is for user, challenge, type and trust of the request, and waits for one schedule, with a fresh id, all the executors of the type and the template of the user's first credential of it |
| ContextSpec.AdmittedIff | common/user_auth/src/context_manager.c:58-74 | a request is admitted exactly if its id is new and executors and credential reach the trust it asks for |
| ContextSpec.GeneratedIff | common/user_auth/src/context_manager.c:58-95 | a context is generated exactly for an admitted request with a schedule, memory and room |
| ContextSpec.SolutionIds | common/user_auth/src/user_auth_funcs.c:27-44 | on success the caller gets the id of the live schedule of the new context, otherwise no id and no context |
| ContextSpec.CancelMeans | common/user_auth/src/user_auth_funcs.c:119-132 | cancelling ends exactly the context with the id, even without memory for the id of its schedule, which is handed back on success |
| ContextSpec.OrphanScheduleIff | common/user_auth/src/context_manager.c:58-95 | a failed solution leaves a new schedule behind exactly when the schedule was added and then the context, or memory for its ids, is missing |
| ContextSpec.OrphanSchedule | common/user_auth/src/context_manager.c:58-95 | such a failure, for one user, one credential and one executor |
| ContextSpec.VerifiedTokenEnds | common/user_auth/src/user_auth_funcs.c:76-116 | the first verified token presented for a live context ends it, matching or not, and ends nothing else; a token that does not verify, and one for no live context, are told apart |
| ContextSpec.UserTokenIff | common/user_auth/src/user_auth_funcs.c:46-117 | a user token is signed exactly when the live context waits for the verified token, its user is still there and enrolled, and memory and the MAC are; otherwise the token is zeroed, or left alone if the context does not wait for it |
| ContextSpec.StillEnrolledIff | common/user_auth/src/user_auth_funcs.c:46-66 | still enrolled means: the user is there with an enrolled entry of the type |
| ContextSpec.UserTokenClaims | common/user_auth/src/user_auth_funcs.c:46-117 | a signed user token claims the user, type, trust and challenge of the context, an enrolled id of the type, and verifies exactly for ten minutes |
| ContextSpec.FailureTokenIff | common/user_auth/src/user_auth_funcs.c:76-117 | a failed result is handed on exactly when the live context waits for the verified token |
| UserIdm.PinPermissionCheck | common/idm/src/user_idm_funcs.c:29-56 | a first PIN needs no token, a later one a fresh PIN token for the session's challenge |
| UserIdm.FacePermissionCheck | common/idm/src/user_idm_funcs.c:58-81 | a face needs such a token and must be the first |
| UserIdmSpec.PermissionIff | common/idm/src/user_idm_funcs.c:29-97 | exactly when an enrolment is permitted |
| UserIdmSpec.PermissionRefused | common/idm/src/user_idm_funcs.c:29-97 | what an enrolment is refused with |
| UserIdmSpec.OrphanEnrolmentIff | common/idm/src/user_idm_funcs.c:83-127 | a failed enrolment leaves a new schedule behind exactly when there is no session, the enrolment is permitted, and a schedule is generated and inserted |
| UserIdmSpec.OrphanEnrolment | common/idm/src/user_idm_funcs.c:83-127 | such an enrolment: a first PIN without a session |
| UserIdmSpec.ScheduleTokenIff | common/idm/src/user_idm_funcs.c:148-159 | exactly when an enrolment token is accepted, with both periods of ten minutes |
| UserIdmSpec.UserTokenAcceptedIff | common/idm/src/user_idm_funcs.c:187-198 | a user token is accepted for a deletion exactly with the challenge of the session, in both periods of ten minutes, and with the right MAC |
| UserIdmSpec.QueriedMeans | common/idm/src/user_idm_funcs.c:207-239 | a query succeeds exactly for a user with a credential of the type asked for, or of any, and gives the first of the type, or all |
| UserIdm.CheckEnrollPermission | common/idm/src/user_idm_funcs.c:83-127 | permission, schedule, association, with what each failure leaves behind; on success the session has the one new schedule, of the requested type and subtype, for its challenge |
| UserIdm.AddCredentialFunc | common/idm/src/user_idm_funcs.c:137-173 | an unacceptable token changes nothing; on success a known user has a credential with type, subtype, template and level of the token in front, under a new id, and the file is written |
| UserIdm.DeleteCredentialFunc | common/idm/src/user_idm_funcs.c:175-205 | an unacceptable user token changes nothing; on success exactly the credential with the id is gone and returned, and the enrolled entry only with the last of its type |
| UserIdm.UpdateCredentialFunc | common/idm/src/user_idm_funcs.c:272-325 | an unacceptable token or one not of a PIN changes nothing; on success the PIN is replaced by one with type, subtype, template and level of the token, the old one is returned, and the file is written |
| UserIdm.CancelScheduleIdFunc | common/idm/src/user_idm_funcs.c:255-270 | the session no longer has a schedule |
| UserIdm.QueryCredentialFunc | common/idm/src/user_idm_funcs.c:207-239 | all credentials of the user, or the first of the type; caches the user unless the templates of all users are asked for |
| UserIdm.GetUserSecureUidFunc | common/idm/src/user_idm_funcs.c:241-253 | secure uid and enrolled entries of the user, who is cached |
| UserIdmSpec.PinDeleted | common/idm/src/user_idm_funcs.c:308-313 | deleting the PIN takes exactly it and leaves room in both lists |
| UserIdmSpec.ReaddNeverExceeds | common/database/src/idm_database.c:435-443 | the capacity guard cannot fire after the deletion |
| UserIdmSpec.ReplacePinMeans | common/idm/src/user_idm_funcs.c:272-325 | on success the token's PIN has replaced the old one, which is returned; no other user changes whatever the outcome |
| UserIdmSpec.PinLostIff | common/idm/src/user_idm_funcs.c:272-325 | an update leaves the user without a PIN exactly when the list without the old one cannot be saved or the new one cannot be inserted |
| SampleRuns.LostPin | common/idm/src/user_idm_funcs.c:272-325 | a run from the start to such a loss: a first PIN, then an update without memory for the new one |
| UserIdmSpec.PinReplacedMeans | common/idm/src/user_idm_funcs.c:272-325 | afterwards the user has exactly that PIN, and its other credentials |
| HalSchedules.CallChanges | common/coauth/src/coauth.c:67-114 | a call adds one schedule with a fresh id, ends one with a signed token, or only removes |
| HalSchedules.RecordedTokenIff | common/coauth/src/coauth_funcs.c:71-122 | the tokens a run tallies are exactly the schedule tokens signed |
| HalSchedules.EnrollAdds | common/idm/src/user_idm_funcs.c:83-127 | an enrolment adds at most one schedule, of the requested type; the session takes it exactly on success |
| HalSchedules.RunTallied | common/coauth/src/coauth_funcs.c:71-122 | over any run: live ids unique, one or two executors each, all of the type it was requested for, and per id live entries plus signed tokens never exceed generations |
| HalSchedules.SignedAtMostOnce | common/coauth/src/coauth_funcs.c:71-122 | from the start, while Init and Close meet an empty cache, an id generated once is signed at most once |
| HalCache.CacheTransparentIff | common/database/src/idm_database.c:46-222 | over a run from the start, the cache finds for every id what a walk finds, in every state, if and only if no Init or Close follows a lookup that found its user without a new start or a deletion of a user in between |
| HalCache.StepTransparentIff | common/database/src/idm_database.c:46-222 | from a transparent cache, every call keeps it transparent but Init and Close while a user is cached |
| HalCache.RunTransparentIff | common/hal_sdk/useriam_common.cpp:36-80 | the same over any run from a transparent cache |
| HalCalls.InitMeans | common/hal_sdk/useriam_common.cpp:36-68 | Init loads the file and keeps what was initialised; a file that does not load takes everything down |
| HalCalls.DownUntilInit | common/hal_sdk/useriam_common.cpp:36-80 | after Close or a new start, until Init, no run generates or signs anything, changes the file or brings anything back |
| HalCalls.NothingStoredUntilEnrolment | common/idm/src/idm_session.c:64-169 | once the session was opened, closed or broken off, no token stores anything until an enrolment starts |
| HalCalls.ScheduleEnds | common/hal_sdk/coauth_interface.cpp:29-160 | a token request, with a message or without, and a deletion end exactly the schedule with the id |
| HalCalls.ContextAnswered | common/user_auth/src/user_auth_funcs.c:68-117 | a verified token ends exactly the context it is presented for |
| HalCalls.CredentialDeleted | common/idm/src/user_idm_funcs.c:175-205 | an acceptable user token takes exactly the credential with the id from memory, whatever the result; any other changes nothing |
| HalCalls.UserDeleted | common/hal_sdk/useridm_interface.cpp:189-217 | a deletion takes exactly the user from memory, if it has a credential and memory allows it, and saves; otherwise it changes nothing |
| SampleRuns.StaleRun | common/hal_sdk/useridm_interface.cpp:161-187 | a run from the start that leaves a freed user cached: a first PIN, a question for the secure uid, Close |
| HalContexts.CallContexts | common/user_auth/src/context_manager.c:58-95 | a call generates one context, ends one with a user token, or only removes |
| HalContexts.RecordedContextIff | common/user_auth/src/context_manager.c:58-95 | the contexts a run tracks are exactly those generated |
| HalContexts.RecordedUserTokenIff | common/user_auth/src/user_auth_funcs.c:68-117 | the user tokens a run tracks are exactly those signed |
| HalContexts.RunTracked | common/user_auth/src/user_auth_funcs.c:27-132 | over any run: per id live contexts plus user tokens never exceed generations, and every user token claims user, challenge, type and trust of a request for its context, and no more trust than was given at generation |
| HalContexts.TrackedFromStart | common/user_auth/src/user_auth_funcs.c:27-132 | ... from the start, while Init and Close meet an empty cache |
| HalProvenance.DbStepObeys | common/database/src/idm_database.c:156-628 | no database call brings in a credential other than the one it is given, in memory or in the file |
| HalProvenance.TokenAccounted | common/idm/src/user_idm_funcs.c:137-173 | a verified token for the session's schedule was signed for an enrolment of the session's user |
| HalProvenance.StepTraced | common/idm/src/user_idm_funcs.c:83-325 | a call keeps: each stored credential, in memory or file, was signed for an enrolment of its user; a verifying token was signed before |
| HalProvenance.RunTraced | common/idm/src/user_idm_funcs.c:83-325 | ... and of every run |
| HalProvenance.EveryCredentialEnrolled | common/idm/src/user_idm_funcs.c:83-173 | with ids that never repeat, an ideal MAC, and Init and Close only while no user is cached, every stored credential has type, subtype, template and level of a token signed for an enrolment of a PIN or a face associated with a session of that user |
| TokenReuse.TokenReusedIff | common/idm/src/user_idm_funcs.c:137-173 | a token that added a credential adds another if and only if it is not for a PIN, is still in time, and there is room: adding uses up neither token nor session |
| TokenReuse.PinsAddedAfterLost | common/database/src/idm_database.c:534-543 | over any run, whatever tokens come how often: PIN tokens add a PIN to a user at most once more than the user loses one |
| TokenReuse.PinAddedOnce | common/database/src/idm_database.c:534-543 | over a run without calls that delete or end the list, PIN tokens add at most one PIN to a user, and none to one who has it |
| SampleRuns.ReusedFaceToken | common/idm/src/user_idm_funcs.c:137-173 | a run from the start in which one face token, presented twice, adds two credentials |
| Services.AuthResPool.ScheduleCountMinus | services/src/auth_res_pool.cpp:114-129 | one report less, never below zero |
| Services.CoAuthService.DoSignToken | services/src/executor_messenger.cpp:62-92 | asks the HAL for the token; on failure delivers the error and drops the schedule |
| Services.CoAuthService.FinishReport | services/src/executor_messenger.cpp:94-136 | the countdown, and what the last report does; for every schedule the change of one event |
| Services.CoAuthService.OnTimer | services/src/coauth_manager.cpp:256-273 | delivers, cancels and forgets a schedule that is still there; for every schedule the change of one event |
| Services.CoAuthService.BeginExecute | services/src/coauth_manager.cpp:79-102 | one start after the other, keeping the last failure, with what arrives in between |
| Services.CoAuthService.HandleSchedule | services/src/coauth_manager.cpp:29-77 | saving, starting and the failure path; an unsaved schedule delivers exactly once, a saved one at most once exactly when no start fails or nothing concludes it during the starts |
| ServiceSpec.HandleMeans | services/src/executor_messenger.cpp:94-136 | what one event does to any schedule of the pool |
| ServiceSpec.SilentReports | services/src/executor_messenger.cpp:104-108 | reports before the last deliver and sign nothing and keep the count at least one |
| ServiceSpec.DeliveryCount | services/src/coauth_manager.cpp:29-77 | how often a saved schedule delivers, in any state and over any events: once if nothing fails and something concludes it, once more after a failed start if something did; it never signs more often |
| ServiceSpec.AtMostOnceIff | services/src/coauth_manager.cpp:29-77 | at most one delivery if and only if no start fails or nothing concludes the schedule during the starts |
| ServiceSpec.AtMostOnceUnlessEarlyTimeOut | services/src/coauth_manager.cpp:29-77 | ... for a new id whose started executors report once each: if and only if no start fails or no timer comes before the starts end and before the client dies |
| ServiceSpec.UnsavedDeliversOnce | services/src/coauth_manager.cpp:29-64 | a schedule without information or executors delivers exactly once and is not saved |
| ServiceSpec.ClientIsTold | services/src/coauth_manager.cpp:29-77 | whatever is delivered for a new schedule goes to its client, with the code of an event or of the last failed start |
| ServiceSpec.NoWaitWithoutTimer | services/src/coauth_manager.cpp:66-76 | no schedule ever waits without a timer, and a failed start ends its own |
| ServiceSpec.FailedStartDeliversOnce | services/src/coauth_manager.cpp:71-76 | if a start fails, no report delivers before the failure path, which delivers the one result; nothing follows |
| ServiceSpec.LastReportDelivers | services/src/executor_messenger.cpp:94-136 | otherwise the last of the reports delivers, signs exactly on success with a result, and ends timer and schedule |
| ServiceSpec.TooFewReportsWait | services/src/coauth_manager.cpp:89-93 | with fewer reports only the timer or the client's death ends the wait |
| ServiceSpec.UnknownReport | services/src/executor_messenger.cpp:103-108 | a report for an unknown schedule delivers nothing; whether it has the HAL drop the schedule, and its result, depend on an uninitialised count |
| ServiceSpec.FinishReturns | services/src/executor_messenger.cpp:94-136 | what a report returns: success while others are to come, and also for the report of a failure |
| ServiceSpec.EndedInHalIff | services/src/executor_messenger.cpp:94-136 | when a schedule waits no more, the HAL was asked to end it exactly if a timer fired and every executor accepted, or the last report was without a result or a success |
| ServiceSpec.LeftInHal | services/src/executor_messenger.cpp:126-136 | such a report of a failure, which leaves the schedule in the HAL |
| ServiceSpec.EarlyTimeOutDeliversTwice | services/src/coauth_manager.cpp:66-76 | the shortest run that delivers twice: one executor, whose start fails after the timer |

## Left out

- QueryCredentialFromExecutor: what it returns is an input of QueryCredentialFunc; it looks up no user.
- Database.IdmDatabase.AddCredentialInfo: for a new user success does not mean the credential was added, because the source returns the result of the save.
- AttributeObject.AuthAttributes.Unpack: stops where the code reads the type of a tag its table does not have, or where an offset passes 32 bits.
- AttributeObject.AuthAttributes.Pack: says nothing about packed sizes of 4 GB and more, where the code writes lengths cut to 32 bits.
- FileLoader.LoadFileInfo: allocation succeeds while loading. While parsing records only the list whose absence is reported as success is an input; any other missing memory makes the message one that does not decode.
- Pool.ResourcePool.QueryExecutor: the copies can be allocated.
- CoAuthFuncs.CoAuthCenter.GetCoAuthSchedule: the iterator can be allocated.
- CoAuthFuncs.CoAuthTokenSign: a missing key, missing memory and a failed MAC are one error.
- HalProvenance.EveryCredentialEnrolled: that only signed tokens verify and that schedule ids never repeat are assumptions about the calls of the run, since the MAC and the random generator are not modelled.
- ServiceSpec.DeliveryCount: reports, timers and deaths run to completion, as does saving a schedule; interleavings inside them are not modelled.
- HalCache.CacheTransparentIff: once Init or Close has met a cached user, the code reads freed memory; the model keeps the user that was cached, and its steps say what the code does up to there. The results from the start are for runs without it.
- DeleteUser: its token checks change nothing and it gives up the lock before DeleteUserEnforce, which is the call modelled; Init leaves out the token key.
- Struct layouts: token and message structs are their fields; database records are 40 and 16 bytes with padding written as zeros.
- The in-memory stores other than the linked list and the record list are sequences of values or of objects; sharing of nodes between them does not occur in the source.
- Freeing memory, null arguments, logging and the platform's IPC, death recipients, timers and threads.
- auth_executor.cpp, auth_info.cpp, auth_message.cpp, buffer.c and the property calls of coauth_manager.cpp would add only easy members.
- AuthAttributes::clear, the stale entries of the executor callback map, and the user token's context id, which the source leaves unset.
- The adaptors for random numbers, clock, files, HMAC and Ed25519 are not part of this model.
