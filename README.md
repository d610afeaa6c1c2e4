# JoinUs core, modelled in Dafny

JoinUs is a Spring web application for organising community activities.
An organiser creates an activity. Other users ask to take part and the
organiser approves, rejects or excludes them. Approved participants share
a chat with delivery and seen receipts and emoji reactions. This project
models the rules behind those features and proves properties of them:

- `participation_service.dfy`, `participation_entity.dfy`: the participation
  state machine. There is one row per (activity, user), with status PENDING,
  APPROVED, REJECTED, EXCLUDED or BLOCKED and a denial counter that may be
  missing in legacy rows. The rules cover:
  - the creator exemption;
  - re-opening a denied request;
  - escalation to BLOCKED on the second denial;
  - the capacity check on approval;
  - the derived chat-access and request-button queries;
  - the entity's defaults when it is first saved.
- `chat_service.dfy`, `chat_reactions.dfy`, `reaction_type.dfy`: the activity chat.
  - Message content rules and the clamped history page.
  - Delivery and seen receipts, recorded once each and never for the sender.
  - The per-user reaction toggle and the four-entry reaction summary.
  - The grouped reaction counts and the batched seen summaries.
  - The reaction-type parser.
- `activity_form.dfy`: the activity form helpers:
  - tag and category normalisation;
  - the image fallback chain and ownership check.
- `redirects.dfy`: the sign-in flow's redirect targets.
  - The Referer sanitiser, which drops the sign-in query keys and keeps the rest in first-occurrence order, first value winning.
  - The `login` redirect and the Google sign-in target filter.
  - The redirect decision after a Google sign-in.
- `pages.dfy`: page helpers.
  - The profile-completion redirect and the birth-date prompt.
  - The calendar and sidebar list shaping: dedupe by id, filter, sort, limit.
  - The participation notice with its once-per-session approved message.
- `user_service.dfy`, `users.dfy`, `reviews.dfy`, `oauth_accounts.dfy`: accounts.
  - Registration and profile update with e-mail normalisation.
  - Reviews: one per pair of users, no self-review.
  - The Google account upsert with name and avatar fallbacks.
- `cloudinary.dfy`: the image host client up to the network call.
  - `.env` loading and the configured check.
  - The multipart/form-data body writer (RFC 7578, with the boundary delimiters of section 5.1.1 of RFC 2046).
  - Hex formatting of the signature digest and the upload defaults.
- `common.dfy`: `Option`/`Result` and the text primitives (trim, blank, case, split, join).

The model's shape follows the source:

- Services that update stores in place are classes whose fields are maps or sequences. Their methods carry `modifies` clauses and state their whole new state.
- The loops of the source are methods with loop invariants, each proved equal to a specification function. Those are the tag joiner, the key-removal loop, hex formatting, `.env` loading, the sidebar's `putIfAbsent` loop, the count-map builders and the part writer.
- Decisions that only compute are functions, and lemmas relate them.

Repository calls are map and sequence lookups whose meaning comes from the method names. Time is a `now` parameter. In the chat it is also a monotone clock, so the message table and the seen log stay in time order.

## Model

| member | source | states |
|---|---|---|
| Participation.DenialCount | src/main/java/com/scutelnic/joinus/service/ActivityParticipationService.java:258-269 | a stored counter is returned as is; a legacy row without one counts 2 when BLOCKED, at least 1 exactly when REJECTED, EXCLUDED or BLOCKED, and 0 otherwise |
| Participation.Deny | src/main/java/com/scutelnic/joinus/service/ActivityParticipationService.java:84-87 | a rejection or exclusion stores a counter one above the previous count, the status becomes BLOCKED exactly when that counter reaches 2 and is otherwise the denial given, and the response time is now |
| Participation.UpdateExistingRequest | src/main/java/com/scutelnic/joinus/service/ActivityParticipationService.java:226-241 | a PENDING or APPROVED row comes back unchanged; the request fails with BAD_REQUEST exactly when the row is BLOCKED, or denied with a count of 2 or more; otherwise a denied row becomes PENDING with no response time and the same counter |
| Participation.MayRequestIffReopens | src/main/java/com/scutelnic/joinus/service/ActivityParticipationService.java:188-210 | the request button is offered for a row exactly when requesting again would re-open it as PENDING |
| Participation.SecondDenialBlocks | src/main/java/com/scutelnic/joinus/service/ActivityParticipationService.java:226-241 | a request denied once can be re-opened; after a second denial the row is BLOCKED and every further request fails |
| Participation.BlockedRequestFails | src/main/java/com/scutelnic/joinus/service/ActivityParticipationService.java:231-234 | a BLOCKED row, or a denied row whose count reached 2, can never be requested again and is not offered for a request |
| Participation.ApprovedCountAfterUpdate | src/main/java/com/scutelnic/joinus/service/ActivityParticipationService.java:61-66 | replacing one row changes its activity's APPROVED count by one exactly when the row moves into or out of APPROVED, and leaves other activities' counts alone |
| Participation.ApprovedCountAfterInsert | src/main/java/com/scutelnic/joinus/service/ActivityParticipationService.java:243-250 | inserting a row that is not APPROVED leaves every APPROVED count unchanged |
| Participation.WellFormedAfterUpdate | src/main/java/com/scutelnic/joinus/entity/ActivityParticipation.java:20-28 | updating a row in place keeps row ids unique and every row attached to a known activity |
| Participation.WellFormedAfterInsert | src/main/java/com/scutelnic/joinus/entity/ActivityParticipation.java:20-28 | a row inserted under a new (activity, user) pair with the next generated id keeps row ids unique |
| Participation.ParticipationService.constructor | src/main/java/com/scutelnic/joinus/service/ActivityParticipationService.java:26-32 | the service starts over the given users and activities with no participation rows |
| Participation.ParticipationService.Resolve | src/main/java/com/scutelnic/joinus/service/ActivityParticipationService.java:281-292 | an unknown activity is NOT_FOUND; a null or blank e-mail, or one that names no user, is UNAUTHORIZED; otherwise the activity and the user |
| Participation.ParticipationService.Authorize | src/main/java/com/scutelnic/joinus/service/ActivityParticipationService.java:271-279 | succeeds exactly when the activity and user resolve and the user is the activity's creator; a non-creator gets FORBIDDEN |
| Participation.ParticipationService.RequestKey | src/main/java/com/scutelnic/joinus/service/ActivityParticipationService.java:54-55 | finds the row of the activity with the requested id, and finds none exactly when no row of that activity has that id |
| Participation.ParticipationService.FindRequest | src/main/java/com/scutelnic/joinus/service/ActivityParticipationService.java:54-55 | the lookup `findByIdAndActivityId` returns the row `RequestKey` names |
| Participation.ParticipationService.Request | src/main/java/com/scutelnic/joinus/service/ActivityParticipationService.java:34-46 | succeeds exactly when the activity and user resolve, the user is not the creator, and there is no row yet or `UpdateExistingRequest` accepts it; the creator gets BAD_REQUEST and nothing changes; with no row, exactly one PENDING row is created with a counter of 0; with a row, the result is `UpdateExistingRequest` of it; the APPROVED count never changes; on failure nothing changes |
| Participation.ParticipationService.Approve | src/main/java/com/scutelnic/joinus/service/ActivityParticipationService.java:48-69 | succeeds exactly when the caller is the creator, the request exists, and it is already APPROVED or the APPROVED count is below capacity; only the creator may approve; a missing request is NOT_FOUND; an APPROVED row is left alone; otherwise approval fails with BAD_REQUEST when the APPROVED count is at capacity and else makes the row APPROVED (whatever its former status), raising the count by exactly one, so the count never passes capacity |
| Participation.ParticipationService.Reject | src/main/java/com/scutelnic/joinus/service/ActivityParticipationService.java:71-88 | succeeds exactly when the caller is the creator and the request exists; only the creator may reject; a REJECTED or BLOCKED row is left alone; any other row is denied as REJECTED, so it becomes BLOCKED on the second denial |
| Participation.ParticipationService.Exclude | src/main/java/com/scutelnic/joinus/service/ActivityParticipationService.java:90-107 | succeeds exactly when the caller is the creator and the request exists and is APPROVED; only an APPROVED participant can be excluded (BAD_REQUEST otherwise); the row is denied as EXCLUDED and the APPROVED count drops by one |
| Participation.ParticipationService.CanAccessChat | src/main/java/com/scutelnic/joinus/service/ActivityParticipationService.java:109-122 | false for a null or blank e-mail; otherwise true exactly when the user is the activity's creator or holds an APPROVED row; it fails exactly when the e-mail is present and the activity or the user does not resolve, with that lookup's status |
| Participation.ParticipationService.IsCreator | src/main/java/com/scutelnic/joinus/service/ActivityParticipationService.java:124-132 | true exactly when activity and user resolve and the user is the creator |
| Participation.ParticipationService.GetParticipationStatus | src/main/java/com/scutelnic/joinus/service/ActivityParticipationService.java:134-149 | null for a null or blank e-mail; an error exactly when the activity or user does not resolve; otherwise APPROVED for the creator, else the status of the user's row, else null when there is no row |
| Participation.ParticipationService.CanRequestParticipation | src/main/java/com/scutelnic/joinus/service/ActivityParticipationService.java:188-210 | false for a null or blank e-mail and for the creator; otherwise true with no row and, with a row, exactly as the request rule on that row allows |
| Participation.AccessIffApproved | src/main/java/com/scutelnic/joinus/service/ActivityParticipationService.java:109-149 | a user can use the chat exactly when the status shown to them is APPROVED |
| Participation.RequestableMeansOutside | src/main/java/com/scutelnic/joinus/service/ActivityParticipationService.java:188-210 | a user who is offered the request button cannot use the chat, and requesting then re-opens the row as PENDING |
| ParticipationEntity.ActivityParticipation.constructor | src/main/java/com/scutelnic/joinus/entity/ActivityParticipation.java:38-48 | a new entity for an activity and a user has status PENDING and no id, times or counter yet |
| ParticipationEntity.ActivityParticipation.OnCreate | src/main/java/com/scutelnic/joinus/entity/ActivityParticipation.java:50-61 | before the first insert a null request time becomes now, a null status PENDING and a null counter 0; everything else is kept |
| ReactionTypes.ValueOf | src/main/java/com/scutelnic/joinus/entity/ActivityMessageReactionType.java:26-28 | the constant with exactly that name, and none for any other text |
| ReactionTypes.FromValueAccepts | src/main/java/com/scutelnic/joinus/entity/ActivityMessageReactionType.java:21-30 | `fromValue` gives a type exactly when the value is present, not blank, and its trimmed upper-cased text is that type's name |
| ReactionTypes.FromValue | src/main/java/com/scutelnic/joinus/entity/ActivityMessageReactionType.java:21-30 | null or blank gives no type; a type it gives is named by the trimmed, upper-cased value |
| ReactionTypes.FromValueOfName | src/main/java/com/scutelnic/joinus/entity/ActivityMessageReactionType.java:5-30 | every constant parses back from its own name |
| ReactionTypes.FromValueIgnoresPaddingAndCase | src/main/java/com/scutelnic/joinus/entity/ActivityMessageReactionType.java:26 | surrounding white space and lower case do not change what is parsed |
| ReactionTypes.NamesAndEmojiDistinct | src/main/java/com/scutelnic/joinus/entity/ActivityMessageReactionType.java:5-19 | no two constants share a name or an emoji |
| Chat.NormalizeContent | src/main/java/com/scutelnic/joinus/service/ActivityChatService.java:374-383 | content is accepted exactly when it is present, not blank and at most 1500 characters once trimmed; the stored text is that trimmed text; anything else is BAD_REQUEST |
| Chat.NormalizeContentIdempotent | src/main/java/com/scutelnic/joinus/service/ActivityChatService.java:374-383 | accepted content is accepted again unchanged |
| Chat.ClampLimit | src/main/java/com/scutelnic/joinus/service/ActivityChatService.java:74 | the page size is the requested limit clamped to 1..100 |
| Chat.MessagesOf | src/main/java/com/scutelnic/joinus/repository/ActivityMessageRepository.java:16-17 | the messages of one activity are exactly the table's messages of that activity |
| Chat.MessagesOfChronological | src/main/java/com/scutelnic/joinus/repository/ActivityMessageRepository.java:16-17 | keeping one activity's messages keeps (createdAt, id) order |
| Chat.ReverseKeepsElements | src/main/java/com/scutelnic/joinus/service/ActivityChatService.java:79 | `Collections.reverse` applied twice gives the list back, and it keeps every element with its multiplicity |
| Chat.RecentPageIsNewest | src/main/java/com/scutelnic/joinus/service/ActivityChatService.java:74-79 | the history page is the newest `limit` messages, oldest first |
| Chat.RecentPageChronological | src/main/java/com/scutelnic/joinus/service/ActivityChatService.java:74-79 | the history page of a chronological table is itself chronological |
| Chat.InsertIfAbsent | src/main/java/com/scutelnic/joinus/service/ActivityChatService.java:180-182 | a delivery acknowledgement is recorded once, with the time of the first one; every other entry is unchanged |
| Chat.InsertIfAbsentIdempotent | src/main/java/com/scutelnic/joinus/service/ActivityChatService.java:180-182 | acknowledging delivery twice is acknowledging it once |
| Chat.AppendIfAbsent | src/main/java/com/scutelnic/joinus/service/ActivityChatService.java:207 | a view is appended to the seen log only when the user has not seen the message yet |
| Chat.AppendIfAbsentIdempotent | src/main/java/com/scutelnic/joinus/service/ActivityChatService.java:207 | marking a message seen twice is marking it seen once |
| Chat.SeenBy | src/main/java/com/scutelnic/joinus/service/ActivityChatService.java:224-232 | the viewers listed for a message are exactly the users other than its sender who saw it, with their seen times |
| Chat.SeenByInTimeOrder | src/main/java/com/scutelnic/joinus/service/ActivityChatService.java:225 | a seen log kept in time order gives viewer lists in ascending seen time |
| Chat.SeenByDistinct | src/main/java/com/scutelnic/joinus/service/ActivityChatService.java:224-232 | a seen log with one entry per (message, user), as the insert-if-absent keeps it, lists each viewer of a message once |
| Chat.LaterClock | src/main/java/com/scutelnic/joinus/service/ActivityChatService.java:203-208 | the table invariants survive the clock moving forward |
| Chat.MessagesAfterSend | src/main/java/com/scutelnic/joinus/service/ActivityChatService.java:103-107 | a message saved now with the next id keeps the message table consistent |
| Chat.AcksAfterDelivered | src/main/java/com/scutelnic/joinus/service/ActivityChatService.java:181 | recording a delivery keeps every seen entry backed by a delivery |
| Chat.AcksAfterSeen | src/main/java/com/scutelnic/joinus/service/ActivityChatService.java:206-207 | recording a delivery and then a view keeps every seen entry backed by a delivery and the log in time order |
| Chat.ActivityChatService.constructor | src/main/java/com/scutelnic/joinus/service/ActivityChatService.java:54-68 | the service starts with empty message, delivery, seen and reaction tables |
| Chat.ActivityChatService.ChatAccess | src/main/java/com/scutelnic/joinus/service/ActivityChatService.java:385-389 | passes exactly when the participation service grants chat access; a refusal is FORBIDDEN, and a lookup error of `canAccessChat` is returned with its own status |
| Chat.ActivityChatService.RequireUser | src/main/java/com/scutelnic/joinus/service/ActivityChatService.java:366-372 | the user behind a present, non-blank, known e-mail; UNAUTHORIZED otherwise |
| Chat.ActivityChatService.AccessFindsUser | src/main/java/com/scutelnic/joinus/service/ActivityChatService.java:121-122 | whoever passes the chat check is a known user of a known activity |
| Chat.ActivityChatService.Locate | src/main/java/com/scutelnic/joinus/service/ActivityChatService.java:121-128 | succeeds exactly when the chat check passes and the message exists in this activity; a missing message is NOT_FOUND and one of another activity BAD_REQUEST |
| Chat.ActivityChatService.SendMessage | src/main/java/com/scutelnic/joinus/service/ActivityChatService.java:97-109 | content is checked before access, and a lookup error keeps its status; on success exactly one message is appended with the next id, the sender, the trimmed content and the current time, and the response shows it with delivered and seen counts 0, the four reaction entries at 0 with none marked, and no own reaction; on failure the table is unchanged; the other tables never change |
| Chat.ActivityChatService.NothingAcknowledged | src/main/java/com/scutelnic/joinus/service/ActivityChatService.java:288-289 | a message that is not in the table yet has no delivery and no view, so both counts are 0 |
| Chat.ActivityChatService.AppendMessage | src/main/java/com/scutelnic/joinus/service/ActivityChatService.java:103-108 | the save appends exactly the new message, moves the clock to its creation time and keeps the table invariant, and the response shows it with counts 0, the four reaction entries at 0 with none marked, and no own reaction |
| Chat.ActivityChatService.GetRecentMessages | src/main/java/com/scutelnic/joinus/service/ActivityChatService.java:70-95 | with access, the newest `ClampLimit(requestedLimit)` messages of the activity, oldest first, each with its delivered and seen counts, its reaction summary and the caller's reaction; without access the chat access error; under the table invariant the page is in chronological order |
| Chat.ActivityChatService.DescribePage | src/main/java/com/scutelnic/joinus/service/ActivityChatService.java:285-304 | one response per message of the page, in order, each describing that message for the caller |
| Chat.ActivityChatService.Describe | src/main/java/com/scutelnic/joinus/service/ActivityChatService.java:285-304 | a message is shown with its delivered and seen counts over the users other than its sender, four reaction entries whose counts are the table's counts, the user's own reaction, of the kind they stored, exactly when they reacted, and only that type's entry marked |
| Chat.ActivityChatService.DescribedCountsAgree | src/main/java/com/scutelnic/joinus/service/ActivityChatService.java:288-289 | under the table invariant a described message never shows more viewers than recipients, and its seen count is the number of viewers `getSeenUsers` lists |
| Chat.ActivityChatService.SummaryFor | src/main/java/com/scutelnic/joinus/service/ActivityChatService.java:152-159 | the summary built for one message equals the summary computed straight from the reaction table |
| Chat.ActivityChatService.ToggleReaction | src/main/java/com/scutelnic/joinus/service/ActivityChatService.java:111-163 | a missing id or unknown type is BAD_REQUEST; after the access and message checks the user's reaction is toggled (removed when the same type, replaced otherwise, added when none) and the broadcast carries the message's true counts and the user's new type; on failure nothing changes |
| Chat.ActivityChatService.ApplyToggle | src/main/java/com/scutelnic/joinus/service/ActivityChatService.java:130-162 | the reaction table changes only at (message, user), to the toggled reaction, the clock moves to now and the table invariant is kept, and the update event reports the summary of the new table |
| Chat.ActivityChatService.MarkDelivered | src/main/java/com/scutelnic/joinus/service/ActivityChatService.java:165-187 | a missing id is BAD_REQUEST and a failed check returns its error; it succeeds exactly when the id is present and the checks pass; then a non-sender's delivery is recorded once and the counts returned are the delivered and seen users other than the sender |
| Chat.ActivityChatService.MarkSeen | src/main/java/com/scutelnic/joinus/service/ActivityChatService.java:189-213 | as MarkDelivered, including success exactly when the id is present and the checks pass, and a non-sender is also recorded as a viewer once; the seen count never exceeds the delivered count |
| Chat.ActivityChatService.RecordSeen | src/main/java/com/scutelnic/joinus/service/ActivityChatService.java:203-208 | the sender records nothing; anyone else gets a delivery and a view recorded once each |
| Chat.ActivityChatService.SeenAtMostDelivered | src/main/java/com/scutelnic/joinus/service/ActivityChatService.java:205-211 | every viewer also received the message, so the seen count is at most the delivered count |
| Chat.ActivityChatService.ViewersAreSeenCount | src/main/java/com/scutelnic/joinus/service/ActivityChatService.java:210-232 | under the table invariant the viewers listed for a message are distinct and exactly as many as the seen count `markSeen` reports |
| Chat.ActivityChatService.GetSeenUsers | src/main/java/com/scutelnic/joinus/service/ActivityChatService.java:215-233 | a missing id is BAD_REQUEST and an unknown one NOT_FOUND; otherwise it succeeds exactly when the message's activity grants chat access, fails with the access error's own status otherwise, and lists the viewers other than the sender with their seen times, in seen order, each once, as many as the seen count |
| Chat.ActivityChatService.GetSeenUsersForMessages | src/main/java/com/scutelnic/joinus/service/ActivityChatService.java:235-283 | with access, one summary per requested message of the activity, in (createdAt, id) order, each listing that message's viewers other than its sender |
| Chat.ActivityChatService.SummariesCoverRequested | src/main/java/com/scutelnic/joinus/service/ActivityChatService.java:242-252 | every requested message of the activity gets a summary |
| Chat.ActivityChatService.RequestedMessages | src/main/java/com/scutelnic/joinus/service/ActivityChatService.java:242-252 | the ids kept are the requested messages of the activity, once each, in (createdAt, id) order |
| Chat.ActivityChatService.ViewersOf | src/main/java/com/scutelnic/joinus/service/ActivityChatService.java:253-278 | one viewer list per kept id, equal to that message's viewers other than its sender |
| Chat.TableChronological | src/main/java/com/scutelnic/joinus/service/ActivityChatService.java:247-252 | the message table, kept in insertion order, is in (createdAt, id) order |
| ChatReactions.Toggle | src/main/java/com/scutelnic/joinus/service/ActivityChatService.java:136-150 | no reaction results exactly when the user had one of the same type; otherwise the user now has the requested type, stamped now |
| ChatReactions.ToggleTwice | src/main/java/com/scutelnic/joinus/service/ActivityChatService.java:136-150 | toggling the same type twice restores the user's former type when it was none or the same type; when it was another type, the second toggle removes the reaction |
| ChatReactions.WithReaction | src/main/java/com/scutelnic/joinus/service/ActivityChatService.java:137-149 | the table changes only at the user's key |
| ChatReactions.CountAfterSet | src/main/java/com/scutelnic/joinus/service/ActivityChatService.java:136-152 | setting one user's reaction changes each type's count on that message by at most one, in the expected direction |
| ChatReactions.ReactorsAfterSet | src/main/java/com/scutelnic/joinus/service/ActivityChatService.java:136-152 | the users reacting with a type change only by the user whose reaction was set |
| ChatReactions.ToggleChangesCountByOne | src/main/java/com/scutelnic/joinus/service/ActivityChatService.java:136-152 | a toggle changes the count of the requested type by exactly one, down when the user had that type and up otherwise; when it replaces a reaction of another type, that type's count drops by one |
| ChatReactions.BuildReactionCountsByMessage | src/main/java/com/scutelnic/joinus/service/ActivityChatService.java:306-326 | one count map per requested message; every count stored is the total of a query row for that message and type, and a type without a row has no count |
| ChatReactions.CountsAreTrue | src/main/java/com/scutelnic/joinus/service/ActivityChatService.java:306-326 | fed with the grouped count query, every count is the true number of reactions of that type |
| ChatReactions.CountQueryIsGrouping | src/main/java/com/scutelnic/joinus/repository/ActivityMessageReactionRepository.java:18-24 | the grouped count query gives one row per (message, type) with reactions, carrying its true count |
| ChatReactions.CountQueryTotals | src/main/java/com/scutelnic/joinus/repository/ActivityMessageReactionRepository.java:18-24 | every row of the count query carries the true count |
| ChatReactions.CountQueryCovers | src/main/java/com/scutelnic/joinus/repository/ActivityMessageReactionRepository.java:18-24 | every (requested message, type) with reactions has a row |
| ChatReactions.CountReactionsByMessage | src/main/java/com/scutelnic/joinus/service/ActivityChatService.java:306-326 | for every requested message and type, the count is the true number of reactions |
| ChatReactions.CurrentReactionsAfterToggle | src/main/java/com/scutelnic/joinus/service/ActivityChatService.java:328-338 | after a user toggles a reaction on a listed message, their own-reaction map shows the toggled outcome on that message and is unchanged on every other message |
| ChatReactions.BuildReactionSummaryForMessage | src/main/java/com/scutelnic/joinus/service/ActivityChatService.java:340-359 | four entries in LIKE, LOVE, LAUGH, WOW order, each with its name, emoji, count (0 when absent) and whether it is the user's type |
| ChatReactions.SummaryFlagsAtMostOne | src/main/java/com/scutelnic/joinus/service/ActivityChatService.java:356 | at most one entry of a summary is flagged as the user's, and exactly one when the user has a reaction |
| ChatReactions.SummaryFromCounts | src/main/java/com/scutelnic/joinus/service/ActivityChatService.java:340-359 | built from true counts, the summary is the one computed from the reaction table |
| ActivityForms.DefaultImage | src/main/java/com/scutelnic/joinus/controller/ActivityController.java:26-32 | the fallback image is the first stock image and is not blank |
| ActivityForms.IsOwnerSymmetricAndCaseBlind | src/main/java/com/scutelnic/joinus/controller/ActivityController.java:270-274 | ownership is symmetric, ignores case, holds for equal e-mails and never holds with a missing e-mail |
| ActivityForms.ResolveImageUrl | src/main/java/com/scutelnic/joinus/controller/ActivityController.java:276-284 | the typed URL when usable, else the chosen stock image when usable, else the first stock image; never blank |
| ActivityForms.ResolveImageUrlForEdit | src/main/java/com/scutelnic/joinus/controller/ActivityController.java:286-297 | as ResolveImageUrl, except that the activity's current image is kept when neither field is usable |
| ActivityForms.EditFormImage | src/main/java/com/scutelnic/joinus/controller/ActivityController.java:154-161 | a stock image pre-fills the choice, any other image the URL, and a missing or blank one neither |
| ActivityForms.EditFormKeepsImage | src/main/java/com/scutelnic/joinus/controller/ActivityController.java:154-161 | saving the edit form without touching its image fields keeps the current image |
| ActivityForms.NormalizeCategory | src/main/java/com/scutelnic/joinus/controller/ActivityController.java:299-304 | the trimmed category, or "Comunitate" when it is null or blank; never empty |
| ActivityForms.NormalizeCategoryIdempotent | src/main/java/com/scutelnic/joinus/controller/ActivityController.java:299-304 | normalising a stored category changes nothing |
| ActivityForms.TagsAreTrimmed | src/main/java/com/scutelnic/joinus/controller/ActivityController.java:313-317 | every tag kept is non-empty and trimmed |
| ActivityForms.KeptTags | src/main/java/com/scutelnic/joinus/controller/ActivityController.java:306-328 | at most three tags, each non-empty, trimmed and free of commas; none for null or blank input |
| ActivityForms.TagsHaveNoComma | src/main/java/com/scutelnic/joinus/controller/ActivityController.java:310-314 | no tag contains a comma |
| ActivityForms.TakeKept | src/main/java/com/scutelnic/joinus/controller/ActivityController.java:323-325 | once three tags are kept, the remaining parts do not matter |
| ActivityForms.NormalizeTags | src/main/java/com/scutelnic/joinus/controller/ActivityController.java:306-328 | the first three non-empty trimmed comma-separated parts, joined by ", "; empty for null or blank input |
| ActivityForms.JoinFirstTags | src/main/java/com/scutelnic/joinus/controller/ActivityController.java:311-327 | the loop appends the kept tags with ", " between them and stops after the third, giving the first three kept tags joined |
| ActivityForms.TagsOfJoined | src/main/java/com/scutelnic/joinus/controller/ActivityController.java:306-328 | splitting stored tags at commas and trimming the parts gives the tags back |
| ActivityForms.NormalizeTagsIdempotent | src/main/java/com/scutelnic/joinus/controller/ActivityController.java:306-328 | normalising stored tags changes nothing |
| UserAccounts.NormalizeEmail | src/main/java/com/scutelnic/joinus/service/UserService.java:62-64 | the normalised e-mail is trimmed, lower case and no longer than the input |
| UserAccounts.NormalizeEmailIdempotent | src/main/java/com/scutelnic/joinus/service/UserService.java:62-64 | normalising twice is normalising once |
| UserAccounts.NormalizeEmailIgnoresPaddingAndCase | src/main/java/com/scutelnic/joinus/service/UserService.java:62-64 | surrounding white space and upper case do not change the normalised e-mail |
| UserAccounts.UpdatedProfile | src/main/java/com/scutelnic/joinus/service/UserService.java:54-57 | id, e-mail and password are kept; the name is the trimmed name given; the birth date is taken as given; bio and avatar are the trimmed values given, or null when blank |
| UserAccounts.ResubmitKeepsProfile | src/main/java/com/scutelnic/joinus/service/UserService.java:54-57 | submitting a stored profile's own values again leaves it exactly as it is |
| UserAccounts.UserService.constructor | src/main/java/com/scutelnic/joinus/service/UserService.java:19-22 | the service works over the given user table |
| UserAccounts.UserService.Register | src/main/java/com/scutelnic/joinus/service/UserService.java:24-43 | succeeds exactly when the passwords match and the normalised e-mail is not taken; a failure changes nothing; otherwise exactly one user is added under the normalised e-mail, with the encoded password |
| UserAccounts.UserService.FindByEmail | src/main/java/com/scutelnic/joinus/service/UserService.java:45-47 | a user is found exactly when one is stored under the normalised e-mail |
| UserAccounts.UserService.UpdateProfile | src/main/java/com/scutelnic/joinus/service/UserService.java:49-60 | an unknown e-mail fails and changes nothing; otherwise only that user changes, to `UpdatedProfile` |
| UserAccounts.FindByEmailNormalizes | src/main/java/com/scutelnic/joinus/service/UserService.java:45-47 | addresses that differ only in case and surrounding white space find the same user |
| Text.NormalizeNullableIdempotent | src/main/java/com/scutelnic/joinus/service/UserService.java:66-72 | the normalised value is never empty, is trimmed, and normalises to itself |
| Text.NormalizeNullable | src/main/java/com/scutelnic/joinus/service/UserService.java:66-72 | null stays null; a value is kept, trimmed, exactly when its trimmed form is not empty |
| Users.UserRepository.constructor | src/main/java/com/scutelnic/joinus/entity/User.java:13-21 | an empty table |
| Users.UserRepository.FindByEmail | src/main/java/com/scutelnic/joinus/entity/User.java:20-21 | the e-mail column is unique, so the user found carries exactly that e-mail; none exactly when no user has it |
| Users.UserRepository.FindById | src/main/java/com/scutelnic/joinus/entity/User.java:13-15 | a stored user with that id; none only when no stored user has it |
| Users.UserRepository.Insert | src/main/java/com/scutelnic/joinus/entity/User.java:13-15 | a new user receives the next generated id and is stored under its e-mail |
| Users.UserRepository.Update | src/main/java/com/scutelnic/joinus/entity/User.java:13-21 | only the user's own entry changes |
| UserReviews.NormalizeNullableEmail | src/main/java/com/scutelnic/joinus/service/UserReviewService.java:76-78 | null stays null; otherwise the normalised e-mail |
| UserReviews.UserReviewService.constructor | src/main/java/com/scutelnic/joinus/service/UserReviewService.java:22-25 | no reviews yet |
| UserReviews.UserReviewService.ReviewCount | src/main/java/com/scutelnic/joinus/service/UserReviewService.java:27-31 | the count is zero exactly when nobody has reviewed the user |
| UserReviews.UserReviewService.SubmitReview | src/main/java/com/scutelnic/joinus/service/UserReviewService.java:48-74 | unknown reviewer, unknown reviewed user, a self-review and a second review fail in that order and change nothing; otherwise one review with the trimmed feedback is added and the reviewed user's count rises by one |
| UserReviews.UserReviewService.HasReviewed | src/main/java/com/scutelnic/joinus/service/UserReviewService.java:44-46 | true exactly when the reviewer is among the users counted as reviewers of the reviewed user |
| UserReviews.ReviewersAfterInsert | src/main/java/com/scutelnic/joinus/service/UserReviewService.java:59-70 | a first review adds exactly its reviewer to the reviewed user's reviewers |
| OAuthAccounts.ToStableAvatarUrl | src/main/java/com/scutelnic/joinus/service/OAuthAccountService.java:68-81 | null stays null; a URL on the image host, or any URL while the host is not configured, is kept; an off-host URL is replaced by the upload's result when the upload gives a usable one, and a different URL is only ever that result; a non-blank picture never becomes blank |
| OAuthAccounts.ToStableAvatarUrlIdempotent | src/main/java/com/scutelnic/joinus/service/OAuthAccountService.java:68-81 | when the upload only returns image-host URLs, a stable URL is stable |
| OAuthAccounts.NameFromEmail | src/main/java/com/scutelnic/joinus/service/OAuthAccountService.java:29 | `split("@")[0]`: the text before the first "@", absent exactly when the e-mail is non-empty and made only of "@" |
| OAuthAccounts.ResolvedName | src/main/java/com/scutelnic/joinus/service/OAuthAccountService.java:28-30 | the trimmed given name when it is not blank, otherwise the name taken from the e-mail |
| OAuthAccounts.MergedGoogleProfile | src/main/java/com/scutelnic/joinus/service/OAuthAccountService.java:35-46 | an existing account keeps id, e-mail, password, birth date and bio; a blank name is replaced; a missing avatar is set from the picture; a Google avatar is replaced by the stable copy of the picture, or of itself when there is no picture; any other avatar is kept |
| OAuthAccounts.IsGoogleAvatarUrl | src/main/java/com/scutelnic/joinus/service/OAuthAccountService.java:83-85 | true exactly when the URL is present and "googleusercontent.com" occurs in it at some position |
| OAuthAccounts.IsCloudinaryUrl | src/main/java/com/scutelnic/joinus/service/OAuthAccountService.java:87-89 | true exactly when "res.cloudinary.com" occurs in the URL at some position |
| Text.ContainsIffOccurs | src/main/java/com/scutelnic/joinus/service/OAuthAccountService.java:83-89 | the recursive `contains` used by both URL tests holds exactly when the part occurs at some position |
| OAuthAccounts.GoogleAvatarMigratedOnce | src/main/java/com/scutelnic/joinus/service/OAuthAccountService.java:35-46 | once a Google avatar has been mirrored, it is no longer a Google avatar, and a later sign-in without a picture leaves the account as it is |
| OAuthAccounts.MergeKeepsCompleteProfile | src/main/java/com/scutelnic/joinus/service/OAuthAccountService.java:35-46 | an account with a name and a non-Google avatar is left exactly as it was when no new picture is needed |
| OAuthAccounts.OAuthAccountService.constructor | src/main/java/com/scutelnic/joinus/service/OAuthAccountService.java:20-23 | the service works over the given user table |
| OAuthAccounts.OAuthAccountService.UpsertGoogleUser | src/main/java/com/scutelnic/joinus/service/OAuthAccountService.java:25-58 | when no name can be resolved it fails and nothing changes; an existing account under the normalised e-mail is replaced by `MergedGoogleProfile` and `created` is false; otherwise exactly one account is added with the next id, the resolved name, the random password and the stable picture, and `created` is true |
| Cloudinary.ParseEnvLine | src/main/java/com/scutelnic/joinus/service/CloudinaryService.java:188-197 | a blank line gives nothing; an entry has a non-empty trimmed key without "=" and a non-empty trimmed value |
| Cloudinary.ParseEnvLineRoundTrip | src/main/java/com/scutelnic/joinus/service/CloudinaryService.java:188-197 | a line written as key=value, with a trimmed key that holds no "=" and does not start with "#" and a trimmed non-empty value, reads back as that entry |
| Cloudinary.LoadEnv | src/main/java/com/scutelnic/joinus/service/CloudinaryService.java:179-203 | without a .env file the process environment; otherwise the environment completed by the file's lines |
| Cloudinary.FilledKeeps | src/main/java/com/scutelnic/joinus/service/CloudinaryService.java:196 | `putIfAbsent` never overrides a variable already set |
| Cloudinary.FilledFirstWins | src/main/java/com/scutelnic/joinus/service/CloudinaryService.java:196 | the first entry that sets a key decides its value |
| Cloudinary.LoadedKeepsProcess | src/main/java/com/scutelnic/joinus/service/CloudinaryService.java:180-197 | a process variable is never overridden by the .env file |
| Cloudinary.LoadedFirstLineWins | src/main/java/com/scutelnic/joinus/service/CloudinaryService.java:187-197 | among the lines, the first that sets an unset variable decides it |
| Cloudinary.LoadedAbsent | src/main/java/com/scutelnic/joinus/service/CloudinaryService.java:179-203 | a variable set neither by the environment nor by any line stays unset |
| Cloudinary.ProcessEnvironmentConfigures | src/main/java/com/scutelnic/joinus/service/CloudinaryService.java:32-42 | cloud name, key and secret set in the process environment make the service configured whatever the file says |
| Cloudinary.PartRoundTrip | src/main/java/com/scutelnic/joinus/service/CloudinaryService.java:156-163 | every part `writePart` emits reads back as its name and value |
| Cloudinary.OutputBuffer.WritePart | src/main/java/com/scutelnic/joinus/service/CloudinaryService.java:156-163 | the buffer grows by exactly the delimiter, the disposition header, the value and a line break |
| Cloudinary.WriteFilePartTo | src/main/java/com/scutelnic/joinus/service/CloudinaryService.java:129-134 | the buffer grows by the file part with its file name and content type |
| Cloudinary.BuildMultipart | src/main/java/com/scutelnic/joinus/service/CloudinaryService.java:116-138 | the body is the three signed fields, the file part and the close delimiter, in that order |
| Cloudinary.BuildMultipartForRemoteUrl | src/main/java/com/scutelnic/joinus/service/CloudinaryService.java:140-154 | the body is the three signed fields, the URL as the file field and the close delimiter |
| Cloudinary.RemoteUrlBodyFraming | src/main/java/com/scutelnic/joinus/service/CloudinaryService.java:140-154 | every body starts with the first delimiter and ends with the close delimiter |
| Cloudinary.NatToStringReadsBack | src/main/java/com/scutelnic/joinus/service/CloudinaryService.java:126 | `String.valueOf` of a timestamp is all decimal digits, without a leading zero, and reads back as the number |
| Cloudinary.HexByte | src/main/java/com/scutelnic/joinus/service/CloudinaryService.java:171 | `%02x` gives exactly two characters per byte |
| Cloudinary.Hex | src/main/java/com/scutelnic/joinus/service/CloudinaryService.java:169-173 | two digits per digest byte |
| Cloudinary.ToHex | src/main/java/com/scutelnic/joinus/service/CloudinaryService.java:169-173 | the loop builds exactly `Hex` of the digest, which `HexRoundTrip` reads back |
| Cloudinary.HexDigitsOnly | src/main/java/com/scutelnic/joinus/service/CloudinaryService.java:171 | the rendering is lower-case hexadecimal |
| Cloudinary.HexRoundTrip | src/main/java/com/scutelnic/joinus/service/CloudinaryService.java:165-177 | reading the rendering back gives the digest bytes |
| Cloudinary.SignatureReadsBack | src/main/java/com/scutelnic/joinus/service/CloudinaryService.java:68 | the signature is the digest of "timestamp=", the timestamp and the secret, two lower-case hexadecimal digits per byte, and it reads back as that digest |
| Cloudinary.UploadImageRequest | src/main/java/com/scutelnic/joinus/service/CloudinaryService.java:52-73 | nothing is built unless the service is configured; otherwise the boundary is "----JoinUsBoundary" and the UUID, a blank file name becomes "upload-" and a UUID, a blank content type "application/octet-stream", and the body is `buildMultipart`'s |
| Cloudinary.UploadFromUrlRequest | src/main/java/com/scutelnic/joinus/service/CloudinaryService.java:75-86 | nothing is built unless the service is configured and the URL is not blank; otherwise the body carries the trimmed URL |
| Cloudinary.SignedPartsReadBack | src/main/java/com/scutelnic/joinus/service/CloudinaryService.java:125-127 | the three signed fields read back, one part after the other, as the API key, the timestamp and the signature |
| Cloudinary.UploadFromUrlReadsBack | src/main/java/com/scutelnic/joinus/service/CloudinaryService.java:140-153 | a remote-image body is the signed fields, then a part that reads back as the trimmed URL under the name `file`, then the close delimiter |
| Cloudinary.UploadImageCarriesFile | src/main/java/com/scutelnic/joinus/service/CloudinaryService.java:52-73 | a file upload body is the signed fields, then the file part whose header names the file, "upload-" and a UUID when the name is blank, and whose content is the file's unchanged, then the close delimiter |
| Redirects.FirstWinsIsFirstOccurrence | src/main/java/com/scutelnic/joinus/controller/AuthController.java:157-162 | `toMap` with a keep-first merge holds, for each key, the first value given, once per key, in order of first occurrence |
| Redirects.FirstWinsOfDistinct | src/main/java/com/scutelnic/joinus/controller/AuthController.java:157-162 | pairs with distinct keys pass through unchanged |
| Redirects.LookupRetained | src/main/java/com/scutelnic/joinus/controller/AuthController.java:164-166 | removing keys hides exactly those keys |
| Redirects.RetainedThenRemoved | src/main/java/com/scutelnic/joinus/controller/AuthController.java:164-166 | removing the keys one at a time removes them all |
| Redirects.ParseParam | src/main/java/com/scutelnic/joinus/controller/AuthController.java:156-159 | the key never holds "=", and neither side holds a character the part lacks |
| Redirects.CleanedParamsSpec | src/main/java/com/scutelnic/joinus/controller/AuthController.java:154-166 | the sanitiser keeps exactly the non-sign-in keys, each once with its first value, in first-occurrence order |
| Redirects.ParseRenderParam | src/main/java/com/scutelnic/joinus/controller/AuthController.java:156-169 | a rendered pair parses back to itself |
| Redirects.EntriesRoundTrip | src/main/java/com/scutelnic/joinus/controller/AuthController.java:154-170 | a rendered query parses back to its pairs |
| Redirects.QueryRoundTrip | src/main/java/com/scutelnic/joinus/controller/AuthController.java:154-170 | a query with distinct keys parses back to the same parameter map |
| Redirects.CleanedQueryStable | src/main/java/com/scutelnic/joinus/controller/AuthController.java:143-184 | sanitising an already sanitised query (whose parameters render non-blank) keeps the same parameters |
| Redirects.SanitizeRedirectUrl | src/main/java/com/scutelnic/joinus/controller/AuthController.java:143-184 | the method, with its key-removal loop, computes the corrected sanitiser |
| Redirects.RemoveAuthKeys | src/main/java/com/scutelnic/joinus/controller/AuthController.java:164-166 | the loop leaves exactly the pairs whose key is not a sign-in key |
| Redirects.SanitizedCases | src/main/java/com/scutelnic/joinus/config/SecurityConfig.java:233-274 | no target for a null or blank Referer, "/" for one that does not parse, otherwise path (or "/"), the kept parameters after "?" if any, and the fragment after "#" |
| Redirects.SanitizedAgreesWithPath | src/main/java/com/scutelnic/joinus/controller/AuthController.java:150-173 | as written and corrected sanitisers agree on every URI that has a path |
| Redirects.OpaqueRefererGivesNull | src/main/java/com/scutelnic/joinus/controller/AuthController.java:150-151 | as written, an opaque Referer (no path, no query) is sanitised to "null"; corrected, to "/" |
| Redirects.LookupWithFlag | src/main/java/com/scutelnic/joinus/controller/AuthController.java:58-66 | after appending a flag when given, a key is present exactly when it was before or it is the given flag |
| Redirects.LoginRedirect | src/main/java/com/scutelnic/joinus/controller/AuthController.java:51-68 | "redirect:/?" followed by the rendered query `login`, then `error`, `registered` and `logout` for the flags given, in that order |
| Redirects.LoginQueryIsSignInOnly | src/main/java/com/scutelnic/joinus/controller/AuthController.java:57-66 | the login query reads back as its flags, and sanitising it removes them all |
| Redirects.GoogleAuthTarget | src/main/java/com/scutelnic/joinus/controller/AuthController.java:79-90 | the Referer, passed through the corrected sanitiser, is remembered exactly when there is one and it does not lead back to /login, /register, /oauth2 or /auth/google |
| Redirects.RefererRedirect | src/main/java/com/scutelnic/joinus/config/SecurityConfig.java:109-129 | the Referer passed through the corrected sanitiser, or "/" without one |
| Redirects.HandleOAuth2Success | src/main/java/com/scutelnic/joinus/config/SecurityConfig.java:167-219 | a non-Google authentication goes to "/" and a token without e-mail to the sign-in error, both changing nothing; an e-mail with no name fails; otherwise a new account goes to complete its profile and an existing one to the session target passed through the corrected sanitiser, or "/" without one |
| Pages.ProfileRedirect | src/main/java/com/scutelnic/joinus/controller/PageController.java:71-95 | no redirect exactly when no flag is given; otherwise the profile editor with the given flags, in their fixed order, joined by "&" |
| Pages.ProfileFlagAppended | src/main/java/com/scutelnic/joinus/controller/PageController.java:81-91 | appending "&" and a flag to the redirect appends that flag to its query |
| Pages.MustCompleteBirthDate | src/main/java/com/scutelnic/joinus/controller/PageController.java:119-120 | the birth date is only ever asked for when it is missing |
| Pages.BirthDateAskedWhenMissing | src/main/java/com/scutelnic/joinus/controller/PageController.java:70-120 | on the editor reached through the profile redirect with any flag, the birth date is asked for exactly when it is missing |
| Pages.ProfileFlagsReadBack | src/main/java/com/scutelnic/joinus/controller/PageController.java:71-120 | the editor reached through the redirect sees exactly the flags `profile` got, so it asks for the birth date exactly when `profile` was asked to |
| Pages.ProfileParamsLookup | src/main/java/com/scutelnic/joinus/controller/PageController.java:76-92 | each flag is present in the written query exactly when it was given |
| Pages.Present | src/main/java/com/scutelnic/joinus/controller/PageController.java:202 | the filter keeps exactly the non-null activities that pass it |
| Pages.PresentAppend | src/main/java/com/scutelnic/joinus/controller/PageController.java:193-202 | filtering the concatenated lists filters each list |
| Pages.FirstByIdSpec | src/main/java/com/scutelnic/joinus/controller/PageController.java:203-208 | one activity per id, every id of the input kept, nothing added |
| Pages.FirstByIdPrefers | src/main/java/com/scutelnic/joinus/controller/PageController.java:401-407 | when an id occurs in the first list, the activity kept comes from the first list |
| Pages.SortBy | src/main/java/com/scutelnic/joinus/controller/PageController.java:210-212 | sorting is a permutation |
| Pages.SortBySpec | src/main/java/com/scutelnic/joinus/controller/PageController.java:409-411 | with a total preorder the result is sorted, and distinct ids stay distinct |
| Pages.CalendarOrderIsTotal | src/main/java/com/scutelnic/joinus/controller/PageController.java:210-212 | date, then time with missing times last, is a total preorder |
| Pages.CalendarSpec | src/main/java/com/scutelnic/joinus/controller/PageController.java:193-213 | the calendar lists each dated activity of the user once, from the two lists only, with the authored copy when both have it, in date and time order |
| Pages.SidebarOrderIsTotal | src/main/java/com/scutelnic/joinus/controller/PageController.java:410-411 | newest first with missing creation times last is a total preorder |
| Pages.ResolveSidebarActivities | src/main/java/com/scutelnic/joinus/controller/PageController.java:382-414 | nothing for a visitor or unknown user; otherwise the loop's map equals the first-per-id filter of both lists without the current activity, sorted newest first and cut to six |
| Pages.SidebarSpec | src/main/java/com/scutelnic/joinus/controller/PageController.java:401-413 | at most six, never the current activity, each id once, newest first, and every activity left out is no newer than every one shown |
| Pages.TakeOfSorted | src/main/java/com/scutelnic/joinus/controller/PageController.java:412 | the first n of a sorted list are sorted and none of the rest comes before them |
| Pages.CreatorGetsNoNotice | src/main/java/com/scutelnic/joinus/controller/PageController.java:337 | the creator never gets a participation notice and the approved-notice flag is untouched |
| Pages.ApprovedNoticeAtMostOnce | src/main/java/com/scutelnic/joinus/controller/PageController.java:353-359 | an approved participant sees the approved notice exactly when it was not seen, and of two views in a row only the first shows it |
| Pages.LeavingClearsApprovedNotice | src/main/java/com/scutelnic/joinus/controller/PageController.java:338-363 | a rejection, exclusion, block or missing status clears the flag so a later approval is announced again; a pending request leaves it |
| Pages.NoticeForEveryParticipant | src/main/java/com/scutelnic/joinus/controller/PageController.java:338-363 | a signed-in non-creator gets a notice unless approved and already notified |
| Pages.VisitorAskedToSignIn | src/main/java/com/scutelnic/joinus/controller/PageController.java:366-369 | a visitor is asked to sign in and the flag is untouched |
| Pages.NoticeSession.constructor | src/main/java/com/scutelnic/joinus/controller/PageController.java:416-418 | no approved notice seen yet |
| Pages.NoticeSession.ShowParticipationNotice | src/main/java/com/scutelnic/joinus/controller/PageController.java:321-376 | the notice and seen flag follow the status rule for this activity only, and a message or type carried over from a redirect wins over the computed one |

## Left out

- Transactions, concurrency and capacity races: each operation is modelled as atomic and sequential.
- A blocked re-request saves BLOCKED and then throws inside a transaction, so the write is rolled back. The model treats the call as a failure that changes nothing.
- Some failures are BAD_REQUEST in the code: a blocked re-request, approval at capacity and excluding a non-participant. The model follows the code.
- Editing an activity can lower its capacity below the APPROVED count. Only the bound that each approval keeps is stated, not a global invariant.
- Java strings are simplified:
  - `trim` and `isBlank` both use the one predicate "code point at most U+0020";
  - upper and lower case map ASCII letters only;
  - lengths count characters, not UTF-16 units.
- Java's `split` drops trailing empty parts, but the model's `Split` keeps them. The tag and query callers skip empty parts, and `NameFromEmail` reads only the first part and handles the all-"@" address separately, so nothing observable differs.
- `java.net.URI` parsing is the parameter `parse`. `None` stands for a `URISyntaxException`, and escaping is not modelled.
- The uploader, the network, SHA-1, UUIDs and the password encoder are function parameters. HTTP upload and JSON parsing of the response are not modelled.
- OAuthAccounts.UpsertGoogleUser: when the full name is blank and the e-mail is made only of "@", Java throws an index error. The model returns the `NoNameInEmail` error instead.
- Redirects.HandleOAuth2Success: its contract states the redirect target only. The account change is the one `UpsertGoogleUser` states. Removing the stored session target is not modelled.
- Redirects.GoogleAuthTarget: it uses the corrected sanitiser, so an opaque Referer gives "/" where the code gives "null" (see Findings).
- Redirects.RefererRedirect: it uses the corrected sanitiser, so an opaque Referer gives "/" where the code gives "null" (see Findings).
- Redirects.HandleOAuth2Success: the stored session target goes through the corrected sanitiser, so an opaque one gives "/" where the code gives "null" (see Findings).
- User display names are not carried: `SeenUser` leaves out the viewer's full name and `MessageResponse` the sender's, since both are read from the user record unchanged.
- Chat fan-out over STOMP, the REST and WebSocket controllers, flash-message plumbing and `GlobalModelAttributes` are routing only.
- The `toggleReaction` branch that rejects an unsupported reaction type cannot be reached. Every parsed type is one of the four supported ones.
- Pages.SortBy: it is an insertion sort. The model proves it sorted and a permutation but does not prove it stable.
- The Spring Security filter chain, remember-me, BCrypt and session storage belong to the framework.
  - The session's approved-notice attributes are a set of activity ids.
  - Flash attributes are optional parameters.
- The lists an activity page reads are parameters, because they come from services. These are the activities a user created and those where the user is approved.
- Not modelled:
  - `PageController.index`;
  - the register form route and its submission handler;
  - the pending and approved lists of the participation service;
  - the average rating, which is a floating-point value.
- UserRepository.java is not part of this model. Its behaviour comes from the call sites and from the unique e-mail column in `User.java`.
- DTO validation annotations such as capacity 1..200 and rating 1..5 are enforced by the framework and are not modelled.

## Findings

| source | as written | input that shows it | evidently intended | confidence | as-written member | corrected member |
|---|---|---|---|---|---|---|
| src/main/java/com/scutelnic/joinus/controller/AuthController.java:150-151 | With no query, the sanitiser (and its copy at SecurityConfig.java:240-241) concatenates `uri.getPath()`, which is null for an opaque URI, so the target is the string "null" | Referer `mailto:team@joinus.ro` | "/" for a missing path, as the branch with a query already does | not executed | Redirects.SanitizedAsWritten (shown by Redirects.OpaqueRefererGivesNull) | Redirects.Sanitized (proved by Redirects.SanitizedCases; computed by Redirects.SanitizeRedirectUrl) |
