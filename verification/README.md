# A model of Mosaico's fabric policies

Mosaico is a daemon that joins coding agents in a Nostr fabric. Most of its I/O sits in front of
small policies that carry state. This project models those policies in Dafny and proves what they
guarantee over every input and every run.

| modules | what they model |
|---|---|
| `ChannelForest`, `ForestLaws`, `Arrange`, `ChannelRefs` | nested channel blocks are flattened, merged and rebuilt into one forest by slash reference; references come from walking parents |
| `Admission`, `AdmissionRuns` | chat that arrives before or after its channel's two membership snapshots (kinds 39001 and 39002 of NIP-29) is accepted, rejected or quarantined and replayed |
| `Cursor`, `Reactions`, `Presence`, `Messages` | half-open delta windows claimed by compare-and-set; reactions and lease expiry reported once; the recent message cluster |
| `GooseContext` | a context file to which every hook prepends and which is cut at 65536 bytes on a character boundary (UTF-8 as in sections 3 and 4 of RFC 3629) |
| `Conversation`, `ConversationLaws`, `NudgeOffers` | the conversation detector and the per-caller lottery and offer state |
| `DaemonCall` | one blocking daemon call: five attempts, each labelled by whether the request may have been delivered |
| `TomlMerge`, `FirstSight`, `Bundles`, `AgentCatalog` | configuration overlay, bounded de-duplication, bundle names, profile selection |
| `Orders`, `Text`, `Numbers` | sorting, ascending key order, trimming, saturating `u64` arithmetic |

Code that updates state is a class or a method with loops, proved against a function of its inputs
or of the old state; the laws are lemmas about that function. Whole runs are functions over the list
of events, steps or calls, so a lemma over all lists is a statement about every reachable state.

## What the proofs say about the code

Seven expectations hold only under a condition. Each has its exact condition as an if-and-only-if,
or a theorem that says what happens instead, and a lemma exhibits a failing input or covers all of
them.

- **References.** Cutting a channel's reference at its last slash names the parent exactly when the
  channel is at most 31 levels below its root and its own segment has no slash
  (`FullRefCutNamesParent`, for slash-free group ids). At 32 levels the walk of `src/channel_ref.rs`
  runs out and the reference starts at the channel's own id, so that the cut is no channel's
  reference; a straight chain of unnamed channels shows it (`DeepCutNamesNobody`,
  `TooDeepIsMisnamed`). A name such as `a/b`, which group metadata can carry into the store
  unchecked (src/fabric/nip29/materializer.rs:28-36), is read as two segments
  (`SlashedNameIsMisread`).
- **Demotion.** On every run a key is in the channel exactly if it stands as an admin, or stands as a
  member and was not demoted since (`RosterOnRun`). Where only snapshots touch the roster, it is the
  union of the two latest lists exactly when no listed member is left demoted (`RosterIsUnion`); one
  who is has its chat rejected until the next member list (`DemotedMemberIsRejected`,
  `MemberListRestoresUnion`).
- **Empty channel id.** Chat tagged with an empty `h` is quarantined for good, even if that id gets
  both snapshots (`BlankChannelNeverDrains`).
- **Chat without a channel.** A kind-9 event without an `h` tag does not decode and is logged without
  admission; at regular kinds `LogOnRun` names all events that are. It becomes neither a message nor
  an inbox row. Replaceable and addressable kinds keep one row per coordinate (`SlotOnRun`).
- **Goose history.** The file is always the cut of the newest deltas, down to but without the first
  older one that is blank once cut (`FileIsCutOfKept`). That is the cut of the whole history exactly when nothing was forgotten or what is kept fills the file (`FileForgets`).
  It holds after every hook exactly when each delta but the newest is not blank once cut or is
  followed at once by one that fills the file (`FileIsCutHistory`). A delta with more leading blanks
  than fit is lost to the next hook (`LongBlankStartIsForgotten`).
- **De-duplication.** `first_sight` is documented as true exactly once per id. An id is let through
  again exactly when at least 4096 others have been let through since (`ReadmittedAfterCap`); after
  4097 distinct ids the first one passes again (`FirstIdPassesTwice`).
- **Layered configuration.** `deep_merge` is associative exactly when no leaf sits between two tables
  of which the upper one fails to cover the lower one (`LayeringAssociative`, `TableLeafTable`).

## Model

| member | source | states |
|---|---|---|
| `ChannelForest.ParentIsOneUp` | src/fabric_context/tree.rs:17-24 | the part before a reference's last slash has exactly one slash less, so deepest-first order visits every child before its parent |
| `ChannelForest.ParentOfExtension` | src/fabric_context/tree.rs:22-24 | appending one slash-free segment is undone by cutting at the last slash |
| `ChannelForest.HistoryDetermines` | src/fabric_context/tree.rs:50-86 | a reference is in the map exactly if some block mentions it, with the fold of its own rows and nothing that other references' rows say |
| `ForestLaws.TreeHistory` | src/fabric_context/tree.rs:17-36 | the tree at a reference holds exactly the references that climb to it through present parents, each once, with its merged row |
| `ForestLaws.ForestConserves` | src/fabric_context/tree.rs:6-48 | conservation: every reference of the input appears exactly once in the whole forest, with its merged row, and no other appears |
| `ForestLaws.ForestOfIsForest` | src/fabric_context/tree.rs:6-48 | shape: nested nodes sit under the node named by their reference's parent, top-level nodes are those without a present parent, siblings are strictly ascending, the root is never nested |
| `ForestLaws.ForestUnique` | src/fabric_context/tree.rs:6-48 | shape and conservation determine the forest: a forest has both if and only if it is the one that is built |
| `ForestLaws.MergedRowSumsUp` | src/fabric_context/tree.rs:63-86 | in the merged row of a reference every field is the last non-blank one that the input says, at any depth and in any number of copies, and the omitted count is the largest |
| `ForestLaws.SameHistoriesSameForest` | src/fabric_context/tree.rs:10-61 | the forest depends only on the rows said about each reference, not on nesting or interleaving |
| `ForestLaws.PermutationSameForest` | src/fabric_context/tree.rs:10-61 | with distinct references, every permutation and every re-nesting of the input gives the same forest |
| `ForestLaws.ArrangeIdempotent` | src/fabric_context/tree.rs:6-93 | arranging a forest's own root and top-level blocks gives that forest back |
| `ForestLaws.RedeliverySameForest` | src/fabric_context/tree.rs:50-86 | delivering the whole block list a second time changes nothing, duplicates included |
| `Arrange.Collect` | src/fabric_context/tree.rs:50-86 | flattening one nested block leaves childless nodes whose rows are those of its pre-order absorbed one after the other |
| `Arrange.CollectAll` | src/fabric_context/tree.rs:10-13 | the same over the whole list of blocks |
| `Arrange.SortChildren` | src/fabric_context/tree.rs:88-93 | the block with its children sorted by id at every level |
| `Arrange.GatheredAll` | src/fabric_context/tree.rs:18-36 | a node that has gathered the finished trees of all its kids, in any order, becomes the tree of its reference once sorted |
| `Arrange.PushStep` | src/fabric_context/tree.rs:28-35 | the loop invariant: moving one finished node under its parent keeps every remaining node's gathered children exact |
| `Arrange.AttachOne` | src/fabric_context/tree.rs:18-36 | one turn keeps that invariant; both lookups that the source expects to succeed do |
| `Arrange.AttachAll` | src/fabric_context/tree.rs:15-36 | afterwards exactly the references without a present parent are left, each carrying its finished tree |
| `Arrange.SortTop` | src/fabric_context/tree.rs:42-46 | the top level is the ascending list of finished trees |
| `Arrange.ArrangeChannels` | src/fabric_context/tree.rs:6-48 | for every list of nested and repeated blocks the result is the declarative forest, which `ForestUnique` characterises |
| `ForestLaws.RootIsWorkspace` | src/fabric_context/tree.rs:17-41 | the returned root is present if and only if some block, at any depth, has the id slash plus workspace; it has that id, and no top-level block does |
| `ForestLaws.LaterBlockNames` | src/fabric_context/tree.rs:10-13 | a later block has the last word about its name |
| `ForestLaws.NestedBlockNames` | src/fabric_context/tree.rs:50-61 | a nested block with the same reference is heard after the block it is nested in |
| `ChannelRefs.FormatChannelRef` | src/channel_ref.rs:35-42 | the loop spells slash, workspace and one slash segment per descendant |
| `ChannelRefs.WalkToRoot` | src/channel_ref.rs:7-33 | the bounded loop with its early return, break and fall-through is the recursive walk, for any bound |
| `ChannelRefs.FullChannelRef` | src/channel_ref.rs:3-33 | the same with the bound 32 |
| `ChannelRefs.WalkReachesRoot` | src/channel_ref.rs:11-31 | below the bound the walk ends at the root and has spelled the whole path |
| `ChannelRefs.WalkRunsOut` | src/channel_ref.rs:11-31 | at or past the bound it keeps the channel's own id and only the deepest segments |
| `ChannelRefs.RefSpells` | src/channel_ref.rs:7-42 | the reference of every channel with complete ancestry, in both cases |
| `ChannelRefs.RefExtends` | src/channel_ref.rs:7-42 | below the bound a reference is the parent's extended by the channel's segment, whatever the names |
| `ChannelRefs.RefOverflows` | src/channel_ref.rs:11-33 | at or past the bound it is the channel's own id followed by the deepest segments |
| `ChannelRefs.CutOfExtension` | src/fabric_context/tree.rs:22-24 | cutting an extended reference gives it back if and only if the extension has no slash of its own |
| `ChannelRefs.DeepCutNamesNobody` | src/channel_ref.rs:7-42 | at or past the bound the cut equals the reference of no channel with complete ancestry |
| `ChannelRefs.CutNamesParent` | src/channel_ref.rs:7-42 | for every bound: cutting at the last slash names the parent if and only if the level is below the bound and the channel's own segment has no slash |
| `ChannelRefs.FullRefCutNamesParent` | src/channel_ref.rs:3-33 | with the bound of the source: if and only if the channel is at most 31 levels down and its own segment has no slash |
| `ChannelRefs.TooDeepIsMisnamed` | src/channel_ref.rs:3-33 | a well-named store of 33 or more channels in a chain, whose deepest reference does not name its parent when cut |
| `ChannelRefs.SlashedNameIsMisread` | src/channel_ref.rs:23-28 | a store of two channels, the lower one named with a slash, whose cut does not name its parent |
| `ChannelRefs.RefInjective` | src/channel_ref.rs:7-42 | with slash-free segments and distinct siblings, different channels have different references, at every level |
| `ChannelRefs.KidsAreChildren` | src/fabric_context/tree.rs:22-35 | among the references of any set of channels with complete ancestry, the kids of a channel's reference are the references of its children below the bound |
| `ChannelRefs.ForestRebuildsStore` | src/fabric_context/tree.rs:17-36 | arranging the references of any such set rebuilds the store's parent relation below the bound: a channel is nested exactly when its parent is in the set and its level is below the bound, and deeper ones are top-level |
| `ChannelRefs.WorkspaceIsRoot` | src/fabric_context/tree.rs:17-41 | if the workspace's own channel is a root of the store and in the set, its block is the forest's root and not at the top level |
| `ChannelRefs.RefOfOrphan` | src/channel_ref.rs:12-18 | the reference of a channel with a missing ancestor: its own id alone, or its own id, the missing id and the known segments |
| `ChannelRefs.RefOfDeep` | src/channel_ref.rs:11-33 | the reference of a channel with at least as many known ancestors as the bound, cycles included |
| `ChannelRefs.RefCases` | src/channel_ref.rs:7-33 | complete ancestry below the bound, a missing ancestor below it, and enough ancestors to reach it are all the cases there are |
| `ChannelRefs.SegmentMeans` | src/state.rs:49-58 | a segment is the trimmed name, or the channel id where that is empty |
| `Admission.Store.ReplaceRoleRows` | src/state/members.rs:62-111 | an older list is ignored; otherwise the role's rows are replaced, a listed admin always wins and a listed member keeps an existing row |
| `Admission.Store.InsertEvent` | src/state/events.rs:38-93 | an event whose coordinate has a row at least as new is refused, a newer one replaces that coordinate's rows, a regular one is appended, a taken id is ignored, and the answer is whether it was stored |
| `Admission.Store.RouteChat` | src/fabric/nip29/materializer.rs:176-251 | exactly the mentioned, reachable sessions other than the author get an inbox row, and the wake flag is set exactly if a row is new |
| `Admission.Store.AcceptChat` | src/fabric/admission.rs:123-145 | the chat enters log, messages and inbox, and nothing else changes |
| `Admission.Store.MaterializeChatMessage` | src/fabric/admission.rs:15-44 | the three verdicts with their effect on log, messages, inbox and quarantine |
| `Admission.Store.HeldChats` | src/state/quarantine.rs:68-79 | the channel's quarantined chats, each once, by creation time and id |
| `Admission.Store.ReplayQuarantined` | src/fabric/admission.rs:46-109 | the row-by-row loop has the effect of one simultaneous decision on all held chats by the current roster |
| `Admission.ReplayOneMore` | src/fabric/admission.rs:72-107 | deciding one more held chat does not change any other decision |
| `Admission.Store.Materialize` | src/fabric/mod.rs:59-142 | each event has the effect of `Step`, the wake flag is set exactly if the inbox grew, and the event is tailed exactly if it is an accepted chat or a kind-1 note in a channel |
| `AdmissionRuns.QuarantineIsSound` | src/fabric/admission.rs:15-121 | on every run, whatever is quarantined arrived, and its channel is not hydrated or has an empty id |
| `AdmissionRuns.VerdictOnRun` | src/fabric/admission.rs:15-121 | on every run: accepted if and only if the channel is hydrated and some arrival was decided, at the later of arrival and hydration, while the author was a member; quarantined if and only if it arrived and the channel is not hydrated; so never both, and what is neither was rejected |
| `AdmissionRuns.InboxOnRun` | src/fabric/nip29/materializer.rs:176-251 | on every run an inbox row of a chat exists if and only if its target is mentioned, is not the author, and some arrival was decided while the author was a member and the target could be reached |
| `AdmissionRuns.HydratedChannelIsDrained` | src/fabric/mod.rs:73-92 | after every event of every run a hydrated channel holds nothing in quarantine |
| `AdmissionRuns.BlankChannelNeverDrains` | src/fabric/admission.rs:111-115 | chat of the empty channel id is quarantined exactly if it arrived, and is never accepted |
| `AdmissionRuns.EntersAsMember` | src/fabric/admission.rs:111-145 | a message or an inbox row appears only in a step after which its channel is hydrated and its author is a member |
| `AdmissionRuns.ReactionsOnRun` | src/fabric/mod.rs:125-131 | on every run the reactions are exactly the decodable ones that arrived |
| `AdmissionRuns.ReactionIsPassive` | src/fabric/mod.rs:125-131 | a decodable reaction changes neither log, messages, inbox, quarantine, roster nor routes |
| `AdmissionRuns.LogOnRun` | src/fabric/mod.rs:95-139 | at regular kinds the log holds exactly the accepted chats and the events that are cached without admission |
| `AdmissionRuns.LogIsNamed` | src/fabric/nip29/materializer.rs:165-167 | every logged row is that of an event that arrived |
| `AdmissionRuns.NewestAt` | src/state/events.rs:39-76 | the first arrival of the greatest time at a coordinate, or none if nothing arrived there |
| `AdmissionRuns.SlotOnRun` | src/state/events.rs:38-93 | on every run a replaceable or addressable coordinate holds exactly one row if anything arrived there, that of the first arrival of the greatest time, and no other |
| `AdmissionRuns.ReplacesEachOther` | src/state/events.rs:26-32 | two notes replace each other if and only if kind and author agree and the kind is 3 or in 10000-19999, or in 30000-39999 with equal `d` tags |
| `AdmissionRuns.ReplacementForgetsOrder` | src/state/events.rs:38-93 | with distinct times the same notes leave the same id and row in whatever order they arrive |
| `AdmissionRuns.SettledRosterDecides` | src/fabric/admission.rs:15-121 | if the roster does not change after hydration, exactly the arrived chats by members are accepted |
| `AdmissionRuns.OneTruthRoster` | src/state/members.rs:62-111 | while all snapshots agree, the roster is the union of the lists received, in whatever order and number they came |
| `AdmissionRuns.ArrivalOrderDoesNotMatter` | src/fabric/mod.rs:73-92 | any two interleavings of the same chats with any copies of the two snapshots accept the same chats: those by listed authors |
| `AdmissionRuns.StaysHydrated` | src/state/members.rs:141-149 | hydration is never undone by any event |
| `AdmissionRuns.HydratedOnRun` | src/state/members.rs:141-149 | on every run a channel is hydrated if and only if an admin and a member snapshot of it were seen |
| `AdmissionRuns.SetsOnRun` | src/state/members.rs:69-86 | the stored time of a role set is the greatest one seen |
| `AdmissionRuns.RosterOnRun` | src/state/members.rs:62-216 | on every run, local grants and removals included: admin rows are exactly the keys whose last deciding list or write affirms them as admin, and a key has a row exactly if it is such a key, or its last deciding list or write affirms it as member and no admin list since demoted it |
| `AdmissionRuns.StandsIsListed` | src/state/members.rs:62-111 | where only snapshots touch the roster, the affirmed keys are exactly those of the latest applied list |
| `AdmissionRuns.RosterIsUnion` | src/state/members.rs:62-111 | where only snapshots touch the roster, it is the union of the two latest lists if and only if no listed member is left demoted |
| `AdmissionRuns.DemotionLaw` | src/state/members.rs:62-111 | a new admin list keeps the roster the union of the latest lists if and only if it names every old admin whom the member list names |
| `AdmissionRuns.MemberListRestoresUnion` | src/state/members.rs:62-111 | a new member list always restores that union |
| `AdmissionRuns.DemotedMemberIsRejected` | src/state/members.rs:62-111 | a three-event run after which a listed member's chat is rejected |
| `Cursor.Sessions.AdvanceCursorIfCurrent` | src/state/session_cursor.rs:5-15 | the cursor moves exactly if it still has the expected value, and no other session's does |
| `Cursor.Sessions.DriveCursorRequest` | src/daemon/server/cursor.rs:7-20 | a window is claimed only by a working hook whose clock is ahead of the row it read and still owns |
| `Cursor.ClaimsFormAChain` | src/daemon/server/cursor.rs:3-20 | for every interleaving of reads and attempts by any hooks, a session's claimed windows are contiguous, without gap or overlap, from 0 to its cursor |
| `Cursor.ChainPartitions` | src/state/session_cursor.rs:5-15 | every moment of the covered span lies in exactly one window of a chain, and no other moment in any |
| `Cursor.ReadThenClaim` | src/daemon/server/cursor.rs:7-20 | a hook that reads a row and attempts with a later clock claims exactly the window from the cursor to its clock |
| `Cursor.StaleClaimsNothing` | src/daemon/server/cursor.rs:13-19 | a hook that is idle, not later, or whose row has moved claims nothing and moves nothing |
| `Reactions.GroupsMean` | src/fabric_context/reactions.rs:80-101 | a group exists exactly for the message and emoji pairs that count in the window; it has exactly their reactors, once each, and the latest time |
| `Reactions.SnippetOfFirst` | src/fabric_context/reactions.rs:91-96 | a group shows the snippet of the first reaction that counts in it |
| `Reactions.GroupReactions` | src/fabric_context/reactions.rs:69-125 | the rows are the first eight groups in time, snippet and emoji order, and rows plus omitted is the number of groups |
| `Reactions.CapDropsTheNewest` | src/fabric_context/reactions.rs:102-123 | a group is shown or comes no earlier than every shown one; with at most eight groups all are shown |
| `Reactions.RowsInOrder` | src/fabric_context/reactions.rs:102-123 | every row shows its group's emoji, snippet, latest time and sorted reactors, and rows come by time, then snippet, then emoji |
| `Reactions.ShownOrLater` | src/fabric_context/reactions.rs:109-123 | a group is shown, or eight rows are and none of them is later |
| `Reactions.ReactionReportedOnce` | src/fabric_context/reactions.rs:66-101 | for every interleaving of hooks, a captured reaction dated inside the covered span counts in exactly one claimed window and in exactly one group there |
| `Presence.PresenceRows` | src/fabric_context/assemble.rs:122-140 | nothing in the full view; otherwise one row per reported status, in order |
| `Presence.OfflineAt` | src/session_state.rs:83-95 | the second at which an unrenewed lease counts as offline is the one after its expiration, unless the status changed later |
| `Presence.OfflineIffWindowContains` | src/fabric_context/assemble.rs:142-180 | a delta shows the peer offline if and only if its window contains that second |
| `Presence.OfflineReportedOnce` | src/session_presence.rs:106-130 | over any chain of delta windows the transition is reported exactly once if that second is covered, and never otherwise |
| `Presence.OfflineReportedOnceByHooks` | src/daemon/server/cursor.rs:7-20 | the same for the windows that any interleaving of hooks claims |
| `Presence.FailureReportedOnce` | src/fabric_context/assemble.rs:154-172 | over any chain of delta windows a peer's native failure is reported exactly once if its second is covered, and never otherwise |
| `Presence.LiveChangeIffWindowContains` | src/fabric_context/assemble.rs:142-192 | a live peer's row appears if and only if its change falls in the window, and shows state, since, activity or title, and slug or stored reference |
| `Presence.LiveChangeReportedOnce` | src/fabric_context/assemble.rs:142-180 | over any chain of delta windows in which the lease stays live, the change is reported exactly once if covered, and never otherwise |
| `Presence.ExpiredRow` | src/session_presence.rs:106-130 | an expired lease is shown as offline, by its title, since the second after it expired |
| `Presence.NothingToTell` | src/fabric_context/assemble.rs:163-172 | no row about oneself, nor about a peer with neither text nor failure |
| `Presence.RowsInOrder` | src/fabric_context/assemble.rs:131-139 | the rows of a list of statuses are those of its parts in order |
| `Messages.RecentCluster` | src/fabric_context/assemble.rs:260-276 | at most 30 events are returned as they are; more give the longest suffix in time and id order with at most 30 rows and no gap over 20 minutes |
| `Messages.MessageRows` | src/fabric_context/assemble.rs:209-258 | the rows render what is kept and forced, in order; the omitted count is exactly what the cluster cut and is zero in a delta |
| `Messages.ForcedAreShown` | src/fabric_context/assemble.rs:228-236 | forcing keeps what was there, adds every missing id, adds nothing else and repeats no id |
| `Messages.RowsAreComplete` | src/fabric_context/assemble.rs:209-258 | the rows are sorted, hold every kept and every forced message and nothing else, and repeat no id if the bundle's ids are distinct |
| `Messages.DeltaShows` | src/fabric_context/assemble.rs:210-237 | a delta shows every event after the cursor and every forced id, and nothing else |
| `Messages.FullViewShows` | src/fabric_context/assemble.rs:210-237 | a full view shows, besides what is forced, only events of the last 14400 seconds, and all of them if there are at most 30 |
| `Messages.ClusterByNumbers` | src/fabric_context/assemble.rs:260-276 | of more than 30 events the last in time and id order are kept, at most 30, neighbours at most 1200 seconds apart, stopping only at 30 or at a longer gap |
| `GooseContext.BoundedUtf8` | src/goose_integration.rs:105-114 | the loop cuts at the last character boundary at or below 65536 |
| `GooseContext.BoundarySplits` | src/goose_integration.rs:110-113 | in valid text the boundaries are exactly the ends of valid prefixes |
| `GooseContext.ValidIsEncoded` | src/goose_integration.rs:95-114 | valid text is the RFC 3629 encoding of its characters, and is blank if and only if all of them are white space |
| `GooseContext.EncodedIsValid` | src/goose_integration.rs:105-114 | every encoding of scalar values is valid text |
| `GooseContext.BoundaryWithinThree` | src/goose_integration.rs:109-112 | a boundary is never more than three bytes back |
| `GooseContext.BoundedIsLongestValidPrefix` | src/goose_integration.rs:105-114 | the cut text is valid and is the longest valid prefix that fits |
| `GooseContext.PrependAfterCut` | src/goose_integration.rs:95-114 | cutting before prepending at least three bytes gives the same result as cutting only afterwards |
| `GooseContext.ContextFile.AppendDelta` | src/goose_integration.rs:95-103 | the file becomes the cut of delta, blank line and previous text, stays valid UTF-8 and within 65536 bytes |
| `GooseContext.ContextFile.SyncHookContext` | src/goose_integration.rs:57-73 | only the two context hooks write, and only a context that is not blank |
| `GooseContext.FaithfulStep` | src/goose_integration.rs:95-103 | one more hook keeps the file equal to the cut history if and only if the previous delta is not blank once cut or the new one fills the file |
| `GooseContext.FileIsCutHistory` | src/goose_integration.rs:95-114 | the file equals one cut of the whole newest-first history after every hook, if and only if no step forgets |
| `GooseContext.FileIsCutOfKept` | src/goose_integration.rs:95-114 | on every run the file is one cut of the newest deltas, up to the first older one that is blank once cut |
| `GooseContext.FileForgets` | src/goose_integration.rs:95-114 | the file equals one cut of the whole history if and only if all of it is kept or what is kept fills the file |
| `GooseContext.FileIsCutHistoryOfVisibleDeltas` | src/goose_integration.rs:57-114 | so it does on every run whose deltas fit or start with a visible character |
| `GooseContext.ForgettingStep` | src/goose_integration.rs:96-102 | when the previous text is taken for blank, dropping it shows if and only if the new delta is shorter than the cap |
| `GooseContext.LongBlankStartIsForgotten` | src/goose_integration.rs:95-103 | a two-delta history that is lost |
| `Conversation.DetectRootConversation` | src/channel_nudge.rs:140-230 | the loops over counts, sets and windows compute the declarative detector |
| `Conversation.JudgeConversation` | src/channel_nudge.rs:163-229 | the guards in their order are one conjunction, and the evidence describes exactly the qualifying exchange |
| `Conversation.CountAuthors` | src/channel_nudge.rs:163-166 | every author with the number of its messages, and no one else |
| `Conversation.CountAlternations` | src/channel_nudge.rs:200-203 | the number of adjacent messages by different authors |
| `Conversation.CollectCohort` | src/channel_nudge.rs:171-175 | the authors' participants in ascending key order, none lost, and their busy keys |
| `Conversation.CollectEngaged` | src/channel_nudge.rs:176-190 | authors and live participants who react to a relevant message |
| `Conversation.EngagedWithinAudience` | src/channel_nudge.rs:191-192 | authors are engaged and the engaged are live, so both maxima change nothing |
| `ConversationLaws.DetectionForgetsOrder` | src/channel_nudge.rs:140-230 | the verdict and its evidence depend on the order of neither messages, reactions nor participants |
| `ConversationLaws.ReactionsOnlySuppress` | src/channel_nudge.rs:180-198 | more reactions can only turn a detection into none; otherwise only the engaged count changes, upwards |
| `ConversationLaws.SilentOnlookersNeverSuppress` | src/channel_nudge.rs:150-198 | more live participants who neither speak nor react never suppress a detection and change only the audience |
| `ConversationLaws.CohortEngagedAudience` | src/channel_nudge.rs:191-211 | in every detection two or more speak, cohort, engaged and audience are in that order, and short or quick exchanges meet their stricter bars |
| `ConversationLaws.DetectionByNumbers` | src/channel_nudge.rs:147-211 | the exact condition: a root channel, two authors with two messages each, three changes of speaker, six messages or four for a narrow share, and 20 seconds or eight messages |
| `ConversationLaws.AlternationCount` | src/channel_nudge.rs:200-203 | the alternations are the positions whose author differs from the one before |
| `ConversationLaws.RelevantMeans` | src/channel_nudge.rs:150-161 | the relevant messages are those of substance by live participants, in time and id order |
| `ConversationLaws.EvidenceSays` | src/channel_nudge.rs:207-229 | the evidence counts audience, engaged, messages and alternations, and has the least time, the greatest time and the last id |
| `ConversationLaws.CohortSays` | src/channel_nudge.rs:171-217 | the cohort is exactly the speakers in key order, and the busy keys are those of its busy members |
| `ConversationLaws.LastEntryCounts` | src/channel_nudge.rs:150-154 | of several live entries with one key the last counts |
| `NudgeOffers.ChannelNudgeState.Consider` | src/channel_nudge.rs:83-119 | an offer is returned exactly if the caller is busy, holds none, is not cooling down and wins; the whole new session map |
| `NudgeOffers.ChannelNudgeState.CurrentOffer` | src/channel_nudge.rs:121-131 | exactly an unexpired offer is returned, and an expired one is dropped |
| `NudgeOffers.ChannelNudgeState.ClearOffer` | src/channel_nudge.rs:133-137 | only the caller's offer goes; its cooldown stays |
| `NudgeOffers.CallersAreIndependent` | src/channel_nudge.rs:82-138 | on every run a caller's session is what its own calls alone would have made it |
| `NudgeOffers.DrawsAreApart` | src/channel_nudge.rs:101-107 | on every run in time order two draws of one caller are at least 10 seconds apart |
| `NudgeOffers.OfferStays` | src/channel_nudge.rs:94-100 | an offer stays in place until it is cleared or has expired |
| `NudgeOffers.OffersAreApart` | src/channel_nudge.rs:83-119 | two offers to one caller with no clear between them are more than 120 seconds apart, saturation included |
| `NudgeOffers.StoredOfferIsLastDraw` | src/channel_nudge.rs:107-117 | a stored offer was made at the caller's last draw, with the caller busy and the full lifetime |
| `NudgeOffers.WinningRolls` | src/channel_nudge.rs:260-267 | with n busy participants a roll wins exactly if n squared times it is within the range |
| `NudgeOffers.DrawsAgain` | src/channel_nudge.rs:94-108 | a busy caller without an unexpired offer draws if and only if it never drew or its last draw is at least 10 seconds back |
| `NudgeOffers.ConsiderMeans` | src/channel_nudge.rs:83-119 | the caller's session after a call to consider, in all four cases, with 10 and 120 seconds and saturation |
| `NudgeOffers.LookAndClearMean` | src/channel_nudge.rs:121-137 | looking drops exactly an expired offer, clearing any, and neither touches the last draw |
| `DaemonCall.TryCall` | src/daemon/blocking.rs:139-212 | the phase label is honest: a failure is labelled as before the request exactly when no request was written, and a request is written only to a daemon of equal protocol |
| `DaemonCall.CallWithAttempt` | src/daemon/blocking.rs:33-69 | for every sequence of outcomes: at most five attempts, at most one request of a method not declared retryable, the result tells whether it was written, and the call returns v or is refused with m if and only if the attempt that ends it was answered so |
| `DaemonCall.AttemptMeans` | src/daemon/blocking.rs:139-212 | an attempt replies with v or is refused with m if and only if its request was answered so; it ends in a skew exit or a delivered failure under exact conditions |
| `DaemonCall.FirstFailureDecides` | src/daemon/blocking.rs:139-212 | the first step that fails decides the attempt and names its own error, and a newer daemon's error says so |
| `DaemonCall.EndsMean` | src/daemon/blocking.rs:43-66 | which attempts end the call and how, and which respawn the daemon |
| `TomlMerge.DeepMerge` | src/harness/codex_profile.rs:143-157 | the remove-and-insert loop, in any key order, computes the key-wise merge |
| `TomlMerge.MergeLookup` | src/harness/codex_profile.rs:143-157 | path by path: missed by the overlay keeps the base, cut by an overlay leaf leads nowhere, met is merged |
| `TomlMerge.PathCases` | src/harness/codex_profile.rs:143-157 | every path is in exactly one of those three cases |
| `TomlMerge.OverlayLeafSurvives` | src/harness/codex_profile.rs:143-157 | every overlay leaf is found at its path in the result |
| `TomlMerge.MergeIdempotent` | src/harness/codex_profile.rs:143-157 | applying the same overlay again changes nothing |
| `TomlMerge.CoveredIsForgotten` | src/harness/codex_profile.rs:143-157 | an overlay hides its base entirely if and only if it covers it |
| `TomlMerge.LayeringAssociative` | src/harness/codex_profile.rs:143-157 | merging three layers is associative if and only if no leaf sits between two tables of which the upper does not cover the lower |
| `TomlMerge.TableLeafTable` | src/harness/codex_profile.rs:143-157 | the smallest input on which it is not |
| `FirstSight.Dedup.FirstSight` | src/daemon/server.rs:288-308 | set and queue agree, the queue has no repeats and at most 4096 entries, and the answer is true exactly if the id is not among the last 4096 let through |
| `FirstSight.ReadmittedAfterCap` | src/daemon/server.rs:291-308 | an id is let through again if and only if more than the cap, its own last pass included, have been let through since that pass |
| `FirstSight.FirstIdPassesTwice` | src/daemon/server.rs:291-308 | for every cap, a run of one id more than the cap and then the first again, which passes a second time |
| `FirstSight.FewIdsPassOnce` | src/daemon/server.rs:291-308 | with at most as many different ids as the cap, each passes exactly at its first occurrence |
| `Bundles.FreeName` | src/harness/config.rs:163-170 | the base name if free, otherwise the least free suffix from 2, within one more candidate than there are bundles |
| `Bundles.Pigeonhole` | src/harness/config.rs:166-169 | taken candidates cannot outnumber the bundles, so the open-ended search ends |
| `Bundles.CandidatesDiffer` | src/harness/config.rs:166-167 | different suffixes give different names |
| `Bundles.HarnessesConfig.EnsureBundle` | src/harness/config.rs:146-173 | the first equal bundle in name order is reused, otherwise one is added under a free name; no existing entry changes; only a blank name fails |
| `Bundles.HarnessesConfig.ResolveOrCreateHosted` | src/harness/config.rs:91-126 | fails exactly for an unsupported or ambiguous cell and then changes nothing; afterwards the returned bundle is the only one of its cell |
| `Bundles.HarnessesConfig.ResolveTwice` | src/harness/config.rs:91-126 | asking again returns the same name and creates nothing |
| `Bundles.HostedCells` | src/harness/driver.rs:93-221 | the eleven cells that can be hosted, and names their bundles get |
| `AgentCatalog.ValidateUniqueSources` | src/agent_catalog.rs:252-275 | accepted exactly if no two profiles share scope text, harness and slug |
| `AgentCatalog.SelectProfiles` | src/agent_catalog.rs:145-165 | the loop computes the selection that the following rows characterise |
| `AgentCatalog.SelectionMeans` | src/agent_catalog.rs:145-165 | something is selected exactly if a profile applies, and a global one only if no workspace profile applies |
| `AgentCatalog.SelectionUnique` | src/agent_catalog.rs:145-165 | with unique sources, a profile is selected if and only if it applies and is not overridden by a workspace profile |
| `AgentCatalog.SelectionForgetsOrder` | src/agent_catalog.rs:145-165 | with unique sources the selection does not depend on list order |
| `AgentCatalog.ImplementationsMean` | src/agent_catalog.rs:167-173 | a harness implements a slug exactly if an applicable profile says so |
| `AgentCatalog.Resolve` | src/agent_catalog.rs:200-235 | without a preferred harness a slug resolves exactly if one harness implements it, with one exactly if that harness does; what is found is the selected profile |

## Left out

- `Admission.Store.Materialize`: states whether an event is tailed, not the enriched event; kinds 0, 39000 and 30315 have caches that admission never reads and are not events of the model.
- Other writers of the store: publishing seeds outbound chat straight into log and messages (src/fabric/provider/chat.rs:158), and retention deletes old log rows and delivered inbox rows (src/state/retention.rs:36-45); the run theorems are about `materialize` and roster writes.
- `Admission.Store.AcceptChat`: message bodies, recipient edges and slug enrichment are not modelled, and ids stand for rows.
- Store errors and quarantined rows with corrupt JSON: every store call succeeds, so the error branches of `src/fabric/admission.rs` do not occur.
- `ChannelRefs.CutNamesParent`: takes group ids to be free of slashes, as NIP-29 restricts them to letters, digits, `-` and `_`; the store does not check it.
- Event ids: the run theorems for one chat or one coordinate take an id to name one event, since it is a hash of the event.
- SQLite, the relay engine, sockets, signing, clocks and randomness: parameters, maps and sets stand for them.
- `Reactions.ReactionReportedOnce`: that the hook which claims a window has captured the reaction is a hypothesis, since capture is limited in number and a late arrival can miss its window.
- Rendering before a claim: `turn_start` renders before it claims its window (src/daemon/server/turns.rs:92); the windows of the theorems are the claimed ones.
- Exactly-once for chat messages: `message_rows` has no upper bound at `now`, so it is not claimed.
- Message, member, presence and reaction rows: ages are kept as times, snippet cutting and the sender, recipient and truncation fields are dropped, and rows inside channel blocks are opaque text.
- `ConversationLaws.DetectionForgetsOrder`: needs distinct message ids and distinct live keys, as otherwise the source keeps input order among equal ids and the last entry of a key.
- `is_substantive_message`, `render_nudge` and the `usize` saturation of the detector's small sums: whether a message is substantive is a field.
- `DaemonCall.CallWithAttempt`: error texts are reduced to whether they contain "is newer than this binary"; sleeps, timeouts' lengths and the work of `spawn_if_absent` are not modelled.
- Goose paths: path validation and the atomic rename of the context file are not modelled.
- TOML arrays and scalars: both are leaves, as the merge treats them alike.
- `AgentCatalog.SelectionForgetsOrder`: workspace roots are texts; component-wise path equality and lossy conversion are not modelled, nor are use criteria and modification times.
- In-place node mutation in `src/fabric_context/tree.rs`: the map of nodes and the blocks are values that the methods reassign, so aliasing is not captured.
- Command line, installers, terminal UI, PTY control, status line, reconcilers and RPC correlation: outside these policies.
