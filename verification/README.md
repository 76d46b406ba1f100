# trac-to-gitlab migration core, modelled in Dafny

`migrate.py` moves a Trac project into GitLab in two phases. These are modelled in direct mode, where the script writes straight into GitLab's database.

The ticket phase (`convert_issues`):
- Under `overwrite`, it clears the project's issues.
- It creates one GitLab milestone per Trac milestone and records each id.
- It walks the tickets in id order, skipping those a non-empty `only_issues` allow-list leaves out.
- Each ticket is classified into a GitLab state and an ordered list of labels.
- The owner, the reporter and every comment author are resolved through the `usernames` table, falling back to `default_user`.
- The issue is created with the ticket id as iid under `overwrite`, and with a fresh destination iid otherwise.
- The change log becomes notes: a comment becomes a note when it has text or when an attachment entry came before it with no comment in between, and the note then carries that attachment.
- A ticket naming a milestone the tracker did not list stops the script (the `KeyError` at line 247).

The wiki phase (`convert_wiki`):
- It skips pages whose author is in the comma-separated `exclude_authors` list.
- It renames `WikiStart` to `home` and converts the page. As written, it then looks the attachments up under the new name; the model's main sequence uses the corrected lookup under the page's own name (see Findings).
- It saves each attachment under its base name and rewrites links to the full path into links to the base name.
- It appends an "Attached files" section listing the attachments the page does not link to.
- It saves the page.

The main sequence looks the project up, then runs the enabled phases in order.

Every effect on GitLab is an operation value. A phase is a pure function from its inputs to the sequence of operations it performs, plus the error that stopped it, if any. The ticket phase is stated for any per-ticket rules, meaning how a ticket becomes an issue and its notes; `ConvertIssues` applies it with the migration's own rules. Modules follow the script's structure:

- `Common`: Option, Result and the two fatal errors.
- `Text`: Python's `split`, `join`, `strip`, `in`, `replace`, `split('/')[-1]` and `os.path.dirname`.
- `Identity`: the user table.
- `Settings`: the configuration, and the markup converters as opaque functions.
- `Classifier`: the label and state table.
- `History`: the change-log walk.
- `Milestones`: the milestone phase and the name-to-id map.
- `Issues`: ticket selection, one ticket, and the ticket phase.
- `Wiki`: the wiki phase.
- `Migration`: the main sequence.

The collaborators the model cannot see are passed in as parameters:
- Trac's XML-RPC answers: `TicketSource`, `WikiSource`.
- The destination's project lookup: `projectOf`.
- The ids the destination allocates. `Allocator` gives the `k`-th created milestone or issue its id.
- `trac2down.convert` and `fix_wiki_syntax`: `Markup`.

## Model

| member | source | states |
|---|---|---|
| Classifier.PriorityLabels | migrate.py:158-163 | `high` and `low` give one label each, `medium` and anything else give none, as the priority table says |
| Classifier.ResolutionLabels | migrate.py:165-177 | an active ticket (`""`), `fixed` and unknown resolutions give no label; the four other resolutions give the label the table assigns |
| Classifier.VersionLabels | migrate.py:179-183 | at most one label, present iff the version is non-empty and neither `trunk` nor `dev`, and then it is `release-<version>` |
| Classifier.ComponentLabels | migrate.py:195-197 | an empty component gives no label; otherwise one stripped label per comma-separated piece, in order, none containing a comma |
| Classifier.StatusEffects | migrate.py:199-213 | `new`/`assigned` open, `reopened` reopens, `closed` closes; `accepted`/`reviewing`/`testing` leave the state empty and add the status as a label; a status is known iff it is one of these seven |
| Classifier.Classify | migrate.py:150-213 | the labels are priority, resolution, release, components and status labels, concatenated in that order; the state comes from the status alone; the status is flagged unknown iff it is in neither table |
| Classifier.LabelsRoundTrip | migrate.py:222 | for a comma-free version and a non-empty label list, splitting the comma-joined labels field at commas gives back the label list |
| Classifier.TwoComponents | migrate.py:195-197 | the component string `a, b` of two unpadded, comma-free names gives exactly the labels `a` and `b` |
| Classifier.ClassifyNewHighPriorityTicket | migrate.py:158-213 | a new, high-priority, unresolved ticket of version 2.1 with components `a, b` is opened with labels `high priority`, `release-2.1`, `a`, `b` |
| Identity.Resolve | migrate.py:236-239 | a listed user maps to its table entry and any other user to the default user, so the result is always a table value or the default |
| Identity.Assignee | migrate.py:225-229 | there is no assignee iff the owner is empty; a listed owner is assigned to their table entry and an unlisted owner to the default user |
| History.StepTable | migrate.py:254-279 | one entry emits a note iff it is a comment with text or with an attachment pending; after a note the walk is idle; an attachment becomes the pending one; any other entry changes nothing |
| History.PendingAtCharacterized | migrate.py:253-259 | the attachment pending at a position is the nearest earlier attachment with no comment in between, and one is pending iff such an attachment exists |
| History.NotesMatchDue | migrate.py:252-279 | the notes of a change log are, in log order, one per comment that has text or follows a pending attachment; each note carries that comment's rendered text, resolved author and time, and the file name of the pending attachment |
| History.WalkAppend | migrate.py:254-279 | walking a concatenated log is walking the first part, then the second part from the state the first left |
| History.TrailingEntryEmitsNothing | migrate.py:256-260 | a non-comment entry at the end of a log adds no note; in particular an attachment no comment follows is not migrated |
| History.NotesComeFromComments | migrate.py:260-271 | every note is the note of some comment entry of the log |
| History.AtMostOneNotePerComment | migrate.py:260 | a log never yields more notes than it has comment entries |
| History.AttachmentThenEmptyComment | migrate.py:256-273 | an attachment followed by an empty comment gives exactly one note, with empty rendered text, carrying the file |
| History.PlainComment | migrate.py:260-271 | a comment with text and no attachment before it gives one note without attachment |
| History.LaterAttachmentWins | migrate.py:256-259 | of two attachments in a row, the comment that follows carries the second and the first is dropped |
| Milestones.ConvertMilestone | migrate.py:123-133 | the GitLab milestone has the Trac name as title, the rendered description and the due date, and is active iff the completion field reads `0` |
| Milestones.RecordKeys | migrate.py:121-135 | the id-recording loop keeps every earlier key and adds exactly the milestone names still to come |
| Milestones.RecordLastWins | migrate.py:135 | a name is left mapped to the id of its last creation |
| Milestones.MilestoneIdsComplete | migrate.py:121-135 | after the milestone loop the map's keys are exactly the listed names, and each name maps to the id returned by its last creation |
| Milestones.LookupMilestone | migrate.py:245-248 | no milestone for an absent or empty field or a recorded id of 0; failure with `UnknownMilestone` iff a non-empty name is missing from the map; otherwise the recorded id |
| Milestones.LookupFailsIffUnlisted | migrate.py:245-248 | a ticket's milestone lookup fails iff the ticket names a non-empty milestone the tracker did not list |
| Issues.SelectTickets | migrate.py:142-146 | only wanted tickets are selected, and with an absent or empty allow-list every ticket is, in query order |
| Issues.SelectionKeepsWanted | migrate.py:142-146 | a wanted ticket is selected as often as it is queried and an unwanted one never |
| Issues.SelectionKeepsOrder | migrate.py:139-146 | the selected tickets keep the query order |
| Issues.AllowListExample | migrate.py:144-146 | with allow-list `[5, 7]`, tickets 4 to 7 reduce to tickets 5 and 7 |
| Issues.ConvertTicket | migrate.py:218-248 | the issue's iid is the ticket id under overwrite and the allocated iid otherwise; it has an assignee iff the owner is non-empty; owner and reporter are resolved with the default-user fallback; state and labels come from the classifier; the description is the ticket's description rewritten and converted under `/issues/` |
| Issues.RulesFollowIidPolicy | migrate.py:240-243 | under the migration's rules every issue's iid is the ticket id under overwrite and the given iid otherwise |
| Issues.TicketOpsShape | migrate.py:142-279 | the ticket loop performs only issue creations and notes, and every note directly follows its own issue or another note of the same ticket |
| Issues.TicketOpsError | migrate.py:245-248 | the ticket loop stops with an error iff some ticket's milestone lookup fails, and then reports the first such milestone |
| Issues.IssuedAt | migrate.py:218-249 | the `k`-th expected creation converts the `k`-th ticket with the `k`-th allocated iid and its ticket's milestone id |
| Issues.TicketOpsCreations | migrate.py:142-249 | the issues the loop creates are exactly the expected ones, in order |
| Issues.IssuedIids | migrate.py:240-243 | the `k`-th created issue is for the `k`-th ticket, with the ticket id as iid under overwrite and the `k`-th allocated iid otherwise |
| Issues.ClearOnlyFirstUnderOverwrite | migrate.py:118-119 | whatever the per-ticket rules, the project is cleared exactly when overwrite is set, and then as the first operation and only there |
| Issues.MilestonesBeforeTickets | migrate.py:121-139 | whatever the per-ticket rules, all listed milestones are created, in listing order, before any issue is created or any note posted |
| Issues.NotesFollowIssues | migrate.py:249-278 | whatever the per-ticket rules, every note of the phase is posted right after its issue or another note of the same ticket |
| Issues.FailsIffUnlistedMilestone | migrate.py:245-248 | whatever the per-ticket rules, the phase fails iff a selected ticket names a non-empty milestone the tracker did not list |
| Issues.NumberingUnderIidPolicy | migrate.py:142-249 | for rules that number by ticket id under overwrite and by the given iid otherwise, a completed phase creates one issue per selected ticket, in query order, with those iids |
| Issues.SelectionAndNumbering | migrate.py:142-249 | the migration's completed ticket phase creates one issue per selected ticket, in query order, with the ticket id as iid under overwrite and the destination's `k`-th iid otherwise |
| Issues.PartialLoop | migrate.py:142-279 | whether or not the loop stops, it has performed, in order, the issue creation and notes of every ticket before the first with an unknown milestone, and nothing for that ticket or later ones |
| Issues.CompletedLoop | migrate.py:142-279 | a ticket loop in which every milestone lookup succeeds ends without error, having performed for each ticket in order its issue creation with the next iid and then its notes |
| Issues.RulesOfHead | migrate.py:218-279 | under the migration's rules a ticket yields its converted issue, then one note-posting per note the change-log walk derives from that ticket's change log |
| Issues.CompletedPhase | migrate.py:118-279 | whatever the per-ticket rules, a completed phase is the clearing step, the milestone creations, then each selected ticket's block in query order |
| Issues.CompletedRunFollowsChangeLogs | migrate.py:118-279 | a completed run of the migration clears, creates the milestones, then for each selected ticket in query order creates its issue (offered the `k`-th allocated iid, with its milestone id) followed by exactly the notes derived from that ticket's own change log |
| Issues.PartialPhase | migrate.py:118-279 | whatever the per-ticket rules, a phase has performed the clearing step, the milestone creations, then the blocks of the selected tickets before the first with an unknown milestone, which stay performed when it stops |
| Issues.RunFollowsChangeLogs | migrate.py:118-279 | any run of the migration, completed or stopped at an unknown milestone, has cleared, created the milestones, then for each selected ticket before the first with an unknown milestone created its issue followed by the notes derived from its own change log |
| Wiki.ExcludedAuthors | migrate.py:283 | the excluded authors are the configured string's comma-separated pieces, each stripped |
| Wiki.NothingConfigured | migrate.py:283-288 | with an empty setting only pages with an empty author are excluded |
| Wiki.TwoExcludedAuthors | migrate.py:283-288 | the setting `a, b` excludes exactly the authors `a` and `b` |
| Wiki.PageName | migrate.py:291-292 | every page but `WikiStart` keeps its name; the target is `home` iff the page is `WikiStart` or `home` |
| Wiki.AttachAllMatchesStages | migrate.py:296-304 | the attachment loop's text is every attachment relinked in listing order, and its unlinked names are exactly the base names of the attachments not linked right after their own relinking, in order |
| Wiki.ListedIffUnlinked | migrate.py:303-306 | some name is listed iff some attachment is unlinked |
| Wiki.SuffixCountsAsLinked | migrate.py:303 | an attachment whose base name ends a linked name followed by `)` counts as linked |
| Wiki.FlatPathsKeepText | migrate.py:299-302 | attachments stored without a directory leave the converted text unchanged |
| Wiki.RelinkedPathIsLinked | migrate.py:301-303 | a text holding a link to an attachment's full path links to the attachment's base name after the replace |
| Wiki.RelinkAbsent | migrate.py:301-302 | the replace leaves a text without a link to the attachment's full path unchanged |
| Wiki.FullPathLinkCountsAsLinked | migrate.py:296-304 | an attachment the page links to by full path, as the text stands at its turn, is not listed as unlinked |
| Wiki.UnreferencedAttachmentKeepsText | migrate.py:296-302 | the turn of an attachment the page does not link to by full path leaves the page text unchanged |
| Wiki.SectionListsEachEntry | migrate.py:306-310 | the section is empty iff nothing is listed; otherwise it starts with the `##### Attached files:` heading after a blank line, has one line per listed name and holds each name's `- [f](/uploads/migrated/f)` entry |
| Wiki.SectionEntriesInOrder | migrate.py:306-310 | the section is the heading, then the entries in listing order: each name's entry follows the entries of the names listed before it |
| Wiki.SaveAttachments | migrate.py:296-300 | one save per attachment, under its base name, in listing order |
| Wiki.PageOutcome | migrate.py:287-312 | a page is skipped iff its author is excluded; otherwise its attachments are saved, then the page is saved under its target name with the relinked text, followed by the section iff some attachment is unlinked |
| Wiki.WikiStartAttachmentsLost | migrate.py:291-296 | as written, `WikiStart`'s own attachments are not saved when Trac has none listed for `home`; listed under the page's own name, they are |
| Wiki.SavedPagesAreKept | migrate.py:286-312 | with either attachment listing, the pages saved are exactly the pages by non-excluded authors, each once, under their target names and in listing order |
| Wiki.AsWrittenAgreesWithoutWikiStart | migrate.py:286-296 | on a wiki without a `WikiStart` page, the phase as written and the corrected phase perform the same operations |
| Wiki.WikiStartPhaseAsWritten | migrate.py:286-312 | for a wiki holding only `WikiStart`, whose attachments are listed under that name and not under `home`, the phase as written saves the page alone, while the corrected phase saves the attachments first |
| Migration.Migrate | migrate.py:322-328 | a missing project stops everything; otherwise the ticket phase runs iff enabled, and when it runs its error, if any, is the run's error; the run ends without error iff the project exists and the enabled ticket phase did not fail; the wiki phase runs only then, and then its operations are exactly the wiki phase's when it is enabled and none otherwise |
| Text.JoinSplit | migrate.py:196 | joining the pieces of a split with the separator restores the string |
| Text.SplitJoin | migrate.py:222 | splitting the join of at least one separator-free piece gives the pieces back |
| Text.BasenameIsLastPiece | migrate.py:299 | the base name is the last piece of `path.split('/')` |
| Text.DirnameOfWikiPath | migrate.py:293 | the directory of a top-level wiki page path `/wikis/<name>` is `/wikis` |

## Left out

- XML-RPC, MultiCall and the GitLab connections are left out. Their answers and the destination's allocations are parameters.
- The binary content of attachments is not carried: an operation names the file to fetch.
- API mode is left out. That includes its forcing `overwrite` off (line 64) and its gitlab_api classes. Only direct mode sets authors, times, iids and attachments.
- The configuration file (ConfigParser, `ast.literal_eval`) is left out. The settings the phases read form the `Config` record.
- `trac2down.convert`, `trac2down.save_file` and `fix_wiki_syntax` are opaque. Conversion is a function parameter and saving is an operation value. The third argument of `convert` is represented by having two converter parameters, one for wiki pages and one for everything else.
- `convert_xmlrpc_datetime` is left out. Timestamps are carried as text and are not parsed.
- `dest.get_user_id` is a destination lookup: identities resolve to GitLab user names, not to database ids.
- `get_dest_milestone_id` (lines 110-114) is never called and is not modelled.
- Printing is left out. That includes the "unknown ticket status" warning, which is a flag on the classification.
- Text.Strip uses ASCII whitespace only. Python's `unicode.strip` also removes other Unicode spaces.
- Migration.Migrate runs the corrected wiki phase `Wiki.ConvertWiki`, which lists `WikiStart`'s attachments under `WikiStart` (see Findings). The phase as the code is written is `Wiki.ConvertWikiAsWritten`. The two agree on every wiki without a `WikiStart` page (`Wiki.AsWrittenAgreesWithoutWikiStart`).
- Classifier.LabelsRoundTrip requires a non-empty label list, because `"".split(',')` is `[""]`, not `[]`. It also requires a comma-free version, because a version with a comma produces a release label containing one.

Three behaviours of the code that a reader might expect to be otherwise. The model follows the code:
- One might expect every attachment to become a note. In the code (lines 256-279), an attachment entry that no comment follows yields no note.
- One might expect a page to be skipped only when excluded authors wrote all of it. In the code (line 288), a page is skipped when the single author that `getPageInfo` reports is excluded.
- One might expect attachments with the same base name to be kept apart. In the code (lines 298-300), they are saved under their bare base name, so they collide.

## Findings

| source | as written | input that shows it | evidently intended | confidence | as-written member | corrected member |
|---|---|---|---|---|---|---|
| migrate.py:291-296 | the page name is replaced by `home` before `listAttachments(name)` is called, so `WikiStart`'s attachments are looked up under `home` | a wiki whose `WikiStart` page has attachments and which has no `home` page with attachments | list the attachments of the Trac page itself (`WikiStart`), save the page as `home` | not executed | Wiki.ConvertPageAsWritten and Wiki.ConvertWikiAsWritten (shown by Wiki.WikiStartAttachmentsLost and Wiki.WikiStartPhaseAsWritten) | Wiki.ConvertPage and Wiki.ConvertWiki (Wiki.PageOutcome proves a page's attachments are those of the page itself; Migration.Migrate runs Wiki.ConvertWiki) |
