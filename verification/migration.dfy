/**
 The script's main sequence in direct mode: find the destination project,
 then run the ticket phase if enabled, then the wiki phase if enabled
 (with `WikiStart`'s attachments listed under its own name). An
 unknown project stops everything; a failed ticket phase stops the script
 before the wiki phase.
 */
module Migration {
  import opened Common
  import opened Settings
  import opened Issues
  import opened Wiki

  /** Everything performed, and the error that ended the run early, if any. */
  datatype Outcome = Outcome(issueOps: seq<Op>, wikiOps: seq<WikiOp>, error: Option<MigrationError>)

  /**
   One run: `projectOf` is the destination's project lookup by name,
   absent when no such project exists.
   */
  function Migrate(cfg: Config, m: Markup, projectOf: string -> Option<int>, tickets: TicketSource,
                   wiki: WikiSource, alloc: Allocator): (o: Outcome)
    ensures projectOf(cfg.projectName).None? ==> o == Outcome([], [], Some(ProjectNotFound(cfg.projectName)))
    ensures o.error.None? <==> projectOf(cfg.projectName).Some?
                               && (cfg.migrateIssues ==> ConvertIssues(cfg, m, tickets, alloc).error.None?)
    ensures o.wikiOps != [] ==> o.error.None? && cfg.migrateWiki
    ensures projectOf(cfg.projectName).Some? ==>
              o.issueOps == (if cfg.migrateIssues then ConvertIssues(cfg, m, tickets, alloc).ops else [])
    ensures projectOf(cfg.projectName).Some? && cfg.migrateIssues ==> o.error == ConvertIssues(cfg, m, tickets, alloc).error
    ensures o.error.None? ==> o.wikiOps == (if cfg.migrateWiki then ConvertWiki(cfg, m, wiki) else [])
  {
    match projectOf(cfg.projectName)
    case None => Outcome([], [], Some(ProjectNotFound(cfg.projectName)))
    case Some(_) =>
      var run := if cfg.migrateIssues then ConvertIssues(cfg, m, tickets, alloc) else IssueRun([], None);
      if run.error.Some? then Outcome(run.ops, [], run.error)
      else Outcome(run.ops, if cfg.migrateWiki then ConvertWiki(cfg, m, wiki) else [], None)
  }
}
