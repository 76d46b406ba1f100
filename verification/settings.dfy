/**
 The run configuration and the opaque markup collaborators, passed
 explicitly instead of being read from `migrate.cfg` at import time.
 */
module Settings {
  import opened Common
  import opened Identity

  /**
   The settings the core reads (direct mode): `overwrite`, the identity
   table with its default user, the `[issues]` switch and optional
   `only_issues` allow-list, and the `[wiki]` switch, excluded-author list (a
   comma-separated string, as configured) and target directory.
   */
  datatype Config = Config(
    projectName: string,
    overwrite: bool,
    users: UserMap,
    migrateIssues: bool,
    onlyIssues: Option<seq<int>>,
    migrateWiki: bool,
    excludeAuthors: string,
    targetDirectory: string)

  /**
   The markup collaborators, left uninterpreted: `fixSyntax` is the
   changeset-reference rewrite, `convert(text, base)` is the Trac-to-Markdown
   converter called with its third argument `False` (issues, notes,
   milestones) and `convertPage(text, base)` the same converter called with
   its default third argument (wiki pages).
   */
  datatype Markup = Markup(
    fixSyntax: string -> string,
    convert: (string, string) -> string,
    convertPage: (string, string) -> string)

  /** Ticket descriptions and comments: rewritten, then converted under `/issues/`. */
  function RenderIssueText(m: Markup, text: string): string {
    m.convert(m.fixSyntax(text), "/issues/")
  }

  /** Milestone descriptions: rewritten, then converted under `/milestones/`. */
  function RenderMilestoneText(m: Markup, text: string): string {
    m.convert(m.fixSyntax(text), "/milestones/")
  }
}
