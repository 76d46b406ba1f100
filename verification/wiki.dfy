/**
 The wiki phase, `convert_wiki` in direct mode: every Trac wiki page not
 written by an excluded author is converted to Markdown, its attachments
 are saved under their base names, links to them are rewritten to those
 base names, and attachments the page never links to are listed in an
 "Attached files" section at its end.
 */
module Wiki {
  import opened Common
  import opened Text
  import opened Settings

  /** `wiki.getPageInfo`: the fields the migration reads. */
  datatype PageInfo = PageInfo(author: string, version: int, lastModified: Timestamp)

  /**
   What the tracker provides to the wiki phase: the page names in listing
   order, and per page name its info, its wiki text and the paths of its
   attachments (`wiki.listAttachments`).
   */
  datatype WikiSource = WikiSource(
    pages: seq<string>,
    info: string -> PageInfo,
    body: string -> string,
    attachments: string -> seq<string>)

  /**
   The effects of the wiki phase: saving an attachment under its base name
   (its content fetched by the full path), and saving a page with
   `trac2down.save_file`.
   */
  datatype WikiOp =
    | SaveAttachment(name: string, sourcePath: string)
    | SaveFile(text: string, name: string, version: int, lastModified: Timestamp, author: string, directory: string)

  // ---------------------------------------------------------------------------
  // page selection and naming

  /** The excluded authors: the configured string split at commas, each piece stripped. */
  function ExcludedAuthors(configured: string): (authors: seq<string>)
    ensures |authors| == |SplitOn(configured, ',')|
    ensures forall i :: 0 <= i < |authors| ==> authors[i] == Strip(SplitOn(configured, ',')[i])
  {
    StripAll(SplitOn(configured, ','))
  }

  /** With nothing configured, the list holds the empty name, so only pages without author are skipped. */
  lemma NothingConfigured(author: string)
    ensures author in ExcludedAuthors("") <==> author == ""
  {
    SplitWithoutSeparator("", ',');
    StripUnpadded("");
  }

  /** Two unpadded names written `a, b` exclude exactly those two authors. */
  lemma TwoExcludedAuthors(a: string, b: string, author: string)
    requires a != [] && !IsSpace(a[0]) && !IsSpace(a[|a| - 1]) && ',' !in a
    requires b != [] && !IsSpace(b[0]) && !IsSpace(b[|b| - 1]) && ',' !in b
    ensures author in ExcludedAuthors(a + ", " + b) <==> author == a || author == b
  {
    assert a + [','] + (" " + b) == a + ", " + b;
    SplitAtSeparator(a, " " + b, ',');
    SplitWithoutSeparator(" " + b, ',');
    StripUnpadded(a);
    StripLeadingBlank(b);
    assert ExcludedAuthors(a + ", " + b) == [a, b];
  }

  /**
   The name a page is saved under: `WikiStart` becomes `home`, every other
   page keeps its name; so a page already called `home` and `WikiStart` are
   saved under the same name.
   */
  function PageName(name: string): (target: string)
    ensures name != "WikiStart" ==> target == name
    ensures target == "home" <==> name == "WikiStart" || name == "home"
  {
    if name == "WikiStart" then "home" else name
  }

  // ---------------------------------------------------------------------------
  // attachment links

  /** The tail of a Markdown link into the migrated uploads: `migrated/<path>)`. */
  function LinkTarget(path: string): (target: string)
    ensures target != []
  {
    "migrated/" + path + ")"
  }

  /** Rewrites every link to an attachment's full path into a link to its base name. */
  function Relink(text: string, path: string): string {
    ReplaceAll(text, LinkTarget(path), LinkTarget(Basename(path)))
  }

  /** Whether a text links to an attachment: it holds `<basename>)` anywhere. */
  predicate LinksTo(text: string, path: string) {
    Contains(text, Basename(path) + ")")
  }

  /**
   How the attachment loop treats one attachment: `relink` rewrites the
   text's links to it and `linked` tells whether the text, as it stands
   then, links to it. The loop's structure does not depend on either.
   */
  datatype Linking = Linking(relink: (string, string) -> string, linked: (string, string) -> bool)

  /** The treatment `convert_wiki` applies. */
  const MigratedLinks: Linking := Linking(Relink, LinksTo)

  /** The page text after relinking the first `n` attachments, in listing order. */
  function Stage(lk: Linking, text: string, paths: seq<string>, n: nat): string
    requires n <= |paths|
    decreases n
  {
    if n == 0 then text else lk.relink(Stage(lk, text, paths, n - 1), paths[n - 1])
  }

  /** Whether the `k`-th attachment is reported as not linked to, judged right after its own relinking. */
  predicate Unlinked(lk: Linking, text: string, paths: seq<string>, k: nat)
    requires k < |paths|
  {
    !lk.linked(Stage(lk, text, paths, k + 1), paths[k])
  }

  /** The base names of the unlinked attachments from the `k`-th on, in listing order. */
  function ListedFrom(lk: Linking, text: string, paths: seq<string>, k: nat): seq<string>
    requires k <= |paths|
    decreases |paths| - k
  {
    if k == |paths| then []
    else (if Unlinked(lk, text, paths, k) then [Basename(paths[k])] else []) + ListedFrom(lk, text, paths, k + 1)
  }

  /** The relinked text and the base names of the attachments it does not link to. */
  datatype Attached = Attached(text: string, unlinked: seq<string>)

  /**
   The attachment loop of `convert_wiki`: relink each attachment in turn and
   remember its base name when the text, as it stands then, has no link to
   it.
   */
  function AttachAll(lk: Linking, text: string, paths: seq<string>): (a: Attached)
    ensures |a.unlinked| <= |paths|
    ensures forall i :: 0 <= i < |a.unlinked| ==> '/' !in a.unlinked[i]
    decreases |paths|
  {
    if paths == [] then Attached(text, [])
    else
      var relinked := lk.relink(text, paths[0]);
      var rest := AttachAll(lk, relinked, paths[1..]);
      Attached(rest.text, (if !lk.linked(relinked, paths[0]) then [Basename(paths[0])] else []) + rest.unlinked)
  }

  lemma {:induction false} StageShift(lk: Linking, text: string, paths: seq<string>, n: nat)
    requires 1 <= n <= |paths|
    ensures Stage(lk, text, paths, n) == Stage(lk, lk.relink(text, paths[0]), paths[1..], n - 1)
    decreases n
  {
    if n > 1 {
      StageShift(lk, text, paths, n - 1);
      assert paths[1..][n - 2] == paths[n - 1];
    }
  }

  lemma UnlinkedShift(lk: Linking, text: string, paths: seq<string>, k: nat)
    requires 1 <= k < |paths|
    ensures Unlinked(lk, text, paths, k) == Unlinked(lk, lk.relink(text, paths[0]), paths[1..], k - 1)
  {
    StageShift(lk, text, paths, k + 1);
    assert paths[1..][k - 1] == paths[k];
  }

  lemma {:induction false} ListedShift(lk: Linking, text: string, paths: seq<string>, k: nat)
    requires 1 <= k <= |paths|
    ensures ListedFrom(lk, text, paths, k) == ListedFrom(lk, lk.relink(text, paths[0]), paths[1..], k - 1)
    decreases |paths| - k
  {
    if k < |paths| {
      ListedShift(lk, text, paths, k + 1);
      UnlinkedShift(lk, text, paths, k);
      assert paths[1..][k - 1] == paths[k];
    }
  }

  /**
   The loop agrees with the stage-by-stage reading: the final text is every
   attachment relinked in listing order, and the unlinked names are exactly
   the base names of the attachments whose link is missing right after their
   own relinking, in listing order.
   */
  lemma {:induction false} AttachAllMatchesStages(lk: Linking, text: string, paths: seq<string>)
    ensures AttachAll(lk, text, paths).text == Stage(lk, text, paths, |paths|)
    ensures AttachAll(lk, text, paths).unlinked == ListedFrom(lk, text, paths, 0)
    decreases |paths|
  {
    if paths != [] {
      var relinked := lk.relink(text, paths[0]);
      AttachAllMatchesStages(lk, relinked, paths[1..]);
      StageShift(lk, text, paths, |paths|);
      ListedShift(lk, text, paths, 1);
      assert Stage(lk, text, paths, 1) == relinked;
    }
  }

  /** A name is listed from position `k` on only if some attachment from there on is unlinked. */
  lemma {:induction false} ListedOnlyIfUnlinked(lk: Linking, text: string, paths: seq<string>, k: nat)
    requires k <= |paths|
    ensures ListedFrom(lk, text, paths, k) != [] ==> exists j :: k <= j < |paths| && Unlinked(lk, text, paths, j)
    decreases |paths| - k
  {
    if k < |paths| {
      ListedOnlyIfUnlinked(lk, text, paths, k + 1);
      if !Unlinked(lk, text, paths, k) {
        assert ListedFrom(lk, text, paths, k) == ListedFrom(lk, text, paths, k + 1);
      }
    }
  }

  /** Every unlinked attachment from position `k` on has its base name listed. */
  lemma {:induction false} UnlinkedAreListed(lk: Linking, text: string, paths: seq<string>, k: nat, j: nat)
    requires k <= j < |paths|
    requires Unlinked(lk, text, paths, j)
    ensures Basename(paths[j]) in ListedFrom(lk, text, paths, k)
    decreases j - k
  {
    var here := if Unlinked(lk, text, paths, k) then [Basename(paths[k])] else [];
    assert ListedFrom(lk, text, paths, k) == here + ListedFrom(lk, text, paths, k + 1);
    if j > k {
      UnlinkedAreListed(lk, text, paths, k + 1, j);
    }
  }

  /** Some name is listed from position `k` on exactly when some attachment from there on is unlinked. */
  lemma ListedIffUnlinked(lk: Linking, text: string, paths: seq<string>, k: nat)
    requires k <= |paths|
    ensures ListedFrom(lk, text, paths, k) != [] <==> exists j :: k <= j < |paths| && Unlinked(lk, text, paths, j)
  {
    ListedOnlyIfUnlinked(lk, text, paths, k);
    if exists j :: k <= j < |paths| && Unlinked(lk, text, paths, j) {
      var j :| k <= j < |paths| && Unlinked(lk, text, paths, j);
      UnlinkedAreListed(lk, text, paths, k, j);
    }
  }

  /**
   The substring test behind "not linked" looks for `<basename>)` anywhere:
   an attachment whose base name ends the name of another linked file counts
   as linked.
   */
  lemma SuffixCountsAsLinked(text: string, paths: seq<string>, k: nat, longer: string)
    requires k < |paths|
    requires Contains(Stage(MigratedLinks, text, paths, k + 1), longer + Basename(paths[k]) + ")")
    ensures !Unlinked(MigratedLinks, text, paths, k)
  {
    var stage := Stage(MigratedLinks, text, paths, k + 1);
    assert longer + Basename(paths[k]) + ")" == longer + (Basename(paths[k]) + ")");
    ContainsTail(stage, longer, Basename(paths[k]) + ")");
    assert LinksTo(stage, paths[k]);
  }

  /** A text with a link to an attachment's full path links to the attachment once relinked. */
  lemma RelinkedPathIsLinked(text: string, p: string)
    requires Contains(text, LinkTarget(p))
    ensures LinksTo(Relink(text, p), p)
  {
    ReplaceLeavesReplacement(text, LinkTarget(p), LinkTarget(Basename(p)));
    assert LinkTarget(Basename(p)) == "migrated/" + (Basename(p) + ")");
    ContainsTail(Relink(text, p), "migrated/", Basename(p) + ")");
  }

  /** A text without a link to an attachment's full path is left as it was. */
  lemma RelinkAbsent(text: string, p: string)
    requires !Contains(text, LinkTarget(p))
    ensures Relink(text, p) == text
  {
    ReplaceAbsent(text, LinkTarget(p), LinkTarget(Basename(p)));
  }

  /**
   An attachment the text links to by its full path, as the text stands
   when its turn comes, is never listed as unlinked.
   */
  lemma FullPathLinkCountsAsLinked(text: string, paths: seq<string>, k: nat)
    requires k < |paths|
    requires Contains(Stage(MigratedLinks, text, paths, k), LinkTarget(paths[k]))
    ensures !Unlinked(MigratedLinks, text, paths, k)
  {
    var before := Stage(MigratedLinks, text, paths, k);
    assert Stage(MigratedLinks, text, paths, k + 1) == Relink(before, paths[k]);
    RelinkedPathIsLinked(before, paths[k]);
  }

  /** The relinking of an attachment the text does not link to by full path changes nothing. */
  lemma UnreferencedAttachmentKeepsText(text: string, paths: seq<string>, k: nat)
    requires k < |paths|
    requires !Contains(Stage(MigratedLinks, text, paths, k), LinkTarget(paths[k]))
    ensures Stage(MigratedLinks, text, paths, k + 1) == Stage(MigratedLinks, text, paths, k)
  {
    var before := Stage(MigratedLinks, text, paths, k);
    assert Stage(MigratedLinks, text, paths, k + 1) == Relink(before, paths[k]);
    RelinkAbsent(before, paths[k]);
  }

  /** Relinking an attachment stored without a directory leaves the text as it was. */
  lemma RelinkFlat(text: string, p: string)
    requires '/' !in p
    ensures Relink(text, p) == text
  {
    assert Basename(p) == p;
    ReplaceSame(text, LinkTarget(p));
  }

  /** When no attachment's relinking touches the text, every stage is the text itself. */
  lemma {:induction false} UntouchedStages(lk: Linking, text: string, paths: seq<string>, n: nat)
    requires n <= |paths|
    requires forall i :: 0 <= i < |paths| ==> lk.relink(text, paths[i]) == text
    ensures Stage(lk, text, paths, n) == text
    decreases n
  {
    if n > 0 {
      UntouchedStages(lk, text, paths, n - 1);
    }
  }

  /** Attachments stored without a directory need no relinking: every stage is the converted text. */
  lemma FlatPathsKeepText(text: string, paths: seq<string>, n: nat)
    requires n <= |paths|
    requires forall i :: 0 <= i < |paths| ==> '/' !in paths[i]
    ensures Stage(MigratedLinks, text, paths, n) == text
  {
    forall i | 0 <= i < |paths|
      ensures MigratedLinks.relink(text, paths[i]) == text
    {
      RelinkFlat(text, paths[i]);
    }
    UntouchedStages(MigratedLinks, text, paths, n);
  }

  // ---------------------------------------------------------------------------
  // the appended section

  /** One list entry: `- [f](/uploads/migrated/f)` and a line break. */
  function Entry(name: string): string {
    "- [" + name + "](/uploads/migrated/" + name + ")\n"
  }

  /** The list entries, in order. */
  function Entries(names: seq<string>): string
    decreases |names|
  {
    if names == [] then "" else Entry(names[0]) + Entries(names[1..])
  }

  /** The heading that opens the section, preceded by a blank line. */
  const SectionHeading: string := "\n\n##### Attached files:\n"

  /** The section listing unlinked attachments; nothing at all when every attachment is linked. */
  function Section(unlinked: seq<string>): string {
    if unlinked == [] then "" else SectionHeading + Entries(unlinked)
  }

  lemma {:induction false} EntriesAppend(a: seq<string>, b: seq<string>)
    ensures Entries(a + b) == Entries(a) + Entries(b)
    decreases |a|
  {
    if a == [] {
      assert a + b == b;
    } else {
      assert (a + b)[0] == a[0];
      assert (a + b)[1..] == a[1..] + b;
      EntriesAppend(a[1..], b);
    }
  }

  /** Every listed name has its entry in the list. */
  lemma {:induction false} EntriesListEach(names: seq<string>, k: nat)
    requires k < |names|
    ensures Contains(Entries(names), Entry(names[k]))
    decreases k
  {
    var rest := Entries(names[1..]);
    assert Entries(names) == Entry(names[0]) + rest;
    if k == 0 {
      ContainsPrefix(Entry(names[0]), rest);
    } else {
      EntriesListEach(names[1..], k - 1);
      ContainsAfter(Entry(names[0]), rest, Entry(names[k]));
    }
  }

  /** Line breaks of text shaped like an entry: fixed parts around the name, twice. */
  lemma LineBreaksOfEntryShape(open: string, name: string, middle: string, close: string)
    ensures LineBreaks(open + name + middle + name + close)
         == LineBreaks(open) + 2 * LineBreaks(name) + LineBreaks(middle) + LineBreaks(close)
  {
    LineBreaksAppend(open, name);
    LineBreaksAppend(open + name, middle);
    LineBreaksAppend(open + name + middle, name);
    LineBreaksAppend(open + name + middle + name, close);
  }

  /** The fixed parts of an entry: only its end breaks the line. */
  lemma EntryPunctuation()
    ensures LineBreaks("- [") == 0
    ensures LineBreaks(")\n") == 1
  {
  }

  lemma UploadPathHasNoBreak()
    ensures LineBreaks("](/uploads/migrated/") == 0
  {
    NoLineBreaks("](/uploads/migrated/");
  }

  /** An entry for a name without line breaks is one line. */
  lemma EntryIsOneLine(name: string)
    requires '\n' !in name
    ensures LineBreaks(Entry(name)) == 1
  {
    NoLineBreaks(name);
    EntryPunctuation();
    UploadPathHasNoBreak();
    LineBreaksOfEntryShape("- [", name, "](/uploads/migrated/", ")\n");
  }

  /** The list has exactly one line per name, for names without line breaks. */
  lemma {:induction false} OneLinePerEntry(names: seq<string>)
    requires forall i :: 0 <= i < |names| ==> '\n' !in names[i]
    ensures LineBreaks(Entries(names)) == |names|
    decreases |names|
  {
    if names != [] {
      OneLinePerEntry(names[1..]);
      EntryIsOneLine(names[0]);
      LineBreaksAppend(Entry(names[0]), Entries(names[1..]));
    }
  }

  /**
   The section is empty exactly when nothing is listed; otherwise it starts
   with the heading, has one line per listed name, and holds each listed
   name's `- [f](/uploads/migrated/f)` entry. `SectionEntriesInOrder`
   states their order.
   */
  lemma SectionListsEachEntry(unlinked: seq<string>)
    requires forall i :: 0 <= i < |unlinked| ==> '\n' !in unlinked[i]
    ensures Section(unlinked) == [] <==> unlinked == []
    ensures unlinked != [] ==> SectionHeading <= Section(unlinked)
    ensures LineBreaks(Section(unlinked)) == if unlinked == [] then 0 else LineBreaks(SectionHeading) + |unlinked|
    ensures forall k :: 0 <= k < |unlinked| ==> Contains(Section(unlinked), Entry(unlinked[k]))
  {
    if unlinked != [] {
      var heading := SectionHeading;
      assert Section(unlinked) == heading + Entries(unlinked);
      OneLinePerEntry(unlinked);
      LineBreaksAppend(heading, Entries(unlinked));
      forall k | 0 <= k < |unlinked|
        ensures Contains(Section(unlinked), Entry(unlinked[k]))
      {
        EntriesListEach(unlinked, k);
        ContainsAfter(heading, Entries(unlinked), Entry(unlinked[k]));
      }
    }
  }

  /**
   The entries follow the listing order: the `k`-th name's entry comes right
   after the heading and the entries of the names listed before it.
   */
  lemma SectionEntriesInOrder(unlinked: seq<string>, k: nat)
    requires k < |unlinked|
    ensures Section(unlinked)
         == SectionHeading + Entries(unlinked[..k]) + Entry(unlinked[k]) + Entries(unlinked[k + 1..])
  {
    assert unlinked == unlinked[..k] + unlinked[k..];
    EntriesAppend(unlinked[..k], unlinked[k..]);
    assert unlinked[k..][1..] == unlinked[k + 1..];
    assert Entries(unlinked[k..]) == Entry(unlinked[k]) + Entries(unlinked[k + 1..]);
  }

  // ---------------------------------------------------------------------------
  // one page

  /**
   The operations for one page, its attachments listed under `listedUnder`:
   nothing for a page by an excluded author; otherwise save every
   attachment under its base name, then save the converted page under
   its target name, with the page's version, time and author.
   */
  function PageOps(cfg: Config, m: Markup, src: WikiSource, name: string, listedUnder: string): seq<WikiOp>
  {
    var info := src.info(name);
    if info.author in ExcludedAuthors(cfg.excludeAuthors) then []
    else
      var target := PageName(name);
      var converted := m.convertPage(src.body(name), Dirname("/wikis/" + target));
      var paths := src.attachments(listedUnder);
      var a := AttachAll(MigratedLinks, converted, paths);
      SaveAttachments(paths) + [SaveFile(a.text + Section(a.unlinked), target, info.version, info.lastModified,
                                         info.author, cfg.targetDirectory)]
  }

  /** One save per attachment, under its base name, in listing order. */
  function SaveAttachments(paths: seq<string>): (ops: seq<WikiOp>)
    ensures |ops| == |paths|
    ensures forall k :: 0 <= k < |ops| ==> ops[k] == SaveAttachment(Basename(paths[k]), paths[k])
  {
    seq(|paths|, k requires 0 <= k < |paths| => SaveAttachment(Basename(paths[k]), paths[k]))
  }

  /** A page as it is migrated: its attachments are those Trac lists for the page itself. */
  function ConvertPage(cfg: Config, m: Markup, src: WikiSource, name: string): seq<WikiOp> {
    PageOps(cfg, m, src, name, name)
  }

  /** `convert_wiki` as written: attachments are listed under the page's target name, after the renaming. */
  function ConvertPageAsWritten(cfg: Config, m: Markup, src: WikiSource, name: string): seq<WikiOp> {
    PageOps(cfg, m, src, name, PageName(name))
  }

  /**
   What happens to one page: an excluded author's page leaves no trace;
   any other page saves each of its attachments under its base name, then
   is saved under its target name with its version, time and author, and
   with the relinked converted text followed, iff some attachment is not
   linked to, by the section listing exactly the unlinked base names in
   listing order.
   */
  lemma PageOutcome(cfg: Config, m: Markup, src: WikiSource, name: string)
    ensures var info := src.info(name);
            ConvertPage(cfg, m, src, name) == [] <==> info.author in ExcludedAuthors(cfg.excludeAuthors)
    ensures var info := src.info(name);
            var ops := ConvertPage(cfg, m, src, name);
            var paths := src.attachments(name);
            var converted := m.convertPage(src.body(name), Dirname("/wikis/" + PageName(name)));
            info.author !in ExcludedAuthors(cfg.excludeAuthors) ==>
              |ops| == |paths| + 1
              && ops[..|paths|] == SaveAttachments(paths)
              && ops[|paths|] == SaveFile(Stage(MigratedLinks, converted, paths, |paths|) + Section(ListedFrom(MigratedLinks, converted, paths, 0)),
                                          PageName(name), info.version, info.lastModified, info.author, cfg.targetDirectory)
              && (Section(ListedFrom(MigratedLinks, converted, paths, 0)) != []
                  <==> exists j :: 0 <= j < |paths| && Unlinked(MigratedLinks, converted, paths, j))
  {
    var info := src.info(name);
    if info.author !in ExcludedAuthors(cfg.excludeAuthors) {
      var paths := src.attachments(name);
      var converted := m.convertPage(src.body(name), Dirname("/wikis/" + PageName(name)));
      AttachAllMatchesStages(MigratedLinks, converted, paths);
      ListedIffUnlinked(MigratedLinks, converted, paths, 0);
      var ops := ConvertPage(cfg, m, src, name);
      assert ops[..|paths|] == SaveAttachments(paths);
    }
  }

  /**
   `WikiStart`'s attachments are lost as written: the listing is asked for
   a page named `home`, which (when no such Trac page has attachments)
   yields none, while the page's own listing is not empty.
   */
  lemma WikiStartAttachmentsLost(cfg: Config, m: Markup, src: WikiSource)
    requires src.info("WikiStart").author !in ExcludedAuthors(cfg.excludeAuthors)
    requires src.attachments("home") == [] && src.attachments("WikiStart") != []
    ensures |ConvertPageAsWritten(cfg, m, src, "WikiStart")| == 1
    ensures |ConvertPage(cfg, m, src, "WikiStart")| == 1 + |src.attachments("WikiStart")|
    ensures ConvertPage(cfg, m, src, "WikiStart")[0] == SaveAttachment(Basename(src.attachments("WikiStart")[0]), src.attachments("WikiStart")[0])
  {
    assert PageName("WikiStart") == "home";
  }

  /** For every other page the two listings coincide. */
  lemma OtherPagesUnaffected(cfg: Config, m: Markup, src: WikiSource, name: string)
    requires name != "WikiStart"
    ensures ConvertPageAsWritten(cfg, m, src, name) == ConvertPage(cfg, m, src, name)
  {
  }

  // ---------------------------------------------------------------------------
  // the phase

  /**
   Which name a page's attachments are listed under: the page's own name
   (the corrected conversion), or its target name, as `convert_wiki` is
   written.
   */
  datatype Listing = OwnName | TargetName

  function ListedUnder(listing: Listing, name: string): string {
    match listing
    case OwnName => name
    case TargetName => PageName(name)
  }

  /** One page under the given listing. */
  function ConvertPageWith(cfg: Config, m: Markup, src: WikiSource, listing: Listing, name: string): seq<WikiOp> {
    PageOps(cfg, m, src, name, ListedUnder(listing, name))
  }

  /**
   The wiki phase with the corrected listing: the pages in listing order,
   each with its own attachments. This is the phase the main sequence runs.
   */
  function ConvertWiki(cfg: Config, m: Markup, src: WikiSource): seq<WikiOp> {
    PagesFrom(cfg, m, src, OwnName, src.pages)
  }

  /** `convert_wiki` as written: the pages in listing order, attachments listed under the target name. */
  function ConvertWikiAsWritten(cfg: Config, m: Markup, src: WikiSource): seq<WikiOp> {
    PagesFrom(cfg, m, src, TargetName, src.pages)
  }

  function PagesFrom(cfg: Config, m: Markup, src: WikiSource, listing: Listing, pages: seq<string>): seq<WikiOp>
    decreases |pages|
  {
    if pages == [] then [] else ConvertPageWith(cfg, m, src, listing, pages[0]) + PagesFrom(cfg, m, src, listing, pages[1..])
  }

  /** A wiki without a `WikiStart` page is migrated alike either way. */
  lemma {:induction false} AsWrittenAgreesWithoutWikiStart(cfg: Config, m: Markup, src: WikiSource, pages: seq<string>)
    requires "WikiStart" !in pages
    ensures PagesFrom(cfg, m, src, TargetName, pages) == PagesFrom(cfg, m, src, OwnName, pages)
    decreases |pages|
  {
    if pages != [] {
      assert pages[0] != "WikiStart";
      OtherPagesUnaffected(cfg, m, src, pages[0]);
      AsWrittenAgreesWithoutWikiStart(cfg, m, src, pages[1..]);
    }
  }

  /**
   A wiki holding only `WikiStart`, whose attachments Trac lists under that
   name and not under `home`: as written the phase saves the page alone;
   corrected, it saves the attachments first.
   */
  lemma WikiStartPhaseAsWritten(cfg: Config, m: Markup, src: WikiSource)
    requires src.pages == ["WikiStart"]
    requires src.info("WikiStart").author !in ExcludedAuthors(cfg.excludeAuthors)
    requires src.attachments("home") == [] && src.attachments("WikiStart") != []
    ensures |ConvertWikiAsWritten(cfg, m, src)| == 1 && ConvertWikiAsWritten(cfg, m, src)[0].SaveFile?
    ensures |ConvertWiki(cfg, m, src)| == 1 + |src.attachments("WikiStart")|
    ensures ConvertWiki(cfg, m, src)[0] == SaveAttachment(Basename(src.attachments("WikiStart")[0]), src.attachments("WikiStart")[0])
  {
    SinglePage(cfg, m, src, TargetName, "WikiStart");
    SinglePage(cfg, m, src, OwnName, "WikiStart");
    WikiStartAttachmentsLost(cfg, m, src);
    PageOpsShape(cfg, m, src, "WikiStart", "home");
  }

  /** A wiki of one page is that page's operations. */
  lemma SinglePage(cfg: Config, m: Markup, src: WikiSource, listing: Listing, name: string)
    ensures PagesFrom(cfg, m, src, listing, [name]) == ConvertPageWith(cfg, m, src, listing, name)
  {
    assert [name][1..] == [];
  }

  /** The names pages are saved under, in order of saving. */
  function SavedNames(ops: seq<WikiOp>): seq<string>
    decreases |ops|
  {
    if ops == [] then []
    else (if ops[0].SaveFile? then [ops[0].name] else []) + SavedNames(ops[1..])
  }

  /** The target names of the pages not written by an excluded author, in listing order. */
  function KeptNames(cfg: Config, src: WikiSource, pages: seq<string>): (names: seq<string>)
    ensures |names| <= |pages|
    decreases |pages|
  {
    if pages == [] then []
    else
      (if src.info(pages[0]).author in ExcludedAuthors(cfg.excludeAuthors) then [] else [PageName(pages[0])])
        + KeptNames(cfg, src, pages[1..])
  }

  lemma {:induction false} SavedNamesAppend(a: seq<WikiOp>, b: seq<WikiOp>)
    ensures SavedNames(a + b) == SavedNames(a) + SavedNames(b)
    decreases |a|
  {
    if a == [] {
      assert a + b == b;
    } else {
      assert (a + b)[0] == a[0];
      assert (a + b)[1..] == a[1..] + b;
      SavedNamesAppend(a[1..], b);
    }
  }

  lemma {:induction false} NoPagesAmongAttachments(paths: seq<string>)
    ensures SavedNames(SaveAttachments(paths)) == []
    decreases |paths|
  {
    if paths != [] {
      assert SaveAttachments(paths)[1..] == SaveAttachments(paths[1..]);
      NoPagesAmongAttachments(paths[1..]);
    }
  }

  /** A kept page's operations: the attachment saves, then the page itself under its target name. */
  lemma PageOpsShape(cfg: Config, m: Markup, src: WikiSource, name: string, listedUnder: string)
    requires src.info(name).author !in ExcludedAuthors(cfg.excludeAuthors)
    ensures var ops := PageOps(cfg, m, src, name, listedUnder);
            var paths := src.attachments(listedUnder);
            |ops| == |paths| + 1 && ops[..|paths|] == SaveAttachments(paths)
            && ops[|paths|].SaveFile? && ops[|paths|].name == PageName(name)
  {
    var ops := PageOps(cfg, m, src, name, listedUnder);
    var paths := src.attachments(listedUnder);
    assert ops[..|paths|] == SaveAttachments(paths);
  }

  /** Attachment saves followed by one page save name that page alone. */
  lemma SavedNamesOfPageOps(ops: seq<WikiOp>, paths: seq<string>)
    requires |ops| == |paths| + 1 && ops[..|paths|] == SaveAttachments(paths) && ops[|paths|].SaveFile?
    ensures SavedNames(ops) == [ops[|paths|].name]
  {
    var saves := ops[..|paths|];
    var page := ops[|paths|];
    assert ops == saves + [page];
    SavedNamesAppend(saves, [page]);
    NoPagesAmongAttachments(paths);
    assert SavedNames([page]) == [page.name] by {
      assert [page][1..] == [];
    }
  }

  /** A page is saved once under its target name, or not at all when its author is excluded, whatever the listing. */
  lemma PageSavedNames(cfg: Config, m: Markup, src: WikiSource, listing: Listing, name: string)
    ensures SavedNames(ConvertPageWith(cfg, m, src, listing, name))
         == if src.info(name).author in ExcludedAuthors(cfg.excludeAuthors) then [] else [PageName(name)]
  {
    var under := ListedUnder(listing, name);
    if src.info(name).author !in ExcludedAuthors(cfg.excludeAuthors) {
      PageOpsShape(cfg, m, src, name, under);
      SavedNamesOfPageOps(PageOps(cfg, m, src, name, under), src.attachments(under));
    }
  }

  /**
   Exactly the pages not written by an excluded author are saved, each once,
   under its target name and in listing order, whatever the listing.
   */
  lemma {:induction false} SavedPagesAreKept(cfg: Config, m: Markup, src: WikiSource, listing: Listing, pages: seq<string>)
    ensures SavedNames(PagesFrom(cfg, m, src, listing, pages)) == KeptNames(cfg, src, pages)
    decreases |pages|
  {
    if pages != [] {
      SavedPagesAreKept(cfg, m, src, listing, pages[1..]);
      SavedNamesAppend(ConvertPageWith(cfg, m, src, listing, pages[0]), PagesFrom(cfg, m, src, listing, pages[1..]));
      PageSavedNames(cfg, m, src, listing, pages[0]);
    }
  }
}
