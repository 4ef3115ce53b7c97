/** The site's html files under en/ and their ".bak" copies, as the page tools read and
    write them. Pages are keyed by their path; a backup is keyed by its own file name. */
module SiteFiles {

  const BackupExt := ".bak"

  /** path.with_suffix(path.suffix + ".bak") for a path ending in ".html". */
  function BackupName(path: string): (b: string)
    ensures |b| == |path| + |BackupExt| && b[..|path|] == path && b[|path|..] == BackupExt
  {
    path + BackupExt
  }

  /** Two pages never share a backup file. */
  lemma BackupNameInjective(p: string, q: string)
    requires BackupName(p) == BackupName(q)
    ensures p == q
  {
    assert p == BackupName(p)[..|p|];
    assert q == BackupName(q)[..|q|];
  }

  /** No path is listed twice, as a directory walk yields them. */
  predicate Distinct(paths: seq<string>) {
    forall a, b :: 0 <= a < b < |paths| ==> paths[a] != paths[b]
  }

  /** The pages after a run that gives each page of `paths`, in order, the text
      `rewrite(path, original)`. */
  function Rewrite(pages: map<string, string>, paths: seq<string>, rewrite: (string, string) -> string)
    : (r: map<string, string>)
    requires forall p :: p in paths ==> p in pages
    ensures r.Keys == pages.Keys
    decreases |paths|
  {
    if paths == [] then pages
    else
      var p := paths[|paths| - 1];
      Rewrite(pages, paths[..|paths| - 1], rewrite)[p := rewrite(p, pages[p])]
  }

  /** The pages of `paths` whose text the run changes, in the order of the run: the
      ones that are backed up and written. */
  function Written(pages: map<string, string>, paths: seq<string>, rewrite: (string, string) -> string)
    : (w: seq<string>)
    requires forall p :: p in paths ==> p in pages
    ensures |w| <= |paths|
    ensures forall p :: p in w ==> p in paths
    decreases |paths|
  {
    if paths == [] then []
    else
      var init := Written(pages, paths[..|paths| - 1], rewrite);
      var p := paths[|paths| - 1];
      if rewrite(p, pages[p]) != pages[p] then init + [p] else init
  }

  /** After the run a page outside `paths` keeps its text and, when no path is listed
      twice, a page of `paths` holds its rewritten text. */
  lemma {:induction false} RewriteResult(pages: map<string, string>, paths: seq<string>,
                                         rewrite: (string, string) -> string, p: string)
    requires forall q :: q in paths ==> q in pages
    requires p in pages
    ensures p !in paths ==> Rewrite(pages, paths, rewrite)[p] == pages[p]
    ensures Distinct(paths) && p in paths ==> Rewrite(pages, paths, rewrite)[p] == rewrite(p, pages[p])
  {
    if paths != [] {
      var init := paths[..|paths| - 1];
      var last := paths[|paths| - 1];
      assert paths == init + [last];
      if p != last {
        RewriteResult(pages, init, rewrite, p);
        assert Distinct(paths) ==> Distinct(init);
      }
    }
  }

  /** The run writes exactly the pages of `paths` whose text the rewrite changes. */
  lemma {:induction false} WrittenMembers(pages: map<string, string>, paths: seq<string>,
                                          rewrite: (string, string) -> string, p: string)
    requires forall q :: q in paths ==> q in pages
    ensures p in Written(pages, paths, rewrite) <==> p in paths && rewrite(p, pages[p]) != pages[p]
  {
    if paths != [] {
      var init := paths[..|paths| - 1];
      var last := paths[|paths| - 1];
      assert paths == init + [last];
      WrittenMembers(pages, init, rewrite, p);
    }
  }

  lemma RewriteStep(pages: map<string, string>, paths: seq<string>, i: nat, rewrite: (string, string) -> string)
    requires i < |paths|
    requires forall p :: p in paths ==> p in pages
    ensures Rewrite(pages, paths[..i + 1], rewrite) ==
      Rewrite(pages, paths[..i], rewrite)[paths[i] := rewrite(paths[i], pages[paths[i]])]
  {
    var q := paths[..i + 1];
    assert q[..|q| - 1] == paths[..i];
  }

  lemma WrittenStep(pages: map<string, string>, paths: seq<string>, i: nat, rewrite: (string, string) -> string)
    requires i < |paths|
    requires forall p :: p in paths ==> p in pages
    ensures Written(pages, paths[..i + 1], rewrite) ==
      if rewrite(paths[i], pages[paths[i]]) != pages[paths[i]] then Written(pages, paths[..i], rewrite) + [paths[i]]
      else Written(pages, paths[..i], rewrite)
  {
    var q := paths[..i + 1];
    assert q[..|q| - 1] == paths[..i];
  }

  /** The backups after the pages in `written` were rewritten in this order, each one
      backed up from its original text unless a backup of it already existed. */
  function BackupsAfter(backups: map<string, string>, originals: map<string, string>, written: seq<string>)
    : map<string, string>
    requires forall p :: p in written ==> p in originals
  {
    if written == [] then backups
    else
      var b := BackupsAfter(backups, originals, written[..|written| - 1]);
      var p := written[|written| - 1];
      if BackupName(p) in b then b else b[BackupName(p) := originals[p]]
  }

  /** Rewriting one more page adds at most its own backup. */
  lemma BackupsAfterStep(backups: map<string, string>, originals: map<string, string>, written: seq<string>, p: string)
    requires forall q :: q in written ==> q in originals
    requires p in originals
    ensures BackupsAfter(backups, originals, written + [p]) ==
      var prev := BackupsAfter(backups, originals, written);
      if BackupName(p) in prev then prev else prev[BackupName(p) := originals[p]]
  {
    assert (written + [p])[..|written|] == written;
  }

  /** An existing backup is never overwritten. */
  lemma {:induction false} BackupsAfterKeepsExisting(backups: map<string, string>, originals: map<string, string>,
                                                     written: seq<string>, b: string)
    requires forall p :: p in written ==> p in originals
    requires b in backups
    ensures b in BackupsAfter(backups, originals, written)
    ensures BackupsAfter(backups, originals, written)[b] == backups[b]
  {
    if written != [] {
      BackupsAfterKeepsExisting(backups, originals, written[..|written| - 1], b);
    }
  }

  /** A rewritten page without an earlier backup leaves its original text as backup. */
  lemma {:induction false} BackupsAfterHoldsOriginal(backups: map<string, string>, originals: map<string, string>,
                                                     written: seq<string>, p: string)
    requires forall q :: q in written ==> q in originals
    requires p in written && BackupName(p) !in backups
    ensures BackupName(p) in BackupsAfter(backups, originals, written)
    ensures BackupsAfter(backups, originals, written)[BackupName(p)] == originals[p]
  {
    var init := written[..|written| - 1];
    var last := written[|written| - 1];
    assert written == init + [last];
    if p in init {
      BackupsAfterHoldsOriginal(backups, originals, init, p);
      if BackupName(last) == BackupName(p) {
        BackupNameInjective(last, p);
      }
    } else {
      assert p == last;
      forall q | q in init ensures BackupName(q) != BackupName(p) {
        if BackupName(q) == BackupName(p) {
          BackupNameInjective(q, p);
        }
      }
      if BackupName(p) in BackupsAfter(backups, originals, init) {
        BackupsAfterOnlyWritten(backups, originals, init, BackupName(p));
      }
    }
  }

  /** No backup appears except for a rewritten page. */
  lemma {:induction false} BackupsAfterOnlyWritten(backups: map<string, string>, originals: map<string, string>,
                                                   written: seq<string>, b: string)
    requires forall p :: p in written ==> p in originals
    requires b in BackupsAfter(backups, originals, written)
    ensures b in backups || exists p :: p in written && b == BackupName(p)
  {
    if written != [] {
      var init := written[..|written| - 1];
      var last := written[|written| - 1];
      if b != BackupName(last) {
        BackupsAfterOnlyWritten(backups, originals, init, b);
        if b !in backups {
          var p :| p in init && b == BackupName(p);
          assert p in written;
        }
      }
    }
  }

  /** What committing one page does: `wrote` tells whether `text` differs from the page;
      the page gets `text`, and a changed page without a backup is backed up first. */
  predicate Committed(pages: map<string, string>, backups: map<string, string>,
                      pages': map<string, string>, backups': map<string, string>,
                      path: string, text: string, wrote: bool)
    requires path in pages
  {
    && wrote == (text != pages[path])
    && pages' == pages[path := text]
    && backups' == if wrote && BackupName(path) !in backups then backups[BackupName(path) := pages[path]] else backups
  }

  /** The state after the first `i` pages of a run: the pages rewritten, the backups
      taken, and `changed` counting the pages written. */
  predicate RunSoFar(pages0: map<string, string>, backups0: map<string, string>, paths: seq<string>, i: nat,
                     rewrite: (string, string) -> string,
                     pages: map<string, string>, backups: map<string, string>, changed: nat)
  {
    && i <= |paths|
    && (forall p :: p in paths ==> p in pages0)
    && pages == Rewrite(pages0, paths[..i], rewrite)
    && backups == BackupsAfter(backups0, pages0, Written(pages0, paths[..i], rewrite))
    && changed == |Written(pages0, paths[..i], rewrite)|
  }

  /** Before the first page nothing is rewritten, backed up or counted. */
  lemma RunSoFarStart(pages0: map<string, string>, backups0: map<string, string>, paths: seq<string>,
                      rewrite: (string, string) -> string)
    requires forall p :: p in paths ==> p in pages0
    ensures RunSoFar(pages0, backups0, paths, 0, rewrite, pages0, backups0, 0)
  {
    assert paths[..0] == [];
  }

  /** A run over all of `paths` has produced the result of the whole run. */
  lemma RunSoFarAll(pages0: map<string, string>, backups0: map<string, string>, paths: seq<string>,
                    rewrite: (string, string) -> string,
                    pages: map<string, string>, backups: map<string, string>, changed: nat)
    requires RunSoFar(pages0, backups0, paths, |paths|, rewrite, pages, backups, changed)
    ensures pages == Rewrite(pages0, paths, rewrite)
    ensures backups == BackupsAfter(backups0, pages0, Written(pages0, paths, rewrite))
    ensures changed == |Written(pages0, paths, rewrite)|
  {
    assert paths[..|paths|] == paths;
  }

  /** Committing the next page of a run, rewritten from its current text, extends the
      run by that page; the page's current text is still its original one. */
  lemma CommitStep(pages0: map<string, string>, backups0: map<string, string>, paths: seq<string>, i: nat,
                   rewrite: (string, string) -> string, pages: map<string, string>, backups: map<string, string>,
                   changed: nat, pages': map<string, string>, backups': map<string, string>, wrote: bool)
    requires i < |paths| && Distinct(paths)
    requires RunSoFar(pages0, backups0, paths, i, rewrite, pages, backups, changed)
    requires Committed(pages, backups, pages', backups', paths[i], rewrite(paths[i], pages[paths[i]]), wrote)
    ensures pages[paths[i]] == pages0[paths[i]]
    ensures RunSoFar(pages0, backups0, paths, i + 1, rewrite, pages', backups', changed + if wrote then 1 else 0)
  {
    var path := paths[i];
    assert path !in paths[..i];
    RewriteResult(pages0, paths[..i], rewrite, path);
    RewriteStep(pages0, paths, i, rewrite);
    WrittenStep(pages0, paths, i, rewrite);
    BackupsAfterStep(backups0, pages0, Written(pages0, paths[..i], rewrite), path);
  }

  class SiteDir {
    var pages: map<string, string>
    var backups: map<string, string>

    constructor (pages: map<string, string>, backups: map<string, string>)
      ensures this.pages == pages && this.backups == backups
    {
      this.pages := pages;
      this.backups := backups;
    }

    /** The backup-once rule: the copy is written only when no backup exists, so an
        existing backup keeps the first original. */
    method EnsureBackup(path: string, original: string)
      modifies this`backups
      ensures BackupName(path) in old(backups) ==> backups == old(backups)
      ensures BackupName(path) !in old(backups) ==> backups == old(backups)[BackupName(path) := original]
    {
      var bak := BackupName(path);
      if bak !in backups {
        backups := backups[bak := original];
      }
    }

    /** The common tail of every page tool: a page whose text changed is backed up once
        and written; an unchanged page is left alone. */
    method Commit(path: string, original: string, updated: string) returns (wrote: bool)
      modifies this
      ensures wrote == (updated != original)
      ensures wrote ==> pages == old(pages)[path := updated]
      ensures !wrote ==> pages == old(pages) && backups == old(backups)
      ensures wrote && BackupName(path) in old(backups) ==> backups == old(backups)
      ensures wrote && BackupName(path) !in old(backups) ==> backups == old(backups)[BackupName(path) := original]
    {
      wrote := updated != original;
      if wrote {
        EnsureBackup(path, original);
        WriteText(path, updated);
      }
    }

    method WriteText(path: string, text: string)
      modifies this`pages
      ensures pages == old(pages)[path := text]
    {
      pages := pages[path := text];
    }
  }
}
