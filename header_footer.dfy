/** The header/footer splicer: the shared header and footer partials are put into every
    page under en/, either by replacing a marked block or by inserting them after <body…>
    and before </body>. */
module HeaderFooter {
  import opened Text
  import opened SiteFiles

  const HeaderStart := "<!-- SITE_HEADER_START -->"
  const HeaderEnd := "<!-- SITE_HEADER_END -->"
  const FooterStart := "<!-- SITE_FOOTER_START -->"
  const FooterEnd := "<!-- SITE_FOOTER_END -->"

  const HeaderPath := "en/_partials/header.html"
  const FooterPath := "en/_partials/footer.html"
  /** Every file below this directory is a partial, never a page to splice. */
  const PartialsDir := "en/_partials/"

  // ---------------------------------------------------------------------------
  // replace_block: re.escape(start) + ".*?" + re.escape(end), with '.' matching newlines

  /** A start marker at s and an end marker at e, not overlapping it. */
  predicate BlockAt(html: string, start: string, end: string, s: int, e: int) {
    OccursAt(html, s, start) && s + |start| <= e && OccursAt(html, e, end)
  }

  ghost predicate HasBlock(html: string, start: string, end: string) {
    exists s, e :: BlockAt(html, start, end, s, e)
  }

  /** The span the lazy pattern matches first: the first start marker, and the nearest
      end marker after it. */
  ghost predicate FirstBlock(html: string, start: string, end: string, s: int, e: int) {
    && BlockAt(html, start, end, s, e)
    && (forall s' :: 0 <= s' < s ==> !OccursAt(html, s', start))
    && (forall e' :: s + |start| <= e' < e ==> !OccursAt(html, e', end))
  }

  lemma FirstBlockUnique(html: string, start: string, end: string, s1: int, e1: int, s2: int, e2: int)
    requires FirstBlock(html, start, end, s1, e1) && FirstBlock(html, start, end, s2, e2)
    ensures s1 == s2 && e1 == e2
  {
  }

  function FindBlock(html: string, start: string, end: string): (r: Option<(nat, nat)>)
    ensures r.Some? ==> FirstBlock(html, start, end, r.value.0, r.value.1)
    ensures r.None? <==> !HasBlock(html, start, end)
  {
    match Find(html, start)
    case None => None
    case Some(s) =>
      match FindFrom(html, end, s + |start|)
      case None =>
        assert !HasBlock(html, start, end) by {
          forall s', e | BlockAt(html, start, end, s', e) ensures e < s + |start| {
          }
        }
        None
      case Some(e) => Some((s, e))
  }

  /** replace_block: the first marked block (markers included) becomes the stripped new
      block, and the flag says whether there was one. Nothing after that block changes,
      even another marked block. */
  function ReplaceBlock(html: string, start: string, end: string, newBlock: string): (r: (string, bool))
    ensures r.1 <==> HasBlock(html, start, end)
    ensures !r.1 ==> r.0 == html
    ensures forall s, e :: FirstBlock(html, start, end, s, e) ==>
      r.0 == html[..s] + Strip(newBlock) + html[e + |end|..]
    ensures |r.0| <= |html| + |newBlock|
  {
    match FindBlock(html, start, end)
    case None => (html, false)
    case Some((s, e)) =>
      forall s', e' | FirstBlock(html, start, end, s', e') ensures s' == s && e' == e {
        FirstBlockUnique(html, start, end, s, e, s', e');
      }
      (html[..s] + Strip(newBlock) + html[e + |end|..], true)
  }

  // ---------------------------------------------------------------------------
  // has_tag: <tag\b, case-insensitive

  predicate TagAt(html: string, k: int, tag: string) {
    && 0 <= k && k + 1 + |tag| <= |html|
    && html[k] == '<'
    && (forall j :: 0 <= j < |tag| ==> Lower(html[k + 1 + j]) == Lower(tag[j]))
    && WordBoundary(html, k + 1 + |tag|)
  }

  function TagFrom(html: string, tag: string, k: nat): (b: bool)
    requires k <= |html|
    ensures b <==> exists k' :: k <= k' && TagAt(html, k', tag)
    decreases |html| - k
  {
    if k == |html| then false
    else if TagAt(html, k, tag) then true
    else
      var b := TagFrom(html, tag, k + 1);
      assert b <== exists k' :: k <= k' && TagAt(html, k', tag) by {
        if exists k' :: k <= k' && TagAt(html, k', tag) {
          var k' :| k <= k' && TagAt(html, k', tag);
          assert k + 1 <= k';
        }
      }
      b
  }

  function HasTag(html: string, tag: string): (b: bool)
    ensures b <==> exists k :: TagAt(html, k, tag)
  {
    TagFrom(html, tag, 0)
  }

  // ---------------------------------------------------------------------------
  // inject_after_body_open: <body\b[^>]*>, case-insensitive

  /** <body at k, its tag ending with the '>' at g. */
  predicate BodyOpenAt(html: string, k: int, g: int) {
    && OccursAtIgnoreCase(html, k, "<body")
    && WordBoundary(html, k + 5)
    && k + 5 <= g < |html|
    && html[g] == '>'
    && (forall x :: k + 5 <= x < g ==> html[x] != '>')
  }

  ghost predicate FirstBodyOpen(html: string, k: int, g: int) {
    BodyOpenAt(html, k, g) && forall k', g' :: 0 <= k' < k ==> !BodyOpenAt(html, k', g')
  }

  /** At one position the pattern matches exactly when a '>' follows, and then it ends
      at the first one. */
  lemma BodyOpenHere(html: string, k: nat)
    requires k < |html|
    ensures forall g :: BodyOpenAt(html, k, g) ==>
      FindFrom(html, ">", k + 5).Some? && FindFrom(html, ">", k + 5).value == g
    ensures OccursAtIgnoreCase(html, k, "<body") && WordBoundary(html, k + 5) && FindFrom(html, ">", k + 5).Some? ==>
      BodyOpenAt(html, k, FindFrom(html, ">", k + 5).value)
  {
    forall g | BodyOpenAt(html, k, g)
      ensures FindFrom(html, ">", k + 5).Some? && FindFrom(html, ">", k + 5).value == g
    {
      CharAt(html, g, '>');
      forall x | k + 5 <= x < g ensures !OccursAt(html, x, ">") { CharAt(html, x, '>'); }
    }
    if OccursAtIgnoreCase(html, k, "<body") && WordBoundary(html, k + 5) && FindFrom(html, ">", k + 5).Some? {
      var g := FindFrom(html, ">", k + 5).value;
      CharAt(html, g, '>');
      forall x | k + 5 <= x < g ensures html[x] != '>' { CharAt(html, x, '>'); }
    }
  }

  function BodyOpenFrom(html: string, k: nat): (r: Option<(nat, nat)>)
    requires k <= |html|
    ensures r.Some? ==> k <= r.value.0 && BodyOpenAt(html, r.value.0, r.value.1)
    ensures r.Some? ==> forall k', g :: k <= k' < r.value.0 ==> !BodyOpenAt(html, k', g)
    ensures r.None? ==> forall k', g :: k <= k' ==> !BodyOpenAt(html, k', g)
    decreases |html| - k
  {
    if k == |html| then None
    else
      BodyOpenHere(html, k);
      if OccursAtIgnoreCase(html, k, "<body") && WordBoundary(html, k + 5) && FindFrom(html, ">", k + 5).Some? then
        Some((k, FindFrom(html, ">", k + 5).value))
      else
        BodyOpenFrom(html, k + 1)
  }

  /** inject_after_body_open: the snippet goes right after the first <body…> tag. */
  function InjectAfterBodyOpen(html: string, snippet: string): (r: (string, bool))
    ensures r.1 <==> exists k, g :: BodyOpenAt(html, k, g)
    ensures !r.1 ==> r.0 == html
    ensures r.1 ==> |r.0| == |html| + |snippet| + 3
    ensures forall k, g :: FirstBodyOpen(html, k, g) ==>
      r.0 == html[..g + 1] + "\n\n" + snippet + "\n" + html[g + 1..]
  {
    match BodyOpenFrom(html, 0)
    case None => (html, false)
    case Some((k, g)) =>
      assert forall k', g' :: FirstBodyOpen(html, k', g') ==> g' == g by {
        forall k', g' | FirstBodyOpen(html, k', g') ensures g' == g {
          BodyOpenHere(html, k);
        }
      }
      (html[..g + 1] + "\n\n" + snippet + "\n" + html[g + 1..], true)
  }

  // ---------------------------------------------------------------------------
  // inject_before_body_close: </body\s*>, case-insensitive

  predicate SpaceRun(html: string, x: int, g: int)
    requires 0 <= x <= g <= |html|
  {
    forall y :: x <= y < g ==> IsSpace(html[y])
  }

  /** </body at k, then only whitespace up to the '>' at g. */
  predicate BodyCloseAt(html: string, k: int, g: int) {
    && OccursAtIgnoreCase(html, k, "</body")
    && k + 6 <= g < |html|
    && html[g] == '>'
    && SpaceRun(html, k + 6, g)
  }

  /** \s*> from x: the first non-whitespace character, when it is '>'. */
  function SpacesThenClose(html: string, x: nat): (r: Option<nat>)
    requires x <= |html|
    ensures r.Some? ==> x <= r.value < |html| && html[r.value] == '>' && SpaceRun(html, x, r.value)
    ensures r.None? ==> forall g :: x <= g < |html| && html[g] == '>' ==> !SpaceRun(html, x, g)
    decreases |html| - x
  {
    if x == |html| then None
    else if html[x] == '>' then Some(x)
    else if IsSpace(html[x]) then
      var r := SpacesThenClose(html, x + 1);
      assert r.None? ==> forall g :: x <= g < |html| && html[g] == '>' ==> !SpaceRun(html, x, g) by {
        forall g | x <= g < |html| && html[g] == '>' && r.None? ensures !SpaceRun(html, x, g) {
          assert !SpaceRun(html, x + 1, g);
          var y :| x + 1 <= y < g && !IsSpace(html[y]);
        }
      }
      r
    else
      assert forall g :: x <= g < |html| && html[g] == '>' ==> !SpaceRun(html, x, g) by {
        forall g | x <= g < |html| && html[g] == '>' ensures !SpaceRun(html, x, g) {
          if g > x {
            assert !IsSpace(html[x]);
          }
        }
      }
      None
  }

  function BodyCloseFrom(html: string, k: nat): (r: Option<nat>)
    requires k <= |html|
    ensures r.Some? ==> k <= r.value && exists g :: BodyCloseAt(html, r.value, g)
    ensures r.Some? ==> forall k', g :: k <= k' < r.value ==> !BodyCloseAt(html, k', g)
    ensures r.None? ==> forall k', g :: k <= k' ==> !BodyCloseAt(html, k', g)
    decreases |html| - k
  {
    if k == |html| then None
    else if OccursAtIgnoreCase(html, k, "</body") && SpacesThenClose(html, k + 6).Some? then
      assert BodyCloseAt(html, k, SpacesThenClose(html, k + 6).value);
      Some(k)
    else
      BodyCloseFrom(html, k + 1)
  }

  ghost predicate FirstBodyClose(html: string, k: int) {
    (exists g :: BodyCloseAt(html, k, g)) && forall k', g' :: 0 <= k' < k ==> !BodyCloseAt(html, k', g')
  }

  /** inject_before_body_close: the snippet goes right before the first </body>. */
  function InjectBeforeBodyClose(html: string, snippet: string): (r: (string, bool))
    ensures r.1 <==> exists k, g :: BodyCloseAt(html, k, g)
    ensures !r.1 ==> r.0 == html
    ensures r.1 ==> |r.0| == |html| + |snippet| + 3
    ensures forall k :: FirstBodyClose(html, k) ==>
      r.0 == html[..k] + "\n" + snippet + "\n\n" + html[k..]
  {
    match BodyCloseFrom(html, 0)
    case None => (html, false)
    case Some(k) => (html[..k] + "\n" + snippet + "\n\n" + html[k..], true)
  }

  // ---------------------------------------------------------------------------
  // The per-file decision of main

  datatype PageResult = Problem | Page(text: string)

  /** One page: replace the marked blocks; where a block was not replaced and the page has
      no such tag, inject the partial; a page where an injection finds no body tag is a
      problem and keeps its text. */
  function ProcessPage(original: string, header: string, footer: string): (r: PageResult)
    ensures r.Page? ==> |r.text| <= |original| + |header| + |footer| + 6
    // h: after the header block, f: after the footer block, w: after the header step
    ensures var h := ReplaceBlock(original, HeaderStart, HeaderEnd, header).0;
      var f := ReplaceBlock(h, FooterStart, FooterEnd, footer).0;
      var needHeader := !HasBlock(original, HeaderStart, HeaderEnd) && !HasTag(f, "header");
      var w := if needHeader then InjectAfterBodyOpen(f, header).0 else f;
      var needFooter := !HasBlock(h, FooterStart, FooterEnd) && !HasTag(w, "footer");
      && (r.Problem? <==>
            || (needHeader && forall k, g :: !BodyOpenAt(f, k, g))
            || (needFooter && forall k, g :: !BodyCloseAt(w, k, g)))
      && (r.Page? && needHeader ==> |w| == |f| + |header| + 3)
      && (r.Page? && !needHeader && !needFooter ==> r.text == f)
      && (r.Page? && !needFooter ==> r.text == w)
      && (r.Page? && needFooter ==> r.text == InjectBeforeBodyClose(w, footer).0 && |r.text| == |w| + |footer| + 3)
  {
    var h := ReplaceBlock(original, HeaderStart, HeaderEnd, header);
    var f := ReplaceBlock(h.0, FooterStart, FooterEnd, footer);
    var withHeader :=
      if !h.1 && !HasTag(f.0, "header") then InjectAfterBodyOpen(f.0, header) else (f.0, true);
    if !withHeader.1 then Problem
    else
      var withFooter :=
        if !f.1 && !HasTag(withHeader.0, "footer") then InjectBeforeBodyClose(withHeader.0, footer)
        else (withHeader.0, true);
      if !withFooter.1 then Problem else Page(withFooter.0)
  }

  /** A page with both marked blocks is never a problem: both are replaced and nothing is
      injected. */
  lemma MarkedPageIsReplaced(original: string, header: string, footer: string)
    requires HasBlock(original, HeaderStart, HeaderEnd)
    requires HasBlock(ReplaceBlock(original, HeaderStart, HeaderEnd, header).0, FooterStart, FooterEnd)
    ensures ProcessPage(original, header, footer) ==
      Page(ReplaceBlock(ReplaceBlock(original, HeaderStart, HeaderEnd, header).0, FooterStart, FooterEnd, footer).0)
  {
  }

  /** A page without markers that already has <header and <footer tags is left as it is. */
  lemma TaggedPageIsUntouched(original: string, header: string, footer: string)
    requires !HasBlock(original, HeaderStart, HeaderEnd) && !HasBlock(original, FooterStart, FooterEnd)
    requires HasTag(original, "header") && HasTag(original, "footer")
    ensures ProcessPage(original, header, footer) == Page(original)
  {
  }

  /** A page that needs the header but has no <body…> tag is a problem. */
  lemma MissingBodyIsProblem(original: string, header: string, footer: string)
    requires !HasBlock(original, HeaderStart, HeaderEnd) && !HasBlock(original, FooterStart, FooterEnd)
    requires !HasTag(original, "header")
    requires forall k, g :: !BodyOpenAt(original, k, g)
    ensures ProcessPage(original, header, footer) == Problem
  {
  }

  /** A failed footer injection makes the page a problem even after its header block was
      replaced: the replacement is not written either. */
  lemma MissingBodyCloseIsProblem(original: string, header: string, footer: string)
    requires HasBlock(original, HeaderStart, HeaderEnd)
    requires var replaced := ReplaceBlock(original, HeaderStart, HeaderEnd, header).0;
      && !HasBlock(replaced, FooterStart, FooterEnd)
      && !HasTag(replaced, "footer")
      && forall k, g :: !BodyCloseAt(replaced, k, g)
    ensures ProcessPage(original, header, footer) == Problem
  {
  }

  /** The page text one run leaves: a problem page keeps its text. */
  function PageText(header: string, footer: string): (string, string) -> string {
    (path, text) => match ProcessPage(text, header, footer)
                    case Problem => text
                    case Page(t) => t
  }

  /** Paths below the partials directory. */
  predicate InPartials(path: string) {
    |PartialsDir| <= |path| && path[..|PartialsDir|] == PartialsDir
  }

  /** The html files main processes: every file found except the partials, in order. */
  function Pages(paths: seq<string>): (r: seq<string>)
    ensures forall p :: p in r <==> p in paths && !InPartials(p)
    ensures Distinct(paths) ==> Distinct(r)
    ensures |r| <= |paths|
  {
    if paths == [] then []
    else
      var init := paths[..|paths| - 1];
      var last := paths[|paths| - 1];
      assert paths == init + [last];
      var r := Pages(init);
      if InPartials(last) then r else r + [last]
  }

  /** Whether a page text is a problem for the given partials. */
  function IsProblem(header: string, footer: string): string -> bool {
    text => ProcessPage(text, header, footer).Problem?
  }

  /** How many of the pages are problems. */
  function ProblemCount(pages: map<string, string>, paths: seq<string>, problem: string -> bool): (n: nat)
    requires forall p :: p in paths ==> p in pages
    ensures n <= |paths|
  {
    if paths == [] then 0
    else
      var last := paths[|paths| - 1];
      ProblemCount(pages, paths[..|paths| - 1], problem) + if problem(pages[last]) then 1 else 0
  }

  /** read_partial: the stripped text of the partial plus a newline; stripping it again,
      as replace_block does, gives back the stripped text. */
  function ReadPartial(text: string): (r: string)
    ensures |r| > 0 && r[|r| - 1] == '\n'
    ensures Strip(r) == Strip(text)
  {
    StripAppendSpace(Strip(text), '\n');
    Strip(text) + "\n"
  }

  /** One page of main, reassigning the text step by step as the loop body does. */
  method SplicePage(original: string, header: string, footer: string) returns (result: PageResult)
    ensures result == ProcessPage(original, header, footer)
  {
    var html := original;
    var replaced := ReplaceBlock(html, HeaderStart, HeaderEnd, header);
    var headerReplaced := replaced.1;
    html := replaced.0;
    replaced := ReplaceBlock(html, FooterStart, FooterEnd, footer);
    var footerReplaced := replaced.1;
    html := replaced.0;
    if !headerReplaced && !HasTag(html, "header") {
      var injected := InjectAfterBodyOpen(html, header);
      if !injected.1 {
        return Problem;
      }
      html := injected.0;
    }
    if !footerReplaced && !HasTag(html, "footer") {
      var injected := InjectBeforeBodyClose(html, footer);
      if !injected.1 {
        return Problem;
      }
      html := injected.0;
    }
    return Page(html);
  }

  lemma ProblemCountStep(pages: map<string, string>, files: seq<string>, i: nat, problem: string -> bool)
    requires i < |files|
    requires forall p :: p in files ==> p in pages
    ensures ProblemCount(pages, files[..i + 1], problem)
         == ProblemCount(pages, files[..i], problem) + if problem(pages[files[i]]) then 1 else 0
  {
    assert files[..i + 1][..i] == files[..i];
  }

  /** One page of main: splice it; a problem page is left alone, a changed page is backed
      up once and written. */
  method RunPage(site: SiteDir, path: string, header: string, footer: string) returns (problem: bool, wrote: bool)
    requires path in site.pages
    modifies site
    ensures problem == IsProblem(header, footer)(old(site.pages)[path])
    ensures problem ==> !wrote
    ensures Committed(old(site.pages), old(site.backups), site.pages, site.backups,
                      path, PageText(header, footer)(path, old(site.pages)[path]), wrote)
  {
    var original := site.pages[path];
    var result := SplicePage(original, header, footer);
    problem := result.Problem?;
    if problem {
      wrote := false;
      assert site.pages == site.pages[path := original];
    } else {
      wrote := site.Commit(path, original, result.text);
      if !wrote {
        assert site.pages == site.pages[path := original];
      }
    }
  }

  /** A run never changes a partial, and never changes a problem page. */
  lemma RunKeepsPartialsAndProblems(pages: map<string, string>, paths: seq<string>, header: string, footer: string)
    requires Distinct(paths)
    requires forall p :: p in paths ==> p in pages
    ensures forall p :: p in pages && InPartials(p) ==>
      Rewrite(pages, Pages(paths), PageText(header, footer))[p] == pages[p]
    ensures forall p :: p in paths && ProcessPage(pages[p], header, footer).Problem? ==>
      Rewrite(pages, Pages(paths), PageText(header, footer))[p] == pages[p]
  {
    forall p | p in pages
      ensures p !in Pages(paths) ==> Rewrite(pages, Pages(paths), PageText(header, footer))[p] == pages[p]
      ensures p in Pages(paths) ==>
        Rewrite(pages, Pages(paths), PageText(header, footer))[p] == PageText(header, footer)(p, pages[p])
    {
      RewriteResult(pages, Pages(paths), PageText(header, footer), p);
    }
  }

  /** main: without both partials nothing happens; otherwise every page outside the
      partials is processed, a problem page is counted and left alone, and a changed page
      is backed up once and written. */
  method Run(site: SiteDir, paths: seq<string>) returns (ok: bool, changed: nat, skipped: nat, problems: nat)
    requires Distinct(paths)
    requires forall p :: p in paths ==> p in site.pages
    modifies site
    ensures ok <==> HeaderPath in old(site.pages) && FooterPath in old(site.pages)
    ensures !ok ==> site.pages == old(site.pages) && site.backups == old(site.backups)
    ensures ok ==>
      var update := PageText(ReadPartial(old(site.pages)[HeaderPath]), ReadPartial(old(site.pages)[FooterPath]));
      && site.pages == Rewrite(old(site.pages), Pages(paths), update)
      && site.backups == BackupsAfter(old(site.backups), old(site.pages), Written(old(site.pages), Pages(paths), update))
      && changed == |Written(old(site.pages), Pages(paths), update)|
      && changed + skipped == |Pages(paths)|
      && problems == ProblemCount(old(site.pages), Pages(paths),
                                  IsProblem(ReadPartial(old(site.pages)[HeaderPath]), ReadPartial(old(site.pages)[FooterPath])))
  {
    changed, skipped, problems := 0, 0, 0;
    if HeaderPath !in site.pages || FooterPath !in site.pages {
      return false, changed, skipped, problems;
    }
    ok := true;
    var header := ReadPartial(site.pages[HeaderPath]);
    var footer := ReadPartial(site.pages[FooterPath]);
    var files := Pages(paths);
    ghost var pages0 := site.pages;
    ghost var backups0 := site.backups;
    ghost var update := PageText(header, footer);
    ghost var problem := IsProblem(header, footer);
    RunSoFarStart(pages0, backups0, files, update);
    var i := 0;
    while i < |files|
      invariant RunSoFar(pages0, backups0, files, i, update, site.pages, site.backups, changed)
      invariant changed + skipped == i
      invariant problems == ProblemCount(pages0, files[..i], problem)
    {
      var path := files[i];
      ghost var pages, backups := site.pages, site.backups;
      var isProblem, wrote := RunPage(site, path, header, footer);
      CommitStep(pages0, backups0, files, i, update, pages, backups, changed, site.pages, site.backups, wrote);
      ProblemCountStep(pages0, files, i, problem);
      if isProblem {
        problems := problems + 1;
        skipped := skipped + 1;
      } else if wrote {
        changed := changed + 1;
      } else {
        skipped := skipped + 1;
      }
      i := i + 1;
    }
    RunSoFarAll(pages0, backups0, files, update, site.pages, site.backups, changed);
    assert files[..i] == files;
  }
}
