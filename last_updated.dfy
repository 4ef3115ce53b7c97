/** The "Last updated" inserter: after the first </h1> of every article page that has no
    <time datetime="…"> yet, a paragraph with the page's modification date is added. */
module LastUpdated {
  import opened Text
  import opened SiteFiles

  const H1Close := "</h1>"

  /** What follows the first </h1> after the insertion. */
  const SnippetHead := "\n<p class=\"last-updated\">"
  const TimeOpen := "<time datetime=\""

  function Snippet(date: string): string {
    SnippetHead + TimeOpen + date + "\">Last updated: " + date + "</time></p>"
  }

  /** add_last_updated: a page without a case-sensitive </h1> is returned as it is;
      otherwise the paragraph goes right after the first </h1>. */
  function AddLastUpdated(html: string, date: string): (r: string)
    ensures !Contains(html, H1Close) ==> r == html
    ensures Contains(html, H1Close) ==>
      var f := Find(html, H1Close).value + |H1Close|;
      r == html[..f] + Snippet(date) + html[f..]
  {
    if Contains(html, H1Close) then
      InsertAfterFirst(html, H1Close, Snippet(date), Find(html, H1Close).value);
      ReplaceFirst(html, H1Close, H1Close + Snippet(date))
    else
      ReplaceFirst(html, H1Close, H1Close + Snippet(date))
  }

  // ---------------------------------------------------------------------------
  // <time[^>]+datetime=["']([^"']+)["']   (case-insensitive)

  /** ["']([^"']+)["'] starting at v: a quote, a non-quote, and a quote further on. */
  predicate QuotedValueAt(s: string, v: int) {
    0 <= v && v + 1 < |s| && IsQuote(s[v]) && !IsQuote(s[v + 1]) &&
    exists q :: v + 1 < q < |s| && IsQuote(s[q])
  }

  /** The pattern matches with <time at i and datetime= at j. */
  predicate TimeTagMatch(s: string, i: int, j: int) {
    && OccursAtIgnoreCase(s, i, "<time")
    && OccursAtIgnoreCase(s, j, "datetime=")
    && i + 5 < j
    && (forall x :: i + 5 <= x < j ==> s[x] != '>')
    && QuotedValueAt(s, j + 9)
  }

  /** Some quote character at or after q. */
  function QuoteFrom(s: string, q: nat): bool
    requires q <= |s|
    decreases |s| - q
  {
    q < |s| && (IsQuote(s[q]) || QuoteFrom(s, q + 1))
  }

  lemma {:induction false} QuoteFromSpec(s: string, q: nat)
    requires q <= |s|
    ensures QuoteFrom(s, q) <==> exists x :: q <= x < |s| && IsQuote(s[x])
    decreases |s| - q
  {
    if q < |s| {
      QuoteFromSpec(s, q + 1);
    }
  }

  function ValueAt(s: string, v: nat): (b: bool)
    ensures b <==> QuotedValueAt(s, v)
  {
    if v + 1 < |s| && IsQuote(s[v]) && !IsQuote(s[v + 1]) then
      QuoteFromSpec(s, v + 2);
      QuoteFrom(s, v + 2)
    else false
  }

  /** Scans the rest of a <time tag from j, never crossing a '>', for datetime= and a value. */
  function AttributeFrom(s: string, j: nat): bool
    requires j <= |s|
    decreases |s| - j
  {
    if OccursAtIgnoreCase(s, j, "datetime=") && ValueAt(s, j + 9) then true
    else if j < |s| && s[j] != '>' then AttributeFrom(s, j + 1)
    else false
  }

  function TimeTagFrom(s: string, i: nat): bool
    requires i <= |s|
    decreases |s| - i
  {
    if i == |s| then false
    else if OccursAtIgnoreCase(s, i, "<time") && i + 5 < |s| && s[i + 5] != '>' && AttributeFrom(s, i + 6) then true
    else TimeTagFrom(s, i + 1)
  }

  /** has_time_tag_near_top */
  function HasTimeTag(html: string): bool {
    TimeTagFrom(html, 0)
  }

  lemma {:induction false} AttributeFromSpec(s: string, i: nat, j: nat)
    requires OccursAtIgnoreCase(s, i, "<time") && i + 5 < j <= |s|
    requires forall x :: i + 5 <= x < j ==> s[x] != '>'
    ensures AttributeFrom(s, j) <==> exists j' :: j <= j' && TimeTagMatch(s, i, j')
    decreases |s| - j
  {
    if OccursAtIgnoreCase(s, j, "datetime=") && ValueAt(s, j + 9) {
      assert TimeTagMatch(s, i, j);
    } else if j < |s| && s[j] != '>' {
      AttributeFromSpec(s, i, j + 1);
      if exists j' :: j <= j' && TimeTagMatch(s, i, j') {
        var j' :| j <= j' && TimeTagMatch(s, i, j');
        assert j' != j;
      }
    } else {
      forall j' | j <= j' ensures !TimeTagMatch(s, i, j') {
        if j' > j && j < |s| {
          assert i + 5 <= j < j';
        }
      }
    }
  }

  /** At one position, the scanner's test is the pattern's. */
  lemma TimeTagAtSpec(s: string, i: nat)
    requires i < |s|
    ensures (OccursAtIgnoreCase(s, i, "<time") && i + 5 < |s| && s[i + 5] != '>' && AttributeFrom(s, i + 6))
            <==> exists j :: TimeTagMatch(s, i, j)
  {
    if OccursAtIgnoreCase(s, i, "<time") && i + 5 < |s| && s[i + 5] != '>' {
      AttributeFromSpec(s, i, i + 6);
    }
    forall j | TimeTagMatch(s, i, j) ensures s[i + 5] != '>' && AttributeFrom(s, i + 6) {
      assert s[i + 5] != '>';
      AttributeFromSpec(s, i, i + 6);
    }
  }

  /** The scanner finds a match exactly when the pattern matches somewhere from i on. */
  lemma {:induction false} TimeTagFromSpec(s: string, i: nat)
    requires i <= |s|
    ensures TimeTagFrom(s, i) <==> exists i', j :: i <= i' && TimeTagMatch(s, i', j)
    decreases |s| - i
  {
    if i == |s| {
      forall i', j | i <= i' ensures !TimeTagMatch(s, i', j) {
      }
    } else {
      TimeTagAtSpec(s, i);
      TimeTagFromSpec(s, i + 1);
      if exists i', j :: i <= i' && TimeTagMatch(s, i', j) {
        var i', j :| i <= i' && TimeTagMatch(s, i', j);
        if i' > i {
          assert exists i'', j' :: i + 1 <= i'' && TimeTagMatch(s, i'', j');
        }
      }
    }
  }

  lemma HasTimeTagSpec(s: string)
    ensures HasTimeTag(s) <==> exists i, j :: TimeTagMatch(s, i, j)
  {
    TimeTagFromSpec(s, 0);
  }

  // ---------------------------------------------------------------------------
  // <h1[^>]*>.*?</h1>   (case-insensitive, '.' matching newlines)

  /** The pattern matches with <h1 at i, the tag's '>' at g and the closing tag at m. */
  predicate H1Match(s: string, i: int, g: int, m: int) {
    && OccursAtIgnoreCase(s, i, "<h1")
    && i + 3 <= g < m
    && OccursAtIgnoreCase(s, m, "</h1>")
    && s[g] == '>'
    && (forall x :: i + 3 <= x < g ==> s[x] != '>')
  }

  function H1From(s: string, i: nat): bool
    requires i <= |s|
    decreases |s| - i
  {
    if i == |s| then false
    else if OccursAtIgnoreCase(s, i, "<h1")
         && FindFrom(s, ">", i + 3).Some?
         && FindFrom(s, ">", i + 3).value + 1 <= |s|
         && FindFromIgnoreCase(s, "</h1>", FindFrom(s, ">", i + 3).value + 1).Some?
    then true
    else H1From(s, i + 1)
  }

  /** The article test of the main loop. */
  function HasH1(html: string): bool {
    H1From(html, 0)
  }

  lemma {:induction false} H1FromSpec(s: string, i: nat)
    requires i <= |s|
    ensures H1From(s, i) <==> exists i', g, m :: i <= i' && H1Match(s, i', g, m)
    decreases |s| - i
  {
    if i == |s| {
      forall i', g, m | i <= i' ensures !H1Match(s, i', g, m) {
      }
    } else {
      H1AtSpec(s, i);
      H1FromSpec(s, i + 1);
      if exists i', g, m :: i <= i' && H1Match(s, i', g, m) {
        var i', g, m :| i <= i' && H1Match(s, i', g, m);
        if i' > i {
          assert exists i'', g', m' :: i + 1 <= i'' && H1Match(s, i'', g', m');
        }
      }
    }
  }

  /** At one position, the scanner's test is the pattern's. */
  lemma H1AtSpec(s: string, i: nat)
    requires i < |s|
    ensures (OccursAtIgnoreCase(s, i, "<h1")
             && FindFrom(s, ">", i + 3).Some?
             && FindFrom(s, ">", i + 3).value + 1 <= |s|
             && FindFromIgnoreCase(s, "</h1>", FindFrom(s, ">", i + 3).value + 1).Some?)
            <==> exists g, m :: H1Match(s, i, g, m)
  {
    forall g, m | H1Match(s, i, g, m)
      ensures FindFrom(s, ">", i + 3).Some? && FindFrom(s, ">", i + 3).value <= g
    {
      CharAt(s, g, '>');
    }
    if OccursAtIgnoreCase(s, i, "<h1") {
      var f := FindFrom(s, ">", i + 3);
      if f.Some? && f.value + 1 <= |s| && FindFromIgnoreCase(s, "</h1>", f.value + 1).Some? {
        CharAt(s, f.value, '>');
        forall x | i + 3 <= x < f.value ensures s[x] != '>' { CharAt(s, x, '>'); }
        assert H1Match(s, i, f.value, FindFromIgnoreCase(s, "</h1>", f.value + 1).value);
      }
    }
  }

  // ---------------------------------------------------------------------------
  // The per-file decision of main

  /** The text main leaves in one page: pages without an h1 or with a time tag are
      skipped, the others go through add_last_updated. */
  function UpdatedPage(original: string, date: string): (r: string)
    ensures !HasH1(original) || HasTimeTag(original) ==> r == original
    ensures r != original ==> |r| == |original| + |Snippet(date)| && Contains(original, H1Close)
  {
    if !HasH1(original) || HasTimeTag(original) then original
    else AddLastUpdated(original, date)
  }

  /** A page is rewritten exactly when it has an h1, no time tag and a lower-case </h1>. */
  lemma UpdatedPageChanges(original: string, date: string)
    ensures UpdatedPage(original, date) != original <==>
      HasH1(original) && !HasTimeTag(original) && Contains(original, H1Close)
  {
    if Contains(original, H1Close) {
      assert |AddLastUpdated(original, date)| > |original|;
    }
  }

  /** "<H1>News</H1>": an article by the case-insensitive test, with no lower-case </h1>. */
  const UppercasePage := "<H1>News</H1>"

  lemma UppercasePageHasH1()
    ensures HasH1(UppercasePage)
  {
    assert H1Match(UppercasePage, 0, 3, 8);
    H1FromSpec(UppercasePage, 0);
  }

  lemma UppercasePageNoClose()
    ensures !Contains(UppercasePage, H1Close)
  {
    var s := UppercasePage;
    assert forall x :: 0 <= x < |s| ==> s[x] != 'h';
    forall k | 0 <= k <= |s| ensures !OccursAt(s, k, H1Close) {
      if k + 5 <= |s| {
        assert s[k..k + 5][2] == s[k + 2];
      }
    }
  }

  lemma UppercasePageNoTimeTag()
    ensures !HasTimeTag(UppercasePage)
  {
    var s := UppercasePage;
    assert forall x :: 0 <= x < |s| ==> Lower(s[x]) != 't';
    HasTimeTagSpec(s);
  }

  /** The quirk is reachable: such a page is counted as skipped and never gains a date. */
  lemma UppercaseCloseExample(date: string)
    ensures HasH1(UppercasePage) && !HasTimeTag(UppercasePage) && UpdatedPage(UppercasePage, date) == UppercasePage
  {
    UppercasePageHasH1();
    UppercasePageNoClose();
    UppercasePageNoTimeTag();
  }

  /** An ISO date: not empty and not starting with a quote character. */
  predicate PlainDate(date: string) {
    date != [] && !IsQuote(date[0])
  }

  /** Moving a match into a longer text keeps it a match. */
  lemma TimeTagMatchShift(x: string, y: string, z: string, i: int, j: int)
    requires TimeTagMatch(y, i, j)
    ensures TimeTagMatch(x + y + z, |x| + i, |x| + j)
  {
    var s := x + y + z;
    assert forall k :: 0 <= k < |y| ==> s[|x| + k] == y[k];
    var q :| j + 10 < q < |y| && IsQuote(y[q]);
    assert IsQuote(s[|x| + q]);
  }

  /** The fixed start of the paragraph: "<time" at 25, a space, "datetime=" at 31 and
      the opening quote at 40. */
  lemma SnippetStart()
    ensures var head := SnippetHead + TimeOpen;
      && |head| == 41
      && head[25..30] == "<time" && head[30] == ' '
      && head[31..40] == "datetime=" && head[40] == '"'
  {
    var head := SnippetHead + TimeOpen;
    assert |SnippetHead| == 25 && |TimeOpen| == 16;
    assert head[25..] == TimeOpen;
    assert head[30] == TimeOpen[5] == ' ';
    assert head[40] == TimeOpen[15] == '"';
    assert head[25..30] == TimeOpen[..5] == "<time";
    assert head[31..40] == TimeOpen[6..15] == "datetime=";
  }

  /** Any text that starts with the paragraph's opening and goes on with an unquoted
      value followed somewhere by a quote has the time tag there. */
  lemma HeadTimeTag(y: string, rest: string)
    requires y == SnippetHead + TimeOpen + rest
    requires rest != [] && !IsQuote(rest[0])
    requires exists q :: 0 < q < |rest| && IsQuote(rest[q])
    ensures TimeTagMatch(y, 25, 31)
  {
    var head := SnippetHead + TimeOpen;
    SnippetStart();
    assert y[..41] == head;
    assert y[25..30] == "<time" by { assert y[25..30] == y[..41][25..30]; }
    LowerCaseOccurs(y, 25, "<time");
    assert y[31..40] == "datetime=" by { assert y[31..40] == y[..41][31..40]; }
    LowerCaseOccurs(y, 31, "datetime=");
    assert y[30] == ' ' && y[40] == '"';
    assert y[41] == rest[0];
    var q :| 0 < q < |rest| && IsQuote(rest[q]);
    assert y[41 + q] == rest[q];
  }

  /** The inserted paragraph is itself what has_time_tag_near_top looks for. */
  lemma SnippetHasTimeTag(date: string)
    requires PlainDate(date)
    ensures TimeTagMatch(Snippet(date), 25, 31)
  {
    var rest := date + "\">Last updated: " + date + "</time></p>";
    assert rest[|date|] == '"';
    HeadTimeTag(Snippet(date), rest);
  }

  /** After an insertion the page carries a time tag, whatever date the next run uses. */
  lemma {:induction false} InsertedTimeTagIsDetected(html: string, date: string)
    requires PlainDate(date) && Contains(html, H1Close)
    ensures HasTimeTag(AddLastUpdated(html, date))
  {
    var f := Find(html, H1Close).value;
    var x, z := html[..f + |H1Close|], html[f + |H1Close|..];
    assert AddLastUpdated(html, date) == x + Snippet(date) + z;
    SnippetHasTimeTag(date);
    TimeTagMatchShift(x, Snippet(date), z, 25, 31);
    HasTimeTagSpec(x + Snippet(date) + z);
  }

  /** Idempotence: a page the first run rewrote is skipped by any later run. */
  lemma SecondRunSkips(original: string, date1: string, date2: string)
    requires PlainDate(date1) && UpdatedPage(original, date1) != original
    ensures HasTimeTag(UpdatedPage(original, date1))
    ensures UpdatedPage(UpdatedPage(original, date1), date2) == UpdatedPage(original, date1)
  {
    UpdatedPageChanges(original, date1);
    InsertedTimeTagIsDetected(original, date1);
  }

  /** A page the first run left alone is left alone by every run. */
  lemma UnwrittenStaysUnwritten(original: string, date1: string, date2: string)
    requires UpdatedPage(original, date1) == original
    ensures UpdatedPage(original, date2) == original
  {
    UpdatedPageChanges(original, date1);
    UpdatedPageChanges(original, date2);
  }

  // ---------------------------------------------------------------------------
  // The run over all pages

  /** One run, given the modification date of every file. */
  function PageUpdate(mtime: string -> string): (string, string) -> string {
    (path, text) => UpdatedPage(text, mtime(path))
  }

  /** Running the tool twice leaves the pages as running it once. */
  lemma RunTwiceIsRunOnce(pages: map<string, string>, paths: seq<string>,
                          mtime1: string -> string, mtime2: string -> string)
    requires Distinct(paths)
    requires forall p :: p in paths ==> p in pages && PlainDate(mtime1(p))
    ensures Rewrite(Rewrite(pages, paths, PageUpdate(mtime1)), paths, PageUpdate(mtime2))
         == Rewrite(pages, paths, PageUpdate(mtime1))
  {
    var once := Rewrite(pages, paths, PageUpdate(mtime1));
    var twice := Rewrite(once, paths, PageUpdate(mtime2));
    forall p | p in once
      ensures twice[p] == once[p]
    {
      RewriteResult(pages, paths, PageUpdate(mtime1), p);
      RewriteResult(once, paths, PageUpdate(mtime2), p);
      if p in paths {
        if UpdatedPage(pages[p], mtime1(p)) != pages[p] {
          SecondRunSkips(pages[p], mtime1(p), mtime2(p));
        } else {
          UnwrittenStaysUnwritten(pages[p], mtime1(p), mtime2(p));
        }
      }
    }
  }

  /** One page of main: skipped, or given the paragraph and then backed up once and
      written when its text changed. */
  method RunPage(site: SiteDir, path: string, mtime: string -> string) returns (wrote: bool)
    requires path in site.pages
    modifies site
    ensures Committed(old(site.pages), old(site.backups), site.pages, site.backups,
                      path, PageUpdate(mtime)(path, old(site.pages)[path]), wrote)
  {
    var date := mtime(path);
    var original := site.pages[path];
    if !HasH1(original) || HasTimeTag(original) {
      wrote := false;
    } else {
      var updated := AddLastUpdated(original, date);
      wrote := site.Commit(path, original, updated);
    }
    if !wrote {
      assert site.pages == site.pages[path := original];
    }
  }

  /** main: pages without an h1 or with a time tag are skipped; the others get the
      paragraph, and a changed page is backed up once and written. */
  method Run(site: SiteDir, paths: seq<string>, mtime: string -> string)
    returns (changed: nat, skipped: nat)
    requires Distinct(paths)
    requires forall p :: p in paths ==> p in site.pages
    modifies site
    ensures site.pages == Rewrite(old(site.pages), paths, PageUpdate(mtime))
    ensures site.backups ==
      BackupsAfter(old(site.backups), old(site.pages), Written(old(site.pages), paths, PageUpdate(mtime)))
    ensures changed == |Written(old(site.pages), paths, PageUpdate(mtime))| && changed + skipped == |paths|
  {
    ghost var pages0 := site.pages;
    ghost var backups0 := site.backups;
    ghost var update := PageUpdate(mtime);
    changed, skipped := 0, 0;
    RunSoFarStart(pages0, backups0, paths, update);
    var i := 0;
    while i < |paths|
      invariant RunSoFar(pages0, backups0, paths, i, update, site.pages, site.backups, changed)
      invariant changed + skipped == i
    {
      var path := paths[i];
      ghost var pages, backups := site.pages, site.backups;
      var wrote := RunPage(site, path, mtime);
      CommitStep(pages0, backups0, paths, i, update, pages, backups, changed, site.pages, site.backups, wrote);
      if wrote {
        changed := changed + 1;
      } else {
        skipped := skipped + 1;
      }
      i := i + 1;
    }
    RunSoFarAll(pages0, backups0, paths, update, site.pages, site.backups, changed);
  }
}
