/** The JSON-LD injector: every article page under en/ loses its old Article and FAQPage
    structured data and gets a fresh Article record, plus a FAQPage record when the page
    has a FAQ section, in front of </head>. */
module SchemaInject {
  import opened Text
  import opened SiteFiles

  const Domain := "https://www.expenselypro.com"
  const SchemaContext := "https://schema.org"
  const DescriptionLimit := 300
  const FaqLimit := 8
  const HeadClose := "</head>"
  const ScriptOpen := "<script type=\"application/ld+json\">"
  const ScriptClose := "</script>"

  // ---------------------------------------------------------------------------
  // JSON values, as the tool builds them (objects keep their insertion order)

  datatype Json = JString(s: string) | JArray(items: seq<Json>) | JObject(members: seq<(string, Json)>)

  /** The object has member `key` with value `value`. */
  predicate Has(obj: Json, key: string, value: Json) {
    obj.JObject? && exists i :: 0 <= i < |obj.members| && obj.members[i] == (key, value)
  }

  predicate HasKey(obj: Json, key: string) {
    obj.JObject? && exists i :: 0 <= i < |obj.members| && obj.members[i].0 == key
  }

  predicate DistinctKeys(obj: Json) {
    obj.JObject? && forall i, j :: 0 <= i < j < |obj.members| ==> obj.members[i].0 != obj.members[j].0
  }

  // ---------------------------------------------------------------------------
  // strip_article_faq_ldjson

  /** One element of a parsed @type list: a string, or any other hashable JSON value. */
  datatype TypeItem = ItemName(name: string) | ItemOther

  /** The @type member of a parsed payload: missing, a string, a list, or anything else. */
  datatype TypeValue = Absent | Name(name: string) | Names(items: seq<TypeItem>) | OtherValue

  /** The payload of an ld+json script after json.loads: a failure, or an object. */
  datatype Payload = Unparsable | Parsed(atType: TypeValue)

  /** A page is text and ld+json script blocks; a block keeps its exact source text. */
  datatype Piece = Markup(text: string) | LdJsonBlock(source: string, payload: Payload)

  /** `name in types`, with types = set(t) for a list and {t} otherwise. */
  predicate TypeIncludes(t: TypeValue, name: string) {
    match t
    case Name(n) => n == name
    case Names(items) => ItemName(name) in items
    case _ => false
  }

  /** The rule of repl: a block goes when its payload parses and names Article or FAQPage. */
  predicate Removed(p: Piece) {
    && p.LdJsonBlock?
    && p.payload.Parsed?
    && (TypeIncludes(p.payload.atType, "Article") || TypeIncludes(p.payload.atType, "FAQPage"))
  }

  function Render(pieces: seq<Piece>): string {
    if pieces == [] then []
    else (match pieces[0] case Markup(t) => t case LdJsonBlock(src, _) => src) + Render(pieces[1..])
  }

  function StripArticleFaq(pieces: seq<Piece>): (r: seq<Piece>)
    ensures |r| <= |pieces|
  {
    if pieces == [] then []
    else (if Removed(pieces[0]) then [] else [pieces[0]]) + StripArticleFaq(pieces[1..])
  }

  /** Exactly the blocks that are not Article or FAQPage blocks survive, and all markup. */
  lemma {:induction false} StripArticleFaqKeeps(pieces: seq<Piece>)
    ensures forall p :: p in StripArticleFaq(pieces) <==> p in pieces && !Removed(p)
  {
    if pieces != [] {
      StripArticleFaqKeeps(pieces[1..]);
      assert forall p :: p in pieces <==> p == pieces[0] || p in pieces[1..];
    }
  }

  /** The blocks are judged one by one and stay in document order. */
  lemma {:induction false} StripArticleFaqAppend(a: seq<Piece>, b: seq<Piece>)
    ensures StripArticleFaq(a + b) == StripArticleFaq(a) + StripArticleFaq(b)
  {
    if a != [] {
      var head := if Removed(a[0]) then [] else [a[0]];
      assert (a + b)[0] == a[0];
      assert (a + b)[1..] == a[1..] + b;
      StripArticleFaqAppend(a[1..], b);
      calc {
        StripArticleFaq(a + b);
        head + StripArticleFaq(a[1..] + b);
        head + (StripArticleFaq(a[1..]) + StripArticleFaq(b));
        (head + StripArticleFaq(a[1..])) + StripArticleFaq(b);
      }
    } else {
      assert a + b == b;
    }
  }

  /** Stripping twice is stripping once. */
  lemma {:induction false} StripArticleFaqIdempotent(pieces: seq<Piece>)
    ensures StripArticleFaq(StripArticleFaq(pieces)) == StripArticleFaq(pieces)
  {
    if pieces != [] {
      var rest := StripArticleFaq(pieces[1..]);
      StripArticleFaqIdempotent(pieces[1..]);
      StripArticleFaqAppend([pieces[0]], rest);
      assert [pieces[0]][1..] == [];
      if !Removed(pieces[0]) {
        assert StripArticleFaq(pieces) == [pieces[0]] + rest;
      } else {
        assert StripArticleFaq(pieces) == rest;
      }
    }
  }

  /** A page without Article or FAQPage blocks comes out unchanged. */
  lemma {:induction false} StripArticleFaqNothingToRemove(pieces: seq<Piece>)
    requires forall p :: p in pieces ==> !Removed(p)
    ensures StripArticleFaq(pieces) == pieces
  {
    if pieces != [] {
      assert forall p :: p in pieces[1..] ==> p in pieces;
      StripArticleFaqNothingToRemove(pieces[1..]);
    }
  }

  /** Unparsable blocks and blocks of other types are kept, whatever their text. */
  lemma KeptBlocks(source: string, t: TypeValue)
    requires !TypeIncludes(t, "Article") && !TypeIncludes(t, "FAQPage")
    ensures StripArticleFaq([LdJsonBlock(source, Unparsable)]) == [LdJsonBlock(source, Unparsable)]
    ensures StripArticleFaq([LdJsonBlock(source, Parsed(t))]) == [LdJsonBlock(source, Parsed(t))]
  {
    assert [LdJsonBlock(source, Unparsable)][1..] == [];
    assert [LdJsonBlock(source, Parsed(t))][1..] == [];
  }

  // ---------------------------------------------------------------------------
  // inject_into_head

  function InjectIntoHead(html: string, scripts: string): (r: string)
    ensures |r| == |html| + |scripts| + 1
    ensures Contains(html, HeadClose) ==>
      var f := Find(html, HeadClose).value;
      r == html[..f] + scripts + "\n" + html[f..]
    ensures !Contains(html, HeadClose) ==> r == scripts + "\n" + html
  {
    match Find(html, HeadClose)
    case Some(f) =>
      ReplaceFirstSplit(html, HeadClose, scripts + "\n" + HeadClose, f);
      assert html[f..] == HeadClose + html[f + |HeadClose|..];
      ReplaceFirst(html, HeadClose, scripts + "\n" + HeadClose)
    case None => scripts + "\n" + html
  }

  /** Taking the inserted scripts out again gives back the page: nothing else changed. */
  lemma InjectIntoHeadInverse(html: string, scripts: string)
    ensures var f := if Contains(html, HeadClose) then Find(html, HeadClose).value else 0;
      var r := InjectIntoHead(html, scripts);
      && r[f..f + |scripts| + 1] == scripts + "\n"
      && r[..f] + r[f + |scripts| + 1..] == html
  {
    var f := if Contains(html, HeadClose) then Find(html, HeadClose).value else 0;
    var x, y, z := html[..f], scripts + "\n", html[f..];
    assert InjectIntoHead(html, scripts) == x + y + z;
    ConcatParts(x, y, z);
    assert x + z == html;
  }

  // ---------------------------------------------------------------------------
  // detect_faq_pairs: the (question, answer) captures of every FAQ block are given

  /** One entry of the FAQPage mainEntity list. */
  function QuestionEntity(q: string, a: string): Json {
    JObject([("@type", JString("Question")), ("name", JString(q)),
             ("acceptedAnswer", JObject([("@type", JString("Answer")), ("text", JString(a))]))])
  }

  /** A kept pair: neither the cleaned question nor the cleaned answer is empty. */
  predicate NonEmptyPair(pair: (string, string)) {
    pair.0 != "" && pair.1 != ""
  }

  /** A pair as strip_tags leaves it. */
  predicate CleanPair(pair: (string, string)) {
    SpaceNormal(pair.0) && SpaceNormal(pair.1) && TagFree(pair.0) && TagFree(pair.1)
  }

  /** Both parts of a captured pair through the tag stripper. */
  function Cleaned(pair: (string, string), strip: string -> string): (string, string) {
    (strip(pair.0), strip(pair.1))
  }

  /** The cleaned pairs of one FAQ block that survive the filter, in order. The stripper
      is a parameter so that the loop proofs below do not depend on how it works; the
      tool uses strip_tags. */
  function CleanBlock(raw: seq<(string, string)>, strip: string -> string): (r: seq<(string, string)>)
    ensures |r| <= |raw|
    ensures forall i :: 0 <= i < |r| ==> NonEmptyPair(r[i])
    ensures forall j :: 0 <= j < |raw| && NonEmptyPair(Cleaned(raw[j], strip)) ==> Cleaned(raw[j], strip) in r
    decreases |raw|
  {
    if raw == [] then []
    else
      var init := CleanBlock(raw[..|raw| - 1], strip);
      var pair := Cleaned(raw[|raw| - 1], strip);
      assert forall j :: 0 <= j < |raw| - 1 ==> raw[..|raw| - 1][j] == raw[j];
      if NonEmptyPair(pair) then init + [pair] else init
  }

  lemma CleanBlockStep(raw: seq<(string, string)>, k: nat, strip: string -> string)
    requires k < |raw|
    ensures CleanBlock(raw[..k + 1], strip) ==
      if NonEmptyPair(Cleaned(raw[k], strip)) then CleanBlock(raw[..k], strip) + [Cleaned(raw[k], strip)]
      else CleanBlock(raw[..k], strip)
  {
    var r := raw[..k + 1];
    assert r[..|r| - 1] == raw[..k];
  }

  /** Every kept pair is the cleaned form of one of the captured pairs. */
  lemma {:induction false} CleanBlockFrom(raw: seq<(string, string)>, strip: string -> string)
    ensures forall i :: 0 <= i < |CleanBlock(raw, strip)| ==>
      exists j :: 0 <= j < |raw| && CleanBlock(raw, strip)[i] == Cleaned(raw[j], strip)
    decreases |raw|
  {
    var r := CleanBlock(raw, strip);
    if raw != [] {
      var init := raw[..|raw| - 1];
      var last := |raw| - 1;
      CleanBlockFrom(init, strip);
      forall i | 0 <= i < |r| ensures exists j :: 0 <= j < |raw| && r[i] == Cleaned(raw[j], strip) {
        if i < |CleanBlock(init, strip)| {
          var j :| 0 <= j < |init| && CleanBlock(init, strip)[i] == Cleaned(init[j], strip);
          assert init[j] == raw[j];
        } else {
          assert r[i] == Cleaned(raw[last], strip);
        }
      }
    } else {
      assert r == [];
    }
  }

  /** Kept pairs are clean: strip_tags leaves single spaces and no tags. */
  lemma CleanBlockClean(raw: seq<(string, string)>)
    ensures forall i :: 0 <= i < |CleanBlock(raw, StripTags)| ==> CleanPair(CleanBlock(raw, StripTags)[i])
  {
    CleanBlockFrom(raw, StripTags);
    forall i | 0 <= i < |CleanBlock(raw, StripTags)| ensures CleanPair(CleanBlock(raw, StripTags)[i]) {
      var j :| 0 <= j < |raw| && CleanBlock(raw, StripTags)[i] == Cleaned(raw[j], StripTags);
      var q, a := StripTags(raw[j].0), StripTags(raw[j].1);
    }
  }

  /** The kept pairs of all FAQ blocks, block after block. */
  function CleanPairs(blocks: seq<seq<(string, string)>>, strip: string -> string): (r: seq<(string, string)>)
    ensures forall i :: 0 <= i < |r| ==> NonEmptyPair(r[i])
    ensures forall b, j :: 0 <= b < |blocks| && 0 <= j < |blocks[b]| && NonEmptyPair(Cleaned(blocks[b][j], strip)) ==>
      Cleaned(blocks[b][j], strip) in r
    decreases |blocks|
  {
    if blocks == [] then []
    else
      assert forall b :: 0 <= b < |blocks| - 1 ==> blocks[..|blocks| - 1][b] == blocks[b];
      CleanPairs(blocks[..|blocks| - 1], strip) + CleanBlock(blocks[|blocks| - 1], strip)
  }

  lemma CleanPairsStep(blocks: seq<seq<(string, string)>>, b: nat, strip: string -> string)
    requires b < |blocks|
    ensures CleanPairs(blocks[..b + 1], strip) == CleanPairs(blocks[..b], strip) + CleanBlock(blocks[b], strip)
  {
    var r := blocks[..b + 1];
    assert r[..|r| - 1] == blocks[..b];
  }

  lemma {:induction false} CleanPairsClean(blocks: seq<seq<(string, string)>>)
    ensures forall i :: 0 <= i < |CleanPairs(blocks, StripTags)| ==> CleanPair(CleanPairs(blocks, StripTags)[i])
    decreases |blocks|
  {
    if blocks != [] {
      CleanPairsClean(blocks[..|blocks| - 1]);
      CleanBlockClean(blocks[|blocks| - 1]);
    }
  }

  /** Pairs found in earlier blocks come first: the pairs of a first part of the blocks are
      a prefix of the pairs of all of them. */
  lemma {:induction false} CleanPairsPrefix(blocks: seq<seq<(string, string)>>, n: nat, strip: string -> string)
    requires n <= |blocks|
    ensures CleanPairs(blocks[..n], strip) <= CleanPairs(blocks, strip)
    decreases |blocks|
  {
    if n < |blocks| {
      assert blocks[..|blocks| - 1][..n] == blocks[..n];
      CleanPairsPrefix(blocks[..|blocks| - 1], n, strip);
    } else {
      assert blocks[..n] == blocks;
    }
  }

  /** One Question entity per pair, in order. */
  function Entities(pairs: seq<(string, string)>): (r: seq<Json>)
    ensures |r| == |pairs|
    ensures forall i :: 0 <= i < |r| ==> r[i] == QuestionEntity(pairs[i].0, pairs[i].1)
  {
    seq(|pairs|, i requires 0 <= i < |pairs| => QuestionEntity(pairs[i].0, pairs[i].1))
  }

  lemma EntitiesPrefix(pairs: seq<(string, string)>, n: nat)
    requires n <= |pairs|
    ensures Entities(pairs)[..n] == Entities(pairs[..n])
  {
  }

  /** What detect_faq_pairs returns: the entities of the first eight kept pairs. */
  function FaqEntities(blocks: seq<seq<(string, string)>>): (r: seq<Json>)
    ensures |r| <= FaqLimit
    ensures var pairs := CleanPairs(blocks, StripTags);
      && |r| == (if |pairs| < FaqLimit then |pairs| else FaqLimit)
      && forall i :: 0 <= i < |r| ==> r[i] == QuestionEntity(pairs[i].0, pairs[i].1)
  {
    var pairs := CleanPairs(blocks, StripTags);
    Entities(if |pairs| < FaqLimit then pairs else pairs[..FaqLimit])
  }

  /** Every entity names a non-empty cleaned question and a non-empty cleaned answer,
      and they follow document order. */
  lemma FaqEntitiesAreCleanPairs(blocks: seq<seq<(string, string)>>)
    ensures var pairs := CleanPairs(blocks, StripTags);
      forall i :: 0 <= i < |FaqEntities(blocks)| ==>
        && i < |pairs| && NonEmptyPair(pairs[i]) && CleanPair(pairs[i])
        && FaqEntities(blocks)[i] == QuestionEntity(pairs[i].0, pairs[i].1)
  {
    CleanPairsClean(blocks);
    var pairs := CleanPairs(blocks, StripTags);
    if |pairs| >= FaqLimit {
      assert forall i :: 0 <= i < FaqLimit ==> pairs[..FaqLimit][i] == pairs[i];
    }
  }

  /** The inner loop of detect_faq_pairs: the kept pairs of one block, appended. */
  method AppendBlock(found: seq<Json>, ghost pairs: seq<(string, string)>, block: seq<(string, string)>,
                     strip: string -> string)
    returns (found': seq<Json>, ghost pairs': seq<(string, string)>)
    requires found == Entities(pairs)
    ensures pairs' == pairs + CleanBlock(block, strip)
    ensures found' == Entities(pairs')
  {
    found', pairs' := found, pairs;
    var k := 0;
    while k < |block|
      invariant 0 <= k <= |block|
      invariant pairs' == pairs + CleanBlock(block[..k], strip)
      invariant found' == Entities(pairs')
    {
      var q, a := strip(block[k].0), strip(block[k].1);
      CleanBlockStep(block, k, strip);
      if q != "" && a != "" {
        found' := found' + [QuestionEntity(q, a)];
        assert pairs' + [(q, a)] == pairs + (CleanBlock(block[..k], strip) + [(q, a)]);
        pairs' := pairs' + [(q, a)];
      }
      k := k + 1;
    }
    assert block[..k] == block;
  }

  /** detect_faq_pairs: a loop over the blocks and, inside it, over their pairs, keeping
      the pairs whose cleaned question and answer are both non-empty, then the cap. */
  method DetectFaqPairs(blocks: seq<seq<(string, string)>>) returns (entities: seq<Json>)
    ensures entities == FaqEntities(blocks)
  {
    var found: seq<Json> := [];
    ghost var pairs: seq<(string, string)> := [];
    var b := 0;
    while b < |blocks|
      invariant 0 <= b <= |blocks|
      invariant pairs == CleanPairs(blocks[..b], StripTags)
      invariant found == Entities(pairs)
    {
      CleanPairsStep(blocks, b, StripTags);
      found, pairs := AppendBlock(found, pairs, blocks[b], StripTags);
      b := b + 1;
    }
    assert blocks[..b] == blocks;
    entities := if |found| < FaqLimit then found else found[..FaqLimit];
    if |found| >= FaqLimit {
      EntitiesPrefix(pairs, FaqLimit);
    }
  }

  // ---------------------------------------------------------------------------
  // build_article_schema and build_faq_schema

  function BuildArticleSchema(headline: string, description: string, canonical: string,
                              datePub: string, dateMod: string, imageAbs: string): (obj: Json)
    ensures obj.JObject?
  {
    JObject([
      ("@context", JString(SchemaContext)),
      ("@type", JString("Article")),
      ("headline", JString(headline)),
      ("description", JString(description)),
      ("author", JObject([("@type", JString("Person")), ("name", JString("Fouad Shawish"))])),
      ("datePublished", JString(datePub)),
      ("dateModified", JString(dateMod)),
      ("mainEntityOfPage", JObject([("@type", JString("WebPage")), ("@id", JString(canonical))])),
      ("publisher", JObject([
        ("@type", JString("Organization")),
        ("name", JString("Expensely Pro")),
        ("logo", JObject([("@type", JString("ImageObject")), ("url", JString("https://www.expenselypro.com/icon.png"))]))]))
    ] + if imageAbs != "" then [("image", JString(imageAbs))] else [])
  }

  /** The keys build_article_schema always writes, in order. */
  const ArticleKeys: seq<string> := ["@context", "@type", "headline", "description", "author",
                                     "datePublished", "dateModified", "mainEntityOfPage", "publisher"]

  lemma ArticleKeysDistinct()
    ensures forall i, j :: 0 <= i < j < |ArticleKeys| ==> ArticleKeys[i] != ArticleKeys[j]
    ensures "image" !in ArticleKeys
  {
  }

  /** The Article record has no key twice, and an image exactly when there is an image URL. */
  lemma ArticleSchemaKeys(headline: string, description: string, canonical: string,
                          datePub: string, dateMod: string, imageAbs: string)
    ensures var obj := BuildArticleSchema(headline, description, canonical, datePub, dateMod, imageAbs);
      && DistinctKeys(obj)
      && (HasKey(obj, "image") <==> imageAbs != "")
  {
    var m := BuildArticleSchema(headline, description, canonical, datePub, dateMod, imageAbs).members;
    ArticleKeysDistinct();
    assert forall i :: 0 <= i < 9 ==> m[i].0 == ArticleKeys[i];
    if imageAbs != "" {
      assert |m| == 10 && m[9].0 == "image";
    } else {
      assert |m| == 9;
    }
  }

  /** The Article record is typed Article and passes its fields through unchanged. */
  lemma ArticleSchemaFields(headline: string, description: string, canonical: string,
                            datePub: string, dateMod: string, imageAbs: string)
    ensures var obj := BuildArticleSchema(headline, description, canonical, datePub, dateMod, imageAbs);
      && Has(obj, "@context", JString(SchemaContext))
      && Has(obj, "@type", JString("Article"))
      && Has(obj, "headline", JString(headline))
      && Has(obj, "description", JString(description))
      && Has(obj, "datePublished", JString(datePub))
      && Has(obj, "dateModified", JString(dateMod))
      && Has(obj, "mainEntityOfPage", JObject([("@type", JString("WebPage")), ("@id", JString(canonical))]))
      && (imageAbs != "" ==> Has(obj, "image", JString(imageAbs)))
  {
    var m := BuildArticleSchema(headline, description, canonical, datePub, dateMod, imageAbs).members;
    assert m[0] == ("@context", JString(SchemaContext)) && m[1] == ("@type", JString("Article"));
    assert m[2] == ("headline", JString(headline)) && m[3] == ("description", JString(description));
    assert m[5] == ("datePublished", JString(datePub)) && m[6] == ("dateModified", JString(dateMod));
    assert m[7] == ("mainEntityOfPage", JObject([("@type", JString("WebPage")), ("@id", JString(canonical))]));
    if imageAbs != "" {
      assert m[9] == ("image", JString(imageAbs));
    }
  }

  function BuildFaqSchema(entities: seq<Json>): Json {
    JObject([("@context", JString(SchemaContext)), ("@type", JString("FAQPage")), ("mainEntity", JArray(entities))])
  }

  /** The FAQPage record carries the entities, in order, as its mainEntity list. */
  lemma FaqSchemaShape(entities: seq<Json>)
    ensures var obj := BuildFaqSchema(entities);
      && DistinctKeys(obj)
      && Has(obj, "@type", JString("FAQPage"))
      && Has(obj, "mainEntity", JArray(entities))
  {
    var m := BuildFaqSchema(entities).members;
    assert m[1] == ("@type", JString("FAQPage")) && m[2] == ("mainEntity", JArray(entities));
  }

  // ---------------------------------------------------------------------------
  // The fields main derives for one page

  /** The 300-character bound, then re.sub(r"\s+", " ", …).strip(). */
  function Description(raw: string): (d: string)
    ensures |d| <= DescriptionLimit
    ensures SpaceNormal(d)
    ensures NonSpace(d) == NonSpace(raw[..if |raw| < DescriptionLimit then |raw| else DescriptionLimit])
    ensures d == Join(Words(raw[..if |raw| < DescriptionLimit then |raw| else DescriptionLimit]), " ")
  {
    NormalizeSpace(raw[..if |raw| < DescriptionLimit then |raw| else DescriptionLimit])
  }

  /** get_meta_description, given its two captures: the meta content, else the first
      paragraph, each through strip_tags. */
  function MetaDescription(meta: Option<string>, paragraph: Option<string>): (r: string)
    ensures SpaceNormal(r) && TagFree(r)
    ensures meta.Some? ==> r == Join(Words(RemoveTags(meta.value)), " ")
    ensures meta.None? && paragraph.Some? ==> r == Join(Words(RemoveTags(paragraph.value)), " ")
    ensures meta.None? && paragraph.None? ==> r == ""
  {
    match meta
    case Some(m) => StripTags(m)
    case None => match paragraph case Some(p) => StripTags(p) case None => ""
  }

  /** The <time datetime> value when there is a non-blank one, otherwise the file date. */
  function DateModified(time: Option<string>, mtime: string): (d: string) {
    var t := match time case Some(v) => Strip(v) case None => "";
    if t != "" then t else mtime
  }

  /** "\" becomes "/". */
  function Slashes(path: string): (r: string)
    ensures |r| == |path|
    ensures forall i :: 0 <= i < |r| ==> r[i] == (if path[i] == '\\' then '/' else path[i])
  {
    seq(|path|, i requires 0 <= i < |path| => if path[i] == '\\' then '/' else path[i])
  }

  predicate EndsWith(s: string, suffix: string) {
    |suffix| <= |s| && s[|s| - |suffix|..] == suffix
  }

  /** The path part of the canonical fallback. */
  function CanonicalPath(path: string): string {
    var rel := "/" + Slashes(path);
    if EndsWith(rel, "/index.html") then rel[..|rel| - 10] + "/" else rel
  }

  /** The fallback is rooted, uses only forward slashes, and keeps every other path as it
      is; an index page ends in "//", because only "index.html" is cut before "/" is added. */
  lemma CanonicalPathShape(path: string)
    ensures var rel := CanonicalPath(path);
      && |rel| > 0 && rel[0] == '/'
      && (forall i :: 0 <= i < |rel| ==> rel[i] != '\\')
      && (EndsWith("/" + Slashes(path), "/index.html") ==>
            rel == ("/" + Slashes(path))[..|path| - 9] + "/" && EndsWith(rel, "//"))
      && (!EndsWith("/" + Slashes(path), "/index.html") ==> rel == "/" + Slashes(path))
  {
    var rel := "/" + Slashes(path);
    if EndsWith(rel, "/index.html") {
      var r := rel[..|rel| - 10] + "/";
      assert rel[|rel| - 11] == '/';
      assert r[|r| - 2] == rel[|rel| - 11];
    }
  }

  /** The quirk: the site's own index page gets the canonical path "/en//", whichever
      separator the walk reports. */
  lemma IndexCanonical(path: string)
    requires path == "en/index.html" || path == "en\\index.html"
    ensures CanonicalPath(path) == "/en//"
  {
    var rel := "/" + Slashes(path);
    assert Slashes(path) == "en/index.html" by {
      assert |Slashes(path)| == 13;
      forall i | 0 <= i < 13 ensures Slashes(path)[i] == "en/index.html"[i] {
      }
    }
    assert rel[|rel| - 11..] == "/index.html";
    assert rel[..4] == "/en/";
  }

  /** urljoin(DOMAIN + "/", rel) for a rel that starts with "/". */
  function CanonicalFallback(path: string): string {
    Domain + CanonicalPath(path)
  }

  /** ^https?:// ignoring case. */
  predicate IsAbsoluteUrl(src: string) {
    OccursAtIgnoreCase(src, 0, "http://") || OccursAtIgnoreCase(src, 0, "https://")
  }

  /** first_image_abs, given the src capture of the first <img> and urljoin. */
  function FirstImageAbs(src: Option<string>, canonical: string, join: (string, string) -> string): (r: string)
    ensures src.None? ==> r == ""
    ensures src.Some? && IsAbsoluteUrl(Strip(src.value)) ==> r == Strip(src.value)
    ensures src.Some? && IsAbsoluteUrl(Strip(src.value)) ==>
      (exists i :: StrippedAt(src.value, r, i)) && IsAbsoluteUrl(r)
    ensures src.Some? && !IsAbsoluteUrl(Strip(src.value)) && canonical != "" ==>
      r == join(canonical, Strip(src.value))
    ensures src.Some? && !IsAbsoluteUrl(Strip(src.value)) && canonical == "" ==>
      r == join(Domain + "/en/", Strip(src.value))
  {
    match src
    case None => ""
    case Some(s) =>
      var url := Strip(s);
      if IsAbsoluteUrl(url) then url
      else join(if canonical != "" then canonical else Domain + "/en/", url)
  }

  // ---------------------------------------------------------------------------
  // The per-file logic of main

  /** What the regular expressions of the tool capture on one page. */
  datatype Captures = Captures(
    pieces: seq<Piece>,                      // the page, split at its ld+json script blocks
    canonical: string,                       // get_canonical on the page, "" without one
    h1: Option<string>,                      // the inner text of the first <h1>…</h1>
    meta: Option<string>,                    // on the cleaned page: the meta description content
    paragraph: Option<string>,               //   the inner text of the first <p>
    time: Option<string>,                    //   the datetime value of the first <time>
    imageSrc: Option<string>,                //   the src of the first <img>
    faqBlocks: seq<seq<(string, string)>>)   //   the (h3, p) inner texts of each FAQ block

  /** The outside world main uses: file dates, urljoin and json.dumps. */
  datatype Services = Services(mtime: string -> string, join: (string, string) -> string, dumps: Json -> string)

  function Headline(c: Captures): string {
    match c.h1 case Some(t) => StripTags(t) case None => ""
  }

  function CanonicalFor(path: string, c: Captures): string {
    if c.canonical != "" then c.canonical else CanonicalFallback(path)
  }

  function ArticleFor(path: string, c: Captures, env: Services): Json {
    var description := Description(MetaDescription(c.meta, c.paragraph));
    var date := DateModified(c.time, env.mtime(path));
    var canonical := CanonicalFor(path, c);
    BuildArticleSchema(Headline(c), description, canonical, date, date, FirstImageAbs(c.imageSrc, canonical, env.join))
  }

  /** "\n" + the Article script + the FAQPage script when there are entities + "\n". */
  function Scripts(article: Json, faq: seq<Json>, dumps: Json -> string): (r: string)
    ensures var articleScript := ScriptOpen + dumps(article) + ScriptClose;
      && |r| >= |articleScript| + 2
      && r[..1 + |articleScript|] == "\n" + articleScript
      && r[|r| - 1] == '\n'
      && (faq == [] <==> |r| == |articleScript| + 2)
      && r[1 + |articleScript|..|r| - 1] ==
           (if faq == [] then "" else "\n" + ScriptOpen + dumps(BuildFaqSchema(faq)) + ScriptClose)
  {
    var articleScript := ScriptOpen + dumps(article) + ScriptClose;
    var faqScript := if faq == [] then "" else "\n" + ScriptOpen + dumps(BuildFaqSchema(faq)) + ScriptClose;
    "\n" + articleScript + faqScript + "\n"
  }

  /** The text main leaves in one page. */
  function UpdatedPage(path: string, original: string, c: Captures, env: Services): (r: string)
    ensures Headline(c) == "" ==> r == original
    ensures Headline(c) != "" ==>
      |r| == |Render(StripArticleFaq(c.pieces))| + |Scripts(ArticleFor(path, c, env), FaqEntities(c.faqBlocks), env.dumps)| + 1
  {
    if Headline(c) == "" then original
    else
      var cleaned := Render(StripArticleFaq(c.pieces));
      InjectIntoHead(cleaned, Scripts(ArticleFor(path, c, env), FaqEntities(c.faqBlocks), env.dumps))
  }

  /** The Article record of a page: both dates are the same value, the <time datetime>
      when the page has one, the file date otherwise; the description is bounded. */
  lemma ArticleForFields(path: string, c: Captures, env: Services)
    ensures var obj := ArticleFor(path, c, env);
      var t := match c.time case Some(v) => Strip(v) case None => "";
      var d := if t != "" then t else env.mtime(path);
      && Has(obj, "datePublished", JString(d))
      && Has(obj, "dateModified", JString(d))
      && Has(obj, "headline", JString(Headline(c)))
      && exists desc :: |desc| <= DescriptionLimit && SpaceNormal(desc) && Has(obj, "description", JString(desc))
  {
    var description := Description(MetaDescription(c.meta, c.paragraph));
    var date := DateModified(c.time, env.mtime(path));
    var canonical := CanonicalFor(path, c);
    ArticleSchemaFields(Headline(c), description, canonical, date, date, FirstImageAbs(c.imageSrc, canonical, env.join));
  }

  /** A page with a headline becomes its cleaned text with the scripts in front of the
      first </head>: removing them gives back the cleaned text. */
  lemma UpdatedPageIsCleanedPlusScripts(path: string, original: string, c: Captures, env: Services)
    requires Headline(c) != ""
    ensures var cleaned := Render(StripArticleFaq(c.pieces));
      var scripts := Scripts(ArticleFor(path, c, env), FaqEntities(c.faqBlocks), env.dumps);
      var f := if Contains(cleaned, HeadClose) then Find(cleaned, HeadClose).value else 0;
      var r := UpdatedPage(path, original, c, env);
      && |r| == |cleaned| + |scripts| + 1
      && r[f..f + |scripts| + 1] == scripts + "\n"
      && r[..f] + r[f + |scripts| + 1..] == cleaned
  {
    var cleaned := Render(StripArticleFaq(c.pieces));
    var scripts := Scripts(ArticleFor(path, c, env), FaqEntities(c.faqBlocks), env.dumps);
    InjectIntoHeadInverse(cleaned, scripts);
  }

  /** The per-file body of main, step by step. */
  method InjectPage(path: string, original: string, c: Captures, env: Services) returns (updated: string)
    ensures updated == UpdatedPage(path, original, c, env)
  {
    var headline := Headline(c);
    if headline == "" {
      return original;
    }
    var cleaned := Render(StripArticleFaq(c.pieces));
    var description := Description(MetaDescription(c.meta, c.paragraph));
    var dateMod := DateModified(c.time, env.mtime(path));
    var datePub := dateMod;
    var canonical := c.canonical;
    if canonical == "" {
      canonical := CanonicalFallback(path);
    }
    var imageAbs := FirstImageAbs(c.imageSrc, canonical, env.join);
    var article := BuildArticleSchema(headline, description, canonical, datePub, dateMod, imageAbs);
    var articleScript := ScriptOpen + env.dumps(article) + ScriptClose;
    var faq := DetectFaqPairs(c.faqBlocks);
    var faqScript := "";
    if faq != [] {
      faqScript := "\n" + ScriptOpen + env.dumps(BuildFaqSchema(faq)) + ScriptClose;
    }
    var scripts := "\n" + articleScript + faqScript + "\n";
    updated := InjectIntoHead(cleaned, scripts);
  }

  /** One run, given the captures of every page and the services. */
  function PageUpdate(captures: map<string, Captures>, env: Services): (string, string) -> string {
    (path, text) => if path in captures then UpdatedPage(path, text, captures[path], env) else text
  }

  /** One page of main: compute the new text, then back up once and write when it changed. */
  method RunPage(site: SiteDir, path: string, captures: map<string, Captures>, env: Services) returns (wrote: bool)
    requires path in site.pages && path in captures
    modifies site
    ensures Committed(old(site.pages), old(site.backups), site.pages, site.backups,
                      path, PageUpdate(captures, env)(path, old(site.pages)[path]), wrote)
  {
    var original := site.pages[path];
    var updated := InjectPage(path, original, captures[path], env);
    wrote := site.Commit(path, original, updated);
    if !wrote {
      assert site.pages == site.pages[path := original];
    }
  }

  /** main: every page is rewritten from its captures; a changed page is backed up once
      and written. */
  method Run(site: SiteDir, paths: seq<string>, captures: map<string, Captures>, env: Services)
    returns (changed: nat, skipped: nat)
    requires Distinct(paths)
    requires forall p :: p in paths ==> p in site.pages && p in captures
    requires forall p :: p in paths ==> Render(captures[p].pieces) == site.pages[p]
    modifies site
    ensures site.pages == Rewrite(old(site.pages), paths, PageUpdate(captures, env))
    ensures site.backups ==
      BackupsAfter(old(site.backups), old(site.pages), Written(old(site.pages), paths, PageUpdate(captures, env)))
    ensures changed == |Written(old(site.pages), paths, PageUpdate(captures, env))| && changed + skipped == |paths|
  {
    ghost var pages0 := site.pages;
    ghost var backups0 := site.backups;
    ghost var update := PageUpdate(captures, env);
    changed, skipped := 0, 0;
    RunSoFarStart(pages0, backups0, paths, update);
    var i := 0;
    while i < |paths|
      invariant RunSoFar(pages0, backups0, paths, i, update, site.pages, site.backups, changed)
      invariant changed + skipped == i
    {
      var path := paths[i];
      ghost var pages, backups := site.pages, site.backups;
      var wrote := RunPage(site, path, captures, env);
      CommitStep(pages0, backups0, paths, i, update, pages, backups, changed, site.pages, site.backups, wrote);
      if wrote {
        changed := changed + 1;
      } else {
        skipped := skipped + 1;
      }
      i := i + 1;
    }
    RunSoFarAll(pages0, backups0, paths, update, site.pages, site.backups, changed);
  }
}
