/** The RSS export: the XML text escaper and the assembly of one `<item>` per
    published post, and of the feed document around them. */
module Rss {
  import opened Wrappers
  import opened Text

  // ---------------------------------------------------------------------------
  // Global textual replacement
  // ---------------------------------------------------------------------------

  /** `t.replace(/pat/g, rep)` for a literal pattern: scan left to right,
      replace each occurrence and continue after it. */
  function ReplaceText(t: string, pat: string, rep: string): string
    requires pat != []
    decreases |t|
  {
    if t == [] then []
    else if pat <= t then rep + ReplaceText(t[|pat|..], pat, rep)
    else [t[0]] + ReplaceText(t[1..], pat, rep)
  }

  lemma {:induction false} ReplaceCharConcat(a: string, b: string, c: char, rep: string)
    ensures ReplaceText(a + b, [c], rep) == ReplaceText(a, [c], rep) + ReplaceText(b, [c], rep)
  {
    if a != [] {
      assert (a + b)[1..] == a[1..] + b;
      ReplaceCharConcat(a[1..], b, c, rep);
      assert (a + b)[0] == a[0];
      if a[0] == c {
        assert [c] <= a + b;
      }
    } else {
      assert a + b == b;
    }
  }

  lemma {:induction false} ReplaceOneChar(x: char, c: char, rep: string)
    ensures ReplaceText([x], [c], rep) == if x == c then rep else [x]
  {
    assert [x][1..] == [];
    if x == c {
      assert [c] <= [x];
    } else {
      assert [x][0] != c;
    }
  }

  lemma {:induction false} ReplaceCharAbsent(a: string, c: char, rep: string)
    requires c !in a
    ensures ReplaceText(a, [c], rep) == a
  {
    if a != [] {
      assert a[0] != c;
      ReplaceCharAbsent(a[1..], c, rep);
    }
  }

  // ---------------------------------------------------------------------------
  // The escaper and a character-by-character reference for it
  // ---------------------------------------------------------------------------

  /** `escapeXml`: five global replacements, `&` first. */
  function EscapeXml(s: string): string
  {
    var s1 := ReplaceText(s, "&", "&amp;");
    var s2 := ReplaceText(s1, "<", "&lt;");
    var s3 := ReplaceText(s2, ">", "&gt;");
    var s4 := ReplaceText(s3, "\"", "&quot;");
    ReplaceText(s4, "'", "&apos;")
  }

  const Special: set<char> := {'&', '<', '>', '"', '\''}

  /** The entity that stands for each of the five special characters. */
  function EntityOf(c: char): string
  {
    match c
    case '&' => "&amp;"
    case '<' => "&lt;"
    case '>' => "&gt;"
    case '"' => "&quot;"
    case '\'' => "&apos;"
    case _ => [c]
  }

  /** Encode the characters in `encoded` as entities, keep all others. */
  function EncodeWith(encoded: set<char>, s: string): string
  {
    if s == [] then []
    else (if s[0] in encoded then EntityOf(s[0]) else [s[0]]) + EncodeWith(encoded, s[1..])
  }

  lemma {:induction false} EncodeWithConcat(encoded: set<char>, a: string, b: string)
    ensures EncodeWith(encoded, a + b) == EncodeWith(encoded, a) + EncodeWith(encoded, b)
  {
    if a != [] {
      assert (a + b)[1..] == a[1..] + b;
      EncodeWithConcat(encoded, a[1..], b);
    } else {
      assert a + b == b;
    }
  }

  lemma {:induction false} EncodeWithOne(encoded: set<char>, x: char)
    ensures EncodeWith(encoded, [x]) == if x in encoded then EntityOf(x) else [x]
  {
    var h := if x in encoded then EntityOf(x) else [x];
    assert [x][0] == x && [x][1..] == [];
    assert EncodeWith(encoded, [x]) == h + EncodeWith(encoded, []);
    assert h + [] == h;
  }

  lemma {:induction false} EscapeXmlConcat(a: string, b: string)
    ensures EscapeXml(a + b) == EscapeXml(a) + EscapeXml(b)
  {
    var a1, b1 := ReplaceText(a, "&", "&amp;"), ReplaceText(b, "&", "&amp;");
    ReplaceCharConcat(a, b, '&', "&amp;");
    var a2, b2 := ReplaceText(a1, "<", "&lt;"), ReplaceText(b1, "<", "&lt;");
    ReplaceCharConcat(a1, b1, '<', "&lt;");
    var a3, b3 := ReplaceText(a2, ">", "&gt;"), ReplaceText(b2, ">", "&gt;");
    ReplaceCharConcat(a2, b2, '>', "&gt;");
    var a4, b4 := ReplaceText(a3, "\"", "&quot;"), ReplaceText(b3, "\"", "&quot;");
    ReplaceCharConcat(a3, b3, '"', "&quot;");
    ReplaceCharConcat(a4, b4, '\'', "&apos;");
  }

  /** On a single character the replacement chain yields its entity. */
  lemma {:induction false} EscapeXmlChar(x: char)
    ensures EscapeXml([x]) == if x in Special then EntityOf(x) else [x]
  {
    if x == '&' {
      EscapeAmpersand();
    } else if x == '<' {
      EscapeLessThan();
    } else if x == '>' {
      EscapeGreaterThan();
    } else if x == '"' {
      EscapeDoubleQuote();
    } else if x == '\'' {
      EscapeSingleQuote();
    } else {
      EscapePlainChar(x);
    }
  }

  lemma {:induction false} EscapeAmpersand()
    ensures EscapeXml("&") == "&amp;"
  {
    ReplaceOneChar('&', '&', "&amp;");
    ReplaceCharAbsent("&amp;", '<', "&lt;");
    ReplaceCharAbsent("&amp;", '>', "&gt;");
    ReplaceCharAbsent("&amp;", '"', "&quot;");
    ReplaceCharAbsent("&amp;", '\'', "&apos;");
  }

  lemma {:induction false} EscapeLessThan()
    ensures EscapeXml("<") == "&lt;"
  {
    ReplaceOneChar('<', '&', "&amp;");
    ReplaceOneChar('<', '<', "&lt;");
    ReplaceCharAbsent("&lt;", '>', "&gt;");
    ReplaceCharAbsent("&lt;", '"', "&quot;");
    ReplaceCharAbsent("&lt;", '\'', "&apos;");
  }

  lemma {:induction false} EscapeGreaterThan()
    ensures EscapeXml(">") == "&gt;"
  {
    ReplaceOneChar('>', '&', "&amp;");
    ReplaceOneChar('>', '<', "&lt;");
    ReplaceOneChar('>', '>', "&gt;");
    ReplaceCharAbsent("&gt;", '"', "&quot;");
    ReplaceCharAbsent("&gt;", '\'', "&apos;");
  }

  lemma {:induction false} EscapeDoubleQuote()
    ensures EscapeXml("\"") == "&quot;"
  {
    ReplaceOneChar('"', '&', "&amp;");
    ReplaceOneChar('"', '<', "&lt;");
    ReplaceOneChar('"', '>', "&gt;");
    ReplaceOneChar('"', '"', "&quot;");
    ReplaceCharAbsent("&quot;", '\'', "&apos;");
  }

  lemma {:induction false} EscapeSingleQuote()
    ensures EscapeXml("'") == "&apos;"
  {
    ReplaceOneChar('\'', '&', "&amp;");
    ReplaceOneChar('\'', '<', "&lt;");
    ReplaceOneChar('\'', '>', "&gt;");
    ReplaceOneChar('\'', '"', "&quot;");
    ReplaceOneChar('\'', '\'', "&apos;");
  }

  lemma {:induction false} EscapePlainChar(x: char)
    requires x !in Special
    ensures EscapeXml([x]) == [x]
  {
    ReplaceOneChar(x, '&', "&amp;");
    ReplaceOneChar(x, '<', "&lt;");
    ReplaceOneChar(x, '>', "&gt;");
    ReplaceOneChar(x, '"', "&quot;");
    ReplaceOneChar(x, '\'', "&apos;");
  }

  /** The replacement chain is the same as encoding each special character on
      its own: replacing `&` first means no entity produced by a later step is
      escaped again. */
  lemma {:induction false} EscapeXmlEncodesEachChar(s: string)
    ensures EscapeXml(s) == EncodeWith(Special, s)
  {
    if s != [] {
      assert s == [s[0]] + s[1..];
      EscapeXmlConcat([s[0]], s[1..]);
      EscapeXmlChar(s[0]);
      EscapeXmlEncodesEachChar(s[1..]);
    }
  }

  // ---------------------------------------------------------------------------
  // What the escaper guarantees
  // ---------------------------------------------------------------------------

  predicate EntityAt(r: string, i: nat)
  {
    || OccursAt(r, "&amp;", i) || OccursAt(r, "&lt;", i) || OccursAt(r, "&gt;", i)
    || OccursAt(r, "&quot;", i) || OccursAt(r, "&apos;", i)
  }

  lemma {:induction false} OccursAtShift(a: string, r: string, e: string, i: nat)
    requires OccursAt(r, e, i)
    ensures OccursAt(a + r, e, |a| + i)
  {
    assert (a + r)[|a| + i..|a| + i + |e|] == r[i..i + |e|];
  }

  lemma {:induction false} EncodedMarkupFree(s: string)
    ensures var r := EncodeWith(Special, s);
      '<' !in r && '>' !in r && '"' !in r && '\'' !in r
  {
    if s != [] {
      EncodedMarkupFree(s[1..]);
    }
  }

  predicate AmpersandsStartEntities(r: string)
  {
    forall i | 0 <= i < |r| && r[i] == '&' :: EntityAt(r, i)
  }

  lemma {:induction false} EntityAtShift(a: string, r: string, i: nat)
    requires EntityAt(r, i)
    ensures EntityAt(a + r, |a| + i)
  {
    if OccursAt(r, "&amp;", i) { OccursAtShift(a, r, "&amp;", i); }
    else if OccursAt(r, "&lt;", i) { OccursAtShift(a, r, "&lt;", i); }
    else if OccursAt(r, "&gt;", i) { OccursAtShift(a, r, "&gt;", i); }
    else if OccursAt(r, "&quot;", i) { OccursAtShift(a, r, "&quot;", i); }
    else { OccursAtShift(a, r, "&apos;", i); }
  }

  /** An entity at the front is an entity at position 0. */
  lemma {:induction false} EntityInFront(c: char, rest: string)
    requires c in Special
    ensures EntityAt(EntityOf(c) + rest, 0)
  {
    var e := EntityOf(c);
    assert (e + rest)[0..|e|] == e;
  }

  /** Putting the encoding of one character in front keeps every `&` at the
      start of an entity. */
  lemma {:induction false} AmpersandsPrepend(x: char, rest: string)
    requires AmpersandsStartEntities(rest)
    ensures AmpersandsStartEntities(EncodeWith(Special, [x]) + rest)
  {
    var head := EncodeWith(Special, [x]);
    EncodeWithOne(Special, x);
    var r := head + rest;
    if x in Special {
      EntityShape(x);
      EntityInFront(x, rest);
    }
    forall i | 0 <= i < |r| && r[i] == '&' ensures EntityAt(r, i) {
      if i < |head| {
        assert head[i] == '&';
      } else {
        assert rest[i - |head|] == r[i];
        EntityAtShift(head, rest, i - |head|);
      }
    }
  }

  lemma {:induction false} EncodedAmpersands(s: string)
    ensures AmpersandsStartEntities(EncodeWith(Special, s))
  {
    if s != [] {
      EncodedAmpersands(s[1..]);
      AmpersandsPrepend(s[0], EncodeWith(Special, s[1..]));
      assert s == [s[0]] + s[1..];
      EncodeWithConcat(Special, [s[0]], s[1..]);
    }
  }

  /** `escapeXml` output holds no raw `<`, `>`, `"` or `'`, and every `&` in it
      begins one of the five entities. */
  lemma {:induction false} EscapeXmlIsMarkupFree(s: string)
    ensures var r := EscapeXml(s);
      && '<' !in r && '>' !in r && '"' !in r && '\'' !in r
      && AmpersandsStartEntities(r)
  {
    EscapeXmlEncodesEachChar(s);
    EncodedMarkupFree(s);
    EncodedAmpersands(s);
  }

  predicate FreeOfSpecial(s: string)
  {
    forall i | 0 <= i < |s| :: s[i] !in Special
  }

  lemma {:induction false} EncodedLength(s: string)
    ensures |EncodeWith(Special, s)| >= |s|
    ensures |EncodeWith(Special, s)| == |s| <==> FreeOfSpecial(s)
    ensures FreeOfSpecial(s) ==> EncodeWith(Special, s) == s
  {
    if s != [] {
      EncodedLength(s[1..]);
      if FreeOfSpecial(s) {
        assert FreeOfSpecial(s[1..]) by {
          forall i | 0 <= i < |s| - 1 ensures s[1..][i] !in Special {
            assert s[1..][i] == s[i + 1];
          }
        }
      }
      if FreeOfSpecial(s[1..]) && s[0] !in Special {
        forall i | 0 <= i < |s| ensures s[i] !in Special {
          if i > 0 { assert s[i] == s[1..][i - 1]; }
        }
      }
    }
  }

  /** `escapeXml` never shortens its input, and it changes it exactly when the
      input holds one of the five special characters. */
  lemma {:induction false} EscapeXmlLength(s: string)
    ensures |EscapeXml(s)| >= |s|
    ensures EscapeXml(s) == s <==> FreeOfSpecial(s)
  {
    EscapeXmlEncodesEachChar(s);
    EncodedLength(s);
  }

  // ---------------------------------------------------------------------------
  // Decoding: the inverse replacement chain, `&amp;` last
  // ---------------------------------------------------------------------------

  function DecodeEntities(t: string): string
  {
    var t1 := ReplaceText(t, "&apos;", "'");
    var t2 := ReplaceText(t1, "&quot;", "\"");
    var t3 := ReplaceText(t2, "&gt;", ">");
    var t4 := ReplaceText(t3, "&lt;", "<");
    ReplaceText(t4, "&amp;", "&")
  }

  /** Text without `&` passes through a replacement of an `&`-entity untouched. */
  lemma {:induction false} ReplaceSkipsPlainText(w: string, rest: string, pat: string, rep: string)
    requires pat != [] && pat[0] == '&' && '&' !in w
    ensures ReplaceText(w + rest, pat, rep) == w + ReplaceText(rest, pat, rep)
  {
    if w != [] {
      assert (w + rest)[0] == w[0];
      assert !(pat <= w + rest);
      assert (w + rest)[1..] == w[1..] + rest;
      ReplaceSkipsPlainText(w[1..], rest, pat, rep);
    } else {
      assert w + rest == rest;
    }
  }

  /** The character whose entity starts `&`, `a`, `b`. */
  function EntityKey(a: char, b: char): char
  {
    if a == 'a' then (if b == 'm' then '&' else '\'')
    else if a == 'l' then '<'
    else if a == 'g' then '>'
    else '"'
  }

  lemma {:induction false} EntityHead(c: char)
    requires c in Special
    ensures |EntityOf(c)| >= 4 && EntityKey(EntityOf(c)[1], EntityOf(c)[2]) == c
  {
  }

  lemma {:induction false} PrefixAgree(e: string, g: string, k: nat)
    ensures e <= g && k <= |e| ==> e[..k] == g[..k]
  {
    if e <= g && k <= |e| {
      assert g[..|e|][..k] == g[..k];
    }
  }

  /** Two different entities: neither is a prefix of text starting with the other. */
  lemma {:induction false} EntitiesDiffer(c: char, d: char, rest: string)
    requires c in Special && d in Special && c != d
    ensures !(EntityOf(c) <= EntityOf(d) + rest)
  {
    var e, f := EntityOf(c), EntityOf(d);
    EntityHead(c);
    EntityHead(d);
    PrefixAgree(e, f + rest, 3);
    assert (f + rest)[..3] == f[..3];
  }

  lemma {:induction false} DecodeMatch(c: char, rest: string)
    ensures ReplaceText(EntityOf(c) + rest, EntityOf(c), [c]) == [c] + ReplaceText(rest, EntityOf(c), [c])
  {
    var pat := EntityOf(c);
    assert pat <= pat + rest;
    assert (pat + rest)[|pat|..] == rest;
  }

  lemma {:induction false} DecodeOtherEntity(c: char, d: char, rest: string)
    requires c in Special && d in Special && c != d
    ensures ReplaceText(EntityOf(d) + rest, EntityOf(c), [c]) == EntityOf(d) + ReplaceText(rest, EntityOf(c), [c])
  {
    var f, pat := EntityOf(d), EntityOf(c);
    EntitiesDiffer(c, d, rest);
    EntityShape(d);
    EntityShape(c);
    var tail := f[1..];
    assert (f + rest)[1..] == tail + rest;
    ReplaceSkipsPlainText(tail, rest, pat, [c]);
    assert [f[0]] + tail == f;
  }

  /** An entity is `&` followed by text without `&`. */
  lemma {:induction false} EntityShape(c: char)
    requires c in Special
    ensures |EntityOf(c)| >= 4 && EntityOf(c)[0] == '&' && '&' !in EntityOf(c)[1..]
  {
  }

  lemma {:induction false} DecodePlain(c: char, x: char, rest: string)
    requires c in Special && x != '&'
    ensures ReplaceText([x] + rest, EntityOf(c), [c]) == [x] + ReplaceText(rest, EntityOf(c), [c])
  {
    ReplaceSkipsPlainText([x], rest, EntityOf(c), [c]);
  }

  /** One decoding step turns the entities of one character back into that
      character, as long as `&` is still encoded. */
  lemma {:induction false} DecodeStep(encoded: set<char>, c: char, s: string)
    requires encoded <= Special && '&' in encoded && c in encoded
    ensures ReplaceText(EncodeWith(encoded, s), EntityOf(c), [c]) == EncodeWith(encoded - {c}, s)
  {
    if s != [] {
      var x := s[0];
      var rest := EncodeWith(encoded, s[1..]);
      DecodeStep(encoded, c, s[1..]);
      if x == c {
        DecodeMatch(c, rest);
      } else if x in encoded {
        DecodeOtherEntity(c, x, rest);
      } else {
        DecodePlain(c, x, rest);
      }
    }
  }

  lemma {:induction false} EncodeWithNothing(s: string)
    ensures EncodeWith({}, s) == s
  {
    if s != [] {
      EncodeWithNothing(s[1..]);
    }
  }

  /** Decoding the five entities, `&amp;` last, gives back what was escaped. */
  lemma {:induction false} EscapeXmlRoundTrip(s: string)
    ensures DecodeEntities(EscapeXml(s)) == s
  {
    EscapeXmlEncodesEachChar(s);
    var e0 := Special;
    var e1 := e0 - {'\''};
    var e2 := e1 - {'"'};
    var e3 := e2 - {'>'};
    var e4 := e3 - {'<'};
    DecodeStep(e0, '\'', s);
    DecodeStep(e1, '"', s);
    DecodeStep(e2, '>', s);
    DecodeStep(e3, '<', s);
    assert e4 == {'&'};
    DecodeStep(e4, '&', s);
    assert e4 - {'&'} == {};
    EncodeWithNothing(s);
  }

  // ---------------------------------------------------------------------------
  // Feed assembly
  // ---------------------------------------------------------------------------

  const BaseUrl: string := "https://clothes2wear.com"

  /** An exported post as the ORM returns it: the category and tag names come
      in the order of the included relations; `pubDate` is the already
      formatted `createdAt`. */
  datatype FeedPost = FeedPost(
    title: string,
    slug: string,
    pubDate: string,
    altText: Option<string>,
    categories: seq<string>,
    tags: seq<string>)

  function Link(slug: string): string
  {
    BaseUrl + "/blogs/" + slug
  }

  /** `post.thumbnailImageAltText || ''`. */
  function AltTextOrEmpty(p: FeedPost): string
  {
    match p.altText
    case None => ""
    case Some(a) => a
  }

  function CategoryElement(name: string): string
  {
    "<category>" + EscapeXml(name) + "</category>"
  }

  /** `names.map(n => <category>…</category>).join('')`. */
  function CategoryElements(names: seq<string>): string
  {
    if names == [] then [] else CategoryElement(names[0]) + CategoryElements(names[1..])
  }

  /** `parts.join('')`. */
  function Concat(parts: seq<string>): string
  {
    if parts == [] then [] else parts[0] + Concat(parts[1..])
  }

  const Indent: string := "\n        "

  /** The template of one `<item>`, piece by piece. */
  function ItemParts(p: FeedPost): seq<string>
  {
    var link := Link(p.slug);
    [ "\n      <item>", Indent,
      "<title>" + EscapeXml(p.title) + "</title>", Indent,
      "<link>" + link + "</link>", Indent,
      "<guid isPermaLink=\"true\">" + link + "</guid>", Indent,
      "<pubDate>" + p.pubDate + "</pubDate>", Indent,
      "<description>" + EscapeXml(AltTextOrEmpty(p)) + "</description>", Indent,
      CategoryElements(p.categories), Indent,
      CategoryElements(p.tags),
      "\n      </item>\n    " ]
  }

  function RenderItem(p: FeedPost): string
  {
    Concat(ItemParts(p))
  }

  /** `posts.map(renderItem).join('')`. */
  function RenderItems(posts: seq<FeedPost>): string
  {
    if posts == [] then [] else RenderItem(posts[0]) + RenderItems(posts[1..])
  }

  /** The feed template up to the channel's opening tag. */
  const XmlProlog: string := "<?xml version=\"1.0\" encoding=\"UTF-8\" ?>\n<rss version=\"2.0\">\n  "

  /** The fixed channel metadata between `<channel>` and `<lastBuildDate>`. */
  const ChannelInfo: string :=
    "\n    <title>Clothes2Wear Blog</title>\n    <link>" + BaseUrl + "</link>\n"
    + "    <description>Latest fashion insights and blogs from Clothes2Wear</description>\n"
    + "    <language>en-us</language>\n    "

  /** The template before the date: prolog, `<channel>` and the metadata. */
  const ChannelStart: string := XmlProlog + "<channel>" + ChannelInfo

  /** The template after the items: the channel's closing tag and the end of the document. */
  const ChannelEnd: string := "\n  " + "</channel>" + "\n</rss>"

  function BuildDateElement(lastBuildDate: string): string
  {
    "<lastBuildDate>" + lastBuildDate + "</lastBuildDate>"
  }

  function RenderFeed(posts: seq<FeedPost>, lastBuildDate: string): string
  {
    ChannelStart + BuildDateElement(lastBuildDate) + "\n    " + RenderItems(posts) + ChannelEnd
  }

  lemma {:induction false} ConcatAppend(a: seq<string>, b: seq<string>)
    ensures Concat(a + b) == Concat(a) + Concat(b)
  {
    if a != [] {
      assert (a + b)[1..] == a[1..] + b;
      ConcatAppend(a[1..], b);
    } else {
      assert a + b == b;
    }
  }

  /** Every run of consecutive pieces occurs in the joined text. */
  lemma {:induction false} ConcatContainsRun(parts: seq<string>, i: nat, j: nat)
    requires i <= j <= |parts|
    ensures Contains(Concat(parts), Concat(parts[i..j]))
  {
    var p1, p2, p3 := parts[..i], parts[i..j], parts[j..];
    assert parts == (p1 + p2) + p3;
    ConcatAppend(p1 + p2, p3);
    ConcatAppend(p1, p2);
    var c1, c2, c3 := Concat(p1), Concat(p2), Concat(p3);
    assert Concat(parts) == c1 + c2 + c3;
    ContainsInfix(c1, c2, c3);
  }

  lemma {:induction false} ConcatOne(x: string)
    ensures Concat([x]) == x
  {
    assert [x][1..] == [];
  }

  lemma {:induction false} ConcatThree(x: string, y: string, z: string)
    ensures Concat([x, y, z]) == x + y + z
  {
    assert [x, y, z][1..] == [y, z];
    assert [y, z][1..] == [z];
    ConcatOne(z);
  }

  lemma {:induction false} PartInItem(p: FeedPost, k: nat)
    requires k < |ItemParts(p)|
    ensures Contains(RenderItem(p), ItemParts(p)[k])
  {
    var parts := ItemParts(p);
    ConcatContainsRun(parts, k, k + 1);
    assert parts[k..k + 1] == [parts[k]];
    ConcatOne(parts[k]);
  }

  /** An item carries the escaped title, the unescaped link twice (as `<link>`
      and as the permalink `<guid>`), the escaped alt text as description, and
      the category elements of the categories followed by those of the tags. */
  lemma {:induction false} ItemFields(p: FeedPost)
    ensures var item := RenderItem(p);
      && Contains(item, "<title>" + EscapeXml(p.title) + "</title>")
      && Contains(item, "<link>" + BaseUrl + "/blogs/" + p.slug + "</link>")
      && Contains(item, "<guid isPermaLink=\"true\">" + BaseUrl + "/blogs/" + p.slug + "</guid>")
      && Contains(item, "<pubDate>" + p.pubDate + "</pubDate>")
      && Contains(item, "<description>" + EscapeXml(AltTextOrEmpty(p)) + "</description>")
      && Contains(item, CategoryElements(p.categories) + Indent + CategoryElements(p.tags))
  {
    PartInItem(p, 2);
    ItemLinks(p);
    PartInItem(p, 8);
    PartInItem(p, 10);
    ItemCategories(p);
  }

  lemma {:induction false} ItemLinks(p: FeedPost)
    ensures Contains(RenderItem(p), "<link>" + BaseUrl + "/blogs/" + p.slug + "</link>")
    ensures Contains(RenderItem(p), "<guid isPermaLink=\"true\">" + BaseUrl + "/blogs/" + p.slug + "</guid>")
  {
    var link := Link(p.slug);
    PartInItem(p, 4);
    assert "<link>" + link + "</link>" == "<link>" + BaseUrl + "/blogs/" + p.slug + "</link>";
    PartInItem(p, 6);
    var guid := "<guid isPermaLink=\"true\">";
    assert guid + link + "</guid>" == guid + BaseUrl + "/blogs/" + p.slug + "</guid>";
  }

  lemma {:induction false} ItemCategories(p: FeedPost)
    ensures Contains(RenderItem(p), CategoryElements(p.categories) + Indent + CategoryElements(p.tags))
  {
    var parts := ItemParts(p);
    ConcatContainsRun(parts, 12, 15);
    assert parts[12..15] == [parts[12], parts[13], parts[14]];
    ConcatThree(parts[12], parts[13], parts[14]);
  }

  /** Category elements come one per name, in list order. */
  lemma {:induction false} CategoryElementsAppend(a: seq<string>, b: seq<string>)
    ensures CategoryElements(a + b) == CategoryElements(a) + CategoryElements(b)
  {
    if a != [] {
      assert (a + b)[1..] == a[1..] + b;
      CategoryElementsAppend(a[1..], b);
    } else {
      assert a + b == b;
    }
  }

  /** Items come one per post, in the order of the posts. */
  lemma {:induction false} RenderItemsAppend(a: seq<FeedPost>, b: seq<FeedPost>)
    ensures RenderItems(a + b) == RenderItems(a) + RenderItems(b)
  {
    if a != [] {
      assert (a + b)[1..] == a[1..] + b;
      RenderItemsAppend(a[1..], b);
    } else {
      assert a + b == b;
    }
  }

  /** A tag holds one `<`, the one it starts with. */
  lemma {:induction false} OneLeadingLt(tag: string, rest: string)
    requires tag == "<" + rest && '<' !in rest
    ensures multiset(tag)['<'] == 1
  {
    assert multiset(tag) == multiset("<") + multiset(rest);
  }

  lemma {:induction false} OpeningTagMarkup()
    ensures multiset("<category>")['<'] == 1
  {
    OneLeadingLt("<category>", "category>");
  }

  lemma {:induction false} ClosingTagMarkup()
    ensures multiset("</category>")['<'] == 1
  {
    OneLeadingLt("</category>", "/category>");
  }

  /** Text without `<` between two tags: the whole holds exactly the two `<`
      of the tags. */
  lemma {:induction false} TagsAroundMarkup(open: string, n: string, close: string)
    requires multiset(open)['<'] == 1 && multiset(close)['<'] == 1 && '<' !in n
    ensures multiset(open + n + close)['<'] == 2
  {
    assert multiset(open + n + close) == multiset(open) + multiset(n) + multiset(close);
  }

  /** An element holds exactly two `<`: those of its opening and closing
      tags, since the escaped name holds none. */
  lemma {:induction false} CategoryElementMarkup(name: string)
    ensures multiset(CategoryElement(name))['<'] == 2
  {
    EscapeXmlIsMarkupFree(name);
    OpeningTagMarkup();
    ClosingTagMarkup();
    TagsAroundMarkup("<category>", EscapeXml(name), "</category>");
  }

  /** One category element per name: each contributes exactly its opening
      and closing tag. */
  lemma {:induction false} CategoryElementsMarkup(names: seq<string>)
    ensures multiset(CategoryElements(names))['<'] == 2 * |names|
  {
    if names != [] {
      CategoryElementsMarkup(names[1..]);
      CategoryElementMarkup(names[0]);
    }
  }

  /** Text put between a head and a tail: it starts with the head, ends with
      the tail, and what lies between them is the text. */
  lemma {:induction false} FramedParts(head: string, middle: string, tail: string)
    ensures var w := head + middle + tail;
      && head <= w && w[|w| - |tail|..] == tail && w[|head|..|w| - |tail|] == middle
  {
    var w := head + middle + tail;
    assert w[..|head|] == head;
    assert w[|w| - |tail|..] == tail;
    assert w[|head|..|w| - |tail|] == middle;
  }

  lemma {:induction false} ChannelTags()
    ensures Contains(ChannelStart, "<channel>") && Contains(ChannelEnd, "</channel>")
  {
    ContainsInfix(XmlProlog, "<channel>", ChannelInfo);
    ContainsInfix("\n  ", "</channel>", "\n</rss>");
  }

  /** The feed opens the channel before the build date and the items, and
      closes it after them: it starts with the text holding `<channel>`,
      ends with the text holding `</channel>`, and holds the build date and
      the rendered items between the two. */
  lemma {:induction false} FeedLayout(posts: seq<FeedPost>, lastBuildDate: string)
    ensures var feed := RenderFeed(posts, lastBuildDate);
      && Contains(ChannelStart, "<channel>")
      && Contains(ChannelEnd, "</channel>")
      && ChannelStart <= feed
      && feed[|feed| - |ChannelEnd|..] == ChannelEnd
      && feed[|ChannelStart|..|feed| - |ChannelEnd|]
         == BuildDateElement(lastBuildDate) + "\n    " + RenderItems(posts)
      && Contains(feed, BuildDateElement(lastBuildDate))
      && Contains(feed, RenderItems(posts))
  {
    var date, items := BuildDateElement(lastBuildDate), RenderItems(posts);
    ChannelTags();
    FramedParts(ChannelStart, date + "\n    " + items, ChannelEnd);
    ContainsInfix(ChannelStart, date, "\n    " + items + ChannelEnd);
    ContainsInfix(ChannelStart + date + "\n    ", items, ChannelEnd);
    FeedRegrouped(ChannelStart, date, items, ChannelEnd);
  }

  /** The feed regrouped around the build date and around the middle. */
  lemma {:induction false} FeedRegrouped(head: string, date: string, items: string, tail: string)
    ensures head + date + "\n    " + items + tail == head + (date + "\n    " + items) + tail
    ensures head + date + "\n    " + items + tail == head + date + ("\n    " + items + tail)
  {
  }

  /** The rendered items hold the item of every post. */
  lemma {:induction false} ItemsHoldEachItem(posts: seq<FeedPost>, i: nat)
    requires i < |posts|
    ensures Contains(RenderItems(posts), RenderItem(posts[i]))
  {
    var before, rest := posts[..i], posts[i..];
    assert posts == before + rest;
    RenderItemsAppend(before, rest);
    assert rest[0] == posts[i];
    var a, x, b := RenderItems(before), RenderItem(posts[i]), RenderItems(rest[1..]);
    assert RenderItems(rest) == x + b;
    assert RenderItems(posts) == a + x + b;
    ContainsInfix(a, x, b);
  }

  /** The feed holds the `<item>` of every post it is given. */
  lemma {:induction false} FeedHoldsEachItem(posts: seq<FeedPost>, lastBuildDate: string, i: nat)
    requires i < |posts|
    ensures Contains(RenderFeed(posts, lastBuildDate), RenderItem(posts[i]))
  {
    var items := RenderItems(posts);
    var pre := ChannelStart + BuildDateElement(lastBuildDate) + "\n    ";
    assert RenderFeed(posts, lastBuildDate) == pre + items + ChannelEnd;
    ItemsHoldEachItem(posts, i);
    ContainsWithin(pre, items, ChannelEnd, RenderItem(posts[i]));
  }
}
