/** The sitemap written at the end of the run (generate_and_deploy.py lines
    113-117): the site root and then one `<url>` entry per created file, in
    the Sitemaps XML format, version 0.9 of the sitemaps.org protocol.

    `today(k)` is the date `datetime.utcnow().date().isoformat()` returns when
    the clock is read for entry `k`; the script reads it once per entry. */
module Sitemap {

  datatype Option<T> = None | Some(value: T)

  /** The XML declaration and the opening `urlset` tag. */
  const Header := "<?xml version=\"1.0\" encoding=\"UTF-8\"?>\n<urlset xmlns=\"http://www.sitemaps.org/schemas/sitemap/0.9\">\n"
  const Footer := "</urlset>"

  /** The text around the two values of one entry. */
  const EntryOpen := "  <url>\n    <loc>"
  const EntryMid := "</loc>\n    <lastmod>"
  const EntryClose := "</lastmod>\n  </url>\n"

  /** One `<url>` element: its `<loc>` and its `<lastmod>`. */
  datatype UrlEntry = UrlEntry(loc: string, lastmod: string)

  /** `date.isoformat()`: `YYYY-MM-DD`. */
  predicate IsIsoDate(d: string) {
    |d| == 10 && d[4] == '-' && d[7] == '-'
    && forall i :: 0 <= i < 10 && i != 4 && i != 7 ==> '0' <= d[i] <= '9'
  }

  /** The list built at line 113: the root, then one URL per file. */
  function Urls(base: string, files: seq<string>): seq<string> {
    [base + "/"] + seq(|files|, i requires 0 <= i < |files| => base + "/" + files[i])
  }

  /** Each URL with the date read for it. */
  function Stamp(urls: seq<string>, today: nat -> string): seq<UrlEntry> {
    seq(|urls|, k requires 0 <= k < |urls| => UrlEntry(urls[k], today(k)))
  }

  function Entry(e: UrlEntry): string {
    EntryOpen + e.loc + EntryMid + e.lastmod + EntryClose
  }

  function Render(es: seq<UrlEntry>): string {
    if es == [] then "" else Entry(es[0]) + Render(es[1..])
  }

  /** The whole document the script writes to `sitemap.xml`. */
  function Document(base: string, files: seq<string>, today: nat -> string): string {
    Header + Render(Stamp(Urls(base, files), today)) + Footer
  }

  lemma RenderCons(es: seq<UrlEntry>)
    requires es != []
    ensures Render(es) == Entry(es[0]) + Render(es[1..])
  {
  }

  lemma {:induction false} RenderAppend(es: seq<UrlEntry>, e: UrlEntry)
    ensures Render(es + [e]) == Render(es) + Entry(e)
    decreases |es|
  {
    if es == [] {
      assert es + [e] == [e];
    } else {
      var head, tail := Entry(es[0]), es[1..];
      assert (es + [e])[0] == es[0] && (es + [e])[1..] == tail + [e];
      assert Render(tail + [e]) == Render(tail) + Entry(e) by {
        RenderAppend(tail, e);
      }
      assert Render(es) == head + Render(tail);
      assert head + (Render(tail) + Entry(e)) == head + Render(tail) + Entry(e);
    }
  }

  /** Appending entry `k` to a document that holds the entries before it. */
  lemma Grow(head: string, es: seq<UrlEntry>, k: nat)
    requires k < |es|
    ensures head + Render(es[..k]) + Entry(es[k]) == head + Render(es[..k + 1])
  {
    RenderAppend(es[..k], es[k]);
    assert es[..k + 1] == es[..k] + [es[k]];
  }

  /** Lines 113-117: the string grown one entry at a time, proved to be the
      document `Document` describes. */
  method BuildSitemap(base: string, files: seq<string>, today: nat -> string) returns (sitemap: string)
    ensures sitemap == Document(base, files, today)
  {
    var urls := Urls(base, files);
    ghost var es := Stamp(urls, today);
    sitemap := Header;
    for k := 0 to |urls|
      invariant sitemap == Header + Render(es[..k])
    {
      Grow(Header, es, k);
      sitemap := sitemap + Entry(UrlEntry(urls[k], today(k)));
    }
    assert es[..|urls|] == es;
    sitemap := sitemap + Footer;
  }

  // Reading a document back.

  predicate StartsWith(s: string, p: string) {
    |p| <= |s| && s[..|p|] == p
  }

  /** The longest prefix of `s` without `c`. */
  function UpTo(s: string, c: char): (r: string)
    ensures |r| <= |s| && r == s[..|r|] && c !in r
    ensures |r| < |s| ==> s[|r|] == c
  {
    if s == [] || s[0] == c then [] else [s[0]] + UpTo(s[1..], c)
  }

  /** The `<url>` elements of a run of entries, or `None` when the text is
      not such a run. */
  function ParseEntries(s: string): Option<seq<UrlEntry>>
    decreases |s|
  {
    if s == [] then Some([])
    else if !StartsWith(s, EntryOpen) then None
    else
      var afterOpen := s[|EntryOpen|..];
      var loc := UpTo(afterOpen, '<');
      var afterLoc := afterOpen[|loc|..];
      if !StartsWith(afterLoc, EntryMid) then None
      else
        var afterMid := afterLoc[|EntryMid|..];
        var date := UpTo(afterMid, '<');
        var afterDate := afterMid[|date|..];
        if !StartsWith(afterDate, EntryClose) then None
        else
          match ParseEntries(afterDate[|EntryClose|..])
          case None => None
          case Some(rest) => Some([UrlEntry(loc, date)] + rest)
  }

  /** The entries of a sitemap document, or `None` when it is not one. */
  function Parse(doc: string): Option<seq<UrlEntry>> {
    if |doc| < |Header| + |Footer| || doc[..|Header|] != Header || doc[|doc| - |Footer|..] != Footer then None
    else ParseEntries(doc[|Header|..|doc| - |Footer|])
  }

  predicate Plain(e: UrlEntry) {
    '<' !in e.loc && '<' !in e.lastmod
  }

  lemma {:induction false} UpToPrefix(a: string, b: string, c: char)
    requires c !in a && b != [] && b[0] == c
    ensures UpTo(a + b, c) == a
    decreases |a|
  {
    if a != [] {
      assert (a + b)[1..] == a[1..] + b;
      UpToPrefix(a[1..], b, c);
    }
  }

  lemma StartsWithAppend(p: string, s: string)
    ensures StartsWith(p + s, p) && (p + s)[|p|..] == s
  {
    assert (p + s)[..|p|] == p;
  }

  /** Reading one entry off the front of a text. */
  lemma ParseFirst(e: UrlEntry, rest: string)
    requires Plain(e)
    ensures ParseEntries(Entry(e) + rest)
            == match ParseEntries(rest)
               case None => None
               case Some(es) => Some([e] + es)
  {
    var tail3 := EntryClose + rest;
    var tail2 := e.lastmod + tail3;
    var tail1 := EntryMid + tail2;
    var tail0 := e.loc + tail1;
    var s := EntryOpen + tail0;
    assert Entry(e) + rest == s;
    StartsWithAppend(EntryOpen, tail0);
    UpToPrefix(e.loc, tail1, '<');
    StartsWithAppend(e.loc, tail1);
    StartsWithAppend(EntryMid, tail2);
    UpToPrefix(e.lastmod, tail3, '<');
    StartsWithAppend(e.lastmod, tail3);
    StartsWithAppend(EntryClose, rest);
  }

  lemma ParseCons(e: UrlEntry, rest: string, es: seq<UrlEntry>)
    requires Plain(e) && ParseEntries(rest) == Some(es)
    ensures ParseEntries(Entry(e) + rest) == Some([e] + es)
  {
    ParseFirst(e, rest);
  }

  /** A run of entries whose values hold no `<` reads back as those entries. */
  lemma {:induction false} ParseRender(es: seq<UrlEntry>)
    requires forall k :: 0 <= k < |es| ==> Plain(es[k])
    ensures ParseEntries(Render(es)) == Some(es)
    decreases |es|
  {
    if es != [] {
      var e, tail := es[0], es[1..];
      assert Plain(e);
      assert forall k :: 0 <= k < |tail| ==> Plain(tail[k]) by {
        forall k | 0 <= k < |tail| ensures Plain(tail[k]) {
          assert tail[k] == es[k + 1];
        }
      }
      var rest := Render(tail);
      ParseRender(tail);
      ParseCons(e, rest, tail);
      RenderCons(es);
      assert [e] + tail == es;
    }
  }

  lemma Unframe(head: string, body: string, foot: string)
    ensures var doc := head + body + foot;
            && |doc| == |head| + |body| + |foot|
            && doc[..|head|] == head
            && doc[|doc| - |foot|..] == foot
            && doc[|head|..|doc| - |foot|] == body
  {
    var doc := head + body + foot;
    assert doc[..|head|] == head;
    assert doc[|doc| - |foot|..] == foot;
    assert doc[|head|..|doc| - |foot|] == body;
  }

  lemma ParseDocument(es: seq<UrlEntry>)
    requires forall k :: 0 <= k < |es| ==> Plain(es[k])
    ensures Parse(Header + Render(es) + Footer) == Some(es)
  {
    Unframe(Header, Render(es), Footer);
    ParseRender(es);
  }

  lemma IsoDatePlain(d: string)
    requires IsIsoDate(d)
    ensures '<' !in d
  {
    forall i | 0 <= i < |d| ensures d[i] != '<' {
      if i != 4 && i != 7 {
        assert '0' <= d[i] <= '9';
      }
    }
  }

  lemma StampPlain(base: string, files: seq<string>, today: nat -> string)
    requires '<' !in base
    requires forall i :: 0 <= i < |files| ==> '<' !in files[i]
    requires forall k :: IsIsoDate(today(k))
    ensures var es := Stamp(Urls(base, files), today);
            forall k :: 0 <= k < |es| ==> Plain(es[k])
  {
    var urls := Urls(base, files);
    forall k | 0 <= k < |urls| ensures '<' !in urls[k] && '<' !in today(k) {
      IsoDatePlain(today(k));
      if k > 0 {
        assert urls[k] == base + "/" + files[k - 1];
      }
    }
  }

  lemma StampShape(base: string, files: seq<string>, today: nat -> string)
    ensures var es := Stamp(Urls(base, files), today);
            && |es| == 1 + |files|
            && es[0].loc == base + "/"
            && (forall i :: 0 <= i < |files| ==> es[i + 1].loc == base + "/" + files[i])
            && (forall k :: 0 <= k < |es| ==> es[k].lastmod == today(k))
  {
  }

  /** The sitemap reads back as exactly one entry for the root and one per
      file, in order, each dated by its own clock reading: `1 + |files|`
      entries, the first at `base + "/"` and entry `i + 1` at
      `base + "/" + files[i]`. It needs only that neither the base URL nor a
      file name holds a `<`, which the script does not escape. */
  lemma SitemapEntries(base: string, files: seq<string>, today: nat -> string)
    requires '<' !in base
    requires forall i :: 0 <= i < |files| ==> '<' !in files[i]
    requires forall k :: IsIsoDate(today(k))
    ensures var doc := Document(base, files, today);
            && StartsWith(doc, Header)
            && Parse(doc).Some?
            && var es := Parse(doc).value;
            && |es| == 1 + |files|
            && es[0].loc == base + "/"
            && (forall i :: 0 <= i < |files| ==> es[i + 1].loc == base + "/" + files[i])
            && (forall k :: 0 <= k < |es| ==> es[k].lastmod == today(k))
  {
    var es := Stamp(Urls(base, files), today);
    StampShape(base, files, today);
    StampPlain(base, files, today);
    ParseDocument(es);
    Unframe(Header, Render(es), Footer);
  }
}
