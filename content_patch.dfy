/**
 * `update_page_text` (app.py): the page's content streams are read, the
 * placeholder block that shows the sample login and password is replaced by a
 * block showing the row's credentials in the font `/FSP`, and the page's
 * `/Contents` is pointed at a new stream holding the result.
 */
module ContentPatch {
  import opened Results
  import opened Text
  import opened PdfEscape
  import opened Placeholder
  import opened PdfObjects
  import opened Fonts

  /** The font name `update_page_text` makes sure of and selects. */
  const FontName := "/FSP"

  /** The fixed parts of the replacement block, around the two escaped credentials. */
  const Before := FontName + " 19.2 Tf\n" + Matrix + "\n("
  const Between := ") Tj\n" + Offset + "\n("
  const After := ") Tj"

  /** The replacement block as text, before its latin-1 encoding. */
  function ReplacementText(login: string, password: string): string {
    Before + EscapePdf(login) + Between + EscapePdf(password) + After
  }

  lemma Latin1Concat(a: string, b: string)
    ensures IsLatin1(a + b) <==> IsLatin1(a) && IsLatin1(b)
  {
    if IsLatin1(a) && IsLatin1(b) {
      forall i | 0 <= i < |a + b| ensures (a + b)[i] as int < 256 {
        if i >= |a| {
          assert (a + b)[i] == b[i - |a|];
        }
      }
    }
    if IsLatin1(a + b) {
      forall i | 0 <= i < |a| ensures a[i] as int < 256 {
        assert a[i] == (a + b)[i];
      }
      forall i | 0 <= i < |b| ensures b[i] as int < 256 {
        assert b[i] == (a + b)[i + |a|];
      }
    }
  }

  /** Escaping adds only backslashes, so it keeps a text encodable exactly when it was. */
  lemma {:induction false} EscapedLatin1(s: string)
    ensures IsLatin1(Escaped(s)) <==> IsLatin1(s)
  {
    if s != [] {
      EscapedLatin1(s[1..]);
      Latin1Concat(EscapeChar(s[0]), Escaped(s[1..]));
      assert s == [s[0]] + s[1..];
      Latin1Concat([s[0]], s[1..]);
      assert IsLatin1(EscapeChar(s[0])) <==> IsLatin1([s[0]]);
    }
  }

  lemma FixedPartsLatin1()
    ensures IsLatin1(Before) && IsLatin1(Between) && IsLatin1(After)
  {
    assert IsLatin1(FontName + " 19.2 Tf\n") && IsLatin1(Matrix) && IsLatin1("\n(");
    Latin1Concat(FontName + " 19.2 Tf\n", Matrix);
    Latin1Concat(FontName + " 19.2 Tf\n" + Matrix, "\n(");
    assert IsLatin1(") Tj\n") && IsLatin1(Offset) && IsLatin1("\n(");
    Latin1Concat(") Tj\n", Offset);
    Latin1Concat(") Tj\n" + Offset, "\n(");
  }

  lemma Latin1Around(b: string, x: string, m: string, y: string, a: string)
    requires IsLatin1(b) && IsLatin1(m) && IsLatin1(a)
    ensures IsLatin1(b + x + m + y + a) <==> IsLatin1(x) && IsLatin1(y)
  {
    Latin1Concat(b + x + m + y, a);
    Latin1Concat(b + x + m, y);
    Latin1Concat(b + x, m);
    Latin1Concat(b, x);
  }

  /**
   * `replacement = (...).encode("latin1")`: the encoding succeeds exactly when
   * both credentials are latin-1 text, and leaves the text as it is.
   */
  function Replacement(login: string, password: string): (r: Option<Bytes>)
    ensures r.Some? <==> IsLatin1(login) && IsLatin1(password)
    ensures r.Some? ==> r.value == ReplacementText(login, password)
  {
    var text := ReplacementText(login, password);
    assert IsLatin1(text) <==> IsLatin1(login) && IsLatin1(password) by {
      FixedPartsLatin1();
      EscapePdfIsEscaped(login);
      EscapePdfIsEscaped(password);
      EscapedLatin1(login);
      EscapedLatin1(password);
      Latin1Around(Before, EscapePdf(login), Between, EscapePdf(password), After);
    }
    Latin1(text)
  }

  /**
   * Read back as PDF content, the replacement block selects `/FSP` and then
   * shows the login and, after the line move, the password (each with its
   * line ends read as LF, so exactly the credential when it holds no CR):
   * each literal string closes where the block intends it to.
   */
  lemma ReplacementShowsCredentials(login: string, password: string)
    ensures var t := ReplacementText(login, password);
      var second := |Before| + |EscapePdf(login)| + |Between|;
      && t[..|Before|] == Before
      && ReadLiteral(t[|Before|..], 0) == Some((NormaliseEol(login), Between[1..] + EscapePdf(password) + After))
      && second <= |t| && t[second - |Between|..second] == Between
      && ReadLiteral(t[second..], 0) == Some((NormaliseEol(password), After[1..]))
  {
    assert Between == [')'] + Between[1..];
    assert After == [')'] + After[1..];
    Block(Before, EscapePdf(login), Between, EscapePdf(password), After);
    ReadEscapedLiteral(login, Between[1..] + EscapePdf(password) + After);
    ReadEscapedLiteral(password, After[1..]);
  }

  /** How the replacement block splits around its two literal strings. */
  lemma Block(b: string, x: string, m: string, y: string, a: string)
    requires m != [] && m[0] == ')' && a != [] && a[0] == ')'
    ensures var t := b + x + m + y + a;
      && t[..|b|] == b
      && t[|b|..] == x + ")" + (m[1..] + y + a)
      && |b| + |x| + |m| <= |t| && t[|b| + |x|..|b| + |x| + |m|] == m
      && t[|b| + |x| + |m|..] == y + ")" + a[1..]
  {
    var t := b + x + m + y + a;
    assert t == b + (x + m + y + a) by {
      Associate(b, x, m, y, a);
      Associate([], x, m, y, a);
    }
    SliceAfter(b, x + m + y + a);
    SliceBefore(b, x + m + y + a);
    assert x + m + y + a == x + ")" + (m[1..] + y + a) by {
      assert m == ")" + m[1..];
      Associate(x, ")", m[1..], y, a);
      Associate(x, ")", m[1..] + y + a, [], []);
    }
    assert t == (b + x) + m + (y + a);
    SliceMiddle(b + x, m, y + a);
    assert t == (b + x + m) + (y + a);
    SliceAfter(b + x + m, y + a);
    assert y + a == y + ")" + a[1..] by {
      assert a == ")" + a[1..];
    }
  }

  lemma SliceBefore(b: string, rest: string)
    ensures (b + rest)[..|b|] == b
  {
  }

  lemma SliceMiddle(p: string, m: string, q: string)
    ensures |p| + |m| <= |p + m + q| && (p + m + q)[|p|..|p| + |m|] == m
  {
  }

  /** `obj.get_object()`: a reference is looked up in the table; any other object is itself. */
  function Deref(o: PdfObject, objects: Table): (r: Option<PdfObject>)
    ensures !o.Ref? ==> r == Some(o)
    ensures o.Ref? ==> r == Resolve(objects, o.id)
  {
    if o.Ref? then Resolve(objects, o.id) else Some(o)
  }

  /**
   * `obj.get_object().get_data()`: the decoded data of the stream that `o` is
   * or refers to; `None` when that is not a stream (the source raises).
   */
  function StreamData(o: PdfObject, objects: Table): (r: Option<Bytes>)
    ensures r.Some? <==> Deref(o, objects).Some? && Deref(o, objects).value.Stream?
    ensures r.Some? ==> r.value == Deref(o, objects).value.data
  {
    match Deref(o, objects)
    case Some(Stream(data)) => Some(data)
    case _ => None
  }

  /**
   * `b"".join(obj.get_object().get_data() for obj in items)`: the data of every
   * item, in order; `None` as soon as one item is not a stream.
   */
  function JoinedData(items: seq<PdfObject>, objects: Table): (r: Option<Bytes>)
    ensures r.Some? <==> forall i :: 0 <= i < |items| ==> StreamData(items[i], objects).Some?
  {
    if items == [] then Some([])
    else
      match (JoinedData(items[..|items| - 1], objects), StreamData(items[|items| - 1], objects))
      case (Some(front), Some(last)) => Some(front + last)
      case _ => None
  }

  /**
   * The content bytes `update_page_text` reads: an array of streams is joined,
   * anything else must be or refer to one stream.
   */
  function ContentData(contents: PdfObject, objects: Table): Option<Bytes> {
    match contents
    case Array(items) => JoinedData(items, objects)
    case _ => StreamData(contents, objects)
  }

  /** Two tables that hold the same streams under the same numbers. */
  ghost predicate SameStreams(t: Table, u: Table) {
    && (forall id :: (id in t && t[id].Stream?) <==> (id in u && u[id].Stream?))
    && (forall id :: id in t && t[id].Stream? ==> t[id] == u[id])
  }

  /** Content data depends on nothing in the table but its streams. */
  lemma {:induction false} ContentDataOnlyStreams(contents: PdfObject, t: Table, u: Table)
    requires SameStreams(t, u)
    ensures ContentData(contents, t) == ContentData(contents, u)
  {
    if contents.Array? {
      JoinedDataOnlyStreams(contents.items, t, u);
    }
  }

  lemma {:induction false} JoinedDataOnlyStreams(items: seq<PdfObject>, t: Table, u: Table)
    requires SameStreams(t, u)
    ensures JoinedData(items, t) == JoinedData(items, u)
  {
    if items != [] {
      JoinedDataOnlyStreams(items[..|items| - 1], t, u);
      var o := items[|items| - 1];
      if o.Ref? {
        assert (o.id in t && t[o.id].Stream?) <==> (o.id in u && u[o.id].Stream?);
      }
    }
  }

  /**
   * Making sure of the font touches no stream: the page's content reads the same
   * before and after `ensure_font`.
   */
  lemma WithFontKeepsContent(s: PageState, name: string, contents: PdfObject)
    requires ValidState(s) && WithFont(s, name).Ok?
    ensures ContentData(contents, WithFont(s, name).value.objects) == ContentData(contents, s.objects)
  {
    var t := WithFont(s, name).value.objects;
    assert SameStreams(t, s.objects) by {
      forall id
        ensures (id in t && t[id].Stream?) <==> (id in s.objects && s.objects[id].Stream?)
        ensures id in t && t[id].Stream? ==> t[id] == s.objects[id]
      {
        if id in FontSites(s) {
          assert t[id].Dict? && s.objects[id].Dict?;
        } else if id in t && id !in s.objects {
          assert id == s.nextId && t[id] == HelveticaFont;
        }
      }
    }
    ContentDataOnlyStreams(contents, t, s.objects);
  }

  /** `ensure_font` leaves the page's `/Contents` and what it reads as. */
  lemma ReadsSameContent(s: PageState, name: string)
    requires ValidState(s)
    ensures WithFont(s, name).Ok? ==>
      && ("/Contents" in WithFont(s, name).value.entries <==> "/Contents" in s.entries)
      && PageContent(WithFont(s, name).value) == PageContent(s)
  {
    if WithFont(s, name).Ok? && "/Contents" in s.entries {
      WithFontKeepsContent(s, name, s.entries["/Contents"]);
    }
  }

  /**
   * The part of `update_page_text` after `ensure_font`: read the contents,
   * encode the block, substitute `insert` for each occurrence and point the
   * page at a new stream holding the result; each failure is the exception the
   * source raises.
   */
  function ReplaceContents(s: PageState, login: string, password: string, insert: string): (r: Result<PageState, PatchError>) {
    match Get(s.entries, "/Contents")
    case None => Err(NoContents)
    case Some(contents) =>
      match ContentData(contents, s.objects)
      case None => Err(UnreadableContents)
      case Some(data) =>
        if Replacement(login, password).None? then Err(NotLatin1)
        else
          var (newData, count) := Subn(data, insert);
          if count == 0 then Err(PatternNotFound)
          else Ok(PageState(s.entries["/Contents" := Ref(s.nextId)],
                            s.objects[s.nextId := Stream(newData)], s.nextId + 1))
  }

  /**
   * `update_page_text` with the text `insert` put in place of each occurrence:
   * `ensure_font`, then the content replacement.
   */
  function PatchUsing(s: PageState, login: string, password: string, insert: string): (r: Result<PageState, PatchError>)
    requires ValidState(s)
  {
    match WithFont(s, FontName)
    case Err(e) => Err(e)
    case Ok(s1) => ReplaceContents(s1, login, password, insert)
  }

  /** The content bytes of a page, when it has readable content. */
  function PageContent(s: PageState): Option<Bytes> {
    if "/Contents" in s.entries then ContentData(s.entries["/Contents"], s.objects) else None
  }

  /** The outcome of `PatchUsing`, check by check, and the content it leaves. */
  lemma PatchUsingOutcome(s: PageState, login: string, password: string, insert: string)
    requires ValidState(s)
    ensures var r := PatchUsing(s, login, password, insert);
      && (PageFonts(s).Err? ==> r == Err(Malformed))
      && (PageFonts(s).Ok? && "/Contents" !in s.entries ==> r == Err(NoContents))
      && (PageFonts(s).Ok? && "/Contents" in s.entries && PageContent(s).None? ==> r == Err(UnreadableContents))
      && (PageFonts(s).Ok? && PageContent(s).Some? ==>
            if !(IsLatin1(login) && IsLatin1(password)) then r == Err(NotLatin1)
            else if Subn(PageContent(s).value, insert).1 == 0 then r == Err(PatternNotFound)
            else r.Ok? && PageContent(r.value) == Some(Subn(PageContent(s).value, insert).0))
  {
    if PageFonts(s).Ok? {
      ReadsSameContent(s, FontName);
      ReplaceContentsOutcome(WithFont(s, FontName).value, login, password, insert);
    }
  }

  /** The outcome of `ReplaceContents`, check by check, and the content it leaves. */
  lemma ReplaceContentsOutcome(s: PageState, login: string, password: string, insert: string)
    ensures var r := ReplaceContents(s, login, password, insert);
      && ("/Contents" !in s.entries ==> r == Err(NoContents))
      && ("/Contents" in s.entries && PageContent(s).None? ==> r == Err(UnreadableContents))
      && (PageContent(s).Some? ==>
            if !(IsLatin1(login) && IsLatin1(password)) then r == Err(NotLatin1)
            else if Subn(PageContent(s).value, insert).1 == 0 then r == Err(PatternNotFound)
            else r.Ok? && PageContent(r.value) == Some(Subn(PageContent(s).value, insert).0))
  {
    if PageContent(s).Some? {
      var r := ReplaceContents(s, login, password, insert);
      var newData := Subn(PageContent(s).value, insert).0;
      if r.Ok? {
        assert StreamData(Ref(s.nextId), r.value.objects) == Some(newData);
      }
    }
  }

  /**
   * `update_page_text(page, writer, login, password)` with the replacement block
   * inserted verbatim, as intended (the source passes it to `re.subn` as a
   * template, which halves its backslashes; `PatchedPageAsWritten` models
   * that). It fails with the first check the page does not
   * pass: a malformed resource or font dictionary, no `/Contents`, contents that
   * are not streams, credentials that are not latin-1, no occurrence of the
   * placeholder.
   */
  function PatchedPage(s: PageState, login: string, password: string): (r: Result<PageState, PatchError>)
    requires ValidState(s)
    ensures PageFonts(s).Err? ==> r == Err(Malformed)
    ensures PageFonts(s).Ok? && "/Contents" !in s.entries ==> r == Err(NoContents)
    ensures PageFonts(s).Ok? && "/Contents" in s.entries && PageContent(s).None? ==> r == Err(UnreadableContents)
    ensures PageFonts(s).Ok? && PageContent(s).Some? ==>
      if !(IsLatin1(login) && IsLatin1(password)) then r == Err(NotLatin1)
      else if NoMatch(PageContent(s).value) then r == Err(PatternNotFound)
      else r.Ok?
  {
    PatchUsingOutcome(s, login, password, ReplacementText(login, password));
    var data := if PageContent(s).Some? then PageContent(s).value else [];
    SubnNoMatch(data, ReplacementText(login, password));
    PatchUsing(s, login, password, ReplacementText(login, password))
  }

  /**
   * After a successful patch the page keeps the font `/FSP` bound, its content
   * reads as the old content with every placeholder block replaced, its
   * resources keep every entry but `/Font`, which becomes the ensured font
   * dictionary (also at its own indirect slot), its other entries are as they
   * were, and of the old objects only the resource and font dictionaries may
   * change.
   */
  lemma PatchedPageOk(s: PageState, login: string, password: string)
    requires ValidState(s) && PatchedPage(s, login, password).Ok?
    ensures var t := PatchedPage(s, login, password).value;
      var (newData, count) := Subn(PageContent(s).value, ReplacementText(login, password));
      && ValidState(t)
      && PageFonts(t) == Ok(Ensured(PageFonts(s).value, FontName, s.nextId))
      && PageContent(t) == Some(newData) && count > 0
      && t.entries.Keys == s.entries.Keys + {"/Resources"}
      && (forall key :: key in s.entries && key != "/Resources" && key != "/Contents" ==> t.entries[key] == s.entries[key])
      && (forall id :: id in s.objects && id !in FontSites(s) ==> t.objects[id] == s.objects[id])
    ensures var t := PatchedPage(s, login, password).value;
      var (res, resSite) := ResourcesOf(s).value;
      var fontSite := FontsOf(res, s.objects).value.1;
      var fonts' := Ensured(PageFonts(s).value, FontName, s.nextId);
      && ResourcesOf(t) == Ok((res["/Font" := Dict(fonts')], resSite))
      && (fontSite.Indirect? && fontSite != resSite ==> t.objects[fontSite.id] == Dict(fonts'))
  {
    var s1 := WithFont(s, FontName).value;
    var insert := ReplacementText(login, password);
    ReadsSameContent(s, FontName);
    assert PatchedPage(s, login, password) == ReplaceContents(s1, login, password, insert);
    ReplaceContentsOk(s1, login, password, insert);
  }

  /**
   * A successfully patched page numbers its objects below its next number and
   * keeps every old object other than its resource and font dictionaries.
   */
  lemma PatchedPageFrame(s: PageState, login: string, password: string)
    requires ValidState(s) && PatchedPage(s, login, password).Ok?
    ensures var t := PatchedPage(s, login, password).value;
      && ValidState(t)
      && (forall id :: id in s.objects && id !in FontSites(s) ==> id in t.objects && t.objects[id] == s.objects[id])
  {
    assert PatchedPage(s, login, password) == PatchUsing(s, login, password, ReplacementText(login, password));
    PatchUsingFrame(s, login, password, ReplacementText(login, password));
  }

  /** `PatchedPageFrame` for any inserted text. */
  lemma PatchUsingFrame(s: PageState, login: string, password: string, insert: string)
    requires ValidState(s) && PatchUsing(s, login, password, insert).Ok?
    ensures var t := PatchUsing(s, login, password, insert).value;
      && ValidState(t)
      && (forall id :: id in s.objects && id !in FontSites(s) ==> id in t.objects && t.objects[id] == s.objects[id])
  {
    ReplaceContentsOk(WithFont(s, FontName).value, login, password, insert);
  }

  /**
   * A successful content replacement adds one stream object holding the new
   * content, points `/Contents` at it and leaves the resources and fonts as
   * they were.
   */
  lemma ReplaceContentsOk(s: PageState, login: string, password: string, insert: string)
    requires ValidState(s) && ReplaceContents(s, login, password, insert).Ok?
    ensures var t := ReplaceContents(s, login, password, insert).value;
      var (newData, count) := Subn(PageContent(s).value, insert);
      && PageContent(s).Some?
      && t == PageState(s.entries["/Contents" := Ref(s.nextId)], s.objects[s.nextId := Stream(newData)], s.nextId + 1)
      && ValidState(t)
      && ResourcesOf(t) == ResourcesOf(s) && PageFonts(t) == PageFonts(s)
      && PageContent(t) == Some(newData) && count > 0
  {
    var t := ReplaceContents(s, login, password, insert).value;
    var data := ContentData(s.entries["/Contents"], s.objects).value;
    var newData := Subn(data, insert).0;
    assert t == PageState(s.entries["/Contents" := Ref(s.nextId)], s.objects[s.nextId := Stream(newData)], s.nextId + 1);
    assert PageContent(t) == Some(newData) by {
      assert StreamData(Ref(s.nextId), t.objects) == Some(newData);
    }
    assert Get(t.entries, "/Resources") == Get(s.entries, "/Resources");
    FreshStreamKeepsFonts(s, t);
  }

  /**
   * Neither the resources nor the fonts of a page change when a stream is added
   * under a fresh number and the `/Resources` entry is left alone.
   */
  lemma FreshStreamKeepsFonts(s: PageState, t: PageState)
    requires ValidState(s) && Get(t.entries, "/Resources") == Get(s.entries, "/Resources")
    requires exists data :: t.objects == s.objects[s.nextId := Stream(data)]
    ensures ResourcesOf(t) == ResourcesOf(s) && PageFonts(t) == PageFonts(s)
  {
    forall j: nat
      ensures (match Resolve(t.objects, j) case Some(Dict(d)) => Some(d) case _ => None)
           == (match Resolve(s.objects, j) case Some(Dict(d)) => Some(d) case _ => None)
    {
      if j != s.nextId {
        assert Resolve(t.objects, j) == Resolve(s.objects, j);
      }
    }
    assert ResourcesOf(t) == ResourcesOf(s);
    if ResourcesOf(s).Ok? {
      assert FontsOf(ResourcesOf(s).value.0, t.objects) == FontsOf(ResourcesOf(s).value.0, s.objects);
    }
  }

  /**
   * End to end: when the page's content holds exactly one placeholder block,
   * the patched page's content is the same bytes with only that block replaced
   * by the replacement block.
   */
  lemma PatchedPageSplice(s: PageState, login: string, password: string, pre: string, o: seq<string>, post: string)
    requires ValidState(s) && PageFonts(s).Ok? && IsLatin1(login) && IsLatin1(password)
    requires IsOccurrence(o) && NoMatch(post)
    requires NoMatchBefore(pre + (Concat(o) + post), |pre|)
    requires PageContent(s) == Some(pre + (Concat(o) + post))
    ensures PatchedPage(s, login, password).Ok?
    ensures PageContent(PatchedPage(s, login, password).value) == Some(pre + ReplacementText(login, password) + post)
  {
    var t := pre + (Concat(o) + post);
    ExactlyOnce(pre, o, post, ReplacementText(login, password));
    assert Match(t[|pre|..]).Some? by {
      assert t[|pre|..] == Concat(o) + post;
      MatchOccurrence(o, post);
    }
    assert !NoMatch(t);
    PatchedPageOk(s, login, password);
  }

  /** `obj.get_object().get_data()` for each item in turn, joined as the source's generator does. */
  method JoinStreams(items: seq<PdfObject>, objects: Table) returns (r: Option<Bytes>)
    ensures r == JoinedData(items, objects)
  {
    var data: Bytes := [];
    var i := 0;
    while i < |items|
      invariant 0 <= i <= |items|
      invariant JoinedData(items[..i], objects) == Some(data)
    {
      var piece := StreamData(items[i], objects);
      assert items[..i + 1][..i] == items[..i];
      if piece.None? {
        assert JoinedData(items[..i + 1], objects).None?;
        JoinedPrefixFails(items, objects, i + 1);
        return None;
      }
      data := data + piece.value;
      i := i + 1;
    }
    assert items[..i] == items;
    return Some(data);
  }

  /** Once a prefix of the items fails to give stream data, so do all the items. */
  lemma JoinedPrefixFails(items: seq<PdfObject>, objects: Table, n: nat)
    requires n <= |items| && JoinedData(items[..n], objects).None?
    ensures JoinedData(items, objects).None?
  {
    var i :| 0 <= i < n && StreamData(items[..n][i], objects).None?;
    assert items[i] == items[..n][i];
  }

  /**
   * The content step of `update_page_text`: reads the contents, substitutes the
   * placeholder block and points the page at a new content stream added to the
   * writer, as `ReplaceContents` describes.
   */
  method ReplaceContentStream(page: PdfPage, writer: PdfWriter, login: string, password: string) returns (r: Outcome<PatchError>)
    requires writer.Valid()
    modifies page, writer
    ensures var p := ReplaceContents(old(StateOf(page, writer)), login, password, ReplacementText(login, password));
      && (r.Pass? <==> p.Ok?)
      && (p.Ok? ==> StateOf(page, writer) == p.value)
      && (p.Err? ==> r == Fail(p.error))
    ensures writer.Valid() && writer.pages == old(writer.pages)
  {
    var contents := Get(page.entries, "/Contents");
    if contents.None? {
      return Fail(NoContents);
    }
    var data: Option<Bytes>;
    if contents.value.Array? {
      data := JoinStreams(contents.value.items, writer.objects);
    } else {
      data := StreamData(contents.value, writer.objects);
    }
    if data.None? {
      return Fail(UnreadableContents);
    }
    var replacement := Replacement(login, password);
    if replacement.None? {
      return Fail(NotLatin1);
    }
    var (newData, count) := Subn(data.value, replacement.value);
    if count == 0 {
      return Fail(PatternNotFound);
    }
    var ref := writer.AddObject(Stream(newData));
    page.entries := page.entries["/Contents" := ref];
    return Pass;
  }

  /**
   * `update_page_text(page, writer, login, password)`: makes sure of the font,
   * then replaces the content stream. On success the page and writer are as
   * `PatchedPage` describes; on failure only the failure is specified.
   */
  method UpdatePageText(page: PdfPage, writer: PdfWriter, login: string, password: string) returns (r: Outcome<PatchError>)
    requires writer.Valid()
    modifies page, writer
    ensures var p := PatchedPage(old(StateOf(page, writer)), login, password);
      && (r.Pass? <==> p.Ok?)
      && (p.Ok? ==> StateOf(page, writer) == p.value)
      && (p.Err? ==> r == Fail(p.error))
    ensures writer.Valid() && writer.pages == old(writer.pages)
  {
    ghost var s := StateOf(page, writer);
    assert PatchedPage(s, login, password) == PatchUsing(s, login, password, ReplacementText(login, password));
    r := EnsureFont(page, writer, FontName);
    if r.Fail? {
      return;
    }
    r := ReplaceContentStream(page, writer, login, password);
  }

  // The replacement block as the source passes it: `subn` treats a byte-string
  // replacement as a template, so the block is expanded before it is inserted.

  /** Escaping of the two parentheses only. */
  function EscapeParens(s: string): string {
    if s == [] then []
    else (if s[0] == '(' || s[0] == ')' then ['\\', s[0]] else [s[0]]) + EscapeParens(s[1..])
  }

  lemma PrependTextTwice(a: string, b: string, x: Option<string>)
    ensures PrependText(a, PrependText(b, x)) == PrependText(a + b, x)
    ensures PrependText([], x) == x
  {
    if x.Some? {
      assert a + (b + x.value) == (a + b) + x.value;
      assert [] + x.value == x.value;
    }
  }

  /** Expansion of one escape pair `\\`, `\(` or `\)` at the head of a template. */
  lemma ExpandPair(c: char, rest: string)
    requires IsMeta(c)
    ensures ExpandTemplate(['\\', c] + rest) == PrependText(if c == '\\' then "\\" else ['\\', c], ExpandTemplate(rest))
  {
    var t := ['\\', c] + rest;
    assert t[0] == '\\' && t[1] == c && t[2..] == rest;
    if c != '\\' {
      assert !IsAsciiLetter(c) && !('0' <= c <= '9') && c != 'g';
    }
  }

  /** Expansion of an ordinary character at the head of a template. */
  lemma ExpandOrdinary(c: char, rest: string)
    requires c != '\\'
    ensures ExpandTemplate([c] + rest) == PrependText([c], ExpandTemplate(rest))
  {
    var t := [c] + rest;
    assert t[0] == c && t[1..] == rest;
  }

  /**
   * Template expansion undoes the doubling of backslashes: of an escaped text,
   * only the escapes of the parentheses survive.
   */
  lemma {:induction false} ExpandEscaped(s: string, tail: string)
    ensures ExpandTemplate(Escaped(s) + tail) == PrependText(EscapeParens(s), ExpandTemplate(tail))
  {
    if s == [] {
      assert Escaped(s) + tail == tail;
      PrependTextTwice([], [], ExpandTemplate(tail));
    } else {
      var c := s[0];
      var rest := Escaped(s[1..]) + tail;
      var head := if c == '\\' then "\\" else EscapeChar(c);
      assert Escaped(s) + tail == EscapeChar(c) + rest;
      assert ExpandTemplate(EscapeChar(c) + rest) == PrependText(head, ExpandTemplate(rest)) by {
        if IsMeta(c) {
          ExpandPair(c, rest);
        } else {
          ExpandOrdinary(c, rest);
        }
      }
      ExpandEscaped(s[1..], tail);
      PrependTextTwice(head, EscapeParens(s[1..]), ExpandTemplate(tail));
      assert EscapeParens(s) == head + EscapeParens(s[1..]);
    }
  }

  /** Text without a backslash goes through template expansion unchanged. */
  lemma {:induction false} ExpandPlain(s: string, tail: string)
    requires '\\' !in s
    ensures ExpandTemplate(s + tail) == PrependText(s, ExpandTemplate(tail))
  {
    if s == [] {
      assert s + tail == tail;
      PrependTextTwice([], [], ExpandTemplate(tail));
    } else {
      assert s[0] in s;
      ExpandPlain(s[1..], tail);
      assert (s + tail)[1..] == s[1..] + tail;
      PrependTextTwice([s[0]], s[1..], ExpandTemplate(tail));
      assert [s[0]] + s[1..] == s;
    }
  }

  /** Expansion of a block made of fixed text without backslashes and two escaped texts. */
  lemma ExpandBlock(b: string, x: string, m: string, y: string, a: string)
    requires '\\' !in b && '\\' !in m && '\\' !in a
    ensures ExpandTemplate(b + Escaped(x) + m + Escaped(y) + a)
         == Some(b + EscapeParens(x) + m + EscapeParens(y) + a)
  {
    var e1, f1 := Escaped(y) + a, EscapeParens(y) + a;
    assert ExpandTemplate(e1) == Some(f1) by {
      ExpandPlain(a, []);
      assert a + [] == a;
      PrependTextTwice(a, [], Some([]));
      ExpandEscaped(y, a);
    }
    var e2, f2 := m + e1, m + f1;
    assert ExpandTemplate(e2) == Some(f2) by {
      ExpandPlain(m, e1);
    }
    var e3, f3 := Escaped(x) + e2, EscapeParens(x) + f2;
    assert ExpandTemplate(e3) == Some(f3) by {
      ExpandEscaped(x, e2);
    }
    assert ExpandTemplate(b + e3) == Some(b + f3) by {
      ExpandPlain(b, e3);
    }
    Associate(b, Escaped(x), m, Escaped(y), a);
    Associate(b, EscapeParens(x), m, EscapeParens(y), a);
  }

  lemma Associate(p: string, q: string, r: string, s: string, t: string)
    ensures p + q + r + s + t == p + (q + (r + (s + t)))
  {
  }

  lemma FixedPartsPlain()
    ensures '\\' !in Before && '\\' !in Between && '\\' !in After
  {
    assert '\\' !in FontName + " 19.2 Tf\n" && '\\' !in Matrix && '\\' !in "\n(";
    assert '\\' !in ") Tj\n" && '\\' !in Offset;
  }

  /**
   * What app.py's `subn` call actually inserts: the replacement block after
   * template expansion, in which every backslash the escaping doubled is single
   * again.
   */
  function AsWrittenReplacement(login: string, password: string): (r: string)
    ensures ExpandTemplate(ReplacementText(login, password)) == Some(r)
  {
    FixedPartsPlain();
    EscapePdfIsEscaped(login);
    EscapePdfIsEscaped(password);
    ExpandBlock(Before, login, Between, password, After);
    Before + EscapeParens(login) + Between + EscapeParens(password) + After
  }

  /** `update_page_text` as app.py writes it, inserting the expanded replacement block. */
  function PatchedPageAsWritten(s: PageState, login: string, password: string): (r: Result<PageState, PatchError>)
    requires ValidState(s)
    ensures r.Ok? <==> PatchedPage(s, login, password).Ok?
    ensures r.Ok? ==>
      && PageContent(s).Some?
      && SubnAsWritten(PageContent(s).value, ReplacementText(login, password)).Some?
      && PageContent(r.value) == Some(SubnAsWritten(PageContent(s).value, ReplacementText(login, password)).value.0)
  {
    PatchUsingOutcome(s, login, password, AsWrittenReplacement(login, password));
    PatchUsingOutcome(s, login, password, ReplacementText(login, password));
    var data := if PageContent(s).Some? then PageContent(s).value else [];
    SubnNoMatch(data, AsWrittenReplacement(login, password));
    SubnNoMatch(data, ReplacementText(login, password));
    PatchUsing(s, login, password, AsWrittenReplacement(login, password))
  }

  lemma {:induction false} EscapeParensLength(s: string)
    ensures |EscapeParens(s)| <= |Escaped(s)|
    ensures |EscapeParens(s)| == |Escaped(s)| <==> '\\' !in s
    ensures '\\' !in s ==> EscapeParens(s) == Escaped(s)
  {
    if s != [] {
      EscapeParensLength(s[1..]);
      assert '\\' in s <==> s[0] == '\\' || '\\' in s[1..];
    }
  }

  /**
   * The inserted block is the intended one exactly when neither credential
   * contains a backslash.
   */
  lemma AsWrittenDiffers(login: string, password: string)
    ensures AsWrittenReplacement(login, password) == ReplacementText(login, password)
        <==> '\\' !in login && '\\' !in password
  {
    EscapePdfIsEscaped(login);
    EscapePdfIsEscaped(password);
    EscapeParensLength(login);
    EscapeParensLength(password);
    var a := AsWrittenReplacement(login, password);
    var b := ReplacementText(login, password);
    if a == b {
      assert |a| == |b|;
    }
  }

  /** Text with no parenthesis, backslash or CR, which a literal string reads as it is. */
  predicate Plain(u: string) {
    forall i :: 0 <= i < |u| ==> !IsMeta(u[i]) && u[i] != '\r'
  }

  lemma {:induction false} ReadPlain(u: string, rest: string, depth: nat)
    requires Plain(u)
    ensures ReadLiteral(u + rest, depth) == Prepend(u, ReadLiteral(rest, depth))
  {
    if u == [] {
      assert u + rest == rest;
      match ReadLiteral(rest, depth)
      case None =>
      case Some((body, after)) => assert u + body == body;
    } else {
      var t := u + rest;
      assert t[0] == u[0] && !IsMeta(u[0]) && u[0] != '\r';
      assert t[1..] == u[1..] + rest;
      ReadPlain(u[1..], rest, depth);
      assert ReadLiteral(t, depth) == Prepend([u[0]], ReadLiteral(t[1..], depth));
      match ReadLiteral(rest, depth)
      case None =>
      case Some((body, after)) => assert [u[0]] + (u[1..] + body) == u + body;
    }
  }

  lemma ReadStep(c: char, rest: string, depth: nat)
    ensures c == '(' ==> ReadLiteral([c] + rest, depth) == Prepend("(", ReadLiteral(rest, depth + 1))
    ensures c == ')' && depth > 0 ==> ReadLiteral([c] + rest, depth) == Prepend(")", ReadLiteral(rest, depth - 1))
    ensures c == ')' ==> ReadLiteral(['\\', c] + rest, depth) == Prepend(")", ReadLiteral(rest, depth))
  {
    assert ([c] + rest)[1..] == rest;
    assert (['\\', c] + rest)[1..] == [c] + rest;
    assert (['\\', c] + rest)[2..] == rest;
  }

  /**
   * The end of the block for password `b`: a parenthesis that opens one level,
   * closed by the one after `b`, and then no closing parenthesis.
   */
  lemma ReopenedTail()
    ensures ReadLiteral("(" + ("b" + (")" + " Tj")), 0) == None
  {
    assert Plain(" Tj") && Plain("b");
    assert ReadLiteral(" Tj", 0) == None by {
      ReadPlain(" Tj", [], 0);
      assert " Tj" + [] == " Tj";
    }
    assert ReadLiteral(")" + " Tj", 1) == None by {
      ReadStep(')', " Tj", 1);
    }
    ReadPlain("b", ")" + " Tj", 1);
    ReadStep('(', "b" + (")" + " Tj"), 0);
  }

  /** The text between the two credentials holds no parenthesis or backslash after its first `)`. */
  lemma UnclosedTail(u: string)
    requires u == " Tj\n" + Offset + "\n"
    ensures ReadLiteral(u + ("(" + ("b" + (")" + " Tj"))), 0) == None
  {
    var tail := "(" + ("b" + (")" + " Tj"));
    ReopenedTail();
    assert Plain(" Tj\n") && Plain(Offset) && Plain("\n");
    ReadPlain("\n", tail, 0);
    ReadPlain(Offset, "\n" + tail, 0);
    ReadPlain(" Tj\n", Offset + ("\n" + tail), 0);
    assert u + tail == " Tj\n" + (Offset + ("\n" + tail));
  }

  /**
   * In the inserted block for a login `a\` the first literal string runs past
   * the text between the two credentials and never closes.
   */
  lemma NeverCloses()
    ensures ReadLiteral("a\\" + Between + "b" + After, 0) == None
  {
    var u := " Tj\n" + Offset + "\n";
    var tail := "(" + ("b" + (")" + " Tj"));
    UnclosedTail(u);
    ReadStep(')', u + tail, 0);
    assert Plain("a");
    ReadPlain("a", ['\\', ')'] + (u + tail), 0);
    assert "a\\" == "a" + "\\";
    assert Between == ")" + u + "(" by {
      assert ") Tj\n" == ")" + " Tj\n";
      assert "\n(" == "\n" + "(";
    }
    assert After == ")" + " Tj";
    assert ['\\', ')'] == "\\" + ")";
    Regroup("a", "\\", ")", u, "(", "b", ")", " Tj");
  }

  lemma Regroup(a: string, b: string, c: string, u: string, d: string, e: string, f: string, g: string)
    ensures (a + b) + (c + u + d) + e + (f + g) == a + ((b + c) + (u + (d + (e + (f + g)))))
  {
  }

  /**
   * A login ending in a backslash: the intended block shows it and closes its
   * literal string, but in the inserted block the backslash escapes the closing
   * parenthesis, and the first literal string never closes.
   */
  lemma TrailingBackslashCounterexample()
    ensures var login, password := "a\\", "b";
      && ReadLiteral(ReplacementText(login, password)[|Before|..], 0).Some?
      && ReadLiteral(ReplacementText(login, password)[|Before|..], 0).value.0 == login
      && ReadLiteral(AsWrittenReplacement(login, password)[|Before|..], 0) == None
  {
    ReplacementShowsCredentials("a\\", "b");
    NormaliseEolWithoutCr("a\\");
    AsWrittenTrailingBackslash();
    NeverCloses();
  }

  /** For login `a\` and password `b`, template expansion leaves both credentials as they are. */
  lemma AsWrittenTrailingBackslash()
    ensures AsWrittenReplacement("a\\", "b")[|Before|..] == "a\\" + Between + "b" + After
  {
    var login, password := "a\\", "b";
    assert EscapeParens(login) == login;
    assert EscapeParens(password) == password;
    SliceAfter(Before, login + Between + password + After);
    Associate(Before, login, Between, password, After);
    Associate([], login, Between, password, After);
  }

  lemma SliceAfter(b: string, rest: string)
    ensures (b + rest)[|b|..] == rest
  {
  }
}
