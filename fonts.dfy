/**
 * `ensure_font` (app.py): makes sure the page's font resource dictionary binds
 * a font name, adding a Helvetica Type1 font with WinAnsiEncoding (one of the
 * standard 14 fonts of section 9.6.2.2 of ISO 32000-1) when it does not.
 */
module Fonts {
  import opened Results
  import opened PdfObjects

  /** Where a dictionary lives: directly in its parent, or in the object table. */
  datatype Site = Direct | Indirect(id: nat)

  /** The font dictionary `ensure_font` adds. */
  const HelveticaFont: PdfObject := Dict(map[
    "/Type" := Name("/Font"),
    "/Subtype" := Name("/Type1"),
    "/BaseFont" := Name("/Helvetica"),
    "/Encoding" := Name("/WinAnsiEncoding")])

  /**
   * The resources dictionary as `ensure_font` finds it, and where it lives. A
   * missing entry gives a new empty dictionary that is placed in the page.
   */
  function ResourcesOf(s: PageState): (r: Result<(map<string, PdfObject>, Site), PatchError>)
    ensures r.Ok? && r.value.1.Indirect? ==>
      r.value.1.id in s.objects && s.objects[r.value.1.id] == Dict(r.value.0)
  {
    match Get(s.entries, "/Resources")
    case None => Ok((map[], Direct))
    case Some(Ref(k)) =>
      (match Resolve(s.objects, k)
       case Some(Dict(res)) => Ok((res, Indirect(k)))
       case _ => Err(Malformed))
    case Some(Dict(res)) => Ok((res, Direct))
    case Some(_) => Err(Malformed)
  }

  /**
   * The font dictionary inside the resources dictionary `res`, and where it
   * lives. A missing entry gives a new empty dictionary.
   */
  function FontsOf(res: map<string, PdfObject>, objects: Table): (r: Result<(map<string, PdfObject>, Site), PatchError>)
    ensures r.Ok? && r.value.1.Indirect? ==>
      r.value.1.id in objects && objects[r.value.1.id] == Dict(r.value.0)
  {
    match Get(res, "/Font")
    case None => Ok((map[], Direct))
    case Some(Ref(j)) =>
      (match Resolve(objects, j)
       case Some(Dict(fonts)) => Ok((fonts, Indirect(j)))
       case _ => Err(Malformed))
    case Some(Dict(fonts)) => Ok((fonts, Direct))
    case Some(_) => Err(Malformed)
  }

  /** The font dictionary the page uses (empty when it has none yet). */
  function PageFonts(s: PageState): Result<map<string, PdfObject>, PatchError> {
    match ResourcesOf(s)
    case Err(e) => Err(e)
    case Ok((res, _)) =>
      match FontsOf(res, s.objects)
      case Err(e) => Err(e)
      case Ok((fonts, _)) => Ok(fonts)
  }

  /** The object numbers of the resources and font dictionaries, when they are indirect. */
  function FontSites(s: PageState): (sites: set<nat>)
    ensures forall id :: id in sites ==> id in s.objects && s.objects[id].Dict?
  {
    match ResourcesOf(s)
    case Err(_) => {}
    case Ok((res, resSite)) =>
      (if resSite.Indirect? then {resSite.id} else {})
      + match FontsOf(res, s.objects)
        case Ok((_, Indirect(j))) => {j}
        case _ => {}
  }

  /** Puts the resources dictionary `res` back where it lives. */
  function StoreAt(s: PageState, site: Site, res: map<string, PdfObject>): PageState {
    match site
    case Direct => s.(entries := s.entries["/Resources" := Dict(res)])
    case Indirect(k) => s.(objects := s.objects[k := Dict(res)])
  }

  /** The font dictionary after the call: `name` bound, an existing binding kept. */
  function Ensured(fonts: map<string, PdfObject>, name: string, id: nat): map<string, PdfObject> {
    if name in fonts then fonts else fonts[name := Ref(id)]
  }

  /** The state `WithFont` computes once the resources and fonts are found. */
  function Ensuring(s: PageState, name: string, res: map<string, PdfObject>, resSite: Site,
                    fonts: map<string, PdfObject>, fontSite: Site): PageState
  {
    var present := name in fonts;
    var fonts' := Ensured(fonts, name, s.nextId);
    var objects := if present then s.objects else s.objects[s.nextId := HelveticaFont];
    var objects' := if fontSite.Indirect? then objects[fontSite.id := Dict(fonts')] else objects;
    StoreAt(PageState(s.entries, objects', if present then s.nextId else s.nextId + 1),
            resSite, res["/Font" := Dict(fonts')])
  }

  /**
   * Once the resources and fonts are found, the new state is valid, its font
   * dictionary binds `name`, and a new font object is added exactly when the
   * name was not bound.
   */
  lemma EnsuringFonts(s: PageState, name: string, res: map<string, PdfObject>, resSite: Site,
                      fonts: map<string, PdfObject>, fontSite: Site)
    requires ValidState(s) && ResourcesOf(s) == Ok((res, resSite)) && FontsOf(res, s.objects) == Ok((fonts, fontSite))
    ensures var r := Ensuring(s, name, res, resSite, fonts, fontSite);
      var added := name !in fonts;
      && ValidState(r)
      && PageFonts(r) == Ok(Ensured(fonts, name, s.nextId))
      && r.nextId == (if added then s.nextId + 1 else s.nextId)
      && r.objects.Keys == s.objects.Keys + (if added then {s.nextId} else {})
      && (added ==> r.objects[s.nextId] == HelveticaFont)
      && ResourcesOf(r) == Ok((res["/Font" := Dict(Ensured(fonts, name, s.nextId))], resSite))
  {
    var fonts' := Ensured(fonts, name, s.nextId);
    var res' := res["/Font" := Dict(fonts')];
    var r := Ensuring(s, name, res, resSite, fonts, fontSite);
    assert FontsOf(res', r.objects) == Ok((fonts', Direct));
    assert ResourcesOf(r) == Ok((res', resSite)) by {
      if resSite.Indirect? {
        assert Get(r.entries, "/Resources") == Get(s.entries, "/Resources");
      }
    }
  }

  /**
   * Once the resources and fonts are found, the page changes only in
   * `/Resources`, and the table only at the resources and font dictionaries,
   * which stay dictionaries, and at the new object. An indirect font
   * dictionary, unless it is the resources dictionary itself, becomes the
   * ensured one.
   */
  lemma EnsuringFrame(s: PageState, name: string, res: map<string, PdfObject>, resSite: Site,
                      fonts: map<string, PdfObject>, fontSite: Site)
    requires ValidState(s) && ResourcesOf(s) == Ok((res, resSite)) && FontsOf(res, s.objects) == Ok((fonts, fontSite))
    ensures var r := Ensuring(s, name, res, resSite, fonts, fontSite);
      && "/Resources" in r.entries
      && r.entries.Keys == s.entries.Keys + {"/Resources"}
      && (forall key :: key in s.entries && key != "/Resources" ==> r.entries[key] == s.entries[key])
      && (forall id :: id in s.objects && id !in FontSites(s) ==> r.objects[id] == s.objects[id])
      && (forall id :: id in FontSites(s) ==> r.objects[id].Dict?)
      && (fontSite.Indirect? && fontSite != resSite ==> r.objects[fontSite.id] == Dict(Ensured(fonts, name, s.nextId)))
  {
    assert FontSites(s) == (if resSite.Indirect? then {resSite.id} else {}) + (if fontSite.Indirect? then {fontSite.id} else {});
  }

  /**
   * The page and table after `ensure_font(page, writer, name)`. Python's
   * dictionaries are shared: a font dictionary reached through a reference is
   * also stored directly in the resources dictionary, and an added entry shows
   * wherever that dictionary is held.
   *
   * The contract: the call fails exactly when the page's resources or fonts are
   * not dictionaries; afterwards the page's font dictionary binds `name`, to
   * what it was bound to before if it was, otherwise to a new Helvetica font
   * object; the resources dictionary keeps every entry but `/Font`, which
   * becomes that font dictionary; the page changes only in `/Resources`, and
   * the table only at the resources and font dictionaries and at the new
   * object.
   */
  function WithFont(s: PageState, name: string): (r: Result<PageState, PatchError>)
    requires ValidState(s)
    ensures r.Ok? <==> PageFonts(s).Ok?
    ensures r.Err? ==> r.error == Malformed
    ensures r.Ok? ==> ValidState(r.value)
    ensures r.Ok? ==> PageFonts(r.value) == Ok(Ensured(PageFonts(s).value, name, s.nextId))
    ensures r.Ok? ==> var added := name !in PageFonts(s).value;
      && r.value.nextId == (if added then s.nextId + 1 else s.nextId)
      && r.value.objects.Keys == s.objects.Keys + (if added then {s.nextId} else {})
      && (added ==> r.value.objects[s.nextId] == HelveticaFont)
    ensures r.Ok? ==>
      && "/Resources" in r.value.entries
      && r.value.entries.Keys == s.entries.Keys + {"/Resources"}
      && (forall key :: key in s.entries && key != "/Resources" ==> r.value.entries[key] == s.entries[key])
      && (forall id :: id in s.objects && id !in FontSites(s) ==> r.value.objects[id] == s.objects[id])
      && (forall id :: id in FontSites(s) ==> r.value.objects[id].Dict?)
    ensures r.Ok? ==>
      var (res, resSite) := ResourcesOf(s).value;
      var fontSite := FontsOf(res, s.objects).value.1;
      var fonts' := Ensured(PageFonts(s).value, name, s.nextId);
      && ResourcesOf(r.value) == Ok((res["/Font" := Dict(fonts')], resSite))
      && (fontSite.Indirect? && fontSite != resSite ==> r.value.objects[fontSite.id] == Dict(fonts'))
  {
    match ResourcesOf(s)
    case Err(e) => Err(e)
    case Ok((res, resSite)) =>
      match FontsOf(res, s.objects)
      case Err(e) => Err(e)
      case Ok((fonts, fontSite)) =>
        EnsuringFonts(s, name, res, resSite, fonts, fontSite);
        EnsuringFrame(s, name, res, resSite, fonts, fontSite);
        Ok(Ensuring(s, name, res, resSite, fonts, fontSite))
  }

  /** Calling `ensure_font` twice with the same name changes nothing the second time. */
  lemma WithFontIdempotent(s: PageState, name: string)
    requires ValidState(s) && WithFont(s, name).Ok?
    ensures WithFont(WithFont(s, name).value, name) == WithFont(s, name)
  {
    var (res, resSite) := ResourcesOf(s).value;
    var (fonts, fontSite) := FontsOf(res, s.objects).value;
    var fonts' := Ensured(fonts, name, s.nextId);
    var res' := res["/Font" := Dict(fonts')];
    var r := WithFont(s, name).value;
    assert ResourcesOf(r) == Ok((res', resSite));
    assert FontsOf(res', r.objects) == Ok((fonts', Direct));
    assert res'["/Font" := Dict(fonts')] == res';
    match resSite
    case Direct => assert r.entries["/Resources" := Dict(res')] == r.entries;
    case Indirect(k) => assert r.objects[k := Dict(res')] == r.objects;
  }

  /** The state as the page and writer hold it. */
  function StateOf(page: PdfPage, writer: PdfWriter): PageState
    reads page, writer
  {
    PageState(page.entries, writer.objects, writer.nextId)
  }

  /** Writes the resources dictionary `res` back to the page or to the table. */
  method StoreResources(page: PdfPage, writer: PdfWriter, site: Site, res: map<string, PdfObject>)
    modifies page, writer
    ensures StateOf(page, writer) == StoreAt(old(StateOf(page, writer)), site, res)
    ensures writer.pages == old(writer.pages)
  {
    match site
    case Direct => page.entries := page.entries["/Resources" := Dict(res)];
    case Indirect(k) => writer.objects := writer.objects[k := Dict(res)];
  }

  lemma WithFontEnsuring(s: PageState, name: string)
    requires ValidState(s) && ResourcesOf(s).Ok?
    requires FontsOf(ResourcesOf(s).value.0, s.objects).Ok?
    ensures var (res, resSite) := ResourcesOf(s).value;
      var (fonts, fontSite) := FontsOf(res, s.objects).value;
      WithFont(s, name) == Ok(Ensuring(s, name, res, resSite, fonts, fontSite))
  {
  }

  /** The first half of `ensure_font`: find the resources dictionary, adding an empty one. */
  method OpenResources(page: PdfPage, writer: PdfWriter) returns (r: Result<(map<string, PdfObject>, Site), PatchError>)
    modifies page
    ensures r == ResourcesOf(old(StateOf(page, writer)))
    ensures r.Ok? ==> StateOf(page, writer) == StoreAt(old(StateOf(page, writer)), r.value.1, r.value.0)
  {
    match Get(page.entries, "/Resources") {
      case None =>
        r := Ok((map[], Direct));
        page.entries := page.entries["/Resources" := Dict(map[])];
      case Some(Ref(k)) =>
        match Resolve(writer.objects, k) {
          case Some(Dict(d)) =>
            r := Ok((d, Indirect(k)));
            assert writer.objects[k := Dict(d)] == writer.objects;
          case _ => r := Err(Malformed);
        }
      case Some(Dict(d)) =>
        r := Ok((d, Direct));
        assert page.entries["/Resources" := Dict(d)] == page.entries;
      case Some(_) => r := Err(Malformed);
    }
  }

  /**
   * The second half of finding: the font dictionary in `res`, which is held at
   * `site`. A missing or indirect font dictionary is replaced by a direct one.
   */
  method OpenFonts(page: PdfPage, writer: PdfWriter, res: map<string, PdfObject>, site: Site)
    returns (r: Result<(map<string, PdfObject>, Site), PatchError>)
    requires StoreAt(StateOf(page, writer), site, res) == StateOf(page, writer)
    modifies page, writer
    ensures r == FontsOf(res, old(writer.objects))
    ensures r.Ok? ==> StateOf(page, writer) == StoreAt(old(StateOf(page, writer)), site, res["/Font" := Dict(r.value.0)])
    ensures r.Err? ==> StateOf(page, writer) == old(StateOf(page, writer))
    ensures writer.pages == old(writer.pages)
  {
    match Get(res, "/Font") {
      case None =>
        r := Ok((map[], Direct));
        StoreResources(page, writer, site, res["/Font" := Dict(map[])]);
      case Some(Ref(j)) =>
        match Resolve(writer.objects, j) {
          case Some(Dict(d)) =>
            r := Ok((d, Indirect(j)));
            StoreResources(page, writer, site, res["/Font" := Dict(d)]);
          case _ => r := Err(Malformed);
        }
      case Some(Dict(d)) =>
        r := Ok((d, Direct));
        assert res["/Font" := Dict(d)] == res;
      case Some(_) => r := Err(Malformed);
    }
  }

  /** When the name is already bound, `WithFont` only makes the font dictionary direct. */
  lemma EnsuringPresent(s: PageState, name: string, res: map<string, PdfObject>, resSite: Site,
                        fonts: map<string, PdfObject>, fontSite: Site)
    requires name in fonts
    requires fontSite.Indirect? ==> fontSite.id in s.objects && s.objects[fontSite.id] == Dict(fonts)
    ensures Ensuring(s, name, res, resSite, fonts, fontSite) == StoreAt(s, resSite, res["/Font" := Dict(fonts)])
  {
    if fontSite.Indirect? {
      assert s.objects[fontSite.id := Dict(fonts)] == s.objects;
    }
  }

  /** A second store to the same site overrides the first. */
  lemma StoreTwice(s: PageState, site: Site, first: map<string, PdfObject>, second: map<string, PdfObject>)
    ensures StoreAt(StoreAt(s, site, first), site, second) == StoreAt(s, site, second)
    ensures StoreAt(StoreAt(s, site, first), site, first) == StoreAt(s, site, first)
  {
    match site {
      case Direct =>
        assert s.entries["/Resources" := Dict(first)]["/Resources" := Dict(second)]
            == s.entries["/Resources" := Dict(second)];
        assert s.entries["/Resources" := Dict(first)]["/Resources" := Dict(first)]
            == s.entries["/Resources" := Dict(first)];
      case Indirect(k) =>
        assert s.objects[k := Dict(first)][k := Dict(second)] == s.objects[k := Dict(second)];
        assert s.objects[k := Dict(first)][k := Dict(first)] == s.objects[k := Dict(first)];
    }
  }

  /** Storing the resources before adding the font is overwritten by the final store. */
  lemma EnsuringAfterStore(s: PageState, name: string, res: map<string, PdfObject>, resSite: Site,
                           fonts: map<string, PdfObject>, fontSite: Site, stored: map<string, PdfObject>)
    ensures Ensuring(StoreAt(s, resSite, stored), name, res, resSite, fonts, fontSite)
         == Ensuring(s, name, res, resSite, fonts, fontSite)
  {
    var fonts' := Ensured(fonts, name, s.nextId);
    var res' := res["/Font" := Dict(fonts')];
    match resSite {
      case Direct =>
        assert s.entries["/Resources" := Dict(stored)]["/Resources" := Dict(res')]
            == s.entries["/Resources" := Dict(res')];
      case Indirect(k) =>
    }
  }

  /** Adds the Helvetica font under `name` and stores the font and resources dictionaries. */
  method AddFont(page: PdfPage, writer: PdfWriter, name: string, res: map<string, PdfObject>, resSite: Site,
                 fonts: map<string, PdfObject>, fontSite: Site)
    requires writer.Valid() && name !in fonts
    requires fontSite.Indirect? ==> fontSite.id in writer.objects
    requires resSite.Indirect? ==> resSite.id in writer.objects
    modifies page, writer
    ensures StateOf(page, writer) == Ensuring(old(StateOf(page, writer)), name, res, resSite, fonts, fontSite)
    ensures writer.Valid() && writer.pages == old(writer.pages)
  {
    var ref := writer.AddObject(HelveticaFont);
    var fonts' := fonts[name := ref];
    if fontSite.Indirect? {
      writer.objects := writer.objects[fontSite.id := Dict(fonts')];
    }
    StoreResources(page, writer, resSite, res["/Font" := Dict(fonts')]);
  }

  /**
   * `ensure_font(page, writer, name)`, step by step as the source mutates the
   * page, its resources and font dictionaries, and the writer. On success the
   * page and writer are as `WithFont` describes; on failure (an exception in the
   * source) only the failure is specified.
   */
  method EnsureFont(page: PdfPage, writer: PdfWriter, name: string) returns (r: Outcome<PatchError>)
    requires writer.Valid()
    modifies page, writer
    ensures var w := WithFont(old(StateOf(page, writer)), name);
      && (r.Pass? <==> w.Ok?)
      && (w.Ok? ==> StateOf(page, writer) == w.value)
      && (w.Err? ==> r == Fail(w.error))
    ensures writer.Valid() && writer.pages == old(writer.pages)
  {
    ghost var s := StateOf(page, writer);
    var found := OpenResources(page, writer);
    if found.Err? {
      return Fail(found.error);
    }
    var (res, resSite) := found.value;
    StoreTwice(s, resSite, res, res);
    var fontsFound := OpenFonts(page, writer, res, resSite);
    if fontsFound.Err? {
      return Fail(fontsFound.error);
    }
    var (fonts, fontSite) := fontsFound.value;
    ghost var stored := res["/Font" := Dict(fonts)];
    StoreTwice(s, resSite, res, stored);
    assert StateOf(page, writer) == StoreAt(s, resSite, stored);
    WithFontEnsuring(s, name);
    if name in fonts {
      EnsuringPresent(s, name, res, resSite, fonts, fontSite);
      return Pass;
    }
    AddFont(page, writer, name, res, resSite, fonts, fontSite);
    EnsuringAfterStore(s, name, res, resSite, fonts, fontSite, stored);
    return Pass;
  }
}
