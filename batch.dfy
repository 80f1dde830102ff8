/**
 * `generate_pdfs` (app.py): one output document per credential row, each a
 * copy of the template in which the chosen page shows that row's login and
 * password.
 *
 * Documents are kept as their page dictionaries and object table; reading the
 * template bytes and writing each output as bytes are not part of this model.
 */
module Batch {
  import opened Results
  import opened PdfObjects
  import opened Fonts
  import opened Placeholder
  import opened ContentPatch
  import opened Credentials

  /** A PDF document: its pages in order, its object table and next free object number. */
  datatype Document = Document(pages: seq<map<string, PdfObject>>, objects: Table, nextId: nat)

  predicate ValidDocument(d: Document) {
    forall id :: id in d.objects ==> id < d.nextId
  }

  /** The ways `generate_pdfs` fails. */
  datatype GenerateError =
    | PageOutOfRange(pageIndex: int, pageCount: nat)   // `IndexError` for a page the template lacks
    | PatchFailed(error: PatchError)                   // `update_page_text` raised for some row

  /** The page `pageIndex` of the template, as the patcher sees it. */
  function PageOf(template: Document, pageIndex: nat): PageState
    requires pageIndex < |template.pages|
  {
    PageState(template.pages[pageIndex], template.objects, template.nextId)
  }

  /**
   * The document written for `row`: the template itself when credentials are
   * kept, otherwise the template with page `pageIndex` patched, in which only
   * that page and the objects holding its resources and fonts differ from the
   * template's.
   */
  function Personalised(template: Document, pageIndex: nat, keepCredentials: bool, row: CredentialRow)
    : (r: Result<Document, PatchError>)
    requires ValidDocument(template) && pageIndex < |template.pages|
    ensures keepCredentials ==> r == Ok(template)
    ensures !keepCredentials ==> (r.Ok? <==> PatchedPage(PageOf(template, pageIndex), row.login, row.password).Ok?)
    ensures r.Ok? ==> ValidDocument(r.value) && |r.value.pages| == |template.pages|
    ensures r.Ok? ==> forall i :: 0 <= i < |template.pages| && i != pageIndex ==> r.value.pages[i] == template.pages[i]
    ensures r.Ok? ==> forall id :: id in template.objects && (keepCredentials || id !in FontSites(PageOf(template, pageIndex))) ==>
      id in r.value.objects && r.value.objects[id] == template.objects[id]
  {
    if keepCredentials then Ok(template)
    else
      match PatchedPage(PageOf(template, pageIndex), row.login, row.password)
      case Err(e) => Err(e)
      case Ok(t) =>
        PatchedPageFrame(PageOf(template, pageIndex), row.login, row.password);
        Ok(Document(template.pages[pageIndex := t.entries], t.objects, t.nextId))
  }

  /** The personalised page of a document, read back: its content is the template's with the block replaced. */
  lemma PersonalisedContent(template: Document, pageIndex: nat, row: CredentialRow)
    requires ValidDocument(template) && pageIndex < |template.pages|
    requires Personalised(template, pageIndex, false, row).Ok?
    ensures var d := Personalised(template, pageIndex, false, row).value;
      var page := PageState(d.pages[pageIndex], d.objects, d.nextId);
      var before := PageContent(PageOf(template, pageIndex));
      && before.Some?
      && PageContent(page) == Some(Subn(before.value, ReplacementText(row.login, row.password)).0)
      && PageFonts(page).Ok? && FontName in PageFonts(page).value
  {
    PatchedPageOk(PageOf(template, pageIndex), row.login, row.password);
  }

  /**
   * The step of `generate_pdfs` that patches the copy of page `pageIndex`, with
   * the writer still holding only the template's objects: on success the page
   * and the writer's objects are those of the personalised document.
   */
  method PatchCopy(template: Document, pageIndex: nat, row: CredentialRow, page: PdfPage, writer: PdfWriter)
    returns (outcome: Outcome<PatchError>)
    requires ValidDocument(template) && pageIndex < |template.pages|
    requires writer.Valid() && page.entries == template.pages[pageIndex]
    requires writer.objects == template.objects && writer.nextId == template.nextId
    modifies page, writer
    ensures writer.Valid() && writer.pages == old(writer.pages)
    ensures outcome.Fail? ==> Personalised(template, pageIndex, false, row) == Err(outcome.error)
    ensures outcome.Pass? ==>
      Personalised(template, pageIndex, false, row) == Ok(Document(template.pages[pageIndex := page.entries], writer.objects, writer.nextId))
  {
    outcome := UpdatePageText(page, writer, row.login, row.password);
  }

  /**
   * The writer holds the first `idx` pages of `out` and all of its objects,
   * where `out` is the template until page `pageIndex` is copied and
   * afterwards the document `goal` promises, when credentials are not kept.
   */
  ghost predicate Copied(template: Document, pageIndex: nat, keepCredentials: bool, goal: Result<Document, PatchError>,
                         writer: PdfWriter, idx: nat, out: Document)
    reads writer
  {
    && idx <= |template.pages|
    && writer.Valid()
    && |out.pages| == |template.pages| && out.pages[idx..] == template.pages[idx..]
    && writer.pages == out.pages[..idx] && writer.objects == out.objects && writer.nextId == out.nextId
    && (keepCredentials || idx <= pageIndex ==> out == template)
    && (!keepCredentials && idx > pageIndex ==> goal == Ok(out))
  }

  /** Copies page `idx` of the template unchanged into the writer. */
  method KeepPage(template: Document, pageIndex: nat, keepCredentials: bool, ghost goal: Result<Document, PatchError>,
                  writer: PdfWriter, idx: nat, ghost out: Document)
    requires idx < |template.pages| && Copied(template, pageIndex, keepCredentials, goal, writer, idx, out)
    requires keepCredentials || idx != pageIndex
    modifies writer
    ensures Copied(template, pageIndex, keepCredentials, goal, writer, idx + 1, out)
  {
    assert out.pages[idx] == template.pages[idx];
    assert out.pages[..idx + 1] == out.pages[..idx] + [template.pages[idx]];
    writer.AddPage(template.pages[idx]);
  }

  /** Copies page `pageIndex` of the template into the writer with the row's credentials written in. */
  method PatchPage(template: Document, pageIndex: nat, row: CredentialRow, writer: PdfWriter, ghost out: Document)
    returns (outcome: Outcome<PatchError>, ghost next: Document)
    requires ValidDocument(template) && pageIndex < |template.pages|
    requires Copied(template, pageIndex, false, Personalised(template, pageIndex, false, row), writer, pageIndex, out)
    modifies writer
    ensures outcome.Fail? ==> Personalised(template, pageIndex, false, row) == Err(outcome.error)
    ensures outcome.Pass? ==>
      Copied(template, pageIndex, false, Personalised(template, pageIndex, false, row), writer, pageIndex + 1, next)
  {
    var page := new PdfPage(template.pages[pageIndex]);
    outcome := PatchCopy(template, pageIndex, row, page, writer);
    next := Document(template.pages[pageIndex := page.entries], writer.objects, writer.nextId);
    if outcome.Pass? {
      assert next.pages[pageIndex + 1..] == template.pages[pageIndex + 1..];
      assert next.pages[..pageIndex + 1] == next.pages[..pageIndex] + [page.entries];
      writer.AddPage(page.entries);
    }
  }

  /**
   * One turn of the page loop of `generate_pdfs`: copies page `idx`, patched
   * when it is page `pageIndex` and credentials are not kept, into the writer.
   */
  method CopyPage(template: Document, pageIndex: nat, keepCredentials: bool, row: CredentialRow,
                  writer: PdfWriter, idx: nat, ghost out: Document)
    returns (outcome: Outcome<PatchError>, ghost next: Document)
    requires ValidDocument(template) && pageIndex < |template.pages|
    requires idx < |template.pages|
    requires Copied(template, pageIndex, keepCredentials, Personalised(template, pageIndex, false, row), writer, idx, out)
    modifies writer
    ensures outcome.Fail? ==> !keepCredentials && Personalised(template, pageIndex, false, row) == Err(outcome.error)
    ensures outcome.Pass? ==>
      Copied(template, pageIndex, keepCredentials, Personalised(template, pageIndex, false, row), writer, idx + 1, next)
  {
    if idx == pageIndex && !keepCredentials {
      outcome, next := PatchPage(template, pageIndex, row, writer, out);
    } else {
      KeepPage(template, pageIndex, keepCredentials, Personalised(template, pageIndex, false, row), writer, idx, out);
      outcome, next := Pass, out;
    }
  }

  /**
   * Writes one output document: copies every template page into a new writer,
   * patching page `pageIndex` unless credentials are kept.
   */
  method WriteDocument(template: Document, pageIndex: nat, keepCredentials: bool, row: CredentialRow)
    returns (r: Result<Document, PatchError>)
    requires ValidDocument(template) && pageIndex < |template.pages|
    ensures r == Personalised(template, pageIndex, keepCredentials, row)
  {
    ghost var goal := Personalised(template, pageIndex, false, row);
    var writer := new PdfWriter(template.objects, template.nextId);
    ghost var out := template;
    var idx := 0;
    while idx < |template.pages|
      invariant Copied(template, pageIndex, keepCredentials, goal, writer, idx, out)
    {
      var outcome;
      outcome, out := CopyPage(template, pageIndex, keepCredentials, row, writer, idx, out);
      if outcome.Fail? {
        return Err(outcome.error);
      }
      idx := idx + 1;
    }
    assert out.pages[..idx] == out.pages;
    return Ok(Document(writer.pages, writer.objects, writer.nextId));
  }

  /**
   * Results gathered in order by a loop that stops at the first error: the
   * values of all of them, or the first error.
   */
  function Collect<T, E>(results: seq<Result<T, E>>): Result<seq<T>, E>
    decreases |results|
  {
    if results == [] then Ok([])
    else
      match Collect(results[..|results| - 1])
      case Err(e) => Err(e)
      case Ok(values) =>
        match results[|results| - 1]
        case Err(e) => Err(e)
        case Ok(v) => Ok(values + [v])
  }

  /** Gathering succeeds exactly when every result does, and keeps every value in order. */
  lemma {:induction false} CollectOk<T, E>(results: seq<Result<T, E>>)
    ensures Collect(results).Ok? <==> forall i :: 0 <= i < |results| ==> results[i].Ok?
    ensures Collect(results).Ok? ==>
      && |Collect(results).value| == |results|
      && forall i :: 0 <= i < |results| ==> Collect(results).value[i] == results[i].value
    decreases |results|
  {
    if results != [] {
      var init := results[..|results| - 1];
      CollectOk(init);
      assert forall i :: 0 <= i < |init| ==> results[i] == init[i];
    }
  }

  /** A failed gathering fails with the error of the first failing result. */
  lemma {:induction false} CollectFirstError<T, E>(results: seq<Result<T, E>>)
    requires Collect(results).Err?
    ensures exists k ::
      && 0 <= k < |results|
      && results[k] == Err(Collect(results).error)
      && forall j :: 0 <= j < k ==> results[j].Ok?
    decreases |results|
  {
    var init := results[..|results| - 1];
    assert forall i :: 0 <= i < |init| ==> results[i] == init[i];
    if Collect(init).Err? {
      CollectFirstError(init);
      var k :| 0 <= k < |init| && init[k] == Err(Collect(init).error) && forall j :: 0 <= j < k ==> init[j].Ok?;
      assert results[k] == init[k];
    } else {
      CollectOk(init);
      assert results[|results| - 1] == Err(Collect(results).error);
    }
  }

  /** Gathering one more result: the error found so far, or this result added. */
  lemma CollectNext<T, E>(results: seq<Result<T, E>>, i: nat)
    requires i < |results|
    ensures Collect(results[..i + 1]) ==
      match Collect(results[..i])
      case Err(e) => Err(e)
      case Ok(values) =>
        match results[i]
        case Err(e) => Err(e)
        case Ok(v) => Ok(values + [v])
  {
    assert results[..i + 1][..i] == results[..i];
  }

  /** Once a prefix fails, the whole gathering fails with the same error. */
  lemma {:induction false} CollectPrefixError<T, E>(results: seq<Result<T, E>>, n: nat)
    requires n <= |results| && Collect(results[..n]).Err?
    ensures Collect(results) == Collect(results[..n])
    decreases |results|
  {
    if n < |results| {
      var init := results[..|results| - 1];
      assert init[..n] == results[..n];
      CollectPrefixError(init, n);
    } else {
      assert results[..n] == results;
    }
  }

  /** The entry `generate_pdfs` appends for one row: its output name and its document. */
  function Output(template: Document, pageIndex: nat, keepCredentials: bool, row: CredentialRow)
    : (r: Result<(string, Document), PatchError>)
    requires ValidDocument(template) && pageIndex < |template.pages|
  {
    match Personalised(template, pageIndex, keepCredentials, row)
    case Err(e) => Err(e)
    case Ok(d) => Ok((row.outputName, d))
  }

  /** The entries of all rows, each computed on its own. */
  function Outputs(template: Document, pageIndex: nat, keepCredentials: bool, rows: seq<CredentialRow>)
    : (r: seq<Result<(string, Document), PatchError>>)
    requires ValidDocument(template) && pageIndex < |template.pages|
    ensures |r| == |rows|
  {
    seq(|rows|, i requires 0 <= i < |rows| => Output(template, pageIndex, keepCredentials, rows[i]))
  }

  /** The entry appended for one row: its output name and the document written for it. */
  method WriteOutput(template: Document, pageIndex: nat, keepCredentials: bool, row: CredentialRow)
    returns (entry: Result<(string, Document), PatchError>)
    requires ValidDocument(template) && pageIndex < |template.pages|
    ensures entry == Output(template, pageIndex, keepCredentials, row)
  {
    var doc := WriteDocument(template, pageIndex, keepCredentials, row);
    if doc.Err? {
      return Err(doc.error);
    }
    return Ok((row.outputName, doc.value));
  }

  /**
   * `generate_pdfs`: rejects a page index outside the template, then writes one
   * document per row, in order, named by the row's output name; the first row
   * whose page cannot be patched makes the whole batch fail with its error.
   */
  method GeneratePdfs(template: Document, rows: seq<CredentialRow>, pageIndex: int, keepCredentials: bool)
    returns (r: Result<seq<(string, Document)>, GenerateError>)
    requires ValidDocument(template)
    ensures !(0 <= pageIndex < |template.pages|) <==> r == Err(PageOutOfRange(pageIndex, |template.pages|))
    ensures 0 <= pageIndex < |template.pages| ==>
      match Collect(Outputs(template, pageIndex, keepCredentials, rows))
      case Ok(outputs) => r == Ok(outputs)
      case Err(e) => r == Err(PatchFailed(e))
  {
    if pageIndex < 0 || pageIndex >= |template.pages| {
      return Err(PageOutOfRange(pageIndex, |template.pages|));
    }
    ghost var all := Outputs(template, pageIndex, keepCredentials, rows);
    var outputs: seq<(string, Document)> := [];
    var i := 0;
    while i < |rows|
      invariant 0 <= i <= |rows|
      invariant Collect(all[..i]) == Ok(outputs)
    {
      var entry := WriteOutput(template, pageIndex, keepCredentials, rows[i]);
      assert all[i] == entry;
      CollectNext(all, i);
      if entry.Err? {
        CollectPrefixError(all, i + 1);
        return Err(PatchFailed(entry.error));
      }
      outputs := outputs + [entry.value];
      i := i + 1;
    }
    assert all[..i] == all;
    return Ok(outputs);
  }

  /** The entry for row `i` is that row's output name and the document written for it. */
  lemma OutputAt(template: Document, pageIndex: nat, keepCredentials: bool, rows: seq<CredentialRow>, i: nat)
    requires ValidDocument(template) && pageIndex < |template.pages| && i < |rows|
    ensures var e := Outputs(template, pageIndex, keepCredentials, rows)[i];
      var d := Personalised(template, pageIndex, keepCredentials, rows[i]);
      && (e.Ok? <==> d.Ok?)
      && (e.Ok? ==> e.value == (rows[i].outputName, d.value))
      && (e.Err? ==> e.error == d.error)
  {
  }

  /**
   * What a batch yields: when no row fails, one entry per row, in order, named
   * by the row's output name and holding the document written for it; when
   * some row fails, the error is that of the first failing row.
   */
  lemma GeneratedDocuments(template: Document, pageIndex: nat, keepCredentials: bool, rows: seq<CredentialRow>)
    requires ValidDocument(template) && pageIndex < |template.pages|
    ensures var c := Collect(Outputs(template, pageIndex, keepCredentials, rows));
      && (c.Ok? <==> forall i :: 0 <= i < |rows| ==> Personalised(template, pageIndex, keepCredentials, rows[i]).Ok?)
      && (c.Ok? ==> |c.value| == |rows| && forall i :: 0 <= i < |rows| ==>
            c.value[i] == (rows[i].outputName, Personalised(template, pageIndex, keepCredentials, rows[i]).value))
      && (c.Err? ==> exists k ::
            && 0 <= k < |rows|
            && Personalised(template, pageIndex, keepCredentials, rows[k]) == Err(c.error)
            && forall j :: 0 <= j < k ==> Personalised(template, pageIndex, keepCredentials, rows[j]).Ok?)
  {
    var all := Outputs(template, pageIndex, keepCredentials, rows);
    forall i | 0 <= i < |rows|
      ensures all[i].Ok? <==> Personalised(template, pageIndex, keepCredentials, rows[i]).Ok?
      ensures all[i].Ok? ==> all[i].value == (rows[i].outputName, Personalised(template, pageIndex, keepCredentials, rows[i]).value)
      ensures all[i].Err? ==> all[i].error == Personalised(template, pageIndex, keepCredentials, rows[i]).error
    {
      OutputAt(template, pageIndex, keepCredentials, rows, i);
    }
    CollectOk(all);
    if Collect(all).Err? {
      CollectFirstError(all);
    }
  }
}
