/**
 * The application shell around the converter: the conversion status, the
 * converted document, the error and save notices, and what a download
 * hands to the platform (a `.doc` file holding the document in a fixed
 * Word-HTML page).
 */
module App {
  import opened Optional
  import opened Strings
  import opened GeminiService

  /** Where the page is in the convert-and-review cycle. `Uploading` is declared but never set. */
  datatype ProcessingStatus = Idle | Uploading | Processing | Complete | Error

  /** A converted document: the HTML body and the name it is saved under (without extension). */
  datatype ConvertedDocument = ConvertedDocument(htmlContent: string, fileName: string)

  /**
   * What a download hands to the platform: a file written to the Documents
   * folder of a phone, or a blob the browser downloads.
   */
  datatype Delivery =
    | NativeFile(path: string, data: string)
    | WebDownload(fileName: string, mimeType: string, data: string)

  const OfflineMessage: string := "لا يوجد اتصال بالإنترنت."
  const UnexpectedErrorMessage: string := "حدث خطأ غير متوقع."
  const SavedPrefix: string := "تم الحفظ في المستندات: "
  const PdfExtension: string := ".pdf"
  const DocExtension: string := ".doc"
  const WordMimeType: string := "application/msword"
  /** The byte-order mark the web download starts with, so that Word reads the file as UTF-8. */
  const Bom: char := '\U{FEFF}'

  // The Word-HTML page, cut at the two places where the document is
  // inserted: after `<title>` and inside the `Section1` division.
  const ShellOpen: string :=
    "\n"
    + "      <html xmlns:o='urn:schemas-microsoft-com:office:office' \n"
    + "            xmlns:w='urn:schemas-microsoft-com:office:word' \n"
    + "            xmlns='http://www.w3.org/TR/REC-html40'\n"
    + "            dir=\"rtl\">\n"
    + "      <head>\n"
    + "        <meta charset=\"utf-8\">\n"
    + "        <title>"
  const ShellHead: string :=
    "</title>\n"
    + "        <style>\n"
    + "          @page { size: 21cm 29.7cm; margin: 2.54cm; mso-page-orientation: portrait; }\n"
    + "          body { font-family: 'Times New Roman', Arial, sans-serif; font-size: 12pt; }\n"
    + "          table { border-collapse: collapse; width: 100%; mso-border-alt: solid windowtext .5pt; }\n"
    + "          td, th { border: 1px solid #000; padding: 5pt; }\n"
    + "        </style>\n"
    + "      </head>\n"
    + "      <body>\n"
    + "        "
  const SectionOpen: string := "<div class=\"Section1\">"
  const SectionClose: string := "</div>"
  const ShellClose: string := "\n      </body>\n      </html>\n    "
  /** Everything between the title and the document's HTML. */
  const ShellBeforeBody: string := ShellHead + SectionOpen
  /** Everything after the document's HTML. */
  const ShellAfterBody: string := SectionClose + ShellClose

  /** The page a document is saved as: `title` in the title element, `body` inside the `Section1` division. */
  function WordShell(title: string, body: string): string {
    ShellOpen + title + ShellBeforeBody + body + ShellAfterBody
  }

  /** The text in the title slot of a page whose title is `titleLen` characters long. */
  function TitleSlot(page: string, titleLen: nat): string
    requires |ShellOpen| + titleLen <= |page|
  {
    page[|ShellOpen|..|ShellOpen| + titleLen]
  }

  /** The text between the opening `Section1` tag and the closing part of a page whose title is `titleLen` characters long. */
  function BodySlot(page: string, titleLen: nat): string
    requires |ShellOpen| + titleLen + |ShellBeforeBody| + |ShellAfterBody| <= |page|
  {
    page[|ShellOpen| + titleLen + |ShellBeforeBody|..|page| - |ShellAfterBody|]
  }

  /**
   * The page holds the title in its title slot and the body, verbatim, in
   * its `Section1` division, with the fixed text around them.
   */
  lemma WordShellSlots(title: string, body: string)
    ensures var page := WordShell(title, body);
      var bodyStart := |ShellOpen| + |title| + |ShellBeforeBody|;
      && |page| == bodyStart + |body| + |ShellAfterBody|
      && page[..|ShellOpen|] == ShellOpen
      && TitleSlot(page, |title|) == title
      && page[|ShellOpen| + |title|..bodyStart] == ShellBeforeBody
      && BodySlot(page, |title|) == body
      && page[bodyStart + |body|..] == ShellAfterBody
  {
    FiveSlots(ShellOpen, title, ShellBeforeBody, body, ShellAfterBody);
  }

  /** The text before the body ends with the opening `Section1` tag, the text after it starts with its closing tag. */
  lemma SectionAroundBody()
    ensures ShellBeforeBody[|ShellBeforeBody| - |SectionOpen|..] == SectionOpen
    ensures ShellAfterBody[..|SectionClose|] == SectionClose
  {
    TwoSlots(ShellHead, SectionOpen);
    TwoSlots(SectionClose, ShellClose);
  }

  lemma TwoSlots(a: string, b: string)
    ensures (a + b)[..|a|] == a && (a + b)[|a|..] == b
  {
  }

  /** Slicing a five-part concatenation back into its parts. */
  lemma FiveSlots(a: string, b: string, c: string, d: string, e: string)
    ensures var s := a + b + c + d + e;
      && s[..|a|] == a
      && s[|a|..|a| + |b|] == b
      && s[|a| + |b|..|a| + |b| + |c|] == c
      && s[|a| + |b| + |c|..|s| - |e|] == d
      && s[|a| + |b| + |c| + |d|..] == e
  {
    var s := a + b + c + d + e;
    assert s[..|a|] == a;
    assert s[|a|..|a| + |b|] == b;
    assert s[|a| + |b|..|a| + |b| + |c|] == c;
    assert s[|a| + |b| + |c|..|s| - |e|] == d;
    assert s[|a| + |b| + |c| + |d|..] == e;
  }

  /** Different documents or titles never give the same page. */
  lemma WordShellInjective(t1: string, b1: string, t2: string, b2: string)
    requires |t1| == |t2| && WordShell(t1, b1) == WordShell(t2, b2)
    ensures t1 == t2 && b1 == b2
  {
    WordShellSlots(t1, b1);
    WordShellSlots(t2, b2);
  }

  /** The name a document is saved under, on both platforms. */
  function DocFileName(doc: ConvertedDocument): string {
    doc.fileName + DocExtension
  }

  /**
   * What a download hands over: on a phone the page goes to the Documents
   * folder as it is; in a browser it is a Word-typed blob that starts with
   * the byte-order mark.
   */
  function Export(doc: ConvertedDocument, native: bool): Delivery {
    var page := WordShell(doc.fileName, doc.htmlContent);
    if native then NativeFile(DocFileName(doc), page)
    else WebDownload(DocFileName(doc), WordMimeType, [Bom] + page)
  }

  /** The page of a delivery, without the web path's byte-order mark. */
  function PageOf(d: Delivery): string {
    match d
    case NativeFile(_, data) => data
    case WebDownload(_, _, data) => if data != [] && data[0] == Bom then data[1..] else data
  }

  /**
   * Both platforms save the document under its name plus ".doc", with the
   * name as the page title and the HTML verbatim in the page body; only the
   * web blob starts with the byte-order mark and carries the Word MIME type.
   */
  lemma ExportCarriesDocument(doc: ConvertedDocument, native: bool)
    ensures var d := Export(doc, native);
      var name := if native then d.path else d.fileName;
      var page := PageOf(d);
      && name[..|name| - |DocExtension|] == doc.fileName
      && name[|name| - |DocExtension|..] == DocExtension
      && |ShellOpen| + |doc.fileName| + |ShellBeforeBody| + |ShellAfterBody| <= |page|
      && TitleSlot(page, |doc.fileName|) == doc.fileName
      && BodySlot(page, |doc.fileName|) == doc.htmlContent
      && (d.data[0] == Bom <==> !native)
      && (d.WebDownload? <==> !native)
      && (d.WebDownload? ==> d.mimeType == WordMimeType)
  {
    var page := WordShell(doc.fileName, doc.htmlContent);
    WordShellSlots(doc.fileName, doc.htmlContent);
    assert page[0] == '\n' by {
      assert page[..|ShellOpen|] == ShellOpen;
      assert ShellOpen[0] == '\n';
    }
    if !native {
      assert ([Bom] + page)[1..] == page;
    }
  }

  /**
   * The saved name: the upload's name with its first ".pdf" taken out,
   * wherever it occurs and only in that letter case; a name without ".pdf"
   * is kept as it is.
   */
  function BaseName(name: string): string {
    ReplaceFirst(name, PdfExtension, "")
  }

  /** A name with no ".pdf" before its final ".pdf" loses exactly that extension. */
  lemma {:induction false} BaseNameDropsExtension(stem: string)
    requires !Contains(stem, PdfExtension)
    ensures BaseName(stem + PdfExtension) == stem
  {
    var name := stem + PdfExtension;
    assert OccursAt(name, PdfExtension, |stem|);
    forall j: nat | j < |stem|
      ensures !OccursAt(name, PdfExtension, j)
    {
      if j + |PdfExtension| <= |stem| {
        assert name[j..j + |PdfExtension|] == stem[j..j + |PdfExtension|];
        assert !OccursAt(stem, PdfExtension, j);
      } else {
        assert name[|stem|] == '.';
        assert PdfExtension[|stem| - j] != '.';
        assert name[j..j + |PdfExtension|][|stem| - j] == name[|stem|];
      }
    }
    assert name[..|stem|] == stem;
  }

  /** A name without ".pdf" is saved under the same name. */
  lemma BaseNameKeepsOtherNames(name: string)
    requires !Contains(name, PdfExtension)
    ensures BaseName(name) == name
  {
  }

  /** Only the first ".pdf" goes. */
  lemma BaseNameFirstOnly()
    ensures BaseName("a.pdf.pdf") == "a.pdf"
  {
    var n := "a.pdf.pdf";
    assert OccursAt(n, PdfExtension, 1);
    assert n[0] != PdfExtension[0];
  }

  /** The extension is matched in its letter case: an upper-case ".PDF" stays. */
  lemma BaseNameCaseSensitive()
    ensures BaseName("scan.PDF") == "scan.PDF"
  {
    var m := "scan.PDF";
    forall i: nat | i + |PdfExtension| <= |m|
      ensures !OccursAt(m, PdfExtension, i)
    {
      assert m[i + 1] != 'p';
      assert PdfExtension[1] == 'p';
    }
  }

  /** The text shown for a failed conversion: the error's message, or a generic text for a thrown non-`Error` value. */
  function ErrorText(f: Fault): string {
    if f.isError then f.message else UnexpectedErrorMessage
  }

  /** The state of the page: the fields its handlers set. */
  class AppState {
    var status: ProcessingStatus
    var convertedDoc: Option<ConvertedDocument>
    var errorMsg: string
    var isOnline: bool
    var saveStatus: string

    /**
     * Between two handlers: a completed conversion has its document, and
     * no conversion is under way.
     */
    ghost predicate Valid()
      reads this
    {
      && (status == Complete ==> convertedDoc.Some?)
      && status != Uploading && status != Processing
    }

    /** The page as first shown: idle, no document, no notices. */
    constructor (online: bool)
      ensures Valid()
      ensures status == Idle && convertedDoc.None? && errorMsg == "" && saveStatus == ""
      ensures isOnline == online
    {
      status := Idle;
      convertedDoc := None;
      errorMsg := "";
      isOnline := online;
      saveStatus := "";
    }

    /** The browser's `online` and `offline` events. */
    method SetOnline(online: bool)
      modifies this
      ensures isOnline == online
      ensures status == old(status) && convertedDoc == old(convertedDoc)
      ensures errorMsg == old(errorMsg) && saveStatus == old(saveStatus)
    {
      isOnline := online;
    }

    /**
     * A file was chosen. Offline, only the offline notice is set. Online,
     * the page shows `Processing` with no error while the converter runs
     * (`startedWith` records that state), then shows the converted document
     * named after the file, or the error.
     */
    method HandleFileSelect(file: PdfFile, userKey: Option<string>, envKey: Option<string>, oracle: Oracle)
        returns (ghost startedWith: Option<(ProcessingStatus, string)>, ghost events: seq<Event>)
      requires Valid()
      modifies this
      ensures Valid()
      ensures isOnline == old(isOnline) && saveStatus == old(saveStatus)
      ensures !old(isOnline) ==>
        && status == old(status) && convertedDoc == old(convertedDoc)
        && errorMsg == OfflineMessage
        && startedWith.None? && events == []
      ensures old(isOnline) ==>
        var run := Convert(file, userKey, envKey, oracle);
        && startedWith == Some((Processing, ""))
        && events == run.events
        && match run.outcome
           case Converted(html) =>
             status == Complete && errorMsg == ""
             && convertedDoc == Some(ConvertedDocument(html, BaseName(file.name)))
           case Failed(f) =>
             status == Error && errorMsg == ErrorText(f) && convertedDoc == old(convertedDoc)
    {
      if !isOnline {
        errorMsg := OfflineMessage;
        startedWith, events := None, [];
        return;
      }
      status := Processing;
      errorMsg := "";
      startedWith := Some((status, errorMsg));
      var outcome;
      outcome, events := ConvertPdfToHtml(file, userKey, envKey, oracle);
      match outcome
      case Converted(html) =>
        convertedDoc := Some(ConvertedDocument(html, BaseName(file.name)));
        status := Complete;
      case Failed(f) =>
        status := Error;
        errorMsg := ErrorText(f);
    }

    /** Back to the upload screen: idle, no document, no notices. */
    method HandleReset()
      modifies this
      ensures Valid()
      ensures status == Idle && convertedDoc.None? && errorMsg == "" && saveStatus == ""
      ensures isOnline == old(isOnline)
    {
      status := Idle;
      convertedDoc := None;
      errorMsg := "";
      saveStatus := "";
    }

    /**
     * The download button. Without a document nothing happens. Otherwise
     * the document is handed over as `Export` builds it; a successful write
     * on a phone also sets the saved notice. A completed conversion always
     * has a document, so the button the page shows in that state always
     * hands one over.
     */
    method HandleDownload(native: bool, writeSucceeds: bool) returns (delivery: Option<Delivery>)
      requires Valid()
      modifies this
      ensures Valid()
      ensures status == old(status) && convertedDoc == old(convertedDoc)
      ensures errorMsg == old(errorMsg) && isOnline == old(isOnline)
      ensures old(status) == Complete ==> delivery.Some?
      ensures convertedDoc.None? ==> delivery.None? && saveStatus == old(saveStatus)
      ensures convertedDoc.Some? ==>
        && delivery == Some(Export(convertedDoc.value, native))
        && saveStatus == if native && writeSucceeds then SavedPrefix + DocFileName(convertedDoc.value) else old(saveStatus)
    {
      if convertedDoc.None? {
        return None;
      }
      var doc := convertedDoc.value;
      var page := WordShell(doc.fileName, doc.htmlContent);
      if native {
        var fileName := doc.fileName + DocExtension;
        delivery := Some(NativeFile(fileName, page));
        if writeSucceeds {
          saveStatus := SavedPrefix + fileName;
        }
        return;
      }
      delivery := Some(WebDownload(doc.fileName + DocExtension, WordMimeType, [Bom] + page));
    }
  }
}
