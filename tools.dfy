/** The agent's own tools (tools.py): `send_email`, `markdown_to_pdf` and
    `read_docx`. The libraries they call (SMTP, the e-mail address validator,
    file reading, PDF rendering, DOCX parsing) are parameters. */
module Tools {
  import opened Strings
  import opened Utils

  // ---------------------------------------------------------------- send_email

  /** The SMTP settings `send_email` reads from the environment; an unset
      variable is `None`. */
  datatype SmtpConfig = SmtpConfig(server: Option<string>, email: Option<string>, password: Option<string>)

  const SmtpPort: int := 587

  /** Python's truth value of an environment setting: true for a set, non-empty
      value, false for `None` and for "". */
  predicate IsSet(v: Option<string>): (isSet: bool)
    ensures isSet <==> v != None && v != Some("")
  {
    v.Some? && v.value != ""
  }

  /** `not smtp_server or not sender_email or not sender_password`: some
      setting is unset or empty. */
  predicate ConfigMissing(cfg: SmtpConfig): (missing: bool)
    ensures missing <==> cfg.server in {None, Some("")} || cfg.email in {None, Some("")}
                         || cfg.password in {None, Some("")}
  {
    !IsSet(cfg.server) || !IsSet(cfg.email) || !IsSet(cfg.password)
  }

  /** The `to_addr` argument: one address as a string, or a list of them. */
  datatype Recipients = Single(addr: string) | Many(addrs: seq<string>)

  /** A single string becomes a one-element list; a list is used as given. */
  function RecipientList(to: Recipients): (rs: seq<string>)
    ensures to.Single? ==> |rs| == 1 && rs[0] == to.addr
    ensures to.Many? ==> rs == to.addrs
  {
    match to
    case Single(a) => [a]
    case Many(rs) => rs
  }

  /** Everything the SMTP session is given: the server and port it connects to,
      the login, the envelope recipients and the message's headers and body. */
  datatype Envelope = Envelope(
    server: string, port: int, sender: string, password: string,
    recipients: seq<string>, subject: string, toHeader: string, body: string)

  /** The `{"status": …, "message": …}` dictionary `send_email` returns. */
  function Reply(status: string, message: string): (r: Dict)
    ensures r.Keys == {"status", "message"}
    ensures r["status"] == Str(status) && r["message"] == Str(message)
  {
    map["status" := Str(status), "message" := Str(message)]
  }

  /** The position of the first address that fails the validity test, or the
      number of addresses when every one passes. */
  function FirstInvalid(rs: seq<string>, isValid: string -> bool): (k: nat)
    ensures k <= |rs|
    ensures forall j :: 0 <= j < k ==> isValid(rs[j])
    ensures k < |rs| ==> !isValid(rs[k])
  {
    if |rs| == 0 || !isValid(rs[0]) then 0 else 1 + FirstInvalid(rs[1..], isValid)
  }

  /** `send_email` as evidently intended. `isValidAddress` is the address-syntax
      check and `smtp` the SMTP session, which ends normally (`None`) or with an
      exception's text. `sent` is the session that was started, if any. An
      invalid address gives the "Invalid recipient email" reply; in the code as
      written the validator's exception escapes instead (see README). */
  method SendEmail(cfg: SmtpConfig, to: Recipients, subject: string, body: string,
                   isValidAddress: string -> bool, smtp: Envelope -> Option<string>)
    returns (r: Dict, sent: Option<Envelope>)
    ensures r.Keys == {"status", "message"}
    ensures ConfigMissing(cfg) ==> r == Reply("error", "Missing SMTP configuration") && sent == None
    ensures !ConfigMissing(cfg) ==>
      var rs := RecipientList(to);
      var k := FirstInvalid(rs, isValidAddress);
      (k < |rs| ==> r == Reply("error", "Invalid recipient email: " + rs[k]) && sent == None) &&
      (k == |rs| ==> sent == Some(Envelope(cfg.server.value, SmtpPort, cfg.email.value, cfg.password.value,
                                           rs, subject, Join(", ", rs), body)))
    ensures sent.Some? ==> forall x :: x in sent.value.recipients ==> isValidAddress(x)
    ensures r["status"] == Str("success") <==> sent.Some? && smtp(sent.value).None?
    ensures r["status"] == Str("success") ==>
      r["message"] == Str("Emails sent to " + sent.value.toHeader) &&
      sent.value.toHeader == Join(", ", sent.value.recipients)
    ensures sent.Some? && smtp(sent.value).Some? ==>
      r == Reply("error", "Failed to send email: " + smtp(sent.value).value)
  {
    if ConfigMissing(cfg) {
      return Reply("error", "Missing SMTP configuration"), None;
    }
    var rs := RecipientList(to);
    var i := 0;
    while i < |rs|
      invariant 0 <= i <= |rs|
      invariant forall j :: 0 <= j < i ==> isValidAddress(rs[j])
    {
      if !isValidAddress(rs[i]) {
        return Reply("error", "Invalid recipient email: " + rs[i]), None;
      }
      i := i + 1;
    }
    var toHeader := Join(", ", rs);
    var envelope := Envelope(cfg.server.value, SmtpPort, cfg.email.value, cfg.password.value,
                             rs, subject, toHeader, body);
    sent := Some(envelope);
    match smtp(envelope)
    case None =>
      r := Reply("success", "Emails sent to " + toHeader);
    case Some(e) =>
      r := Reply("error", "Failed to send email: " + e);
  }

  // ----------------------------------------------------------- markdown_to_pdf

  const SandboxDir: string := "sandbox/"

  const DefaultPdfOutput: string := "sandbox/output.pdf"

  /** The file `markdown_to_pdf` reads: the name under the sandbox directory. */
  function InputPath(fileName: string): (path: string)
    ensures |path| == |SandboxDir| + |fileName|
    ensures path[..|SandboxDir|] == SandboxDir && path[|SandboxDir|..] == fileName
  {
    SandboxDir + fileName
  }

  /** `markdown_to_pdf` before `safe_tool` wraps it. `read` reads a file and
      `save` renders Markdown text into a PDF at a path; either may raise, and
      the exception leaves the function. */
  function MarkdownToPdf(fileName: string, read: string -> Outcome<string>,
                         save: (string, string) -> Outcome<()>,
                         output: string := DefaultPdfOutput): (r: Outcome<Dict>)
    ensures read(InputPath(fileName)).Raised? ==> r == Raised(read(InputPath(fileName)).msg)
    ensures read(InputPath(fileName)).Returned? ==>
      var saved := save(read(InputPath(fileName)).value, output);
      (saved.Raised? ==> r == Raised(saved.msg)) &&
      (saved.Returned? ==> r == Returned(map["success" := Bool(true), "output_path" := Str(output)]))
  {
    match read(InputPath(fileName))
    case Raised(e) => Raised(e)
    case Returned(markdown) =>
      match save(markdown, output)
      case Raised(e) => Raised(e)
      case Returned(_) => Returned(map["success" := Bool(true), "output_path" := Str(output)])
  }

  /** Through `safe_tool`, `markdown_to_pdf` either reports success and echoes
      the output path, or reports under the single key "error" the message of
      the read's exception, or of the save's when the read succeeded. */
  lemma MarkdownToPdfWrapped(fileName: string, read: string -> Outcome<string>,
                             save: (string, string) -> Outcome<()>, output: string)
    ensures var d := SafeTool("markdown_to_pdf", MarkdownToPdf(fileName, read, save, output));
      var src := read(InputPath(fileName));
      (src.Raised? ==> d == map["error" := Str(ErrorText("markdown_to_pdf", src.msg))]) &&
      (src.Returned? && save(src.value, output).Raised? ==>
        d == map["error" := Str(ErrorText("markdown_to_pdf", save(src.value, output).msg))]) &&
      (src.Returned? && save(src.value, output).Returned? ==>
        d.Keys == {"success", "output_path"} && d["success"] == Bool(true) && d["output_path"] == Str(output))
  {
    match MarkdownToPdf(fileName, read, save, output)
    case Returned(v) =>
    case Raised(e) =>
      var d := SafeTool("markdown_to_pdf", MarkdownToPdf(fileName, read, save, output));
      assert d == map["error" := Str(ErrorText("markdown_to_pdf", e))];
  }

  /** Called without `output`, the PDF goes to "sandbox/output.pdf", and a
      successful result says so. */
  lemma MarkdownToPdfDefaultOutput(fileName: string, read: string -> Outcome<string>,
                                   save: (string, string) -> Outcome<()>)
    ensures var r := MarkdownToPdf(fileName, read, save);
      r.Returned? ==> r.value["output_path"] == Str("sandbox/output.pdf")
  {
  }

  // ------------------------------------------------------------------ read_docx

  /** A table's rows, each a list of cell texts. */
  type Table = seq<seq<string>>

  /** What `read_docx` uses of a DOCX document: its paragraphs' texts and its
      tables. */
  datatype Document = Document(paragraphs: seq<string>, tables: seq<Table>)

  /** A text made of whitespace only (IsBlankIffStripEmpty: exactly the
      texts for which Python's `not text.strip()` holds). */
  predicate IsBlank(text: string)
  {
    forall i :: 0 <= i < |text| ==> IsSpace(text[i])
  }

  /** The test `read_docx` applies, `not text.strip()`, is IsBlank. */
  lemma IsBlankIffStripEmpty(text: string)
    ensures IsBlank(text) <==> Strip(text) == ""
  {
  }

  /** The texts that are not blank, unstripped and in their order; never
      more of them than there were (KeepNonBlankMembers says which). */
  function KeepNonBlank(texts: seq<string>): (kept: seq<string>)
    ensures |kept| <= |texts|
  {
    if |texts| == 0 then []
    else
      var last := texts[|texts| - 1];
      KeepNonBlank(texts[..|texts| - 1]) + (if IsBlank(last) then [] else [last])
  }

  /** The rows' cells, row by row: a text is among them exactly when some row
      holds it (RowCellsAppend gives the order). */
  function RowCells(rows: seq<seq<string>>): (cells: seq<string>)
    ensures forall x :: x in cells <==> exists r :: 0 <= r < |rows| && x in rows[r]
  {
    if |rows| == 0 then [] else RowCells(rows[..|rows| - 1]) + rows[|rows| - 1]
  }

  /** All cells of all tables, in table, row, cell order: a text is among
      them exactly when some row of some table holds it (CellsAppend gives the
      order). */
  function Cells(tables: seq<Table>): (cells: seq<string>)
    ensures forall x :: x in cells <==>
      exists t, r :: 0 <= t < |tables| && 0 <= r < |tables[t]| && x in tables[t][r]
  {
    if |tables| == 0 then [] else Cells(tables[..|tables| - 1]) + RowCells(tables[|tables| - 1])
  }

  /** Every text `read_docx` looks at, in the order it looks: the paragraphs,
      then the table cells; a text is there exactly when a paragraph or a
      cell holds it. */
  function AllTexts(doc: Document): (texts: seq<string>)
    ensures forall x :: x in texts <==>
      (x in doc.paragraphs ||
       exists t, r :: 0 <= t < |doc.tables| && 0 <= r < |doc.tables[t]| && x in doc.tables[t][r])
  {
    doc.paragraphs + Cells(doc.tables)
  }

  /** Flattening rows keeps their order: the cells of two runs of rows are
      the first run's cells followed by the second's, and one row flattens to
      itself. */
  lemma {:induction false} RowCellsAppend(rows1: seq<seq<string>>, rows2: seq<seq<string>>)
    ensures RowCells(rows1 + rows2) == RowCells(rows1) + RowCells(rows2)
    ensures forall row :: RowCells([row]) == row
  {
    forall row ensures RowCells([row]) == row {
      assert [row][..0] == [];
    }
    if |rows2| > 0 {
      var init := rows2[..|rows2| - 1];
      RowCellsAppend(rows1, init);
      assert (rows1 + rows2)[..|rows1 + rows2| - 1] == rows1 + init;
    } else {
      assert rows1 + rows2 == rows1;
    }
  }

  /** Flattening tables keeps their order: the cells of two runs of tables are
      the first run's cells followed by the second's, and one table gives its
      cells row by row. */
  lemma {:induction false} CellsAppend(tables1: seq<Table>, tables2: seq<Table>)
    ensures Cells(tables1 + tables2) == Cells(tables1) + Cells(tables2)
    ensures forall table :: Cells([table]) == RowCells(table)
  {
    forall table ensures Cells([table]) == RowCells(table) {
      assert [table][..0] == [];
    }
    if |tables2| > 0 {
      var init := tables2[..|tables2| - 1];
      CellsAppend(tables1, init);
      assert (tables1 + tables2)[..|tables1 + tables2| - 1] == tables1 + init;
    } else {
      assert tables1 + tables2 == tables1;
    }
  }

  lemma KeepNonBlankSnoc(texts: seq<string>, t: string)
    ensures KeepNonBlank(texts + [t]) == KeepNonBlank(texts) + (if IsBlank(t) then [] else [t])
  {
    assert (texts + [t])[..|texts|] == texts;
  }

  /** The loop body `read_docx` runs over a list of texts (the paragraphs, or
      the cells of one row): append to `fullText` each text that is not
      blank. */
  method AppendNonBlank(fullText: seq<string>, texts: seq<string>) returns (out: seq<string>)
    ensures out == fullText + KeepNonBlank(texts)
  {
    out := fullText;
    for i := 0 to |texts|
      invariant out == fullText + KeepNonBlank(texts[..i])
    {
      var text := texts[i];
      if Strip(text) != "" {
        out := out + [text];
      }
      assert texts[..i + 1] == texts[..i] + [text];
      KeepNonBlankSnoc(texts[..i], text);
    }
    assert texts[..|texts|] == texts;
  }

  /** The loop `read_docx` runs over one table: row by row, append the cells
      that are not blank. */
  method AppendTableTexts(fullText: seq<string>, table: Table) returns (out: seq<string>)
    ensures out == fullText + KeepNonBlank(RowCells(table))
  {
    out := fullText;
    for j := 0 to |table|
      invariant out == fullText + KeepNonBlank(RowCells(table[..j]))
    {
      var row := table[j];
      out := AppendNonBlank(out, row);
      assert table[..j + 1][..j] == table[..j];
      KeepNonBlankAppend(RowCells(table[..j]), row);
    }
    assert table[..|table|] == table;
  }

  /** The `full_text` list `read_docx` builds: the non-blank paragraph texts,
      then the non-blank cell texts table by table, row by row. */
  method CollectTexts(doc: Document) returns (fullText: seq<string>)
    ensures fullText == KeepNonBlank(AllTexts(doc))
  {
    fullText := AppendNonBlank([], doc.paragraphs);
    for t := 0 to |doc.tables|
      invariant fullText == KeepNonBlank(doc.paragraphs) + KeepNonBlank(Cells(doc.tables[..t]))
    {
      fullText := AppendTableTexts(fullText, doc.tables[t]);
      assert doc.tables[..t + 1][..t] == doc.tables[..t];
      KeepNonBlankAppend(Cells(doc.tables[..t]), RowCells(doc.tables[t]));
    }
    assert doc.tables[..|doc.tables|] == doc.tables;
    KeepNonBlankAppend(doc.paragraphs, Cells(doc.tables));
  }

  /** `read_docx`. `parse` opens and parses the file at a path, or raises. */
  method ReadDocx(filePath: string, parse: string -> Outcome<Document>) returns (r: Dict)
    ensures "file_path" in r && r["file_path"] == Str(filePath)
    ensures parse(filePath).Raised? ==>
      r == map["success" := Bool(false), "error" := Str(parse(filePath).msg), "file_path" := Str(filePath)]
    ensures parse(filePath).Returned? ==>
      r == map["success" := Bool(true),
               "content" := Str(Join("\n", KeepNonBlank(AllTexts(parse(filePath).value)))),
               "file_path" := Str(filePath)]
  {
    match parse(filePath)
    case Raised(e) =>
      r := map["success" := Bool(false), "error" := Str(e), "file_path" := Str(filePath)];
    case Returned(doc) =>
      var fullText := CollectTexts(doc);
      r := map["success" := Bool(true), "content" := Str(Join("\n", fullText)), "file_path" := Str(filePath)];
  }

  /** All kept paragraph texts come before all kept cell texts. */
  lemma {:induction false} KeepNonBlankAppend(a: seq<string>, b: seq<string>)
    ensures KeepNonBlank(a + b) == KeepNonBlank(a) + KeepNonBlank(b)
  {
    if |b| > 0 {
      var init := b[..|b| - 1];
      var last := b[|b| - 1];
      assert a + b == (a + init) + [last];
      assert b == init + [last];
      KeepNonBlankAppend(a, init);
      KeepNonBlankSnoc(a + init, last);
      KeepNonBlankSnoc(init, last);
    } else {
      assert a + b == a;
    }
  }

  /** A text is kept exactly when it occurs among the inputs and is not blank
      (has a character other than whitespace). */
  lemma {:induction false} KeepNonBlankMembers(texts: seq<string>, x: string)
    ensures x in KeepNonBlank(texts) <==> x in texts && !IsBlank(x)
  {
    if |texts| > 0 {
      var init := texts[..|texts| - 1];
      KeepNonBlankMembers(init, x);
      assert texts == init + [texts[|texts| - 1]];
    }
  }

  /** The document's text splits into paragraphs first, then cells. */
  lemma DocumentOrder(doc: Document)
    ensures KeepNonBlank(AllTexts(doc)) == KeepNonBlank(doc.paragraphs) + KeepNonBlank(Cells(doc.tables))
  {
    KeepNonBlankAppend(doc.paragraphs, Cells(doc.tables));
  }
}
