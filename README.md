# Orbit-AI helpers in Dafny

Orbit-AI is a chat agent. It plans, calls tools (web search, files, browser,
e-mail, document conversion) and checks its own answers. This project models
the self-contained helpers around that agent and proves what they promise:

- **Transcript export** (`App`, app.py). `export_history` writes a placeholder
  when there is no history. Otherwise it writes one `"Role: content"` line per
  message, joined by line breaks. Python's `str.capitalize` is modelled in
  `Strings.Capitalize`.
- **Tool error wrapper** (`Utils`, utils.py). `safe_tool` passes a tool's
  normal result through unchanged. It turns an exception into
  `{"error": "Tool <name> failed: <msg>"}`. A call ends in an `Outcome`:
  `Returned(value)` or `Raised(msg)`.
- **Tools** (`Tools`, tools.py):
  - `send_email` checks the SMTP configuration. It turns a single address into
    a one-element list and validates the addresses in order, stopping at the
    first invalid one. Only then does it start the SMTP session.
  - `markdown_to_pdf` reads `sandbox/<name>` and echoes the output path.
  - `read_docx` collects the non-blank paragraph texts and then the non-blank
    table-cell texts, in table, row, cell order, and joins them with line
    breaks.

Tool results are dictionaries, `map<string, Value>` with `Value = Str | Bool`.
Every library call is a parameter of the operation that makes it:

- the address-syntax check: `string -> bool`;
- the SMTP session: `Envelope -> Option<string>`, giving `None` on success or
  the exception's text;
- reading a file: `string -> Outcome<string>`;
- rendering and saving the PDF: `(string, string) -> Outcome<()>`;
- opening and parsing a DOCX file: `string -> Outcome<Document>`.

Environment variables arrive as an `SmtpConfig` of optional strings.

`send_email`'s recipient loop and `read_docx`'s nested loops are methods with
loop invariants. Each method is proved against a specification function
(`FirstInvalid`, `KeepNonBlank` of `AllTexts`). `read_docx`'s loops are split
into three methods, with the same order and the same appends:

- `AppendNonBlank` runs over the paragraphs and over each row's cells;
- `AppendTableTexts` runs over one table's rows;
- `CollectTexts` runs over the paragraphs and then the tables.

## Model

| member | source | states |
|---|---|---|
| `App.Line` | app.py:42 | a message's line is its capitalised role, then ": ", then its content verbatim, at fixed positions |
| `App.Lines` | app.py:42 | one line per message, line i rendered from message i (order preserved) |
| `App.IsEmptyHistory` | app.py:35 | Python's `not history`: true exactly for `None` and the empty list |
| `App.ExportContent` | app.py:35-42 | the text written is "No chat history available yet." exactly when the history is `None` or empty; a non-empty history never renders as the placeholder and its text starts with the first message's line |
| `App.ExportLines` | app.py:42 | splitting a non-empty export at "\n" gives exactly one line per message, in order, each `Capitalize(role) + ": " + content`, provided no role or content contains "\n" |
| `App.ExportEndsWithLastLine` | app.py:42 | a non-empty export ends with the last message's line (no trailing newline is added) |
| `App.ExportExamples` | app.py:34-42 | `None` and `[]` give the placeholder; a single user "hi" gives "User: hi" |
| `Strings.Join` | app.py:42 | `sep.join(parts)`: empty for no parts; otherwise as long as all parts together plus one separator between each pair of neighbours |
| `Strings.Capitalize` | app.py:42 | same length; the same characters ignoring case; first character not lower-case; every later one not upper-case |
| `Strings.CapitalizeUnique` | app.py:42 | those four properties determine the capitalised string uniquely |
| `Strings.CapitalizeKeepsNewlines` | app.py:42 | capitalising a role neither adds nor removes a "\n" |
| `Strings.SplitJoin` | app.py:42 | `"\n".join` is undone by splitting at "\n" when no part contains "\n" |
| `Strings.JoinEnds` | app.py:42 | a join of at least one part starts with the first part and ends with the last |
| `Strings.TrimStart` | tools.py:104 | `lstrip()`: no longer than the text and not starting with whitespace |
| `Strings.TrimEnd` | tools.py:104 | `rstrip()`: no longer than the text and not ending with whitespace |
| `Strings.TrimStartSpec` | tools.py:104 | `lstrip` is the suffix starting at the first non-whitespace character; all before it is whitespace |
| `Strings.TrimEndSpec` | tools.py:104 | `rstrip` is the prefix ending at the last non-whitespace character; all after it is whitespace |
| `Strings.Strip` | tools.py:104 | `strip()`: no longer than the text, neither starts nor ends with whitespace, and is empty exactly when every character is Python whitespace |
| `Utils.ErrorText` | utils.py:20 | the error text is "Tool ", the tool name, " failed: ", the message; each part can be read back at a fixed position |
| `Utils.SafeTool` | utils.py:13-20 | a normal result is returned unchanged; an `Exception` becomes a map whose only key is "error", holding "Tool <name> failed: <msg>" |
| `Utils.Wrap` | utils.py:10-21 | the decorated function forwards every argument unchanged and gives a dictionary whether the tool returns or raises an `Exception` |
| `Tools.RecipientList` | tools.py:57-60 | a single address becomes a one-element list holding it; a list is used as given |
| `Tools.Reply` | tools.py:55 | the reply has exactly the keys "status" and "message", holding the given texts (also used at tools.py:67, 82, 85) |
| `Tools.IsSet` | tools.py:53 | Python's truth value of an environment setting: true exactly when it is set and not "" |
| `Tools.ConfigMissing` | tools.py:48-53 | true exactly when the server, the sender or the password is unset or empty |
| `Tools.FirstInvalid` | tools.py:62-67 | the index of the first address failing the check: all before it pass; it fails, or it equals the count when all pass |
| `Tools.SendEmail` | tools.py:47-85 | missing or empty server, sender or password gives "Missing SMTP configuration" and starts no session; otherwise a single address becomes a one-element list and the first invalid address gives "Invalid recipient email: <r>" and starts no session; otherwise the session gets server, port 587, login, recipients and To header ", ".join(recipients); status is "success" exactly when the session succeeds, and then the message is "Emails sent to " plus that To header; a failing session gives "Failed to send email: <e>"; only valid addresses are ever sent to |
| `Tools.InputPath` | tools.py:89 | the file read is "sandbox/" followed by the given name |
| `Tools.MarkdownToPdf` | tools.py:87-94 | reads "sandbox/" + name; an exception from reading or saving leaves the function with its message; otherwise the result is `{"success": true, "output_path": output}` |
| `Tools.MarkdownToPdfWrapped` | tools.py:87-94 | through `safe_tool`, a failing read gives the error map with the read's message; a failing save after a good read gives it with the save's message; otherwise the result reports success and echoes the output path |
| `Tools.MarkdownToPdfDefaultOutput` | tools.py:88-94 | corollary of `MarkdownToPdf`'s contract at the default argument: a successful result's output path is "sandbox/output.pdf" |
| `Tools.IsBlankIffStripEmpty` | tools.py:104 | the test `not text.strip()` holds exactly for the texts `IsBlank` calls blank (whitespace only); the same test is applied at tools.py:111 |
| `Tools.KeepNonBlank` | tools.py:104-105 | the kept texts are never more than the inputs (which ones: `KeepNonBlankMembers`) |
| `Tools.RowCells` | tools.py:109-110 | the cells of a table's rows; a text is among them exactly when some row holds it |
| `Tools.RowCellsAppend` | tools.py:109-110 | rows are flattened in order: the cells of two runs of rows are the first run's cells then the second's, and one row gives its own cells |
| `Tools.Cells` | tools.py:108-110 | the cells of all tables; a text is among them exactly when some row of some table holds it |
| `Tools.CellsAppend` | tools.py:108-110 | tables are flattened in order, table by table, each row by row |
| `Tools.AllTexts` | tools.py:103-112 | the paragraph texts, then every table's cells, row by row; a text is there exactly when a paragraph or a cell holds it |
| `Tools.AppendNonBlank` | tools.py:103-105 | appends to the list, in order, exactly the texts that are not blank, unstripped |
| `Tools.AppendTableTexts` | tools.py:108-112 | appends the non-blank cells of one table in row, cell order |
| `Tools.CollectTexts` | tools.py:101-112 | `full_text` is the non-blank texts of all paragraphs followed by all cells, in table, row, cell order |
| `Tools.ReadDocx` | tools.py:96-117 | the result always carries `file_path`; a parse failure gives `success` false with the error text; otherwise `success` true with the kept texts joined by "\n" |
| `Tools.KeepNonBlankAppend` | tools.py:103-112 | keeping non-blank texts distributes over concatenation, so every kept paragraph comes before every kept cell |
| `Tools.KeepNonBlankMembers` | tools.py:104-112 | a text is kept exactly when it occurs in the input and is not blank |
| `Tools.DocumentOrder` | tools.py:101-114 | corollary of `KeepNonBlankAppend` for one document: its kept texts are its kept paragraphs followed by its kept cells |

## Left out

- The orchestration loop (`Orbit.setup`, `run_superstep`, `cleanup`; app.py:8-31) lives in orbit.py. orbit.py is not part of this model.
- The Gradio interface and its event wiring (app.py:52-91) are left out. They are presentation only.
- `export_history` writes its text to a time-stamped temporary file and returns the path (app.py:36-40, 44-49). Only the text written is modelled, because the clock and the file system are I/O.
- `Strings.Capitalize`: Python title-cases the first character and lower-cases the rest with full Unicode case mapping, which may change the length ("ß" becomes "Ss"). The model maps ASCII letters only and leaves other characters unchanged, so its `|r| == |s|` holds only for that model.
- `App.ExportLines` splits at "\n" only and assumes no role and no content contains "\n". Otherwise the split export has more lines than there are messages. It says nothing about `splitlines()`, which also breaks at "\r", U+2028 and other line boundaries.
- `push` (tools.py:40-44), `get_file_tools`, `playwright_tools` and `other_tools` (tools.py:35-37, 120-144) are left out. They only hand over to HTTP, browser and LangChain toolkits.
- The SMTP session (tools.py:70-80) is one parameter. Its failure text stands for `str(e)` of any exception raised while connecting, upgrading to TLS, logging in or sending.
- E-mail address syntax (`EmailStr._validate`, tools.py:64) is the parameter `isValidAddress`, a total `string -> bool`.
- `Tools.SendEmail`: the model gives the evidently intended reply "Invalid recipient email: <r>" (tools.py:66-67) for the first invalid address; the code as written never produces it. In pydantic 2, `EmailStr._validate` rejects a bad address by raising `PydanticCustomError`, a `ValueError` and not a `ValidationError`, so `except ValidationError` (tools.py:65) does not catch it. The exception leaves `send_email`, and `safe_tool` returns `{"error": "Tool send_email failed: value is not a valid email address: <reason>"}`. In pydantic 1, `EmailStr` has no `_validate`, so any non-empty recipient list raises `AttributeError`, which also reaches `safe_tool`. This path covers every invalid address, not a side case.
- The environment is read at import and at call time (tools.py:24-28, 48-51). Here it is the `SmtpConfig` argument. Logging calls are left out.
- `Utils.SafeTool`: `Raised` stands for exceptions of subclasses of `Exception` only, the ones `except Exception` catches (utils.py:18). Other `BaseException`s, such as `KeyboardInterrupt`, `SystemExit` or task cancellation, pass through the wrapper and are not modelled.
- `send_email` under `safe_tool`: the model's `send_email` always returns normally, so `safe_tool` hands its result back unchanged (`Utils.SafeTool`). As written, this fails for an invalid address (see the `Tools.SendEmail` line above). `read_docx` does return normally, because it catches its own exceptions.
- DOCX parsing (tools.py:100) is a parameter. It yields the paragraph texts and the tables as rows of cell texts. Exceptions raised later, while iterating the document, are not modelled.
- PDF rendering (tools.py:91-93) is one `save` parameter. It receives the Markdown text and the output path.
- `read_docx` accepts any path, and `markdown_to_pdf` only puts "sandbox/" in front of the name. No sandbox-containment property holds, so none is stated.
