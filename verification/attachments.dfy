/** Attachment packaging of `send_email_with_attachments` in
    `automated_email_sending.py`: data-frame attachments serialised as xlsx or csv,
    then attachments read from file paths. Serialisation and base64 encoding are
    kept symbolic: an attachment records which table or file its bytes come from. */
module Attachments {
  import opened Wrappers

  const SpreadsheetMime := "application/vnd.openxmlformats-officedocument.spreadsheetml.sheet"
  const CsvMime := "text/csv"

  /** An opaque handle on a Spark data frame. */
  datatype Table = Table(handle: nat)

  /** Where an attachment's bytes come from. */
  datatype Content = Workbook(table: Table) | CsvText(table: Table) | FileBytes(path: string)

  /** A Graph `fileAttachment`; its `@odata.type` tag is the same for every attachment. */
  datatype Attachment = Attachment(name: string, contentType: string, content: Content)

  /** `attachment_names[i]` raised `IndexError` for the data frame at `index`. */
  datatype PackagingError = AttachmentNameMissing(index: nat)

  /** Python's `str.endswith(suffix)`, for any sequence. */
  predicate EndsWith<T(==)>(s: seq<T>, suffix: seq<T>) {
    |suffix| <= |s| && s[|s| - |suffix|..] == suffix
  }

  /** `os.path.basename` on POSIX paths: the text after the last `/`. It is the
      longest suffix of the path that holds no `/`. */
  function Basename(path: string): (b: string)
    ensures EndsWith(path, b)
    ensures '/' !in b
    ensures |b| < |path| ==> path[|path| - |b| - 1] == '/'
  {
    if |path| == 0 || path[|path| - 1] == '/' then ""
    else Basename(path[..|path| - 1]) + [path[|path| - 1]]
  }

  /** A path ending in a suffix without `/` has a basename ending in it too. */
  lemma BasenameKeepsExtension(path: string, ext: string)
    requires EndsWith(path, ext) && '/' !in ext
    ensures EndsWith(Basename(path), ext)
  {
    var b := Basename(path);
    assert b == path[|path| - |b|..];
    assert b[|b| - |ext|..] == path[|path| - |ext|..];
  }

  // ---------------------------------------------------------------------------
  // Attachments from file paths

  /** The extension filter `file_path.endswith(('.xlsx', '.xls', '.csv'))`. */
  predicate HasSpreadsheetExtension(path: string) {
    EndsWith(path, ".xlsx") || EndsWith(path, ".xls") || EndsWith(path, ".csv")
  }

  /** A path is attached when it exists and passes the extension filter. */
  predicate KeepPath(pathExists: string -> bool, path: string) {
    pathExists(path) && HasSpreadsheetExtension(path)
  }

  /** The MIME type test on the file name: spreadsheet for `.xlsx`, csv otherwise. */
  function MimeForFileName(name: string): string {
    if EndsWith(name, ".xlsx") then SpreadsheetMime else CsvMime
  }

  function FileAttachment(path: string): Attachment {
    var name := Basename(path);
    Attachment(name, MimeForFileName(name), FileBytes(path))
  }

  /** Each element's contribution, concatenated in order. */
  function FlatMap<A, B>(f: A -> seq<B>, s: seq<A>): seq<B> {
    if |s| == 0 then [] else f(s[0]) + FlatMap(f, s[1..])
  }

  /** Mapping a concatenation is concatenating the maps. */
  lemma {:induction false} FlatMapAppend<A, B>(f: A -> seq<B>, a: seq<A>, b: seq<A>)
    ensures FlatMap(f, a + b) == FlatMap(f, a) + FlatMap(f, b)
    decreases |a|
  {
    if |a| == 0 {
      assert a + b == b;
    } else {
      assert (a + b)[0] == a[0] && (a + b)[1..] == a[1..] + b;
      FlatMapAppend(f, a[1..], b);
    }
  }

  /** The attachments contributed by one path: its own attachment when it is kept. */
  function PathAttachment(pathExists: string -> bool, path: string): seq<Attachment> {
    if KeepPath(pathExists, path) then [FileAttachment(path)] else []
  }

  /** The loop over `file_paths`; `pathExists` stands for `os.path.exists`. */
  function PathAttachments(paths: seq<string>, pathExists: string -> bool): seq<Attachment> {
    FlatMap(p => PathAttachment(pathExists, p), paths)
  }

  /** One loop step: a non-empty list contributes its head's attachment, then the rest. */
  lemma PathAttachmentsCons(paths: seq<string>, pathExists: string -> bool)
    requires |paths| > 0
    ensures PathAttachments(paths, pathExists) == PathAttachment(pathExists, paths[0]) + PathAttachments(paths[1..], pathExists)
  {
  }

  /** Path attachments of a concatenation are the concatenation of path attachments:
      input order is preserved. */
  lemma {:induction false} PathAttachmentsAppend(a: seq<string>, b: seq<string>, pathExists: string -> bool)
    ensures PathAttachments(a + b, pathExists) == PathAttachments(a, pathExists) + PathAttachments(b, pathExists)
    decreases |a|
  {
    FlatMapAppend(p => PathAttachment(pathExists, p), a, b);
  }

  /** The attachment for a path with a spreadsheet extension is named by its
      basename, which keeps the extension; the MIME type is the spreadsheet type
      exactly when the name ends in `.xlsx`. */
  lemma FileAttachmentShape(p: string)
    requires HasSpreadsheetExtension(p)
    ensures var a := FileAttachment(p);
      && a.content == FileBytes(p)
      && a.name == Basename(p)
      && HasSpreadsheetExtension(a.name)
      && (a.contentType == SpreadsheetMime <==> EndsWith(a.name, ".xlsx"))
  {
    if EndsWith(p, ".xlsx") {
      BasenameKeepsExtension(p, ".xlsx");
    } else if EndsWith(p, ".xls") {
      BasenameKeepsExtension(p, ".xls");
    } else {
      BasenameKeepsExtension(p, ".csv");
    }
    assert CsvMime != SpreadsheetMime;
  }

  /** Every path attachment is the attachment of a kept path from the input. */
  lemma {:induction false} PathAttachmentsSound(paths: seq<string>, pathExists: string -> bool)
    ensures forall a :: a in PathAttachments(paths, pathExists) ==>
      && a.content.FileBytes?
      && a.content.path in paths
      && KeepPath(pathExists, a.content.path)
      && a == FileAttachment(a.content.path)
  {
    if |paths| > 0 {
      PathAttachmentsSound(paths[1..], pathExists);
      forall a | a in PathAttachments(paths, pathExists)
        ensures a.content.FileBytes? && a.content.path in paths
      {
        if a in PathAttachments(paths[1..], pathExists) {
          assert a.content.path in paths[1..];
        }
      }
    }
  }

  /** Every kept path from the input yields an attachment. */
  lemma {:induction false} PathAttachmentsComplete(paths: seq<string>, pathExists: string -> bool)
    ensures forall p :: p in paths && KeepPath(pathExists, p) ==> FileAttachment(p) in PathAttachments(paths, pathExists)
  {
    if |paths| > 0 {
      PathAttachmentsComplete(paths[1..], pathExists);
      forall q | q in paths && KeepPath(pathExists, q)
        ensures FileAttachment(q) in PathAttachments(paths, pathExists)
      {
        if q != paths[0] {
          assert q in paths[1..];
        }
      }
    }
  }

  /** Each path attachment comes from a kept path, named by its basename; each kept
      path yields one; the name carries a spreadsheet extension and the MIME type is
      the spreadsheet type exactly when the name ends in `.xlsx`. */
  lemma PathAttachmentsSpec(paths: seq<string>, pathExists: string -> bool)
    ensures forall a :: a in PathAttachments(paths, pathExists) ==>
      && a.content.FileBytes?
      && a.content.path in paths
      && KeepPath(pathExists, a.content.path)
      && a.name == Basename(a.content.path)
      && HasSpreadsheetExtension(a.name)
      && (a.contentType == SpreadsheetMime <==> EndsWith(a.name, ".xlsx"))
    ensures forall p :: p in paths && KeepPath(pathExists, p) ==> FileAttachment(p) in PathAttachments(paths, pathExists)
  {
    PathAttachmentsSound(paths, pathExists);
    PathAttachmentsComplete(paths, pathExists);
    forall a | a in PathAttachments(paths, pathExists)
      ensures a.name == Basename(a.content.path) && HasSpreadsheetExtension(a.name)
      ensures a.contentType == SpreadsheetMime <==> EndsWith(a.name, ".xlsx")
    {
      FileAttachmentShape(a.content.path);
    }
  }

  /** An existing `.xls` file is attached under the csv MIME type. */
  lemma XlsIsLabelledCsv(path: string, pathExists: string -> bool)
    requires pathExists(path) && EndsWith(path, ".xls")
    ensures PathAttachments([path], pathExists) == [Attachment(Basename(path), CsvMime, FileBytes(path))]
  {
    BasenameKeepsExtension(path, ".xls");
    var name := Basename(path);
    assert name[|name| - 1] == 's';
    assert !EndsWith(name, ".xlsx");
    assert FileAttachment(path) == Attachment(name, CsvMime, FileBytes(path));
    assert PathAttachment(pathExists, path) == [FileAttachment(path)];
    PathAttachmentsCons([path], pathExists);
    assert [path][1..] == [];
  }

  // ---------------------------------------------------------------------------
  // Attachments from data frames

  /** The two values of `attachment_format` that produce data-frame attachments. */
  predicate SupportedFormat(format: string) {
    format == "xlsx" || format == "csv"
  }

  /** The attachment built for one data frame: its name is the given name plus the
      format's extension, and its MIME type and serialisation follow the format. */
  function TableAttachment(name: string, table: Table, format: string): (a: Attachment)
    requires SupportedFormat(format)
    ensures a.name == name + "." + format
    ensures format == "xlsx" ==> a.contentType == SpreadsheetMime
    ensures format == "csv" ==> a.contentType == CsvMime
    ensures !a.content.FileBytes? && a.content.table == table
    ensures a.content.Workbook? <==> format == "xlsx"
  {
    if format == "xlsx" then Attachment(name + ".xlsx", SpreadsheetMime, Workbook(table))
    else Attachment(name + ".csv", CsvMime, CsvText(table))
  }

  /** The `for i, df in enumerate(dfs)` loop from index `i` on. A missing name for a
      present data frame raises `IndexError`, but only when the format is supported,
      since the name is read inside the format branches. */
  function TableAttachmentsFrom(dfs: seq<Option<Table>>, names: seq<string>, format: string, i: nat)
    : Result<seq<Attachment>, PackagingError>
    requires i <= |dfs|
    decreases |dfs| - i
  {
    if i == |dfs| then Success([])
    else if dfs[i].None? || !SupportedFormat(format) then TableAttachmentsFrom(dfs, names, format, i + 1)
    else if i >= |names| then Failure(AttachmentNameMissing(i))
    else
      match TableAttachmentsFrom(dfs, names, format, i + 1)
      case Failure(e) => Failure(e)
      case Success(rest) => Success([TableAttachment(names[i], dfs[i].value, format)] + rest)
  }

  /** The indices from `i` on whose data frame is present, ascending. */
  function PresentIndices(dfs: seq<Option<Table>>, i: nat): (r: seq<nat>)
    requires i <= |dfs|
    ensures forall k :: 0 <= k < |r| ==> i <= r[k] < |dfs| && dfs[r[k]].Some?
    ensures forall k, l :: 0 <= k < l < |r| ==> r[k] < r[l]
    ensures forall j :: i <= j < |dfs| && dfs[j].Some? ==> j in r
    decreases |dfs| - i
  {
    if i == |dfs| then []
    else (if dfs[i].Some? then [i] else []) + PresentIndices(dfs, i + 1)
  }

  /** Some present data frame from index `i` on has no name. */
  predicate NameMissingFrom(dfs: seq<Option<Table>>, names: seq<string>, i: nat) {
    exists j :: i <= j < |dfs| && dfs[j].Some? && j >= |names|
  }

  /** An unsupported format yields no data-frame attachments and no error. */
  lemma {:induction false} UnsupportedFormatYieldsNothing(dfs: seq<Option<Table>>, names: seq<string>, format: string, i: nat)
    requires i <= |dfs| && !SupportedFormat(format)
    ensures TableAttachmentsFrom(dfs, names, format, i) == Success([])
    decreases |dfs| - i
  {
    if i < |dfs| {
      UnsupportedFormatYieldsNothing(dfs, names, format, i + 1);
    }
  }

  /** With a supported format the loop raises exactly when a present data frame has
      no name, and then at the first such index. */
  lemma {:induction false} TableAttachmentsFailure(dfs: seq<Option<Table>>, names: seq<string>, format: string, i: nat)
    requires i <= |dfs| && SupportedFormat(format)
    ensures TableAttachmentsFrom(dfs, names, format, i).Failure? <==> NameMissingFrom(dfs, names, i)
    ensures TableAttachmentsFrom(dfs, names, format, i).Failure? ==>
      var j := TableAttachmentsFrom(dfs, names, format, i).error.index;
      && i <= j < |dfs| && dfs[j].Some? && j >= |names|
      && forall k :: i <= k < j && dfs[k].Some? ==> k < |names|
    decreases |dfs| - i
  {
    if i < |dfs| {
      TableAttachmentsFailure(dfs, names, format, i + 1);
      if NameMissingFrom(dfs, names, i) && !(dfs[i].Some? && i >= |names|) {
        var j :| i <= j < |dfs| && dfs[j].Some? && j >= |names|;
        assert i + 1 <= j;
      }
    }
  }

  /** `atts[k]` is the attachment built from the data frame at index `idx[k]` and its name. */
  ghost predicate BuiltFrom(atts: seq<Attachment>, idx: seq<nat>, dfs: seq<Option<Table>>, names: seq<string>, format: string)
    requires SupportedFormat(format)
  {
    && |atts| == |idx|
    && forall k :: 0 <= k < |atts| ==>
         idx[k] < |dfs| && idx[k] < |names| && dfs[idx[k]].Some?
         && atts[k] == TableAttachment(names[idx[k]], dfs[idx[k]].value, format)
  }

  /** Prepending the attachment of a named, present data frame keeps the correspondence. */
  lemma BuiltFromCons(atts: seq<Attachment>, idx: seq<nat>, dfs: seq<Option<Table>>, names: seq<string>, format: string, i: nat)
    requires SupportedFormat(format) && BuiltFrom(atts, idx, dfs, names, format)
    requires i < |dfs| && i < |names| && dfs[i].Some?
    ensures BuiltFrom([TableAttachment(names[i], dfs[i].value, format)] + atts, [i] + idx, dfs, names, format)
  {
    var atts', idx' := [TableAttachment(names[i], dfs[i].value, format)] + atts, [i] + idx;
    forall k | 1 <= k < |atts'|
      ensures atts'[k] == atts[k - 1] && idx'[k] == idx[k - 1]
    {
    }
  }

  /** A missing data frame at index `i` adds neither an attachment nor an index. */
  lemma SuccessSkip(dfs: seq<Option<Table>>, names: seq<string>, format: string, i: nat)
    requires i < |dfs| && dfs[i].None? && SupportedFormat(format)
    requires TableAttachmentsFrom(dfs, names, format, i + 1).Success?
    requires BuiltFrom(TableAttachmentsFrom(dfs, names, format, i + 1).value, PresentIndices(dfs, i + 1), dfs, names, format)
    ensures TableAttachmentsFrom(dfs, names, format, i) == TableAttachmentsFrom(dfs, names, format, i + 1)
    ensures BuiltFrom(TableAttachmentsFrom(dfs, names, format, i).value, PresentIndices(dfs, i), dfs, names, format)
  {
    assert PresentIndices(dfs, i) == PresentIndices(dfs, i + 1);
  }

  /** A named, present data frame at index `i` adds its attachment and its index in front. */
  lemma SuccessTake(dfs: seq<Option<Table>>, names: seq<string>, format: string, i: nat)
    requires i < |dfs| && dfs[i].Some? && i < |names| && SupportedFormat(format)
    requires TableAttachmentsFrom(dfs, names, format, i + 1).Success?
    requires BuiltFrom(TableAttachmentsFrom(dfs, names, format, i + 1).value, PresentIndices(dfs, i + 1), dfs, names, format)
    ensures TableAttachmentsFrom(dfs, names, format, i).Success?
    ensures BuiltFrom(TableAttachmentsFrom(dfs, names, format, i).value, PresentIndices(dfs, i), dfs, names, format)
  {
    var rest := TableAttachmentsFrom(dfs, names, format, i + 1).value;
    assert TableAttachmentsFrom(dfs, names, format, i).value == [TableAttachment(names[i], dfs[i].value, format)] + rest;
    assert PresentIndices(dfs, i) == [i] + PresentIndices(dfs, i + 1);
    BuiltFromCons(rest, PresentIndices(dfs, i + 1), dfs, names, format, i);
  }

  /** On success, the k-th data-frame attachment is built from the k-th present data
      frame and its name, so `None` entries are skipped and order is kept. */
  lemma {:induction false} TableAttachmentsSuccess(dfs: seq<Option<Table>>, names: seq<string>, format: string, i: nat)
    requires i <= |dfs| && SupportedFormat(format)
    requires TableAttachmentsFrom(dfs, names, format, i).Success?
    ensures BuiltFrom(TableAttachmentsFrom(dfs, names, format, i).value, PresentIndices(dfs, i), dfs, names, format)
    decreases |dfs| - i
  {
    if i < |dfs| {
      if dfs[i].None? {
        assert TableAttachmentsFrom(dfs, names, format, i) == TableAttachmentsFrom(dfs, names, format, i + 1);
        TableAttachmentsSuccess(dfs, names, format, i + 1);
        SuccessSkip(dfs, names, format, i);
      } else {
        assert i < |names| && TableAttachmentsFrom(dfs, names, format, i + 1).Success?;
        TableAttachmentsSuccess(dfs, names, format, i + 1);
        SuccessTake(dfs, names, format, i);
      }
    }
  }

  /** Data-frame attachments never carry file bytes. */
  lemma {:induction false} TableAttachmentsAreTables(dfs: seq<Option<Table>>, names: seq<string>, format: string, i: nat)
    requires i <= |dfs|
    requires TableAttachmentsFrom(dfs, names, format, i).Success?
    ensures forall a :: a in TableAttachmentsFrom(dfs, names, format, i).value ==> !a.content.FileBytes?
    decreases |dfs| - i
  {
    if i < |dfs| {
      TableAttachmentsAreTables(dfs, names, format, i + 1);
    }
  }

  // ---------------------------------------------------------------------------
  // The whole attachment list

  /** True when every data-frame attachment comes before every file attachment. */
  predicate TablesBeforeFiles(atts: seq<Attachment>) {
    forall i, j :: 0 <= i < j < |atts| && atts[i].content.FileBytes? ==> atts[j].content.FileBytes?
  }

  /** Whether the data-frame loop runs and reads names: both lists are given and the
      format is one of the two it serialises. */
  predicate TablesRequested(dfs: Option<seq<Option<Table>>>, names: Option<seq<string>>, format: string) {
    dfs.Some? && names.Some? && SupportedFormat(format)
  }

  /** The attachment list of `send_email_with_attachments`: data-frame attachments
      (only when both `dfs` and `attachment_names` are given), then file attachments
      (only when `file_paths` is given). Packaging raises exactly when the data-frame
      loop meets a present frame without a name, and reports the first such index.
      On success the list opens with one attachment per present data frame, in
      order and built from that frame and its name, and ends with the attachments of
      the kept paths. */
  function PackageAttachments(dfs: Option<seq<Option<Table>>>, names: Option<seq<string>>,
                              paths: Option<seq<string>>, format: string, pathExists: string -> bool)
    : (r: Result<seq<Attachment>, PackagingError>)
    ensures r.Failure? <==> TablesRequested(dfs, names, format) && NameMissingFrom(dfs.value, names.value, 0)
    ensures r.Failure? ==>
      && TablesRequested(dfs, names, format)
      && var j := r.error.index;
         && j < |dfs.value| && dfs.value[j].Some? && j >= |names.value|
         && forall k :: 0 <= k < j && dfs.value[k].Some? ==> k < |names.value|
    ensures r.Success? ==>
      |r.value| == (if TablesRequested(dfs, names, format) then |PresentIndices(dfs.value, 0)| else 0)
                 + (if paths.Some? then |PathAttachments(paths.value, pathExists)| else 0)
    ensures r.Success? && TablesRequested(dfs, names, format) ==>
      var idx := PresentIndices(dfs.value, 0);
      |idx| <= |r.value| && BuiltFrom(r.value[..|idx|], idx, dfs.value, names.value, format)
    ensures r.Success? ==> TablesBeforeFiles(r.value)
    ensures r.Success? && paths.Some? ==> EndsWith(r.value, PathAttachments(paths.value, pathExists))
    ensures r.Success? && paths.None? ==> forall a :: a in r.value ==> !a.content.FileBytes?
    ensures r.Success? && !TablesRequested(dfs, names, format) ==>
      forall a :: a in r.value ==> a.content.FileBytes?
  {
    var tables :=
      if dfs.Some? && names.Some? then TableAttachmentsFrom(dfs.value, names.value, format, 0) else Success([]);
    var files := if paths.Some? then PathAttachments(paths.value, pathExists) else [];
    TablesPackaged(dfs, names, format);
    FilesPackaged(paths, pathExists);
    match tables
    case Failure(e) => Failure(e)
    case Success(t) =>
      TablesThenFiles(t, files);
      assert (t + files)[..|t|] == t;
      Success(t + files)
  }

  /** Data-frame attachments carry no file bytes; without both lists or with an
      unsupported format there are none, and no error. */
  lemma TablesPackaged(dfs: Option<seq<Option<Table>>>, names: Option<seq<string>>, format: string)
    ensures dfs.Some? && names.Some? && TableAttachmentsFrom(dfs.value, names.value, format, 0).Success? ==>
      forall a :: a in TableAttachmentsFrom(dfs.value, names.value, format, 0).value ==> !a.content.FileBytes?
    ensures dfs.Some? && names.Some? && !SupportedFormat(format) ==>
      TableAttachmentsFrom(dfs.value, names.value, format, 0) == Success([])
    ensures TablesRequested(dfs, names, format) ==>
      var t := TableAttachmentsFrom(dfs.value, names.value, format, 0);
      && (t.Failure? <==> NameMissingFrom(dfs.value, names.value, 0))
      && (t.Failure? ==>
            var j := t.error.index;
            && j < |dfs.value| && dfs.value[j].Some? && j >= |names.value|
            && forall k :: 0 <= k < j && dfs.value[k].Some? ==> k < |names.value|)
      && (t.Success? ==> BuiltFrom(t.value, PresentIndices(dfs.value, 0), dfs.value, names.value, format))
  {
    if dfs.Some? && names.Some? {
      if TableAttachmentsFrom(dfs.value, names.value, format, 0).Success? {
        TableAttachmentsAreTables(dfs.value, names.value, format, 0);
      }
      if !SupportedFormat(format) {
        UnsupportedFormatYieldsNothing(dfs.value, names.value, format, 0);
      } else {
        TableAttachmentsFailure(dfs.value, names.value, format, 0);
        if TableAttachmentsFrom(dfs.value, names.value, format, 0).Success? {
          TableAttachmentsSuccess(dfs.value, names.value, format, 0);
        }
      }
    }
  }

  lemma FilesPackaged(paths: Option<seq<string>>, pathExists: string -> bool)
    ensures paths.Some? ==> forall a :: a in PathAttachments(paths.value, pathExists) ==> a.content.FileBytes?
  {
    if paths.Some? {
      PathAttachmentsSpec(paths.value, pathExists);
    }
  }

  /** Concatenating table attachments and file attachments keeps tables first. */
  lemma TablesThenFiles(t: seq<Attachment>, files: seq<Attachment>)
    requires forall a :: a in t ==> !a.content.FileBytes?
    requires forall a :: a in files ==> a.content.FileBytes?
    ensures TablesBeforeFiles(t + files)
    ensures EndsWith(t + files, files)
  {
    var all := t + files;
    forall i, j | 0 <= i < j < |all| && all[i].content.FileBytes?
      ensures all[j].content.FileBytes?
    {
      assert all[j] == files[j - |t|];
    }
    assert all[|all| - |files|..] == files;
  }
}
