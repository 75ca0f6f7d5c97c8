/** `RunConversion` and `Convert`: which files of the source directory are
    converted, where each output goes, and what is logged. The directory
    listing, the files' rows and whether an output can be created are inputs;
    the documents written and the log lines are outputs. */
module Scheduler {
  import opened Wrappers
  import opened Playouts
  import opened RowParser
  import opened PlayoutList

  /** One entry of the source directory listing; the write time is in ticks. */
  datatype FileEntry = FileEntry(name: string, lastWriteTime: int)

  /** The arguments the converter is constructed with. */
  datatype Settings = Settings(
    sourceDir: string,
    destinationDir: string,
    convertAll: bool,
    interval: int,
    playtimeOffset: int)

  /** The outside world of one run: the rows of each readable source file,
      by name, and the output paths that cannot be created. */
  datatype FileSystem = FileSystem(contents: map<string, seq<Row>>, unwritable: set<string>)

  /** One serialised export: where it was written and its records. */
  datatype Document = Document(path: string, records: seq<Playout>)

  /** The diagnostic lines the converter writes. */
  datatype LogLine =
    | Reading(file: string)
    | RowRejected(row: nat)
    | ConvertedEntries(count: nat, path: string)
    | ConversionComplete
    | ConversionError

  // ---------------------------------------------------------------------
  // Paths (Windows rules of System.IO.Path)

  predicate IsSeparator(c: char) {
    c == '\\' || c == '/' || c == ':'
  }

  /** The position of the '.' that starts the extension: the last '.' not
      followed by a directory or volume separator. */
  function ExtensionDot(path: string): (k: Option<nat>)
    ensures k.Some? ==> k.value < |path| && path[k.value] == '.'
    ensures k.Some? ==> forall j :: k.value < j < |path| ==> path[j] != '.' && !IsSeparator(path[j])
    ensures k.None? && (forall j :: 0 <= j < |path| ==> !IsSeparator(path[j])) ==> '.' !in path
    decreases |path|
  {
    if path == [] then None
    else if path[|path| - 1] == '.' then Some(|path| - 1)
    else if IsSeparator(path[|path| - 1]) then None
    else ExtensionDot(path[..|path| - 1])
  }

  /** `FileInfo.Extension`: from the extension's '.' to the end, or empty
      when there is none or the name ends with that '.'. */
  function Extension(name: string): string {
    match ExtensionDot(name)
    case Some(k) => if k == |name| - 1 then "" else name[k..]
    case None => ""
  }

  /** `Path.ChangeExtension(path, extension)`: the path without its
      extension, then a '.' unless `extension` starts with one, then
      `extension`; the empty path is returned unchanged. */
  function ChangeExtension(path: string, extension: string): string {
    if path == [] then path
    else
      var stem := match ExtensionDot(path) case Some(k) => path[..k] case None => path;
      stem + (if extension == [] || extension[0] != '.' then "." else "") + extension
  }

  /** `Path.IsPathRooted`: a leading separator or a drive letter. */
  predicate IsRooted(path: string) {
    (|path| >= 1 && (path[0] == '\\' || path[0] == '/')) || (|path| >= 2 && path[1] == ':')
  }

  /** `Path.Combine(dir, file)`. */
  function Combine(dir: string, file: string): string {
    if file == [] then dir
    else if dir == [] then file
    else if IsRooted(file) then file
    else if IsSeparator(dir[|dir| - 1]) then dir + file
    else dir + "\\" + file
  }

  /** `Path.GetFileName`: what follows the last separator. */
  function FileName(path: string): string
    decreases |path|
  {
    if path == [] then path
    else if IsSeparator(path[|path| - 1]) then ""
    else FileName(path[..|path| - 1]) + [path[|path| - 1]]
  }

  /** Where `Convert` writes the export of source file `name`. */
  function OutputPath(destinationDir: string, name: string): string {
    Combine(destinationDir, ChangeExtension(name, "xml"))
  }

  /** A name has the extension ".csv" exactly when it ends in ".csv". */
  lemma CsvExtension(name: string)
    ensures Extension(name) == ".csv" <==> |name| >= 4 && name[|name| - 4..] == ".csv"
  {
    var n := |name|;
    if |name| >= 4 && name[n - 4..] == ".csv" {
      assert name[n - 1] == 'v' && name[n - 2] == 's' && name[n - 3] == 'c' && name[n - 4] == '.';
      assert ExtensionDot(name[..n - 3]) == Some(n - 4);
      assert name[..n - 2][..n - 3] == name[..n - 3];
      assert ExtensionDot(name[..n - 2]) == Some(n - 4);
      assert name[..n - 1][..n - 2] == name[..n - 2];
      assert ExtensionDot(name[..n - 1]) == Some(n - 4);
      assert ExtensionDot(name) == Some(n - 4);
    }
    if Extension(name) == ".csv" {
      var k := ExtensionDot(name).value;
      assert name[k..] == ".csv";
    }
  }

  /** The export of "stem.csv" is "stem.xml": only the extension changes. */
  lemma CsvOutputName(stem: string)
    ensures ChangeExtension(stem + ".csv", "xml") == stem + ".xml"
  {
    var name := stem + ".csv";
    CsvExtension(name);
    assert name[|name| - 4..] == ".csv";
    assert ExtensionDot(name) == Some(|stem|);
    assert name[..|stem|] == stem;
  }

  /** The file name of a combined path is the file combined in, when that is
      a plain name. */
  lemma {:induction false} FileNameOfCombine(dir: string, file: string)
    requires file != [] && forall j :: 0 <= j < |file| ==> !IsSeparator(file[j])
    ensures FileName(Combine(dir, file)) == file
  {
    PlainFileName(file);
    if dir != [] && !IsRooted(file) {
      var prefix := if IsSeparator(dir[|dir| - 1]) then dir else dir + "\\";
      assert Combine(dir, file) == prefix + file;
      FileNameAfterSeparator(prefix, file);
    }
  }

  lemma {:induction false} PlainFileName(file: string)
    requires forall j :: 0 <= j < |file| ==> !IsSeparator(file[j])
    ensures FileName(file) == file
    decreases |file|
  {
    if file != [] {
      PlainFileName(file[..|file| - 1]);
    }
  }

  lemma {:induction false} FileNameAfterSeparator(prefix: string, file: string)
    requires prefix != [] && IsSeparator(prefix[|prefix| - 1])
    requires forall j :: 0 <= j < |file| ==> !IsSeparator(file[j])
    ensures FileName(prefix + file) == file
    decreases |file|
  {
    if file == [] {
      assert prefix + file == prefix;
    } else {
      var init := file[..|file| - 1];
      FileNameAfterSeparator(prefix, init);
      assert (prefix + file)[..|prefix + file| - 1] == prefix + init;
      assert init + [file[|file| - 1]] == file;
    }
  }

  // ---------------------------------------------------------------------
  // Selection

  /** `Enumerable.Where`: the elements that satisfy `keep`, in order. */
  function Where<T>(s: seq<T>, keep: T -> bool): (kept: seq<T>)
    ensures |kept| <= |s|
    ensures forall i :: 0 <= i < |kept| ==> keep(kept[i])
    decreases |s|
  {
    if s == [] then [] else (if keep(s[0]) then [s[0]] else []) + Where(s[1..], keep)
  }

  /** An element survives the filter exactly when it is there and satisfies `keep`. */
  lemma {:induction false} WhereIff<T>(s: seq<T>, keep: T -> bool, x: T)
    ensures x in Where(s, keep) <==> x in s && keep(x)
    decreases |s|
  {
    if s != [] {
      WhereIff(s[1..], keep, x);
      assert s == [s[0]] + s[1..];
    }
  }

  /** Filtering keeps the order: the survivors of a concatenation are the
      survivors of each part, one after the other. */
  lemma {:induction false} WhereAppend<T>(a: seq<T>, b: seq<T>, keep: T -> bool)
    ensures Where(a + b, keep) == Where(a, keep) + Where(b, keep)
    decreases |a|
  {
    if a == [] {
      assert a + b == b;
    } else {
      WhereAppend(a[1..], b, keep);
      assert (a + b)[0] == a[0];
      assert (a + b)[1..] == a[1..] + b;
    }
  }

  /** The selection test of `RunConversion`, compared case-sensitively. */
  predicate IsCsv(f: FileEntry) {
    Extension(f.name) == ".csv"
  }

  /** `GetFiles().Where(x => x.Extension == ".csv")`: the ".csv" entries in
      listing order. */
  function Candidates(listing: seq<FileEntry>): (csv: seq<FileEntry>)
    ensures |csv| <= |listing|
    ensures forall i :: 0 <= i < |csv| ==> Extension(csv[i].name) == ".csv"
  {
    Where(listing, IsCsv)
  }

  /** An entry is a candidate exactly when it is listed with the extension ".csv". */
  lemma CandidateIff(listing: seq<FileEntry>, f: FileEntry)
    ensures f in Candidates(listing) <==> f in listing && Extension(f.name) == ".csv"
  {
    WhereIff(listing, IsCsv, f);
  }

  /** The candidates of two listings one after the other. */
  lemma CandidatesAppend(a: seq<FileEntry>, b: seq<FileEntry>)
    ensures Candidates(a + b) == Candidates(a) + Candidates(b)
  {
    WhereAppend(a, b, IsCsv);
  }

  /** `OrderByDescending(y => y.LastWriteTime).FirstOrDefault()`: the index
      of the latest-written file; the sort is stable, so among equal times
      the first in listing order. */
  function NewestIndex(files: seq<FileEntry>): (k: Option<nat>)
    ensures k.None? <==> files == []
    ensures k.Some? ==> k.value < |files|
    ensures k.Some? ==> forall j :: 0 <= j < |files| ==> files[j].lastWriteTime <= files[k.value].lastWriteTime
    ensures k.Some? ==> forall j :: 0 <= j < k.value ==> files[j].lastWriteTime < files[k.value].lastWriteTime
    decreases |files|
  {
    if files == [] then None
    else
      match NewestIndex(files[1..])
      case None => Some(0)
      case Some(r) =>
        if files[0].lastWriteTime >= files[1 + r].lastWriteTime then Some(0) else Some(1 + r)
  }

  /** At most one index is latest-written and first among equals. */
  lemma NewestUnique(files: seq<FileEntry>, k: nat)
    requires k < |files|
    requires forall j :: 0 <= j < |files| ==> files[j].lastWriteTime <= files[k].lastWriteTime
    requires forall j :: 0 <= j < k ==> files[j].lastWriteTime < files[k].lastWriteTime
    ensures NewestIndex(files) == Some(k)
  {
    var n := NewestIndex(files).value;
    assert !(n < k) && !(k < n);
  }

  // ---------------------------------------------------------------------
  // Converting one file

  /** Whether `Convert` completes for `entry`: its rows can be read and its
      export can be created. */
  predicate Succeeds(entry: FileEntry, settings: Settings, fs: FileSystem) {
    entry.name in fs.contents && OutputPath(settings.destinationDir, entry.name) !in fs.unwritable
  }

  /** The end of one `Convert` call: the export written, or an exception
      that left the log as it was when it was thrown. */
  datatype FileOutcome = Written(doc: Document, log: seq<LogLine>) | Threw(log: seq<LogLine>)

  /** One "Unable to parse row" line per reported row number. */
  function RejectionLog(reported: seq<nat>): (lines: seq<LogLine>)
    ensures |lines| == |reported|
    ensures forall i :: 0 <= i < |lines| ==> lines[i] == RowRejected(reported[i])
  {
    seq(|reported|, i requires 0 <= i < |reported| => RowRejected(reported[i]))
  }

  /** What `Convert` does with one source file. */
  function ConvertFile(entry: FileEntry, settings: Settings, fs: FileSystem): (outcome: FileOutcome)
    ensures outcome.Written? <==> Succeeds(entry, settings, fs)
    ensures ConversionComplete !in outcome.log && ConversionError !in outcome.log
    ensures outcome.log != [] && outcome.log[0] == Reading(Combine(settings.sourceDir, entry.name))
    ensures outcome.Written? ==> outcome.doc.path == OutputPath(settings.destinationDir, entry.name)
    ensures outcome.Written? ==>
              outcome.doc.records == Converted(fs.contents[entry.name], RowParse(settings.playtimeOffset))
    ensures outcome.Written? ==>
              outcome.log[|outcome.log| - 1] == ConvertedEntries(|outcome.doc.records|, outcome.doc.path)
  {
    var reading := [Reading(Combine(settings.sourceDir, entry.name))];
    if entry.name !in fs.contents then Threw(reading)
    else
      var rows := fs.contents[entry.name];
      var records := Converted(rows, RowParse(settings.playtimeOffset));
      var rejected := RejectionLog(Rejections(rows, RowParse(settings.playtimeOffset)));
      var path := OutputPath(settings.destinationDir, entry.name);
      if path in fs.unwritable then Threw(reading + rejected)
      else Written(Document(path, records), reading + rejected + [ConvertedEntries(|records|, path)])
  }

  /** `Convert(fileInfo)`. */
  method Convert(entry: FileEntry, settings: Settings, fs: FileSystem) returns (outcome: FileOutcome)
    ensures outcome == ConvertFile(entry, settings, fs)
  {
    var reading := [Reading(Combine(settings.sourceDir, entry.name))];
    if entry.name !in fs.contents {
      return Threw(reading);
    }
    var playouts, reported := GeneratePlayoutList(fs.contents[entry.name], RowParse(settings.playtimeOffset));
    var rejected := RejectionLog(reported);
    var outputPath := OutputPath(settings.destinationDir, entry.name);
    if outputPath in fs.unwritable {
      return Threw(reading + rejected);
    }
    outcome := Written(Document(outputPath, playouts), reading + rejected + [ConvertedEntries(|playouts|, outputPath)]);
  }

  /** The count in the completion line is the number of rows less the number
      of rows reported as unparsable. */
  lemma ConvertedCount(entry: FileEntry, settings: Settings, fs: FileSystem)
    requires Succeeds(entry, settings, fs)
    ensures var outcome := ConvertFile(entry, settings, fs);
      var rejectedLines := |outcome.log| - 2;
      && outcome.log[|outcome.log| - 1].count == |fs.contents[entry.name]| - rejectedLines
      && forall i :: 1 <= i <= rejectedLines ==> outcome.log[i].RowRejected?
  {
  }

  // ---------------------------------------------------------------------
  // One run

  /** The documents written and the lines logged by one run. */
  datatype Pass = Pass(documents: seq<Document>, log: seq<LogLine>)

  /** The conversion of one file by a converter with `settings`, over `fs`. */
  function FileConverter(settings: Settings, fs: FileSystem): FileEntry -> FileOutcome {
    entry => ConvertFile(entry, settings, fs)
  }

  /** Batch mode: the candidates in order; the first exception ends the
      whole pass, so "Conversion complete." is logged only when every file
      converted. */
  function BatchPass(files: seq<FileEntry>, convert: FileEntry -> FileOutcome): Pass
    decreases |files|
  {
    if files == [] then Pass([], [ConversionComplete])
    else
      match convert(files[0])
      case Threw(log) => Pass([], log + [ConversionError])
      case Written(doc, log) =>
        var rest := BatchPass(files[1..], convert);
        Pass([doc] + rest.documents, log + rest.log)
  }

  /** One step of the batch loop: when the file at `k` converts, its
      document and log lines move from the pending suffix to the prefix. */
  lemma BatchPassStep(files: seq<FileEntry>, k: nat, documents: seq<Document>, log: seq<LogLine>,
                      convert: FileEntry -> FileOutcome)
    requires k < |files| && convert(files[k]).Written?
    ensures var outcome := convert(files[k]);
      var rest := BatchPass(files[k..], convert);
      var next := BatchPass(files[k + 1..], convert);
      Pass(documents + rest.documents, log + rest.log)
        == Pass((documents + [outcome.doc]) + next.documents, (log + outcome.log) + next.log)
  {
    var outcome := convert(files[k]);
    var next := BatchPass(files[k + 1..], convert);
    assert files[k..][0] == files[k];
    assert files[k..][1..] == files[k + 1..];
    assert BatchPass(files[k..], convert) == Pass([outcome.doc] + next.documents, outcome.log + next.log);
    assert documents + ([outcome.doc] + next.documents) == (documents + [outcome.doc]) + next.documents;
    assert log + (outcome.log + next.log) == (log + outcome.log) + next.log;
  }

  /** Periodic mode, one timer tick: only the newest candidate, if any. */
  function TickPass(files: seq<FileEntry>, convert: FileEntry -> FileOutcome): Pass {
    match NewestIndex(files)
    case None => Pass([], [])
    case Some(k) =>
      match convert(files[k])
      case Threw(log) => Pass([], log + [ConversionError])
      case Written(doc, log) => Pass([doc], log)
  }

  /** One call of `RunConversion`; `listing` is `None` when the source
      directory cannot be listed. */
  function Run(settings: Settings, listing: Option<seq<FileEntry>>, fs: FileSystem): Pass {
    if listing.None? then Pass([], [ConversionError])
    else if settings.convertAll then BatchPass(Candidates(listing.value), FileConverter(settings, fs))
    else TickPass(Candidates(listing.value), FileConverter(settings, fs))
  }

  /** `RunConversion()`. */
  method RunConversion(settings: Settings, listing: Option<seq<FileEntry>>, fs: FileSystem) returns (pass: Pass)
    ensures pass == Run(settings, listing, fs)
  {
    if listing.None? {
      return Pass([], [ConversionError]);
    }
    var csvFiles := Candidates(listing.value);
    ghost var convert := FileConverter(settings, fs);
    if settings.convertAll {
      var documents: seq<Document> := [];
      var log: seq<LogLine> := [];
      var i := 0;
      while i < |csvFiles|
        invariant 0 <= i <= |csvFiles|
        invariant BatchPass(csvFiles, convert)
               == var rest := BatchPass(csvFiles[i..], convert);
                  Pass(documents + rest.documents, log + rest.log)
      {
        var outcome := Convert(csvFiles[i], settings, fs);
        assert outcome == convert(csvFiles[i]);
        assert csvFiles[i..][0] == csvFiles[i];
        if outcome.Threw? {
          assert BatchPass(csvFiles[i..], convert) == Pass([], outcome.log + [ConversionError]);
          return Pass(documents, log + (outcome.log + [ConversionError]));
        }
        BatchPassStep(csvFiles, i, documents, log, convert);
        documents := documents + [outcome.doc];
        log := log + outcome.log;
        i := i + 1;
      }
      assert csvFiles[i..] == [];
      assert documents + [] == documents;
      pass := Pass(documents, log + [ConversionComplete]);
    } else {
      var newest := NewestIndex(csvFiles);
      if newest.None? {
        return Pass([], []);
      }
      var outcome := Convert(csvFiles[newest.value], settings, fs);
      assert outcome == convert(csvFiles[newest.value]);
      if outcome.Threw? {
        return Pass([], outcome.log + [ConversionError]);
      }
      pass := Pass([outcome.doc], outcome.log);
    }
  }

  // ---------------------------------------------------------------------
  // Properties of a run

  /** When every file converts, batch mode keeps one document per file, in
      order, and ends with the completion line; the error line appears only
      if some file's own lines held it. */
  lemma {:induction false} BatchAllWritten(files: seq<FileEntry>, convert: FileEntry -> FileOutcome)
    requires forall i :: 0 <= i < |files| ==> convert(files[i]).Written?
    ensures var pass := BatchPass(files, convert);
      && |pass.documents| == |files|
      && (forall i :: 0 <= i < |files| ==> pass.documents[i] == convert(files[i]).doc)
      && pass.log != [] && pass.log[|pass.log| - 1] == ConversionComplete
      && ((forall i :: 0 <= i < |files| ==> ConversionError !in convert(files[i]).log) ==>
            ConversionError !in pass.log)
    decreases |files|
  {
    var pass := BatchPass(files, convert);
    if files == [] {
      assert pass == Pass([], [ConversionComplete]);
    } else {
      forall i | 0 <= i < |files[1..]|
        ensures convert(files[1..][i]).Written?
      {
        assert files[1..][i] == files[i + 1];
      }
      BatchAllWritten(files[1..], convert);
      var first := convert(files[0]);
      var rest := BatchPass(files[1..], convert);
      assert pass == Pass([first.doc] + rest.documents, first.log + rest.log);
      forall i | 1 <= i < |files|
        ensures pass.documents[i] == convert(files[i]).doc
      {
        assert files[1..][i - 1] == files[i];
      }
      if forall i :: 0 <= i < |files| ==> ConversionError !in convert(files[i]).log {
        forall i | 0 <= i < |files[1..]|
          ensures ConversionError !in convert(files[1..][i]).log
        {
          assert files[1..][i] == files[i + 1];
        }
        assert ConversionError !in first.log + rest.log;
      }
    }
  }

  /** When file `k` is the first that fails, batch mode keeps exactly the
      documents of the files before it, converts nothing after it, and ends
      with the error line. */
  lemma {:induction false} BatchStopsAtFailure(files: seq<FileEntry>, k: nat, convert: FileEntry -> FileOutcome)
    requires k < |files| && convert(files[k]).Threw?
    requires forall i :: 0 <= i < k ==> convert(files[i]).Written?
    ensures var pass := BatchPass(files, convert);
      && |pass.documents| == k
      && (forall i :: 0 <= i < k ==> pass.documents[i] == convert(files[i]).doc)
      && pass.log != [] && pass.log[|pass.log| - 1] == ConversionError
      && ((forall i :: 0 <= i <= k ==> ConversionComplete !in convert(files[i]).log) ==>
            ConversionComplete !in pass.log)
    decreases k
  {
    var pass := BatchPass(files, convert);
    var first := convert(files[0]);
    if k == 0 {
      assert pass == Pass([], first.log + [ConversionError]);
    } else {
      forall i | 0 <= i < k - 1
        ensures convert(files[1..][i]).Written?
      {
        assert files[1..][i] == files[i + 1];
      }
      assert files[1..][k - 1] == files[k];
      BatchStopsAtFailure(files[1..], k - 1, convert);
      var rest := BatchPass(files[1..], convert);
      assert pass == Pass([first.doc] + rest.documents, first.log + rest.log);
      forall i | 1 <= i < k
        ensures pass.documents[i] == convert(files[i]).doc
      {
        assert files[1..][i - 1] == files[i];
      }
      if forall i :: 0 <= i <= k ==> ConversionComplete !in convert(files[i]).log {
        forall i | 0 <= i <= k - 1
          ensures ConversionComplete !in convert(files[1..][i]).log
        {
          assert files[1..][i] == files[i + 1];
        }
        assert ConversionComplete !in first.log + rest.log;
      }
    }
  }

  /** A batch run over files that all convert writes each file's export
      (`ConvertFile`'s document: the records of its rows), in order, at its
      output path, and logs the completion line and no error. */
  lemma BatchWritesEveryFile(files: seq<FileEntry>, settings: Settings, fs: FileSystem)
    requires forall i :: 0 <= i < |files| ==> Succeeds(files[i], settings, fs)
    ensures var pass := BatchPass(files, FileConverter(settings, fs));
      && |pass.documents| == |files|
      && (forall i :: 0 <= i < |files| ==>
            && pass.documents[i] == ConvertFile(files[i], settings, fs).doc
            && pass.documents[i].path == OutputPath(settings.destinationDir, files[i].name))
      && pass.log[|pass.log| - 1] == ConversionComplete
      && ConversionError !in pass.log
  {
    var convert := FileConverter(settings, fs);
    forall i | 0 <= i < |files|
      ensures convert(files[i]).Written? && ConversionError !in convert(files[i]).log
    {
      assert convert(files[i]) == ConvertFile(files[i], settings, fs);
    }
    BatchAllWritten(files, convert);
    forall i | 0 <= i < |files|
      ensures var doc := BatchPass(files, convert).documents[i];
        doc == ConvertFile(files[i], settings, fs).doc && doc.path == OutputPath(settings.destinationDir, files[i].name)
    {
      assert convert(files[i]) == ConvertFile(files[i], settings, fs);
    }
  }

  /** A batch run whose file `k` is the first that cannot be read or
      written keeps the exports of the files before it only, and logs the
      error line and never the completion line. */
  lemma BatchStopsAtUnconvertible(files: seq<FileEntry>, k: nat, settings: Settings, fs: FileSystem)
    requires k < |files| && !Succeeds(files[k], settings, fs)
    requires forall i :: 0 <= i < k ==> Succeeds(files[i], settings, fs)
    ensures var pass := BatchPass(files, FileConverter(settings, fs));
      && |pass.documents| == k
      && (forall i :: 0 <= i < k ==>
            pass.documents[i].path == OutputPath(settings.destinationDir, files[i].name))
      && pass.log[|pass.log| - 1] == ConversionError
      && ConversionComplete !in pass.log
  {
    var convert := FileConverter(settings, fs);
    forall i | 0 <= i <= k
      ensures (i < k ==> convert(files[i]).Written?) && ConversionComplete !in convert(files[i]).log
    {
      assert convert(files[i]) == ConvertFile(files[i], settings, fs);
    }
    assert convert(files[k]) == ConvertFile(files[k], settings, fs);
    BatchStopsAtFailure(files, k, convert);
    forall i | 0 <= i < k
      ensures BatchPass(files, convert).documents[i].path == OutputPath(settings.destinationDir, files[i].name)
    {
      assert convert(files[i]) == ConvertFile(files[i], settings, fs);
    }
  }

  /** A timer tick writes at most one export, and only that of the
      latest-written candidate (the first of them on a tie); with no
      candidate it does nothing at all. When that candidate converts, its
      export and log lines are the whole pass; when it fails, nothing is
      written and the pass ends with the error line. */
  lemma TickConvertsNewest(files: seq<FileEntry>, settings: Settings, fs: FileSystem)
    ensures var pass := TickPass(files, FileConverter(settings, fs));
      && |pass.documents| <= 1
      && (files == [] ==> pass == Pass([], []))
      && (forall d :: d in pass.documents ==>
            exists k :: 0 <= k < |files| && d.path == OutputPath(settings.destinationDir, files[k].name)
              && (forall j :: 0 <= j < |files| ==> files[j].lastWriteTime <= files[k].lastWriteTime)
              && (forall j :: 0 <= j < k ==> files[j].lastWriteTime < files[k].lastWriteTime))
    ensures var pass := TickPass(files, FileConverter(settings, fs));
      forall k :: NewestIndex(files) == Some(k) ==>
        && (Succeeds(files[k], settings, fs) ==> pass == Pass([ConvertFile(files[k], settings, fs).doc], ConvertFile(files[k], settings, fs).log))
        && (!Succeeds(files[k], settings, fs) ==>
              pass.documents == [] && pass.log != [] && pass.log[|pass.log| - 1] == ConversionError)
  {
    var pass := TickPass(files, FileConverter(settings, fs));
    if NewestIndex(files).Some? {
      var k := NewestIndex(files).value;
      assert FileConverter(settings, fs)(files[k]) == ConvertFile(files[k], settings, fs);
    }
    if pass.documents != [] {
      var k := NewestIndex(files).value;
      assert FileConverter(settings, fs)(files[k]) == ConvertFile(files[k], settings, fs);
      assert pass.documents[0].path == OutputPath(settings.destinationDir, files[k].name);
    }
  }

  /** Of two candidates with different write times, a tick converts the
      later one. */
  lemma TickOfTwo(a: FileEntry, b: FileEntry, settings: Settings, fs: FileSystem)
    requires a.lastWriteTime < b.lastWriteTime && Succeeds(b, settings, fs)
    ensures TickPass([a, b], FileConverter(settings, fs)).documents == [ConvertFile(b, settings, fs).doc]
  {
    NewestUnique([a, b], 1);
    assert FileConverter(settings, fs)([a, b][1]) == ConvertFile(b, settings, fs);
  }
}
