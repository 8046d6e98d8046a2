/** The service around the pipeline: the `tickets` table, the background job and its completion
    callback, and the request handlers that read them. */
module App {
  import opened Wrappers
  import opened Pipeline
  import opened Archive

  // ---------------------------------------------------------------------------------------------
  // Paths and file names

  predicate IsAbsolute(p: string) { |p| > 0 && p[0] == '/' }

  /** The last component of a path: `path.split(p)[1]`, also `path.basename(p)`. */
  function Basename(p: string): (b: string)
    ensures |b| <= |p| && b == p[|p| - |b|..]
    ensures forall i :: 0 <= i < |b| ==> b[i] != '/'
    ensures |b| < |p| ==> p[|p| - |b| - 1] == '/'
  {
    if p == [] || p[|p| - 1] == '/' then [] else Basename(p[..|p| - 1]) + [p[|p| - 1]]
  }

  /** `s.split('.')[0]`: everything before the first dot. */
  function BeforeFirstDot(s: string): (r: string)
    ensures r <= s
    ensures forall i :: 0 <= i < |r| ==> r[i] != '.'
    ensures |r| < |s| ==> s[|r|] == '.'
  {
    if s == [] || s[0] == '.' then [] else [s[0]] + BeforeFirstDot(s[1..])
  }

  const NORMALIZED_SUFFIX := "_normalized"

  /** The output name of `enqueue` and of the prompt branch: the uploaded file's name up to its first
      dot, then `_normalized`. */
  function FileNameOf(srcPath: string): (name: string)
    ensures |name| >= |NORMALIZED_SUFFIX| && name[|name| - |NORMALIZED_SUFFIX|..] == NORMALIZED_SUFFIX
    ensures var b, stem := Basename(srcPath), name[..|name| - |NORMALIZED_SUFFIX|];
      stem <= b && (forall i :: 0 <= i < |stem| ==> stem[i] != '.') && (|stem| < |b| ==> b[|stem|] == '.')
  {
    BeforeFirstDot(Basename(srcPath)) + NORMALIZED_SUFFIX
  }

  /** The name keeps no directory and no extension: it has no `/` at all, and no `.` before its
      suffix. */
  lemma FileNameHasNoDirectory(srcPath: string)
    ensures var name := FileNameOf(srcPath);
      (forall i :: 0 <= i < |name| ==> name[i] != '/') &&
      (forall i :: 0 <= i < |name| - |NORMALIZED_SUFFIX| ==> name[i] != '.')
  {
    var b := Basename(srcPath);
    var stem := BeforeFirstDot(b);
    assert forall i :: 0 <= i < |stem| ==> stem[i] == b[i];
  }

  const UNSUPPORTED_TYPE := "Not supported file type, the supported ones are csv and shp"

  /** `store_gdf`'s destination: `<dir>/<name>.csv`, or the zip `<dir>/<name>.zip` of a shapefile
      directory; any other type aborts with status 400. */
  function StoredPath(dir: string, resourceType: string, fileName: string): (p: Option<string>)
    ensures p.Some? <==> resourceType == "csv" || resourceType == "shp"
    ensures resourceType == "csv" ==> p == Some(PathJoin(dir, fileName + ".csv"))
    ensures resourceType == "shp" ==> p == Some(PathJoin(dir, fileName) + ".zip")
  {
    if resourceType == "csv" then Some(PathJoin(dir, fileName + ".csv"))
    else if resourceType == "shp" then Some(PathJoin(dir, fileName) + ".zip")
    else None
  }

  /** A name without `/` after a directory part that is empty or ends in `/` is the basename. */
  lemma {:induction false} BasenameAfterSlash(a: string, b: string)
    requires a == [] || a[|a| - 1] == '/'
    requires forall i :: 0 <= i < |b| ==> b[i] != '/'
    ensures Basename(a + b) == b
    decreases |b|
  {
    if b == [] {
      assert a + b == a;
    } else {
      var ab, init := a + b, b[..|b| - 1];
      assert ab[..|ab| - 1] == a + init && ab[|ab| - 1] == b[|b| - 1];
      BasenameAfterSlash(a, init);
      assert Basename(ab) == Basename(a + init) + [b[|b| - 1]];
      assert b == init + [b[|b| - 1]];
    }
  }

  /** The stored file is named after the output name: `<name>.csv` or `<name>.zip`, when the name
      has no `/` and is not absolute. */
  lemma StoredFileName(dir: string, resourceType: string, fileName: string)
    requires resourceType == "csv" || resourceType == "shp"
    requires fileName != [] && forall i :: 0 <= i < |fileName| ==> fileName[i] != '/'
    ensures Basename(StoredPath(dir, resourceType, fileName).value) ==
      fileName + (if resourceType == "csv" then ".csv" else ".zip")
  {
    var ext := if resourceType == "csv" then ".csv" else ".zip";
    var d := if dir == [] || dir[|dir| - 1] == '/' then dir else dir + "/";
    assert d == [] || d[|d| - 1] == '/';
    if resourceType == "csv" {
      assert PathJoin(dir, fileName + ext) == d + (fileName + ext);
      BasenameAfterSlash(d, fileName + ext);
    } else {
      assert PathJoin(dir, fileName) + ext == d + (fileName + ext);
      BasenameAfterSlash(d, fileName + ext);
    }
  }

  /** Joining onto an absolute path gives an absolute path. */
  lemma JoinAbsolute(a: string, b: string)
    requires IsAbsolute(a)
    ensures IsAbsolute(PathJoin(a, b))
  {
    if !IsAbsolute(b) {
      assert a <= PathJoin(a, b);
    }
  }

  /** Under an absolute output directory every stored file has an absolute path, so `resource`'s
      `path.join(OUTPUT_DIR, result)` finds it again. */
  lemma StoredPathFoundAgain(outputDir: string, dir: string, resourceType: string, fileName: string)
    requires IsAbsolute(dir) && StoredPath(dir, resourceType, fileName).Some?
    ensures var p := StoredPath(dir, resourceType, fileName).value;
      IsAbsolute(p) && PathJoin(outputDir, p) == p
  {
    JoinAbsolute(dir, fileName + ".csv");
    JoinAbsolute(dir, fileName);
  }

  /** Under a relative output directory the stored path already starts with that directory, and
      `resource` prefixes it a second time, so it looks for a different file. */
  lemma RelativeOutputDirDoubled(outputDir: string, rel: string)
    requires outputDir != [] && !IsAbsolute(outputDir) && !IsAbsolute(rel)
    ensures var stored := PathJoin(outputDir, rel);
      PathJoin(outputDir, stored) != stored
  {
  }

  // ---------------------------------------------------------------------------------------------
  // Loading, jobs and responses

  /** What reading the upload gives: a frame, or the fault that stopped it. */
  datatype Loaded = Loaded(table: ShapedTable) | LoadFailed(fault: Fault)

  /** The service's surroundings: `OUTPUT_DIR`, `stat(path).st_size`, the readers `get_geodataframe`
      calls for csv and shp, and the pipeline's libraries. */
  datatype Environment = Environment(
    outputDir: string,
    fileSize: string -> nat,
    load: (NormalizeForm, string) -> Loaded,
    lib: Library)

  /** `get_geodataframe`: only csv and shp are read; any other type aborts with status 400. */
  function LoadFrame(form: NormalizeForm, srcPath: string, env: Environment): (r: Loaded)
    ensures r.Loaded? ==> form.resourceType == "csv" || form.resourceType == "shp"
    ensures form.resourceType != "csv" && form.resourceType != "shp" ==> r == LoadFailed(BadRequest(UNSUPPORTED_TYPE))
  {
    if form.resourceType == "csv" || form.resourceType == "shp" then env.load(form, srcPath)
    else LoadFailed(BadRequest(UNSUPPORTED_TYPE))
  }

  /** A submitted deferred request. */
  datatype Job = Job(ticket: string, srcPath: string, form: NormalizeForm)

  /** The tuple `enqueue` returns: `(ticket, gdf, type, name, 1, None)` or
      `(ticket, None, None, None, 0, str(e))`. */
  datatype JobResult =
    | JobSucceeded(ticket: string, gdf: Table, resourceType: string, fileName: string)
    | JobFailed(ticket: string, comment: string)

  /** A row of the `tickets` table. `success` is stored as 0 or 1. */
  datatype TicketRow = TicketRow(
    requestedTime: int,
    filesize: nat,
    status: int,
    success: Option<int>,
    executionTime: Option<int>,
    comment: Option<string>,
    result: Option<string>)

  /** The row `INSERT INTO tickets (ticket, filesize)` creates: every other column at its
      default. */
  function PendingRow(now: int, filesize: nat): TicketRow {
    TicketRow(now, filesize, 0, None, None, None, None)
  }

  /** A row is pending with every outcome column null, or completed with a flag, a time, a comment
      exactly when it failed, and a stored file exactly when it succeeded. */
  predicate RowConsistent(row: TicketRow, files: map<string, Table>) {
    (row.status == 0 && row.success.None? && row.executionTime.None? && row.comment.None? && row.result.None?) ||
    (row.status == 1 && (row.success == Some(0) || row.success == Some(1)) && row.executionTime.Some? &&
     (row.success == Some(1) <==> row.result.Some?) &&
     (row.success == Some(0) <==> row.comment.Some?) &&
     (row.result.Some? ==> row.result.value in files))
  }

  /** The HTTP answers: a file download, the 202 of a deferred request, a status report, a plain
      message with its status code, and the 500 of an uncaught exception. */
  datatype Response =
    | SendFile(name: string, content: Table)
    | Accepted(ticket: string, endpoint: string, status: string)
    | Report(completed: bool, success: Option<bool>, requested: int, executionTime: Option<int>,
             comment: Option<string>)
    | Message(code: nat, text: string)
    | InternalError

  /** How an uncaught fault reaches the client: `abort(400, …)` as its status, anything else as a
      500. */
  function FaultResponse(f: Fault): (r: Response)
    ensures f.BadRequest? ==> r == Message(400, f.description)
    ensures !f.BadRequest? ==> r == InternalError
  {
    if f.BadRequest? then Message(400, f.description) else InternalError
  }

  /** `r` is what `enqueue` returns for this upload: the loader's or the pipeline's fault as its
      message, or the normalised frame with its type and output name. */
  ghost predicate IsJobOutcome(r: JobResult, ticket: string, srcPath: string, form: NormalizeForm,
                               env: Environment)
  {
    var loaded := LoadFrame(form, srcPath, env);
    if loaded.LoadFailed? then r == JobFailed(ticket, FaultMessage(loaded.fault, env.lib))
    else
      var s := ValueSteps(loaded.table, form, env.lib);
      if s.fault.Some? then r == JobFailed(ticket, FaultMessage(s.fault.value, env.lib))
      else r.JobSucceeded? && r.ticket == ticket && r.resourceType == form.resourceType &&
           r.fileName == FileNameOf(srcPath) && IsNormalizedTable(r.gdf, loaded.table, form, env.lib)
  }

  /** `resp` is what the prompt branch of `normalize` answers: the normalised frame as a download
      named after the stored file, or the fault that escaped. */
  ghost predicate IsPromptResponse(resp: Response, srcDir: string, srcFile: string, form: NormalizeForm,
                                   env: Environment)
  {
    var loaded := LoadFrame(form, srcFile, env);
    if loaded.LoadFailed? then resp == FaultResponse(loaded.fault)
    else
      var s := ValueSteps(loaded.table, form, env.lib);
      if s.fault.Some? then resp == FaultResponse(s.fault.value)
      else
        var stored := StoredPath(srcDir, form.resourceType, FileNameOf(srcFile));
        stored.Some? && resp.SendFile? && resp.name == Basename(stored.value) &&
        IsNormalizedTable(resp.content, loaded.table, form, env.lib)
  }

  /** A job's outcome decides what it leaves behind. */
  lemma JobOutcomeCases(r: JobResult, ticket: string, srcPath: string, form: NormalizeForm, env: Environment)
    requires IsJobOutcome(r, ticket, srcPath, form, env)
    ensures r.ticket == ticket
    ensures r.JobSucceeded? <==>
      LoadFrame(form, srcPath, env).Loaded? &&
      ValueSteps(LoadFrame(form, srcPath, env).table, form, env.lib).fault.None?
    ensures r.JobSucceeded? ==> StoredPath("", r.resourceType, r.fileName).Some?
  {
  }

  /** The row `executor_callback`'s update leaves: its result, success flag, completed status,
      execution time since the request, and comment; the request time and file size stay. */
  function CompletedRow(row: TicketRow, r: JobResult, filepath: Option<string>, now: int): (c: TicketRow)
    ensures c.requestedTime == row.requestedTime && c.filesize == row.filesize
  {
    row.(result := filepath,
         success := Some(if r.JobSucceeded? then 1 else 0),
         status := 1,
         executionTime := Some(now - row.requestedTime),
         comment := if r.JobFailed? then Some(r.comment) else None)
  }

  /** The callback completes a row consistently when a successful job's file is stored. */
  lemma CompletedRowConsistent(row: TicketRow, r: JobResult, filepath: Option<string>, now: int,
                               files: map<string, Table>)
    requires filepath.Some? <==> r.JobSucceeded?
    requires filepath.Some? ==> filepath.value in files
    ensures RowConsistent(CompletedRow(row, r, filepath, now), files)
  {
  }

  /** The service state's invariant, on the values of its fields. */
  predicate ServiceInvariant(tickets: map<string, TicketRow>, queue: seq<Job>, finished: seq<JobResult>,
                             files: map<string, Table>)
  {
    (forall t :: t in tickets ==> RowConsistent(tickets[t], files)) &&
    (forall i :: 0 <= i < |queue| ==> queue[i].ticket !in tickets) &&
    (forall i, j :: 0 <= i < j < |queue| ==> queue[i].ticket != queue[j].ticket) &&
    (forall i :: 0 <= i < |finished| ==>
       finished[i].ticket in tickets && tickets[finished[i].ticket].status == 0) &&
    (forall i, j :: 0 <= i < j < |finished| ==> finished[i].ticket != finished[j].ticket)
  }

  /** Starting job `i` keeps the invariant: its row is inserted pending and its result joins the
      finished jobs. */
  lemma RunJobKeeps(tickets: map<string, TicketRow>, queue: seq<Job>, finished: seq<JobResult>,
                    files: map<string, Table>, i: nat, now: int, filesize: nat, r: JobResult)
    requires ServiceInvariant(tickets, queue, finished, files) && i < |queue|
    requires r.ticket == queue[i].ticket
    ensures ServiceInvariant(tickets[r.ticket := PendingRow(now, filesize)], queue[..i] + queue[i + 1..],
                             finished + [r], files)
  {
    var rest := queue[..i] + queue[i + 1..];
    assert forall k :: 0 <= k < |rest| ==> rest[k] == queue[if k < i then k else k + 1];
    var fin := finished + [r];
    assert forall k :: 0 <= k < |finished| ==> fin[k] == finished[k];
  }

  /** Completing finished job `j` keeps the invariant, whether the callback updates the job's row
      to a consistent completed row or leaves the table alone; files are only added or replaced. */
  lemma CompleteKeeps(tickets: map<string, TicketRow>, queue: seq<Job>, finished: seq<JobResult>,
                      files: map<string, Table>, j: nat, tickets': map<string, TicketRow>,
                      files': map<string, Table>)
    requires ServiceInvariant(tickets, queue, finished, files) && j < |finished|
    requires forall p :: p in files ==> p in files'
    requires tickets' == tickets ||
             (finished[j].ticket in tickets && tickets'.Keys == tickets.Keys &&
              RowConsistent(tickets'[finished[j].ticket], files') &&
              forall t :: t in tickets && t != finished[j].ticket ==> tickets'[t] == tickets[t])
    ensures ServiceInvariant(tickets', queue, finished[..j] + finished[j + 1..], files')
  {
    var rest := finished[..j] + finished[j + 1..];
    assert forall k :: 0 <= k < |rest| ==> rest[k] == finished[if k < j then k else k + 1];
    forall t | t in tickets
      ensures RowConsistent(tickets[t], files')
    {
    }
  }

  // ---------------------------------------------------------------------------------------------
  // The service

  /** The state the handlers share: the `tickets` table, the executor's submitted and finished jobs,
      and the files written below the output directory. */
  class Service {
    var tickets: map<string, TicketRow>
    var queue: seq<Job>
    var finished: seq<JobResult>
    var files: map<string, Table>

    /** Every row consistent; submitted jobs have no row yet; finished jobs have a pending row;
        no ticket is queued or finished twice. */
    ghost predicate Valid()
      reads this
    {
      ServiceInvariant(tickets, queue, finished, files)
    }

    /** A ticket nothing knows yet, as `uuid4` provides. */
    ghost predicate FreshTicket(ticket: string)
      reads this
    {
      ticket !in tickets && forall i :: 0 <= i < |queue| ==> queue[i].ticket != ticket
    }

    /** Every completed row is as it was. */
    twostate predicate CompletedRowsKept()
      reads this
    {
      forall t :: t in old(tickets) && old(tickets)[t].status == 1 ==>
        t in tickets && tickets[t] == old(tickets)[t]
    }

    constructor ()
      ensures tickets == map[] && queue == [] && finished == [] && files == map[]
      ensures Valid()
    {
      tickets, queue, finished, files := map[], [], [], map[];
    }

    /** `status(ticket)`: 400 without a ticket, 404 without a row, else the row's state. */
    function Status(ticket: Option<string>): (r: Response)
      reads this
      ensures ticket.None? ==> r == Message(400, "Ticket is missing.")
      ensures ticket.Some? && ticket.value !in tickets ==> r == Message(404, "Not found.")
      ensures ticket.Some? && ticket.value in tickets ==>
        var row := tickets[ticket.value];
        r.Report? && (r.completed <==> row.status != 0) &&
        (r.success.None? <==> row.success.None?) &&
        (row.success.Some? ==> (r.success.value <==> row.success.value != 0)) &&
        r.requested == row.requestedTime && r.executionTime == row.executionTime && r.comment == row.comment
    {
      if ticket.None? then Message(400, "Ticket is missing.")
      else if ticket.value in tickets then
        var row := tickets[ticket.value];
        Report(row.status != 0, if row.success.None? then None else Some(row.success.value != 0),
               row.requestedTime, row.executionTime, row.comment)
      else Message(404, "Not found.")
    }

    /** `resource(ticket)`: 400 without a ticket, 404 without a row, a 500 when the row has no
        result (`path.join` of None raises), 507 when the file is absent, else the file. */
    function Resource(ticket: Option<string>, outputDir: string): (r: Response)
      reads this
      ensures ticket.None? ==> r == Message(400, "Resource ticket is missing.")
      ensures ticket.Some? && ticket.value !in tickets ==> r == Message(404, "Not found.")
      ensures ticket.Some? && ticket.value in tickets && tickets[ticket.value].result.None? ==> r == InternalError
      ensures r.SendFile? ==> exists p :: p in files && r.content == files[p] && r.name == Basename(p)
      ensures ticket.Some? && ticket.value in tickets && tickets[ticket.value].result.Some? ==>
        var f := PathJoin(outputDir, tickets[ticket.value].result.value);
        (r == Message(507, "Resource does not exist.") <==> f !in files) &&
        (f in files <==> r.SendFile?) &&
        (r.SendFile? ==> r.name == Basename(f) && r.content == files[f])
    {
      if ticket.None? then Message(400, "Resource ticket is missing.")
      else if ticket.value !in tickets then Message(404, "Not found.")
      else match tickets[ticket.value].result
        case None => InternalError
        case Some(result) =>
          var file := PathJoin(outputDir, result);
          if file !in files then Message(507, "Resource does not exist.")
          else SendFile(Basename(file), files[file])
    }

    /** `enqueue`: the row is inserted first, with only its ticket and file size, and only then is
        the upload read and normalised. */
    method Enqueue(ticket: string, srcPath: string, form: NormalizeForm, env: Environment, now: int)
      returns (r: JobResult)
      requires ticket !in tickets
      modifies this
      ensures tickets == old(tickets)[ticket := PendingRow(now, env.fileSize(srcPath))]
      ensures queue == old(queue) && finished == old(finished) && files == old(files)
      ensures IsJobOutcome(r, ticket, srcPath, form, env)
    {
      var filesize := env.fileSize(srcPath);
      tickets := tickets[ticket := PendingRow(now, filesize)];
      var loaded := LoadFrame(form, srcPath, env);
      if loaded.LoadFailed? {
        return JobFailed(ticket, FaultMessage(loaded.fault, env.lib));
      }
      var gdf := new Frame(loaded.table);
      var fault := gdf.NormalizeGdf(form, env.lib);
      if fault.Some? {
        return JobFailed(ticket, FaultMessage(fault.value, env.lib));
      }
      var fileName := FileNameOf(srcPath);
      r := JobSucceeded(ticket, gdf.Snapshot(), form.resourceType, fileName);
    }

    /** The file `executor_callback` stores a result in: `<OUTPUT_DIR>/<today>/<ticket>/…`; a
        failed job stores nothing. */
    function OutputFile(r: JobResult, env: Environment, today: string): Option<string> {
      if r.JobFailed? then None
      else StoredPath(PathJoin(env.outputDir, PathJoin(today, r.ticket)), r.resourceType, r.fileName)
    }

    /** `executor_callback`: store the frame of a successful job, then one update of the job's row
        setting its result, success flag, completed status, execution time and comment. When storing
        aborts, or the row is missing, the callback raises before the update. */
    method ExecutorCallback(r: JobResult, env: Environment, today: string, now: int)
      modifies this
      ensures queue == old(queue) && finished == old(finished)
      ensures r.JobSucceeded? && OutputFile(r, env, today).None? ==>
        tickets == old(tickets) && files == old(files)
      ensures r.JobSucceeded? && OutputFile(r, env, today).Some? ==>
        files == old(files)[OutputFile(r, env, today).value := r.gdf]
      ensures r.JobFailed? ==> files == old(files)
      ensures !(r.JobSucceeded? && OutputFile(r, env, today).None?) ==>
        if r.ticket !in old(tickets) then tickets == old(tickets)
        else tickets == old(tickets)[r.ticket := CompletedRow(old(tickets)[r.ticket], r, OutputFile(r, env, today), now)]
    {
      var filepath: Option<string> := None;
      if r.JobSucceeded? {
        var outputPath := PathJoin(env.outputDir, PathJoin(today, r.ticket));
        var stored := StoredPath(outputPath, r.resourceType, r.fileName);
        if stored.None? {
          return;
        }
        files := files[stored.value := r.gdf];
        filepath := stored;
      }
      if r.ticket !in tickets {
        return;
      }
      var row := tickets[r.ticket];
      var executionTime := now - row.requestedTime;
      tickets := tickets[r.ticket := row.(
        result := filepath,
        success := Some(if r.JobSucceeded? then 1 else 0),
        status := 1,
        executionTime := Some(executionTime),
        comment := if r.JobFailed? then Some(r.comment) else None)];
      assert tickets[r.ticket] == CompletedRow(row, r, filepath, now);
    }

    /** The `normalize` handler after validation: the upload is saved below
        `<tmpDir>/src/<ticket>/`; in prompt mode it is normalised inline and returned, in deferred
        mode a job is submitted and the ticket's endpoints are returned with 202. */
    method Normalize(form: NormalizeForm, ticket: string, tmpDir: string, uploadName: string, env: Environment)
      returns (resp: Response)
      requires Valid() && FreshTicket(ticket)
      modifies this
      ensures Valid() && CompletedRowsKept()
      ensures tickets == old(tickets) && finished == old(finished) && files == old(files)
      ensures var srcDir := PathJoin(PathJoin(tmpDir, "src"), ticket);
        form.response == "prompt" ==>
          queue == old(queue) && IsPromptResponse(resp, srcDir, PathJoin(srcDir, uploadName), form, env)
      ensures var srcDir := PathJoin(PathJoin(tmpDir, "src"), ticket);
        form.response != "prompt" ==>
          queue == old(queue) + [Job(ticket, PathJoin(srcDir, uploadName), form)] &&
          resp == Accepted(ticket, "/resource/" + ticket, "/status/" + ticket)
      ensures Status(Some(ticket)) == Message(404, "Not found.")
    {
      var srcDir := PathJoin(PathJoin(tmpDir, "src"), ticket);
      var srcFile := PathJoin(srcDir, uploadName);
      if form.response == "prompt" {
        var loaded := LoadFrame(form, srcFile, env);
        if loaded.LoadFailed? {
          return FaultResponse(loaded.fault);
        }
        var gdf := new Frame(loaded.table);
        var fault := gdf.NormalizeGdf(form, env.lib);
        if fault.Some? {
          return FaultResponse(fault.value);
        }
        var fileName := FileNameOf(srcFile);
        var outputFile := StoredPath(srcDir, form.resourceType, fileName);
        resp := SendFile(Basename(outputFile.value), gdf.Snapshot());
      } else {
        queue := queue + [Job(ticket, srcFile, form)];
        resp := Accepted(ticket, "/resource/" + ticket, "/status/" + ticket);
      }
    }

    /** The executor starts a submitted job: it leaves the queue, `enqueue` runs, and its result
        waits for the callback. Until then the ticket reports a pending state. */
    method RunJob(i: nat, env: Environment, now: int)
      requires Valid() && i < |queue|
      modifies this
      ensures Valid() && CompletedRowsKept()
      ensures queue == old(queue[..i] + queue[i + 1..]) && files == old(files)
      ensures var job := old(queue[i]);
        tickets == old(tickets)[job.ticket := PendingRow(now, env.fileSize(job.srcPath))] &&
        |finished| == |old(finished)| + 1 && finished[..|old(finished)|] == old(finished) &&
        IsJobOutcome(finished[|old(finished)|], job.ticket, job.srcPath, job.form, env) &&
        Status(Some(job.ticket)) == Report(false, None, now, None, None)
    {
      var job := queue[i];
      ghost var tickets0, queue0, finished0 := tickets, queue, finished;
      queue := queue[..i] + queue[i + 1..];
      var r := Enqueue(job.ticket, job.srcPath, job.form, env, now);
      JobOutcomeCases(r, job.ticket, job.srcPath, job.form, env);
      finished := finished + [r];
      RunJobKeeps(tickets0, queue0, finished0, files, i, now, env.fileSize(job.srcPath), r);
    }

    /** The executor runs the callback of a finished job, once: the job leaves the finished list and
        its row becomes completed (unless storing the frame aborts). */
    method Complete(j: nat, env: Environment, today: string, now: int)
      requires Valid() && j < |finished|
      modifies this
      ensures Valid() && CompletedRowsKept()
      ensures queue == old(queue) && finished == old(finished[..j] + finished[j + 1..])
      ensures var r := old(finished[j]);
        r.JobSucceeded? && OutputFile(r, env, today).None? ==> tickets == old(tickets)
      ensures var r := old(finished[j]);
        files == if r.JobSucceeded? && OutputFile(r, env, today).Some?
                 then old(files)[OutputFile(r, env, today).value := r.gdf] else old(files)
      ensures var r := old(finished[j]);
        !(r.JobSucceeded? && OutputFile(r, env, today).None?) ==>
          r.ticket in old(tickets) &&
          tickets == old(tickets)[r.ticket := CompletedRow(old(tickets)[r.ticket], r, OutputFile(r, env, today), now)]
      ensures var r := old(finished[j]);
        !(r.JobSucceeded? && OutputFile(r, env, today).None?) ==>
          var report := Status(Some(r.ticket));
          report.Report? && report.completed && report.success == Some(r.JobSucceeded?)
      ensures var r := old(finished[j]);
        r.JobFailed? ==> Resource(Some(r.ticket), env.outputDir) == InternalError &&
                         Status(Some(r.ticket)).comment == Some(r.comment)
      ensures var r := old(finished[j]);
        r.JobSucceeded? && OutputFile(r, env, today).Some? && IsAbsolute(env.outputDir) ==>
          Resource(Some(r.ticket), env.outputDir) ==
            SendFile(Basename(OutputFile(r, env, today).value), r.gdf)
    {
      var r := finished[j];
      ghost var tickets0, files0, finished0 := tickets, files, finished;
      finished := finished[..j] + finished[j + 1..];
      ExecutorCallback(r, env, today, now);
      if tickets != tickets0 {
        CompletedRowConsistent(tickets0[r.ticket], r, OutputFile(r, env, today), now, files);
      }
      CompleteKeeps(tickets0, queue, finished0, files0, j, tickets, files);
      if r.JobSucceeded? && OutputFile(r, env, today).Some? && IsAbsolute(env.outputDir) {
        JoinAbsolute(env.outputDir, PathJoin(today, r.ticket));
        StoredPathFoundAgain(env.outputDir, PathJoin(env.outputDir, PathJoin(today, r.ticket)),
                             r.resourceType, r.fileName);
      }
    }
  }
}
