/**
 The task table (app.py `TASKS`) and the three HTTP handlers that read or
 write it: `upload` creates a pending task, `progress` reports a task's
 record, `download` hands out the archive of a finished task.
 */
module Registry {
  import opened Wrappers
  import opened Paths
  import Tasks
  import Fetcher

  /** A refused request: the HTTP status code and the error text of the JSON body. */
  datatype Rejection = Rejection(code: nat, error: string)

  /** The body of a progress answer. */
  datatype Report = Report(status: string, progress: nat, error: string,
                           columns: map<string, nat>, total: nat, done: nat)

  /** A download answer: the file to send and the name it is offered under. */
  datatype Archive = Archive(path: string, filename: string)

  const UnknownTask: Rejection := Rejection(404, "任务不存在")
  const NotFinished: Rejection := Rejection(400, "任务未完成")

  class Registry {
    /** Every task by its id. */
    var tasks: map<string, Tasks.Task>

    /**
     Each task is in a consistent state, is filed under its own id and
     saves under its own work directory.
     */
    ghost predicate Valid()
      reads this, tasks.Values
    {
      forall id :: id in tasks ==>
        && tasks[id].id == id && tasks[id].Valid()
        && Tasks.SavesIn(tasks[id].save, tasks[id].workdir)
    }

    constructor()
      ensures Valid() && tasks == map[]
    {
      tasks := map[];
    }

    /**
     `upload`: files a new pending task under `id` in the work directory
     `workdir`, every declared column counted 0. The id and the directory
     are what the uuid and temporary-directory calls gave; an entry
     already under `id` is replaced.
     */
    method Upload(id: string, workdir: string, declared: seq<string>) returns (t: Tasks.Task)
      requires Valid()
      modifies this
      ensures Valid()
      ensures fresh(t) && tasks == old(tasks)[id := t]
      ensures t.id == id && t.workdir == workdir && t.declared == declared
      ensures t.status == Tasks.Pending && t.progress == 0 && t.error == ""
      ensures t.total == 0 && t.done == 0 && t.zip == ""
      ensures t.columns == map c | c in declared :: 0
    {
      t := new Tasks.Task(id, workdir, declared);
      tasks := tasks[id := t];
    }

    /**
     The background run of the task filed under `id` (see `Tasks.Task.Run`):
     the task ends in `done` or `error` as the run decides, with the counts,
     totals and messages the run records; no other task changes.
     */
    method RunTask(id: string, sheet: Result<Tasks.Sheet, string>, disk: set<string>,
                   attempts: nat -> Fetcher.Attempts, archiveError: Option<string>)
      returns (results: seq<bool>, gets: seq<nat>, disk': set<string>)
      requires Valid() && id in tasks && tasks[id].status == Tasks.Pending
      modifies tasks[id]
      ensures Valid() && tasks == old(tasks)
      ensures var t := tasks[id];
        && (t.status == Tasks.Done || t.status == Tasks.Error)
        && (t.status == Tasks.Done ==> t.zip == Tasks.ZipPath(t.workdir, id))
        && (sheet.Err? ==>
              && t.status == Tasks.Error && t.error == sheet.error
              && t.columns == old(t.columns) && t.total == 0 && t.done == 0
              && results == [] && gets == [] && disk' == disk)
        && (sheet.Ok? && Tasks.FirstMissing(sheet.value, t.declared) < |t.declared| ==>
              var m := Tasks.FirstMissing(sheet.value, t.declared);
              && Tasks.AllPresent(sheet.value, t.declared[..m])
              && t.status == Tasks.Error && t.error == Tasks.MissingColumnMessage(t.declared[m])
              && t.columns == old(t.columns) + Tasks.Counts(sheet.value, t.declared[..m])
              && t.total == 0 && t.done == 0 && results == [] && gets == [] && disk' == disk)
        && (sheet.Ok? && Tasks.FirstMissing(sheet.value, t.declared) == |t.declared| ==>
              && Tasks.AllPresent(sheet.value, t.declared)
              && t.columns == old(t.columns) + Tasks.Counts(sheet.value, t.declared)
              && t.total == |Tasks.Units(t.save, sheet.value, t.declared)| && t.done == t.total
              && Tasks.Fetched(results, gets, disk') == Tasks.FetchAll(disk, Tasks.Units(t.save, sheet.value, t.declared), attempts)
              && (archiveError.None? ==> t.status == Tasks.Done)
              && (archiveError.Some? ==> t.status == Tasks.Error && t.error == archiveError.value && t.zip == ""))
    {
      var t := tasks[id];
      results, gets, disk' := t.Run(sheet, disk, attempts, archiveError);
      forall other | other in tasks
        ensures tasks[other].id == other && tasks[other].Valid()
        ensures Tasks.SavesIn(tasks[other].save, tasks[other].workdir)
      {
        if other != id {
          assert tasks[other] != t;
        }
      }
    }

    /** `progress`: the record of a known task, 404 for an unknown one. */
    function Progress(id: string): (r: Result<Report, Rejection>)
      reads this, tasks.Values
      ensures r.Err? <==> id !in tasks
      ensures r.Err? ==> r.error == UnknownTask
      ensures r.Ok? ==> r.value.status == Tasks.StatusName(tasks[id].status)
    {
      if id !in tasks then Err(UnknownTask)
      else
        var t := tasks[id];
        Ok(Report(Tasks.StatusName(t.status), t.progress, t.error, t.columns, t.total, t.done))
    }

    /** `download`: the archive of a finished task; 400 for an unknown or unfinished one. */
    function Download(id: string): (r: Result<Archive, Rejection>)
      reads this, tasks.Values
      ensures r.Ok? <==> id in tasks && tasks[id].status == Tasks.Done
      ensures r.Err? ==> r.error == NotFinished
      ensures r.Ok? ==> r.value.filename == Tasks.ZipName(id)
    {
      if id !in tasks || tasks[id].status != Tasks.Done then Err(NotFinished)
      else Ok(Archive(tasks[id].zip, Tasks.ZipName(id)))
    }

    /**
     What a progress report of a consistent table shows: done never exceeds
     total, the percentage is the rounded-down share, a pending task has
     nothing counted, a finished one has everything done, and an error text
     appears only with the "error" status.
     */
    lemma ProgressConsistent(id: string)
      requires Valid() && Progress(id).Ok?
      ensures var rep := Progress(id).value;
        && rep.done <= rep.total
        && rep.progress == Tasks.Percent(rep.done, rep.total) <= 100
        && rep.columns.Keys == Tasks.DeclaredSet(tasks[id].declared)
        && (rep.status == "pending" ==> rep.total == 0 && rep.done == 0 && rep.progress == 0)
        && (rep.status == "done" ==> rep.done == rep.total)
        && (rep.status != "error" ==> rep.error == "")
    {
      var t := tasks[id];
      assert t.Valid();
    }

    /**
     A download is offered exactly for the archive the run recorded, and
     the offered name is the last component of its path.
     */
    lemma DownloadIsRecordedArchive(id: string)
      requires Valid() && Download(id).Ok? && '/' !in id
      ensures Download(id).value.path == Tasks.ZipPath(tasks[id].workdir, id)
      ensures Basename(Download(id).value.path) == Download(id).value.filename
    {
      assert tasks[id].Valid();
      Tasks.ZipPathBasename(tasks[id].workdir, id);
    }
  }
}
