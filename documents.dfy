/**
 * The two documents a project keeps on disk, and the operations of `squirrel/xml.py`
 * that load one, change the loaded tree step by step and write it back.
 */
module Documents {
  import opened Wrappers
  import opened XmlTree
  import opened Decimal
  import Dates
  import ProjectFile
  import WatchLedger

  /** The ways an operation ends without returning normally. */
  datatype Failure =
    | DocumentNotFound        // `parse`: the file is missing; a message is printed and the process exits
    | BucketAttributeMissing  // `get_watches_data`: a bucket lacks `date` or `prev_count`; the process exits
    | UnwritableAttribute     // `tree.write` cannot serialise a `prev_count` that is None

  /** `parse(path)`: the stored tree, or the terminal not-found condition when there is no file. */
  function Parse(stored: Option<Tree>): (r: Result<Tree, Failure>)
    ensures r.Ok? <==> stored.Some?
    ensures r.Ok? ==> r.value == stored.value
    ensures r.Err? ==> r.error == DocumentNotFound
  {
    match stored
    case None => Err(DocumentNotFound)
    case Some(t) => Ok(t)
  }

  /** What `get_watches_entry` returns: the matching bucket (by position in the root), and the root. */
  datatype Lookup = Lookup(bucket: Option<nat>, root: Tree)

  /**
   * One `if` block of `update_project_file`: when the field is given, rewrite the text
   * of the first element with its tag, or report it missing (the logged error).
   */
  method RewriteField(root: Tree, u: ProjectFile.ProjectUpdate, f: ProjectFile.Field,
                      ghost original: Tree, ghost done: set<ProjectFile.Field>)
    returns (updated: Tree, missing: bool)
    requires f !in done && root == ProjectFile.UpdatedWith(original, u, done)
    ensures updated == ProjectFile.UpdatedWith(original, u, done + {f})
    ensures missing <==> ProjectFile.NewText(u, f).Some? && FindIndex(original.children, ProjectFile.FieldTag(f)).None?
  {
    ProjectFile.ApplyFieldStep(original, u, done, f);
    ProjectFile.UpdatedWithFinds(original, u, done, ProjectFile.FieldTag(f));
    var text := ProjectFile.NewText(u, f);
    updated, missing := root, false;
    if text.Some? {
      match FindIndex(root.children, ProjectFile.FieldTag(f))
      case Some(i) =>
        updated := SetChildText(root, i, text);
      case None =>
        missing := true;
    }
  }

  /** The four `if` blocks of `update_project_file`, in order, after the name has been set. */
  method RewriteFields(root: Tree, u: ProjectFile.ProjectUpdate, ghost original: Tree)
    returns (updated: Tree, skipped: seq<ProjectFile.Field>)
    requires root == ProjectFile.UpdatedWith(original, u, {})
    ensures updated == ProjectFile.Updated(original, u)
    ensures skipped == ProjectFile.Skipped(original, u)
  {
    updated := root;
    skipped := [];
    var missing: bool;
    updated, missing := RewriteField(updated, u, ProjectFile.Description, original, {});
    if missing {
      skipped := skipped + [ProjectFile.Description];
    }
    assert skipped == ProjectFile.Missing(original, u, ProjectFile.Description);
    assert {} + {ProjectFile.Description} == {ProjectFile.Description};
    updated, missing := RewriteField(updated, u, ProjectFile.Goal, original, {ProjectFile.Description});
    if missing {
      skipped := skipped + [ProjectFile.Goal];
    }
    assert skipped == ProjectFile.Missing(original, u, ProjectFile.Description)
                      + ProjectFile.Missing(original, u, ProjectFile.Goal);
    assert {ProjectFile.Description} + {ProjectFile.Goal} == {ProjectFile.Description, ProjectFile.Goal};
    updated, missing := RewriteField(updated, u, ProjectFile.DueDate, original,
                                      {ProjectFile.Description, ProjectFile.Goal});
    if missing {
      skipped := skipped + [ProjectFile.DueDate];
    }
    assert skipped == ProjectFile.Missing(original, u, ProjectFile.Description)
                      + ProjectFile.Missing(original, u, ProjectFile.Goal)
                      + ProjectFile.Missing(original, u, ProjectFile.DueDate);
    assert {ProjectFile.Description, ProjectFile.Goal} + {ProjectFile.DueDate} == {ProjectFile.Description, ProjectFile.Goal, ProjectFile.DueDate};
    updated, missing := RewriteField(updated, u, ProjectFile.ProjectType, original,
                                      {ProjectFile.Description, ProjectFile.Goal, ProjectFile.DueDate});
    if missing {
      skipped := skipped + [ProjectFile.ProjectType];
    }
    assert skipped == ProjectFile.Missing(original, u, ProjectFile.Description)
                      + ProjectFile.Missing(original, u, ProjectFile.Goal)
                      + ProjectFile.Missing(original, u, ProjectFile.DueDate)
                      + ProjectFile.Missing(original, u, ProjectFile.ProjectType);
    assert {ProjectFile.Description, ProjectFile.Goal, ProjectFile.DueDate} + {ProjectFile.ProjectType} == ProjectFile.AllFields;
  }

  class ProjectFiles {
    /** The project descriptor on disk; None when the file does not exist. */
    var project: Option<Tree>
    /** The watch ledger on disk; None when the file does not exist. */
    var watches: Option<Tree>

    constructor (project: Option<Tree>, watches: Option<Tree>)
      ensures this.project == project && this.watches == watches
    {
      this.project := project;
      this.watches := watches;
    }

    /** `build_project_file(data, file)`, `dir` being the directory of `file`. */
    method BuildProjectFile(data: ProjectFile.NewProject, dir: string)
      modifies this
      ensures project == Some(ProjectFile.InitialTree(data, dir))
      ensures watches == old(watches)
    {
      var path := ProjectFile.Leaf("path", map["src" := dir], None);
      var description := ProjectFile.Leaf("description", map[], data.description);
      var dueDate := ProjectFile.Leaf("due-date", map[], ProjectFile.DueText(data.due));
      var goal := ProjectFile.Leaf("goal", map[], Some(IntToString(data.goal)));
      var projectType := ProjectFile.Leaf("project-type", map[], Some(ProjectFile.ProjectTypeText(data.projectType)));
      var squirrel: Tree := Element("squirrel", map["name" := ProjectFile.NameAttribute(data.name)], None, []);
      squirrel := AppendChild(squirrel, path);
      squirrel := AppendChild(squirrel, description);
      squirrel := AppendChild(squirrel, dueDate);
      assert squirrel.children == [path, description, dueDate];
      squirrel := AppendChild(squirrel, goal);
      squirrel := AppendChild(squirrel, projectType);
      assert squirrel.children == [path, description, dueDate, goal, projectType];
      project := Some(squirrel);
    }

    /** `build_project(data, path)`: both documents of a new project, created in `dir`. */
    method BuildProject(data: ProjectFile.NewProject, dir: string)
      modifies this
      ensures project == Some(ProjectFile.InitialTree(data, dir))
      ensures watches == Some(WatchLedger.InitialTree())
    {
      BuildProjectFile(data, dir);
      BuildWatchFile();
    }

    /** `build_watch_file(file)`. */
    method BuildWatchFile()
      modifies this
      ensures watches == Some(WatchLedger.InitialTree())
      ensures project == old(project)
    {
      var squirrel: Tree := Element("squirrel", map[], None, []);
      // `insert(1, comment)` into a root without children makes the comment its first child.
      squirrel := AppendChild(squirrel, Comment(WatchLedger.Disclaimer));
      assert squirrel.children == [Comment(WatchLedger.Disclaimer)];
      watches := Some(squirrel);
    }

    /**
     * `update_project_file(data)`: the fields reported missing, in processing order.
     * A missing element skips only its own field; the tree is written back either way.
     */
    method UpdateProjectFile(u: ProjectFile.ProjectUpdate) returns (r: Result<seq<ProjectFile.Field>, Failure>)
      modifies this
      ensures old(project).None? ==> r == Err(DocumentNotFound) && project == old(project)
      ensures old(project).Some? ==>
        && r == Ok(ProjectFile.Skipped(old(project).value, u))
        && project == Some(ProjectFile.Updated(old(project).value, u))
      ensures watches == old(watches)
    {
      var parsed := Parse(project);
      if parsed.Err? {
        return Err(parsed.error);
      }
      var squirrel := parsed.value;
      ghost var original := squirrel;
      if u.name.Some? {
        squirrel := squirrel.(attrib := squirrel.attrib["name" := u.name.value]);
      }
      ProjectFile.UpdatedWithNothing(original, u);
      var skipped: seq<ProjectFile.Field>;
      squirrel, skipped := RewriteFields(squirrel, u, original);
      project := Some(squirrel);
      r := Ok(skipped);
    }

    /** `get_data_from_project_file()`: the record of the stored descriptor. */
    method GetDataFromProjectFile() returns (r: Result<ProjectFile.ProjectRecord, Failure>)
      ensures project.None? ==> r == Err(DocumentNotFound)
      ensures project.Some? ==> r == Ok(ProjectFile.Read(project.value))
    {
      var parsed := Parse(project);
      if parsed.Err? {
        return Err(parsed.error);
      }
      r := Ok(ProjectFile.Read(parsed.value));
    }

    /**
     * `get_watches_data()`: one summary per bucket in document order, or the exit
     * taken at the first bucket without `date` or `prev_count`.
     */
    method GetWatchesData() returns (r: Result<seq<WatchLedger.Summary>, Failure>)
      ensures watches.None? ==> r == Err(DocumentNotFound)
      ensures watches.Some? ==>
        var buckets := WatchLedger.Buckets(watches.value);
        && (r.Ok? <==> forall k :: 0 <= k < |buckets| ==> WatchLedger.HasSummary(buckets[k]))
        && (r.Err? ==> r.error == BucketAttributeMissing)
        && (r.Ok? ==> |r.value| == |buckets|
                      && forall k :: 0 <= k < |buckets| ==> r.value[k] == WatchLedger.SummaryOf(buckets[k]))
    {
      var parsed := Parse(watches);
      if parsed.Err? {
        return Err(parsed.error);
      }
      var buckets := WatchLedger.Buckets(parsed.value);
      var data: seq<WatchLedger.Summary> := [];
      var i := 0;
      while i < |buckets|
        invariant 0 <= i <= |buckets|
        invariant forall k :: 0 <= k < i ==> WatchLedger.HasSummary(buckets[k])
        invariant |data| == i && forall k :: 0 <= k < i ==> data[k] == WatchLedger.SummaryOf(buckets[k])
      {
        var bucket := buckets[i];
        if !(bucket.Element? && "date" in bucket.attrib && "prev_count" in bucket.attrib) {
          return Err(BucketAttributeMissing);
        }
        data := data + [WatchLedger.Summary(bucket.attrib["date"], bucket.attrib["prev_count"], WatchLedger.LastCount(bucket))];
        i := i + 1;
      }
      r := Ok(data);
    }

    /** `get_watches_entry(date)`: the first bucket keyed by the formatted date, searched in document order. */
    method GetWatchesEntry(date: Dates.CalendarDate) returns (r: Result<Lookup, Failure>)
      ensures watches.None? ==> r == Err(DocumentNotFound)
      ensures watches.Some? ==>
        r == Ok(Lookup(WatchLedger.FirstBucket(watches.value.children, Dates.Format(date)), watches.value))
    {
      var parsed := Parse(watches);
      if parsed.Err? {
        return Err(parsed.error);
      }
      var squirrel := parsed.value;
      var key := Dates.Format(date);
      var i := 0;
      while i < |squirrel.children|
        invariant 0 <= i <= |squirrel.children|
        invariant forall j :: 0 <= j < i ==> !WatchLedger.IsBucketFor(squirrel.children[j], key)
      {
        var node := squirrel.children[i];
        // Only `watches` elements are visited; one without `date` is skipped (the caught KeyError).
        if WatchLedger.IsBucket(node) && "date" in node.attrib && node.attrib["date"] == key {
          WatchLedger.FirstBucketAt(squirrel.children, key, i);
          return Ok(Lookup(Some(i), squirrel));
        }
        i := i + 1;
      }
      r := Ok(Lookup(None, squirrel));
    }

    /**
     * `add_watch_entry(total, dt)`: `Ok(false)` when the count equals the bucket's
     * last, `Ok(true)` once the extended ledger is written back.
     */
    method AddWatchEntry(total: int, at: WatchLedger.Timestamp) returns (r: Result<bool, Failure>)
      modifies this
      ensures project == old(project)
      ensures old(watches).None? ==> r == Err(DocumentNotFound) && watches == old(watches)
      ensures old(watches).Some? ==>
        match WatchLedger.Record(old(watches).value, total, at)
        case Unchanged => r == Ok(false) && watches == old(watches)
        case Recorded(t) => r == Ok(true) && watches == Some(t)
        case Unwritable => r == Err(UnwritableAttribute)
        case Raised => false
    {
      var lookup := GetWatchesEntry(at.date);
      if lookup.Err? {
        return Err(lookup.error);
      }
      var found, root := lookup.value.bucket, lookup.value.root;
      var value := IntToString(total);
      if found.Some? {
        var i := found.value;
        var bucket: Tree := root.children[i];
        if |bucket.children| > 0 {
          if Text(bucket.children[|bucket.children| - 1]) != Some(value) {
            bucket := WatchLedger.MakeWatchEntry(bucket, at.text, value);
          } else {
            return Ok(false);
          }
        } else {
          bucket := WatchLedger.MakeWatchEntry(bucket, at.text, value);
        }
        root := root.(children := root.children[i := bucket]);
      } else {
        var prevCount := WatchLedger.PrevCount(root);
        if prevCount.None? {
          // The new bucket's `prev_count` would be None, which the write cannot serialise.
          return Err(UnwritableAttribute);
        }
        var bucket := WatchLedger.NewBucket(at.date, prevCount.value);
        // The source hands `watches_date` (None on this branch) to `make_watch_entry`,
        // which raises; here the entry goes into the bucket just created (see RecordAsWritten).
        bucket := WatchLedger.MakeWatchEntry(bucket, at.text, value);
        root := AppendChild(root, bucket);
      }
      watches := Some(root);
      r := Ok(true);
    }
  }
}
